# MIND preprocessing and the `MindData` session dataset

This project models the two halves of the MIND data path in LLaRA:

- **`preprocess_mind.py`** is the offline pass. It has four parts:
  - It reads the news catalog (`load_news_mapping`).
  - It turns each interaction-log row into a session record (`create_sequences`). Pass 1 parses every history and groundtruth token and collects all ids, then picks the padding sentinel `max + 1`. Pass 2 drops short or unknown rows, truncates each history to its 50 most recent ids, and pads it with the sentinel.
  - It shuffles the records into train, validation and test slices (`split_data`).
  - It writes the catalog as `id2name.txt` (`save_dataframes`).
- **`data/mind_data.py`** holds the `MindData` dataset class. It has six parts:
  - It reads `id2name.txt` back (`get_news_id2name`).
  - It chooses the table for its stage (`check_files`).
  - It loads that table, removing up to 10 sentinels from each history and resolving titles (`session_data4frame`).
  - It reports its length (`__len__`).
  - It serves one sample bundle per index (`__getitem__`).
  - It has a fallback that draws a random candidate slate (`negative_sampling`).

The Dafny modules follow that structure:

| module | file | models |
|---|---|---|
| `Base` | `base.dfy` | `Option`/`Result`/`Outcome`, `[x] * n`, string concatenation |
| `Text` | `text.dfy` | the Python built-ins the code relies on: `str.strip`, `int(str)`, `str(int)`, `str.split('::')`, `sep.join`, `str.replace`, and the line splitting that `readlines()` performs in text mode |
| `Preprocess` | `preprocess.dfy` | `preprocess_mind.py` |
| `MindDataset` | `mind_data.dfy` | `data/mind_data.py`, with `MindData` as a class whose `check_files` fills its fields |
| `Pipeline` | `pipeline.dfy` | lemmas that join the two files: the catalog dump read back, stored histories unpadded by the loader, and worked examples |

These loops of the source are modelled as Dafny methods with loops. Each is proved against a specification, and the properties are then proved about that specification:

- the catalog loop (`LoadNewsMapping` against the recursive function `NewsMappingOf`);
- pass 1 and pass 2 (`CollectNewsIds` against `IdsOf`, `BuildSessions` against `Records`, both recursive);
- the `id2name.txt` reader (`GetNewsId2Name` against the recursive function `Id2NameOf`);
- `remove_padding` (`RemovePadding` against the recursive function `RemoveUpTo`);
- the frame fill (`SessionDataFrame` against `Frame`, a sequence comprehension over the kept rows);
- negative sampling (`NegativeSampling` against the predicate `IsSlate`, which says what a valid slate is), with `random.shuffle` as the in-place array method `Shuffle`.

The write loop of `save_dataframes` only produces text, so it is the sequence comprehension `DumpLines`: one line per catalog entry, in ascending id order (`DumpLineAt`).

Random choices are modelled as nondeterministic choices, and their contracts hold for every outcome. The shuffle in `split_data` is a permutation supplied by the caller.

The model keeps these behaviours of the code, which a reader might not expect:

- An identifier that does not parse (`int()` raising `ValueError`) aborts the whole catalog load or the whole `create_sequences` call. Such rows are not skipped (`NewsMappingFirstError`, `ParseLogFails`).
- `candidates` is the groundtruth list as given. So `next` appears in it more than once when the log repeats it (`AnswerCanRepeat`).
- The loader removes at most 10 copies of its own fixed sentinel, 130319, from each stored history. It does not read the sentinel preprocessing computed (`max + 1`). Three cases follow:
  - When the computed sentinel is 130319, a history shorter than 40 keeps `40 - len_seq` sentinels (`LoadedHistory`, first clause, and `LoadedHistoryOfLog`).
  - When the computed sentinel is another number, the loader removes none of it, and all `50 - len_seq` sentinels stay (`LoadedHistory`, second clause).
  - When 130319 is a real item id in a history, `remove` deletes that item (`AccessorRemovesRealId`).
- A title containing a lone carriage return is cut at it when `id2name.txt` is read back. Text-mode reading turns the `'\r'` into a line break, which `save_dataframes` does not sanitise (`CarriageReturnCutsTitle`).
- A title containing `"::"` is cut at its first separator when read back, because the reader keeps only the second field of the split line. `SeparatorCutsTitle` proves this when the part before the separator does not end in a colon.

## Model

| member | source | states |
|---|---|---|
| Base.Repeat | preprocess_mind.py:88 | `[x] * n` has length `n` and every element is `x` |
| Text.StripShape | data/mind_data.py:75 | `s.strip(chars)` is the infix left after removing the longest prefix and suffix of stripped characters, and it starts and ends with a kept character |
| Text.StripNewline | data/mind_data.py:75 | `(x + "\n").strip('\n')` gives back `x` when `x` has no line break at either end |
| Text.ParseIntToString | data/mind_data.py:77 | `int(str(n)) == n` for every integer: the id written to the dump reads back as itself |
| Text.NatToString | preprocess_mind.py:137 | `str(n)` of a natural number is a run of digits whose value is `n`, with no leading zero |
| Text.IntToStringChars | preprocess_mind.py:137 | `str(n)` is non-empty and holds only digits and a minus sign, so it never contains `"::"` or a line break |
| Text.Split | data/mind_data.py:75 | `split('::')` yields fields that join back to the input, none holding a separator; there are at least two fields iff the input contains `"::"` |
| Text.SplitFirst | data/mind_data.py:75 | `split('::')` cuts first after a leading field that holds no separator and does not end in a colon |
| Text.SplitPair | data/mind_data.py:75 | an id without `':'` and a title without `"::"`, joined by `"::"`, split back into exactly those two fields |
| Text.Translate | data/mind_data.py:73-74 | universal-newline translation leaves no carriage return in the text |
| Text.TranslateKeeps | data/mind_data.py:73-74 | text without carriage returns is unchanged by newline translation |
| Text.TranslateLoneCarriageReturn | data/mind_data.py:73-74 | a carriage return not followed by a line feed is read as a line feed |
| Text.SplitLines | data/mind_data.py:74 | `readlines()` cuts the text into non-empty lines, each ending at its only `'\n'` except possibly the last, that concatenate back to the text |
| Text.ReadLinesOfTerminated | data/mind_data.py:74 | text written as lines that each end in one `'\n'` and hold no `'\r'` is read back as exactly those lines |
| Preprocess.LoadNewsMapping | preprocess_mind.py:16-27 | the row loop yields `NewsMappingOf(rows)`: both dictionaries, or the error of the first bad identifier |
| Preprocess.NewsMappingStep | preprocess_mind.py:19-24 | one unfolding step: each row sets `id2name[int(id[1:])]` to its title, or "Unknown" if the title is missing, and sets `id2idx[id]` to the number |
| Preprocess.NewsMappingSucceeds | preprocess_mind.py:21 | if every identifier parses after its first character, the load succeeds |
| Preprocess.NewsMappingParsedAll | preprocess_mind.py:21 | if the load succeeds, every identifier parsed |
| Preprocess.NewsMappingFirstError | preprocess_mind.py:21 | a failed load reports the first row whose identifier does not parse, and every earlier row parsed |
| Preprocess.NewsMappingHasRow | preprocess_mind.py:23-24 | every row's number is a key of `id2name`, and its identifier maps to that number in `id2idx` |
| Preprocess.NewsMappingKeySource | preprocess_mind.py:23 | every key of `id2name` is the number of some row |
| Preprocess.NewsMappingLastWins | preprocess_mind.py:23 | when several rows share a number, the title of the last of them is kept |
| Preprocess.CatalogId | preprocess_mind.py:20-21 | `int(id[1:])`: an identifier of at most one character fails; if the characters after the first, whatever it is, are digits, their value is the number |
| Preprocess.ParseNewsId | preprocess_mind.py:29-33 | the empty token and a bare `N` fail; a digit string parses to its value; `N` followed by digits parses to the digits' value |
| Preprocess.IdRulesAgreeOnN | preprocess_mind.py:29-33 | for identifiers starting with `N`, `parse_news_id` agrees with the catalog's `int(id[1:])` |
| Preprocess.IdRulesDiffer | preprocess_mind.py:20-33 | for every leading character other than `N`, a digit, a sign or whitespace, followed by digits (`X7`, say), the catalog reads the digits as the id while the log rule raises `ValueError` |
| Preprocess.ParseTokensSpec | preprocess_mind.py:45 | a token list parses iff every token does; the values come in token order; on failure the error names a token that does not parse |
| Preprocess.ParseLogAt | preprocess_mind.py:42-51 | when pass 1 succeeds, its i-th parsed row is the parse of row i |
| Preprocess.ParseLogSucceeds | preprocess_mind.py:42-51 | pass 1 succeeds when every row parses |
| Preprocess.ParseLogFails | preprocess_mind.py:42-51 | one row that does not parse makes the whole pass fail |
| Preprocess.CollectNewsIds | preprocess_mind.py:41-51 | pass 1 returns the ids of all parsed rows, or the parse error |
| Preprocess.IdsOfCovers | preprocess_mind.py:46-51 | every history and groundtruth id of every row is in `all_news_ids` |
| Preprocess.IdsOfOnly | preprocess_mind.py:46-51 | `all_news_ids` holds nothing but ids of some row |
| Preprocess.SetMax | preprocess_mind.py:54 | `max` of a non-empty set is a member and is at least every member |
| Preprocess.MaxOf | preprocess_mind.py:54 | `max(all_news_ids)` fails exactly on the empty set, and otherwise returns the largest member |
| Preprocess.ChooseSentinel | preprocess_mind.py:53-54 | the sentinel is the given one, or `max + 1`, or an error when no id was observed |
| Preprocess.Recent | preprocess_mind.py:94 | `seq_ids[-50:]` is the suffix of length `min(len, 50)` |
| Preprocess.Padded | preprocess_mind.py:88 | the padded history has length 50: the recent ids, then sentinels |
| Preprocess.BuildRecord | preprocess_mind.py:68-98 | a row yields a record iff its history has at least 3 ids, its groundtruth is non-empty and all groundtruth ids are in the catalog; the record's fields are as stored |
| Preprocess.BuildSessions | preprocess_mind.py:60-98 | pass 2 appends exactly the records of the kept rows, in row order |
| Preprocess.CreateSequences | preprocess_mind.py:35-102 | the records and sentinel of the whole function, or the first error |
| Preprocess.SequencesOfParsed | preprocess_mind.py:35-102 | one unfolding step: once the log parses, the result is the records built from the parsed rows |
| Preprocess.RecordsLast | preprocess_mind.py:91-98 | one unfolding step: the records of a log are those of its prefix, plus the last row's record if that row is kept |
| Preprocess.RecordsFromRows | preprocess_mind.py:62-98 | every stored record is the record of some row |
| Preprocess.RowsToRecords | preprocess_mind.py:62-98 | every kept row's record is stored |
| Preprocess.RecordsWellFormed | preprocess_mind.py:86-98 | every stored record has a 50-long history, `len_seq` equal to the unpadded length, padding only at the tail, and `next` first among the candidates |
| Preprocess.RecordIdsObserved | preprocess_mind.py:46-51 | a record's history, `next` and candidates are all ids pass 1 collected from its row |
| Preprocess.ComputedSentinel | preprocess_mind.py:53-54 | without a given sentinel: no ids is an error, otherwise the sentinel is `max + 1` |
| Preprocess.SentinelAboveAll | preprocess_mind.py:53-54 | the computed sentinel exceeds every observed id, so no record holds it as a real id |
| Preprocess.SentinelOnlyInTail | preprocess_mind.py:88-89 | with the computed sentinel, the first `len_seq` entries are the real history and the sentinel occurs exactly `50 - len_seq` times |
| Preprocess.Gather | preprocess_mind.py:112 | the reordered table puts row `idx[i]` at position `i` |
| Preprocess.PermutationDrop | preprocess_mind.py:112 | removing the last index from a shuffle of `n` rows leaves a shuffle of `n - 1` |
| Preprocess.GatherPermutation | preprocess_mind.py:112 | the shuffled table holds every row exactly as often as before |
| Preprocess.SplitData | preprocess_mind.py:104-119 | the train, validation and test slices have the sizes Python's clamped slices give, and follow one another in the shuffled table |
| Preprocess.SplitPartitions | preprocess_mind.py:104-119 | the three slices have the sizes the bounds give, concatenate to the shuffled table, and together hold every row exactly once |
| Preprocess.SortedIds | preprocess_mind.py:134 | `sorted(items())` lists each catalog id once, in strictly ascending order |
| Preprocess.Sanitize | preprocess_mind.py:136 | the sanitised title keeps its length and has every tab and line feed replaced by a space |
| Preprocess.DumpLine | preprocess_mind.py:136-137 | a dumped line ends in `'\n'` and holds no other line feed and no tab |
| Preprocess.DumpLines | preprocess_mind.py:134-137 | one line per catalog entry, each ending in `'\n'` |
| Preprocess.DumpText | preprocess_mind.py:132-137 | the file is empty iff the catalog is, and otherwise ends with a line feed |
| Pipeline.DumpLineAt | preprocess_mind.py:134-137 | line `i` of `id2name.txt` is `<id>::<title>\n` for the i-th smallest id |
| Pipeline.DumpSingle | preprocess_mind.py:132-137 | a one-entry catalog is dumped as that entry's line |
| Pipeline.SanitizeConcat | preprocess_mind.py:136 | sanitising distributes over concatenation |
| Pipeline.DumpLineTerminated | preprocess_mind.py:137 | a dumped line whose title has no carriage return is exactly one line of the file |
| MindDataset.RemoveFirst | data/mind_data.py:87 | `x.remove(v)` is one element shorter; which element goes is stated by `RemoveFirstCount` and `RemoveFirstOthers` |
| MindDataset.RemoveUpTo | data/mind_data.py:83-90 | the loop removes at most `k` elements |
| MindDataset.IndexOf | data/mind_data.py:87 | `list.remove` acts at the first occurrence: the index holds `v` and nothing before it does |
| MindDataset.RemoveFirstCount | data/mind_data.py:87 | `x.remove(v)` takes exactly one `v` out of the list |
| MindDataset.RemoveFirstOthers | data/mind_data.py:87 | `x.remove(v)` keeps every other element in its order |
| MindDataset.RemoveUpToOthers | data/mind_data.py:83-90 | `remove_padding` keeps every non-sentinel element in its order |
| MindDataset.RemoveUpToCount | data/mind_data.py:83-90 | `remove_padding` removes `min(10, count)` sentinels and changes no other count |
| MindDataset.RemoveUpToClears | data/mind_data.py:83-90 | a history with at most 10 sentinels has none left |
| MindDataset.RemovePadding | data/mind_data.py:83-90 | the try/remove loop computes `RemoveUpTo(xx, sentinel, 10)` |
| MindDataset.Title | data/mind_data.py:96 | `get(id, "Unknown")`: the catalog title if present, otherwise "Unknown" |
| MindDataset.Titles | data/mind_data.py:92-93 | `seq_to_title` maps each id to its title in order |
| MindDataset.ParseLine | data/mind_data.py:75-77 | a line is skipped iff it holds no `"::"` once its line breaks are cut; otherwise it is bad iff `int(ll[0])` raises, and then carries `ll[0]`; an entry's id is `int(ll[0])` and its title `ll[1].strip()`, with no whitespace at either end; fields after the second are ignored |
| MindDataset.GetNewsId2Name | data/mind_data.py:70-78 | reading `id2name.txt` yields `Id2NameOf` of its lines, or an error when the file is missing |
| MindDataset.Id2NameSucceeds | data/mind_data.py:74-77 | the read succeeds iff no line with a separator has an id that fails `int()` |
| MindDataset.Id2NameKeys | data/mind_data.py:76-77 | every key comes from a line that split into at least two fields |
| MindDataset.Id2NameLastWins | data/mind_data.py:77 | a line's title is kept unless a later line has the same id |
| MindDataset.StageFile | data/mind_data.py:61-66 | `train`, `val` and `test` select `train_data.df`, `Val_data.df` and `Test_data.df`; any other stage selects no file |
| MindDataset.LongRows | data/mind_data.py:82 | the filter keeps every row with `len_seq >= 3` exactly as often as it occurs, and no other row |
| MindDataset.LongRowsAppend | data/mind_data.py:82 | the filter keeps the rows' order: filtering a concatenation is concatenating the filtered parts |
| MindDataset.LoadRow | data/mind_data.py:91-97 | a loaded row keeps the stored columns; its history is `remove_padding` of the stored one (`RemoveUpTo`, at most 10 ids removed); its titles are the catalog titles of its history, in order; `next_item_name` is the title of `next`; candidates are the stored ones, or `[]` without that column |
| MindDataset.Frame | data/mind_data.py:80-107 | row i is the i-th kept record loaded by `LoadRow`; one row per kept record, each with `len_seq >= 3`, and no candidates when the table has no `candidates` column |
| MindDataset.SessionDataFrame | data/mind_data.py:80-107 | the loaded frame: for each kept row, the unpadded history, titles, next title, and candidates or `[]` when the column is absent |
| MindDataset.LoadedData | data/mind_data.py:59-68 | a missing dump fails with `id2name.txt`, and a bad catalog line fails with its error; loading succeeds iff the dump parses, the stage has a file and that file exists; then the catalog is the parsed dump and the frame is `Frame` of the stage's table with that catalog, one row per kept record |
| MindDataset.Eligible | data/mind_data.py:54 | `canset` is the catalog ids outside the history, other than `next` |
| MindDataset.PickedSlate | data/mind_data.py:55 | distinct draws from `canset` plus `next` form a slate with `next` exactly once |
| MindDataset.Shuffle | data/mind_data.py:56 | `random.shuffle` leaves the slate a permutation of what it was |
| MindDataset.MindData.constructor | data/mind_data.py:11-19 | fields as given; `aug` iff stage is `train` and augmentation is on |
| MindDataset.MindData.CheckFiles | data/mind_data.py:59-68 | the catalog and frame for the stage are loaded into the object, or the load error is returned |
| MindDataset.MindData.Len | data/mind_data.py:21-22 | `len` is the number of loaded rows |
| MindDataset.MindData.NegativeSampling | data/mind_data.py:52-57 | succeeds iff `0 <= cans_num - 1 <= len(canset)`; the slate has `cans_num` ids, `next` once and the others distinct members of `canset` |
| MindDataset.MindData.GetItem | data/mind_data.py:24-50 | Python-style indexing; stored candidates are used when non-empty, otherwise a negative sample; the bundle's fields are as described |
| MindDataset.Bundle | data/mind_data.py:36-49 | the sample's padded history, history titles and `len_seq` as the row holds them; the candidates, their titles, the joined strings, the slate length and the answer fields |
| MindDataset.SampleOfStoredRow | data/mind_data.py:36-49 | the sample of the i-th loaded row holds the stored padded history and `len_seq`, the titles of the history after `remove_padding`, the stored `next` with its title, and the slate with its titles |
| MindDataset.Open | data/mind_data.py:11-19 | constructing a `MindData` succeeds iff its files load, with the fields set as given |
| Pipeline.DumpLineParses | data/mind_data.py:75-77 | a dumped line without `"::"` in its title parses back to its id and the stripped, sanitised title |
| Pipeline.SeparatorFreeLineSkipped | data/mind_data.py:76 | a line without `"::"` adds no entry |
| Pipeline.Id2NameOfEntries | data/mind_data.py:74-77 | lines that each parse to an entry yield the dictionary of those entries |
| Pipeline.DumpRoundTrip | data/mind_data.py:70-78 | `id2name.txt` written by `save_dataframes` reads back as the catalog with each title sanitised and stripped, when no title holds `'\r'` or `"::"` |
| Pipeline.LoneCarriageReturnSplits | data/mind_data.py:74 | a lone `'\r'` inside dumped text splits it into two lines |
| Pipeline.SeparatorCutsTitle | data/mind_data.py:75-77 | a dumped title `a + "::" + b`, with no separator in `a` and no colon at its end, reads back as the stripped, sanitised `a` |
| Pipeline.CarriageReturnCutsTitle | data/mind_data.py:74 | a title with a lone `'\r'` reads back cut at the carriage return |
| Pipeline.RemoveFromTail | data/mind_data.py:83-90 | `remove_padding` on real ids followed by `c` sentinels leaves `max(0, c - 10)` sentinels |
| Pipeline.RemoveFirstAfter | data/mind_data.py:87 | `remove` on a list whose first sentinel follows a sentinel-free prefix drops exactly that one |
| Pipeline.LoadedHistory | data/mind_data.py:18 | with the preprocessing sentinel the loader leaves `max(0, 40 - len_seq)` sentinels; with another sentinel absent from the history it changes nothing |
| Pipeline.LoadedHistoryOfLog | data/mind_data.py:83-91 | when the loader is given the sentinel preprocessing computed, it restores a stored record's `seq_unpad` iff `len_seq >= 40` |
| Pipeline.AccessorRemovesRealId | data/mind_data.py:18 | when a history holds 130319 as a real item, the loader deletes that item and keeps everything else in order |
| Pipeline.AnswerCanRepeat | preprocess_mind.py:77-78 | a groundtruth list that repeats its first id gives candidates holding `next` twice |
| Pipeline.UserFortyTwo | preprocess_mind.py:62-98 | user 42 with history `N1 N2 N3` and groundtruth `N5`…`N9` yields `len_seq` 3, `next` 5, the five candidates and 47 sentinels |
| Pipeline.UserFortyTwoHistory | preprocess_mind.py:68 | the history tokens of user 42 parse to `[1, 2, 3]` |
| Pipeline.UserFortyTwoGroundtruth | preprocess_mind.py:73 | the groundtruth tokens of user 42 parse to `[5, 6, 7, 8, 9]` |
| Pipeline.ShortHistoryDropped | preprocess_mind.py:69-70 | a history of two ids yields no record |

## Left out

- File and DataFrame I/O (`pd.read_csv`, `to_pickle`, `read_pickle`, `os.makedirs`, `open`) is not modelled. Catalog and log rows arrive as values. `id2name.txt` is an optional string, where none means the file is missing. The stored tables arrive as a map from file name to table.
- `print` logging and `main` are not modelled. `main` is the composition the `Pipeline` lemmas follow.
- Splitting a log cell on whitespace (`seq_str.split()`) and parsing the `user_id` column are not modelled. A log row arrives with its token lists and its integer user id.
- `str(row[k])` applied to a missing cell (`"nan"`) is not modelled.
- `create_sequences` called with the default `news_id2name=None` raises `TypeError` as soon as a row passes the history and groundtruth checks and reaches the catalog lookup at preprocess_mind.py:81. The model always takes a catalog.
- Text.ParseInt: accepts ASCII digits only. Python's `int()` also takes other Unicode decimal digits and `_` separators, and these never occur in MIND identifiers.
- Preprocess.SplitData: `n_train` and `n_val` are parameters. Their floating-point computation `int(n_total * ratio)` is not modelled.
- Preprocess.SplitData: the pandas shuffle with seed 42 is a caller-supplied permutation. Which permutation that seed produces is not modelled.
- MindDataset.MindData.NegativeSampling: holds for every draw `random.sample` and `random.shuffle` could make. Which slate Python's generator produces is not modelled.
- MindDataset.MindData.NegativeSampling: the iteration order of `canset`, which follows dictionary order, is not modelled.
- MindDataset.Shuffle: states only that the array is permuted. Which permutation it applies is not modelled.
- MindDataset.MindData.constructor: takes the sentinel as a parameter. The source fixes it at 130319, the constant `AccessorSentinel`. `data_dir` is replaced by the file contents passed to `CheckFiles`.
- MindDataset.MindData.GetItem: a `candidates` cell that is not a list is not modelled. The model treats candidates as a list that may be empty, and an empty list takes the negative-sampling path as the source does.
- The `torch.utils.data.Dataset` base class and `self.__dict__.update(locals())` are not modelled.
- The pickled train, validation and test tables written by `save_dataframes` are not modelled. Only the `id2name.txt` dump is.
