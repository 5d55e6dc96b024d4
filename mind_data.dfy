/** The read-side accessor of `data/mind_data.py`: the `MindData` dataset object
    that loads the catalog dump and one stage's session table, strips the
    padding sentinel from each stored sequence, resolves titles, and serves
    sample bundles by index. Files are given as values: the dump as its text
    (`None` when the file is missing) and the tables as a map from file name to
    table. */
module MindDataset {
  import opened Base
  import opened Text
  import Preprocess

  /** The sentinel the accessor strips; it does not read the one preprocessing
      computed. */
  const AccessorSentinel: int := 130319

  /** remove_padding gives up after this many removals. */
  const RemovalBound: nat := 10

  /** The title of an id missing from the catalog. */
  const UnknownName: string := "Unknown"

  const Id2NameFile: string := "id2name.txt"

  datatype LoadError =
    | MissingFile(name: string)   // FileNotFoundError
    | NoStageFile                 // `filename` unbound: the stage is not train/val/test
    | BadCatalogId(text: string)  // `int(ll[0])` raised ValueError

  datatype AccessError =
    | IndexError   // `iloc[i]` out of range
    | SampleError  // `random.sample` asked for a negative or too large sample

  /** A pickled session table and whether it has a `candidates` column. */
  datatype Table = Table(rows: seq<Preprocess.SessionRecord>, hasCandidates: bool)

  /** A row of `session_data` after loading: the stored columns, with `seqUnpad`
      recomputed from `seqPadded`, plus the two title columns. */
  datatype LoadedRow = LoadedRow(
    userId: int,
    seqPadded: seq<int>,
    seqUnpad: seq<int>,
    lenSeq: int,
    next: int,
    candidates: seq<int>,
    seqTitle: seq<string>,
    nextItemName: string)

  /** The dictionary `__getitem__` returns. */
  datatype Sample = Sample(
    seqPadded: seq<int>,
    seqName: seq<string>,
    lenSeq: int,
    seqStr: string,
    cans: seq<int>,
    cansName: seq<string>,
    cansStr: string,
    lenCans: int,
    itemId: int,
    itemName: string,
    correctAnswer: string)

  // ---------------------------------------------------------------------------
  // remove_padding
  // ---------------------------------------------------------------------------

  /** `x.index(v)`: the position of the first `v`. */
  function IndexOf(x: seq<int>, v: int): (i: nat)
    requires v in x
    ensures i < |x| && x[i] == v && v !in x[..i]
  {
    if x[0] == v then 0
    else
      var j := IndexOf(x[1..], v);
      assert x[..j + 1] == [x[0]] + x[1..][..j];
      j + 1
  }

  /** `x.remove(v)`: the list without its first `v`. */
  function RemoveFirst(x: seq<int>, v: int): (r: seq<int>)
    requires v in x
    ensures |r| == |x| - 1
  {
    var i := IndexOf(x, v);
    x[..i] + x[i + 1..]
  }

  /** The elements of `x` other than `v`, in their order. */
  function Without(x: seq<int>, v: int): seq<int> {
    if x == [] then [] else (if x[0] == v then [] else [x[0]]) + Without(x[1..], v)
  }

  /** remove_padding's loop: removes the first `v` up to `k` times, stopping
      as soon as none is left. */
  function RemoveUpTo(x: seq<int>, v: int, k: nat): (r: seq<int>)
    ensures |x| - k <= |r| <= |x|
    decreases k
  {
    if k == 0 || v !in x then x
    else
      RemoveUpTo(RemoveFirst(x, v), v, k - 1)
  }

  lemma {:induction false} WithoutAppend(a: seq<int>, b: seq<int>, v: int)
    ensures Without(a + b, v) == Without(a, v) + Without(b, v)
    decreases |a|
  {
    if a != [] {
      WithoutAppend(a[1..], b, v);
      var head := if a[0] == v then [] else [a[0]];
      assert (a + b)[0] == a[0];
      assert (a + b)[1..] == a[1..] + b;
      calc {
        Without(a + b, v);
        head + Without(a[1..] + b, v);
        head + (Without(a[1..], v) + Without(b, v));
        (head + Without(a[1..], v)) + Without(b, v);
        Without(a, v) + Without(b, v);
      }
    } else {
      assert a + b == b;
    }
  }

  /** `x.remove(v)` takes exactly one `v` away ... */
  lemma RemoveFirstCount(x: seq<int>, v: int)
    requires v in x
    ensures |RemoveFirst(x, v)| == |x| - 1
    ensures multiset(RemoveFirst(x, v)) == multiset(x) - multiset{v}
  {
    var i := IndexOf(x, v);
    var pre, post := x[..i], x[i + 1..];
    assert RemoveFirst(x, v) == pre + post;
    assert x == pre + [v] + post;
    assert multiset(x) == multiset(pre) + multiset{v} + multiset(post);
    assert multiset(pre + post) == multiset(pre) + multiset(post);
  }

  /** ... and leaves the other elements in their order. */
  lemma RemoveFirstOthers(x: seq<int>, v: int)
    requires v in x
    ensures Without(RemoveFirst(x, v), v) == Without(x, v)
  {
    var i := IndexOf(x, v);
    var pre, post := x[..i], x[i + 1..];
    assert RemoveFirst(x, v) == pre + post;
    assert x == (pre + [v]) + post;
    assert Without([v], v) == [] by {
      assert [v][1..] == [];
    }
    WithoutAppend(pre + [v], post, v);
    WithoutAppend(pre, [v], v);
    WithoutAppend(pre, post, v);
  }

  /** One round of the loop, when a `v` is left. */
  lemma RemoveUpToStep(x: seq<int>, v: int, k: nat)
    requires k > 0 && v in x
    ensures RemoveUpTo(x, v, k) == RemoveUpTo(RemoveFirst(x, v), v, k - 1)
  {
  }

  /** What remove_padding leaves: the other elements exactly as they were, in
      their order ... */
  lemma {:induction false} RemoveUpToOthers(x: seq<int>, v: int, k: nat)
    ensures Without(RemoveUpTo(x, v, k), v) == Without(x, v)
    decreases k
  {
    if k > 0 && v in x {
      RemoveFirstOthers(x, v);
      RemoveUpToOthers(RemoveFirst(x, v), v, k - 1);
    }
  }

  /** ... and the sentinel `k` times fewer, or none once it has run out. */
  lemma {:induction false} RemoveUpToCount(x: seq<int>, v: int, k: nat)
    ensures multiset(RemoveUpTo(x, v, k)) == multiset(x)[v := Max(0, multiset(x)[v] - k)]
    decreases k, 1
  {
    if k > 0 && v in x {
      RemoveUpToCountStep(x, v, k);
    } else {
      RemoveUpToNothing(x, v, k);
    }
  }

  /** One round removes one `v`; the remaining `k - 1` rounds do the rest. */
  lemma {:induction false} RemoveUpToCountStep(x: seq<int>, v: int, k: nat)
    requires k > 0 && v in x
    ensures multiset(RemoveUpTo(x, v, k)) == multiset(x)[v := Max(0, multiset(x)[v] - k)]
    decreases k, 0
  {
    RemoveUpToStep(x, v, k);
    RemoveFirstCountShift(x, v, k);
    RemoveUpToCount(RemoveFirst(x, v), v, k - 1);
  }

  /** With no round to run or no `v` to take, nothing changes. */
  lemma RemoveUpToNothing(x: seq<int>, v: int, k: nat)
    requires k == 0 || v !in x
    ensures multiset(RemoveUpTo(x, v, k)) == multiset(x)[v := Max(0, multiset(x)[v] - k)]
  {
    var n := Max(0, multiset(x)[v] - k);
    assert n == multiset(x)[v];
    assert multiset(x)[v := n] == multiset(x);
  }

  /** After one `remove`, `k - 1` more removals reach the same count as `k`
      removals from the start. */
  lemma RemoveFirstCountShift(x: seq<int>, v: int, k: nat)
    requires v in x && k > 0
    ensures multiset(RemoveFirst(x, v))[v := Max(0, multiset(RemoveFirst(x, v))[v] - (k - 1))]
      == multiset(x)[v := Max(0, multiset(x)[v] - k)]
  {
    RemoveFirstCount(x, v);
    var y := multiset(RemoveFirst(x, v));
    assert y[v] == multiset(x)[v] - 1;
    var n := Max(0, multiset(x)[v] - k);
    assert y[v := n] == multiset(x)[v := n];
  }

  /** With at most `k` sentinels, none is left. */
  lemma RemoveUpToClears(x: seq<int>, v: int, k: nat)
    requires multiset(x)[v] <= k
    ensures v !in RemoveUpTo(x, v, k)
  {
    RemoveUpToCount(x, v, k);
    assert v !in multiset(RemoveUpTo(x, v, k));
  }

  /** remove_padding on a copy of the stored list. */
  method RemovePadding(xx: seq<int>, pad: int) returns (x: seq<int>)
    ensures x == RemoveUpTo(xx, pad, RemovalBound)
  {
    x := xx;
    for i := 0 to RemovalBound
      invariant RemoveUpTo(x, pad, RemovalBound - i) == RemoveUpTo(xx, pad, RemovalBound)
    {
      if pad !in x {
        break;
      }
      x := RemoveFirst(x, pad);
    }
  }

  // ---------------------------------------------------------------------------
  // Titles
  // ---------------------------------------------------------------------------

  /** `news_id2name.get(id, "Unknown")`. */
  function Title(m: map<int, string>, id: int): (t: string)
    ensures id in m ==> t == m[id]
    ensures id !in m ==> t == UnknownName
  {
    if id in m then m[id] else UnknownName
  }

  /** seq_to_title: the title of each id, in order. */
  function Titles(m: map<int, string>, ids: seq<int>): (r: seq<string>)
    ensures |r| == |ids| && forall k :: 0 <= k < |ids| ==> r[k] == Title(m, ids[k])
  {
    seq(|ids|, k requires 0 <= k < |ids| => Title(m, ids[k]))
  }

  // ---------------------------------------------------------------------------
  // get_news_id2name
  // ---------------------------------------------------------------------------

  /** What one line of the dump contributes. */
  datatype LineParse = Skip | Entry(id: int, title: string) | Bad(text: string)

  /** One line: cut the line breaks at both ends, split on `"::"`; with fewer
      than two fields the line is skipped, otherwise the first field is the id
      and the second, stripped of whitespace, the title. */
  function ParseLine(l: string): (r: LineParse)
    ensures r.Skip? <==> forall j :: !SepAt(Strip(l, IsNewline), j)
    ensures r.Bad? ==> ParseInt(r.text).None?
    ensures r.Entry? ==> r.title == [] || (!IsSpace(r.title[0]) && !IsSpace(r.title[|r.title| - 1]))
    ensures var ll := Split(Strip(l, IsNewline));
      |ll| >= 2 ==>
        && (r.Bad? <==> ParseInt(ll[0]).None?)
        && (r.Bad? ==> r.text == ll[0])
        && (r.Entry? ==> r.id == ParseInt(ll[0]).value && r.title == Strip(ll[1], IsSpace))
  {
    var ll := Split(Strip(l, IsNewline));
    if |ll| < 2 then Skip
    else match ParseInt(ll[0])
      case None => Bad(ll[0])
      case Some(k) =>
        StripEnds(ll[1], IsSpace);
        Entry(k, Strip(ll[1], IsSpace))
  }

  /** The dictionary after the line loop has seen `lines`, or the error of the
      first line whose id does not parse. */
  function Id2NameOf(lines: seq<string>): Result<map<int, string>, LoadError>
    decreases |lines|
  {
    if lines == [] then Success(map[])
    else
      match Id2NameOf(lines[..|lines| - 1])
      case Failure(e) => Failure(e)
      case Success(m) =>
        match ParseLine(lines[|lines| - 1])
        case Skip => Success(m)
        case Bad(t) => Failure(BadCatalogId(t))
        case Entry(k, t) => Success(m[k := t])
  }

  lemma {:induction false} Id2NameFailureSticks(lines: seq<string>, i: nat)
    requires i <= |lines|
    requires Id2NameOf(lines[..i]).Failure?
    ensures Id2NameOf(lines) == Id2NameOf(lines[..i])
    decreases |lines| - i
  {
    if i < |lines| {
      assert lines[..i + 1][..i] == lines[..i];
      Id2NameFailureSticks(lines, i + 1);
    } else {
      assert lines[..i] == lines;
    }
  }

  /** One more line that parses to an entry adds that entry. */
  lemma Id2NameEntryStep(lines: seq<string>, m: map<int, string>, k: int, t: string)
    requires lines != []
    requires Id2NameOf(lines[..|lines| - 1]) == Success(m)
    requires ParseLine(lines[|lines| - 1]) == Entry(k, t)
    ensures Id2NameOf(lines) == Success(m[k := t])
  {
  }

  /** One more line that parses to `Skip` leaves the dictionary as it was. */
  lemma Id2NameSkipStep(lines: seq<string>, m: map<int, string>)
    requires lines != []
    requires Id2NameOf(lines[..|lines| - 1]) == Success(m)
    requires ParseLine(lines[|lines| - 1]) == Skip
    ensures Id2NameOf(lines) == Success(m)
  {
  }

  /** The load after line `i`, from the dictionary built from the lines before it. */
  lemma Id2NameNext(lines: seq<string>, i: nat, m: map<int, string>)
    requires i < |lines| && Id2NameOf(lines[..i]) == Success(m)
    ensures ParseLine(lines[i]).Skip? ==> Id2NameOf(lines[..i + 1]) == Success(m)
    ensures ParseLine(lines[i]).Bad? ==> Id2NameOf(lines[..i + 1]) == Failure(BadCatalogId(ParseLine(lines[i]).text))
    ensures ParseLine(lines[i]).Entry? ==>
      Id2NameOf(lines[..i + 1]) == Success(m[ParseLine(lines[i]).id := ParseLine(lines[i]).title])
  {
    assert lines[..i + 1][..i] == lines[..i];
  }

  /** get_news_id2name: reads `id2name.txt` line by line into a dictionary. */
  method GetNewsId2Name(dump: Option<string>) returns (r: Result<map<int, string>, LoadError>)
    ensures dump.None? ==> r == Failure(MissingFile(Id2NameFile))
    ensures dump.Some? ==> r == Id2NameOf(ReadLines(dump.value))
  {
    if dump.None? {
      return Failure(MissingFile(Id2NameFile));
    }
    var lines := ReadLines(dump.value);
    var newsId2name: map<int, string> := map[];
    for i := 0 to |lines|
      invariant Id2NameOf(lines[..i]) == Success(newsId2name)
    {
      var entry := ParseLine(lines[i]);
      Id2NameNext(lines, i, newsId2name);
      if entry.Bad? {
        Id2NameFailureSticks(lines, i + 1);
        return Failure(BadCatalogId(entry.text));
      }
      if entry.Entry? {
        newsId2name := newsId2name[entry.id := entry.title];
      }
    }
    assert lines[..|lines|] == lines;
    return Success(newsId2name);
  }

  /** The load fails iff some line has an id that does not parse. */
  lemma {:induction false} Id2NameSucceeds(lines: seq<string>)
    ensures Id2NameOf(lines).Success? <==> NoBadLine(lines)
    decreases |lines|
  {
    if lines != [] {
      Id2NameSucceeds(lines[..|lines| - 1]);
      Id2NameStepSucceeds(lines);
      NoBadLineSnoc(lines);
    }
  }

  /** No line has an id that fails to parse. */
  predicate NoBadLine(lines: seq<string>) {
    forall i :: 0 <= i < |lines| ==> !ParseLine(lines[i]).Bad?
  }

  lemma NoBadLineSnoc(lines: seq<string>)
    requires lines != []
    ensures NoBadLine(lines)
      <==> NoBadLine(lines[..|lines| - 1]) && !ParseLine(lines[|lines| - 1]).Bad?
  {
    var init := lines[..|lines| - 1];
    assert forall i :: 0 <= i < |init| ==> init[i] == lines[i];
  }

  /** One more line keeps the load successful iff its id parses. */
  lemma Id2NameStepSucceeds(lines: seq<string>)
    requires lines != []
    ensures Id2NameOf(lines).Success?
      <==> Id2NameOf(lines[..|lines| - 1]).Success? && !ParseLine(lines[|lines| - 1]).Bad?
  {
  }

  /** Every key comes from some line that parsed to an entry with that id. */
  lemma {:induction false} Id2NameKeys(lines: seq<string>)
    requires Id2NameOf(lines).Success?
    ensures forall k :: k in Id2NameOf(lines).value ==>
      exists i :: 0 <= i < |lines| && ParseLine(lines[i]).Entry? && ParseLine(lines[i]).id == k
    decreases |lines|
  {
    if lines != [] {
      var init := lines[..|lines| - 1];
      Id2NameKeys(init);
      forall k | k in Id2NameOf(lines).value
        ensures exists i :: 0 <= i < |lines| && ParseLine(lines[i]).Entry? && ParseLine(lines[i]).id == k
      {
        var last := ParseLine(lines[|lines| - 1]);
        if !(last.Entry? && last.id == k) {
          var i :| 0 <= i < |init| && ParseLine(init[i]).Entry? && ParseLine(init[i]).id == k;
          assert init[i] == lines[i];
        }
      }
    }
  }

  /** The title kept for an id is the one on the last line with that id. */
  lemma {:induction false} Id2NameLastWins(lines: seq<string>, i: nat)
    requires Id2NameOf(lines).Success?
    requires i < |lines| && ParseLine(lines[i]).Entry?
    requires forall j :: i < j < |lines| ==> !(ParseLine(lines[j]).Entry? && ParseLine(lines[j]).id == ParseLine(lines[i]).id)
    ensures ParseLine(lines[i]).id in Id2NameOf(lines).value
    ensures Id2NameOf(lines).value[ParseLine(lines[i]).id] == ParseLine(lines[i]).title
    decreases |lines|
  {
    var init := lines[..|lines| - 1];
    if i < |lines| - 1 {
      assert forall j :: i < j < |init| ==> init[j] == lines[j];
      assert init[i] == lines[i];
      Id2NameLastWins(init, i);
    }
  }

  // ---------------------------------------------------------------------------
  // check_files and session_data4frame
  // ---------------------------------------------------------------------------

  /** The file of each stage; any other stage leaves `filename` unbound. */
  function StageFile(stage: Option<string>): (f: Option<string>)
    ensures f.Some? <==> stage == Some("train") || stage == Some("val") || stage == Some("test")
    ensures stage == Some("train") ==> f == Some("train_data.df")
    ensures stage == Some("val") ==> f == Some("Val_data.df")
    ensures stage == Some("test") ==> f == Some("Test_data.df")
  {
    if stage == Some("train") then Some("train_data.df")
    else if stage == Some("val") then Some("Val_data.df")
    else if stage == Some("test") then Some("Test_data.df")
    else None
  }

  /** `train_data[train_data['len_seq'] >= 3]`: the rows with a history of at
      least 3 ids, in their order. */
  function LongRows(rows: seq<Preprocess.SessionRecord>): (r: seq<Preprocess.SessionRecord>)
    ensures |r| <= |rows|
    ensures forall x :: x in r <==> x in rows && x.lenSeq >= 3
    ensures forall x :: multiset(r)[x] == if x.lenSeq >= 3 then multiset(rows)[x] else 0
    decreases |rows|
  {
    if rows == [] then []
    else
      var rest := LongRows(rows[1..]);
      assert rows == [rows[0]] + rows[1..];
      assert forall x :: x in rows <==> x == rows[0] || x in rows[1..];
      if rows[0].lenSeq >= 3 then [rows[0]] + rest else rest
  }

  /** The filter keeps the rows' order: filtering two tables one after the
      other is filtering their concatenation. */
  lemma {:induction false} LongRowsAppend(a: seq<Preprocess.SessionRecord>, b: seq<Preprocess.SessionRecord>)
    ensures LongRows(a + b) == LongRows(a) + LongRows(b)
    decreases |a|
  {
    if a != [] {
      assert (a + b)[0] == a[0] && (a + b)[1..] == a[1..] + b;
      LongRowsCons(a + b);
      LongRowsCons(a);
      LongRowsAppend(a[1..], b);
    } else {
      assert a + b == b;
    }
  }

  /** The filter's first step: the first row, if it is long enough, then the
      filtered rest. */
  lemma LongRowsCons(rows: seq<Preprocess.SessionRecord>)
    requires rows != []
    ensures LongRows(rows) == (if rows[0].lenSeq >= 3 then [rows[0]] else []) + LongRows(rows[1..])
  {
  }

  /** One stored row as session_data4frame leaves it. */
  function LoadRow(rec: Preprocess.SessionRecord, hasCandidates: bool, m: map<int, string>, pad: int): (r: LoadedRow)
    ensures r.userId == rec.userId && r.seqPadded == rec.seqPadded && r.lenSeq == rec.lenSeq && r.next == rec.next
    ensures |rec.seqPadded| - RemovalBound <= |r.seqUnpad| <= |rec.seqPadded|
    ensures r.seqUnpad == RemoveUpTo(rec.seqPadded, pad, RemovalBound)
    ensures r.candidates == if hasCandidates then rec.candidates else []
    ensures |r.seqTitle| == |r.seqUnpad| && forall k :: 0 <= k < |r.seqUnpad| ==> r.seqTitle[k] == Title(m, r.seqUnpad[k])
    ensures r.nextItemName == Title(m, r.next)
  {
    var unpad := RemoveUpTo(rec.seqPadded, pad, RemovalBound);
    LoadedRow(rec.userId, rec.seqPadded, unpad, rec.lenSeq, rec.next,
              if hasCandidates then rec.candidates else [], Titles(m, unpad), Title(m, rec.next))
  }

  /** session_data4frame: the kept rows, each loaded. */
  function Frame(table: Table, m: map<int, string>, pad: int): (r: seq<LoadedRow>)
    ensures |r| == |LongRows(table.rows)|
    ensures forall i :: 0 <= i < |r| ==> r[i].lenSeq >= 3
    ensures !table.hasCandidates ==> forall i :: 0 <= i < |r| ==> r[i].candidates == []
    ensures forall i :: 0 <= i < |r| ==> r[i] == LoadRow(LongRows(table.rows)[i], table.hasCandidates, m, pad)
  {
    var long := LongRows(table.rows);
    var r := seq(|long|, i requires 0 <= i < |long| => LoadRow(long[i], table.hasCandidates, m, pad));
    LongRowsLong(table.rows);
    LoadedRows(long, r, table.hasCandidates, m, pad);
    r
  }

  /** Rows loaded one for one from long records are long, and have no
      candidates when the table has no such column. */
  lemma LoadedRows(long: seq<Preprocess.SessionRecord>, r: seq<LoadedRow>, hasCandidates: bool, m: map<int, string>, pad: int)
    requires |r| == |long|
    requires forall i :: 0 <= i < |r| ==> r[i] == LoadRow(long[i], hasCandidates, m, pad)
    requires forall i :: 0 <= i < |long| ==> long[i].lenSeq >= 3
    ensures forall i :: 0 <= i < |r| ==> r[i].lenSeq >= 3
    ensures !hasCandidates ==> forall i :: 0 <= i < |r| ==> r[i].candidates == []
  {
  }

  /** Every row the filter keeps has a history of at least 3 ids. */
  lemma LongRowsLong(rows: seq<Preprocess.SessionRecord>)
    ensures forall i :: 0 <= i < |LongRows(rows)| ==> LongRows(rows)[i].lenSeq >= 3
  {
    var r := LongRows(rows);
    forall i | 0 <= i < |r| ensures r[i].lenSeq >= 3 {
      assert r[i] in r;
    }
  }

  /** session_data4frame: filters the table, then fills the derived columns row
      by row. */
  method SessionDataFrame(table: Table, m: map<int, string>, pad: int) returns (rows: seq<LoadedRow>)
    ensures rows == Frame(table, m, pad)
  {
    var long := LongRows(table.rows);
    rows := [];
    for i := 0 to |long|
      invariant |rows| == i
      invariant forall j :: 0 <= j < i ==> rows[j] == LoadRow(long[j], table.hasCandidates, m, pad)
    {
      var rec := long[i];
      var unpad := RemovePadding(rec.seqPadded, pad);
      var candidates := if table.hasCandidates then rec.candidates else [];
      var row := LoadedRow(rec.userId, rec.seqPadded, unpad, rec.lenSeq, rec.next,
                           candidates, Titles(m, unpad), Title(m, rec.next));
      LoadedAppend(rows, long, row, table.hasCandidates, m, pad);
      rows := rows + [row];
    }
  }

  /** One more loaded row keeps the loop's rows in step with the kept records. */
  lemma LoadedAppend(rows: seq<LoadedRow>, long: seq<Preprocess.SessionRecord>, row: LoadedRow,
                     hasCandidates: bool, m: map<int, string>, pad: int)
    requires |rows| < |long|
    requires forall j :: 0 <= j < |rows| ==> rows[j] == LoadRow(long[j], hasCandidates, m, pad)
    requires row == LoadRow(long[|rows|], hasCandidates, m, pad)
    ensures forall j :: 0 <= j < |rows| + 1 ==> (rows + [row])[j] == LoadRow(long[j], hasCandidates, m, pad)
  {
  }

  /** check_files: the catalog first, then the stage's table. */
  function LoadedData(dump: Option<string>, tables: map<string, Table>, stage: Option<string>, pad: int)
    : (r: Result<(map<int, string>, seq<LoadedRow>), LoadError>)
    ensures dump.None? ==> r == Failure(MissingFile(Id2NameFile))
    ensures dump.Some? && Id2NameOf(ReadLines(dump.value)).Failure? ==> r == Failure(Id2NameOf(ReadLines(dump.value)).error)
    ensures r.Success? <==>
      && dump.Some? && Id2NameOf(ReadLines(dump.value)).Success?
      && StageFile(stage).Some? && StageFile(stage).value in tables
    ensures r.Success? ==>
      && r.value.0 == Id2NameOf(ReadLines(dump.value)).value
      && |r.value.1| == |LongRows(tables[StageFile(stage).value].rows)|
      && r.value.1 == Frame(tables[StageFile(stage).value], r.value.0, pad)
  {
    if dump.None? then Failure(MissingFile(Id2NameFile))
    else match Id2NameOf(ReadLines(dump.value))
      case Failure(e) => Failure(e)
      case Success(m) =>
        match StageFile(stage)
        case None => Failure(NoStageFile)
        case Some(f) =>
          if f !in tables then Failure(MissingFile(f))
          else Success((m, Frame(tables[f], m, pad)))
  }

  // ---------------------------------------------------------------------------
  // Negative sampling
  // ---------------------------------------------------------------------------

  /** `canset`: the catalog ids that are neither in the history nor the answer. */
  function Eligible(m: map<int, string>, seqUnpad: seq<int>, nextItem: int): (s: set<int>)
    ensures forall x :: x in s <==> x in m && x !in seqUnpad && x != nextItem
  {
    set x | x in m.Keys && x !in seqUnpad && x != nextItem
  }

  /** A slate of `n` ids with the answer exactly once and every other id a
      distinct member of `eligible`. */
  ghost predicate IsSlate(s: seq<int>, n: int, eligible: set<int>, nextItem: int) {
    && |s| == n
    && multiset(s)[nextItem] == 1
    && forall x :: x in multiset(s) && x != nextItem ==> x in eligible && multiset(s)[x] == 1
  }

  /** `picked` holds distinct ids drawn from `eligible`, and `remaining` the ones
      not drawn yet. */
  ghost predicate Drawn(picked: seq<int>, remaining: set<int>, eligible: set<int>) {
    && remaining <= eligible
    && |remaining| == |eligible| - |picked|
    && forall x :: x in multiset(picked) ==> x in eligible && x !in remaining && multiset(picked)[x] == 1
  }

  /** Drawing one more remaining id keeps the draw distinct. */
  lemma DrawStep(picked: seq<int>, remaining: set<int>, eligible: set<int>, x: int)
    requires Drawn(picked, remaining, eligible) && x in remaining
    ensures Drawn(picked + [x], remaining - {x}, eligible)
  {
    assert multiset(picked + [x]) == multiset(picked) + multiset{x};
    assert x !in multiset(picked);
  }

  /** Distinct eligible ids followed by the answer make a slate. */
  lemma PickedSlate(picked: seq<int>, eligible: set<int>, nextItem: int, n: int)
    requires nextItem !in eligible
    requires |picked| == n - 1
    requires forall x :: x in multiset(picked) ==> x in eligible && multiset(picked)[x] == 1
    ensures IsSlate(picked + [nextItem], n, eligible, nextItem)
  {
    var s := picked + [nextItem];
    assert multiset(s) == multiset(picked) + multiset{nextItem};
    assert nextItem !in multiset(picked);
  }

  /** A fresh array holding `s`. */
  method ToArray(s: seq<int>) returns (a: array<int>)
    ensures fresh(a) && a[..] == s
  {
    a := new int[|s|](i requires 0 <= i < |s| => s[i]);
  }

  /** `random.shuffle`: for each position from the last down to 1, swap it with a
      position at or below it chosen at random. */
  method Shuffle(a: array<int>)
    modifies a
    ensures multiset(a[..]) == multiset(old(a[..]))
  {
    var i := a.Length - 1;
    while i > 0
      invariant i < a.Length
      invariant multiset(a[..]) == multiset(old(a[..]))
      decreases i
    {
      var j :| 0 <= j <= i;
      a[i], a[j] := a[j], a[i];
      i := i - 1;
    }
  }

  // ---------------------------------------------------------------------------
  // The dataset object
  // ---------------------------------------------------------------------------

  class MindData {
    const stage: Option<string>
    const cansNum: int
    const sep: string
    const aug: bool
    const paddingItemId: int
    var itemId2name: map<int, string>
    var sessionData: seq<LoadedRow>

    /** `__init__` up to check_files: the settings, and `aug` only for an
        augmented training set. */
    constructor (stage: Option<string>, cansNum: int, sep: string, noAugment: bool, paddingItemId: int)
      ensures this.stage == stage && this.cansNum == cansNum && this.sep == sep
      ensures this.paddingItemId == paddingItemId
      ensures aug <==> stage == Some("train") && !noAugment
      ensures itemId2name == map[] && sessionData == []
    {
      this.stage := stage;
      this.cansNum := cansNum;
      this.sep := sep;
      this.aug := stage == Some("train") && !noAugment;
      this.paddingItemId := paddingItemId;
      itemId2name := map[];
      sessionData := [];
    }

    /** check_files: loads the catalog, picks the stage's file and loads it. */
    method CheckFiles(dump: Option<string>, tables: map<string, Table>) returns (o: Outcome<LoadError>)
      modifies this
      ensures o.Pass? <==> LoadedData(dump, tables, stage, paddingItemId).Success?
      ensures o.Fail? ==> o.error == LoadedData(dump, tables, stage, paddingItemId).error
      ensures o.Pass? ==> (itemId2name, sessionData) == LoadedData(dump, tables, stage, paddingItemId).value
    {
      var m := GetNewsId2Name(dump);
      if m.Failure? {
        return Fail(m.error);
      }
      itemId2name := m.value;
      var filename := StageFile(stage);
      if filename.None? {
        return Fail(NoStageFile);
      }
      if filename.value !in tables {
        return Fail(MissingFile(filename.value));
      }
      sessionData := SessionDataFrame(tables[filename.value], itemId2name, paddingItemId);
      return Pass;
    }

    /** `__len__`. */
    function Len(): (n: nat)
      reads this
      ensures n == |sessionData|
    {
      |sessionData|
    }

    /** negative_sampling: `cansNum - 1` distinct eligible ids drawn at random,
        the answer appended, the whole list shuffled. */
    method NegativeSampling(seqUnpad: seq<int>, nextItem: int) returns (r: Result<seq<int>, AccessError>)
      ensures r.Success? <==> 0 <= cansNum - 1 <= |Eligible(itemId2name, seqUnpad, nextItem)|
      ensures r.Failure? ==> r.error == SampleError
      ensures r.Success? ==> IsSlate(r.value, cansNum, Eligible(itemId2name, seqUnpad, nextItem), nextItem)
    {
      var canset := Eligible(itemId2name, seqUnpad, nextItem);
      if cansNum - 1 < 0 || cansNum - 1 > |canset| {
        return Failure(SampleError);
      }
      var picked: seq<int> := [];
      var remaining := canset;
      while |picked| < cansNum - 1
        invariant |picked| <= cansNum - 1
        invariant Drawn(picked, remaining, canset)
        decreases cansNum - 1 - |picked|
      {
        NonEmptyHasMember(remaining);
        var x :| x in remaining;
        DrawStep(picked, remaining, canset, x);
        picked := picked + [x];
        remaining := remaining - {x};
      }
      var candidates := picked + [nextItem];
      PickedSlate(picked, canset, nextItem, cansNum);
      var a := ToArray(candidates);
      Shuffle(a);
      return Success(a[..]);
    }

    /** `__getitem__`: the row at `i` (negative `i` counts from the end), its
        stored candidates or, when there are none, a sampled slate, and the
        bundle built from them. */
    method GetItem(i: int) returns (r: Result<Sample, AccessError>)
      ensures !(-|sessionData| <= i < |sessionData|) ==> r == Failure(IndexError)
      ensures -|sessionData| <= i < |sessionData| ==>
        var row := sessionData[if i < 0 then i + |sessionData| else i];
        && (|row.candidates| > 0 ==> r == Success(Bundle(row, row.candidates, itemId2name, sep)))
        && (|row.candidates| == 0 ==>
             && (r.Success? <==> 0 <= cansNum - 1 <= |Eligible(itemId2name, row.seqUnpad, row.next)|)
             && (r.Failure? ==> r.error == SampleError)
             && (r.Success? ==>
                   && r.value == Bundle(row, r.value.cans, itemId2name, sep)
                   && IsSlate(r.value.cans, cansNum, Eligible(itemId2name, row.seqUnpad, row.next), row.next)))
    {
      var n := |sessionData|;
      if !(-n <= i < n) {
        return Failure(IndexError);
      }
      var temp := sessionData[if i < 0 then i + n else i];
      var candidates: seq<int>;
      if |temp.candidates| > 0 {
        candidates := temp.candidates;
      } else {
        var sampled := NegativeSampling(temp.seqUnpad, temp.next);
        if sampled.Failure? {
          return Failure(sampled.error);
        }
        candidates := sampled.value;
      }
      var cansName := Titles(itemId2name, candidates);
      return Success(Sample(temp.seqPadded, temp.seqTitle, temp.lenSeq, Join(sep, temp.seqTitle),
                            candidates, cansName, Join(sep, cansName), |candidates|,
                            temp.next, temp.nextItemName, temp.nextItemName));
    }
  }

  /** The bundle for a row and its slate: each candidate's title, both lists
      joined with `sep`, and the answer's id and title. */
  function Bundle(row: LoadedRow, cans: seq<int>, m: map<int, string>, sep: string): (b: Sample)
    ensures b.seqPadded == row.seqPadded && b.seqName == row.seqTitle && b.lenSeq == row.lenSeq
    ensures b.cans == cans && b.lenCans == |cans|
    ensures |b.cansName| == |cans| && forall k :: 0 <= k < |cans| ==> b.cansName[k] == Title(m, cans[k])
    ensures b.seqStr == Join(sep, row.seqTitle) && b.cansStr == Join(sep, b.cansName)
    ensures b.itemId == row.next && b.itemName == row.nextItemName && b.correctAnswer == row.nextItemName
  {
    var cansName := Titles(m, cans);
    Sample(row.seqPadded, row.seqTitle, row.lenSeq, Join(sep, row.seqTitle),
           cans, cansName, Join(sep, cansName), |cans|, row.next, row.nextItemName, row.nextItemName)
  }

  /** What `__getitem__` returns for the i-th loaded row, in terms of the
      stored record it came from: the padded history and `len_seq` as stored,
      the titles of the history with up to 10 sentinels removed, and the
      answer with its title. */
  lemma SampleOfStoredRow(table: Table, m: map<int, string>, pad: int, i: int, cans: seq<int>, sep: string)
    requires 0 <= i < |LongRows(table.rows)|
    ensures var rec := LongRows(table.rows)[i];
      var b := Bundle(Frame(table, m, pad)[i], cans, m, sep);
      && b.seqPadded == rec.seqPadded && b.lenSeq == rec.lenSeq
      && b.seqName == Titles(m, RemoveUpTo(rec.seqPadded, pad, RemovalBound))
      && b.itemId == rec.next && b.itemName == Title(m, rec.next)
      && b.cans == cans && b.cansName == Titles(m, cans)
  {
    var row := Frame(table, m, pad)[i];
    assert row == LoadRow(LongRows(table.rows)[i], table.hasCandidates, m, pad);
  }

  /** Opening a dataset: `__init__` with its check_files. */
  method Open(dump: Option<string>, tables: map<string, Table>, stage: Option<string>,
              cansNum: int, sep: string, noAugment: bool, paddingItemId: int)
    returns (r: Result<MindData, LoadError>)
    ensures r.Success? <==> LoadedData(dump, tables, stage, paddingItemId).Success?
    ensures r.Failure? ==> r.error == LoadedData(dump, tables, stage, paddingItemId).error
    ensures r.Success? ==>
      && fresh(r.value)
      && r.value.stage == stage && r.value.cansNum == cansNum && r.value.sep == sep
      && r.value.paddingItemId == paddingItemId
      && (r.value.aug <==> stage == Some("train") && !noAugment)
      && (r.value.itemId2name, r.value.sessionData) == LoadedData(dump, tables, stage, paddingItemId).value
  {
    var d := new MindData(stage, cansNum, sep, noAugment, paddingItemId);
    var o := d.CheckFiles(dump, tables);
    if o.Fail? {
      return Failure(o.error);
    }
    return Success(d);
  }
}
