/** The offline record-construction pipeline of `preprocess_mind.py`: the item
    catalog, the two-pass session builder with its drop rules, padding and
    truncation, the seeded train/validation/test split, and the catalog dump.
    Tables are sequences of rows; a cell that pandas reads as NaN is `None`. */
module Preprocess {
  import opened Base
  import opened Text

  /** `max_len`: every stored sequence has exactly this many ids. */
  const MaxLen: nat := 50

  /** The title recorded for a catalog row whose title cell is missing. */
  const UnknownTitle: string := "Unknown"

  datatype PreprocessError =
    | BadId(text: string)  // `int(...)` raised ValueError on this text
    | NoIds                // `max()` of an empty id set raised ValueError

  // ---------------------------------------------------------------------------
  // Item catalog: load_news_mapping
  // ---------------------------------------------------------------------------

  /** The two cells of a metadata row the catalog uses: column 0 (the item
      identifier as text) and column 3 (the title, `None` when NaN). */
  datatype NewsRow = NewsRow(newsId: string, title: Option<string>)

  datatype NewsMapping = NewsMapping(id2name: map<int, string>, id2idx: map<string, int>)

  /** The catalog's id rule `int(news_id_str[1:])`: the first character is dropped
      whatever it is. */
  function CatalogId(newsId: string): (r: Option<int>)
    ensures |newsId| <= 1 ==> r.None?
    ensures |newsId| > 0 && IsDigits(newsId[1..]) ==> r == Some(DigitsValue(newsId[1..]))
  {
    var tail := if |newsId| == 0 then newsId else newsId[1..];
    if IsDigits(tail) then DigitsParse(tail); ParseInt(tail) else ParseInt(tail)
  }

  function TitleOf(row: NewsRow): string {
    match row.title
    case Some(t) => t
    case None => UnknownTitle
  }

  /** Both dictionaries after the row loop has seen `rows`, or the `ValueError`
      of the first row whose identifier does not parse. */
  function NewsMappingOf(rows: seq<NewsRow>): Result<NewsMapping, PreprocessError>
    decreases |rows|
  {
    if rows == [] then Success(NewsMapping(map[], map[]))
    else
      match NewsMappingOf(rows[..|rows| - 1])
      case Failure(e) => Failure(e)
      case Success(m) =>
        var row := rows[|rows| - 1];
        match CatalogId(row.newsId)
        case None => Failure(BadId(row.newsId))
        case Some(k) => Success(NewsMapping(m.id2name[k := TitleOf(row)], m.id2idx[row.newsId := k]))
  }

  lemma {:induction false} NewsMappingFailureSticks(rows: seq<NewsRow>, i: nat)
    requires i <= |rows|
    requires NewsMappingOf(rows[..i]).Failure?
    ensures NewsMappingOf(rows) == NewsMappingOf(rows[..i])
    decreases |rows| - i
  {
    if i < |rows| {
      assert rows[..i + 1][..i] == rows[..i];
      NewsMappingFailureSticks(rows, i + 1);
    } else {
      assert rows[..i] == rows;
    }
  }

  /** load_news_mapping: fills `news_id2name` and `news_id2idx` row by row. */
  method LoadNewsMapping(rows: seq<NewsRow>) returns (r: Result<NewsMapping, PreprocessError>)
    ensures r == NewsMappingOf(rows)
  {
    var id2name: map<int, string> := map[];
    var id2idx: map<string, int> := map[];
    for i := 0 to |rows|
      invariant NewsMappingOf(rows[..i]) == Success(NewsMapping(id2name, id2idx))
    {
      var row := rows[i];
      assert rows[..i + 1][..i] == rows[..i];
      var newsIdNum := CatalogId(row.newsId);
      if newsIdNum.None? {
        NewsMappingFailureSticks(rows, i + 1);
        return Failure(BadId(row.newsId));
      }
      var newsTitle := if row.title.Some? then row.title.value else UnknownTitle;
      id2name := id2name[newsIdNum.value := newsTitle];
      id2idx := id2idx[row.newsId := newsIdNum.value];
    }
    assert rows[..|rows|] == rows;
    return Success(NewsMapping(id2name, id2idx));
  }

  /** One more row: its parsed id gets its title and its text gets its id. */
  lemma NewsMappingStep(rows: seq<NewsRow>)
    requires rows != []
    requires NewsMappingOf(rows).Success?
    ensures NewsMappingOf(rows[..|rows| - 1]).Success?
    ensures CatalogId(rows[|rows| - 1].newsId).Some?
    ensures var m0 := NewsMappingOf(rows[..|rows| - 1]).value;
      var last := rows[|rows| - 1];
      var k := CatalogId(last.newsId).value;
      NewsMappingOf(rows).value == NewsMapping(m0.id2name[k := TitleOf(last)], m0.id2idx[last.newsId := k])
  {
  }

  /** A successful load has parsed every identifier. */
  lemma {:induction false} NewsMappingParsedAll(rows: seq<NewsRow>)
    requires NewsMappingOf(rows).Success?
    ensures forall i :: 0 <= i < |rows| ==> CatalogId(rows[i].newsId).Some?
    decreases |rows|
  {
    if rows != [] {
      var init := rows[..|rows| - 1];
      NewsMappingStep(rows);
      NewsMappingParsedAll(init);
      ParsedSnoc(init, rows);
    }
  }

  /** Every identifier of `rows` parses once those of its prefix and its last
      row do. */
  lemma ParsedSnoc(init: seq<NewsRow>, rows: seq<NewsRow>)
    requires rows != [] && init == rows[..|rows| - 1]
    requires forall i :: 0 <= i < |init| ==> CatalogId(init[i].newsId).Some?
    requires CatalogId(rows[|rows| - 1].newsId).Some?
    ensures forall i :: 0 <= i < |rows| ==> CatalogId(rows[i].newsId).Some?
  {
    var ok := (r: NewsRow) => CatalogId(r.newsId).Some?;
    assert forall i :: 0 <= i < |init| ==> ok(init[i]);
    assert ok(rows[|rows| - 1]);
    Base.SnocAll(init, rows, ok);
    assert forall i :: 0 <= i < |rows| ==> ok(rows[i]);
  }

  /** When every identifier parses, the load succeeds. */
  lemma {:induction false} NewsMappingSucceeds(rows: seq<NewsRow>)
    requires forall i :: 0 <= i < |rows| ==> CatalogId(rows[i].newsId).Some?
    ensures NewsMappingOf(rows).Success?
    decreases |rows|
  {
    if rows != [] {
      var init := rows[..|rows| - 1];
      assert forall i :: 0 <= i < |init| ==> init[i] == rows[i];
      NewsMappingSucceeds(init);
      assert CatalogId(rows[|rows| - 1].newsId).Some?;
    }
  }

  /** A failed load reports the `ValueError` of the first identifier that does
      not parse. */
  lemma {:induction false} NewsMappingFirstError(rows: seq<NewsRow>)
    requires NewsMappingOf(rows).Failure?
    ensures exists i :: (0 <= i < |rows| && CatalogId(rows[i].newsId).None?
      && (forall j :: 0 <= j < i ==> CatalogId(rows[j].newsId).Some?)
      && NewsMappingOf(rows).error == BadId(rows[i].newsId))
    decreases |rows|
  {
    var n := |rows| - 1;
    var init := rows[..n];
    if NewsMappingOf(init).Failure? {
      NewsMappingFailureSticks(rows, n);
      NewsMappingFirstError(init);
      var i :| (0 <= i < |init| && CatalogId(init[i].newsId).None?
        && (forall j :: 0 <= j < i ==> CatalogId(init[j].newsId).Some?)
        && NewsMappingOf(init).error == BadId(init[i].newsId));
      forall j | 0 <= j <= i ensures rows[j] == init[j] {
      }
      assert CatalogId(rows[i].newsId).None?;
    } else {
      NewsMappingLastFails(rows);
      NewsMappingParsedAll(init);
      forall j | 0 <= j < n ensures CatalogId(rows[j].newsId).Some? {
        assert rows[j] == init[j];
      }
      assert CatalogId(rows[n].newsId).None?;
    }
  }

  /** After a successful prefix, a failure is the last row's. */
  lemma NewsMappingLastFails(rows: seq<NewsRow>)
    requires rows != []
    requires NewsMappingOf(rows[..|rows| - 1]).Success?
    requires NewsMappingOf(rows).Failure?
    ensures CatalogId(rows[|rows| - 1].newsId).None?
    ensures NewsMappingOf(rows).error == BadId(rows[|rows| - 1].newsId)
  {
  }

  /** Every row's numeric id is a catalog key, and its identifier text is
      recorded with that numeric id. */
  lemma {:induction false} NewsMappingHasRow(rows: seq<NewsRow>, i: nat)
    requires NewsMappingOf(rows).Success?
    requires i < |rows|
    ensures CatalogId(rows[i].newsId).Some?
    ensures CatalogId(rows[i].newsId).value in NewsMappingOf(rows).value.id2name
    ensures rows[i].newsId in NewsMappingOf(rows).value.id2idx
    ensures NewsMappingOf(rows).value.id2idx[rows[i].newsId] == CatalogId(rows[i].newsId).value
    decreases |rows|
  {
    var init, last := rows[..|rows| - 1], rows[|rows| - 1];
    NewsMappingStep(rows);
    var m0, k := NewsMappingOf(init).value, CatalogId(last.newsId).value;
    if i < |init| && rows[i].newsId != last.newsId {
      assert init[i] == rows[i];
      NewsMappingHasRow(init, i);
      UpdateKeepsRow(m0, k, TitleOf(last), last.newsId, rows[i].newsId, CatalogId(rows[i].newsId).value);
    } else {
      assert rows[i].newsId == last.newsId;
    }
  }

  /** Adding a row with another identifier keeps an earlier row's entries. */
  lemma UpdateKeepsRow(m0: NewsMapping, k: int, t: string, id: string, rowId: string, rowK: int)
    requires rowK in m0.id2name && rowId in m0.id2idx && m0.id2idx[rowId] == rowK && rowId != id
    ensures rowK in m0.id2name[k := t] && rowId in m0.id2idx[id := k] && m0.id2idx[id := k][rowId] == rowK
  {
  }

  /** No catalog key comes from anywhere but a row. */
  lemma {:induction false} NewsMappingKeySource(rows: seq<NewsRow>, k: int)
    requires NewsMappingOf(rows).Success?
    requires k in NewsMappingOf(rows).value.id2name
    ensures exists i :: 0 <= i < |rows| && CatalogId(rows[i].newsId) == Some(k)
    decreases |rows|
  {
    var init := rows[..|rows| - 1];
    NewsMappingStep(rows);
    if k != CatalogId(rows[|rows| - 1].newsId).value {
      NewsMappingKeySource(init, k);
      var i :| 0 <= i < |init| && CatalogId(init[i].newsId) == Some(k);
      assert rows[i] == init[i];
    }
  }

  /** A later row with the same numeric id overwrites an earlier one: the title
      kept for an id is that of the last row carrying it, `"Unknown"` if that row
      has no title. */
  lemma {:induction false} NewsMappingLastWins(rows: seq<NewsRow>, i: nat)
    requires NewsMappingOf(rows).Success?
    requires i < |rows|
    requires forall j :: i < j < |rows| ==> CatalogId(rows[j].newsId) != CatalogId(rows[i].newsId)
    ensures CatalogId(rows[i].newsId).Some?
    ensures CatalogId(rows[i].newsId).value in NewsMappingOf(rows).value.id2name
    ensures NewsMappingOf(rows).value.id2name[CatalogId(rows[i].newsId).value] == TitleOf(rows[i])
    decreases |rows|
  {
    var init := rows[..|rows| - 1];
    if i < |rows| - 1 {
      assert forall j :: i < j < |init| ==> init[j] == rows[j];
      NewsMappingLastWins(init, i);
      assert init[i] == rows[i];
    }
  }

  // ---------------------------------------------------------------------------
  // Interaction-log ids: parse_news_id
  // ---------------------------------------------------------------------------

  /** parse_news_id: a token starting with `N` loses that letter, any other token
      is parsed whole; `None` is the `ValueError` of `int`. */
  function ParseNewsId(token: string): (r: Option<int>)
    ensures token == "" || token == "N" ==> r.None?
    ensures IsDigits(token) ==> r == Some(DigitsValue(token))
    ensures |token| > 0 && token[0] == 'N' && IsDigits(token[1..]) ==> r == Some(DigitsValue(token[1..]))
  {
    var body := if |token| > 0 && token[0] == 'N' then token[1..] else token;
    if IsDigits(body) then DigitsParse(body); ParseInt(body) else ParseInt(body)
  }

  lemma DigitsParse(d: string)
    requires IsDigits(d)
    ensures ParseInt(d) == Some(DigitsValue(d))
  {
    assert !IsSpace(d[0]) && !IsSpace(d[|d| - 1]);
    StripKeeps(d, IsSpace);
  }

  /** On tokens that start with `N` the catalog rule and the log rule agree. */
  lemma IdRulesAgreeOnN(token: string)
    requires |token| > 0 && token[0] == 'N'
    ensures CatalogId(token) == ParseNewsId(token)
  {
  }

  /** Elsewhere they differ: after any other leading character that is not a
      digit, a sign or whitespace (`X7`, say), the catalog reads the digits as
      the id while the log rule raises. */
  lemma IdRulesDiffer(c: char, d: string)
    requires c != 'N' && !IsDigit(c) && c != '+' && c != '-' && !IsSpace(c)
    requires IsDigits(d)
    ensures CatalogId([c] + d) == Some(DigitsValue(d))
    ensures ParseNewsId([c] + d) == None
  {
    var t := [c] + d;
    assert t[1..] == d;
    assert t[|t| - 1] == d[|d| - 1];
    assert !IsSpace(t[0]) && !IsSpace(t[|t| - 1]);
    StripKeeps(t, IsSpace);
  }

  /** `[parse_news_id(nid) for nid in tokens]`: every token parsed in order, or
      the `ValueError` of the first token that does not parse. */
  function ParseTokens(tokens: seq<string>): (r: Result<seq<int>, PreprocessError>)
    ensures r.Success? ==> |r.value| == |tokens|
  {
    if tokens == [] then Success([])
    else match ParseNewsId(tokens[0])
      case None => Failure(BadId(tokens[0]))
      case Some(id) =>
        match ParseTokens(tokens[1..])
        case Failure(e) => Failure(e)
        case Success(rest) => Success([id] + rest)
  }

  /** The list parses iff every token does; it then holds each token's value in
      order, and otherwise reports a token that does not parse. */
  lemma {:induction false} ParseTokensSpec(tokens: seq<string>)
    ensures var r := ParseTokens(tokens);
      && (r.Success? <==> forall k :: 0 <= k < |tokens| ==> ParseNewsId(tokens[k]).Some?)
      && (r.Success? ==> forall k :: 0 <= k < |tokens| ==> ParseNewsId(tokens[k]) == Some(r.value[k]))
      && (r.Failure? ==> exists k :: 0 <= k < |tokens| && ParseNewsId(tokens[k]).None? && r.error == BadId(tokens[k]))
    decreases |tokens|
  {
    if tokens != [] {
      var tail := tokens[1..];
      ParseTokensSpec(tail);
      assert forall k :: 1 <= k < |tokens| ==> tokens[k] == tail[k - 1];
      var r := ParseTokens(tokens);
      if ParseNewsId(tokens[0]).Some? && ParseTokens(tail).Failure? {
        var k :| 0 <= k < |tail| && ParseNewsId(tail[k]).None? && r.error == BadId(tail[k]);
        assert tokens[k + 1] == tail[k];
      }
    }
  }

  // ---------------------------------------------------------------------------
  // Session records: create_sequences
  // ---------------------------------------------------------------------------

  /** A log row: the user id, the history tokens and the groundtruth tokens (the
      second and third columns, already split on whitespace). */
  datatype LogRow = LogRow(userId: int, seqTokens: seq<string>, gtTokens: seq<string>)

  datatype ParsedRow = ParsedRow(userId: int, seqIds: seq<int>, gtIds: seq<int>)

  /** A persisted session: `seq` is padded to `MaxLen`, `seqUnpad` holds the most
      recent real ids, `next` the answer and `candidates` the slate. */
  datatype SessionRecord = SessionRecord(
    userId: int,
    seqPadded: seq<int>,
    seqUnpad: seq<int>,
    lenSeq: int,
    next: int,
    candidates: seq<int>)

  /** Both id lists of a row, history first. */
  function ParseRow(row: LogRow): Result<ParsedRow, PreprocessError> {
    match ParseTokens(row.seqTokens)
    case Failure(e) => Failure(e)
    case Success(seqIds) =>
      match ParseTokens(row.gtTokens)
      case Failure(e) => Failure(e)
      case Success(gtIds) => Success(ParsedRow(row.userId, seqIds, gtIds))
  }

  /** Pass 1's parse of every row, stopping at the first row that raises. */
  function ParseLog(rows: seq<LogRow>): (r: Result<seq<ParsedRow>, PreprocessError>)
    ensures r.Success? ==> |r.value| == |rows|
    decreases |rows|
  {
    if rows == [] then Success([])
    else
      match ParseLog(rows[..|rows| - 1])
      case Failure(e) => Failure(e)
      case Success(ps) =>
        match ParseRow(rows[|rows| - 1])
        case Failure(e) => Failure(e)
        case Success(p) => Success(ps + [p])
  }

  /** A successful parse holds every row's own parse, in order. */
  lemma {:induction false} ParseLogAt(rows: seq<LogRow>, i: nat)
    requires ParseLog(rows).Success?
    requires i < |rows|
    ensures ParseRow(rows[i]) == Success(ParseLog(rows).value[i])
    decreases |rows|
  {
    var init := rows[..|rows| - 1];
    ParseLogLast(rows);
    var ps := ParseLog(init).value;
    if i < |init| {
      ParseLogAt(init, i);
      assert init[i] == rows[i];
      assert ParseLog(rows).value[i] == ps[i];
    }
  }

  /** One unfolding step of the parse on a successful log. */
  lemma ParseLogLast(rows: seq<LogRow>)
    requires rows != [] && ParseLog(rows).Success?
    ensures ParseLog(rows[..|rows| - 1]).Success? && ParseRow(rows[|rows| - 1]).Success?
    ensures ParseLog(rows).value == ParseLog(rows[..|rows| - 1]).value + [ParseRow(rows[|rows| - 1]).value]
  {
  }

  /** The parse succeeds when every row parses. */
  lemma {:induction false} ParseLogSucceeds(rows: seq<LogRow>)
    requires forall i :: 0 <= i < |rows| ==> ParseRow(rows[i]).Success?
    ensures ParseLog(rows).Success?
    decreases |rows|
  {
    if rows != [] {
      var init := rows[..|rows| - 1];
      assert forall i :: 0 <= i < |init| ==> init[i] == rows[i];
      ParseLogSucceeds(init);
    }
  }

  /** The parse fails when some row does not parse. */
  lemma {:induction false} ParseLogFails(rows: seq<LogRow>, i: nat)
    requires i < |rows| && ParseRow(rows[i]).Failure?
    ensures ParseLog(rows).Failure?
  {
    if ParseLog(rows).Success? {
      ParseLogAt(rows, i);
    }
  }

  /** Parsing one more row extends the parsed prefix. */
  lemma ParseLogStep(rows: seq<LogRow>, i: nat, ps: seq<ParsedRow>, p: ParsedRow)
    requires i < |rows|
    requires ParseLog(rows[..i]) == Success(ps)
    requires ParseRow(rows[i]) == Success(p)
    ensures ParseLog(rows[..i + 1]) == Success(ps + [p])
  {
    assert rows[..i + 1][..i] == rows[..i];
  }

  lemma ParseLogFailStep(rows: seq<LogRow>, i: nat, ps: seq<ParsedRow>, e: PreprocessError)
    requires i < |rows|
    requires ParseLog(rows[..i]) == Success(ps)
    requires ParseRow(rows[i]) == Failure(e)
    ensures ParseLog(rows[..i + 1]) == Failure(e)
  {
    assert rows[..i + 1][..i] == rows[..i];
  }

  lemma {:induction false} ParseLogFailureSticks(rows: seq<LogRow>, i: nat)
    requires i <= |rows|
    requires ParseLog(rows[..i]).Failure?
    ensures ParseLog(rows) == ParseLog(rows[..i])
    decreases |rows| - i
  {
    if i < |rows| {
      assert rows[..i + 1][..i] == rows[..i];
      ParseLogFailureSticks(rows, i + 1);
    } else {
      assert rows[..i] == rows;
    }
  }

  function RowIds(p: ParsedRow): set<int> {
    (set x | x in p.seqIds) + (set x | x in p.gtIds)
  }

  /** `all_news_ids` after pass 1: every id of every history and groundtruth list. */
  function IdsOf(ps: seq<ParsedRow>): set<int>
    decreases |ps|
  {
    if ps == [] then {} else IdsOf(ps[..|ps| - 1]) + RowIds(ps[|ps| - 1])
  }

  /** Every id of every row's history and groundtruth is observed ... */
  lemma {:induction false} IdsOfCovers(ps: seq<ParsedRow>)
    ensures forall i, x :: 0 <= i < |ps| && x in RowIds(ps[i]) ==> x in IdsOf(ps)
    decreases |ps|
  {
    if ps != [] {
      var init := ps[..|ps| - 1];
      IdsOfCovers(init);
      assert forall i :: 0 <= i < |init| ==> init[i] == ps[i];
    }
  }

  /** ... and only those. */
  lemma {:induction false} IdsOfOnly(ps: seq<ParsedRow>)
    ensures forall x :: x in IdsOf(ps) ==> exists i :: 0 <= i < |ps| && x in RowIds(ps[i])
    decreases |ps|
  {
    if ps != [] {
      var init := ps[..|ps| - 1];
      IdsOfOnly(init);
      forall x | x in IdsOf(ps) ensures exists i :: 0 <= i < |ps| && x in RowIds(ps[i]) {
        if x in IdsOf(init) {
          var i :| 0 <= i < |init| && x in RowIds(init[i]);
          assert init[i] == ps[i];
        } else {
          assert x in RowIds(ps[|ps| - 1]);
        }
      }
    }
  }

  lemma {:induction false} MaxExists(s: set<int>)
    requires s != {}
    ensures exists m :: m in s && forall x :: x in s ==> x <= m
    decreases s
  {
    NonEmptyHasMember(s);
    var y :| y in s;
    if s != {y} {
      MaxExists(s - {y});
      var m :| m in s - {y} && forall x :: x in s - {y} ==> x <= m;
      var top := if y <= m then m else y;
      forall x | x in s ensures x <= top {
        if x != y {
          assert x in s - {y};
        }
      }
    }
  }

  lemma {:induction false} MinExists(s: set<int>)
    requires s != {}
    ensures exists m :: m in s && forall x :: x in s ==> m <= x
    decreases s
  {
    NonEmptyHasMember(s);
    var y :| y in s;
    if s != {y} {
      MinExists(s - {y});
      var m :| m in s - {y} && forall x :: x in s - {y} ==> m <= x;
      var bottom := if m <= y then m else y;
      forall x | x in s ensures bottom <= x {
        if x != y {
          assert x in s - {y};
        }
      }
    }
  }

  ghost function SetMax(s: set<int>): (m: int)
    requires s != {}
    ensures m in s && forall x :: x in s ==> x <= m
  {
    MaxExists(s);
    var m :| m in s && forall x :: x in s ==> x <= m;
    m
  }

  /** Python's `max()` over a set: the largest element, `None` for the
      `ValueError` it raises on an empty set. */
  method MaxOf(s: set<int>) returns (r: Option<int>)
    ensures r.None? <==> s == {}
    ensures r.Some? ==> r.value in s && forall x :: x in s ==> x <= r.value
  {
    if s == {} {
      return None;
    }
    NonEmptyHasMember(s);
    var m :| m in s;
    var rest := s - {m};
    while rest != {}
      invariant rest <= s && m in s
      invariant forall x :: x in s && x !in rest ==> x <= m
      decreases rest
    {
      NonEmptyHasMember(rest);
      var x :| x in rest;
      if x > m {
        m := x;
      }
      rest := rest - {x};
    }
    return Some(m);
  }

  /** The padding sentinel: the one supplied, or one more than the largest
      observed id; with neither, `max()` raises. */
  ghost function SentinelOf(ids: set<int>, given: Option<int>): Result<int, PreprocessError> {
    if given.Some? then Success(given.value)
    else if ids == {} then Failure(NoIds)
    else Success(SetMax(ids) + 1)
  }

  /** `seq_ids[-max_len:]`: the most recent `MaxLen` ids, or all of them. */
  function Recent(ids: seq<int>): (r: seq<int>)
    ensures |r| == Min(|ids|, MaxLen)
    ensures r == ids[|ids| - |r|..]
  {
    if |ids| <= MaxLen then ids else ids[|ids| - MaxLen..]
  }

  /** Line 88's `seq_ids[-max_len:] + [padding_item_id] * max(0, max_len - len(seq_ids))`:
      exactly `MaxLen` ids, the recent ones first and the sentinel after them. */
  function Padded(ids: seq<int>, pad: int): (r: seq<int>)
    ensures |r| == MaxLen
    ensures r[..Min(|ids|, MaxLen)] == Recent(ids)
    ensures forall k :: Min(|ids|, MaxLen) <= k < MaxLen ==> r[k] == pad
  {
    Recent(ids) + Repeat(pad, if |ids| >= MaxLen then 0 else MaxLen - |ids|)
  }

  /** The drop rules of pass 2: a row yields a record iff its history has at
      least 3 ids, its groundtruth list is non-empty, and its answer and every
      candidate are catalog ids. History ids are never looked up. */
  predicate Kept(p: ParsedRow, catalog: map<int, string>) {
    && |p.seqIds| >= 3
    && |p.gtIds| > 0
    && p.gtIds[0] in catalog
    && forall c :: c in p.gtIds ==> c in catalog
  }

  /** The shape every persisted record has. */
  predicate WellFormed(rec: SessionRecord, pad: int) {
    && |rec.seqPadded| == MaxLen
    && rec.lenSeq == |rec.seqUnpad| <= MaxLen
    && rec.seqPadded == rec.seqUnpad + Repeat(pad, MaxLen - rec.lenSeq)
    && |rec.candidates| > 0
    && rec.candidates[0] == rec.next
  }

  /** The record pass 2 appends for one parsed row, if any. */
  function BuildRecord(p: ParsedRow, catalog: map<int, string>, pad: int): (r: Option<SessionRecord>)
    ensures r.Some? <==> Kept(p, catalog)
    ensures r.Some? ==> WellFormed(r.value, pad)
    ensures r.Some? ==>
      && r.value.userId == p.userId
      && r.value.lenSeq == Min(|p.seqIds|, MaxLen)
      && r.value.seqUnpad == p.seqIds[|p.seqIds| - r.value.lenSeq..]
      && r.value.next == p.gtIds[0]
      && r.value.candidates == p.gtIds
  {
    if |p.seqIds| < 3 then None
    else if |p.gtIds| == 0 then None
    else if p.gtIds[0] !in catalog then None
    else if !(forall c :: c in p.gtIds ==> c in catalog) then None
    else
      var rec := SessionRecord(p.userId, Padded(p.seqIds, pad), Recent(p.seqIds),
                               Min(|p.seqIds|, MaxLen), p.gtIds[0], p.gtIds);
      assert rec.seqPadded == rec.seqUnpad + Repeat(pad, MaxLen - rec.lenSeq);
      Some(rec)
  }

  /** `session_data` after pass 2 has seen the rows `ps`. */
  function Records(ps: seq<ParsedRow>, catalog: map<int, string>, pad: int): seq<SessionRecord>
    decreases |ps|
  {
    if ps == [] then []
    else
      var init := Records(ps[..|ps| - 1], catalog, pad);
      match BuildRecord(ps[|ps| - 1], catalog, pad)
      case None => init
      case Some(rec) => init + [rec]
  }

  /** create_sequences as a whole: the records and the sentinel, or the error. */
  ghost function SequencesOf(rows: seq<LogRow>, catalog: map<int, string>, given: Option<int>)
    : Result<(seq<SessionRecord>, int), PreprocessError>
  {
    match ParseLog(rows)
    case Failure(e) => Failure(e)
    case Success(ps) => SessionsOf(ps, catalog, given)
  }

  /** What follows a successful pass 1 over the rows parsed as `ps`. */
  ghost function SessionsOf(ps: seq<ParsedRow>, catalog: map<int, string>, given: Option<int>)
    : Result<(seq<SessionRecord>, int), PreprocessError>
  {
    match SentinelOf(IdsOf(ps), given)
    case Failure(e) => Failure(e)
    case Success(pad) => Success((Records(ps, catalog, pad), pad))
  }

  /** Once the log parses, `create_sequences` is what follows pass 1. */
  lemma SequencesOfParsed(rows: seq<LogRow>, catalog: map<int, string>, given: Option<int>, ps: seq<ParsedRow>)
    requires ParseLog(rows) == Success(ps)
    ensures SequencesOf(rows, catalog, given) == SessionsOf(ps, catalog, given)
  {
  }

  lemma RecordsStep(ps: seq<ParsedRow>, i: nat, catalog: map<int, string>, pad: int)
    requires i < |ps|
    ensures Records(ps[..i + 1], catalog, pad)
      == Records(ps[..i], catalog, pad)
         + (if Kept(ps[i], catalog) then [BuildRecord(ps[i], catalog, pad).value] else [])
  {
    assert ps[..i + 1][..i] == ps[..i];
  }

  /** IdsOf grows by the ids of the added row. */
  lemma IdsOfStep(ps: seq<ParsedRow>, p: ParsedRow)
    ensures IdsOf(ps + [p]) == IdsOf(ps) + RowIds(p)
  {
    assert (ps + [p])[..|ps|] == ps;
  }

  /** Pass 1 of create_sequences: parses every row and collects `all_news_ids`. */
  method CollectNewsIds(rows: seq<LogRow>) returns (r: Result<set<int>, PreprocessError>)
    ensures ParseLog(rows).Failure? ==> r == Failure(ParseLog(rows).error)
    ensures ParseLog(rows).Success? ==> r == Success(IdsOf(ParseLog(rows).value))
  {
    var allNewsIds: set<int> := {};
    ghost var parsed: seq<ParsedRow> := [];
    for i := 0 to |rows|
      invariant ParseLog(rows[..i]) == Success(parsed)
      invariant allNewsIds == IdsOf(parsed)
    {
      var seqIds := ParseTokens(rows[i].seqTokens);
      if seqIds.Failure? {
        ParseLogFailStep(rows, i, parsed, seqIds.error);
        ParseLogFailureSticks(rows, i + 1);
        return Failure(seqIds.error);
      }
      allNewsIds := allNewsIds + set x | x in seqIds.value;
      var gtIds := ParseTokens(rows[i].gtTokens);
      if gtIds.Failure? {
        ParseLogFailStep(rows, i, parsed, gtIds.error);
        ParseLogFailureSticks(rows, i + 1);
        return Failure(gtIds.error);
      }
      allNewsIds := allNewsIds + set x | x in gtIds.value;
      ghost var p := ParsedRow(rows[i].userId, seqIds.value, gtIds.value);
      ParseLogStep(rows, i, parsed, p);
      IdsOfStep(parsed, p);
      parsed := parsed + [p];
    }
    assert rows[..|rows|] == rows;
    return Success(allNewsIds);
  }

  /** Pass 2 of create_sequences: re-parses each row, applies the drop rules and
      appends the record of every row that is kept. */
  method BuildSessions(rows: seq<LogRow>, catalog: map<int, string>, pad: int)
    returns (sessionData: seq<SessionRecord>)
    requires ParseLog(rows).Success?
    ensures sessionData == Records(ParseLog(rows).value, catalog, pad)
  {
    ghost var parsed := ParseLog(rows).value;
    sessionData := [];
    for i := 0 to |rows|
      invariant sessionData == Records(parsed[..i], catalog, pad)
    {
      RecordsStep(parsed, i, catalog, pad);
      ParseLogAt(rows, i);
      var userId := rows[i].userId;
      var seqIds := ParseTokens(rows[i].seqTokens).value;
      if |seqIds| < 3 {
        continue;
      }
      var gtIds := ParseTokens(rows[i].gtTokens).value;
      if |gtIds| == 0 {
        continue;
      }
      var nextItem := gtIds[0];
      var candidates := gtIds;
      if nextItem !in catalog {
        continue;
      }
      if !(forall c :: c in candidates ==> c in catalog) {
        continue;
      }
      var seqPadded := Padded(seqIds, pad);
      var lenSeq := Min(|seqIds|, MaxLen);
      sessionData := sessionData + [SessionRecord(userId, seqPadded, Recent(seqIds), lenSeq, nextItem, candidates)];
    }
    assert parsed[..|rows|] == parsed;
  }

  /** The sentinel choice of create_sequences, given the ids of pass 1. */
  method ChooseSentinel(ids: set<int>, given: Option<int>) returns (r: Result<int, PreprocessError>)
    ensures r == SentinelOf(ids, given)
  {
    if given.Some? {
      return Success(given.value);
    }
    var m := MaxOf(ids);
    if m.None? {
      return Failure(NoIds);
    }
    assert m.value == SetMax(ids);
    return Success(m.value + 1);
  }

  /** create_sequences: pass 1, then the sentinel (the one supplied, or one more
      than the largest observed id), then pass 2. */
  method CreateSequences(rows: seq<LogRow>, catalog: map<int, string>, paddingItemId: Option<int>)
    returns (r: Result<(seq<SessionRecord>, int), PreprocessError>)
    ensures r == SequencesOf(rows, catalog, paddingItemId)
  {
    var allNewsIds := CollectNewsIds(rows);
    if allNewsIds.Failure? {
      return Failure(allNewsIds.error);
    }
    var pad := ChooseSentinel(allNewsIds.value, paddingItemId);
    if pad.Failure? {
      return Failure(pad.error);
    }
    var sessionData := BuildSessions(rows, catalog, pad.value);
    return Success((sessionData, pad.value));
  }

  // ---------------------------------------------------------------------------
  // What pass 2 emits
  // ---------------------------------------------------------------------------

  /** The records one row contributes: none, or the one it yields. */
  function Emitted(r: Option<SessionRecord>): seq<SessionRecord> {
    if r.Some? then [r.value] else []
  }

  /** Pass 2 appends the record of the last row, if it yields one. */
  lemma RecordsLast(ps: seq<ParsedRow>, catalog: map<int, string>, pad: int)
    requires ps != []
    ensures Records(ps, catalog, pad)
      == Records(ps[..|ps| - 1], catalog, pad) + Emitted(BuildRecord(ps[|ps| - 1], catalog, pad))
  {
  }

  /** `rec` is the record built from some row of `ps`. */
  ghost predicate FromRow(ps: seq<ParsedRow>, catalog: map<int, string>, pad: int, rec: SessionRecord) {
    exists i :: 0 <= i < |ps| && BuildRecord(ps[i], catalog, pad) == Some(rec)
  }

  /** Every record comes from a row that passed the drop rules. */
  lemma {:induction false} RecordsFromRows(ps: seq<ParsedRow>, catalog: map<int, string>, pad: int)
    ensures forall rec :: rec in Records(ps, catalog, pad) ==> FromRow(ps, catalog, pad, rec)
    decreases |ps|
  {
    if ps != [] {
      var init := ps[..|ps| - 1];
      RecordsFromRows(init, catalog, pad);
      RecordsLast(ps, catalog, pad);
      var prev := Records(init, catalog, pad);
      var tail := Emitted(BuildRecord(ps[|ps| - 1], catalog, pad));
      forall rec | rec in Records(ps, catalog, pad) ensures FromRow(ps, catalog, pad, rec) {
        if rec in prev {
          assert FromRow(init, catalog, pad, rec);
          var i :| 0 <= i < |init| && BuildRecord(init[i], catalog, pad) == Some(rec);
          assert init[i] == ps[i];
        } else {
          assert rec in tail;
          assert BuildRecord(ps[|ps| - 1], catalog, pad) == Some(rec);
        }
      }
    }
  }

  /** Every row that passes the drop rules yields a record. */
  lemma {:induction false} RowsToRecords(ps: seq<ParsedRow>, catalog: map<int, string>, pad: int)
    ensures forall i :: 0 <= i < |ps| && Kept(ps[i], catalog) ==>
      BuildRecord(ps[i], catalog, pad).value in Records(ps, catalog, pad)
    decreases |ps|
  {
    if ps != [] {
      var init := ps[..|ps| - 1];
      RowsToRecords(init, catalog, pad);
      RecordsLast(ps, catalog, pad);
      forall i | 0 <= i < |ps| && Kept(ps[i], catalog)
        ensures BuildRecord(ps[i], catalog, pad).value in Records(ps, catalog, pad)
      {
        if i < |init| {
          assert init[i] == ps[i];
        }
      }
    }
  }

  /** Every persisted record has the fixed shape, whatever the sentinel. */
  lemma RecordsWellFormed(ps: seq<ParsedRow>, catalog: map<int, string>, pad: int)
    ensures forall rec :: rec in Records(ps, catalog, pad) ==> WellFormed(rec, pad)
  {
    RecordsFromRows(ps, catalog, pad);
    forall rec | rec in Records(ps, catalog, pad) ensures WellFormed(rec, pad) {
      var i :| 0 <= i < |ps| && BuildRecord(ps[i], catalog, pad) == Some(rec);
    }
  }

  /** The ids a record holds are ids of the row it was built from. */
  lemma RecordIdsObserved(p: ParsedRow, catalog: map<int, string>, pad: int)
    requires Kept(p, catalog)
    ensures var rec := BuildRecord(p, catalog, pad).value;
      && (forall x :: x in rec.seqUnpad ==> x in RowIds(p))
      && rec.next in RowIds(p)
      && (forall c :: c in rec.candidates ==> c in RowIds(p))
  {
    var rec := BuildRecord(p, catalog, pad).value;
    forall x | x in rec.seqUnpad ensures x in RowIds(p) {
      var k :| 0 <= k < |rec.seqUnpad| && rec.seqUnpad[k] == x;
      assert x == p.seqIds[|p.seqIds| - rec.lenSeq + k];
    }
  }

  /** Without a supplied sentinel, what follows pass 1 fails iff no id was
      observed, and otherwise uses one more than the largest observed id. */
  lemma ComputedSentinel(ps: seq<ParsedRow>, catalog: map<int, string>)
    ensures IdsOf(ps) == {} ==> SessionsOf(ps, catalog, None) == Failure(NoIds)
    ensures IdsOf(ps) != {} ==>
      var pad := SetMax(IdsOf(ps)) + 1;
      SessionsOf(ps, catalog, None) == Success((Records(ps, catalog, pad), pad))
  {
  }

  /** A record holds only ids below a bound that every observed id is below. */
  lemma RecordBelow(ps: seq<ParsedRow>, i: nat, catalog: map<int, string>, pad: int, rec: SessionRecord)
    requires i < |ps| && BuildRecord(ps[i], catalog, pad) == Some(rec)
    requires forall x :: x in IdsOf(ps) ==> x < pad
    ensures forall x :: x in rec.seqUnpad ==> x < pad
    ensures rec.next < pad
    ensures forall c :: c in rec.candidates ==> c < pad
  {
    var p := ps[i];
    IdsOfCovers(ps);
    assert forall x :: x in RowIds(p) ==> x in IdsOf(ps);
    RecordIdsObserved(p, catalog, pad);
  }

  /** The computed sentinel is greater than every id any record holds. */
  lemma SentinelAboveAll(ps: seq<ParsedRow>, catalog: map<int, string>)
    requires IdsOf(ps) != {}
    ensures var pad := SetMax(IdsOf(ps)) + 1;
      && pad - 1 in IdsOf(ps)
      && (forall x :: x in IdsOf(ps) ==> x < pad)
      && forall rec :: rec in Records(ps, catalog, pad) ==>
        && (forall x :: x in rec.seqUnpad ==> x < pad)
        && rec.next < pad
        && (forall c :: c in rec.candidates ==> c < pad)
  {
    var pad := SetMax(IdsOf(ps)) + 1;
    RecordsFromRows(ps, catalog, pad);
    forall rec | rec in Records(ps, catalog, pad)
      ensures && (forall x :: x in rec.seqUnpad ==> x < pad)
        && rec.next < pad
        && (forall c :: c in rec.candidates ==> c < pad)
    {
      assert FromRow(ps, catalog, pad, rec);
      var i :| 0 <= i < |ps| && BuildRecord(ps[i], catalog, pad) == Some(rec);
      RecordBelow(ps, i, catalog, pad, rec);
    }
  }

  /** With the computed sentinel, the first `lenSeq` ids of `seq` are the real
      history and the sentinel fills exactly the rest. */
  lemma SentinelOnlyInTail(ps: seq<ParsedRow>, catalog: map<int, string>)
    requires IdsOf(ps) != {}
    ensures var pad := SetMax(IdsOf(ps)) + 1;
      forall rec :: rec in Records(ps, catalog, pad) ==>
        && WellFormed(rec, pad)
        && rec.seqPadded[..rec.lenSeq] == rec.seqUnpad
        && pad !in rec.seqUnpad
        && multiset(rec.seqPadded)[pad] == MaxLen - rec.lenSeq
  {
    var pad := SetMax(IdsOf(ps)) + 1;
    SentinelAboveAll(ps, catalog);
    RecordsWellFormed(ps, catalog, pad);
    forall rec | rec in Records(ps, catalog, pad)
      ensures && WellFormed(rec, pad)
        && rec.seqPadded[..rec.lenSeq] == rec.seqUnpad
        && pad !in rec.seqUnpad
        && multiset(rec.seqPadded)[pad] == MaxLen - rec.lenSeq
    {
      assert rec.seqPadded == rec.seqUnpad + Repeat(pad, MaxLen - rec.lenSeq);
      assert rec.seqPadded[..rec.lenSeq] == rec.seqUnpad;
      RepeatCount(pad, MaxLen - rec.lenSeq);
      assert pad !in rec.seqUnpad;
      assert pad !in multiset(rec.seqUnpad);
    }
  }

  lemma {:induction false} RepeatCount(x: int, n: nat)
    ensures multiset(Repeat(x, n))[x] == n
    decreases n
  {
    if n > 0 {
      RepeatCount(x, n - 1);
      assert Repeat(x, n) == Repeat(x, n - 1) + [x];
    }
  }

  // ---------------------------------------------------------------------------
  // split_data
  // ---------------------------------------------------------------------------

  function Range(n: nat): (r: seq<int>)
    ensures |r| == n && forall i :: 0 <= i < n ==> r[i] == i
  {
    seq(n, i => i)
  }

  /** A shuffle of `n` rows: every row index below `n` exactly once. */
  predicate IsPermutation(perm: seq<int>, n: nat) {
    && |perm| == n
    && (forall i :: 0 <= i < n ==> 0 <= perm[i] < n)
    && multiset(perm) == multiset(Range(n))
  }

  /** The table reordered by `idx`, as `sample(frac=1)` followed by
      `reset_index` lays it out. */
  function Gather(rows: seq<SessionRecord>, idx: seq<int>): (r: seq<SessionRecord>)
    requires forall i :: 0 <= i < |idx| ==> 0 <= idx[i] < |rows|
    ensures |r| == |idx| && forall i :: 0 <= i < |idx| ==> r[i] == rows[idx[i]]
  {
    seq(|idx|, i requires 0 <= i < |idx| => rows[idx[i]])
  }

  /** Taking the largest index out of a permutation of `n` leaves a
      permutation of `n - 1`. */
  lemma PermutationDrop(perm: seq<int>, n: nat, k: nat)
    requires IsPermutation(perm, n) && k < n && perm[k] == n - 1
    ensures IsPermutation(perm[..k] + perm[k + 1..], n - 1)
  {
    DropCount(perm, k, n - 1);
    DropFromRange(perm[..k] + perm[k + 1..], perm, n);
  }

  /** Removing `n - 1` once from the elements of `Range(n)` leaves those of
      `Range(n - 1)`. */
  lemma DropFromRange(rest: seq<int>, perm: seq<int>, n: nat)
    requires n > 0 && multiset(perm) == multiset(Range(n))
    requires multiset(rest) == multiset(perm) - multiset{n - 1}
    ensures IsPermutation(rest, n - 1)
  {
    RangeDrop(n);
    RangeBounds(rest, n - 1);
  }


  /** A sequence with the elements of `Range(n)` holds only indices below `n`,
      so it is a shuffle of `n` rows. */
  lemma RangeBounds(s: seq<int>, n: nat)
    requires multiset(s) == multiset(Range(n))
    ensures IsPermutation(s, n)
  {
    assert |s| == |multiset(s)| == |multiset(Range(n))| == n;
    forall i | 0 <= i < |s| ensures 0 <= s[i] < n {
      assert s[i] in multiset(s);
      RangeMembers(n, s[i]);
    }
  }

  lemma RangeDrop(n: nat)
    requires n > 0
    ensures multiset(Range(n - 1)) == multiset(Range(n)) - multiset{n - 1}
  {
    assert Range(n) == Range(n - 1) + [n - 1];
  }

  lemma DropCount(s: seq<int>, k: nat, x: int)
    requires k < |s| && s[k] == x
    ensures multiset(s[..k] + s[k + 1..]) == multiset(s) - multiset{x}
  {
    assert s == s[..k] + [s[k]] + s[k + 1..];
  }

  lemma RangeMembers(n: nat, x: int)
    requires x in multiset(Range(n))
    ensures 0 <= x < n
  {
  }

  /** Reordering by a permutation keeps every row exactly as often as before. */
  lemma {:induction false} GatherPermutation(rows: seq<SessionRecord>, perm: seq<int>)
    requires IsPermutation(perm, |rows|)
    ensures multiset(Gather(rows, perm)) == multiset(rows)
    decreases |rows|
  {
    var n := |rows|;
    if n > 0 {
      assert Range(n)[n - 1] == n - 1;
      assert n - 1 in multiset(perm);
      assert n - 1 in perm;
      var k :| 0 <= k < n && perm[k] == n - 1;
      var rest := perm[..k] + perm[k + 1..];
      PermutationDrop(perm, n, k);
      GatherPermutation(rows[..n - 1], rest);
      GatherDrop(rows, perm, k, rest);
      var h := Gather(rows[..n - 1], rest);
      SpliceCount(h, k, rows[n - 1]);
      LastCount(rows);
    }
  }

  lemma SpliceCount<T>(h: seq<T>, k: nat, x: T)
    requires k <= |h|
    ensures multiset(h[..k] + [x] + h[k..]) == multiset(h) + multiset{x}
  {
    assert h == h[..k] + h[k..];
  }

  lemma LastCount<T>(s: seq<T>)
    requires s != []
    ensures multiset(s) == multiset(s[..|s| - 1]) + multiset{s[|s| - 1]}
  {
    assert s == s[..|s| - 1] + [s[|s| - 1]];
  }

  lemma GatherDrop(rows: seq<SessionRecord>, perm: seq<int>, k: nat, rest: seq<int>)
    requires IsPermutation(perm, |rows|) && k < |rows| && perm[k] == |rows| - 1
    requires rest == perm[..k] + perm[k + 1..] && IsPermutation(rest, |rows| - 1)
    ensures var h := Gather(rows[..|rows| - 1], rest);
      Gather(rows, perm) == h[..k] + [rows[|rows| - 1]] + h[k..]
  {
    var h := Gather(rows[..|rows| - 1], rest);
    var g := Gather(rows, perm);
    forall i | 0 <= i < |g| ensures g[i] == (h[..k] + [rows[|rows| - 1]] + h[k..])[i] {
      if i < k {
        assert rest[i] == perm[i];
      } else if i > k {
        assert rest[i - 1] == perm[i];
      }
    }
  }

  datatype Partition = Partition(train: seq<SessionRecord>, val: seq<SessionRecord>, test: seq<SessionRecord>)

  /** split_data: the shuffled table cut into `[:nTrain]`, `[nTrain:nTrain+nVal]`
      and the rest, with Python's clamping of slice bounds. */
  function SplitData(rows: seq<SessionRecord>, perm: seq<int>, nTrain: nat, nVal: nat): (r: Partition)
    requires IsPermutation(perm, |rows|)
    ensures |r.train| == Min(nTrain, |rows|)
    ensures |r.val| == Min(nTrain + nVal, |rows|) - Min(nTrain, |rows|)
    ensures |r.test| == |rows| - Min(nTrain + nVal, |rows|)
    ensures r.train + r.val + r.test == Gather(rows, perm)
  {
    var shuffled := Gather(rows, perm);
    var a := Min(nTrain, |shuffled|);
    var b := Min(nTrain + nVal, |shuffled|);
    Partition(shuffled[..a], shuffled[a..b], shuffled[b..])
  }

  /** The three parts have the requested sizes, follow one another in the
      shuffled table and together hold every input row exactly once. */
  lemma SplitPartitions(rows: seq<SessionRecord>, perm: seq<int>, nTrain: nat, nVal: nat)
    requires IsPermutation(perm, |rows|)
    ensures var r := SplitData(rows, perm, nTrain, nVal);
      && |r.train| == Min(nTrain, |rows|)
      && |r.val| == Min(nTrain + nVal, |rows|) - Min(nTrain, |rows|)
      && |r.test| == |rows| - Min(nTrain + nVal, |rows|)
      && r.train + r.val + r.test == Gather(rows, perm)
      && multiset(r.train) + multiset(r.val) + multiset(r.test) == multiset(rows)
  {
    var r := SplitData(rows, perm, nTrain, nVal);
    var shuffled := Gather(rows, perm);
    assert r.train + r.val + r.test == shuffled;
    GatherPermutation(rows, perm);
    calc {
      multiset(r.train) + multiset(r.val) + multiset(r.test);
      multiset(r.train + r.val + r.test);
      multiset(rows);
    }
  }

  // ---------------------------------------------------------------------------
  // The catalog dump written by save_dataframes
  // ---------------------------------------------------------------------------

  /** `min(ids)`. */
  function SetMin(ids: set<int>): (m: int)
    requires ids != {}
    ensures m in ids && forall x :: x in ids ==> m <= x
  {
    MinExists(ids);
    var m :| m in ids && forall x :: x in ids ==> m <= x;
    m
  }

  /** `sorted(ids)`: every id once, in ascending order. */
  function SortedIds(ids: set<int>): (r: seq<int>)
    ensures |r| == |ids|
    ensures forall x :: x in ids <==> x in r
    ensures forall i, j :: 0 <= i < j < |r| ==> r[i] < r[j]
    decreases |ids|
  {
    if ids == {} then []
    else
      var m := SetMin(ids);
      var rest := SortedIds(ids - {m});
      SortedCons(m, rest, ids);
      [m] + rest
  }

  /** The smallest id followed by the others sorted is the whole set sorted. */
  lemma SortedCons(m: int, rest: seq<int>, ids: set<int>)
    requires m in ids && forall x :: x in ids ==> m <= x
    requires |rest| == |ids - {m}|
    requires forall x :: x in ids - {m} <==> x in rest
    requires forall i, j :: 0 <= i < j < |rest| ==> rest[i] < rest[j]
    ensures |[m] + rest| == |ids|
    ensures forall x :: x in ids <==> x in [m] + rest
    ensures forall i, j :: 0 <= i < j < |[m] + rest| ==> ([m] + rest)[i] < ([m] + rest)[j]
  {
    var r := [m] + rest;
    assert forall i :: 1 <= i < |r| ==> r[i] == rest[i - 1];
    assert forall x :: x in rest ==> m < x;
    forall i, j | 0 <= i < j < |r| ensures r[i] < r[j] {
      if i == 0 {
        assert r[j] in rest;
      }
    }
  }

  /** The title with tabs and line breaks turned into spaces. */
  function Sanitize(title: string): (r: string)
    ensures |r| == |title|
    ensures forall k :: 0 <= k < |r| ==>
      r[k] == if title[k] == '\t' || title[k] == '\n' then ' ' else title[k]
  {
    ReplaceChar(ReplaceChar(title, '\t', ' '), '\n', ' ')
  }

  /** One line of `id2name.txt`. */
  function DumpLine(id: int, title: string): (r: string)
    ensures |r| > 0 && r[|r| - 1] == '\n'
    ensures forall k :: 0 <= k < |r| - 1 ==> r[k] != '\n' && r[k] != '\t'
  {
    IntToStringChars(id);
    LineShape(IntToString(id), Sanitize(title));
    IntToString(id) + "::" + Sanitize(title) + "\n"
  }

  /** An id field and a title field without line breaks or tabs make one
      line. */
  lemma LineShape(digits: string, clean: string)
    requires forall k :: 0 <= k < |digits| ==> digits[k] != '\n' && digits[k] != '\t'
    requires forall k :: 0 <= k < |clean| ==> clean[k] != '\n' && clean[k] != '\t'
    ensures var line := digits + "::" + clean + "\n";
      forall k :: 0 <= k < |line| - 1 ==> line[k] != '\n' && line[k] != '\t'
  {
    var line := digits + "::" + clean + "\n";
    forall k | 0 <= k < |line| - 1 ensures line[k] != '\n' && line[k] != '\t' {
      if k < |digits| {
        assert line[k] == digits[k];
      } else if k >= |digits| + 2 {
        assert line[k] == clean[k - |digits| - 2];
      }
    }
  }

  /** The lines of `id2name.txt`, one per catalog entry in ascending id order. */
  function DumpLines(catalog: map<int, string>): (r: seq<string>)
    ensures |r| == |catalog|
    ensures forall i :: 0 <= i < |r| ==> |r[i]| > 0 && r[i][|r[i]| - 1] == '\n'
  {
    var ids := SortedIds(catalog.Keys);
    seq(|ids|, i requires 0 <= i < |ids| => DumpLine(ids[i], catalog[ids[i]]))
  }

  /** The whole of `id2name.txt`. */
  function DumpText(catalog: map<int, string>): (r: string)
    ensures r == [] <==> |catalog| == 0
    ensures |catalog| > 0 ==> r[|r| - 1] == '\n'
  {
    var lines := DumpLines(catalog);
    if lines == [] then Concat(lines) else ConcatLast(lines); Concat(lines)
  }
}
