/** How the two halves fit together: the catalog dump written by
    `save_dataframes` read back by `get_news_id2name`, the stored sequences
    unpadded by `remove_padding`, and the worked examples of the pipeline. */
module Pipeline {
  import opened Base
  import opened Text
  import opened Preprocess
  import opened MindDataset

  // ---------------------------------------------------------------------------
  // Dump and parse
  // ---------------------------------------------------------------------------

  predicate NoCarriageReturn(t: string) {
    forall k :: 0 <= k < |t| ==> t[k] != '\r'
  }

  /** The title fits the dump format: once sanitised it holds no `"::"`. */
  ghost predicate NoSeparator(t: string) {
    forall j :: !SepAt(Sanitize(t), j)
  }

  /** A dumped line without carriage returns is one line of the file. */
  lemma DumpLineTerminated(id: int, title: string)
    requires NoCarriageReturn(title)
    ensures IsTerminatedLine(DumpLine(id, title))
  {
    IntToStringChars(id);
    var line := DumpLine(id, title);
    var digits := IntToString(id);
    var s := Sanitize(title);
    assert line == digits + "::" + s + "\n";
    forall j | 0 <= j < |line| - 1 ensures line[j] != '\n' && line[j] != '\r' {
      if j < |digits| {
        assert line[j] == digits[j];
      } else if j >= |digits| + 2 {
        assert line[j] == s[j - |digits| - 2];
      }
    }
  }

  /** Parsing a dumped line gives back its id and its sanitised title with the
      surrounding whitespace stripped. */
  lemma DumpLineParses(id: int, title: string)
    requires NoSeparator(title)
    ensures ParseLine(DumpLine(id, title)) == Entry(id, Strip(Sanitize(title), IsSpace))
  {
    IntToStringChars(id);
    var digits := IntToString(id);
    var s := Sanitize(title);
    var body := digits + "::" + s;
    assert DumpLine(id, title) == body + "\n";
    assert body[0] == digits[0];
    if s != [] {
      assert body[|body| - 1] == s[|s| - 1];
    }
    StripNewline(body);
    SplitPair(digits, s);
    ParseIntToString(id);
  }

  /** Restricting a map to the ids of a sequence, one id at a time. */
  lemma RestrictSnoc<V>(ids: seq<int>, f: map<int, V>)
    requires ids != [] && ids[|ids| - 1] in f
    ensures var n := |ids| - 1;
      (map k | k in ids && k in f :: f[k]) == (map k | k in ids[..n] && k in f :: f[k])[ids[n] := f[ids[n]]]
  {
    var n := |ids| - 1;
    assert ids == ids[..n] + [ids[n]];
  }

  lemma RestrictAll<V>(ids: seq<int>, f: map<int, V>)
    requires forall k :: k in f <==> k in ids
    ensures (map k | k in ids && k in f :: f[k]) == f
  {
    var m := map k | k in ids && k in f :: f[k];
    forall k ensures k in m <==> k in f {
      if k in f {
        assert k in ids;
      }
    }
    assert m.Keys == f.Keys;
    assert forall k :: k in m ==> m[k] == f[k];
  }

  /** The dictionary built from a run of lines that each parse to an entry. */
  lemma {:induction false} Id2NameOfEntries(lines: seq<string>, ids: seq<int>, f: map<int, string>)
    requires |lines| == |ids|
    requires forall i :: 0 <= i < |ids| ==> ids[i] in f && ParseLine(lines[i]) == Entry(ids[i], f[ids[i]])
    ensures Id2NameOf(lines) == Success(map k | k in ids && k in f :: f[k])
    decreases |lines|
  {
    if lines != [] {
      var n := |lines| - 1;
      var init, initIds := lines[..n], ids[..n];
      assert forall i :: 0 <= i < n ==> initIds[i] == ids[i] && init[i] == lines[i];
      Id2NameOfEntries(init, initIds, f);
      var before := map k | k in initIds && k in f :: f[k];
      Id2NameEntryStep(lines, before, ids[n], f[ids[n]]);
      RestrictSnoc(ids, f);
    }
  }

  /** The dump round trip: reading back what `save_dataframes` wrote gives every
      catalog id with its title, sanitised and stripped, as long as no title
      holds a carriage return or a `"::"`. */
  lemma DumpRoundTrip(catalog: map<int, string>)
    requires forall k :: k in catalog ==> NoCarriageReturn(catalog[k]) && NoSeparator(catalog[k])
    ensures Id2NameOf(ReadLines(DumpText(catalog)))
      == Success(map k | k in catalog :: Strip(Sanitize(catalog[k]), IsSpace))
  {
    var lines := DumpLines(catalog);
    var ids := SortedIds(catalog.Keys);
    var f := map k | k in catalog :: Strip(Sanitize(catalog[k]), IsSpace);
    forall i | 0 <= i < |lines|
      ensures IsTerminatedLine(lines[i])
      ensures ids[i] in f && ParseLine(lines[i]) == Entry(ids[i], f[ids[i]])
    {
      DumpLineAt(catalog, i);
      DumpLineTerminated(ids[i], catalog[ids[i]]);
      DumpLineParses(ids[i], catalog[ids[i]]);
    }
    ReadLinesOfTerminated(lines);
    Id2NameOfEntries(lines, ids, f);
    RestrictAll(ids, f);
  }

  lemma DumpLineAt(catalog: map<int, string>, i: int)
    requires 0 <= i < |catalog|
    ensures var ids := SortedIds(catalog.Keys);
      && |ids| == |catalog|
      && ids[i] in catalog
      && DumpLines(catalog)[i] == DumpLine(ids[i], catalog[ids[i]])
  {
  }

  /** Titles with a carriage return do not survive: what follows the carriage
      return reads back as a line of its own, which holds no separator and is
      skipped, so only the part before it is kept. */
  lemma CarriageReturnCutsTitle(id: int, a: string, b: string)
    requires NoCarriageReturn(a) && NoCarriageReturn(b) && b != []
    requires NoSeparator(a) && NoSeparator(b)
    ensures Id2NameOf(ReadLines(DumpText(map[id := a + "\r" + b])))
      == Success(map[id := Strip(Sanitize(a), IsSpace)])
  {
    var sb := Sanitize(b);
    var p := IntToString(id) + "::" + Sanitize(a);
    var q := sb + "\n";
    CarriageReturnDump(id, a, b);
    DumpLineTerminated(id, a);
    assert DumpLine(id, a) == p + "\n";
    assert IsTerminatedLine(q) && q[0] != '\n' by {
      forall j | 0 <= j < |q| - 1 ensures q[j] != '\n' && q[j] != '\r' {
        assert q[j] == sb[j];
      }
    }
    LoneCarriageReturnSplits(p, q);
    CarriageReturnLinesParse(id, a, sb);
  }

  /** A title holding `"::"` reads back cut at its first separator: the
      reader keeps only the second field of the split line. */
  lemma SeparatorCutsTitle(id: int, a: string, b: string)
    requires NoSeparator(a) && (a == [] || a[|a| - 1] != ':')
    ensures ParseLine(DumpLine(id, a + "::" + b)) == Entry(id, Strip(Sanitize(a), IsSpace))
  {
    SeparatorLineSplit(id, a, b);
    ParseIntToString(id);
  }

  /** Such a line splits into the id, the sanitised first half, and more. */
  lemma SeparatorLineSplit(id: int, a: string, b: string)
    requires NoSeparator(a) && (a == [] || a[|a| - 1] != ':')
    ensures var ll := Split(Strip(DumpLine(id, a + "::" + b), IsNewline));
      |ll| >= 2 && ll[0] == IntToString(id) && ll[1] == Sanitize(a)
  {
    var digits, sa, sb := IntToString(id), Sanitize(a), Sanitize(b);
    var body := digits + "::" + (sa + "::" + sb);
    SeparatorDump(id, a, b);
    assert body[0] == digits[0];
    if sb != [] {
      assert body[|body| - 1] == sb[|sb| - 1];
    }
    StripNewline(body);
    assert sa == [] || sa[|sa| - 1] != ':';
    SplitFirst(sa, sb);
    assert forall j :: !SepAt(digits, j);
    SplitFirst(digits, sa + "::" + sb);
  }

  /** The dumped line of a title holding `"::"`: the sanitised halves keep the
      separator between them. */
  lemma SeparatorDump(id: int, a: string, b: string)
    ensures IntToString(id) != [] && forall k :: 0 <= k < |IntToString(id)| ==> IntToString(id)[k] != ':'
    ensures DumpLine(id, a + "::" + b) == IntToString(id) + "::" + (Sanitize(a) + "::" + Sanitize(b)) + "\n"
  {
    IntToStringChars(id);
    SanitizeConcat(a, "::");
    SanitizeConcat(a + "::", b);
    assert Sanitize("::") == "::";
  }

  /** The dump of a one-entry catalog whose title holds a carriage return. */
  lemma CarriageReturnDump(id: int, a: string, b: string)
    ensures DumpText(map[id := a + "\r" + b])
      == (IntToString(id) + "::" + Sanitize(a)) + "\r" + (Sanitize(b) + "\n")
  {
    var t := a + "\r" + b;
    DumpSingle(id, t);
    SanitizeConcat(a, "\r");
    SanitizeConcat(a + "\r", b);
    assert Sanitize("\r") == "\r";
    assert Sanitize(t) == Sanitize(a) + "\r" + Sanitize(b);
    assert DumpLine(id, t) == IntToString(id) + "::" + Sanitize(t) + "\n";
  }

  /** The line of the title's first part parses to the entry and the rest, with
      no separator, is skipped. */
  lemma CarriageReturnLinesParse(id: int, a: string, rest: string)
    requires NoSeparator(a)
    requires rest != [] && rest[0] != '\n' && rest[|rest| - 1] != '\n'
    requires forall j :: !SepAt(rest, j)
    ensures Id2NameOf([DumpLine(id, a), rest + "\n"]) == Success(map[id := Strip(Sanitize(a), IsSpace)])
  {
    var lines := [DumpLine(id, a), rest + "\n"];
    var title := Strip(Sanitize(a), IsSpace);
    DumpLineParses(id, a);
    SeparatorFreeLineSkipped(rest);
    assert [lines[0]][..0] == [];
    Id2NameEntryStep([lines[0]], map[], id, title);
    assert lines[..1] == [lines[0]];
    Id2NameSkipStep(lines, map[id := title]);
  }

  /** A carriage return inside a line splits it in two when read back. */
  lemma LoneCarriageReturnSplits(p: string, q: string)
    requires IsTerminatedLine(p + "\n") && IsTerminatedLine(q) && q[0] != '\n'
    ensures ReadLines(p + "\r" + q) == [p + "\n", q]
  {
    var first := p + "\n";
    assert forall k :: 0 <= k < |p| ==> p[k] == first[k];
    TranslateLoneCarriageReturn(p, q);
    var lines := [first, q];
    assert lines[1..] == [q] && [q][1..] == [];
    assert Concat([q]) == q + Concat([]);
    assert Concat(lines) == first + Concat([q]);
    assert Concat(lines) == p + "\n" + q;
    SplitLinesOfTerminated(lines);
  }

  /** Sanitising works character by character. */
  lemma SanitizeConcat(x: string, y: string)
    ensures Sanitize(x + y) == Sanitize(x) + Sanitize(y)
  {
    var l, r := Sanitize(x + y), Sanitize(x) + Sanitize(y);
    assert |l| == |r|;
    forall k | 0 <= k < |l| ensures l[k] == r[k] {
      if k < |x| {
        assert (x + y)[k] == x[k];
      } else {
        assert (x + y)[k] == y[k - |x|];
      }
    }
  }

  /** The dump of a one-entry catalog is that entry's line. */
  lemma DumpSingle(id: int, title: string)
    ensures DumpText(map[id := title]) == DumpLine(id, title)
  {
    var catalog := map[id := title];
    var ids := SortedIds(catalog.Keys);
    assert id in ids;
    assert ids == [id];
    var lines := DumpLines(catalog);
    assert lines == [DumpLine(id, title)];
    assert lines[1..] == [];
    assert Concat(lines) == lines[0] + Concat(lines[1..]);
  }

  /** A sanitised line without a separator is skipped. */
  lemma SeparatorFreeLineSkipped(s: string)
    requires s != []
    requires s[0] != '\n' && s[|s| - 1] != '\n'
    requires forall j :: !SepAt(s, j)
    ensures ParseLine(s + "\n") == Skip
  {
    StripNewline(s);
    assert FindSep(s).None?;
  }

  // ---------------------------------------------------------------------------
  // Unpadding what preprocessing stored
  // ---------------------------------------------------------------------------

  /** Removing the first `v`s from real ids followed by `c` copies of `v` takes
      them from the tail, at most `k` of them. */
  lemma {:induction false} RemoveFromTail(u: seq<int>, v: int, c: nat, k: nat)
    requires v !in u
    ensures RemoveUpTo(u + Repeat(v, c), v, k) == u + Repeat(v, Max(0, c - k))
    decreases k, 1
  {
    if k == 0 {
      assert Max(0, c - k) == c;
    } else if c == 0 {
      assert u + Repeat(v, c) == u && Repeat(v, Max(0, c - k)) == [];
      assert RemoveUpTo(u, v, k) == u;
    } else {
      RemoveFromTailStep(u, v, c, k);
    }
  }

  /** A round that finds a sentinel, then the remaining `k - 1` rounds. */
  lemma {:induction false} RemoveFromTailStep(u: seq<int>, v: int, c: nat, k: nat)
    requires v !in u && c > 0 && k > 0
    ensures RemoveUpTo(u + Repeat(v, c), v, k) == u + Repeat(v, Max(0, c - k))
    decreases k, 0
  {
    assert Max(0, (c - 1) - (k - 1)) == Max(0, c - k);
    RemoveFromTail(u, v, c - 1, k - 1);
    RemoveOneSentinel(u, v, c, k);
  }

  /** One round of the loop takes the first sentinel after the real ids. */
  lemma RemoveOneSentinel(u: seq<int>, v: int, c: nat, k: nat)
    requires v !in u && c > 0 && k > 0
    ensures RemoveUpTo(u + Repeat(v, c), v, k) == RemoveUpTo(u + Repeat(v, c - 1), v, k - 1)
  {
    var rest := Repeat(v, c - 1);
    assert Repeat(v, c) == [v] + rest;
    assert u + Repeat(v, c) == u + [v] + rest;
    RemoveFirstAfter(u, v, rest);
  }

  /** `remove` takes the first `v`, the one right after a prefix without `v`. */
  lemma RemoveFirstAfter(u: seq<int>, v: int, w: seq<int>)
    requires v !in u
    ensures RemoveFirst(u + [v] + w, v) == u + w
  {
    var x := u + [v] + w;
    assert x[|u|] == v;
    var i := IndexOf(x, v);
    assert x[..|u|] == u;
    assert i == |u|;
    assert x[..i] == u && x[i + 1..] == w;
  }

  /** The accessor's fixed sentinel 130319 is an ordinary id to preprocessing.
      When a history holds it as a real item, `remove` deletes that item and
      keeps everything else, the padding included. */
  lemma AccessorRemovesRealId(u: seq<int>, w: seq<int>)
    requires AccessorSentinel !in u && AccessorSentinel !in w
    ensures RemoveUpTo(u + [AccessorSentinel] + w, AccessorSentinel, RemovalBound) == u + w
  {
    var x := u + [AccessorSentinel] + w;
    assert x[|u|] == AccessorSentinel;
    RemoveFirstAfter(u, AccessorSentinel, w);
    assert AccessorSentinel !in u + w;
  }

  /** At load time, the accessor's `seqUnpad` of a stored record. With the
      sentinel preprocessing used, only 10 of the `MaxLen - lenSeq` sentinels go,
      so a history shorter than 40 ids keeps the rest; with any other sentinel
      that is absent from the record, nothing goes and all `MaxLen` ids stay. */
  lemma LoadedHistory(rec: SessionRecord, pad: int, accessorPad: int)
    requires WellFormed(rec, pad) && pad !in rec.seqUnpad
    ensures accessorPad == pad ==>
      RemoveUpTo(rec.seqPadded, accessorPad, RemovalBound)
        == rec.seqUnpad + Repeat(pad, Max(0, MaxLen - rec.lenSeq - RemovalBound))
    ensures accessorPad != pad && accessorPad !in rec.seqUnpad ==>
      RemoveUpTo(rec.seqPadded, accessorPad, RemovalBound) == rec.seqPadded
  {
    RemoveFromTail(rec.seqUnpad, pad, MaxLen - rec.lenSeq, RemovalBound);
    if accessorPad != pad && accessorPad !in rec.seqUnpad {
      forall k | 0 <= k < |rec.seqPadded| ensures rec.seqPadded[k] != accessorPad {
        if k >= |rec.seqUnpad| {
          assert rec.seqPadded[k] == pad;
        } else {
          assert rec.seqPadded[k] == rec.seqUnpad[k];
        }
      }
    }
  }

  /** For the records of a log with the computed sentinel, loading with that
      same sentinel recovers the stored history exactly when it has at least
      `MaxLen - RemovalBound` ids. */
  lemma LoadedHistoryOfLog(ps: seq<ParsedRow>, catalog: map<int, string>, rec: SessionRecord)
    requires IdsOf(ps) != {}
    requires rec in Records(ps, catalog, SetMax(IdsOf(ps)) + 1)
    ensures var pad := SetMax(IdsOf(ps)) + 1;
      RemoveUpTo(rec.seqPadded, pad, RemovalBound) == rec.seqUnpad <==> rec.lenSeq >= MaxLen - RemovalBound
  {
    var pad := SetMax(IdsOf(ps)) + 1;
    SentinelOnlyInTail(ps, catalog);
    LoadedHistory(rec, pad, pad);
    var rest := Max(0, MaxLen - rec.lenSeq - RemovalBound);
    assert |rec.seqUnpad + Repeat(pad, rest)| == |rec.seqUnpad| + rest;
  }

  // ---------------------------------------------------------------------------
  // Worked examples
  // ---------------------------------------------------------------------------

  /** Stored candidates are the groundtruth list as it is: an answer repeated in
      it stays repeated, so `next` can occur more than once in the slate. */
  lemma AnswerCanRepeat()
    ensures var rec := BuildRecord(ParsedRow(1, [1, 2, 3], [5, 5]), map[5 := "t"], 6);
      && rec.Some?
      && rec.value.candidates == [5, 5]
      && multiset(rec.value.candidates)[rec.value.next] == 2
  {
    assert forall c :: c in [5, 5] ==> c in map[5 := "t"];
  }

  /** User 42 with history `N1 N2 N3` and groundtruth `N5 .. N9`, every id in
      the catalog: one record with the history padded by 47 sentinels. */
  lemma UserFortyTwo(catalog: map<int, string>, pad: int)
    requires forall id :: 1 <= id <= 9 ==> id in catalog
    ensures ParseRow(LogRow(42, ["N1", "N2", "N3"], ["N5", "N6", "N7", "N8", "N9"]))
      == Success(ParsedRow(42, [1, 2, 3], [5, 6, 7, 8, 9]))
    ensures BuildRecord(ParsedRow(42, [1, 2, 3], [5, 6, 7, 8, 9]), catalog, pad)
      == Some(SessionRecord(42, [1, 2, 3] + Repeat(pad, 47), [1, 2, 3], 3, 5, [5, 6, 7, 8, 9]))
  {
    UserFortyTwoHistory();
    UserFortyTwoGroundtruth();
    assert forall c :: c in [5, 6, 7, 8, 9] ==> c in catalog;
    var p := ParsedRow(42, [1, 2, 3], [5, 6, 7, 8, 9]);
    assert Kept(p, catalog);
    var rec := BuildRecord(p, catalog, pad);
    assert p.seqIds[|p.seqIds| - 3..] == [1, 2, 3];
  }

  /** The history tokens of user 42's row parse to their ids. */
  lemma UserFortyTwoHistory()
    ensures ParseTokens(["N1", "N2", "N3"]) == Success([1, 2, 3])
  {
    var tokens, values := ["N1", "N2", "N3"], [1, 2, 3];
    forall k | 0 <= k < 3 ensures ParseNewsId(tokens[k]) == Some(values[k]) {
      DigitTokenParses(tokens[k][1]);
    }
    ParseTokensOf(tokens, values);
  }

  /** The groundtruth tokens of user 42's row parse to their ids. */
  lemma UserFortyTwoGroundtruth()
    ensures ParseTokens(["N5", "N6", "N7", "N8", "N9"]) == Success([5, 6, 7, 8, 9])
  {
    var tokens, values := ["N5", "N6", "N7", "N8", "N9"], [5, 6, 7, 8, 9];
    forall k | 0 <= k < 5 ensures ParseNewsId(tokens[k]) == Some(values[k]) {
      DigitTokenParses(tokens[k][1]);
    }
    ParseTokensOf(tokens, values);
  }

  /** `N` followed by one digit parses to that digit. */
  lemma DigitTokenParses(c: char)
    requires IsDigit(c)
    ensures ParseNewsId(['N', c]) == Some(c as int - '0' as int)
  {
    assert ['N', c][1..] == [c] && IsDigits([c]);
    assert [c][..0] == [];
    assert DigitsValue([c]) == c as int - '0' as int;
  }

  /** Tokens that each parse to a value parse, as a list, to those values. */
  lemma ParseTokensOf(tokens: seq<string>, values: seq<int>)
    requires |tokens| == |values|
    requires forall k :: 0 <= k < |tokens| ==> ParseNewsId(tokens[k]) == Some(values[k])
    ensures ParseTokens(tokens) == Success(values)
  {
    ParseTokensSpec(tokens);
    var r := ParseTokens(tokens);
    assert r.Success?;
    assert r.value == values;
  }

  /** A history of two ids is dropped whatever the groundtruth. */
  lemma ShortHistoryDropped(userId: int, a: int, b: int, gt: seq<int>, catalog: map<int, string>, pad: int)
    ensures BuildRecord(ParsedRow(userId, [a, b], gt), catalog, pad) == None
  {
  }
}
