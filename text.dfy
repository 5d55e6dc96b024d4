/** The Python string and integer built-ins that the pipeline relies on:
    `str.strip`, `int(str)`, `str(int)`, `str.split('::')`, `sep.join`,
    `str.replace` on one character, and the line splitting that
    `open(...).readlines()` performs in text mode. */
module Text {
  import opened Base

  /** The characters for which Python's `str.isspace()` holds; `str.strip()` and
      `int()` trim exactly these. */
  predicate IsSpace(c: char) {
    || c == ' '
    || ('\t' <= c <= '\r')
    || ('\U{1c}' <= c <= '\U{1f}')
    || c == '\U{85}' || c == '\U{a0}' || c == '\U{1680}'
    || ('\U{2000}' <= c <= '\U{200a}')
    || c == '\U{2028}' || c == '\U{2029}' || c == '\U{202f}' || c == '\U{205f}' || c == '\U{3000}'
  }

  /** Drops the leading characters that satisfy `drop`. */
  function LStrip(s: string, drop: char -> bool): string {
    if s != [] && drop(s[0]) then LStrip(s[1..], drop) else s
  }

  /** Drops the trailing characters that satisfy `drop`. */
  function RStrip(s: string, drop: char -> bool): string {
    if s != [] && drop(s[|s| - 1]) then RStrip(s[..|s| - 1], drop) else s
  }

  /** `s.strip(chars)`, with `drop` telling which characters are in `chars`. */
  function Strip(s: string, drop: char -> bool): string {
    RStrip(LStrip(s, drop), drop)
  }

  lemma {:induction false} LStripShape(s: string, drop: char -> bool)
    ensures var r := LStrip(s, drop);
      && |r| <= |s| && r == s[|s| - |r|..]
      && (r == [] || !drop(r[0]))
      && forall k :: 0 <= k < |s| - |r| ==> drop(s[k])
    decreases |s|
  {
    if s != [] && drop(s[0]) {
      LStripShape(s[1..], drop);
    }
  }

  lemma {:induction false} RStripShape(s: string, drop: char -> bool)
    ensures var r := RStrip(s, drop);
      && |r| <= |s| && r == s[..|r|]
      && (r == [] || !drop(r[|r| - 1]))
      && forall k :: |r| <= k < |s| ==> drop(s[k])
    decreases |s|
  {
    if s != [] && drop(s[|s| - 1]) {
      RStripShape(s[..|s| - 1], drop);
    }
  }

  /** `s.strip(chars)` is the infix `s[i..j]` left after removing the longest
      prefix and the longest suffix of characters satisfying `drop`. */
  lemma StripShape(s: string, drop: char -> bool)
    ensures exists i, j :: (0 <= i <= j <= |s| && Strip(s, drop) == s[i..j]
      && (forall k :: 0 <= k < i ==> drop(s[k]))
      && (forall k :: j <= k < |s| ==> drop(s[k]))
      && (i == j || (!drop(s[i]) && !drop(s[j - 1]))))
  {
    LStripShape(s, drop);
    var l := LStrip(s, drop);
    RStripShape(l, drop);
    var r := RStrip(l, drop);
    var i := |s| - |l|;
    var j := i + |r|;
    assert l == s[i..];
    assert r == l[..|r|];
    assert Strip(s, drop) == s[i..j];
    forall k | j <= k < |s| ensures drop(s[k]) {
      assert s[k] == l[k - i];
    }
    if i < j {
      assert s[i] == l[0] && l[0] == r[0];
      assert s[j - 1] == r[|r| - 1];
    }
    assert 0 <= i <= j <= |s| && Strip(s, drop) == s[i..j]
      && (forall k :: 0 <= k < i ==> drop(s[k]))
      && (forall k :: j <= k < |s| ==> drop(s[k]))
      && (i == j || (!drop(s[i]) && !drop(s[j - 1])));
  }

  /** What `strip` leaves neither starts nor ends with a stripped character. */
  lemma StripEnds(s: string, drop: char -> bool)
    ensures var r := Strip(s, drop); r == [] || (!drop(r[0]) && !drop(r[|r| - 1]))
  {
    LStripShape(s, drop);
    RStripShape(LStrip(s, drop), drop);
  }

  lemma StripKeeps(s: string, drop: char -> bool)
    requires s == [] || (!drop(s[0]) && !drop(s[|s| - 1]))
    ensures Strip(s, drop) == s
  {
  }

  predicate IsNewline(c: char) { c == '\n' }

  /** `(x + "\n").strip('\n')` is `x` when `x` neither starts nor ends with a
      line break. */
  lemma StripNewline(x: string)
    requires x != [] && x[0] != '\n' && x[|x| - 1] != '\n'
    ensures Strip(x + "\n", IsNewline) == x
  {
    var s := x + "\n";
    assert LStrip(s, IsNewline) == s;
    assert s[..|s| - 1] == x;
    assert RStrip(x, IsNewline) == x;
  }

  predicate IsDigit(c: char) { '0' <= c <= '9' }

  /** A non-empty run of ASCII decimal digits. */
  predicate IsDigits(s: string) {
    |s| > 0 && forall k :: 0 <= k < |s| ==> IsDigit(s[k])
  }

  /** The value of a string of decimal digits, most significant first. */
  function DigitsValue(s: string): nat
    requires forall k :: 0 <= k < |s| ==> IsDigit(s[k])
  {
    if s == [] then 0
    else
      assert IsDigit(s[|s| - 1]);
      DigitsValue(s[..|s| - 1]) * 10 + (s[|s| - 1] as int - '0' as int)
  }

  /** `int(s)` for a base-10 string: surrounding whitespace, an optional sign,
      then at least one ASCII digit. `None` is the `ValueError` it raises. */
  function ParseInt(s: string): Option<int> {
    var t := Strip(s, IsSpace);
    if |t| > 0 && (t[0] == '-' || t[0] == '+') then
      if IsDigits(t[1..]) then
        var v: int := DigitsValue(t[1..]);
        Some(if t[0] == '-' then -v else v)
      else None
    else if IsDigits(t) then Some(DigitsValue(t))
    else None
  }

  function DigitChar(d: nat): char
    requires d < 10
  {
    ('0' as int + d) as char
  }

  /** `str(n)` for a natural number: its digits, without leading zeros. */
  function NatToString(n: nat): (r: string)
    ensures IsDigits(r) && DigitsValue(r) == n
    ensures r[0] != '0' || r == "0"
  {
    if n < 10 then [DigitChar(n)]
    else
      var prefix := NatToString(n / 10);
      var r := prefix + [DigitChar(n % 10)];
      assert r[..|r| - 1] == prefix;
      r
  }

  /** `str(n)`: a minus sign for negative numbers, then the digits. */
  function IntToString(n: int): string {
    if n < 0 then "-" + NatToString(-n) else NatToString(n)
  }

  /** `str(n)` is made of digits and at most a leading minus sign. */
  lemma IntToStringChars(n: int)
    ensures IntToString(n) != []
    ensures forall k :: 0 <= k < |IntToString(n)| ==> IsDigit(IntToString(n)[k]) || IntToString(n)[k] == '-'
  {
    var digits := NatToString(if n < 0 then -n else n);
    if n < 0 {
      assert IntToString(n) == "-" + digits;
    }
  }

  /** `int(str(n)) == n`. */
  lemma {:induction false} ParseIntToString(n: int)
    ensures ParseInt(IntToString(n)) == Some(n)
  {
    var t := IntToString(n);
    var digits := NatToString(if n < 0 then -n else n);
    assert !IsSpace(t[0]) && !IsSpace(t[|t| - 1]);
    StripKeeps(t, IsSpace);
    if n < 0 {
      assert t[1..] == digits;
    }
  }

  /** A `"::"` separator starts at index `i` of `s`. */
  predicate SepAt(s: string, i: int) {
    0 <= i && i + 1 < |s| && s[i] == ':' && s[i + 1] == ':'
  }

  function FindSepFrom(s: string, i: nat): (r: Option<nat>)
    requires i <= |s|
    ensures r.Some? ==> i <= r.value && SepAt(s, r.value) && forall j :: i <= j < r.value ==> !SepAt(s, j)
    ensures r.None? ==> forall j :: i <= j ==> !SepAt(s, j)
    decreases |s| - i
  {
    if i + 1 >= |s| then None
    else if SepAt(s, i) then Some(i)
    else FindSepFrom(s, i + 1)
  }

  /** The index of the first `"::"` in `s`, as `str.find('::')` reports it. */
  function FindSep(s: string): (r: Option<nat>)
    ensures r.Some? ==> SepAt(s, r.value) && forall j :: 0 <= j < r.value ==> !SepAt(s, j)
    ensures r.None? ==> forall j :: !SepAt(s, j)
  {
    FindSepFrom(s, 0)
  }

  /** `sep.join(parts)`. */
  function Join(sep: string, parts: seq<string>): string {
    if parts == [] then ""
    else if |parts| == 1 then parts[0]
    else parts[0] + sep + Join(sep, parts[1..])
  }

  /** `s.split('::')`: cut at every `"::"`, scanning left to right. Joining the
      fields back with `"::"` gives `s`, and no field contains a separator. */
  function Split(s: string): (parts: seq<string>)
    ensures |parts| >= 1
    ensures Join("::", parts) == s
    ensures forall k, j :: 0 <= k < |parts| ==> !SepAt(parts[k], j)
    ensures |parts| >= 2 <==> FindSep(s).Some?
    decreases |s|
  {
    match FindSep(s)
    case None => [s]
    case Some(i) =>
      var head := s[..i];
      var rest := Split(s[i + 2..]);
      assert s == head + "::" + s[i + 2..];
      assert forall j :: !SepAt(head, j) by {
        forall j | SepAt(head, j) ensures false {
          assert SepAt(s, j);
        }
      }
      [head] + rest
  }

  /** `(a + "::" + b).split('::')` is `[a, b]` when `a` has no colon and `b`
      holds no separator. */
  lemma SplitPair(a: string, b: string)
    requires forall k :: 0 <= k < |a| ==> a[k] != ':'
    requires forall j :: !SepAt(b, j)
    ensures Split(a + "::" + b) == [a, b]
  {
    var s := a + "::" + b;
    assert SepAt(s, |a|);
    match FindSep(s)
    case None =>
      assert false;
    case Some(i) =>
      assert i == |a|;
      assert s[i + 2..] == b;
      assert s[..i] == a;
  }

  /** The first `"::"` after a separator-free field that does not end in a
      colon is the one that follows it, so `split` cuts there first. */
  lemma SplitFirst(a: string, rest: string)
    requires forall j :: !SepAt(a, j)
    requires a == [] || a[|a| - 1] != ':'
    ensures Split(a + "::" + rest) == [a] + Split(rest)
  {
    var s := a + "::" + rest;
    assert SepAt(s, |a|);
    forall j | 0 <= j < |a| ensures !SepAt(s, j) {
      if j + 1 < |a| {
        assert s[j] == a[j] && s[j + 1] == a[j + 1] && !SepAt(a, j);
      } else {
        assert s[j] == a[|a| - 1];
      }
    }
    match FindSep(s)
    case None =>
      assert false;
    case Some(i) =>
      assert i == |a|;
      assert s[i + 2..] == rest;
      assert s[..i] == a;
  }

  /** `s.replace(a, b)` for single characters. */
  function ReplaceChar(s: string, a: char, b: char): (r: string)
    ensures |r| == |s|
    ensures forall k :: 0 <= k < |s| ==> r[k] == if s[k] == a then b else s[k]
  {
    seq(|s|, k requires 0 <= k < |s| => if s[k] == a then b else s[k])
  }

  /** The universal-newlines translation of a file opened in text mode:
      `"\r\n"` and a lone `"\r"` both become `"\n"`. */
  function Translate(s: string): (r: string)
    ensures forall k :: 0 <= k < |r| ==> r[k] != '\r'
    decreases |s|
  {
    if s == [] then []
    else if s[0] == '\r' then "\n" + Translate(if |s| > 1 && s[1] == '\n' then s[2..] else s[1..])
    else [s[0]] + Translate(s[1..])
  }

  lemma {:induction false} TranslateKeeps(s: string)
    requires forall k :: 0 <= k < |s| ==> s[k] != '\r'
    ensures Translate(s) == s
    decreases |s|
  {
    if s != [] {
      TranslateKeeps(s[1..]);
    }
  }

  /** One character that is not a carriage return is copied. */
  lemma TranslateOther(s: string)
    requires s != [] && s[0] != '\r'
    ensures Translate(s) == [s[0]] + Translate(s[1..])
  {
  }

  /** A carriage return with no line feed after it becomes a line feed. */
  lemma TranslateLone(s: string)
    requires s != [] && s[0] == '\r' && (|s| == 1 || s[1] != '\n')
    ensures Translate(s) == "\n" + Translate(s[1..])
  {
  }

  /** A carriage return not followed by a line feed becomes a line feed. */
  lemma TranslateLoneCarriageReturn(p: string, q: string)
    requires forall k :: 0 <= k < |p| ==> p[k] != '\r'
    requires forall k :: 0 <= k < |q| ==> q[k] != '\r'
    requires q == [] || q[0] != '\n'
    ensures Translate(p + "\r" + q) == p + "\n" + q
  {
    var t := "\r" + q;
    assert p + "\r" + q == p + t;
    TranslatePrefix(p, t);
    assert t[1..] == q;
    TranslateLone(t);
    TranslateKeeps(q);
  }

  /** Text without carriage returns in front of `t` is copied as it is. */
  lemma {:induction false} TranslatePrefix(p: string, t: string)
    requires forall k :: 0 <= k < |p| ==> p[k] != '\r'
    ensures Translate(p + t) == p + Translate(t)
    decreases |p|
  {
    if p != [] {
      var tail, rest := p[1..], Translate(t);
      assert (p + t)[0] == p[0] && (p + t)[1..] == tail + t;
      TranslateOther(p + t);
      TranslatePrefix(tail, t);
      assert [p[0]] + (tail + rest) == p + rest;
    } else {
      assert p + t == t;
    }
  }

  /** The index of the first `'\n'` of `s`. */
  function FindNewline(s: string): (r: Option<nat>)
    ensures r.Some? ==> r.value < |s| && s[r.value] == '\n' && forall j :: 0 <= j < r.value ==> s[j] != '\n'
    ensures r.None? ==> forall j :: 0 <= j < |s| ==> s[j] != '\n'
  {
    if s == [] then None
    else if s[0] == '\n' then Some(0)
    else match FindNewline(s[1..])
      case None => None
      case Some(i) => Some(i + 1)
  }

  /** No `'\n'` before the last character. */
  predicate NoInnerNewline(line: string) {
    forall j :: 0 <= j < |line| - 1 ==> line[j] != '\n'
  }

  /** Splits translated text into lines, each keeping its `'\n'`; only the last
      line may lack one. */
  function SplitLines(s: string): (lines: seq<string>)
    ensures Concat(lines) == s
    ensures forall k :: 0 <= k < |lines| ==> lines[k] != [] && NoInnerNewline(lines[k])
    ensures forall k :: 0 <= k < |lines| - 1 ==> lines[k][|lines[k]| - 1] == '\n'
    decreases |s|
  {
    if s == [] then []
    else match FindNewline(s)
      case None => [s]
      case Some(i) =>
        var head := s[..i + 1];
        var rest := SplitLines(s[i + 1..]);
        var lines := [head] + rest;
        assert lines[1..] == rest;
        assert s == head + s[i + 1..];
        assert NoInnerNewline(head);
        assert forall k :: 1 <= k < |lines| ==> lines[k] == rest[k - 1];
        lines
  }

  /** `f.readlines()` on a file opened in text mode whose content is `text`. */
  function ReadLines(text: string): seq<string> {
    SplitLines(Translate(text))
  }

  /** A line as `f.write(...)` produced it: text without line breaks, then `'\n'`. */
  predicate IsTerminatedLine(line: string) {
    && |line| > 0
    && line[|line| - 1] == '\n'
    && (forall j :: 0 <= j < |line| - 1 ==> line[j] != '\n')
    && (forall j :: 0 <= j < |line| ==> line[j] != '\r')
  }

  lemma {:induction false} ConcatNoCarriageReturn(lines: seq<string>)
    requires forall k :: 0 <= k < |lines| ==> IsTerminatedLine(lines[k])
    ensures forall j :: 0 <= j < |Concat(lines)| ==> Concat(lines)[j] != '\r'
  {
    if lines != [] {
      ConcatNoCarriageReturn(lines[1..]);
      assert IsTerminatedLine(lines[0]);
      var rest := Concat(lines[1..]);
      forall j | 0 <= j < |Concat(lines)| ensures Concat(lines)[j] != '\r' {
        if j >= |lines[0]| {
          assert Concat(lines)[j] == rest[j - |lines[0]|];
        }
      }
    }
  }

  lemma {:induction false} SplitLinesOfTerminated(lines: seq<string>)
    requires forall k :: 0 <= k < |lines| ==> IsTerminatedLine(lines[k])
    ensures SplitLines(Concat(lines)) == lines
  {
    if lines != [] {
      var head := lines[0];
      var s := Concat(lines);
      assert IsTerminatedLine(head);
      assert s == head + Concat(lines[1..]);
      var n := FindNewline(s);
      assert s[|head| - 1] == '\n';
      assert n == Some(|head| - 1);
      assert s[..|head|] == head;
      assert s[|head|..] == Concat(lines[1..]);
      SplitLinesOfTerminated(lines[1..]);
    }
  }

  /** Reading back a text written as terminated lines gives those lines. */
  lemma ReadLinesOfTerminated(lines: seq<string>)
    requires forall k :: 0 <= k < |lines| ==> IsTerminatedLine(lines[k])
    ensures ReadLines(Concat(lines)) == lines
  {
    ConcatNoCarriageReturn(lines);
    TranslateKeeps(Concat(lines));
    SplitLinesOfTerminated(lines);
  }
}
