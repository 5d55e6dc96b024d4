/** Failure-carrying wrappers shared by the preprocessing and the accessor models.
    A Python exception that escapes an operation becomes a `Failure` (or `Fail`)
    value carrying which exception it was. */
module Base {

  datatype Option<+T> = None | Some(value: T)

  datatype Result<+R, +E> = Success(value: R) | Failure(error: E)

  /** The outcome of an operation that has no value of its own. */
  datatype Outcome<+E> = Pass | Fail(error: E)

  function Min(a: int, b: int): int { if a <= b then a else b }

  function Max(a: int, b: int): int { if a <= b then b else a }

  /** `[x] * n` in Python. */
  function Repeat<T>(x: T, n: nat): (r: seq<T>)
    ensures |r| == n
    ensures forall k :: 0 <= k < n ==> r[k] == x
  {
    seq(n, _ => x)
  }

  /** `"".join(lines)`: the text made of the given pieces in order. */
  function Concat(lines: seq<string>): string {
    if lines == [] then "" else lines[0] + Concat(lines[1..])
  }

  /** Concatenation ends with the last character of the last piece. */
  lemma {:induction false} ConcatLast(lines: seq<string>)
    requires lines != [] && lines[|lines| - 1] != []
    ensures var r := Concat(lines); |r| > 0 && r[|r| - 1] == lines[|lines| - 1][|lines[|lines| - 1]| - 1]
    decreases |lines|
  {
    if |lines| > 1 {
      assert lines[1..][|lines| - 2] == lines[|lines| - 1];
      ConcatLast(lines[1..]);
    }
  }

  /** A property that holds along a prefix and at the last element holds
      along the whole sequence. */
  lemma SnocAll<T>(init: seq<T>, xs: seq<T>, ok: T -> bool)
    requires xs != [] && init == xs[..|xs| - 1]
    requires forall i :: 0 <= i < |init| ==> ok(init[i])
    requires ok(xs[|xs| - 1])
    ensures forall i :: 0 <= i < |xs| ==> ok(xs[i])
  {
    forall i | 0 <= i < |xs| ensures ok(xs[i]) {
      if i < |init| {
        assert xs[i] == init[i];
      }
    }
  }

  /** A non-empty set of integers has a member to pick. */
  lemma NonEmptyHasMember(s: set<int>)
    requires s != {}
    ensures exists x :: x in s
  {
    if forall x :: x !in s {
      assert false;
    }
  }
}
