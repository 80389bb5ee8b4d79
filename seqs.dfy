/** Sequence helpers shared by the byte-level `strings.Index`, the
    rune-level first-line cut and the report of a scan. The functions carry
    only small contracts; what they compute is stated by the lemmas beside
    them. */
module Seqs {

  /** Position of the first occurrence of `x` in `s`, or -1 when `x` does not
      occur: Go's `strings.Index` with a one-element separator. */
  function IndexOf<T(==)>(s: seq<T>, x: T): (i: int)
    ensures -1 <= i < |s|
  {
    if |s| == 0 then -1
    else if s[0] == x then 0
    else
      var j := IndexOf(s[1..], x);
      if j < 0 then -1 else j + 1
  }

  /** `IndexOf` is -1 exactly when `x` is absent, and otherwise points at the
      first `x`. */
  lemma {:induction false} IndexOfFinds<T>(s: seq<T>, x: T)
    ensures IndexOf(s, x) == -1 <==> x !in s
    ensures 0 <= IndexOf(s, x) ==> s[IndexOf(s, x)] == x && x !in s[..IndexOf(s, x)]
  {
    if |s| > 0 && s[0] != x {
      IndexOfFinds(s[1..], x);
      assert s == [s[0]] + s[1..];
      var j := IndexOf(s[1..], x);
      if j >= 0 {
        assert s[..j + 1] == [s[0]] + s[1..][..j];
      }
    }
  }

  /** Searching past a prefix that does not contain `x` shifts the position
      by the length of that prefix. */
  lemma {:induction false} IndexOfAfter<T>(a: seq<T>, b: seq<T>, x: T)
    requires x !in a
    ensures IndexOf(a + b, x) == if IndexOf(b, x) < 0 then -1 else |a| + IndexOf(b, x)
  {
    if |a| == 0 {
      assert a + b == b;
    } else {
      assert (a + b)[0] == a[0] && (a + b)[1..] == a[1..] + b;
      IndexOfAfter(a[1..], b, x);
    }
  }

  /** Number of occurrences of `x` in `s`. */
  function Count<T(==)>(s: seq<T>, x: T): (n: nat)
    ensures n <= |s|
  {
    if |s| == 0 then 0 else (if s[0] == x then 1 else 0) + Count(s[1..], x)
  }

  lemma {:induction false} CountAppend<T>(a: seq<T>, b: seq<T>, x: T)
    ensures Count(a + b, x) == Count(a, x) + Count(b, x)
  {
    if |a| == 0 {
      assert a + b == b;
    } else {
      assert (a + b)[0] == a[0] && (a + b)[1..] == a[1..] + b;
      CountAppend(a[1..], b, x);
    }
  }

  lemma {:induction false} CountAbsent<T>(s: seq<T>, x: T)
    requires x !in s
    ensures Count(s, x) == 0
  {
    if |s| > 0 {
      assert x !in s[1..];
      CountAbsent(s[1..], x);
    }
  }

  /** The parts joined end to end. */
  function Concat<T>(parts: seq<seq<T>>): seq<T> {
    if |parts| == 0 then [] else parts[0] + Concat(parts[1..])
  }

  lemma {:induction false} ConcatAppend<T>(a: seq<seq<T>>, b: seq<seq<T>>)
    ensures Concat(a + b) == Concat(a) + Concat(b)
  {
    if |a| == 0 {
      assert a + b == b;
    } else {
      assert (a + b)[0] == a[0] && (a + b)[1..] == a[1..] + b;
      ConcatAppend(a[1..], b);
    }
  }

  /** Parts that each hold `x` once give a whole that holds `x` once per part. */
  lemma {:induction false} ConcatCount<T>(parts: seq<seq<T>>, x: T)
    requires forall i :: 0 <= i < |parts| ==> Count(parts[i], x) == 1
    ensures Count(Concat(parts), x) == |parts|
  {
    if |parts| > 0 {
      ConcatCount(parts[1..], x);
      CountAppend(parts[0], Concat(parts[1..]), x);
    }
  }
}
