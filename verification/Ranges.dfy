/** Reading a range of a table from its upper end, in any total order. A range is the set of what is in it. */
module Ranges {
  import opened Bytes
  import opened Optional
  import opened Radix

  ghost predicate TotalOrder<T(!new)>(less: (T, T) -> bool) {
    && (forall a, b :: less(a, b) ==> !less(b, a))
    && (forall a, b, c :: less(a, b) && less(b, c) ==> less(a, c))
    && (forall a, b :: a == b || less(a, b) || less(b, a))
  }

  predicate IsLast<T(==)>(less: (T, T) -> bool, x: T, xs: set<T>) {
    x in xs && forall y :: y in xs ==> y == x || less(y, x)
  }

  function Under<T>(less: (T, T) -> bool, xs: set<T>, x: T): set<T> { set y | y in xs && less(y, x) }

  /** kvs_cursor_firstr from the upper end of a range, and kvs_cursor_nextr from there downwards. */
  method CursorLast<T(==, !new)>(less: (T, T) -> bool, xs: set<T>) returns (r: Option<T>)
    requires TotalOrder(less)
    ensures r.None? <==> xs == {}
    ensures r.Some? ==> IsLast(less, r.value, xs)
  {
    if xs == {} {
      return None;
    }
    var best :| best in xs;
    var todo := xs - {best};
    while todo != {}
      invariant todo <= xs && best in xs && best !in todo
      invariant forall x :: x in xs && x !in todo ==> x == best || less(x, best)
      decreases todo
    {
      var x :| x in todo;
      todo := todo - {x};
      if less(best, x) {
        best := x;
      }
    }
    return Some(best);
  }

  /** The greatest of xs, the greatest first, as many as there are up to max. */
  ghost predicate Firsts<T(!new)>(less: (T, T) -> bool, out: seq<T>, xs: set<T>, max: nat) {
    && (forall i, j :: 0 <= i < j < |out| ==> less(out[j], out[i]))
    && (forall i :: 0 <= i < |out| ==> out[i] in xs)
    && |out| <= max
    && (forall x :: x in xs && x !in out ==> |out| == max && forall i :: 0 <= i < |out| ==> less(x, out[i]))
  }

  lemma Peel<T(!new)>(less: (T, T) -> bool, a: seq<T>, xs: set<T>, max: nat)
    requires Firsts(less, a, xs, max) && TotalOrder(less)
    ensures a == [] ==> max == 0 || xs == {}
    ensures a != [] ==> max > 0 && IsLast(less, a[0], xs) && Firsts(less, a[1..], xs - {a[0]}, max - 1)
  {
    if a == [] {
      forall x | x in xs ensures |a| == max {
        assert x !in a;
      }
    } else {
      forall x | x in xs - {a[0]} && x !in a[1..]
        ensures |a[1..]| == max - 1 && forall i :: 0 <= i < |a[1..]| ==> less(x, a[1..][i])
      {
        assert x !in a;
      }
      forall x | x in xs ensures x == a[0] || less(x, a[0]) {
      }
    }
  }

  /** There is only one such sequence. */
  lemma {:induction false} FirstsAreUnique<T(!new)>(less: (T, T) -> bool, a: seq<T>, b: seq<T>, xs: set<T>, max: nat)
    requires Firsts(less, a, xs, max) && Firsts(less, b, xs, max) && TotalOrder(less)
    ensures a == b
    decreases |a|
  {
    Peel(less, a, xs, max);
    Peel(less, b, xs, max);
    if a != [] && b != [] {
      hide Firsts;
      FirstsAreUnique(less, a[1..], b[1..], xs - {a[0]}, max - 1);
      assert a == [a[0]] + a[1..] && b == [b[0]] + b[1..];
    }
  }

  /** What the cursor has read on its way down, and what it has not reached. */
  ghost predicate ReadSoFar<T(!new)>(less: (T, T) -> bool, out: seq<T>, rest: set<T>, xs: set<T>, max: nat) {
    && |out| <= max && rest <= xs
    && (forall i, j :: 0 <= i < j < |out| ==> less(out[j], out[i]))
    && (forall i :: 0 <= i < |out| ==> out[i] in xs && out[i] !in rest)
    && (forall x :: x in xs && x !in out ==> x in rest)
    && (forall x, i :: x in rest && 0 <= i < |out| ==> less(x, out[i]))
  }

  lemma NothingRead<T(!new)>(less: (T, T) -> bool, xs: set<T>, max: nat)
    ensures ReadSoFar(less, [], xs, xs, max)
  {
  }

  lemma ReadOne<T(!new)>(less: (T, T) -> bool, out: seq<T>, rest: set<T>, xs: set<T>, max: nat, x: T)
    requires ReadSoFar(less, out, rest, xs, max) && |out| < max && IsLast(less, x, rest) && TotalOrder(less)
    ensures ReadSoFar(less, out + [x], Under(less, rest, x), xs, max)
  {
    forall y | y in xs && y !in out + [x] ensures y in Under(less, rest, x) {
      assert y !in out;
    }
  }

  lemma ReadAll<T(!new)>(less: (T, T) -> bool, out: seq<T>, rest: set<T>, xs: set<T>, max: nat)
    requires ReadSoFar(less, out, rest, xs, max) && (|out| == max || rest == {})
    ensures Firsts(less, out, xs, max)
  {
  }

  lemma UnderIsLess<T(!new)>(less: (T, T) -> bool, xs: set<T>, x: T)
    requires IsLast(less, x, xs) && TotalOrder(less)
    ensures Under(less, xs, x) < xs
  {
  }

  /** The elements that a test lets pass. */
  function Passed<T>(pass: T -> bool, xs: set<T>): set<T> { set x | x in xs && pass(x) }

  /** On the way down from the greatest. */
  lemma PassUnder<T(!new)>(less: (T, T) -> bool, pass: T -> bool, rest: set<T>, x: T)
    requires IsLast(less, x, rest) && TotalOrder(less)
    ensures var passed, below := Passed(pass, rest), Passed(pass, Under(less, rest, x));
            if pass(x) then IsLast(less, x, passed) && Under(less, passed, x) == below else passed == below
  {
  }

  // ---------------------------------------------------------------- octet by octet

  predicate LexLess(a: seq<byte>, b: seq<byte>) {
    b != [] && (a == [] || a[0] < b[0] || (a[0] == b[0] && LexLess(a[1..], b[1..])))
  }

  lemma {:induction false} LexTotal(a: seq<byte>, b: seq<byte>)
    ensures LexLess(a, b) ==> !LexLess(b, a)
    ensures a == b || LexLess(a, b) || LexLess(b, a)
  {
    if a != [] && b != [] {
      LexTotal(a[1..], b[1..]);
      assert a == [a[0]] + a[1..] && b == [b[0]] + b[1..];
    }
  }

  lemma {:induction false} LexTransitive(a: seq<byte>, b: seq<byte>, c: seq<byte>)
    requires LexLess(a, b) && LexLess(b, c)
    ensures LexLess(a, c)
  {
    if a != [] && b != [] && c != [] && a[0] == b[0] == c[0] {
      LexTransitive(a[1..], b[1..], c[1..]);
    }
  }

  /** Among as many octets this is the order of the numbers they are, the first octet the most significant. */
  lemma {:induction false} LexIsValue(a: seq<byte>, b: seq<byte>)
    requires |a| == |b|
    ensures LexLess(a, b) <==> Value(a, 256) < Value(b, 256)
  {
    if a != [] {
      hide Value, Pow, LexLess;
      var n := |a| - 1;
      LexIsValue(a[1..], b[1..]);
      LexFront(a, b);
      ValueFront(a, 256);
      ValueFront(b, 256);
      ValueBound(a[1..], 256);
      ValueBound(b[1..], 256);
      FrontDecides(a[0], Value(a[1..], 256), b[0], Value(b[1..], 256), Pow(256, n));
    }
  }

  lemma LexFront(a: seq<byte>, b: seq<byte>)
    requires a != [] && b != []
    ensures LexLess(a, b) <==> a[0] < b[0] || (a[0] == b[0] && LexLess(a[1..], b[1..]))
  {
  }

  lemma FrontDecides(x: nat, v: nat, y: nat, w: nat, p: nat)
    requires v < p && w < p
    ensures x * p + v < y * p + w <==> x < y || (x == y && v < w)
  {
    if x < y {
      Times(x + 1, y, p, p);
      assert (x + 1) * p == x * p + p;
    } else if y < x {
      Times(y + 1, x, p, p);
      assert (y + 1) * p == y * p + p;
    }
  }
}
