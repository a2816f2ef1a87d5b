/** Positional notation: what a string of digits is worth, and how many digits a value takes. */
module Radix {
  function Pow(b: nat, e: nat): nat { if e == 0 then 1 else b * Pow(b, e - 1) }

  lemma DivMod(v: nat, base: nat)
    requires base > 0
    ensures v / base >= 0 && 0 <= v % base < base && (v / base) * base + v % base == v
  {
  }

  lemma Times(a: nat, b: nat, c: nat, d: nat)
    requires a <= b && c <= d
    ensures a * c <= b * d
  {
    assert a * c <= b * c;
    assert b * (d - c) >= 0;
  }

  lemma Distribute(a: nat, p: nat, q: nat, base: nat)
    ensures (a * p + q) * base == a * (base * p) + q * base
  {
    assert (a * p + q) * base == a * p * base + q * base;
    assert a * p * base == a * (p * base);
  }

  predicate AllBelow(s: seq<nat>, base: nat) { forall i :: 0 <= i < |s| ==> s[i] < base }

  /** The most significant digit comes first. */
  function Value(s: seq<nat>, base: nat): nat {
    if s == [] then 0 else Value(s[..|s| - 1], base) * base + s[|s| - 1]
  }

  lemma PowPositive(b: nat, e: nat)
    requires b > 0
    ensures Pow(b, e) > 0
  {
  }

  lemma TimesAssoc(a: nat, b: nat, c: nat)
    ensures a * (b * c) == a * b * c
  {
  }

  lemma {:induction false} PowAdd(b: nat, m: nat, n: nat)
    ensures Pow(b, m + n) == Pow(b, m) * Pow(b, n)
  {
    if m > 0 {
      PowAdd(b, m - 1, n);
      TimesAssoc(b, Pow(b, m - 1), Pow(b, n));
    }
  }

  lemma {:induction false} PowPow(b: nat, m: nat, k: nat)
    ensures Pow(Pow(b, m), k) == Pow(b, m * k)
  {
    if k > 0 {
      PowPow(b, m, k - 1);
      assert m * k == m + m * (k - 1);
      PowAdd(b, m, m * (k - 1));
    }
  }

  lemma {:induction false} PowBaseMonotone(a: nat, b: nat, k: nat)
    requires a <= b
    ensures Pow(a, k) <= Pow(b, k)
  {
    if k > 0 {
      PowBaseMonotone(a, b, k - 1);
      Times(a, b, Pow(a, k - 1), Pow(b, k - 1));
    }
  }

  lemma {:induction false} PowGrows(b: nat, m: nat, n: nat)
    requires b >= 2 && m <= n
    ensures Pow(b, m) <= Pow(b, n) && (m < n ==> Pow(b, m) < Pow(b, n))
  {
    PowPositive(b, m);
    if m < n {
      PowGrows(b, m, n - 1);
      assert b * Pow(b, n - 1) >= 2 * Pow(b, n - 1);
    }
  }

  /** The value of two strings of digits one after the other. */
  lemma {:induction false} ValueConcat(a: seq<nat>, b: seq<nat>, base: nat)
    ensures Value(a + b, base) == Value(a, base) * Pow(base, |b|) + Value(b, base)
  {
    if b == [] {
      assert a + b == a;
    } else {
      var init, last := b[..|b| - 1], b[|b| - 1];
      assert (a + b)[..|a + b| - 1] == a + init;
      ValueConcat(a, init, base);
      Distribute(Value(a, base), Pow(base, |init|), Value(init, base), base);
    }
  }

  lemma AppendDigit(s: seq<nat>, d: nat, base: nat)
    ensures Value(s + [d], base) == Value(s, base) * base + d
  {
    assert (s + [d])[..|s|] == s;
  }

  lemma ValueOne(d: nat, base: nat)
    ensures Value([d], base) == d
  {
    assert [d][..0] == [];
  }

  lemma ValueFront(s: seq<nat>, base: nat)
    requires s != []
    ensures Value(s, base) == s[0] * Pow(base, |s| - 1) + Value(s[1..], base)
  {
    ValueOne(s[0], base);
    ValueConcat([s[0]], s[1..], base);
    assert [s[0]] + s[1..] == s;
  }

  lemma {:induction false} ValueBound(s: seq<nat>, base: nat)
    requires AllBelow(s, base)
    ensures Value(s, base) < Pow(base, |s|) || (s == [] && Value(s, base) == 0)
    ensures Value(s, base) < Pow(base, |s|)
  {
    if s != [] {
      var init := s[..|s| - 1];
      ValueBound(init, base);
      Times(Value(init, base) + 1, Pow(base, |init|), base, base);
      assert (Value(init, base) + 1) * base == Value(init, base) * base + base;
    }
  }

  lemma {:induction false} ValueOfZeros(s: seq<nat>, base: nat)
    requires forall i :: 0 <= i < |s| ==> s[i] == 0
    ensures Value(s, base) == 0
  {
    if s != [] {
      ValueOfZeros(s[..|s| - 1], base);
    }
  }

  /** Digits of the same number in the same width are the same digits. */
  lemma {:induction false} ValueInjective(a: seq<nat>, b: seq<nat>, base: nat)
    requires AllBelow(a, base) && AllBelow(b, base) && |a| == |b| && Value(a, base) == Value(b, base)
    ensures a == b
  {
    if a != [] {
      var n := |a| - 1;
      DivideOut(Value(a[..n], base), a[n], Value(b[..n], base), b[n], base);
      ValueInjective(a[..n], b[..n], base);
      assert a == a[..n] + [a[n]] && b == b[..n] + [b[n]];
    }
  }

  lemma DivideOut(p: nat, d: nat, q: nat, e: nat, base: nat)
    requires d < base && e < base && p * base + d == q * base + e
    ensures p == q && d == e
  {
    assert (p + 1) * base == p * base + base;
    assert (q + 1) * base == q * base + base;
    if p < q {
      Times(p + 1, q, base, base);
    } else if q < p {
      Times(q + 1, p, base, base);
    }
  }

  /** Putting more digits after a number makes it no smaller. */
  lemma ValueOfPrefix(s: seq<nat>, k: nat, base: nat)
    requires base > 0 && k <= |s|
    ensures Value(s[..k], base) <= Value(s, base)
  {
    ValueConcat(s[..k], s[k..], base);
    assert s[..k] + s[k..] == s;
    PowPositive(base, |s| - k);
    Times(Value(s[..k], base), Value(s[..k], base), 1, Pow(base, |s| - k));
  }

  lemma Smaller(v: nat, base: nat)
    requires base >= 2
    ensures v > 0 ==> v / base < v
  {
    DivMod(v, base);
    if v > 0 && v / base >= v {
      Times(v, v / base, 2, base);
    }
  }

  /** The shortest digits of a value. */
  function Shortest(v: nat, base: nat): (s: seq<nat>)
    requires base >= 2
  {
    DivMod(v, base);
    Smaller(v, base);
    if v == 0 then [] else Shortest(v / base, base) + [v % base]
  }

  lemma {:induction false} ShortestIs(s: seq<nat>, base: nat)
    requires base >= 2 && AllBelow(s, base) && (s != [] ==> s[0] > 0)
    ensures Shortest(Value(s, base), base) == s
  {
    if s != [] {
      var n := |s| - 1;
      ShortestIs(s[..n], base);
      var p := Value(s[..n], base);
      Division(p, s[n], base);
      ValueFront(s, base);
      PowPositive(base, n);
      Times(1, s[0], 1, Pow(base, n));
      assert s == s[..n] + [s[n]];
    }
  }

  lemma Division(p: nat, d: nat, base: nat)
    requires d < base
    ensures (p * base + d) / base == p && (p * base + d) % base == d
  {
    var v := p * base + d;
    DivMod(v, base);
    DivideOut(p, d, v / base, v % base, base);
  }

  lemma {:induction false} ShortestDigits(v: nat, base: nat)
    requires base >= 2
    ensures var s := Shortest(v, base); AllBelow(s, base) && (s != [] ==> s[0] > 0) && Value(s, base) == v
  {
    if v > 0 {
      DivMod(v, base);
      Smaller(v, base);
      ShortestDigits(v / base, base);
      AppendDigit(Shortest(v / base, base), v % base, base);
      hide Value;
    }
  }

  /** A value as digits of a fixed width, zeros in front. */
  function Padded(v: nat, base: nat, width: nat): (s: seq<nat>)
    requires base > 0
    decreases width
  {
    DivMod(v, base);
    if width == 0 then [] else Padded(v / base, base, width - 1) + [v % base]
  }

  lemma {:induction false} PaddedDigits(v: nat, base: nat, width: nat)
    requires base > 0 && v < Pow(base, width)
    ensures var s := Padded(v, base, width); |s| == width && AllBelow(s, base) && Value(s, base) == v
    decreases width
  {
    if width > 0 {
      DivMod(v, base);
      if v / base >= Pow(base, width - 1) {
        Times(Pow(base, width - 1), v / base, base, base);
      }
      PaddedDigits(v / base, base, width - 1);
      AppendDigit(Padded(v / base, base, width - 1), v % base, base);
      hide Value;
    }
  }

  lemma PaddedIs(s: seq<nat>, base: nat)
    requires base > 0 && AllBelow(s, base)
    ensures Padded(Value(s, base), base, |s|) == s
  {
    ValueBound(s, base);
    PaddedDigits(Value(s, base), base, |s|);
    ValueInjective(Padded(Value(s, base), base, |s|), s, base);
  }
}
