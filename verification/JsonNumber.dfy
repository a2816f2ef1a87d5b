/** Numbers: what the lexer takes for one is what RFC 8259 section 6 calls one. */
module JsonNumber {
  import opened Bytes
  import opened Optional
  import opened JsonLex

  const CFG: Config := Config(false, true)

  /** Where the automaton stands after reading text, if it reads all of it. */
  function Through(cfg: Config, m: Mode, text: seq<byte>, k: nat): Option<Mode>
    requires k <= |text|
    decreases |text| - k
  {
    if k == |text| then Some(m)
    else
      match Step(cfg, m, text[k])
      case To(next) => Through(cfg, next, text, k + 1)
      case _ => None
  }

  /** A number may end here. */
  predicate Ends(end: Option<Mode>) {
    end.Some? && (end.value.Zero? || end.value.Digits? || end.value.Fraction? || end.value.ExpDigits?)
  }

  /** The automaton reads the text to its end as one number. */
  predicate ValidNumber(text: seq<byte>) { Ends(Through(CFG, Ground, text, 0)) }

  predicate InNumber(m: Mode) {
    m.Minus? || m.Zero? || m.Digits? || m.Point? || m.Fraction? || m.ExpMark? || m.ExpSign? || m.ExpDigits?
  }

  /** No way leads from the other tokens into a number. */
  lemma {:induction false} StaysOut(m: Mode, text: seq<byte>, k: nat)
    requires k <= |text| && !InNumber(m) && !m.Ground?
    ensures var end := Through(CFG, m, text, k); end.Some? ==> !InNumber(end.value) && !end.value.Ground?
    decreases |text| - k
  {
    if k < |text| && Step(CFG, m, text[k]).To? {
      StaysOut(Step(CFG, m, text[k]).mode, text, k + 1);
    }
  }

  lemma NumberStarts(text: seq<byte>)
    requires ValidNumber(text)
    ensures text != [] && (text[0] == MINUS || IsDigit(text[0]))
  {
    if text != [] && !(text[0] == MINUS || IsDigit(text[0])) {
      assert Step(CFG, Ground, text[0]).To?;
      StaysOut(Step(CFG, Ground, text[0]).mode, text, 1);
    }
  }

  // ---------------------------------------------------------------- the grammar

  predicate DigitsIn(text: seq<byte>, i: nat, j: nat)
    requires j <= |text|
  {
    forall q :: i <= q < j ==> 0x30 <= text[q] <= 0x39
  }

  /** A zero alone, or digits that start with another. */
  predicate IntAt(text: seq<byte>, i: nat, j: nat)
    requires j <= |text|
  {
    i < j && DigitsIn(text, i, j) && (text[i] == 0x30 ==> j == i + 1)
  }

  /** Nothing, or a point and digits. */
  predicate FracAt(text: seq<byte>, j: nat, k: nat)
    requires k <= |text|
  {
    j == k || (j + 1 < k && text[j] == 0x2E && DigitsIn(text, j + 1, k))
  }

  /** Nothing, or an e, perhaps a sign, and digits, up to the end. */
  predicate ExpAt(text: seq<byte>, k: nat)
    requires k <= |text|
  {
    k == |text| ||
    ((text[k] == 0x65 || text[k] == 0x45) &&
     var d := if k + 1 < |text| && (text[k + 1] == 0x2B || text[k + 1] == 0x2D) then k + 2 else k + 1;
     d < |text| && DigitsIn(text, d, |text|))
  }

  predicate Parts(text: seq<byte>, i: nat, j: nat, k: nat) {
    && i <= j <= k <= |text| && (i == 0 || (i == 1 && text[0] == 0x2D))
    && IntAt(text, i, j) && FracAt(text, j, k) && ExpAt(text, k)
  }

  /** number = [ minus ] int [ frac ] [ exp ] */
  ghost predicate IsNumber(text: seq<byte>) { exists i, j, k :: Parts(text, i, j, k) }

  // ---------------------------------------------------------------- they agree

  function DigitsEnd(text: seq<byte>, k: nat): (n: nat)
    requires k <= |text|
    ensures k <= n <= |text| && DigitsIn(text, k, n) && (n < |text| ==> !IsDigit(text[n]))
    decreases |text| - k
  {
    if k < |text| && IsDigit(text[k]) then DigitsEnd(text, k + 1) else k
  }

  lemma {:induction false} RunDigits(m: Mode, text: seq<byte>, a: nat, b: nat)
    requires a <= b <= |text| && DigitsIn(text, a, b) && (m.Digits? || m.Fraction? || m.ExpDigits?)
    ensures Through(CFG, m, text, a) == Through(CFG, m, text, b)
    decreases b - a
  {
    if a < b {
      assert IsDigit(text[a]);
      RunDigits(m, text, a + 1, b);
    }
  }

  lemma ExpDigitsEnd(text: seq<byte>, d: nat)
    requires d <= |text|
    ensures Ends(Through(CFG, ExpDigits, text, d)) <==> DigitsIn(text, d, |text|)
  {
    var n := DigitsEnd(text, d);
    RunDigits(ExpDigits, text, d, n);
  }

  /** Behind the last digit of a fraction. */
  lemma FractionEnds(text: seq<byte>, k: nat)
    requires k <= |text| && (k < |text| ==> !IsDigit(text[k]))
    ensures Ends(Through(CFG, Fraction, text, k)) <==> ExpAt(text, k)
  {
    if k < |text| && IsExponentMark(text[k]) {
      assert Through(CFG, Fraction, text, k) == Through(CFG, ExpMark, text, k + 1);
      var d := if k + 1 < |text| && (text[k + 1] == PLUS || text[k + 1] == MINUS) then k + 2 else k + 1;
      var m := if d == k + 2 then ExpSign else ExpMark;
      assert Through(CFG, ExpMark, text, k + 1) == Through(CFG, m, text, d);
      if d < |text| && IsDigit(text[d]) {
        assert Through(CFG, m, text, d) == Through(CFG, ExpDigits, text, d + 1);
        ExpDigitsEnd(text, d + 1);
      }
    }
  }

  /** Behind the last digit of the integer. */
  lemma IntegerEnds(m: Mode, text: seq<byte>, j: nat)
    requires j <= |text| && (m.Zero? || (m.Digits? && (j < |text| ==> !IsDigit(text[j]))))
    ensures Ends(Through(CFG, m, text, j)) <==> exists k :: j <= k <= |text| && FracAt(text, j, k) && ExpAt(text, k)
  {
    if j < |text| && text[j] == DOT {
      if j + 1 < |text| && IsDigit(text[j + 1]) {
        var e := DigitsEnd(text, j + 2);
        RunDigits(Fraction, text, j + 2, e);
        FractionEnds(text, e);
        if Ends(Through(CFG, m, text, j)) {
          assert FracAt(text, j, e);
        }
        forall k | j <= k <= |text| && FracAt(text, j, k) && ExpAt(text, k) ensures k == e {
        }
      }
    } else {
      IntegerEndsPlainly(m, text, j);
      assert FracAt(text, j, j);
    }
  }

  lemma IntegerEndsPlainly(m: Mode, text: seq<byte>, j: nat)
    requires j <= |text| && (m.Zero? || (m.Digits? && (j < |text| ==> !IsDigit(text[j]))))
    requires (j < |text| ==> text[j] != DOT)
    ensures Ends(Through(CFG, m, text, j)) <==> ExpAt(text, j)
  {
    if j < |text| && !IsDigit(text[j]) {
      FractionEnds(text, j);
    }
  }

  /** From the first digit on. */
  lemma IntegerFrom(text: seq<byte>, i: nat)
    requires i < |text| && IsDigit(text[i])
    ensures Ends(Through(CFG, if text[i] == ZERO then Zero else Digits, text, i + 1)) <==>
            exists j, k :: i <= j <= k <= |text| && IntAt(text, i, j) && FracAt(text, j, k) && ExpAt(text, k)
  {
    hide Through, Ends;
    if text[i] == ZERO {
      IntegerEnds(Zero, text, i + 1);
      assert IntAt(text, i, i + 1);
    } else {
      var e := DigitsEnd(text, i + 1);
      RunDigits(Digits, text, i + 1, e);
      IntegerEnds(Digits, text, e);
      assert IntAt(text, i, e);
      forall j, k | i <= j <= k <= |text| && IntAt(text, i, j) && FracAt(text, j, k) && ExpAt(text, k) ensures j == e {
      }
    }
  }

  /** The automaton takes for a number exactly what the grammar calls one. */
  lemma NumbersAreNumbers(text: seq<byte>)
    ensures ValidNumber(text) <==> IsNumber(text)
  {
    var i := if text != [] && text[0] == MINUS then 1 else 0;
    if i < |text| && IsDigit(text[i]) {
      IntegerFrom(text, i);
      OnlyThisSign(text, i);
    } else {
      NotANumber(text, i);
    }
  }

  lemma OnlyThisSign(text: seq<byte>, i: nat)
    requires i < |text| && IsDigit(text[i]) && i == if text[0] == MINUS then 1 else 0
    ensures Through(CFG, Ground, text, 0) == Through(CFG, if text[i] == ZERO then Zero else Digits, text, i + 1)
    ensures IsNumber(text) <==>
              exists j, k :: i <= j <= k <= |text| && IntAt(text, i, j) && FracAt(text, j, k) && ExpAt(text, k)
  {
    if j, k :| i <= j <= k <= |text| && IntAt(text, i, j) && FracAt(text, j, k) && ExpAt(text, k) {
      assert Parts(text, i, j, k);
    }
    if i', j, k :| Parts(text, i', j, k) {
      assert i' == i;
    }
  }

  lemma NotANumber(text: seq<byte>, i: nat)
    requires i == (if text != [] && text[0] == MINUS then 1 else 0) && (i < |text| ==> !IsDigit(text[i]))
    ensures !ValidNumber(text) && !IsNumber(text)
  {
    if text != [] && text[0] == MINUS {
      assert Through(CFG, Ground, text, 0) == Through(CFG, Minus, text, 1);
    } else if ValidNumber(text) {
      NumberStarts(text);
    }
  }
}
