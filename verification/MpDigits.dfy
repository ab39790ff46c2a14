/** Little-endian digit sequences in base 2^DIGIT_BIT and the number they denote. */
module MpDigits {
  import opened Arith

  type DigitWidth = n: nat | n == 28 || n == 60 witness 60

  /** Bits per digit of the build: 28 on 32-bit targets, 60 on x86-64. Left open
      so that every result holds for both. */
  const DIGIT_BIT: DigitWidth

  /** The base of the digits: MP_MASK + 1. */
  const BASE: nat := Pow2(DIGIT_BIT)

  /** Values an mp_digit variable can hold: four more bits than a digit. */
  const DIGIT_RANGE: nat := 16 * BASE

  /** Products an mp_word can add up: 2 * DIGIT_BIT + 8 bits, so 256 of them. */
  const WORD_TERMS: nat := 256

  /** MP_WARRAY */
  const MP_WARRAY: nat := 512

  lemma BaseIsLarge()
    ensures BASE >= 0x1000_0000 && BASE == 4 * Pow2(DIGIT_BIT - 2)
  {
    Pow2Large(DIGIT_BIT);
    Pow2Quarter(DIGIT_BIT);
  }

  // ------------------------------------------------------------------ powers

  /** BASE^k */
  function Power(k: nat): (p: nat)
    ensures p >= 1
  {
    if k == 0 then 1 else
    MulPositive(BASE, Power(k - 1));
    BASE * Power(k - 1)
  }

  lemma {:induction false} PowerAdd(j: nat, k: nat)
    ensures Power(j + k) == Power(j) * Power(k)
  {
    if j > 0 {
      PowerAdd(j - 1, k);
      assert Power(j + k) == BASE * Power(j + k - 1);
      MulAssoc(BASE, Power(j - 1), Power(k));
    }
  }

  lemma {:induction false} PowerMonotone(j: nat, k: nat)
    requires j <= k
    ensures Power(j) <= Power(k)
  {
    if j < k {
      PowerMonotone(j, k - 1);
      MulMonotone(1, BASE, Power(k - 1));
    }
  }

  lemma {:induction false} PowerIsPow2(k: nat)
    ensures Power(k) == Pow2(k * DIGIT_BIT)
  {
    if k > 0 {
      PowerIsPow2(k - 1);
      MulSum(k, k - 1, 1, DIGIT_BIT);
      MulNonneg(k - 1, DIGIT_BIT);
      var n: nat := (k - 1) * DIGIT_BIT;
      Pow2Add(DIGIT_BIT, n);
    }
  }

  // ------------------------------------------------------------------ values

  /** The number a digit sequence denotes, least significant digit first. */
  function Value(s: seq<nat>): (v: nat) {
    if |s| == 0 then 0
    else
      var n := |s| - 1;
      MulNonneg(s[n], Power(n));
      Value(s[..n]) + s[n] * Power(n)
  }

  ghost predicate Digits(s: seq<nat>) {
    forall i :: 0 <= i < |s| ==> s[i] < BASE
  }

  lemma {:induction false} ValueAppend(s: seq<nat>, d: nat)
    ensures Value(s + [d]) == Value(s) + d * Power(|s|)
  {
    assert (s + [d])[..|s|] == s;
  }

  /** Extending a prefix by one digit. */
  lemma {:induction false} ValueStep(s: seq<nat>, i: nat)
    requires i < |s|
    ensures Value(s[..i + 1]) == Value(s[..i]) + s[i] * Power(i)
  {
    assert s[..i + 1] == s[..i] + [s[i]];
    ValueAppend(s[..i], s[i]);
  }

  lemma {:induction false} ValueConcat(s: seq<nat>, t: seq<nat>)
    ensures Value(s + t) == Value(s) + Value(t) * Power(|s|)
  {
    if |t| == 0 {
      assert s + t == s;
    } else {
      var n := |t| - 1;
      ValueConcat(s, t[..n]);
      assert s + t == (s + t[..n]) + [t[n]];
      ValueAppend(s + t[..n], t[n]);
      PowerAdd(|s|, n);
      ShiftTerm(Power(|s|), Value(t[..n]), t[n], Power(n));
    }
  }

  lemma ShiftTerm(p: int, v: int, d: int, q: int)
    ensures v * p + d * (p * q) == (v + d * q) * p
  {
  }

  /** A sequence splits into its low and high digits. */
  lemma {:induction false} ValueSplit(s: seq<nat>, k: nat)
    requires k <= |s|
    ensures Value(s) == Value(s[..k]) + Value(s[k..]) * Power(k)
  {
    assert s == s[..k] + s[k..];
    ValueConcat(s[..k], s[k..]);
  }

  /** Replacing one digit. */
  lemma {:induction false} ValueUpdate(s: seq<nat>, k: nat, d: nat)
    requires k < |s|
    ensures Value(s[k := d]) + s[k] * Power(k) == Value(s) + d * Power(k)
  {
    var s' := s[k := d];
    ValueSplit(s, k + 1);
    ValueSplit(s', k + 1);
    assert s'[k + 1..] == s[k + 1..];
    ValueStep(s, k);
    ValueStep(s', k);
    assert s'[..k] == s[..k];
  }

  /** Filling in a zero digit. */
  lemma {:induction false} ValueFill(s: seq<nat>, k: nat, d: nat)
    requires k < |s| && s[k] == 0
    ensures Value(s[k := d]) == Value(s) + d * Power(k)
  {
    ValueUpdate(s, k, d);
  }

  lemma {:induction false} ValueBound(s: seq<nat>)
    requires Digits(s)
    ensures Value(s) < Power(|s|)
  {
    if |s| > 0 {
      var n := |s| - 1;
      ValueBound(s[..n]);
      MulMonotone(s[n] + 1, BASE, Power(n));
      MulDistrib(s[n], 1, Power(n));
    }
  }

  /** A number with a non-zero top digit needs all its digits. */
  lemma {:induction false} ValueTop(s: seq<nat>)
    requires |s| > 0 && s[|s| - 1] != 0
    ensures Power(|s| - 1) <= Value(s)
  {
    MulMonotone(1, s[|s| - 1], Power(|s| - 1));
  }

  lemma {:induction false} ValueZeros(s: seq<nat>)
    requires forall i :: 0 <= i < |s| ==> s[i] == 0
    ensures Value(s) == 0
  {
    if |s| > 0 { ValueZeros(s[..|s| - 1]); }
  }

  /** Zero digits at the top do not matter. */
  lemma {:induction false} ValueDropZeros(s: seq<nat>, k: nat)
    requires k <= |s| && forall i :: k <= i < |s| ==> s[i] == 0
    ensures Value(s) == Value(s[..k])
  {
    ValueSplit(s, k);
    ValueZeros(s[k..]);
  }

  lemma {:induction false} ValueIsZero(s: seq<nat>)
    requires Value(s) == 0
    ensures forall i :: 0 <= i < |s| ==> s[i] == 0
  {
    if |s| > 0 {
      var n := |s| - 1;
      assert s[n] == 0 by {
        if s[n] > 0 { MulMonotone(1, s[n], Power(n)); }
      }
      ValueIsZero(s[..n]);
      assert forall i :: 0 <= i < n ==> s[i] == s[..n][i];
    }
  }

  /** Two numbers compare as their top differing digits do. */
  lemma {:induction false} ValueCompareTop(s: seq<nat>, t: seq<nat>)
    requires |s| == |t| && |s| > 0 && Digits(s) && s[|s| - 1] < t[|s| - 1]
    ensures Value(s) < Value(t)
  {
    var n := |s| - 1;
    ValueBound(s[..n]);
    MulMonotone(s[n] + 1, t[n], Power(n));
    MulDistrib(s[n], 1, Power(n));
  }

  /** The low digit. */
  lemma {:induction false} ValueLow(s: seq<nat>)
    requires |s| > 0
    ensures Value(s) == s[0] + Value(s[1..]) * BASE
  {
    ValueSplit(s, 1);
    assert Value(s[..1]) == s[0] by {
      assert s[..1][..0] == [];
    }
    assert Power(1) == BASE;
  }
}
