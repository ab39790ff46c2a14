/** How many digits a number needs. */
module MpSize {
  import opened Arith
  import opened MpDigits
  import opened MpInts

  /** The number of digits of v; zero has none. */
  function NumDigits(v: nat): (n: nat)
    decreases v
  {
    if v == 0 then 0 else
    BaseIsLarge();
    QuotientMonotone(0, v, BASE);
    DivBounds(v, BASE);
    MulMonotone(2, BASE, v / BASE);
    1 + NumDigits(v / BASE)
  }

  /** It is the least power of the base above v. */
  lemma {:induction false} NumDigitsBelow(v: nat, k: nat)
    ensures v < Power(k) <==> NumDigits(v) <= k
    decreases k
  {
    if v > 0 && k > 0 {
      BaseIsLarge();
      QuotientMonotone(0, v, BASE);
      NumDigitsBelow(v / BASE, k - 1);
      DivBounds(v, BASE);
      var p := Power(k - 1);
      if v / BASE < p {
        MulMonotone(v / BASE + 1, p, BASE);
        MulDistrib(v / BASE, 1, BASE);
      } else {
        MulMonotone(p, v / BASE, BASE);
      }
    }
  }

  /** A trimmed number uses exactly that many. */
  lemma {:induction false} UsedIsNumDigits(a: MpInt)
    requires a.Trim()
    ensures a.used == NumDigits(a.Mag())
  {
    ValueBound(a.dp[..a.used]);
    NumDigitsBelow(a.Mag(), a.used);
    if a.used > 0 {
      ValueTop(a.dp[..a.used]);
      NumDigitsBelow(a.Mag(), a.used - 1);
    }
  }
}
