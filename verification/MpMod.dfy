/** mp_mod, mp_mulmod and integer powers. */
module MpMod {
  import opened Arith
  import opened Modular
  import opened MpDigits
  import opened MpInts
  import opened MpDiv
  import opened MpToomParts
  import opened MpMul

  /** g^e */
  function Exp(g: int, e: nat): int {
    if e == 0 then 1 else g * Exp(g, e - 1)
  }

  lemma {:induction false} ExpAdd(g: int, d: nat, e: nat)
    ensures Exp(g, d + e) == Exp(g, d) * Exp(g, e)
  {
    if d > 0 {
      ExpAdd(g, d - 1, e);
      assert Exp(g, d + e) == g * Exp(g, d + e - 1);
      MulAssoc(g, Exp(g, d - 1), Exp(g, e));
    }
  }

  lemma {:induction false} CongExp(x: int, y: int, e: nat, m: int)
    requires 0 < m && Cong(x, y, m)
    ensures Cong(Exp(x, e), Exp(y, e), m)
  {
    if e > 0 {
      CongExp(x, y, e - 1, m);
      CongMul(x, y, Exp(x, e - 1), Exp(y, e - 1), m);
    }
  }

  /** What mp_mod computes: for b > 0 the residue in [0, b). For b < 0 it is the one
      in [b, 0), because a zero remainder counts as positive. */
  lemma ModOfRem(a: int, b: int, c: int)
    requires b != 0 && c == if Rem(a, b) < 0 <==> b < 0 then Rem(a, b) else b + Rem(a, b)
    ensures b > 0 ==> c == a % b
    ensures b < 0 ==> b <= c < 0 && Cong(c, a, -b)
  {
    QuotRem(a, b);
    var q, r := Quot(a, b), Rem(a, b);
    if b > 0 {
      if r < 0 {
        MulDistrib(q - 1, 1, b);
        DivModUnique(a, b, q - 1, r + b);
      } else {
        DivModUnique(a, b, q, r);
      }
    } else {
      assert q * b == (-q) * -b;
      CongFrom(a, r, -q, -b);
      CongFrom(b + r, r, -1, -b);
    }
  }

  /** mp_mod. It fails exactly for b = 0. */
  method Mod(a: MpInt, b: MpInt, c: MpInt) returns (ok: bool)
    requires a.Trim() && b.Trim() && c.Valid()
    modifies c
    ensures ok == (old(b.V()) != 0)
    ensures ok ==> c.Trim()
    ensures ok && old(b.V()) > 0 ==> c.V() == old(a.V()) % old(b.V())
    ensures ok && old(b.V()) < 0 ==> old(b.V()) <= c.V() < 0 && Cong(c.V(), old(a.V()), -old(b.V()))
    ensures !ok ==> c.Valid() && c.V() == old(c.V())
    ensures old(c.ClearAbove()) ==> c.ClearAbove()
  {
    hide Value, Pow2, Rem, Quot, Cong;
    ghost var x, y := a.V(), b.V();
    var t := new MpInt.Init();
    ok := Div(a, b, null, t);
    if !ok { return; }
    TrimmedNegative(t);
    TrimmedNegative(b);
    ModOfRem(x, y, if t.sign != b.sign then y + t.V() else t.V());
    if t.sign != b.sign {
      Plus(b, t, c);
    } else {
      Exch(t, c);
    }
  }

  /** mp_mulmod: right whenever mp_mul is, for a modulus of either sign. */
  method MulMod(a: MpInt, b: MpInt, c: MpInt, d: MpInt) returns (ok: bool)
    requires a.Trim() && b.Trim() && c.Trim() && d.Valid()
    modifies d
    ensures ok == (old(c.V()) != 0)
    ensures ok ==> d.Trim()
    ensures ok && Agrees(old(a.V()), old(b.V())) && old(c.V()) > 0 ==>
      d.V() == old(a.V()) * old(b.V()) % old(c.V())
    ensures ok && Agrees(old(a.V()), old(b.V())) && old(c.V()) < 0 ==>
      old(c.V()) <= d.V() < 0 && Cong(d.V(), old(a.V()) * old(b.V()), -old(c.V()))
    ensures !ok ==> d.Valid() && d.V() == old(d.V())
    ensures old(d.ClearAbove()) ==> d.ClearAbove()
  {
    hide Value, Cong, Agrees;
    var t := new MpInt.Init();
    Mul(a, b, t);
    ok := Mod(t, c, d);
  }
}
