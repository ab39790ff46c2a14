/** The columns of a product of two digit sequences: column k collects the digit
    products whose indices add up to k. */
module MpColumns {
  import opened Arith
  import opened Modular
  import opened MpDigits
  import opened MpAddSub

  /** The first m products of column k. */
  function Column(x: seq<nat>, y: seq<nat>, k: nat, m: nat): (s: nat)
    requires m <= k + 1
  {
    if m == 0 then 0 else
    MulNonneg(DigitAt(x, m - 1), DigitAt(y, k - (m - 1)));
    Column(x, y, k, m - 1) + DigitAt(x, m - 1) * DigitAt(y, k - (m - 1))
  }

  /** The weighted sum of the columns below n. */
  function Columns(x: seq<nat>, y: seq<nat>, n: nat): (s: nat) {
    if n == 0 then 0 else
    MulNonneg(Column(x, y, n - 1, n), Power(n - 1));
    Columns(x, y, n - 1) + Column(x, y, n - 1, n) * Power(n - 1)
  }

  /** Products beyond either operand vanish. */
  lemma {:induction false} ColumnZero(x: seq<nat>, y: seq<nat>, k: nat, m: nat)
    requires m <= k + 1 && m + |y| <= k + 1
    ensures Column(x, y, k, m) == 0
  {
    if m > 0 { ColumnZero(x, y, k, m - 1); }
  }

  lemma {:induction false} ColumnFull(x: seq<nat>, y: seq<nat>, k: nat, m: nat)
    requires m <= k + 1 && |x| <= m
    ensures Column(x, y, k, k + 1) == Column(x, y, k, m)
    decreases k - m
  {
    if m <= k {
      ColumnFull(x, y, k, m + 1);
    }
  }

  /** One more digit on the left operand. */
  lemma {:induction false} ColumnAppend(x: seq<nat>, d: nat, y: seq<nat>, k: nat, m: nat)
    requires m <= k + 1
    ensures Column(x + [d], y, k, m) == Column(x, y, k, m) + if |x| < m then d * DigitAt(y, k - |x|) else 0
  {
    if m > 0 { ColumnAppend(x, d, y, k, m - 1); }
  }

  lemma {:induction false} ColumnsAppend(x: seq<nat>, d: nat, y: seq<nat>, n: nat)
    ensures Columns(x + [d], y, n) == Columns(x, y, n) + d * (if n <= |x| then 0 else Low(y, n - |x|) * Power(|x|))
  {
    if n > 0 {
      ColumnsAppend(x, d, y, n - 1);
      var k := n - 1;
      ColumnAppend(x, d, y, k, n);
      var e := if |x| < n then d * DigitAt(y, k - |x|) else 0;
      MulDistrib(Column(x, y, k, n), e, Power(k));
      if |x| < n {
        AppendTerm(x, d, y, k);
      }
    }
  }

  lemma {:induction false} AppendTerm(x: seq<nat>, d: nat, y: seq<nat>, k: nat)
    requires |x| <= k
    ensures d * (Low(y, k - |x|) * Power(|x|)) + d * DigitAt(y, k - |x|) * Power(k)
      == d * (Low(y, k + 1 - |x|) * Power(|x|))
    ensures Low(y, 0) == 0
  {
    hide Power;
    var i, p := k - |x|, Power(|x|);
    LowStep(y, i);
    PowerAdd(i, |x|);
    MulDistrib(Low(y, i), DigitAt(y, i) * Power(i), p);
    MulAssoc(DigitAt(y, i), Power(i), p);
    MulAssoc(d, DigitAt(y, i), Power(k));
    assert y[..0] == [];
  }

  /** All columns together are the product. */
  lemma {:induction false} ColumnsAll(x: seq<nat>, y: seq<nat>, n: nat)
    requires |x| + |y| <= n
    ensures Columns(x, y, n) == Value(x) * Value(y)
  {
    hide Pow2;
    if |x| == 0 {
      ColumnsEmpty(x, y, n);
    } else {
      var l := |x| - 1;
      ColumnsAll(x[..l], y, n);
      assert x == x[..l] + [x[l]];
      ColumnsAppend(x[..l], x[l], y, n);
      LowAll(y, n - l);
      MulDistrib(Value(x[..l]), x[l] * Power(l), Value(y));
      MulAssoc(x[l], Power(l), Value(y));
    }
  }

  lemma {:induction false} ColumnsEmpty(x: seq<nat>, y: seq<nat>, n: nat)
    requires |x| == 0
    ensures Columns(x, y, n) == 0
  {
    if n > 0 {
      ColumnsEmpty(x, y, n - 1);
      ColumnFull(x, y, n - 1, 0);
    }
  }

  /** The columns below n determine the product modulo BASE^n. */
  lemma {:induction false} ColumnsCong(x: seq<nat>, y: seq<nat>, n: nat, l: nat)
    requires n <= l
    ensures Cong(Columns(x, y, l), Columns(x, y, n), Power(n))
    decreases l
  {
    if n < l {
      ColumnsCong(x, y, n, l - 1);
      var c := Column(x, y, l - 1, l);
      PowerAdd(l - 1 - n, n);
      MulAssoc(c, Power(l - 1 - n), Power(n));
      CongFrom(Columns(x, y, l), Columns(x, y, l - 1), c * Power(l - 1 - n), Power(n));
    }
  }
}
