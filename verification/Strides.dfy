/** Arithmetic of registers that are multiples of the register stride. */
module Strides {
  /** Registers are 32-bit numbers. */
  const LIMIT: int := 0x1_0000_0000

  /** 1 if b holds, to be counted with. */
  ghost function One(b: bool): (n: int)
    ensures 0 <= n <= 1
  {
    if b then 1 else 0
  }

  lemma DivMod(x: int, a: int)
    requires 1 <= a
    ensures x == x / a * a + x % a && 0 <= x % a < a
  {
  }

  lemma MulMonotone(p: int, q: int, a: int)
    requires p <= q && 0 <= a
    ensures p * a <= q * a
  {
  }

  lemma MulStrict(p: int, q: int, a: int)
    requires p < q && 1 <= a
    ensures p * a < q * a
  {
    MulMonotone(p + 1, q, a);
  }

  lemma DivMonotone(x: int, y: int, a: int)
    requires 1 <= a && x <= y
    ensures x / a <= y / a
  {
    DivMod(x, a);
    DivMod(y, a);
    if y / a < x / a { MulMonotone(y / a + 1, x / a, a); }
  }

  lemma DivExact(q: int, r: int, a: int)
    requires 1 <= a && 0 <= r < a
    ensures (q * a + r) / a == q && (q * a + r) % a == r
  {
    var x := q * a + r;
    DivMod(x, a);
    if x / a < q { MulMonotone(x / a + 1, q, a); }
    if x / a > q { MulMonotone(q + 1, x / a, a); }
  }

  /** top_reg of a block: base + (len - 1) * stride. */
  function TopReg(base: int, len: int, stride: int): int {
    base + (len - 1) * stride
  }

  /** Comparing aligned registers with the ends of a block is comparing register indices. */
  lemma Aligned(stride: int, reg: int, base: int, len: int)
    requires 1 <= stride && reg % stride == 0 && base % stride == 0 && 1 <= len
    ensures reg < base <==> reg / stride < base / stride
    ensures reg > TopReg(base, len, stride) <==> reg / stride > base / stride + len - 1
    ensures reg >= base ==> (reg - base) / stride == reg / stride - base / stride
    ensures TopReg(base, len, stride) / stride == base / stride + len - 1 && TopReg(base, len, stride) % stride == 0
  {
    var u, v := reg / stride, base / stride;
    DivMod(reg, stride);
    DivMod(base, stride);
    assert TopReg(base, len, stride) == (v + len - 1) * stride;
    DivExact(v + len - 1, 0, stride);
    Compare(u, v, stride);
    Compare(v + len - 1, u, stride);
    assert reg - base == (u - v) * stride + 0;
    DivExact(u - v, 0, stride);
  }

  lemma Compare(u: int, v: int, a: int)
    requires 1 <= a
    ensures u * a < v * a <==> u < v
  {
    if u < v { MulStrict(u, v, a); } else { MulMonotone(v, u, a); }
  }
}
