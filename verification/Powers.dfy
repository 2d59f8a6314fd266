/** Powers of two, as doubling steps reach them, and scaling. */
module Powers {

  function Pow2(k: nat): (r: nat)
    ensures r > k
  {
    if k == 0 then 1 else 2 * Pow2(k - 1)
  }

  lemma {:induction false} Pow2Grows(k: nat, m: nat)
    requires k <= m
    ensures 1 <= Pow2(k) <= Pow2(m)
  {
    if k < m {
      Pow2Grows(k, m - 1);
    } else if k > 0 {
      Pow2Grows(k - 1, m - 1);
    }
  }

  lemma Scaled(x: int, y: int, b: int)
    requires b > 0
    ensures x * b <= y * b <==> x <= y
    ensures x * b < y * b <==> x < y
  {
    if x < y { assert (y - x) * b > 0; }
    if y < x { assert (x - y) * b > 0; }
  }
}
