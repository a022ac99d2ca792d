/** Powers of two, for shift counts and logarithmic bounds. */
module Powers {
  function Pow2(e: nat): (r: nat)
    ensures r >= 1
  {
    if e == 0 then 1 else 2 * Pow2(e - 1)
  }
}
