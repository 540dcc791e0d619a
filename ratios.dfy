/**
 * The compression ratio both compressors report: the size before over the
 * size after, and 1.0 when nothing is left to divide by.
 */
module Ratios {

  function Ratio(before: nat, after: nat): (r: real)
    ensures after == 0 ==> r == 1.0
    ensures after > 0 ==> r * after as real == before as real
    ensures after > 0 ==> (r >= 1.0 <==> after <= before)
    ensures after > 0 ==> (r == 1.0 <==> after == before)
  {
    if after == 0 then 1.0 else before as real / after as real
  }
}
