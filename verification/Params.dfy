/** The parameter set (include/params.h), kept symbolic: every theorem of the project holds
    for an arbitrary PAR, hence for each set the repository ships. */
module Params {

  /** 2^e, the value of the C expression 1 << e. */
  function Pow2(e: nat): (r: nat)
    ensures r >= 1
  {
    if e == 0 then 1 else 2 * Pow2(e - 1)
  }

  ghost predicate IsPrime(q: int) {
    q > 1 && forall d :: 1 < d < q ==> q % d != 0
  }

  /** dim stands for MEDS_m, MEDS_n and MEDS_k, which coincide in every shipped set. */
  datatype ParamSet = ParamSet(
    prime: nat, bits: nat, dim: nat,
    keys: nat, rounds: nat, weight: nat, height: nat, tBytes: nat, sBits: nat,
    digestBytes: nat, pubSeedBytes: nat, secSeedBytes: nat, seedBytes: nat, saltBytes: nat)

  ghost predicate ValidParams(q: ParamSet) {
    && IsPrime(q.prime) && q.prime <= Pow2(q.bits) && 8 <= q.bits <= 16
    && q.dim >= 2
    && q.keys >= 2 && q.keys <= 256
    && 1 <= q.weight <= q.rounds <= Pow2(q.height) && 1 <= q.height <= 29
    && q.tBytes <= 3 && q.sBits <= 8
  }

  type ParamType = q: ParamSet | ValidParams(q)
    witness ParamSet(2, 8, 2, 2, 1, 1, 1, 1, 1, 1, 1, 1, 1, 1)

  const PAR: ParamType

  const P: nat := PAR.prime
  const BITS: nat := PAR.bits
  const N: nat := PAR.dim
}
