/** System.Random as the obfuscators use it: a seed picks a sequence of draws, and the i-th
    call `Next(bound)` yields a number below `bound` (0 when `bound` is 0). Which number a
    seed yields is not modelled; only the bounds, the order of the calls and the range of
    their results are. */
module Random {

  /** The draws of one seeded generator: `draws(i, bound)` answers the i-th call. */
  type Draws = f: (nat, nat) -> nat | forall i: nat, bound: nat | bound > 0 :: f(i, bound) < bound
    witness (i: nat, bound: nat) => 0

  /** A generator: its draws, and the bounds requested so far, in call order. */
  datatype Rng = Rng(draws: Draws, requested: seq<nat>)

  /** `new Random(seed)`: a fresh generator. */
  function Seeded(seeds: int -> Draws, seed: int): (g: Rng)
    ensures g.requested == []
  {
    Rng(seeds(seed), [])
  }

  /** `rng.Next(bound)` or `rng.Next(0, bound)`: a number in [0, bound), 0 for an empty range,
      and one more request on the generator. */
  function Next(g: Rng, bound: nat): (r: (nat, Rng))
    ensures bound > 0 ==> r.0 < bound
    ensures bound == 0 ==> r.0 == 0
    ensures r.1.draws == g.draws && r.1.requested == g.requested + [bound]
  {
    (if bound == 0 then 0 else g.draws(|g.requested|, bound), Rng(g.draws, g.requested + [bound]))
  }
}
