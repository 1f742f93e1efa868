/**
 * The engine's global random generator, injected: the generator reads Random.value
 * from a fixed stream, so a run is reproducible from its stream.
 */
module Randomness {

  class RandomSource
  {
    /** values(i) is what the i-th read of Random.value returns. */
    const values: nat -> real
    /** How many values have been read so far. */
    var drawn: nat

    /** Random.value lies in [0, 1], both ends included. */
    ghost predicate Valid()
    {
      forall i: nat :: 0.0 <= values(i) <= 1.0
    }

    constructor (values: nat -> real)
      requires forall i: nat :: 0.0 <= values(i) <= 1.0
      ensures Valid() && this.values == values && drawn == 0
    {
      this.values := values;
      drawn := 0;
    }

    /** Random.value: the next value of the stream. */
    method Value() returns (v: real)
      requires Valid()
      modifies this`drawn
      ensures v == values(old(drawn)) && drawn == old(drawn) + 1
      ensures 0.0 <= v <= 1.0
    {
      v := values(drawn);
      drawn := drawn + 1;
    }
  }
}
