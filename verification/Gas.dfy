/** Gas meters: a limited meter and an unlimited one, both 64-bit counters. */
module Gas {
  import opened Wrappers

  const MAX_UINT64: nat := 0xFFFF_FFFF_FFFF_FFFF

  /** What a panic carries. */
  datatype PanicValue = OutOfGas | GasOverflow | OtherPanic(code: nat)

  datatype Meter = Limited(limit: nat, consumed: nat) | Unlimited(consumed: nat)
  {
    function Limit(): nat {
      if Limited? then limit else MAX_UINT64
    }

    /** Gas used, capped at the limit. */
    function ConsumedToLimit(): nat {
      if Limited? && consumed > limit then limit else consumed
    }

    predicate IsOutOfGas() {
      Limited? && consumed >= limit
    }

    function WithConsumed(reading: nat): Meter {
      this.(consumed := reading)
    }

    /** The reading after adding `amount`; the addition happens before any panic. */
    function After(amount: nat): Meter {
      if MAX_UINT64 < consumed + amount then
        WithConsumed(if Limited? then MAX_UINT64 else 0)
      else
        WithConsumed(consumed + amount)
    }

    /** The panic raised by adding `amount`, if any. */
    function Raises(amount: nat): Option<PanicValue> {
      if MAX_UINT64 < consumed + amount then Some(GasOverflow)
      else if Limited? && limit < consumed + amount then Some(OutOfGas)
      else None
    }
  }

  /** A limited meter whose charge raises is out of gas from then on. */
  lemma LoudChargeExhausts(m: Meter, amount: nat)
    requires m.Limited? && m.limit <= MAX_UINT64
    requires m.Raises(amount).Some?
    ensures m.After(amount).IsOutOfGas()
  {
  }
}
