/** Reconstruction of a 64-bit receive time from the Wi-Fi driver's wrapping 32-bit timestamp. */
module RadioTimestamp {
  import opened Bytes

  const WRAP := 0x1_0000_0000
  const HALF_WRAP := 0x8000_0000
  const TWO_64 := 0x1_0000_0000_0000_0000
  const MICROSECONDS_TO_NANOSECONDS := 1000

  function Distance(a: int, b: int): nat { if a < b then b - a else a - b }

  /** A frame received at microsecond `t` while the monotonic clock reads `now` microseconds:
      the driver reports the low 32 bits of `t`. */
  ghost predicate Reports(t: nat, timestamp: uint32) { t % WRAP == timestamp }

  /** The instants that `now` can tell apart from every other instant with the same low 32 bits: closer than half
      a wrap, or exactly half a wrap away but within the same 2^32-microsecond epoch as the clock. */
  predicate Recoverable(now: nat, t: nat) {
    Distance(now, t) < HALF_WRAP || (Distance(now, t) == HALF_WRAP && t / WRAP == now / WRAP)
  }

  /** The 64-bit microsecond value the provider computes, unsigned wrap-around included. */
  function Recovered(now: nat, timestamp: uint32): uint64
    requires now <= TWO_64 / MICROSECONDS_TO_NANOSECONDS
  {
    var candidate := now / WRAP * WRAP + timestamp as int;
    if candidate - now > HALF_WRAP then (candidate - WRAP) % TWO_64
    else if now - candidate > HALF_WRAP then candidate + WRAP
    else candidate
  }

  method RecoverReceiveTimestampNanoseconds(nowNanoseconds: uint64, receiveTimestampMicroseconds: uint32)
    returns (nanoseconds: uint64)
    ensures nanoseconds ==
            Recovered(nowNanoseconds / MICROSECONDS_TO_NANOSECONDS, receiveTimestampMicroseconds)
            * MICROSECONDS_TO_NANOSECONDS % TWO_64
    ensures forall t: nat :: Reports(t, receiveTimestampMicroseconds) && t * MICROSECONDS_TO_NANOSECONDS < TWO_64 &&
                             Recoverable(nowNanoseconds / MICROSECONDS_TO_NANOSECONDS, t)
                             ==> nanoseconds == t * MICROSECONDS_TO_NANOSECONDS
  {
    var nowMicroseconds: int := nowNanoseconds / MICROSECONDS_TO_NANOSECONDS;
    var wrapBase: int := nowMicroseconds / WRAP * WRAP;
    var receiveMicroseconds: int := wrapBase + receiveTimestampMicroseconds;
    if receiveMicroseconds > nowMicroseconds && receiveMicroseconds - nowMicroseconds > HALF_WRAP {
      receiveMicroseconds := (receiveMicroseconds - WRAP) % TWO_64;
    } else if nowMicroseconds > receiveMicroseconds && nowMicroseconds - receiveMicroseconds > HALF_WRAP {
      receiveMicroseconds := receiveMicroseconds + WRAP;
    }
    nanoseconds := receiveMicroseconds * MICROSECONDS_TO_NANOSECONDS % TWO_64;
    forall t: nat | Reports(t, receiveTimestampMicroseconds) && t * MICROSECONDS_TO_NANOSECONDS < TWO_64 &&
                    Recoverable(nowMicroseconds, t)
      ensures nanoseconds == t * MICROSECONDS_TO_NANOSECONDS
    {
      RecoveredExactly(nowMicroseconds, t);
    }
  }

  /** Recovery is exact for the recoverable instants and for no others. */
  lemma RecoveredExactly(now: nat, t: nat)
    requires now <= TWO_64 / MICROSECONDS_TO_NANOSECONDS
    requires t < TWO_64 / 2
    ensures Recovered(now, t % WRAP) == t <==> Recoverable(now, t)
  {
    var epoch, low := now / WRAP, now % WRAP;
    var tEpoch, tLow := t / WRAP, t % WRAP;
    assert now == epoch * WRAP + low && t == tEpoch * WRAP + tLow;
    if tEpoch < epoch - 1 || tEpoch > epoch + 1 {
      assert Distance(now, t) > HALF_WRAP;
    }
  }

  lemma ReportedRecovered(now: nat, t: nat, timestamp: uint32)
    requires now <= TWO_64 / MICROSECONDS_TO_NANOSECONDS && t * MICROSECONDS_TO_NANOSECONDS < TWO_64
    requires Reports(t, timestamp) && Recoverable(now, t)
    ensures Recovered(now, timestamp) == t
  {
    RecoveredExactly(now, t);
  }

  /** The subtraction underflows exactly when no instant since start-up is within half a wrap below the candidate. */
  lemma UnderflowOnlyWithoutInstant(now: nat, timestamp: uint32)
    requires now <= TWO_64 / MICROSECONDS_TO_NANOSECONDS
    ensures Recovered(now, timestamp) >= TWO_64 / 2 <==> now < WRAP && timestamp - now > HALF_WRAP
    ensures now < WRAP && timestamp - now > HALF_WRAP ==>
              forall t: nat :: Reports(t, timestamp) ==> !Recoverable(now, t)
  {
    if now < WRAP && timestamp - now > HALF_WRAP {
      forall t: nat | Reports(t, timestamp) ensures !Recoverable(now, t) {
        assert t == t / WRAP * WRAP + timestamp;
      }
    }
  }

  /** Two frames keep their order whatever clock value each callback happens to read, wrap or no wrap. */
  lemma OrderPreserved(now1: nat, t1: nat, now2: nat, t2: nat)
    requires now1 <= TWO_64 / MICROSECONDS_TO_NANOSECONDS && now2 <= TWO_64 / MICROSECONDS_TO_NANOSECONDS
    requires Distance(now1, t1) < HALF_WRAP && Distance(now2, t2) < HALF_WRAP
    ensures t1 <= t2 <==> Recovered(now1, t1 % WRAP) <= Recovered(now2, t2 % WRAP)
  {
    RecoveredExactly(now1, t1);
    RecoveredExactly(now2, t2);
  }
}
