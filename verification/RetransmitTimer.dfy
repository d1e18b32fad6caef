/**
 The DTLS retransmission timer (section 4.2.4.1 of RFC 6347; d1_lib.cc): exponential
 backoff up to a minute, failure after twelve timeouts, and the time left until the next
 one, on a clock of seconds and microseconds.
 */
module RetransmitTimer {
  import opened Bits
  import opened Wrappers

  const MAX_TIMEOUTS: nat := 12
  const MTU_TIMEOUTS: nat := 2
  const MAX_DURATION_MS: nat := 60000
  const MIN_MTU: nat := 256 - 28
  const INT_MAX: nat := 0x7fff_ffff

  datatype Time = Time(sec: nat, usec: nat) {
    predicate Normal() {
      usec < 1_000_000
    }

    function Micros(): nat {
      sec * 1_000_000 + usec
    }
  }

  const NO_TIMEOUT: Time := Time(0, 0)

  function Min(a: nat, b: nat): nat {
    if a < b then a else b
  }

  /** dtls1_double_timeout on a 32-bit unsigned duration. */
  function Doubled(ms: nat): nat {
    var twice := ms * 2 % 0x1_0000_0000;
    if twice > MAX_DURATION_MS then MAX_DURATION_MS else twice
  }

  /** The duration after k timeouts. */
  function Backoff(initial: nat, k: nat): nat {
    if k == 0 then initial else Doubled(Backoff(initial, k - 1))
  }

  lemma NextBackoff(initial: nat, k: nat)
    ensures Backoff(initial, k + 1) == Doubled(Backoff(initial, k))
  {
  }

  lemma DoubledBelowCap(p: nat)
    ensures Doubled(Min(MAX_DURATION_MS, p)) == Min(MAX_DURATION_MS, 2 * p)
  {
  }

  /** The backoff is exponential and levels off at a minute. */
  lemma {:induction false} BackoffIsExponential(initial: nat, k: nat)
    requires initial <= 60000
    ensures Backoff(initial, k) == Min(60000, initial * Pow2(k))
    decreases k
  {
    if k == 0 {
      assert initial * Pow2(0) == initial;
    } else {
      hide Doubled, Min;
      BackoffIsExponential(initial, k - 1);
      DoubledBelowCap(initial * Pow2(k - 1));
      assert initial * Pow2(k) == 2 * (initial * Pow2(k - 1));
    }
  }

  /** Time left, at a clock reading, until a deadline: nothing below 15 milliseconds. */
  function Remaining(next: Time, now: Time): nat {
    var left := if next.Micros() <= now.Micros() then 0 else next.Micros() - now.Micros();
    if left < 15_000 then 0 else left
  }

  /** A number of microseconds as seconds, at most INT_MAX, and microseconds. */
  function Clamped(micros: nat): Time {
    Time(Min(INT_MAX, micros / 1_000_000), micros % 1_000_000)
  }

  lemma ClampedMicros(sec: nat, usec: nat)
    requires usec < 1_000_000
    ensures Clamped(sec * 1_000_000 + usec) == Time(Min(INT_MAX, sec), usec)
  {
    ModUnique(sec * 1_000_000 + usec, 1_000_000, sec, usec);
  }

  /** The time left until the deadline: zero below 15 ms, and exact up to 2^31 seconds. */
  predicate IsLeft(next: Time, now: Time, t: Time) {
    if next.Micros() < now.Micros() + 15_000 then t == Time(0, 0)
    else if next.Micros() - now.Micros() < 0x8000_0000 * 1_000_000 then t.Micros() == next.Micros() - now.Micros()
    else t.sec == 0x7fff_ffff
  }

  lemma ClampedIsLeft(next: Time, now: Time)
    ensures IsLeft(next, now, Clamped(Remaining(next, now)))
  {
  }

  lemma NothingLeft(next: Time, now: Time, t: Time)
    requires IsLeft(next, now, t)
    ensures t.sec == t.usec == 0 <==> next.Micros() < now.Micros() + 15_000
  {
  }

  class Timer {
    var nextTimeout: Time
    var durationMs: nat
    var numTimeouts: nat
    var initialMs: nat
    var mtu: nat
    /** The duration the current backoff started from. */
    ghost var base: nat

    ghost predicate Valid()
      reads this
    {
      && nextTimeout.Normal()
      && (numTimeouts > 0 ==> nextTimeout != NO_TIMEOUT)
      && (nextTimeout != NO_TIMEOUT ==> durationMs == Backoff(base, Min(numTimeouts, MAX_TIMEOUTS)))
    }

    constructor (initialMs: nat)
      ensures Valid() && nextTimeout == NO_TIMEOUT && numTimeouts == 0 && this.initialMs == initialMs
    {
      this.initialMs, durationMs, nextTimeout, numTimeouts, mtu, base := initialMs, 0, NO_TIMEOUT, 0, 0, initialMs;
    }

    /** dtls1_start_timer: the deadline is exactly one duration after now. */
    method Start(now: Time)
      requires Valid() && now.Normal() && now.Micros() > 0
      modifies this`nextTimeout, this`durationMs, this`base
      ensures Valid() && nextTimeout != NO_TIMEOUT
      ensures base == if old(nextTimeout) == NO_TIMEOUT then initialMs else old(base)
      ensures durationMs == if old(nextTimeout) == NO_TIMEOUT then initialMs else old(durationMs)
      ensures nextTimeout.Micros() == now.Micros() + durationMs * 1000
    {
      if nextTimeout.sec == 0 && nextTimeout.usec == 0 {
        durationMs := initialMs;
        base := initialMs;
      }
      var sec, usec := now.sec + durationMs / 1000, now.usec + durationMs % 1000 * 1000;
      if usec >= 1_000_000 {
        sec, usec := sec + 1, usec - 1_000_000;
      }
      nextTimeout := Time(sec, usec);
      assert durationMs == 1000 * (durationMs / 1000) + durationMs % 1000;
    }

    /** dtls1_stop_timer */
    method Stop()
      requires Valid()
      modifies this
      ensures Valid() && nextTimeout == NO_TIMEOUT && numTimeouts == 0
      ensures durationMs == initialMs == old(initialMs) && mtu == old(mtu)
    {
      numTimeouts, nextTimeout, durationMs := 0, NO_TIMEOUT, initialMs;
    }

    /** DTLSv1_get_timeout: the time left, its seconds clamped to the range of an int. */
    method GetTimeout(now: Time) returns (left: Option<Time>)
      requires Valid() && now.Normal()
      ensures left.None? <==> nextTimeout == NO_TIMEOUT
      ensures left.Some? ==> left.value.Normal() && left.value == Clamped(Remaining(nextTimeout, now))
      ensures left.Some? ==> IsLeft(nextTimeout, now, left.value)
    {
      if nextTimeout.sec == 0 && nextTimeout.usec == 0 {
        return None;
      }
      ClampedIsLeft(nextTimeout, now);
      hide Clamped, IsLeft;
      if nextTimeout.sec < now.sec || (nextTimeout.sec == now.sec && nextTimeout.usec <= now.usec) {
        ClampedMicros(0, 0);
        return Some(Time(0, 0));
      }
      var sec, usec := nextTimeout.sec - now.sec, nextTimeout.usec;
      if usec >= now.usec {
        usec := usec - now.usec;
      } else {
        usec := 1_000_000 + usec - now.usec;
        sec := sec - 1;
      }
      if sec == 0 && usec < 15_000 {
        ClampedMicros(0, 0);
        return Some(Time(0, 0));
      }
      ClampedMicros(sec, usec);
      assert Remaining(nextTimeout, now) == sec * 1_000_000 + usec;
      if sec > INT_MAX {
        return Some(Time(INT_MAX, usec));
      }
      return Some(Time(sec, usec));
    }

    /** dtls1_check_timeout_num: counts a timeout, lowers the MTU after two, gives up after twelve. */
    method CheckTimeoutNum(noQuery: bool, fallbackMtu: int) returns (ok: bool)
      requires Valid() && nextTimeout != NO_TIMEOUT
      modifies this`numTimeouts, this`mtu
      ensures numTimeouts == old(numTimeouts) + 1
      ensures ok <==> numTimeouts <= 12
      ensures mtu == if numTimeouts > 2 && !noQuery && 228 <= fallbackMtu <= 0x4000_0000
                     then fallbackMtu else old(mtu)
    {
      numTimeouts := numTimeouts + 1;
      if numTimeouts > MTU_TIMEOUTS && !noQuery {
        if 0 <= fallbackMtu <= 0x4000_0000 && fallbackMtu >= MIN_MTU {
          mtu := fallbackMtu;
        }
      }
      return numTimeouts <= MAX_TIMEOUTS;
    }

    /**
     DTLSv1_handle_timeout.  Nothing happens unless the deadline is less than 15 ms away; the
     k-th timeout in a row makes the duration the k-th backoff, and the thirteenth fails.
     Returns whether to retransmit, or -1.
     */
    method HandleTimeout(now: Time, noQuery: bool, fallbackMtu: int) returns (action: int)
      requires Valid() && now.Normal() && now.Micros() > 0
      modifies this`nextTimeout, this`durationMs, this`numTimeouts, this`mtu, this`base
      ensures Valid() && base == old(base)
      ensures var expired := old(nextTimeout) != NO_TIMEOUT && old(nextTimeout).Micros() < now.Micros() + 15_000;
              && (action == 0 <==> !expired)
              && (action == -1 <==> expired && old(numTimeouts) >= 12)
              && (action == 1 <==> expired && old(numTimeouts) < 12)
      ensures action == 0 ==> nextTimeout == old(nextTimeout) && durationMs == old(durationMs) && numTimeouts == old(numTimeouts)
      ensures action != 0 ==> numTimeouts == old(numTimeouts) + 1
      ensures mtu == if action != 0 && numTimeouts > 2 && !noQuery && 228 <= fallbackMtu <= 0x4000_0000
                     then fallbackMtu else old(mtu)
      ensures action == 1 ==>
                && durationMs == Backoff(base, numTimeouts)
                && nextTimeout.Micros() == now.Micros() + durationMs * 1000
    {
      hide Backoff, Doubled, Clamped, Remaining, IsLeft;
      var left := GetTimeout(now);
      if left.Some? {
        NothingLeft(nextTimeout, now, left.value);
      }
      if left.None? || left.value.sec > 0 || left.value.usec > 0 {
        return 0;
      }
      var ok := CheckTimeoutNum(noQuery, fallbackMtu);
      if !ok {
        return -1;
      }
      NextBackoff(base, old(numTimeouts));
      durationMs := Doubled(durationMs);
      Start(now);
      return 1;
    }
  }
}
