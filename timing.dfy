/**
 * Time as the engine sees it: millis() is an unsigned 32-bit counter that
 * wraps around, and every interval is measured by unsigned subtraction,
 * (unsigned long)(now - since). Frames are delimited by silence: the engine
 * takes the bytes waiting on the port only when their count has not changed
 * for T35 milliseconds.
 */
module Timing {
  import opened Bits

  /** Silence, in milliseconds, that ends a frame. */
  const T35: nat := 5

  /** Number of values of the 32-bit millisecond counter. */
  const Wrap: nat := 0x1_0000_0000

  /** Milliseconds from since to now, by unsigned 32-bit subtraction. */
  function Elapsed(now: u32, since: u32): (d: u32)
    ensures since <= now ==> d == now - since
    ensures now < since ==> d == now + Wrap - since
  {
    if since <= now then
      DivMod(now - since, Wrap, 0, now - since);
      (now - since) % Wrap
    else
      DivMod(now - since, Wrap, -1, now + Wrap - since);
      (now - since) % Wrap
  }

  /** The watchdog test of getTimeOutState and of the master's poll. */
  predicate TimedOut(now: u32, since: u32, limit: u16) {
    Elapsed(now, since) > limit
  }

  /** The clock reading d milliseconds after since. */
  function Later(since: u32, d: nat): u32 {
    (since + d) % Wrap
  }

  /** Unsigned subtraction measures every interval shorter than the counter's period, across a wrap too. */
  lemma ElapsedLater(since: u32, d: nat)
    requires d < Wrap
    ensures Elapsed(Later(since, d), since) == d
  {
    if since + d < Wrap {
      DivMod(since + d, Wrap, 0, since + d);
    } else {
      DivMod(since + d, Wrap, 1, since + d - Wrap);
    }
  }

  /** The watchdog fires exactly when more than limit milliseconds have passed, whether or not the counter wrapped. */
  lemma WatchdogFires(since: u32, d: nat, limit: u16)
    requires d < Wrap
    ensures TimedOut(Later(since, d), since, limit) <==> d > limit
  {
    ElapsedLater(since, d);
  }

  /** What a poll makes of the count of bytes waiting on the port. */
  datatype Arrival =
    | NoBytes   // nothing has arrived
    | Growing   // the count changed since the last poll: record it and the time
    | Settling  // the count is unchanged, but for less than T35
    | Ready     // the count has been unchanged for T35: the frame is complete

  /**
   * The silence rule shared by both poll methods: count is the number of
   * bytes waiting, lastRec the count the previous poll recorded at time.
   */
  function Arrive(count: nat, lastRec: u8, now: u32, time: u32): Arrival {
    if count == 0 then NoBytes
    else if count != lastRec then Growing
    else if Elapsed(now, time) < T35 then Settling
    else Ready
  }

  /**
   * A poll that records count at time t0 is followed by polls that see the
   * same count: the frame is taken exactly when T35 or more milliseconds have
   * passed since t0, and never while the count keeps changing.
   */
  lemma SilenceDelimits(count: u8, t0: u32, d: nat)
    requires count > 0 && d < Wrap
    ensures Arrive(count, count, Later(t0, d), t0) == Ready <==> d >= T35
    ensures forall c: u8 :: c > 0 && c != count ==> Arrive(c, count, Later(t0, d), t0) == Growing
  {
    ElapsedLater(t0, d);
  }
}
