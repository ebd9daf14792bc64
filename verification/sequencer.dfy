/**
 * The package-level counter and the monotonic time-and-counter sequencer of `generator.go`:
 * `incrCounter`, `readTimeAndCounter` and the range of `randFlag`. The clock reading and the
 * random numbers are parameters; the mutex and the atomic add are dropped (one caller at a time).
 */
module Sequencer {
  import opened Bytes
  import Xxid

  /** `randFlag`: the top 15 bits of a 32-bit random number, so bit 15 is never set. */
  function RandFlag(x: u32): (f: u16)
    ensures f < 0x8000
  {
    x / 0x2_0000
  }

  /** What one `readTimeAndCounter` call returns and stores. */
  datatype Reading = Reading(timeMsec: int64, counter: u16, stored: int64)

  /**
   * One `readTimeAndCounter` step from the stored composite `prev`, for the clock reading `now`
   * and the counter value `c`: the composite `now<<16 | c` if it exceeds `prev`, otherwise
   * `prev + 1` (wrapping in 64 bits) split back into a time and a counter by `>>16` and `uint16`.
   */
  function NextReading(prev: int64, now: int64, c: u16): (r: Reading)
    ensures Xxid.Pack(r.timeMsec, r.counter) == r.stored
    ensures prev < MaxInt64 ==> r.stored > prev
    ensures Xxid.Pack(now, c) > prev ==> r.timeMsec == now && r.counter == c
    ensures Xxid.Pack(now, c) <= prev ==> r.stored == WrapInt64(prev as int + 1)
  {
    var tac := Xxid.Pack(now, c);
    if tac > prev then Reading(now, c, tac)
    else
      var next := WrapInt64(prev as int + 1);
      Reading(next / 0x1_0000, next % 0x1_0000, next)
  }

  /** When the store is already at the largest `int64`, the next composite wraps to the smallest:
      strict increase needs `prev < MaxInt64`. */
  lemma SaturatedStoreWraps(now: int64, c: u16)
    ensures NextReading(MaxInt64, now, c).stored == -0x8000_0000_0000_0000
  {
  }

  /** The readings of successive calls, each starting from the composite the previous one stored. */
  function Run(prev: int64, nows: seq<int64>, cs: seq<u16>): (r: seq<Reading>)
    requires |nows| == |cs|
    ensures |r| == |nows|
    decreases |nows|
  {
    if |nows| == 0 then []
    else
      var first := NextReading(prev, nows[0], cs[0]);
      [first] + Run(first.stored, nows[1..], cs[1..])
  }

  /**
   * Successive calls never hand out the same time-and-counter pair: the stored composites strictly
   * increase as long as the clock readings and the starting store stay below `MaxInt64` by more
   * than the number of calls.
   */
  lemma {:induction false} RunIncreasing(prev: int64, nows: seq<int64>, cs: seq<u16>, bound: int)
    requires |nows| == |cs| && bound + |nows| <= MaxInt64 && prev < bound
    requires forall i :: 0 <= i < |nows| ==> Xxid.Pack(nows[i], cs[i]) < bound
    ensures forall i, j :: 0 <= i < j < |nows| ==>
              Run(prev, nows, cs)[i].stored < Run(prev, nows, cs)[j].stored
    decreases |nows|
  {
    if |nows| > 0 {
      var r := Run(prev, nows, cs);
      var first := NextReading(prev, nows[0], cs[0]);
      var tail := Run(first.stored, nows[1..], cs[1..]);
      assert r == [first] + tail;
      var b := if first.stored < bound then bound else bound + 1;
      RunBounds(first.stored, nows[1..], cs[1..], b);
      RunIncreasing(first.stored, nows[1..], cs[1..], b);
      forall i, j | 0 <= i < j < |nows|
        ensures r[i].stored < r[j].stored
      {
        assert r[j] == tail[j - 1];
        if i > 0 {
          assert r[i] == tail[i - 1];
        }
      }
    }
  }

  /** Every composite a run stores lies above the starting store and below `MaxInt64`. */
  lemma {:induction false} RunBounds(prev: int64, nows: seq<int64>, cs: seq<u16>, bound: int)
    requires |nows| == |cs| && bound + |nows| <= MaxInt64 && prev < bound
    requires forall i :: 0 <= i < |nows| ==> Xxid.Pack(nows[i], cs[i]) < bound
    ensures forall i :: 0 <= i < |nows| ==> prev < Run(prev, nows, cs)[i].stored < bound + i + 1
    decreases |nows|
  {
    if |nows| > 0 {
      var r := Run(prev, nows, cs);
      var first := NextReading(prev, nows[0], cs[0]);
      var tail := Run(first.stored, nows[1..], cs[1..]);
      assert r == [first] + tail;
      if first.stored < bound {
        RunBounds(first.stored, nows[1..], cs[1..], bound);
      } else {
        RunBounds(first.stored, nows[1..], cs[1..], bound + 1);
      }
      forall i | 1 <= i < |nows|
        ensures prev < r[i].stored < bound + i + 1
      {
        assert r[i] == tail[i - 1];
      }
    }
  }

  /** The process-wide state `generator.go` keeps: the shared 32-bit counter and the last
      time-and-counter composite handed out. */
  class Sequencer {
    var counter: u32
    var timeAndCounter: int64

    /** The state after `init`: the counter starts at a random value, the store at zero. */
    constructor (seed: u32)
      ensures counter == seed && timeAndCounter == 0
    {
      counter := seed;
      timeAndCounter := 0;
    }

    /** `incrCounter`: adds 1 to the 32-bit counter, wrapping, and returns its low 16 bits. */
    method IncrCounter() returns (c: u16)
      modifies this
      ensures counter == (old(counter) + 1) % 0x1_0000_0000
      ensures c == counter % 0x1_0000
      ensures timeAndCounter == old(timeAndCounter)
    {
      counter := (counter + 1) % 0x1_0000_0000;
      c := counter % 0x1_0000;
    }

    /** `readTimeAndCounter` for the clock reading `now` (milliseconds since 1970). */
    method ReadTimeAndCounter(now: int64) returns (t: int64, c: u16)
      modifies this
      ensures counter == (old(counter) + 1) % 0x1_0000_0000
      ensures Reading(t, c, timeAndCounter) == NextReading(old(timeAndCounter), now, counter % 0x1_0000)
    {
      c := IncrCounter();
      var tac := Xxid.Pack(now, c);
      t := now;
      var prev := timeAndCounter;
      if tac <= prev {
        tac := WrapInt64(prev as int + 1);
        t, c := tac / 0x1_0000, tac % 0x1_0000;
      }
      timeAndCounter := tac;
    }
  }
}
