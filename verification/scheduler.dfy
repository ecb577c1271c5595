/**
 * Frame scheduler: which frame of an animation is on screen at a given tick
 * (get_current_frame in sdl.cpp). The delays, the start tick, the clock and
 * the cached total duration are all Uint32, so the running sums wrap.
 */
module Scheduler {
  import opened U32

  /** Exact (unbounded) sum of a list of frame delays. */
  function Sum(d: seq<u32>): (s: int)
    ensures s >= 0
    ensures d == [] ==> s == 0
  {
    if d == [] then 0 else Sum(d[..|d| - 1]) + d[|d| - 1]
  }

  /** The sum of the first j+1 delays extends the sum of the first j. */
  lemma SumStep(d: seq<u32>, j: nat)
    requires j < |d|
    ensures Sum(d[..j + 1]) == Sum(d[..j]) + d[j]
  {
    assert d[..j + 1][..j] == d[..j];
  }

  /** Prefix sums never decrease. */
  lemma {:induction false} SumPrefixMonotone(d: seq<u32>, i: nat, j: nat)
    requires i <= j <= |d|
    ensures Sum(d[..i]) <= Sum(d[..j])
    decreases j - i
  {
    if i < j {
      SumStep(d, j - 1);
      SumPrefixMonotone(d, i, j - 1);
    }
  }

  /** True when frame j, started at tick base + (delays before j), ends after `bound` (Uint32 sums). */
  predicate EndsAfter(d: seq<u32>, base: u32, bound: u32, j: nat)
    requires j < |d|
  {
    Wrap(base + Sum(d[..j + 1])) > bound
  }

  /**
   * Scan of the frames from index i on, `tick` being the Uint32 running end tick
   * of the frames before i: the first frame whose end tick exceeds `bound`, or |d|.
   */
  function ScanFrom(d: seq<u32>, i: nat, tick: u32, bound: u32): (k: nat)
    requires i <= |d|
    ensures i <= k <= |d|
    decreases |d| - i
  {
    if i == |d| then |d|
    else if Add32(tick, d[i]) > bound then i
    else ScanFrom(d, i + 1, Add32(tick, d[i]), bound)
  }

  /** First frame whose (wrapped) end tick, counted from base, lies after bound; |d| when none does. */
  function FirstEndAfter(d: seq<u32>, base: u32, bound: u32): (k: nat)
    ensures k <= |d|
  {
    ScanFrom(d, 0, base, bound)
  }

  /**
   * The frame shown at tick `now` of an animation with delays d and cached total
   * duration `total`, started at `start`, as the source computes it.
   */
  function CurrentFrame(d: seq<u32>, total: u32, loop: bool, start: u32, now: u32): (r: int)
    ensures total == 0 ==> r == 0
    ensures |d| > 0 ==> 0 <= r < |d|
  {
    if total == 0 then 0
    else if !loop then
      if Add32(start, total) < now then |d| - 1
      else
        var k := FirstEndAfter(d, start, now);
        if k < |d| then k else 0
    else
      var k := FirstEndAfter(d, 0, Sub32(now, start) % total);
      if k < |d| then k else 0
  }

  /** The scan returns the first frame that ends after the bound. */
  lemma {:induction false} ScanFromIsFirst(d: seq<u32>, base: u32, bound: u32, i: nat, tick: u32)
    requires i <= |d|
    requires tick == Wrap(base + Sum(d[..i]))
    requires forall j | 0 <= j < i :: !EndsAfter(d, base, bound, j)
    ensures var k := ScanFrom(d, i, tick, bound);
      (forall j | 0 <= j < k :: !EndsAfter(d, base, bound, j)) &&
      (k < |d| ==> EndsAfter(d, base, bound, k))
    decreases |d| - i
  {
    if i < |d| {
      SumStep(d, i);
      WrapAddLeft(base + Sum(d[..i]), d[i]);
      assert Add32(tick, d[i]) == Wrap(base + Sum(d[..i + 1]));
      if Add32(tick, d[i]) <= bound {
        ScanFromIsFirst(d, base, bound, i + 1, Add32(tick, d[i]));
      }
    }
  }

  /** FirstEndAfter is the least index of a frame ending after the bound (|d| when there is none). */
  lemma FirstEndAfterIsFirst(d: seq<u32>, base: u32, bound: u32)
    ensures var k := FirstEndAfter(d, base, bound);
      (forall j | 0 <= j < k :: !EndsAfter(d, base, bound, j)) &&
      (k < |d| ==> EndsAfter(d, base, bound, k))
  {
    assert d[..0] == [];
    ScanFromIsFirst(d, base, bound, 0, base);
  }

  /** A frame that ends after the bound bounds the scan's answer from above. */
  lemma FirstEndAfterAtMost(d: seq<u32>, base: u32, bound: u32, j: nat)
    requires j < |d| && EndsAfter(d, base, bound, j)
    ensures FirstEndAfter(d, base, bound) <= j
  {
    FirstEndAfterIsFirst(d, base, bound);
  }

  /**
   * When no running sum wraps and the bound falls inside [base, base + Sum(d)), the
   * scan finds the frame whose slot [base + Sum(d[..k]), base + Sum(d[..k+1])) holds it.
   */
  lemma FirstEndAfterSlot(d: seq<u32>, base: u32, bound: u32)
    requires base + Sum(d) < Modulus
    requires base <= bound < base + Sum(d)
    ensures var k := FirstEndAfter(d, base, bound);
      k < |d| && base + Sum(d[..k]) <= bound < base + Sum(d[..k + 1])
  {
    assert d[..|d|] == d;
    FirstEndAfterAtMost(d, base, bound, |d| - 1);
    var k := FirstEndAfter(d, base, bound);
    FirstEndAfterIsFirst(d, base, bound);
    SumPrefixMonotone(d, k + 1, |d|);
    if k > 0 {
      SumPrefixMonotone(d, k, |d|);
      assert !EndsAfter(d, base, bound, k - 1);
    } else {
      assert d[..0] == [];
    }
  }

  /**
   * Looping animation whose cached total is the exact sum of its delays: the frame
   * shown is the one whose time slot [Sum(d[..r]), Sum(d[..r+1])) holds the
   * elapsed time modulo the total.
   */
  lemma LoopingFrameSlot(d: seq<u32>, start: u32, now: u32)
    requires 0 < Sum(d) < Modulus
    ensures var r := CurrentFrame(d, Sum(d), true, start, now);
      var e := Sub32(now, start) % Sum(d);
      0 <= r < |d| && Sum(d[..r]) <= e < Sum(d[..r + 1])
  {
    FirstEndAfterSlot(d, 0, Sub32(now, start) % Sum(d));
  }

  /**
   * One-shot animation whose cached total is the exact sum of its delays and whose
   * end tick does not wrap: once the end tick has passed it holds on the last frame,
   * before the start it shows the first frame, and in between it shows the frame
   * whose slot holds the elapsed time.
   */
  lemma OneShotFrameSlot(d: seq<u32>, start: u32, now: u32)
    requires 0 < Sum(d) && start + Sum(d) < Modulus
    ensures var r := CurrentFrame(d, Sum(d), false, start, now);
      (start + Sum(d) < now ==> r == |d| - 1) &&
      (now < start ==> r == 0) &&
      (start <= now < start + Sum(d) ==> Sum(d[..r]) <= now - start < Sum(d[..r + 1]))
  {
    if start <= now < start + Sum(d) {
      FirstEndAfterSlot(d, start, now);
    } else if now < start {
      SumStep(d, 0);
      assert d[..0] == [];
      SumPrefixMonotone(d, 1, |d|);
      assert d[..|d|] == d;
      assert EndsAfter(d, start, now, 0);
      FirstEndAfterAtMost(d, start, now, 0);
    }
  }

  /**
   * Exactly at the end tick of a one-shot animation no frame ends later than the
   * clock, so the scan falls back to frame 0 instead of holding on the last frame.
   */
  lemma OneShotAtEndTick(d: seq<u32>, start: u32)
    requires 0 < Sum(d) && start + Sum(d) < Modulus
    ensures CurrentFrame(d, Sum(d), false, start, start + Sum(d)) == 0
  {
    var now: u32 := start + Sum(d);
    FirstEndAfterIsFirst(d, start, now);
    var k := FirstEndAfter(d, start, now);
    assert d[..|d|] == d;
    if k < |d| {
      SumPrefixMonotone(d, k + 1, |d|);
      assert false;
    }
  }

  /** A looping example: delays [100, 200, 300] started at tick 0. */
  lemma LoopingExample()
    ensures CurrentFrame([100, 200, 300], 600, true, 0, 0) == 0
    ensures CurrentFrame([100, 200, 300], 600, true, 0, 150) == 1
    ensures CurrentFrame([100, 200, 300], 600, true, 0, 650) == 0
    ensures CurrentFrame([100, 200, 300], 600, false, 0, 10000) == 2
  {
  }

  /** get_current_frame: the two scans over anim->delay, with Uint32 running sums. */
  method GetCurrentFrame(delay: array<u32>, numFrame: int, total: u32, loop: bool, start: u32, now: u32)
    returns (r: int)
    requires 0 <= numFrame <= delay.Length
    ensures r == CurrentFrame(delay[..numFrame], total, loop, start, now)
  {
    ghost var d := delay[..numFrame];
    r := 0;
    if total != 0 {
      if !loop {
        if Add32(start, total) < now {
          r := numFrame - 1;
        } else {
          var tick := start;
          var i := 0;
          while i < numFrame
            invariant 0 <= i <= numFrame
            invariant ScanFrom(d, i, tick, now) == FirstEndAfter(d, start, now)
            invariant r == 0
          {
            if Add32(tick, delay[i]) > now {
              r := i;
              break;
            }
            tick := Add32(tick, delay[i]);
            i := i + 1;
          }
        }
      } else {
        var tick := Sub32(now, start) % total;
        var currentDelay: u32 := 0;
        var i := 0;
        while i < numFrame
          invariant 0 <= i <= numFrame
          invariant ScanFrom(d, i, currentDelay, tick) == FirstEndAfter(d, 0, tick)
          invariant r == 0
        {
          currentDelay := Add32(currentDelay, delay[i]);
          if tick < currentDelay {
            r := i;
            break;
          }
          i := i + 1;
        }
      }
    }
  }
}
