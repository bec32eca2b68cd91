/**
 * The swipe detector of the sensor handler: a ring buffer of "bright upper pixel" counts,
 * one per camera image, and a latch raised when the newest counts form a long enough
 * strictly rising run of high values.
 */
module Leap {
  import opened Bytes
  import opened Arith
  import Graphics

  /** Number of slots in the ring of bright-pixel counts. */
  const RingSize: nat := 50
  /** A pixel at or above this brightness is "bright". */
  const BrightThreshold: byte := 100
  /** Counts below this value end a rising run. */
  const RunThreshold: uint32 := 30000
  /** A rising run at least this long is a swipe. */
  const SwipeRunLength: nat := 5

  /** Steady-clock ticks per second (the clock's period is one nanosecond). */
  const TicksPerSecond: int := 1_000_000_000
  /** Value of a default-constructed `std::chrono::seconds`, the zero duration. */
  const DefaultSeconds: int := 0

  // ---------------------------------------------------------------------------
  // Counting bright pixels

  /** Number of samples of s at or above t. */
  function CountAtLeast(s: seq<byte>, t: byte): (n: nat)
    ensures n <= |s|
  {
    if s == [] then 0
    else CountAtLeast(s[..|s| - 1], t) + (if s[|s| - 1] >= t then 1 else 0)
  }

  /** CountAtLeast is the size of the set of positions whose sample reaches t. */
  lemma {:induction false} CountAtLeastIsCardinality(s: seq<byte>, t: byte)
    ensures CountAtLeast(s, t) == |set i | 0 <= i < |s| && s[i] >= t|
  {
    if s != [] {
      var s' := s[..|s| - 1];
      CountAtLeastIsCardinality(s', t);
      var before := set i | 0 <= i < |s'| && s'[i] >= t;
      var after := set i | 0 <= i < |s| && s[i] >= t;
      if s[|s| - 1] >= t {
        assert after == before + {|s| - 1};
      } else {
        assert after == before;
      }
    }
  }

  /** Number of samples in the upper half (rows y < height / 2) of a row-major image. */
  function UpperLength(width: nat, height: nat): nat
  {
    (height / 2) * width
  }

  /** Row-major index of pixel (x, y) in an image `width` samples wide. */
  function Index(width: nat, x: nat, y: nat): nat
  {
    y * width + x
  }

  /** Sample (x, y) of a row-major image `width` samples wide. */
  function At(image: seq<byte>, width: nat, x: nat, y: nat): byte
    requires Index(width, x, y) < |image|
  {
    image[Index(width, x, y)]
  }

  /** Pixel (x, y) lies in the image and is bright. */
  predicate BrightPixel(width: nat, image: seq<byte>, x: nat, y: nat)
  {
    Index(width, x, y) < |image| && At(image, width, x, y) >= BrightThreshold
  }

  /** Number of bright pixels in the upper half of the image. */
  function BrightUpperCount(width: nat, height: nat, image: seq<byte>): nat
    requires UpperLength(width, height) <= |image|
  {
    CountAtLeast(image[..UpperLength(width, height)], BrightThreshold)
  }

  /** Pixel (x, y) with y in the upper half lies in the first UpperLength samples ... */
  lemma {:induction false} UpperIndex(width: nat, height: nat, x: nat, y: nat)
    requires x < width && y < height / 2
    ensures Index(width, x, y) < UpperLength(width, height)
  {
    assert y * width + x < (y + 1) * width;
    MulMono(y + 1, height / 2, width);
  }

  /** ... and each of those samples is exactly one such pixel. */
  lemma {:induction false} UpperIndexInverse(width: nat, height: nat, i: nat)
    requires i < UpperLength(width, height)
    ensures width > 0
    ensures i / width < height / 2 && Index(width, i % width, i / width) == i
  {
    var y := i / width;
    if y >= height / 2 {
      MulMono(height / 2, y, width);
    }
  }

  /** The upper half of an image is at most the whole image. */
  lemma UpperWithinImage(width: nat, height: nat)
    ensures UpperLength(width, height) <= width * height
  {
    MulMono(height / 2, height, width);
  }

  /** Row-major indices of the bright pixels (x, y) with x < width and y < height / 2. */
  function BrightUpperIndices(width: nat, height: nat, image: seq<byte>): set<int>
  {
    set y: nat, x: nat | y < height / 2 && x < width && BrightPixel(width, image, x, y) :: Index(width, x, y)
  }

  lemma {:induction false} BrightSampleIsBrightPixel(width: nat, height: nat, image: seq<byte>, i: nat)
    requires i < UpperLength(width, height) <= |image| && image[i] >= BrightThreshold
    ensures i in BrightUpperIndices(width, height, image)
  {
    UpperIndexInverse(width, height, i);
    var x, y := i % width, i / width;
    assert BrightPixel(width, image, x, y);
  }

  lemma {:induction false} BrightPixelIsBrightSample(width: nat, height: nat, image: seq<byte>, i: int)
    requires UpperLength(width, height) <= |image|
    requires i in BrightUpperIndices(width, height, image)
    ensures 0 <= i < UpperLength(width, height) && image[i] >= BrightThreshold
  {
    var y: nat, x: nat :| y < height / 2 && x < width && BrightPixel(width, image, x, y) && i == Index(width, x, y);
    UpperIndex(width, height, x, y);
  }

  /**
   * The bright upper count is the number of pixels (x, y) with x < width and y < height / 2
   * whose sample is at least 100, and so never exceeds (height / 2) * width.
   */
  lemma {:induction false} BrightUpperCountPixels(width: nat, height: nat, image: seq<byte>)
    requires UpperLength(width, height) <= |image|
    ensures BrightUpperCount(width, height, image) == |BrightUpperIndices(width, height, image)|
    ensures BrightUpperCount(width, height, image) <= UpperLength(width, height)
  {
    var upper := image[..UpperLength(width, height)];
    CountAtLeastIsCardinality(upper, BrightThreshold);
    var flat := set i | 0 <= i < |upper| && upper[i] >= BrightThreshold;
    var pixels := BrightUpperIndices(width, height, image);
    forall i | i in flat ensures i in pixels {
      BrightSampleIsBrightPixel(width, height, image, i);
    }
    forall i | i in pixels ensures i in flat {
      BrightPixelIsBrightSample(width, height, image, i);
    }
    assert flat == pixels;
  }

  /** Samples outside the upper half never change the bright upper count. */
  lemma {:induction false} LowerHalfIgnored(width: nat, height: nat, a: seq<byte>, b: seq<byte>)
    requires UpperLength(width, height) <= |a| && UpperLength(width, height) <= |b|
    requires forall y: nat, x: nat :: y < height / 2 && x < width && Index(width, x, y) < |a| && Index(width, x, y) < |b|
               ==> At(a, width, x, y) == At(b, width, x, y)
    ensures BrightUpperCount(width, height, a) == BrightUpperCount(width, height, b)
  {
    var n := UpperLength(width, height);
    forall i | 0 <= i < n ensures a[i] == b[i] {
      UpperIndexInverse(width, height, i);
      assert At(a, width, i % width, i / width) == At(b, width, i % width, i / width);
    }
    assert a[..n] == b[..n];
  }

  /** The value the source stores: its `uint32_t` counter wraps modulo 2^32. */
  function StoredCount(count: nat): uint32
  {
    (count % 0x1_0000_0000) as uint32
  }

  /** The all-zero ring of a fresh handler. */
  function ZeroRing(): seq<uint32>
  {
    seq(RingSize, _ => 0)
  }

  // ---------------------------------------------------------------------------
  // Reading the ring backwards

  /** Slot of the i-th most recent entry (i = 1 is the newest) when the next write goes to slot `next`. */
  function SlotOf(next: nat, i: nat): (slot: nat)
    requires next < RingSize && 1 <= i <= RingSize
    ensures slot < RingSize
    ensures slot == (next - i) % RingSize
  {
    var index := next - i;
    if index < 0 then index + RingSize else index
  }

  /** The i-th most recent count. */
  function Recent(ring: seq<uint32>, next: nat, i: nat): uint32
    requires |ring| == RingSize && next < RingSize && 1 <= i <= RingSize
  {
    ring[SlotOf(next, i)]
  }

  /** The bound the i-th most recent count must stay strictly below to extend the run:
      UINT32_MAX for the newest, the previous (newer) count afterwards. */
  function Bound(ring: seq<uint32>, next: nat, i: nat): uint32
    requires |ring| == RingSize && next < RingSize && 1 <= i <= RingSize + 1
  {
    if i == 1 then UINT32_MAX else Recent(ring, next, i - 1)
  }

  /** Whether the i-th most recent count continues the rising run. */
  predicate Extends(ring: seq<uint32>, next: nat, i: nat)
    requires |ring| == RingSize && next < RingSize && 1 <= i <= RingSize
  {
    Recent(ring, next, i) >= RunThreshold && Recent(ring, next, i) < Bound(ring, next, i)
  }

  /** The k most recent counts, newest first, are all at least 30000 and strictly decreasing. */
  predicate IsRun(ring: seq<uint32>, next: nat, k: nat)
    requires |ring| == RingSize && next < RingSize
  {
    k <= RingSize && forall j :: 1 <= j <= k ==> Extends(ring, next, j)
  }

  /** ... and the run cannot be extended by one more entry. */
  predicate IsLongestRun(ring: seq<uint32>, next: nat, k: nat)
    requires |ring| == RingSize && next < RingSize
  {
    IsRun(ring, next, k) && (k < RingSize ==> !Extends(ring, next, k + 1))
  }

  /** Length of the run starting at the i-th most recent entry, counted from the newest. */
  function RunFrom(ring: seq<uint32>, next: nat, i: nat): nat
    requires |ring| == RingSize && next < RingSize && 1 <= i <= RingSize + 1
    decreases RingSize + 1 - i
  {
    if i <= RingSize && Extends(ring, next, i) then RunFrom(ring, next, i + 1) else i - 1
  }

  /** Length of the rising run ending at the newest entry. */
  function RunLength(ring: seq<uint32>, next: nat): nat
    requires |ring| == RingSize && next < RingSize
  {
    RunFrom(ring, next, 1)
  }

  lemma {:induction false} RunFromIsLongest(ring: seq<uint32>, next: nat, i: nat)
    requires |ring| == RingSize && next < RingSize && 1 <= i <= RingSize + 1
    requires IsRun(ring, next, i - 1)
    ensures IsLongestRun(ring, next, RunFrom(ring, next, i))
    decreases RingSize + 1 - i
  {
    if i <= RingSize && Extends(ring, next, i) {
      RunFromIsLongest(ring, next, i + 1);
    }
  }

  /** RunLength is the longest rising run: it is a run, it cannot be extended, and it is at most the ring size. */
  lemma RunLengthIsLongest(ring: seq<uint32>, next: nat)
    requires |ring| == RingSize && next < RingSize
    ensures IsLongestRun(ring, next, RunLength(ring, next))
    ensures RunLength(ring, next) <= RingSize
  {
    RunFromIsLongest(ring, next, 1);
  }

  /** Only one k is a longest run, so RunLength is fully determined by IsLongestRun. */
  lemma LongestRunUnique(ring: seq<uint32>, next: nat, k: nat, k': nat)
    requires |ring| == RingSize && next < RingSize
    requires IsLongestRun(ring, next, k) && IsLongestRun(ring, next, k')
    ensures k == k'
  {
  }

  /** A newest count below 30000 means no run at all. */
  lemma LowNewestMeansNoRun(ring: seq<uint32>, next: nat)
    requires |ring| == RingSize && next < RingSize
    requires Recent(ring, next, 1) < RunThreshold
    ensures RunLength(ring, next) == 0
  {
  }

  /** Writing v at `next` and advancing makes v the newest entry, and every older entry moves one step back. */
  lemma {:induction false} PushShiftsHistory(ring: seq<uint32>, next: nat, v: uint32)
    requires |ring| == RingSize && next < RingSize
    ensures var ring', next' := ring[next := v], (next + 1) % RingSize;
            && Recent(ring', next', 1) == v
            && forall j :: 1 <= j < RingSize ==> Recent(ring', next', j + 1) == Recent(ring, next, j)
  {
    var ring', next' := ring[next := v], (next + 1) % RingSize;
    assert SlotOf(next', 1) == next;
    forall j | 1 <= j < RingSize ensures Recent(ring', next', j + 1) == Recent(ring, next, j) {
      assert SlotOf(next', j + 1) == SlotOf(next, j) != next;
    }
  }

  // ---------------------------------------------------------------------------
  // Debounce

  /** Integer division truncating toward zero, as `duration_cast` does. */
  function TruncDiv(a: int, b: int): int
    requires b > 0
  {
    if a >= 0 then a / b else -((-a) / b)
  }

  /** `duration_cast<seconds>(now - since)`: elapsed whole seconds, truncated toward zero. */
  function WholeSecondsBetween(since: int, now: int): int
  {
    TruncDiv(now - since, TicksPerSecond)
  }

  /** The debounce test of an image event: elapsed whole seconds exceed `2 * seconds()`. */
  predicate DebouncePassed(lastSwipe: int, now: int)
  {
    WholeSecondsBetween(lastSwipe, now) > 2 * DefaultSeconds
  }

  /** Because `2 * seconds()` is zero, the debounce passes exactly when one full second has elapsed. */
  lemma DebounceIsOneSecond(lastSwipe: int, now: int)
    ensures DebouncePassed(lastSwipe, now) <==> now - lastSwipe >= TicksPerSecond
  {
    var d := now - lastSwipe;
    if d >= TicksPerSecond {
      assert d / TicksPerSecond >= 1;
    } else if d >= 0 {
      assert d / TicksPerSecond == 0;
    }
  }

  // ---------------------------------------------------------------------------
  // The handler

  class LeapHandler {
    /** Ring of bright upper pixel counts, one slot per image. */
    var ring: array<uint32>
    /** Slot the next count is written to. */
    var nextIndex: nat
    /** The swipe latch: raised by an image event, read and cleared by `SwipeDetected`. */
    var swipeLatch: bool
    /** Steady-clock time of the last recorded swipe. */
    var lastSwipe: int

    ghost predicate Valid()
      reads this
    {
      ring.Length == RingSize && nextIndex < RingSize
    }

    /** A handler created at time `now`: an all-zero ring, writing to slot 0, no swipe. */
    constructor (now: int)
      ensures Valid() && fresh(ring)
      ensures ring[..] == ZeroRing()
      ensures nextIndex == 0 && !swipeLatch && lastSwipe == now
    {
      ring := new uint32[RingSize](_ => 0);
      nextIndex := 0;
      swipeLatch := false;
      lastSwipe := now;
    }

    /** Counts the bright pixels of the upper half of the image and pushes the count into the ring. */
    method UpdateBrightUpperPixels(width: nat, height: nat, image: seq<byte>)
      requires Valid()
      requires UpperLength(width, height) <= |image|
      modifies this`nextIndex, ring
      ensures Valid() && ring == old(ring)
      ensures ring[..] == old(ring[..])[old(nextIndex) := StoredCount(BrightUpperCount(width, height, image))]
      ensures nextIndex == (old(nextIndex) + 1) % RingSize
      ensures Recent(ring[..], nextIndex, 1) == StoredCount(BrightUpperCount(width, height, image))
    {
      var count: nat := 0;
      ghost var done := 0;  // samples examined so far, in row-major order
      var y := 0;
      while y < height / 2
        modifies {}
        invariant 0 <= y <= height / 2
        invariant done == y * width <= UpperLength(width, height)
        invariant count == CountAtLeast(image[..done], BrightThreshold)
      {
        MulMono(y + 1, height / 2, width);
        assert done + width == (y + 1) * width <= UpperLength(width, height);
        var x := 0;
        while x < width
          modifies {}
          invariant 0 <= x <= width
          invariant done == y * width + x
          invariant count == CountAtLeast(image[..done], BrightThreshold)
        {
          var i := y * width + x;
          assert image[..i + 1][..i] == image[..i];
          if image[i] >= BrightThreshold {
            count := count + 1;
          }
          x := x + 1;
          done := done + 1;
        }
        y := y + 1;
      }
      ring[nextIndex] := StoredCount(count);
      PushShiftsHistory(old(ring[..]), nextIndex, StoredCount(count));
      nextIndex := nextIndex + 1;
      if nextIndex == ring.Length {
        nextIndex := 0;
      }
    }

    /** Length of the rising run of high counts ending at the newest entry; reads the ring only. */
    method CountLastBUPIncreasing() returns (result: nat)
      requires Valid()
      ensures result == RunLength(ring[..], nextIndex)
      ensures result <= RingSize
      ensures IsLongestRun(ring[..], nextIndex, result)
      ensures Recent(ring[..], nextIndex, 1) < RunThreshold ==> result == 0
    {
      result := 0;
      var last: uint32 := UINT32_MAX;
      var i := 1;
      while i <= ring.Length
        invariant 1 <= i <= RingSize + 1
        invariant result == i - 1
        invariant last == Bound(ring[..], nextIndex, i)
        invariant RunFrom(ring[..], nextIndex, i) == RunLength(ring[..], nextIndex)
      {
        var index := nextIndex - i;
        index := if index < 0 then index + ring.Length else index;
        var value := ring[index];
        if value < RunThreshold {
          break;
        }
        if value < last {
          result := result + 1;
          last := value;
        } else {
          break;
        }
        i := i + 1;
      }
      RunLengthIsLongest(ring[..], nextIndex);
    }

    /** Returns whether a swipe was detected since the last call, and clears the latch. */
    method SwipeDetected() returns (detected: bool)
      modifies this`swipeLatch
      ensures detected == old(swipeLatch) && !swipeLatch
    {
      detected := swipeLatch;
      swipeLatch := false;
    }

    /**
     * The image branch of the polling loop: push the image's bright upper count, raise the
     * swipe latch if the newest run is long enough and the debounce passes, then hand the
     * image to the frame store.
     */
    method OnImage(width: nat, height: nat, image: seq<byte>, now: int, graphics: Graphics.GraphicsManager)
      requires Valid() && graphics.Valid()
      requires width * height <= |image|
      modifies this, ring, graphics, graphics.pixels
      ensures Valid() && ring == old(ring)
      ensures ring[..] == old(ring[..])[old(nextIndex) := StoredCount(BrightUpperCount(width, height, image))]
      ensures nextIndex == (old(nextIndex) + 1) % RingSize
      ensures var swipe := RunLength(ring[..], nextIndex) >= SwipeRunLength && DebouncePassed(old(lastSwipe), now);
              if swipe then swipeLatch && lastSwipe == now
              else swipeLatch == old(swipeLatch) && lastSwipe == old(lastSwipe)
      ensures graphics.Valid()
      ensures graphics.width == width && graphics.height == height
      ensures graphics.pixels[..] == image[..width * height]
      ensures graphics.frameChanged
      ensures graphics.dimensionsChanged ==
                (old(graphics.dimensionsChanged) || width != old(graphics.width) || height != old(graphics.height))
      ensures graphics.dimensionsChanged ==> fresh(graphics.pixels)
      ensures !graphics.dimensionsChanged ==> graphics.pixels == old(graphics.pixels)
      ensures graphics.updated == old(graphics.updated) && graphics.uploads == old(graphics.uploads)
    {
      UpperWithinImage(width, height);
      UpdateBrightUpperPixels(width, height, image);
      var run := CountLastBUPIncreasing();
      if run >= SwipeRunLength {
        var current := now;
        if WholeSecondsBetween(lastSwipe, current) > 2 * DefaultSeconds {
          lastSwipe := current;
          swipeLatch := true;
        }
      }
      graphics.SetFrame(width, height, image);
    }
  }

  /** Two consecutive reads of the latch never both report a swipe. */
  method SwipeReportedOnce(handler: LeapHandler) returns (first: bool, second: bool)
    modifies handler
    ensures !second
    ensures first == old(handler.swipeLatch)
  {
    first := handler.SwipeDetected();
    second := handler.SwipeDetected();
  }

  // ---------------------------------------------------------------------------
  // Worked examples

  /** The ring after pushing the given counts onto a fresh handler's all-zero ring. */
  function AfterPushes(counts: seq<uint32>): (ring: seq<uint32>)
    requires |counts| <= RingSize
    ensures |ring| == RingSize
  {
    if counts == [] then ZeroRing()
    else AfterPushes(counts[..|counts| - 1])[|counts| - 1 := counts[|counts| - 1]]
  }

  /** After pushing `counts` onto a fresh ring, slot i holds the i-th count, and the untouched slots are still zero. */
  lemma {:induction false} AfterPushesAt(counts: seq<uint32>, i: nat)
    requires |counts| <= RingSize && i < RingSize
    ensures AfterPushes(counts)[i] == if i < |counts| then counts[i] else 0
  {
    if counts != [] {
      AfterPushesAt(counts[..|counts| - 1], i);
    }
  }

  /** The counts of the rising example, oldest first. */
  const RisingCounts: seq<uint32> := [31000, 35000, 40000, 45000, 50000]

  /** Counts rising through 31000, 35000, 40000, 45000, 50000 make a run of five: a swipe. */
  lemma RisingCountsSwipe()
    ensures RunLength(AfterPushes(RisingCounts), 5) == 5
  {
    var counts := RisingCounts;
    var r := AfterPushes(counts);
    forall i | 0 <= i < RingSize ensures r[i] == if i < 5 then counts[i] else 0 {
      AfterPushesAt(counts, i);
    }
    assert RunFrom(r, 5, 6) == 5;
  }

  /** Counts 31000, 35000, 30000, 45000, 50000 make a run of only three: no swipe. */
  lemma BrokenCountsNoSwipe()
    ensures RunLength(AfterPushes([31000, 35000, 30000, 45000, 50000]), 5) == 3
  {
    var counts: seq<uint32> := [31000, 35000, 30000, 45000, 50000];
    var r := AfterPushes(counts);
    forall i | 0 <= i < RingSize ensures r[i] == if i < 5 then counts[i] else 0 {
      AfterPushesAt(counts, i);
    }
    assert RunFrom(r, 5, 4) == 3;
  }

  /** An image one sample wide and 2c rows tall with every sample 255. */
  function BrightColumn(c: nat): seq<byte>
  {
    seq(2 * c, _ => 255)
  }

  /** A run of n samples of 255 holds n bright samples. */
  lemma {:induction false} AllBrightCount(n: nat)
    ensures CountAtLeast(seq(n, _ => 255 as byte), BrightThreshold) == n
  {
    if n > 0 {
      assert seq(n, _ => 255 as byte)[..n - 1] == seq(n - 1, _ => 255 as byte);
      AllBrightCount(n - 1);
    }
  }

  /** The upper half of `BrightColumn(c)` holds exactly c bright pixels. */
  lemma BrightColumnCount(c: nat)
    ensures BrightUpperCount(1, 2 * c, BrightColumn(c)) == c
  {
    assert BrightColumn(c)[..UpperLength(1, 2 * c)] == seq(c, _ => 255 as byte);
    AllBrightCount(c);
  }

  /** Pushing the rising example's counts onto a fresh ring writes them into slots 0 to 4. */
  lemma RisingPushes()
    ensures AfterPushes(RisingCounts) == ZeroRing()[0 := 31000][1 := 35000][2 := 40000][3 := 45000][4 := 50000]
  {
    var c := RisingCounts;
    assert c[..0] == [];
    assert c[..1][..0] == c[..0] && c[..2][..1] == c[..1] && c[..3][..2] == c[..2];
    assert c[..4][..3] == c[..3] && c[..5][..4] == c[..4] && c[..5] == c;
    assert AfterPushes(c[..1]) == ZeroRing()[0 := 31000];
    assert AfterPushes(c[..2]) == ZeroRing()[0 := 31000][1 := 35000];
    assert AfterPushes(c[..3]) == ZeroRing()[0 := 31000][1 := 35000][2 := 40000];
    assert AfterPushes(c[..4]) == ZeroRing()[0 := 31000][1 := 35000][2 := 40000][3 := 45000];
  }

  /** A ring holding the rising example in slots 0 to 4, read with the next write going to slot 5, has a run of five. */
  lemma RisingRingRun(ring: seq<uint32>, next: nat)
    requires ring == ZeroRing()[0 := 31000][1 := 35000][2 := 40000][3 := 45000][4 := 50000] && next == 5
    ensures RunLength(ring, next) == SwipeRunLength
  {
    RisingPushes();
    RisingCountsSwipe();
  }

  /** Feeds the handler the image `BrightColumn(c)`, whose bright upper count is c. */
  method PushBrightColumn(handler: LeapHandler, c: uint32)
    requires handler.Valid()
    modifies handler`nextIndex, handler.ring
    ensures handler.Valid() && handler.ring == old(handler.ring)
    ensures handler.ring[..] == old(handler.ring[..])[old(handler.nextIndex) := c]
    ensures handler.nextIndex == (old(handler.nextIndex) + 1) % RingSize
  {
    BrightColumnCount(c as nat);
    handler.UpdateBrightUpperPixels(1, 2 * c as nat, BrightColumn(c as nat));
  }

  /** Delivers the image event `BrightColumn(c)` at time `now`, as the polling loop does. */
  method ShowBrightColumn(handler: LeapHandler, graphics: Graphics.GraphicsManager, c: uint32, now: int)
    requires handler.Valid() && graphics.Valid()
    modifies handler, handler.ring, graphics, graphics.pixels
    ensures handler.Valid() && handler.ring == old(handler.ring)
    ensures handler.ring[..] == old(handler.ring[..])[old(handler.nextIndex) := c]
    ensures handler.nextIndex == (old(handler.nextIndex) + 1) % RingSize
    ensures (RunLength(handler.ring[..], handler.nextIndex) >= SwipeRunLength && DebouncePassed(old(handler.lastSwipe), now))
              ==> handler.swipeLatch
  {
    BrightColumnCount(c as nat);
    assert StoredCount(BrightUpperCount(1, 2 * c as nat, BrightColumn(c as nat))) == c;
    handler.OnImage(1, 2 * c as nat, BrightColumn(c as nat), now, graphics);
  }

  /** A handler created at `start` that has seen the first four images of the rising example. */
  method FourRisingImages(start: int) returns (handler: LeapHandler)
    ensures fresh(handler) && fresh(handler.ring) && handler.Valid()
    ensures handler.ring[..] == ZeroRing()[0 := 31000][1 := 35000][2 := 40000][3 := 45000]
    ensures handler.nextIndex == 4
    ensures handler.lastSwipe == start
  {
    handler := new LeapHandler(start);
    PushBrightColumn(handler, 31000);
    PushBrightColumn(handler, 35000);
    PushBrightColumn(handler, 40000);
    PushBrightColumn(handler, 45000);
  }

  /**
   * A fresh handler fed five images whose bright upper counts rise through 31000, 35000, 40000,
   * 45000 and 50000 finds a run of five; when the fifth image arrives at least one second after
   * the handler was created, the latch is raised and the next read reports the swipe.
   */
  method RisingImagesRaiseSwipe(start: int, now: int) returns (run: nat, detected: bool)
    requires now - start >= TicksPerSecond
    ensures run == 5 && detected
  {
    var handler := FourRisingImages(start);
    var graphics := new Graphics.GraphicsManager(0, 0);
    ShowBrightColumn(handler, graphics, 50000, now);
    RisingRingRun(handler.ring[..], handler.nextIndex);
    DebounceIsOneSecond(start, now);
    run := handler.CountLastBUPIncreasing();
    detected := handler.SwipeDetected();
  }
}
