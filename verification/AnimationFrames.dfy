// The frame an animated image shows (CachedFrames in src/messages/Image.cpp).

module AnimationFrames {

  const GIF_FRAME_LENGTH := 20

  // A frame, for which only its duration in milliseconds matters here.
  function Total(durations: seq<int>, n: nat): int
    requires n <= |durations|
  {
    if n == 0 then 0 else Total(durations, n - 1) + durations[n - 1]
  }

  function Length(durations: seq<int>): int {
    Total(durations, |durations|)
  }

  // What readFrames makes of the delay an image reader reports.
  function FrameDuration(nextImageDelay: int): (d: int)
    ensures d >= 20
    ensures nextImageDelay >= 20 ==> d == nextImageDelay
    ensures 10 < nextImageDelay < 20 ==> d == 20
    ensures nextImageDelay <= 10 ==> d == 100
  {
    var duration := if nextImageDelay <= 10 then 100 else nextImageDelay;
    if duration < 20 then 20 else duration
  }

  predicate NonNegative(durations: seq<int>) {
    forall i :: 0 <= i < |durations| ==> durations[i] >= 0
  }

  lemma {:induction false} TotalGrows(durations: seq<int>, m: nat, n: nat)
    requires NonNegative(durations) && m <= n <= |durations|
    ensures 0 <= Total(durations, m) <= Total(durations, n)
    ensures Total(durations, m) < Total(durations, n) ==> exists i :: m <= i < n && durations[i] > 0
  {
    if m < n {
      TotalGrows(durations, m, n - 1);
    } else if m > 0 {
      TotalGrows(durations, m - 1, m - 1);
    }
  }

  // The position in the animation, counted in milliseconds from its start.
  function Phase(durations: seq<int>, index: nat, offset: int): int
    requires index < |durations|
  {
    Total(durations, index) + offset
  }

  // x and y are the same moment of an animation of the given length.
  ghost predicate SameMoment(x: int, y: int, length: int) {
    exists k: int :: IsLapsApart(x, y, length, k)
  }

  ghost predicate IsLapsApart(x: int, y: int, length: int, k: int) {
    x == y + k * length
  }

  lemma SameMomentTransitive(x: int, y: int, z: int, length: int)
    requires SameMoment(x, y, length) && SameMoment(y, z, length)
    ensures SameMoment(x, z, length)
  {
    var j: int :| IsLapsApart(x, y, length, j);
    var k: int :| IsLapsApart(y, z, length, k);
    assert j * length + k * length == (j + k) * length;
    assert IsLapsApart(x, z, length, j + k);
  }

  lemma SameMomentShift(x: int, y: int, d: int, length: int)
    requires SameMoment(x, y, length)
    ensures SameMoment(x + d, y + d, length)
  {
    var k: int :| IsLapsApart(x, y, length, k);
    assert IsLapsApart(x + d, y + d, length, k);
  }

  // The frame that is shown at a moment: the first one that has not ended
  // before it.  A frame is shown up to and including its last millisecond.
  ghost predicate IsFrameAt(durations: seq<int>, moment: int, index: nat) {
    && index < |durations|
    && Total(durations, index) < moment <= Total(durations, index + 1)
  }

  lemma FrameIsUnique(durations: seq<int>, moment: int, i: nat, j: nat)
    requires NonNegative(durations) && IsFrameAt(durations, moment, i) && IsFrameAt(durations, moment, j)
    ensures i == j
  {
    if i < j {
      TotalGrows(durations, i + 1, j);
    } else if j < i {
      TotalGrows(durations, j + 1, i);
    }
  }

  // The moment in 1..length that x milliseconds after the start falls on.
  function Moment(x: int, length: int): (m: int)
    requires length > 0
    ensures 1 <= m <= length
  {
    (x - 1) % length + 1
  }

  lemma MomentOfLap(x: int, y: int, length: int)
    requires length > 0 && SameMoment(x, y, length) && 1 <= x <= length
    ensures x == Moment(y, length)
  {
    var k: int :| IsLapsApart(x, y, length, k);
    assert y - 1 == (-k) * length + (x - 1);
    RemainderIsUnique(y - 1, length, -k, x - 1);
  }

  lemma RemainderIsUnique(a: int, n: int, q: int, r: int)
    requires n > 0 && a == q * n + r && 0 <= r < n
    ensures a % n == r
  {
    var d := q - a / n;
    assert d * n == a % n - r by {
      assert a == a / n * n + a % n;
      assert d * n == q * n - a / n * n;
    }
    AtLeastOnce(d, n);
  }

  lemma AtLeastOnce(d: int, n: int)
    requires n > 0
    ensures d >= 1 ==> d * n >= n
    ensures d <= -1 ==> d * n <= -n
    ensures d == 0 ==> d * n == 0
  {
  }

  function Wrap(i: nat, n: nat): (r: nat)
    requires n > 0
    ensures r < n && (i < n ==> r == i)
  {
    i % n
  }

  // (i + 1) % n
  function Next(i: nat, n: nat): (r: nat)
    requires i < n
    ensures r == if i + 1 == n then 0 else i + 1
  {
    (i + 1) % n
  }

  // How many frames the loop may still skip without using up time.
  ghost function Skips(durations: seq<int>, index: nat): nat
    requires index < |durations|
  {
    if exists i :: index <= i < |durations| && durations[i] > 0 then |durations| - index
    else 2 * |durations| - index
  }

  // int(x) of a 64-bit unsigned value.
  function ToInt32(x: int): (r: int)
    requires x >= 0
    ensures -0x8000_0000 <= r < 0x8000_0000
  {
    var low := x % 0x1_0000_0000;
    if low < 0x8000_0000 then low else low - 0x1_0000_0000
  }

  class CachedFrames {
    const durations: seq<int>
    var index: nat
    var durationOffset: int

    constructor (durations: seq<int>)
      ensures this.durations == durations && index == 0 && durationOffset == 0
    {
      this.durations := durations;
      index, durationOffset := 0, 0;
    }

    ghost predicate Valid()
      reads this
    {
      && durations != [] && NonNegative(durations) && Length(durations) > 0
      && index < |durations|
      && 0 <= durationOffset <= durations[index]
    }

    // Moves on to the frame the offset belongs to.  This stops because the
    // animation has a length; without one the offset has to be zero.
    method ProcessOffset()
      requires NonNegative(durations)
      requires durations == [] || Length(durations) > 0 || durationOffset <= 0
      modifies this
      ensures durations == [] ==> index == old(index) && durationOffset == old(durationOffset)
      ensures durations != [] ==>
                var first := Wrap(old(index), |durations|);
                && index < |durations|
                && durationOffset <= durations[index]
                && (if old(durationOffset) > durations[first] then durationOffset > 0
                    else index == first && durationOffset == old(durationOffset))
                && SameMoment(Phase(durations, index, durationOffset),
                              Phase(durations, first, old(durationOffset)), Length(durations))
    {
      if durations == [] {
        return;
      }
      index := Wrap(index, |durations|);
      ghost var first, offset := index, durationOffset;
      ghost var start := Phase(durations, first, offset);
      assert IsLapsApart(start, start, Length(durations), 0);
      while durationOffset > durations[index]
        invariant index < |durations|
        invariant SameMoment(Phase(durations, index, durationOffset), start, Length(durations))
        invariant if offset > durations[first] then durationOffset > 0 else index == first && durationOffset == offset
        decreases durationOffset, Skips(durations, index)
      {
        ghost var before := Phase(durations, index, durationOffset);
        SkipFrame(durations, index);
        durationOffset := durationOffset - durations[index];
        index := Next(index, |durations|);
        NextFrame(durations, before, Phase(durations, index, durationOffset), index);
        SameMomentTransitive(Phase(durations, index, durationOffset), before, start, Length(durations));
      }
    }

    // One tick of the shared timer.
    method Advance()
      requires Valid()
      modifies this
      ensures Valid() && durationOffset > 0
      ensures SameMoment(Phase(durations, index, durationOffset),
                         old(Phase(durations, index, durationOffset)) + GIF_FRAME_LENGTH, Length(durations))
    {
      ghost var before := Phase(durations, index, durationOffset);
      durationOffset := durationOffset + GIF_FRAME_LENGTH;
      assert Phase(durations, index, durationOffset) == before + GIF_FRAME_LENGTH;
      ProcessOffset();
    }

    // k ticks: where the animation is follows from where it started alone.
    method AdvanceTimes(k: nat)
      requires Valid()
      modifies this
      ensures Valid()
      ensures SameMoment(Phase(durations, index, durationOffset),
                         old(Phase(durations, index, durationOffset)) + k * GIF_FRAME_LENGTH, Length(durations))
      ensures k > 0 ==>
                Length(durations) > 0 &&
                var start := old(Phase(durations, index, durationOffset));
                var moment := Moment(start + k * 20, Length(durations));
                IsFrameAt(durations, moment, index) && durationOffset == moment - Total(durations, index)
    {
      ghost var start, length := Phase(durations, index, durationOffset), Length(durations);
      assert IsLapsApart(start, start, length, 0);
      var i := 0;
      while i < k
        invariant 0 <= i <= k
        invariant Valid() && (i > 0 ==> durationOffset > 0)
        invariant SameMoment(Phase(durations, index, durationOffset), start + i * GIF_FRAME_LENGTH, length)
      {
        ghost var before := Phase(durations, index, durationOffset);
        Advance();
        SameMomentShift(before, start + i * GIF_FRAME_LENGTH, GIF_FRAME_LENGTH, length);
        SameMomentTransitive(Phase(durations, index, durationOffset), before + GIF_FRAME_LENGTH,
                             start + (i + 1) * GIF_FRAME_LENGTH, length);
        i := i + 1;
      }
      if k > 0 {
        TotalGrows(durations, 0, index);
        TotalGrows(durations, index + 1, |durations|);
        MomentOfLap(Phase(durations, index, durationOffset), start + k * GIF_FRAME_LENGTH, length);
      }
    }

    // Starts in step with the other images of the same length.  The position
    // is cut down to an int before it is capped.
    method Start(position: nat)
      requires NonNegative(durations) && index == 0 && durationOffset == 0
      modifies this
      ensures |durations| <= 1 || Length(durations) == 0 ==> index == 0 && durationOffset == 0
      ensures |durations| > 1 && Length(durations) > 0 ==>
                var offset := StartOffset(position, Length(durations));
                && index < |durations|
                && (offset >= 0 <==> Valid())
                && SameMoment(Phase(durations, index, durationOffset), offset, Length(durations))
    {
      TotalGrows(durations, 0, |durations|);
      if |durations| <= 1 {
        return;
      }
      var totalLength := 0;
      var i := 0;
      while i < |durations|
        invariant 0 <= i <= |durations| && totalLength == Total(durations, i)
      {
        totalLength := totalLength + durations[i];
        i := i + 1;
      }
      if totalLength == 0 {
        durationOffset := 0;
      } else {
        var p := ToInt32(position % totalLength);
        durationOffset := if p < 60000 then p else 60000;
      }
      ProcessOffset();
    }
  }

  lemma NextFrame(durations: seq<int>, before: int, after: int, next: nat)
    requires durations != [] && next < |durations|
    requires var i := if next == 0 then |durations| - 1 else next - 1;
             before - Total(durations, i) == after - Total(durations, next) + durations[i]
    ensures SameMoment(after, before, Length(durations))
  {
    assert IsLapsApart(after, before, Length(durations), if next == 0 then -1 else 0);
  }

  lemma SkipFrame(durations: seq<int>, index: nat)
    requires NonNegative(durations) && Length(durations) > 0 && index < |durations|
    ensures durations[index] > 0 || Skips(durations, Next(index, |durations|)) < Skips(durations, index)
  {
    TotalGrows(durations, 0, |durations|);
  }

  function StartOffset(position: nat, length: int): int
    requires length > 0
  {
    var p := ToInt32(position % length);
    if p < 60000 then p else 60000
  }

  // An animation starts at a moment of its own exactly if the position fits the
  // int it is stored in; every animation shorter than 2^31 ms does.
  lemma StartResult(position: nat, length: int)
    requires length > 0
    ensures StartOffset(position, length) >= 0 <==> position % length % 0x1_0000_0000 < 0x8000_0000
    ensures length <= 0x8000_0000 ==>
              StartOffset(position, length) == if position % length < 60000 then position % length else 60000
  {
  }

  lemma LongAnimationStartsBeforeItself()
    ensures StartOffset(0x8000_0000, 0x8000_0001) < 0
  {
  }
}
