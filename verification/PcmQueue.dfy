/**
 The PCM ring between the AMR decoder thread and the audio interrupt callback of
 Host/AMR/sample/decode.c. The decoder writes frames at the tail, which may rest at
 the ring length; the callback reads at the head, which is always reduced. Neither
 side looks at the other's index.
 */
module PcmQueue {
  import opened Words

  const QUEUE_LEN := 2048 * 1024
  const FRAME_BYTES := 160 * 2

  newtype Byte = b: int | 0 <= b < 0x100

  /** One decoded frame stored, or one callback served; each is an atomic step. */
  datatype Event = FrameDecoded(frame: seq<Byte>) | BufferRequested(size: nat)

  // --------------------------------------------------------------------------
  // What the ring holds and what the callback hands out, as functions of the history
  // --------------------------------------------------------------------------

  /** All bytes produced by a history. */
  function Stream(history: seq<Event>): seq<Byte> {
    if history == [] then []
    else
      var before, last := Stream(history[..|history| - 1]), history[|history| - 1];
      if last.FrameDecoded? then before + last.frame else before
  }

  /** Ring position of a stream position. */
  function Slot(k: int): (pos: nat)
    ensures pos < QUEUE_LEN
  {
    k % QUEUE_LEN
  }

  /** The newest of the first n stream positions that falls on ring position pos. */
  function Newest(n: nat, pos: nat): (i: nat)
    requires pos < n && pos < QUEUE_LEN
    ensures Slot(i) == pos && n - QUEUE_LEN <= i < n
  {
    n - 1 - Slot(n - 1 - pos)
  }

  /** Byte of the ring at pos, over what was there before the run. */
  function RingAt(stream: seq<Byte>, initial: seq<Byte>, pos: nat): Byte
    requires |initial| == QUEUE_LEN && pos < QUEUE_LEN
  {
    if pos < |stream| then stream[Newest(|stream|, pos)] else initial[pos]
  }

  /** Bytes handed out by a request for `size` bytes when `consumed` were handed out before. */
  function Handout(stream: seq<Byte>, initial: seq<Byte>, consumed: nat, size: nat): (out: seq<Byte>)
    requires |initial| == QUEUE_LEN
    ensures |out| == size
    ensures forall j :: 0 <= j < size ==> out[j] == RingAt(stream, initial, Slot(consumed + j))
  {
    seq(size, j requires 0 <= j => RingAt(stream, initial, Slot(consumed + j)))
  }

  /** Everything the callback delivered over a history. */
  function Played(history: seq<Event>, initial: seq<Byte>): seq<Byte>
    requires |initial| == QUEUE_LEN
  {
    if history == [] then []
    else
      var earlier, last := history[..|history| - 1], history[|history| - 1];
      var before := Played(earlier, initial);
      if last.BufferRequested?
      then before + Handout(Stream(earlier), initial, |before|, last.size)
      else before
  }

  // --------------------------------------------------------------------------
  // Which requests get the decoded stream
  // --------------------------------------------------------------------------

  function Requested(history: seq<Event>): nat {
    if history == [] then 0
    else
      var last := history[|history| - 1];
      Requested(history[..|history| - 1]) + if last.BufferRequested? then last.size else 0
  }

  lemma AppendFrame(history: seq<Event>, frame: seq<Byte>, initial: seq<Byte>)
    requires |initial| == QUEUE_LEN
    ensures var longer := history + [FrameDecoded(frame)];
      && Stream(longer) == Stream(history) + frame
      && Played(longer, initial) == Played(history, initial)
  {
    var longer := history + [FrameDecoded(frame)];
    assert longer[..|longer| - 1] == history;
  }

  lemma FrameRequestsNothing(history: seq<Event>, frame: seq<Byte>)
    ensures Requested(history + [FrameDecoded(frame)]) == Requested(history)
  {
    assert (history + [FrameDecoded(frame)])[..|history|] == history;
  }

  lemma AppendRequest(history: seq<Event>, size: nat, initial: seq<Byte>)
    requires |initial| == QUEUE_LEN
    ensures var longer := history + [BufferRequested(size)];
      && Stream(longer) == Stream(history)
      && Requested(longer) == Requested(history) + size
      && Played(longer, initial)
         == Played(history, initial) + Handout(Stream(history), initial, |Played(history, initial)|, size)
  {
    var longer := history + [BufferRequested(size)];
    assert longer[..|longer| - 1] == history;
  }

  lemma {:induction false} PlayedLength(history: seq<Event>, initial: seq<Byte>)
    requires |initial| == QUEUE_LEN
    ensures |Played(history, initial)| == Requested(history)
  {
    if history != [] {
      PlayedLength(history[..|history| - 1], initial);
    }
  }

  /** What was produced, delivered and asked for up to a step stays. */
  lemma {:induction false} HistoryGrows(history: seq<Event>, initial: seq<Byte>, i: nat)
    requires |initial| == QUEUE_LEN && i <= |history|
    ensures Stream(history[..i]) <= Stream(history)
    ensures Played(history[..i], initial) <= Played(history, initial)
    ensures Requested(history[..i]) <= Requested(history)
  {
    if i < |history| {
      var n := |history| - 1;
      HistoryGrows(history[..n], initial, i);
      assert history[..n][..i] == history[..i];
    } else {
      assert history[..i] == history;
    }
  }

  /** The stream is the frames of the history end to end: frame i follows what was decoded before it. */
  lemma FrameInStream(history: seq<Event>, i: nat)
    requires i < |history| && history[i].FrameDecoded?
    ensures var from := |Stream(history[..i])|;
      var to := from + |history[i].frame|;
      && to == |Stream(history[..i + 1])| <= |Stream(history)|
      && Stream(history)[from..to] == history[i].frame
  {
    var before := history[..i];
    assert history[..i + 1] == before + [history[i]];
    AppendFrame(before, history[i].frame, SILENCE);
    HistoryGrows(history, SILENCE, i + 1);
    AppendedSlice(Stream(before), history[i].frame, |Stream(before)|);
    SliceOfPrefix(Stream(history[..i + 1]), Stream(history), |Stream(before)|, |Stream(before)| + |history[i].frame|);
  }

  /** Request i finds its bytes produced and not more than one lap old. */
  predicate PacedAt(history: seq<Event>, i: nat)
    requires i < |history| && history[i].BufferRequested?
  {
    var produced, consumed := |Stream(history[..i])|, Requested(history[..i]);
    consumed + history[i].size <= produced <= consumed + QUEUE_LEN
  }

  /** Request i was answered with the stretch of the stream that was due. */
  ghost predicate Delivered(history: seq<Event>, initial: seq<Byte>, i: nat)
    requires |initial| == QUEUE_LEN && i < |history| && history[i].BufferRequested?
  {
    var from := Requested(history[..i]);
    var to := from + history[i].size;
    && to <= |Stream(history)| && to <= |Played(history, initial)|
    && Played(history, initial)[from..to] == Stream(history)[from..to]
  }

  /** In every history, whatever happened before or after, a paced request gets its stretch of the stream. */
  lemma PacedRequestDelivered(history: seq<Event>, initial: seq<Byte>, i: nat)
    requires |initial| == QUEUE_LEN && i < |history| && history[i].BufferRequested? && PacedAt(history, i)
    ensures Delivered(history, initial, i)
  {
    var before, now := history[..i], history[..i + 1];
    var from, size := Requested(before), history[i].size;
    PlayedLength(before, initial);
    InWindow(Stream(before), initial, from, size);
    assert now == before + [BufferRequested(size)];
    AppendRequest(before, size, initial);
    AppendedSlice(Played(before, initial), Stream(before)[from..from + size], from);
    HistoryGrows(history, initial, i);
    HistoryGrows(history, initial, i + 1);
    SliceOfPrefix(Played(now, initial), Played(history, initial), from, from + size);
    SliceOfPrefix(Stream(before), Stream(history), from, from + size);
  }

  lemma AppendedSlice(a: seq<Byte>, b: seq<Byte>, from: nat)
    requires |a| == from
    ensures (a + b)[from..from + |b|] == b
  {
  }

  lemma SliceOfPrefix(a: seq<Byte>, s: seq<Byte>, from: nat, to: nat)
    requires a <= s && from <= to <= |a|
    ensures s[from..to] == a[from..to]
  {
  }

  /** The request that handed out byte k. */
  function Holder(history: seq<Event>, k: nat): (i: nat)
    requires k < Requested(history)
    ensures i < |history| && history[i].BufferRequested?
    ensures Requested(history[..i]) <= k < Requested(history[..i]) + history[i].size
  {
    var n := |history| - 1;
    if k < Requested(history[..n]) then
      var i := Holder(history[..n], k);
      assert history[..n][..i] == history[..i];
      i
    else n
  }

  /** Byte k of everything delivered is what its ring position held when the request that holds it came. */
  lemma HandedOut(history: seq<Event>, initial: seq<Byte>, i: nat, k: nat)
    requires |initial| == QUEUE_LEN && i < |history| && history[i].BufferRequested?
    requires Requested(history[..i]) <= k < Requested(history[..i]) + history[i].size
    ensures k < |Played(history, initial)|
    ensures Played(history, initial)[k] == RingAt(Stream(history[..i]), initial, Slot(k))
  {
    var before, size := history[..i], history[i].size;
    var from := Requested(before);
    PlayedLength(before, initial);
    assert history[..i + 1] == before + [BufferRequested(size)];
    AppendRequest(before, size, initial);
    var out := Handout(Stream(before), initial, from, size);
    assert out[k - from] == RingAt(Stream(before), initial, Slot(from + (k - from)));
    HistoryGrows(history, initial, i + 1);
  }

  ghost predicate DeliveredByte(history: seq<Event>, initial: seq<Byte>, k: nat)
    requires |initial| == QUEUE_LEN
  {
    && k < |Stream(history)| && k < |Played(history, initial)|
    && Played(history, initial)[k] == Stream(history)[k]
  }

  /** Byte k of everything delivered is byte k of the stream if the request that held it was paced. */
  lemma PacedByteDelivered(history: seq<Event>, initial: seq<Byte>, k: nat)
    requires |initial| == QUEUE_LEN && k < Requested(history) && PacedAt(history, Holder(history, k))
    ensures DeliveredByte(history, initial, k)
  {
    var i := Holder(history, k);
    PacedRequestDelivered(history, initial, i);
    var from := Requested(history[..i]);
    SameSliceSameByte(Played(history, initial), Stream(history), from, from + history[i].size, k);
  }

  lemma SameSliceSameByte(a: seq<Byte>, b: seq<Byte>, from: nat, to: nat, k: nat)
    requires from <= k < to && to <= |a| && to <= |b| && a[from..to] == b[from..to]
    ensures a[k] == b[k]
  {
    assert a[from..to][k - from] == b[from..to][k - from];
  }

  // --------------------------------------------------------------------------
  // Pacing is exactly what is needed
  // --------------------------------------------------------------------------

  /** The same calls with frames of the same lengths, whatever they contain. */
  ghost predicate SameShape(a: seq<Event>, b: seq<Event>) {
    |a| == |b| && forall i :: 0 <= i < |a| ==> SameKind(a[i], b[i])
  }

  predicate SameKind(a: Event, b: Event) {
    if a.FrameDecoded? then b.FrameDecoded? && |a.frame| == |b.frame| else a == b
  }

  lemma {:induction false} ShapeCounts(a: seq<Event>, b: seq<Event>)
    requires SameShape(a, b)
    ensures |Stream(a)| == |Stream(b)| && Requested(a) == Requested(b)
    decreases |a|
  {
    if a != [] {
      var n := |a| - 1;
      assert SameKind(a[n], b[n]);
      forall i | 0 <= i < n
        ensures SameKind(a[..n][i], b[..n][i])
      {
        assert SameKind(a[i], b[i]);
      }
      ShapeCounts(a[..n], b[..n]);
    }
  }

  lemma ShapePacing(a: seq<Event>, b: seq<Event>, i: nat)
    requires SameShape(a, b) && i < |a| && a[i].BufferRequested?
    ensures b[i].BufferRequested? && PacedAt(a, i) == PacedAt(b, i)
  {
    assert SameKind(a[i], b[i]);
    forall j | 0 <= j < i
      ensures SameKind(a[..i][j], b[..i][j])
    {
      assert SameKind(a[j], b[j]);
    }
    ShapeCounts(a[..i], b[..i]);
  }

  function Mark(k: int, p: int): Byte {
    if p == k then 1 else 0
  }

  /** The history with a stream that is 1 at position k and 0 elsewhere. */
  function Marked(history: seq<Event>, k: int): (marked: seq<Event>)
    ensures |marked| == |history|
  {
    if history == [] then []
    else
      var n := |history| - 1;
      var last, start := history[n], |Stream(history[..n])|;
      Marked(history[..n], k) +
      [if last.FrameDecoded? then FrameDecoded(seq(|last.frame|, j => Mark(k, start + j))) else last]
  }

  lemma {:induction false} MarkedStream(history: seq<Event>, k: int)
    ensures |Stream(Marked(history, k))| == |Stream(history)|
    ensures forall p :: 0 <= p < |Stream(history)| ==> Stream(Marked(history, k))[p] == Mark(k, p)
    ensures SameShape(history, Marked(history, k))
    decreases |history|
  {
    if history != [] {
      var n := |history| - 1;
      MarkedStream(history[..n], k);
      var marked := Marked(history, k);
      assert marked[..n] == Marked(history[..n], k);
      forall i | 0 <= i < |history|
        ensures SameKind(history[i], marked[i])
      {
        if i < n {
          assert SameKind(history[..n][i], marked[..n][i]);
        }
      }
    }
  }

  lemma {:induction false} MarkedEarlier(history: seq<Event>, k: int, i: nat)
    requires i <= |history|
    ensures Marked(history, k)[..i] == Marked(history[..i], k)
    decreases |history|
  {
    if i == |history| {
      assert history[..i] == history;
    } else {
      var n := |history| - 1;
      MarkedEarlier(history[..n], k, i);
      assert history[..n][..i] == history[..i];
      assert Marked(history, k)[..n] == Marked(history[..n], k);
      assert Marked(history, k)[..i] == Marked(history, k)[..n][..i];
    }
  }

  const SILENCE: seq<Byte> := seq(QUEUE_LEN, i => 0)

  /** A request that runs ahead of the decoder or falls a lap behind misses some stream of that shape. */
  lemma UnpacedMisses(history: seq<Event>, i: nat)
    requires i < |history| && history[i].BufferRequested? && history[i].size > 0 && !PacedAt(history, i)
    ensures exists h: seq<Event> :: SameShape(history, h) && h[i].BufferRequested? && !Delivered(h, SILENCE, i)
  {
    var produced, from, size := |Stream(history[..i])|, Requested(history[..i]), history[i].size;
    var k := if from + size > produced then from + size - 1 else from;
    MarkedStream(history, k);
    ShapePacing(history, Marked(history, k), i);
    MarkedMissed(history, i, k);
  }

  lemma MarkedMissed(history: seq<Event>, i: nat, k: nat)
    requires i < |history| && history[i].BufferRequested?
    requires Requested(history[..i]) <= k < Requested(history[..i]) + history[i].size
    requires k >= |Stream(history[..i])| || k < |Stream(history[..i])| - QUEUE_LEN
    ensures Marked(history, k)[i] == history[i] && !Delivered(Marked(history, k), SILENCE, i)
  {
    var h := Marked(history, k);
    MarkedStream(history, k);
    assert SameKind(history[i], h[i]);
    MarkedEarlier(history, k, i);
    MarkedStream(history[..i], k);
    ShapeCounts(history[..i], h[..i]);
    MissedByte(h, i, k);
    OneDifference(Played(h, SILENCE), Stream(h), Requested(h[..i]), Requested(h[..i]) + h[i].size, k);
  }

  lemma OneDifference(a: seq<Byte>, b: seq<Byte>, from: nat, to: nat, k: nat)
    requires from <= k < to && k < |a| && (k < |b| ==> a[k] != b[k])
    ensures !(to <= |b| && to <= |a| && a[from..to] == b[from..to])
  {
    if to <= |b| && to <= |a| {
      assert a[from..to][k - from] == a[k] && b[from..to][k - from] == b[k];
    }
  }

  /** Outside the lap that ends with the newest byte, the ring holds some other position's byte. */
  lemma MissedByte(h: seq<Event>, i: nat, k: nat)
    requires i < |h| && h[i].BufferRequested?
    requires Requested(h[..i]) <= k < Requested(h[..i]) + h[i].size
    requires k >= |Stream(h[..i])| || k < |Stream(h[..i])| - QUEUE_LEN
    requires forall p :: 0 <= p < |Stream(h[..i])| ==> Stream(h[..i])[p] == Mark(k, p)
    ensures k < |Played(h, SILENCE)| && Played(h, SILENCE)[k] == 0
  {
    HandedOut(h, SILENCE, i, k);
  }

  /** A request gets the stream for all contents of frames and ring if and only if it is paced. */
  lemma PacedExactly(history: seq<Event>, i: nat)
    requires i < |history| && history[i].BufferRequested? && history[i].size > 0
    ensures PacedAt(history, i) <==>
      forall h: seq<Event>, initial: seq<Byte> :: SameShape(history, h) && |initial| == QUEUE_LEN ==>
        h[i].BufferRequested? && Delivered(h, initial, i)
  {
    if PacedAt(history, i) {
      forall h: seq<Event>, initial: seq<Byte> | SameShape(history, h) && |initial| == QUEUE_LEN
        ensures h[i].BufferRequested? && Delivered(h, initial, i)
      {
        ShapePacing(history, h, i);
        PacedRequestDelivered(h, initial, i);
      }
    } else {
      UnpacedMisses(history, i);
    }
  }

  // --------------------------------------------------------------------------
  // Whole runs
  // --------------------------------------------------------------------------

  /** Every request from the given step on is paced. */
  ghost predicate PacedFrom(history: seq<Event>, start: nat) {
    forall i :: start <= i < |history| && history[i].BufferRequested? ==> PacedAt(history, i)
  }

  /** When every request is paced the callback delivers the decoded stream, in order. */
  lemma DeliversInOrder(history: seq<Event>, initial: seq<Byte>)
    requires |initial| == QUEUE_LEN && PacedFrom(history, 0)
    ensures |Played(history, initial)| == Requested(history)
    ensures Played(history, initial) <= Stream(history)
  {
    var played, stream := Played(history, initial), Stream(history);
    PlayedLength(history, initial);
    if |played| > 0 {
      PacedByteDelivered(history, initial, |played| - 1);
    }
    assert |played| <= |stream|;
    forall k | 0 <= k < |played|
      ensures played[k] == stream[k]
    {
      PacedByteDelivered(history, initial, k);
    }
    assert played == stream[..|played|];
  }

  /** Playing starts before decoding: two requests for half a buffer come before any frame. */
  predicate StartsWithPrefill(history: seq<Event>, half: nat) {
    |history| >= 2 && history[0] == BufferRequested(half) && history[1] == BufferRequested(half)
  }

  /** The prefill is answered with what the ring held before, and is never paced. */
  lemma PrefillGetsLeftovers(history: seq<Event>, initial: seq<Byte>, half: nat)
    requires |initial| == QUEUE_LEN && StartsWithPrefill(history, half) && 2 * half <= QUEUE_LEN
    ensures |Played(history, initial)| >= 2 * half && Played(history, initial)[..2 * half] == initial[..2 * half]
    ensures half > 0 ==> !PacedAt(history, 0) && !PacedAt(history, 1)
    ensures Requested(history[..2]) == 2 * half
  {
    var first, both := history[..1], history[..2];
    assert both == [BufferRequested(half), BufferRequested(half)];
    assert both[..1] == first && first == [BufferRequested(half)];
    TwoRequests(initial, half);
    HistoryGrows(history, initial, 2);
    SliceOfPrefix(Played(both, initial), Played(history, initial), 0, 2 * half);
    assert history[..0] == [];
  }

  lemma TwoRequests(initial: seq<Byte>, half: nat)
    requires |initial| == QUEUE_LEN && 2 * half <= QUEUE_LEN
    ensures var one := [BufferRequested(half)];
      var two := [BufferRequested(half), BufferRequested(half)];
      && Played(two, initial) == initial[..2 * half]
      && Requested(two) == 2 * half && Requested(one) == half
      && Stream(two) == [] && Stream(one) == []
  {
    var one, two := [BufferRequested(half)], [BufferRequested(half), BufferRequested(half)];
    assert one == [] + [BufferRequested(half)] && two == one + [BufferRequested(half)];
    AppendRequest([], half, initial);
    AppendRequest(one, half, initial);
    LeftoverHandout(initial, 0, half);
    LeftoverHandout(initial, half, half);
    assert initial[..half] + initial[half..2 * half] == initial[..2 * half];
  }

  /** Before anything is produced the ring hands out its old contents. */
  lemma LeftoverHandout(initial: seq<Byte>, consumed: nat, size: nat)
    requires |initial| == QUEUE_LEN && consumed + size <= QUEUE_LEN
    ensures Handout([], initial, consumed, size) == initial[consumed..consumed + size]
  {
    forall j | 0 <= j < size
      ensures Handout([], initial, consumed, size)[j] == initial[consumed + j]
    {
      assert Slot(consumed + j) == consumed + j;
    }
  }

  /**
   A session as the decoder starts it: after the prefill, a paced run delivers the stream from
   position 2 * half on, so it does not deliver the first 2 * half decoded bytes.
   */
  lemma SessionDelivers(history: seq<Event>, initial: seq<Byte>, half: nat)
    requires |initial| == QUEUE_LEN && StartsWithPrefill(history, half) && 2 * half <= QUEUE_LEN
    requires PacedFrom(history, 2)
    ensures |Played(history, initial)| == Requested(history) >= 2 * half
    ensures Played(history, initial)[..2 * half] == initial[..2 * half]
    ensures forall k :: 2 * half <= k < Requested(history) ==> DeliveredByte(history, initial, k)
  {
    PlayedLength(history, initial);
    PrefillGetsLeftovers(history, initial, half);
    forall k | 2 * half <= k < Requested(history)
      ensures DeliveredByte(history, initial, k)
    {
      LaterHolder(history, k, half);
      PacedByteDelivered(history, initial, k);
    }
  }

  /**
   What is not delivered in its turn may come a lap late: when no more than one lap was decoded,
   the request that holds position QUEUE_LEN + k gets byte k of the stream there.
   */
  lemma NextLapReplays(history: seq<Event>, initial: seq<Byte>, k: nat)
    requires |initial| == QUEUE_LEN && QUEUE_LEN + k < Requested(history)
    requires k < |Stream(history[..Holder(history, QUEUE_LEN + k)])| <= QUEUE_LEN
    ensures k < |Stream(history)| && QUEUE_LEN + k < |Played(history, initial)|
    ensures Played(history, initial)[QUEUE_LEN + k] == Stream(history)[k]
  {
    var i := Holder(history, QUEUE_LEN + k);
    HandedOut(history, initial, i, QUEUE_LEN + k);
    LapLater(Stream(history[..i]), initial, k);
    HistoryGrows(history, initial, i);
  }

  lemma LapLater(stream: seq<Byte>, initial: seq<Byte>, k: nat)
    requires |initial| == QUEUE_LEN && k < |stream| <= QUEUE_LEN
    ensures RingAt(stream, initial, Slot(QUEUE_LEN + k)) == stream[k]
  {
    assert Slot(QUEUE_LEN + k) == k == Slot(k);
    SlotUnique(Newest(|stream|, k), k);
  }

  lemma LaterHolder(history: seq<Event>, k: nat, half: nat)
    requires StartsWithPrefill(history, half) && 2 * half <= k < Requested(history)
    ensures Holder(history, k) >= 2
  {
    var i := Holder(history, k);
    assert history[..0] == [] && history[..1][..0] == [];
    assert Requested(history[..0]) == 0 && Requested(history[..1]) == half;
  }

  /** Within one lap of the newest byte, the ring hands out the stream itself. */
  lemma InWindow(stream: seq<Byte>, initial: seq<Byte>, consumed: nat, size: nat)
    requires |initial| == QUEUE_LEN
    requires consumed + size <= |stream| <= consumed + QUEUE_LEN
    ensures Handout(stream, initial, consumed, size) == stream[consumed..consumed + size]
  {
    var out := Handout(stream, initial, consumed, size);
    forall j | 0 <= j < size
      ensures out[j] == stream[consumed + j]
    {
      var k := consumed + j;
      SlotBound(k);
      SlotUnique(Newest(|stream|, Slot(k)), k);
    }
  }

  lemma SlotBound(k: nat)
    ensures Slot(k) <= k
  {
  }

  lemma SlotUnique(i: int, k: int)
    requires Slot(i) == Slot(k) && -QUEUE_LEN < i - k < QUEUE_LEN
    ensures i == k
  {
  }

  lemma SlotShift(a: int, b: int, j: int)
    requires Slot(a) == Slot(b)
    ensures Slot(a + j) == Slot(b + j)
  {
  }

  /** Distance from the write position to pos around the ring; the tail may rest at its length. */
  lemma Offset(pos: nat, n: nat, tail: nat)
    requires pos < QUEUE_LEN && tail <= QUEUE_LEN && Slot(tail) == Slot(n)
    ensures Slot(pos - n) == Distance(tail, pos)
  {
    var laps := n / QUEUE_LEN - tail / QUEUE_LEN;
    ModUnique(pos - n, QUEUE_LEN, (if tail <= pos then 0 else -1) - laps, Distance(tail, pos));
  }

  function Distance(tail: nat, pos: nat): int {
    if tail <= pos then pos - tail else pos - tail + QUEUE_LEN
  }

  function Advance(head: nat, j: nat): nat
    requires head < QUEUE_LEN && j <= QUEUE_LEN
  {
    if head + j < QUEUE_LEN then head + j else head + j - QUEUE_LEN
  }

  lemma AdvanceIsSlot(k: nat, j: nat)
    requires j <= QUEUE_LEN
    ensures Slot(k + j) == Advance(Slot(k), j)
  {
  }

  /** Appending at most a lap overwrites just the positions after the old end. */
  lemma RingAppend(stream: seq<Byte>, more: seq<Byte>, initial: seq<Byte>, pos: nat)
    requires |initial| == QUEUE_LEN && pos < QUEUE_LEN && |more| <= QUEUE_LEN
    ensures RingAt(stream + more, initial, pos)
         == if Slot(pos - |stream|) < |more| then more[Slot(pos - |stream|)] else RingAt(stream, initial, pos)
  {
    var n, m, offset := |stream|, |more|, Slot(pos - |stream|);
    assert Slot(n + offset) == pos;
    if offset < m {
      SlotBound(n + offset);
      SlotUnique(Newest(n + m, pos), n + offset);
    } else if pos < n + m {
      var i := Newest(n + m, pos);
      assert i < n by {
        if i >= n {
          SlotUnique(i, n + offset);
          assert false;
        }
      }
      SlotBound(i);
      SlotUnique(Newest(n, pos), i);
    } else if pos < n {
      assert false;
    }
  }

  lemma RingAfterWrite(stream: seq<Byte>, frame: seq<Byte>, initial: seq<Byte>, tail: nat, pos: nat)
    requires |initial| == QUEUE_LEN && pos < QUEUE_LEN && |frame| == FRAME_BYTES
    requires tail <= QUEUE_LEN && Slot(tail) == Slot(|stream|)
    ensures var d := Distance(tail, pos);
      0 <= d && RingAt(stream + frame, initial, pos) == if d < FRAME_BYTES then frame[d] else RingAt(stream, initial, pos)
  {
    RingAppend(stream, frame, initial, pos);
    Offset(pos, |stream|, tail);
  }

  predicate RingIs(ring: seq<Byte>, stream: seq<Byte>, initial: seq<Byte>) {
    && |ring| == QUEUE_LEN == |initial|
    && forall pos :: 0 <= pos < QUEUE_LEN ==> ring[pos] == RingAt(stream, initial, pos)
  }

  lemma RingAfterFrame(stream: seq<Byte>, frame: seq<Byte>, initial: seq<Byte>, tail: nat, was: seq<Byte>, now: seq<Byte>)
    requires RingIs(was, stream, initial) && |now| == QUEUE_LEN && |frame| == FRAME_BYTES
    requires tail <= QUEUE_LEN && Slot(tail) == Slot(|stream|)
    requires forall pos :: 0 <= pos < QUEUE_LEN ==>
      now[pos] == if Distance(tail, pos) < FRAME_BYTES then frame[Distance(tail, pos)] else was[pos]
    ensures RingIs(now, stream + frame, initial)
  {
    forall pos | 0 <= pos < QUEUE_LEN
      ensures now[pos] == RingAt(stream + frame, initial, pos)
    {
      RingAfterWrite(stream, frame, initial, tail, pos);
    }
  }

  lemma TailFollows(start: nat, tail: nat, n: nat)
    requires Slot(start) == Slot(n)
    requires tail == start + FRAME_BYTES || tail == start + FRAME_BYTES - QUEUE_LEN
    ensures Slot(tail) == Slot(n + FRAME_BYTES)
  {
    SlotShift(start, n, FRAME_BYTES);
    var next := start + FRAME_BYTES;
    ModUnique(next - QUEUE_LEN, QUEUE_LEN, next / QUEUE_LEN - 1, next % QUEUE_LEN);
  }

  // --------------------------------------------------------------------------
  // The two sides
  // --------------------------------------------------------------------------

  class Queue {
    const data: array<Byte>
    var head: nat
    var tail: nat
    ghost var initial: seq<Byte>
    ghost var history: seq<Event>

    ghost predicate Valid()
      reads this, data
    {
      && RingIs(data[..], Stream(history), initial)
      && head == Slot(|Played(history, initial)|)
      && tail <= QUEUE_LEN
      && Slot(tail) == Slot(|Stream(history)|)
    }

    /** Start of decoding over a buffer with any contents. */
    constructor (buffer: array<Byte>)
      requires buffer.Length == QUEUE_LEN
      ensures Valid() && history == [] && data == buffer && initial == buffer[..]
    {
      data := buffer;
      head, tail := 0, 0;
      initial, history := buffer[..], [];
    }

    /** memcpy into the ring */
    method CopyIn(at: nat, bytes: seq<Byte>)
      requires at + |bytes| <= data.Length
      modifies data
      ensures forall k :: 0 <= k < data.Length ==>
        data[k] == if at <= k < at + |bytes| then bytes[k - at] else old(data[k])
    {
      forall k | 0 <= k < |bytes| {
        data[at + k] := bytes[k];
      }
    }

    /** The two copies of the producer and the new tail. */
    method WriteAtTail(frame: seq<Byte>)
      requires data.Length == QUEUE_LEN && tail <= QUEUE_LEN && |frame| == FRAME_BYTES
      modifies this`tail, data
      ensures forall pos :: 0 <= pos < QUEUE_LEN ==>
        data[pos] == if Distance(old(tail), pos) < FRAME_BYTES then frame[Distance(old(tail), pos)] else old(data[pos])
      ensures tail <= QUEUE_LEN && (tail == old(tail) + FRAME_BYTES || tail == old(tail) + FRAME_BYTES - QUEUE_LEN)
    {
      var room := QUEUE_LEN - tail;
      if room >= FRAME_BYTES {
        CopyIn(tail, frame);
        tail := tail + FRAME_BYTES;
      } else {
        CopyIn(tail, frame[..room]);
        CopyIn(0, frame[room..]);
        tail := FRAME_BYTES - room;
      }
    }

    /** The copies of the callback and the new head. */
    method ReadAtHead(size: nat) returns (out: seq<Byte>)
      requires data.Length == QUEUE_LEN && head < QUEUE_LEN && size <= QUEUE_LEN
      modifies this`head
      ensures |out| == size
      ensures forall j :: 0 <= j < size ==> out[j] == data[Advance(old(head), j)]
      ensures head == Advance(old(head), size)
    {
      var room := QUEUE_LEN - head;
      if room >= size {
        out := data[head..head + size];
        head := (head + size) % QUEUE_LEN;
      } else {
        out := data[head..head + room] + data[..size - room];
        head := size - room;
      }
    }

    /** The producer half of the decoder loop. */
    method StoreFrame(frame: seq<Byte>)
      requires Valid() && |frame| == FRAME_BYTES
      modifies this, data
      ensures Valid() && initial == old(initial)
      ensures history == old(history) + [FrameDecoded(frame)]
      ensures head == old(head)
    {
      ghost var start, stream, was := tail, Stream(history), data[..];
      WriteAtTail(frame);
      AppendFrame(history, frame, initial);
      history := history + [FrameDecoded(frame)];
      TailFollows(start, tail, |stream|);
      RingAfterFrame(stream, frame, initial, start, was, data[..]);
    }

    /** play_callback */
    method PlayCallback(size: nat) returns (out: seq<Byte>)
      requires Valid() && size <= QUEUE_LEN
      modifies this
      ensures Valid() && initial == old(initial) && unchanged(data)
      ensures history == old(history) + [BufferRequested(size)]
      ensures Played(history, initial) == old(Played(history, initial)) + out && |out| == size
      ensures tail == old(tail)
    {
      ghost var consumed := |Played(history, initial)|;
      out := ReadAtHead(size);
      forall j | 0 <= j < size
        ensures out[j] == RingAt(Stream(history), initial, Slot(consumed + j))
      {
        AdvanceIsSlot(consumed, j);
      }
      AdvanceIsSlot(consumed, size);
      assert out == Handout(Stream(history), initial, consumed, size);
      AppendRequest(history, size, initial);
      history := history + [BufferRequested(size)];
    }
  }
}
