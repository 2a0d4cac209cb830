/**
 The decoder's stream on its way to the codec: play_callback of Host/AMR/sample/decode.c is
 the client of the AC97 play path, which has it fill the halves of the DMA buffer in turn.
 */
module Pipeline {
  import opened Words
  import opened PcmQueue
  import opened DoubleBuffer
  import opened Sequences
  import opened Ac97

  /** Requests for halves that lie in the buffer. */
  predicate Inside(b: Buffer, requests: seq<Request>) {
    forall i :: 0 <= i < |requests| ==> requests[i].size == b.size / 2 && OffsetIn(b, requests[i]) + requests[i].size <= b.size
  }

  /** The DMA buffer after the requests were answered with the consecutive blocks of `played`. */
  function Dma(b: Buffer, initial: seq<Byte>, requests: seq<Request>, played: seq<Byte>): (memory: seq<Byte>)
    requires |initial| == b.size && Inside(b, requests)
    ensures |memory| == b.size
    decreases |requests|
  {
    var h := b.size / 2;
    if requests == [] || |played| < h then initial
    else
      var n, before := |requests| - 1, |played| - h;
      Overwrite(Dma(b, initial, requests[..n], played[..before]), OffsetIn(b, requests[n]), played[before..])
  }

  /** memory with a block copied over it */
  function Overwrite(memory: seq<Byte>, at: nat, block: seq<Byte>): (after: seq<Byte>)
    requires at + |block| <= |memory|
    ensures |after| == |memory|
    ensures forall p :: 0 <= p < |memory| ==>
      after[p] == if at <= p < at + |block| then block[p - at] else memory[p]
  {
    memory[..at] + block + memory[at + |block|..]
  }

  lemma LastBlock(count: int, h: int)
    requires count >= 1 && h >= 0
    ensures 0 <= (count - 1) * h && count * h == (count - 1) * h + h
  {
    MulDistributes(count - 1, 1, h);
    MulMonotone(0, count - 1, h);
  }

  lemma AlternatingInside(b: Buffer, requests: seq<Request>)
    requires b.size % 2 == 0 && Alternating(b, requests)
    ensures Inside(b, requests)
  {
    HalvesTile(b);
  }

  /** The buffer always holds the last `size` bytes delivered, byte k at offset k mod size. */
  lemma {:induction false} DmaHoldsLatest(b: Buffer, initial: seq<Byte>, requests: seq<Request>, played: seq<Byte>, k: nat)
    requires b.size > 0 && b.size % 2 == 0 && |initial| == b.size
    requires Alternating(b, requests) && |played| == |requests| * (b.size / 2)
    requires |played| - b.size <= k < |played|
    ensures Inside(b, requests)
    ensures Dma(b, initial, requests, played)[k % b.size] == played[k]
    decreases |requests|
  {
    AlternatingInside(b, requests);
    assert requests != [];
    var n, h := |requests| - 1, b.size / 2;
    LastBlock(|requests|, h);
    var before := |played| - h;
    HalfOffset(b, requests, n);
    LastAnswer(b, initial, requests, played, k % b.size);
    if k >= before {
      SplitInHalves(k, h, n, k - before);
    } else {
      DmaHoldsLatest(b, initial, requests[..n], played[..before], k);
      EarlierHalf(k, h, n);
    }
  }

  lemma HalfOffset(b: Buffer, requests: seq<Request>, n: nat)
    requires b.size % 2 == 0 && Alternating(b, requests) && n < |requests|
    ensures OffsetIn(b, requests[n]) == if n % 2 == 1 then b.size / 2 else 0
  {
    HalvesTile(b);
  }

  /** A byte of the block before block n lies in the other half of the buffer. */
  lemma EarlierHalf(k: int, h: nat, n: nat)
    requires n >= 1 && h > 0 && n * h - h <= k < n * h
    ensures var at := if n % 2 == 1 then h else 0; k % (2 * h) < at || at + h <= k % (2 * h)
  {
    LastBlock(n, h);
    SplitInHalves(k, h, n - 1, k - (n * h - h));
    OtherHalf(k % (2 * h), h, n, if n % 2 == 1 then h else 0);
  }

  /** The last answer replaces its half of the buffer and nothing else. */
  lemma {:induction false} LastAnswer(b: Buffer, initial: seq<Byte>, requests: seq<Request>, played: seq<Byte>, p: nat)
    requires |initial| == b.size && Inside(b, requests) && requests != [] && |played| >= b.size / 2 && p < b.size
    ensures var n, before := |requests| - 1, |played| - b.size / 2;
      var at := OffsetIn(b, requests[n]);
      Dma(b, initial, requests, played)[p]
        == if at <= p < at + b.size / 2 then played[before + (p - at)]
           else Dma(b, initial, requests[..n], played[..before])[p]
  {
    var n, before := |requests| - 1, |played| - b.size / 2;
    var earlier := Dma(b, initial, requests[..n], played[..before]);
    OverwriteAt(earlier, OffsetIn(b, requests[n]), played, before, p);
  }

  lemma OverwriteAt(memory: seq<Byte>, at: nat, played: seq<Byte>, before: nat, p: nat)
    requires before <= |played| && at + (|played| - before) <= |memory| && p < |memory|
    ensures Overwrite(memory, at, played[before..])[p]
         == if at <= p < at + (|played| - before) then played[before + (p - at)] else memory[p]
  {
  }

  lemma OtherHalf(p: int, h: int, n: int, at: int)
    requires at == if n % 2 == 1 then h else 0
    requires (if (n - 1) % 2 == 1 then h else 0) <= p < (if (n - 1) % 2 == 1 then h else 0) + h
    ensures p < at || at + h <= p
  {
  }

  /**
   Over every interleaving of decoded frames and AC97 requests: if the request that asked for byte k
   was paced, the DMA buffer holds byte k of the decoded stream at offset k mod size for as long as
   k is among the last `size` bytes asked for, whatever happened to the other requests.
   */
  lemma EndToEnd(history: seq<Event>, ring: seq<Byte>, b: Buffer, initial: seq<Byte>, requests: seq<Request>, k: nat)
    requires |ring| == QUEUE_LEN
    requires b.size > 0 && b.size % 2 == 0 && |initial| == b.size && Alternating(b, requests)
    requires Requested(history) == |requests| * (b.size / 2)
    requires Requested(history) - b.size <= k < Requested(history)
    requires PacedAt(history, Holder(history, k))
    ensures Inside(b, requests) && k < |Stream(history)|
    ensures Dma(b, initial, requests, Played(history, ring))[k % b.size] == Stream(history)[k]
  {
    PlayedLength(history, ring);
    PacedByteDelivered(history, ring, k);
    DmaHoldsLatest(b, initial, requests, Played(history, ring), k);
  }

  /**
   A whole session of the sample decoder, whose first two requests come before any frame: byte k of
   the stream is in the buffer for every k from the buffer size on; before that the buffer holds
   what the ring held before the session.
   */
  lemma SessionEndToEnd(history: seq<Event>, ring: seq<Byte>, b: Buffer, initial: seq<Byte>, requests: seq<Request>, k: nat)
    requires |ring| == QUEUE_LEN
    requires 0 < b.size <= QUEUE_LEN && b.size % 2 == 0 && |initial| == b.size && Alternating(b, requests)
    requires StartsWithPrefill(history, b.size / 2) && PacedFrom(history, 2)
    requires Requested(history) == |requests| * (b.size / 2)
    requires Requested(history) - b.size <= k < Requested(history)
    ensures Inside(b, requests) && (k >= b.size ==> k < |Stream(history)|)
    ensures Dma(b, initial, requests, Played(history, ring))[k % b.size]
         == if k >= b.size then Stream(history)[k] else ring[k]
  {
    PlayedLength(history, ring);
    SessionByte(history, ring, b.size / 2, k);
    DmaHoldsLatest(b, initial, requests, Played(history, ring), k);
  }

  lemma SessionByte(history: seq<Event>, ring: seq<Byte>, half: nat, k: nat)
    requires |ring| == QUEUE_LEN && 2 * half <= QUEUE_LEN && k < Requested(history)
    requires StartsWithPrefill(history, half) && PacedFrom(history, 2)
    ensures k < |Played(history, ring)| && (k >= 2 * half ==> k < |Stream(history)|)
    ensures Played(history, ring)[k] == if k >= 2 * half then Stream(history)[k] else ring[k]
  {
    SessionDelivers(history, ring, half);
    if k >= 2 * half {
      assert DeliveredByte(history, ring, k);
    } else {
      assert Played(history, ring)[..2 * half][k] == ring[..2 * half][k];
    }
  }

  // --------------------------------------------------------------------------
  // The decoder, the driver and the memory between them
  // --------------------------------------------------------------------------

  /** What happens in the sample decoder: it starts the driver, stores frames, and is interrupted. */
  datatype Step = Start(channels: int, codecReady: bool) | Frame(frame: seq<Byte>) | Interrupt

  predicate WellFormed(steps: seq<Step>) {
    forall i :: 0 <= i < |steps| && steps[i].Frame? ==> |steps[i].frame| == FRAME_BYTES
  }

  /** The bytes of the frames among the steps. */
  function Decoded(steps: seq<Step>): seq<Byte> {
    if steps == [] then []
    else
      var n := |steps| - 1;
      Decoded(steps[..n]) + DecodedOf(steps[n])
  }

  function DecodedOf(step: Step): seq<Byte> {
    if step.Frame? then step.frame else []
  }

  /** What a step means for the ring while the driver plays. */
  function EventOf(b: Buffer, step: Step): seq<Event> {
    match step
    case Start(_, _) => []  // refused
    case Frame(frame) => [FrameDecoded(frame)]
    case Interrupt => [BufferRequested(b.size / 2)]
  }

  function EventsOf(b: Buffer, steps: seq<Step>): seq<Event> {
    if steps == [] then []
    else EventsOf(b, steps[..|steps| - 1]) + EventOf(b, steps[|steps| - 1])
  }

  function Frames(steps: seq<Step>): nat {
    if steps == [] then 0 else Frames(steps[..|steps| - 1]) + if steps[|steps| - 1].Frame? then 1 else 0
  }

  function Interrupts(steps: seq<Step>): nat {
    if steps == [] then 0 else Interrupts(steps[..|steps| - 1]) + if steps[|steps| - 1].Interrupt? then 1 else 0
  }

  lemma {:induction false} EventsLength(b: Buffer, steps: seq<Step>)
    ensures |EventsOf(b, steps)| == Frames(steps) + Interrupts(steps)
  {
    if steps != [] {
      EventsLength(b, steps[..|steps| - 1]);
    }
  }

  /** Event number j of the steps. */
  predicate HasEvent(b: Buffer, steps: seq<Step>, j: nat, event: Event) {
    j < |EventsOf(b, steps)| && EventsOf(b, steps)[j] == event
  }

  lemma {:induction false} LastEvent(b: Buffer, steps: seq<Step>)
    requires steps != []
    ensures var n := |steps| - 1;
      var j := Frames(steps[..n]) + Interrupts(steps[..n]);
      && (steps[n].Frame? ==> HasEvent(b, steps, j, FrameDecoded(steps[n].frame)))
      && (steps[n].Interrupt? ==> HasEvent(b, steps, j, BufferRequested(b.size / 2)))
  {
    EventsLength(b, steps[..|steps| - 1]);
  }

  lemma {:induction false} EventStays(b: Buffer, steps: seq<Step>, j: nat, event: Event)
    requires steps != [] && HasEvent(b, steps[..|steps| - 1], j, event)
    ensures HasEvent(b, steps, j, event)
  {
  }

  /** Every frame and every interrupt has its own event, in the order of the steps, and there are no others. */
  lemma {:induction false} EventOfStep(b: Buffer, steps: seq<Step>, i: nat)
    requires i < |steps|
    ensures |EventsOf(b, steps)| == Frames(steps) + Interrupts(steps)
    ensures var j := Frames(steps[..i]) + Interrupts(steps[..i]);
      && (steps[i].Frame? ==> HasEvent(b, steps, j, FrameDecoded(steps[i].frame)))
      && (steps[i].Interrupt? ==> HasEvent(b, steps, j, BufferRequested(b.size / 2)))
    decreases |steps|
  {
    EventsLength(b, steps);
    var n := |steps| - 1;
    if i == n {
      LastEvent(b, steps);
    } else {
      EventOfStep(b, steps[..n], i);
      assert steps[..n][..i] == steps[..i];
      var j := Frames(steps[..i]) + Interrupts(steps[..i]);
      if !steps[i].Start? {
        EventStays(b, steps, j, if steps[i].Frame? then FrameDecoded(steps[i].frame) else BufferRequested(b.size / 2));
      }
    }
  }

  /** Every interrupt asks for half the buffer, and nothing else asks for anything. */
  lemma {:induction false} RequestedBySteps(b: Buffer, start: seq<Event>, steps: seq<Step>)
    ensures Requested(start + EventsOf(b, steps)) == Requested(start) + Interrupts(steps) * (b.size / 2)
    decreases |steps|
  {
    if steps == [] {
      assert start + [] == start;
    } else {
      var n := |steps| - 1;
      RequestedBySteps(b, start, steps[..n]);
      Regroup(start, EventsOf(b, steps[..n]), EventOf(b, steps[n]));
      RequestedByStep(b, start + EventsOf(b, steps[..n]), steps[n]);
      OneMoreHalf(Interrupts(steps[..n]), b.size / 2);
    }
  }

  lemma RequestedByStep(b: Buffer, history: seq<Event>, step: Step)
    ensures Requested(history + EventOf(b, step)) == Requested(history) + if step.Interrupt? then b.size / 2 else 0
  {
    var longer := history + EventOf(b, step);
    if step.Start? {
      assert longer == history;
    } else {
      assert longer[..|longer| - 1] == history;
    }
  }

  /** Block n of a stream of frames. */
  predicate FrameAt(stream: seq<Byte>, n: nat, frame: seq<Byte>) {
    FRAME_BYTES * n + FRAME_BYTES <= |stream| && stream[FRAME_BYTES * n..FRAME_BYTES * n + FRAME_BYTES] == frame
  }

  lemma FrameStays(stream: seq<Byte>, n: nat, frame: seq<Byte>, more: seq<Byte>)
    requires FrameAt(stream, n, frame)
    ensures FrameAt(stream + more, n, frame)
  {
    SliceOfPrefix(stream, stream + more, FRAME_BYTES * n, FRAME_BYTES * n + FRAME_BYTES);
  }

  lemma FrameAdded(stream: seq<Byte>, n: nat, frame: seq<Byte>)
    requires |stream| == FRAME_BYTES * n && |frame| == FRAME_BYTES
    ensures FrameAt(stream + frame, n, frame)
  {
    AppendedSlice(stream, frame, |stream|);
  }

  lemma {:induction false} DecodedLength(steps: seq<Step>)
    requires WellFormed(steps)
    ensures |Decoded(steps)| == FRAME_BYTES * Frames(steps)
  {
    if steps != [] {
      DecodedLength(steps[..|steps| - 1]);
    }
  }

  /** The n-th frame among the steps is block n of what is decoded. */
  lemma {:induction false} FrameDecodedInTurn(steps: seq<Step>, i: nat)
    requires WellFormed(steps) && i < |steps| && steps[i].Frame?
    ensures FrameAt(Decoded(steps), Frames(steps[..i]), steps[i].frame)
    decreases |steps|
  {
    var n := |steps| - 1;
    var earlier := steps[..n];
    if i < n {
      FrameDecodedInTurn(earlier, i);
      assert earlier[..i] == steps[..i];
      FrameStays(Decoded(earlier), Frames(steps[..i]), steps[i].frame, DecodedOf(steps[n]));
    } else {
      DecodedLength(earlier);
      FrameAdded(Decoded(earlier), Frames(earlier), steps[n].frame);
    }
  }

  lemma EventsNext(b: Buffer, start: seq<Event>, steps: seq<Step>, i: nat)
    requires i < |steps|
    ensures start + EventsOf(b, steps[..i + 1]) == start + EventsOf(b, steps[..i]) + EventOf(b, steps[i])
  {
    assert steps[..i + 1][..i] == steps[..i];
    Regroup(start, EventsOf(b, steps[..i]), EventOf(b, steps[i]));
  }

  /** The stream is what the frames among the steps contain. */
  lemma {:induction false} StreamOfSteps(b: Buffer, start: seq<Event>, steps: seq<Step>)
    ensures Stream(start + EventsOf(b, steps)) == Stream(start) + Decoded(steps)
  {
    if steps == [] {
      assert start + [] == start;
    } else {
      var n := |steps| - 1;
      StreamOfSteps(b, start, steps[..n]);
      Regroup(start, EventsOf(b, steps[..n]), EventOf(b, steps[n]));
      StreamOfEvent(b, start + EventsOf(b, steps[..n]), steps[n]);
      Regroup(Stream(start), Decoded(steps[..n]), DecodedOf(steps[n]));
    }
  }

  lemma StreamOfEvent(b: Buffer, history: seq<Event>, step: Step)
    ensures Stream(history + EventOf(b, step)) == Stream(history) + DecodedOf(step)
  {
    var longer := history + EventOf(b, step);
    if step.Start? {
      assert longer == history;
    } else {
      assert longer[..|longer| - 1] == history;
    }
  }

  lemma {:induction false} RequestsProduceNothing(history: seq<Event>, more: seq<Event>)
    requires forall i :: 0 <= i < |more| ==> more[i].BufferRequested?
    ensures Stream(history + more) == Stream(history)
  {
    if more == [] {
      assert history + more == history;
    } else {
      var n := |more| - 1;
      assert (history + more)[..|history| + n] == history + more[..n];
      RequestsProduceNothing(history, more[..n]);
    }
  }

  lemma InsideGrows(b: Buffer, requests: seq<Request>, r: Request)
    requires Inside(b, requests) && r.size == b.size / 2 && OffsetIn(b, r) + r.size <= b.size
    ensures Inside(b, requests + [r])
  {
  }

  lemma {:induction false} DmaGrows(b: Buffer, initial: seq<Byte>, requests: seq<Request>, played: seq<Byte>, r: Request, block: seq<Byte>)
    requires |initial| == b.size && Inside(b, requests) && |block| == b.size / 2
    requires r.size == b.size / 2 && OffsetIn(b, r) + r.size <= b.size
    ensures Inside(b, requests + [r])
    ensures Dma(b, initial, requests + [r], played + block)
         == Overwrite(Dma(b, initial, requests, played), OffsetIn(b, r), block)
  {
    InsideGrows(b, requests, r);
    var longer, all := requests + [r], played + block;
    assert longer[..|requests|] == requests;
    assert all[..|played|] == played && all[|played|..] == block;
  }

  lemma OneMoreHalf(count: nat, h: nat)
    ensures (count + 1) * h == count * h + h
  {
    MulDistributes(count, 1, h);
  }

  /** Every request of an alternating sequence is answered: as many bytes asked for as requests, in memory as Dma says. */
  ghost predicate Answered(b: Buffer, untouched: seq<Byte>, requests: seq<Request>, history: seq<Event>, ring: seq<Byte>,
                           memory: seq<Byte>)
    requires |ring| == QUEUE_LEN
  {
    && 0 < b.size <= QUEUE_LEN && b.size % 2 == 0 && |untouched| == b.size
    && Alternating(b, requests) && Inside(b, requests)
    && Requested(history) == |requests| * (b.size / 2)
    && memory == Dma(b, untouched, requests, Played(history, ring))
  }

  lemma NextHalf(b: Buffer, requests: seq<Request>, upper: bool)
    requires b.size % 2 == 0 && Alternating(b, requests) && upper == (|requests| % 2 == 1)
    ensures Alternating(b, requests + [Half(b, upper)])
    ensures Half(b, upper).size == b.size / 2 && OffsetIn(b, Half(b, upper)) + b.size / 2 <= b.size
  {
    AlternatesGrows(Half(b, false), Half(b, true), requests);
    HalvesTile(b);
  }

  lemma AnsweredGrows(b: Buffer, untouched: seq<Byte>, requests: seq<Request>, history: seq<Event>, ring: seq<Byte>,
                      memory: seq<Byte>, upper: bool, block: seq<Byte>)
    requires |ring| == QUEUE_LEN && Answered(b, untouched, requests, history, ring, memory)
    requires upper == (|requests| % 2 == 1) && |block| == b.size / 2
    requires Played(history + [BufferRequested(b.size / 2)], ring) == Played(history, ring) + block
    ensures OffsetIn(b, Half(b, upper)) + |block| <= |memory|
    ensures Answered(b, untouched, requests + [Half(b, upper)], history + [BufferRequested(b.size / 2)], ring,
                     Overwrite(memory, OffsetIn(b, Half(b, upper)), block))
  {
    NextHalf(b, requests, upper);
    DmaGrows(b, untouched, requests, Played(history, ring), Half(b, upper), block);
    AppendRequest(history, b.size / 2, ring);
    OneMoreHalf(|requests|, b.size / 2);
  }

  function Prefilling(b: Buffer): seq<Event> {
    [BufferRequested(b.size / 2), BufferRequested(b.size / 2)]
  }

  predicate PacedInWindow(b: Buffer, history: seq<Event>, k: nat) {
    Requested(history) - b.size <= k < Requested(history) && PacedAt(history, Holder(history, k))
  }

  lemma SessionRequests(b: Buffer, steps: seq<Step>)
    ensures Requested(Prefilling(b) + EventsOf(b, steps)) == (2 + Interrupts(steps)) * (b.size / 2)
  {
    var prefill, one := Prefilling(b), [BufferRequested(b.size / 2)];
    assert Requested(one) == b.size / 2 by {
      assert one[..0] == [];
    }
    assert prefill[..1] == one;
    RequestedBySteps(b, prefill, steps);
    OneMoreHalf(Interrupts(steps), b.size / 2);
    OneMoreHalf(Interrupts(steps) + 1, b.size / 2);
  }

  lemma SessionFrames(steps: seq<Step>)
    requires WellFormed(steps)
    ensures |Decoded(steps)| == FRAME_BYTES * Frames(steps)
    ensures forall i :: 0 <= i < |steps| && steps[i].Frame? ==> FrameAt(Decoded(steps), Frames(steps[..i]), steps[i].frame)
  {
    DecodedLength(steps);
    forall i | 0 <= i < |steps| && steps[i].Frame?
      ensures FrameAt(Decoded(steps), Frames(steps[..i]), steps[i].frame)
    {
      FrameDecodedInTurn(steps, i);
    }
  }

  lemma StreamOfSession(b: Buffer, steps: seq<Step>)
    ensures Stream(Prefilling(b) + EventsOf(b, steps)) == Decoded(steps)
    ensures StartsWithPrefill(Prefilling(b) + EventsOf(b, steps), b.size / 2)
  {
    assert [] + Prefilling(b) == Prefilling(b);
    RequestsProduceNothing([], Prefilling(b));
    StreamOfSteps(b, Prefilling(b), steps);
  }

  /** Offset k mod size holds byte k of the stream, or what the ring held before if k is in the first buffer's worth. */
  predicate InMemory(b: Buffer, memory: seq<Byte>, stream: seq<Byte>, leftovers: seq<Byte>, k: nat)
    requires 0 < b.size == |memory|
  {
    if k < b.size then k < |leftovers| && memory[k % b.size] == leftovers[k]
    else k < |stream| && memory[k % b.size] == stream[k]
  }

  class Playback {
    const buffer: Buffer
    const driver: Driver
    const queue: Queue
    var memory: seq<Byte>  // the DMA buffer
    ghost const untouched: seq<Byte>

    /** The driver's requests are exactly those the ring has answered, and the answers are in memory. */
    ghost predicate Valid()
      reads this, driver, queue, queue.data
    {
      && driver.Valid() && driver.settled && driver.session == buffer && !driver.lastBlock
      && queue.Valid()
      && (!driver.playActive ==> driver.requests == [])
      && Answered(buffer, untouched, driver.requests, queue.history, queue.initial, memory)
    }

    constructor (buffer: Buffer, memory: seq<Byte>, ring: array<Byte>)
      requires 0 < buffer.size <= QUEUE_LEN && buffer.size % 2 == 0 && |memory| == buffer.size
      requires ring.Length == QUEUE_LEN
      ensures Valid() && this.memory == memory && fresh(driver) && fresh(queue) && queue.data == ring
      ensures queue.history == [] && queue.initial == ring[..] && driver.requests == [] && !driver.playActive
    {
      this.buffer, this.memory, untouched := buffer, memory, memory;
      driver := new Driver(buffer);
      queue := new Queue(ring);
    }

    /** One call of play_callback for a half of the buffer, whose turn it is. */
    method Fill(upper: bool, ghost requests: seq<Request>)
      requires queue.Valid() && upper == (|requests| % 2 == 1)
      requires Answered(buffer, untouched, requests, queue.history, queue.initial, memory)
      modifies this`memory, queue
      ensures queue.Valid() && queue.initial == old(queue.initial)
      ensures Answered(buffer, untouched, requests + [Half(buffer, upper)], queue.history, queue.initial, memory)
      ensures queue.history == old(queue.history) + [BufferRequested(buffer.size / 2)]
    {
      var out := queue.PlayCallback(buffer.size / 2);
      AnsweredGrows(buffer, untouched, requests, old(queue.history), queue.initial, memory, upper, out);
      memory := Overwrite(memory, OffsetIn(buffer, Half(buffer, upper)), out);
    }

    /** The two calls that fill the buffer before the DMA starts. */
    method Prefill()
      requires queue.Valid()
      requires Answered(buffer, untouched, [], queue.history, queue.initial, memory)
      modifies this`memory, queue
      ensures queue.Valid() && queue.initial == old(queue.initial)
      ensures Answered(buffer, untouched, [Half(buffer, false), Half(buffer, true)], queue.history, queue.initial, memory)
      ensures queue.history == old(queue.history) + Prefilling(buffer)
      ensures Stream(queue.history) == old(Stream(queue.history))
    {
      RequestsProduceNothing(queue.history, Prefilling(buffer));
      Fill(false, []);
      assert [] + [Half(buffer, false)] == [Half(buffer, false)];
      Fill(true, [Half(buffer, false)]);
      assert [Half(buffer, false)] + [Half(buffer, true)] == [Half(buffer, false), Half(buffer, true)];
    }

    /** audioStartPlay: nothing happens while playing, and the codec may refuse. */
    method StartPlaying(channels: int, codecReady: bool)
      requires Valid()
      modifies this`memory, driver, queue
      ensures Valid() && queue.initial == old(queue.initial)
      ensures Stream(queue.history) == old(Stream(queue.history))
      ensures driver.playActive == (old(driver.playActive) || driver.recActive || codecReady)
      ensures old(driver.playActive) ==> memory == old(memory)
      ensures queue.history == old(queue.history) + (
        if driver.playActive && !old(driver.playActive)
        then Prefilling(buffer) else [])
    {
      var status := driver.StartPlay(channels, codecReady);
      if status == Success {
        Prefill();
      }
    }

    method StoreFrame(frame: seq<Byte>)
      requires Valid() && |frame| == FRAME_BYTES
      modifies queue, queue.data
      ensures Valid() && queue.initial == old(queue.initial)
      ensures queue.history == old(queue.history) + [FrameDecoded(frame)]
      ensures Stream(queue.history) == old(Stream(queue.history)) + frame
    {
      AppendFrame(queue.history, frame, queue.initial);
      FrameRequestsNothing(queue.history, frame);
      queue.StoreFrame(frame);
    }

    /** The play interrupt; play_callback never answers that a block was the last. */
    method PlayInterrupt()
      requires Valid() && driver.interruptOn
      modifies this`memory, driver, queue
      ensures Valid() && queue.initial == old(queue.initial)
      ensures queue.history == old(queue.history) + [BufferRequested(buffer.size / 2)]
      ensures |driver.requests| == |old(driver.requests)| + 1
      ensures Stream(queue.history) == old(Stream(queue.history)) && driver.playActive
    {
      RequestsProduceNothing(queue.history, [BufferRequested(buffer.size / 2)]);
      var upper := driver.toggle;
      driver.PlayIsr(false);
      Fill(upper, old(driver.requests));
    }

    /** One step while playing. */
    method Take(step: Step)
      requires Valid() && driver.playActive && (step.Frame? ==> |step.frame| == FRAME_BYTES)
      modifies this`memory, driver, queue, queue.data
      ensures Valid() && driver.playActive && queue.initial == old(queue.initial)
      ensures step.Start? ==> queue.history == old(queue.history) && memory == old(memory)
      ensures step.Frame? ==> queue.history == old(queue.history) + [FrameDecoded(step.frame)] && memory == old(memory)
      ensures step.Interrupt? ==> queue.history == old(queue.history) + [BufferRequested(buffer.size / 2)]
    {
      match step {
        case Start(channels, codecReady) => StartPlaying(channels, codecReady);
        case Frame(frame) => StoreFrame(frame);
        case Interrupt => PlayInterrupt();
      }
    }

    method TakeAll(steps: seq<Step>)
      requires Valid() && driver.playActive && WellFormed(steps)
      modifies this`memory, driver, queue, queue.data
      ensures Valid() && driver.playActive && queue.initial == old(queue.initial)
      ensures queue.history == old(queue.history) + EventsOf(buffer, steps)
    {
      var i := 0;
      while i < |steps|
        invariant i <= |steps| && Valid() && driver.playActive && queue.initial == old(queue.initial)
        invariant queue.history == old(queue.history) + EventsOf(buffer, steps[..i])
      {
        EventsNext(buffer, old(queue.history), steps, i);
        Take(steps[i]);
        i := i + 1;
      }
      assert steps[..i] == steps;
    }

    /** Whenever the request that holds byte k was paced, the byte is in the DMA buffer while among the latest. */
    lemma ByteInMemory(k: nat)
      requires Valid() && PacedInWindow(buffer, queue.history, k)
      ensures |memory| == buffer.size && k < |Stream(queue.history)|
      ensures memory[k % buffer.size] == Stream(queue.history)[k]
    {
      EndToEnd(queue.history, queue.initial, buffer, untouched, driver.requests, k);
    }

    lemma SessionInMemory(steps: seq<Step>, k: nat)
      requires Valid() && queue.history == Prefilling(buffer) + EventsOf(buffer, steps)
      requires PacedFrom(queue.history, 2)
      requires Requested(queue.history) - buffer.size <= k < Requested(queue.history)
      ensures |memory| == buffer.size > 0
      ensures InMemory(buffer, memory, Decoded(steps), queue.initial, k)
    {
      StreamOfSession(buffer, steps);
      SessionEndToEnd(queue.history, queue.initial, buffer, untouched, driver.requests, k);
    }

    /** The start of a session, before any frame. */
    method BeginSession(channels: int)
      requires Valid() && queue.history == [] && !driver.playActive
      modifies this`memory, driver, queue
      ensures Valid() && queue.initial == old(queue.initial)
      ensures queue.history == Prefilling(buffer) && driver.playActive
    {
      StartPlaying(channels, true);
      assert [] + Prefilling(buffer) == Prefilling(buffer);
    }

    /**
     A session of the sample decoder: start, then any frames and interrupts in any order. The n-th
     frame is block n of the stream, and every interrupt is answered with half a buffer after the two
     of the start. If the requests after the prefill are paced, every offset of the DMA buffer holds
     the byte it should.
     */
    method PlaySession(channels: int, steps: seq<Step>)
      requires Valid() && queue.history == [] && !driver.playActive && WellFormed(steps)
      modifies this`memory, driver, queue, queue.data
      ensures Valid() && queue.history == Prefilling(buffer) + EventsOf(buffer, steps)
      ensures StartsWithPrefill(queue.history, buffer.size / 2)
      ensures Requested(queue.history) == (2 + Interrupts(steps)) * (buffer.size / 2)
      ensures Stream(queue.history) == Decoded(steps) && |Decoded(steps)| == FRAME_BYTES * Frames(steps)
      ensures forall i :: 0 <= i < |steps| && steps[i].Frame? ==>
        FrameAt(Stream(queue.history), Frames(steps[..i]), steps[i].frame)
      ensures PacedFrom(queue.history, 2) ==>
        forall k: nat :: Requested(queue.history) - buffer.size <= k < Requested(queue.history) ==>
          InMemory(buffer, memory, Decoded(steps), old(queue.initial), k)
    {
      BeginSession(channels);
      TakeAll(steps);
      StreamOfSession(buffer, steps);
      SessionRequests(buffer, steps);
      SessionFrames(steps);
      if PacedFrom(queue.history, 2) {
        forall k: nat | Requested(queue.history) - buffer.size <= k < Requested(queue.history)
          ensures InMemory(buffer, memory, Decoded(steps), queue.initial, k)
        {
          SessionInMemory(steps, k);
        }
      }
    }
  }
}
