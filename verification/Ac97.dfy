/**
 The double-buffered AC97 play path of Host/Audio/Src/W99702_AC97.c. A toggle, not the
 interrupt status, decides which half of the buffer the client fills next.
 */
module Ac97 {
  import opened Words
  import opened DoubleBuffer

  const ADDRESS_SPACE := 0x1_0000_0000

  type UInt32 = x: int | 0 <= x < ADDRESS_SPACE

  /** One call of the client: where to put the data and how much. */
  datatype Request = Request(address: UInt32, size: nat)

  datatype Buffer = Buffer(address: UInt32, size: UInt32)

  /** audioSetPlayBuff takes 32-byte aligned, uncached buffers only. */
  predicate Acceptable(b: Buffer) {
    b.address % 32 == 0 && b.size % 32 == 0 && (b.address / 0x1000_0000) % 2 == 1
  }

  /** Pointer arithmetic wraps with the address space. */
  function Half(b: Buffer, upper: bool): Request {
    Request(if upper then (b.address + b.size / 2) % ADDRESS_SPACE else b.address, b.size / 2)
  }

  /** Offset of a request in its buffer. */
  function OffsetIn(b: Buffer, r: Request): nat {
    (r.address - b.address) % ADDRESS_SPACE
  }

  // --------------------------------------------------------------------------
  // What an alternating sequence of requests means for the client's stream
  // --------------------------------------------------------------------------

  predicate Alternating(b: Buffer, requests: seq<Request>) {
    Alternates(Half(b, false), Half(b, true), requests)
  }

  /** Where byte k of the concatenated requests goes, as an offset in the buffer. */
  function Placement(b: Buffer, requests: seq<Request>, k: nat): int
    requires b.size / 2 > 0 && k / (b.size / 2) < |requests|
  {
    assert k / (b.size / 2) >= 0 by {
      DivMonotone(0, k, b.size / 2);
    }
    OffsetIn(b, requests[k / (b.size / 2)]) + k % (b.size / 2)
  }

  /** Both halves lie in the buffer, the upper one right after the lower one, also across the end of the address space. */
  lemma HalvesTile(b: Buffer)
    requires b.size % 2 == 0
    ensures OffsetIn(b, Half(b, false)) == 0
    ensures OffsetIn(b, Half(b, true)) == b.size / 2
    ensures OffsetIn(b, Half(b, true)) + Half(b, true).size == b.size
    ensures Half(b, false) == Request(b.address, b.size / 2)
    ensures b.address + b.size / 2 < ADDRESS_SPACE ==> Half(b, true) == Request(b.address + b.size / 2, b.size / 2)
  {
  }

  /** The bits the driver asks for: address and size without their low five, and bit 28 of the address. */
  lemma AcceptableBits(b: Buffer)
    ensures Acceptable(b) <==>
      And(b.address, 0x1f) == 0 && And(b.size, 0x1f) == 0 && And(b.address, 0x1000_0000) != 0
  {
    Pow2Table();
    AndMask(b.address, 5);
    AndMask(b.size, 5);
    assert Pow2(28) == 0x1000_0000;
    AndSingleBit(b.address, 28);
  }

  /** Byte k of the stream is placed at offset k mod size: nothing is skipped or overlapped. */
  lemma StreamPlacement(b: Buffer, requests: seq<Request>, k: nat)
    requires b.size > 0 && b.size % 2 == 0 && Alternating(b, requests)
    requires k / (b.size / 2) < |requests|
    ensures Placement(b, requests, k) == k % b.size
  {
    var h := b.size / 2;
    HalvesTile(b);
    DivMonotone(0, k, h);
    var q, r := k / h, k % h;
    SplitInHalves(k, h, q, r);
  }

  lemma SplitInHalves(k: int, h: int, q: int, r: int)
    requires h > 0 && k == q * h + r && 0 <= r < h
    ensures k % (2 * h) == (if q % 2 == 1 then h else 0) + r
  {
    var p, e := q / 2, q % 2;
    assert q * h == p * (2 * h) + e * h by {
      MulDistributes(2 * p, e, h);
    }
    ModUnique(k, 2 * h, p, e * h + r);
  }

  // --------------------------------------------------------------------------
  // The driver
  // --------------------------------------------------------------------------

  datatype Status = Success | PlayActive | PlayInactive | CodecReset | MemoryAlign

  class Driver {
    // registers, as the bits the play path uses
    var acPlay: bool         // AC_PLAY in ACTL_RESET
    var playLeft: bool       // PLAY_LEFT_CHNNEL
    var playRight: bool      // PLAY_RIGHT_CHNNEL
    var middleIrq: bool      // P_DMA_MIDDLE_IRQ in ACTL_PSR, cleared by writing one
    var endIrq: bool         // P_DMA_END_IRQ
    // driver variables
    var buffer: Buffer
    var playActive: bool     // AC97_PLAY_ACTIVE in _bAC97Active
    var recActive: bool      // AC97_REC_ACTIVE
    var interruptOn: bool    // the play interrupt is attached and unmasked
    var toggle: bool         // _bPlayDmaToggle
    var lastBlock: bool      // _tAC97.bPlayLastBlock
    // the calls of the client since the last start, the buffer set at that time, and
    // whether that setting has been left alone since
    ghost var requests: seq<Request>
    ghost var session: Buffer
    ghost var settled: bool

    /** In every state the play bit and the interrupt follow the active flag, and as long as the
        buffer setting is left alone the client is asked for the halves in strict alternation. */
    ghost predicate Valid()
      reads this
    {
      && acPlay == playActive == interruptOn
      && toggle == (|requests| % 2 == 1)
      && (settled ==> buffer == session && Alternating(session, requests))
    }

    constructor (b: Buffer)
      ensures Valid() && !playActive && requests == [] && buffer == b
      ensures settled && session == b && !lastBlock
    {
      acPlay, playLeft, playRight, middleIrq, endIrq := false, false, false, false, false;
      playActive, recActive, interruptOn, toggle, lastBlock := false, false, false, false, false;
      buffer, requests, session, settled := b, [], b, true;
    }

    /** audioSetPlayBuff */
    method SetPlayBuff(b: Buffer) returns (status: Status)
      requires Valid()
      modifies this`buffer, this`settled
      ensures Valid()
      ensures status == if Acceptable(b) then Success else MemoryAlign
      ensures buffer == if Acceptable(b) then b else old(buffer)
      ensures settled == (old(settled) && buffer == old(buffer))
    {
      if b.address % 32 != 0 || b.size % 32 != 0 || (b.address / 0x1000_0000) % 2 == 0 {
        return MemoryAlign;
      }
      settled := settled && b == buffer;
      buffer := b;
      status := Success;
    }

    /** The client's callback; its answer tells whether this was the last block. */
    method Callback(upper: bool)
      modifies this`requests
      ensures requests == old(requests) + [Half(buffer, upper)]
    {
      requests := requests + [Half(buffer, upper)];
    }

    method SelectChannels(channels: int)
      modifies this`playLeft, this`playRight
      ensures playLeft && playRight == (channels != 1)
    {
      playRight, playLeft := false, false;
      playLeft := true;
      if channels != 1 {
        playRight := true;
      }
    }

    /** The two callbacks before the DMA starts; their answers are ignored. */
    method Prefill()
      modifies this`lastBlock, this`requests, this`session, this`settled
      ensures !lastBlock && settled && session == buffer
      ensures requests == [Half(buffer, false), Half(buffer, true)] && Alternating(buffer, requests)
    {
      lastBlock := false;
      requests, session, settled := [], buffer, true;
      AlternatesGrows(Half(buffer, false), Half(buffer, true), []);
      Callback(false);
      AlternatesGrows(Half(buffer, false), Half(buffer, true), [Half(buffer, false)]);
      Callback(true);
    }

    /** The part of ac97StartPlay after the codec is ready. */
    method Begin()
      modifies this`interruptOn, this`lastBlock, this`requests, this`session, this`settled, this`toggle,
        this`middleIrq, this`endIrq, this`acPlay, this`playActive
      ensures Valid() && playActive && !lastBlock && settled && session == buffer && !middleIrq && !endIrq
      ensures requests == [Half(buffer, false), Half(buffer, true)]
    {
      interruptOn := true;
      Prefill();
      toggle := false;
      middleIrq, endIrq := false, false;
      acPlay := true;
      playActive := true;
    }

    method StartPlay(channels: int, codecReady: bool) returns (status: Status)
      requires Valid()
      modifies this
      ensures Valid() && buffer == old(buffer) && recActive == old(recActive)
      ensures status == if old(playActive) then PlayActive else if !recActive && !codecReady then CodecReset else Success
      ensures playActive == (status != CodecReset)
      ensures status != Success ==> requests == old(requests) && session == old(session)
      ensures status != Success ==> settled == old(settled) && lastBlock == old(lastBlock)
      ensures status == Success ==> requests == [Half(buffer, false), Half(buffer, true)]
      ensures status == Success ==> !lastBlock && settled && session == buffer && !middleIrq && !endIrq
      ensures status == Success ==> playLeft && playRight == (channels != 1)
    {
      if playActive {
        return PlayActive;
      }
      SelectChannels(channels);
      if !playActive && !recActive {
        if !codecReady {
          return CodecReset;
        }
      }
      Begin();
      status := Success;
    }

    method StopPlay() returns (status: Status)
      requires Valid()
      modifies this
      ensures Valid() && !playActive && !playLeft && !playRight
      ensures status == if old(playActive) then Success else PlayInactive
      ensures requests == old(requests) && session == old(session) && settled == old(settled)
      ensures buffer == old(buffer) && toggle == old(toggle) && lastBlock == old(lastBlock)
      ensures recActive == old(recActive) && middleIrq == old(middleIrq) && endIrq == old(endIrq)
    {
      playLeft, playRight := false, false;
      if !playActive {
        return PlayInactive;
      }
      acPlay := false;
      interruptOn := false;
      playActive := false;
      status := Success;
    }

    /** ac97_play_isr, whatever status bits are set; `answer` is what the callback returns. */
    method PlayIsr(answer: bool)
      requires Valid() && interruptOn
      modifies this
      ensures Valid()
      ensures requests == old(requests) + [Half(buffer, old(|requests|) % 2 == 1)]
      ensures playActive == !old(lastBlock) && lastBlock == answer && recActive == old(recActive)
      ensures middleIrq == (old(middleIrq) && old(toggle) && !old(lastBlock))
      ensures endIrq == (old(endIrq) && !old(toggle) && !old(lastBlock))
      ensures playLeft == (old(playLeft) && !old(lastBlock)) && playRight == (old(playRight) && !old(lastBlock))
      ensures session == old(session) && settled == old(settled) && buffer == old(buffer)
    {
      if settled {
        AlternatesGrows(Half(buffer, false), Half(buffer, true), requests);
      }
      if lastBlock {
        middleIrq, endIrq := false, false;
        var _ := StopPlay();
      }
      if !toggle {
        if middleIrq {
          middleIrq := false;
        }
        toggle := true;
        Callback(false);
        lastBlock := answer;
      } else {
        if endIrq {
          endIrq := false;
        }
        toggle := false;
        Callback(true);
        lastBlock := answer;
      }
    }

    /**
     Interrupts until none can come any more or the answers run out. The interrupt after the
     last block stops playing but still asks the client once more.
     */
    method PlayThrough(answers: seq<bool>) returns (served: nat)
      requires Valid() && playActive && !lastBlock
      modifies this
      ensures Valid() && settled == old(settled) && session == old(session)
      ensures served == Served(answers) <= |answers|
      ensures |requests| == |old(requests)| + served
      ensures playActive == !(served >= 2 && answers[served - 2])
    {
      served := 0;
      while served < |answers| && interruptOn
        invariant served <= |answers| && Valid()
        invariant settled == old(settled) && session == old(session)
        invariant |requests| == |old(requests)| + served
        invariant lastBlock == (served >= 1 && answers[served - 1])
        invariant playActive == !(served >= 2 && answers[served - 2])
        invariant forall i :: 0 <= i < served - 2 ==> !answers[i]
      {
        PlayIsr(answers[served]);
        served := served + 1;
      }
      ServedIs(answers, served);
    }
  }

  /** How many interrupt callbacks a client gets that answers so: one more than it asked for. */
  function Served(answers: seq<bool>): nat {
    if answers == [] then 0
    else if answers[0] then (if |answers| == 1 then 1 else 2)
    else 1 + Served(answers[1..])
  }

  /** A client that first answers "last block" at n is asked once more, and then never again. */
  lemma OneMoreThanAsked(answers: seq<bool>, n: nat)
    requires n < |answers| && answers[n] && forall i :: 0 <= i < n ==> !answers[i]
    ensures Served(answers) == if n + 1 == |answers| then n + 1 else n + 2
  {
    ServedIs(answers, if n + 1 == |answers| then n + 1 else n + 2);
  }

  /** A client that never answers "last block" is called at every interrupt. */
  lemma ServedAlways(answers: seq<bool>)
    requires forall i :: 0 <= i < |answers| ==> !answers[i]
    ensures Served(answers) == |answers|
  {
    ServedIs(answers, |answers|);
  }

  lemma {:induction false} ServedIs(answers: seq<bool>, n: nat)
    requires n <= |answers|
    requires forall i :: 0 <= i < n - 2 ==> !answers[i]
    requires n == |answers| || (n >= 2 && answers[n - 2])
    ensures Served(answers) == n
  {
    if answers != [] && !answers[0] {
      assert n >= 1;
      forall i | 0 <= i < n - 3
        ensures !answers[1..][i]
      {
        assert answers[1..][i] == answers[i + 1];
      }
      ServedIs(answers[1..], n - 1);
    }
  }
}
