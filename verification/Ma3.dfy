/**
 The MA3 wavetable player of Host/Audio/Src/W99702_MA3.c. The chip loops over a 1024-byte
 ring; the timer interrupt refills the stretch between the software position and the
 position the chip reports, wrapping at the end of the ring.
 */
module Ma3 {
  import opened Words
  import opened Sequences

  const RING := 1024

  /** One DMA transfer into the ring. */
  datatype Transfer = Transfer(offset: nat, size: nat)

  function Total(transfers: seq<Transfer>): nat {
    if transfers == [] then 0
    else Total(transfers[..|transfers| - 1]) + transfers[|transfers| - 1].size
  }

  /** Every transfer is nonempty, stays in the ring, and starts where the ones before it ended. */
  predicate Tiles(transfers: seq<Transfer>) {
    transfers == [] ||
    var earlier, last := transfers[..|transfers| - 1], transfers[|transfers| - 1];
    && Tiles(earlier)
    && last.size > 0 && last.offset + last.size <= RING
    && last.offset == Total(earlier) % RING
  }

  /** Ring position that byte k of the transferred stream is directed to. */
  function Placement(transfers: seq<Transfer>, k: nat): int
    requires k < Total(transfers)
  {
    var n := |transfers| - 1;
    var before := Total(transfers[..n]);
    if k < before then Placement(transfers[..n], k) else transfers[n].offset + (k - before)
  }

  /** Stream byte k goes to ring position k mod 1024; none is skipped or repeated. */
  lemma {:induction false} TilingPlacement(transfers: seq<Transfer>, k: nat)
    requires Tiles(transfers) && k < Total(transfers)
    ensures Placement(transfers, k) == k % RING
    decreases |transfers|
  {
    var n := |transfers| - 1;
    var before := Total(transfers[..n]);
    if k < before {
      TilingPlacement(transfers[..n], k);
    } else {
      WithinTransfer(before, k - before);
    }
  }

  lemma WithinTransfer(before: nat, d: nat)
    requires before % RING + d < RING
    ensures (before + d) % RING == before % RING + d
  {
  }

  lemma {:induction false} Extend(transfers: seq<Transfer>, t: Transfer)
    ensures Total(transfers + [t]) == Total(transfers) + t.size
    ensures Tiles(transfers + [t]) <==>
      Tiles(transfers) && t.size > 0 && t.offset + t.size <= RING && t.offset == Total(transfers) % RING
  {
    assert (transfers + [t])[..|transfers|] == transfers;
  }

  /** Headphone volumes of the two channels and the speaker volume. */
  datatype Analog = Analog(left: int, right: int, speaker: int)

  /** The two volumes of a packed volume word. */
  function LeftOf(volume: UInt16): UInt8 {
    volume / 0x100
  }

  function RightOf(volume: UInt16): UInt8 {
    volume % 0x100
  }

  datatype Status = Success | PlayActive | TransTimeout

  class Player {
    var playing: bool         // _bMA3Playing
    var isrInstalled: bool
    var softwarePg: nat       // _uSoftwarePG
    var changeVolume: bool    // _bChangeVolume
    var playVolume: UInt16    // _tMA3.sPlayVolume
    var analog: Analog        // the analog settings of the chip
    // bytes obtained from the client, and the transfers started, in this session
    ghost var fetched: nat
    ghost var transfers: seq<Transfer>
    ghost var timedOut: bool  // some transfer of the session was given up

    /** The software position follows the stream; transfers tile it exactly while none was given up;
        the chip plays at the volume asked for unless a change is pending. */
    ghost predicate Valid()
      reads this
    {
      && (isrInstalled ==> playing && softwarePg == fetched % RING)
      && softwarePg < RING && softwarePg % 32 == 0
      && Tiled()
      && (isrInstalled && !changeVolume ==> analog.left == LeftOf(playVolume) && analog.right == RightOf(playVolume))
    }

    ghost predicate Tiled()
      reads this
    {
      && (!timedOut ==> Tiles(transfers) && Total(transfers) == fetched)
      && (timedOut ==> Total(transfers) < fetched)
    }

    constructor ()
      ensures Valid() && !playing && !isrInstalled
    {
      playing, isrInstalled, changeVolume := false, false, false;
      softwarePg, fetched, transfers, timedOut := 0, 0, [], false;
      playVolume, analog := 0, Analog(0, 0, 0);
    }

    /** The client delivers `size` bytes, and ma3_start_dma sends them unless the wait times out. */
    method Refill(offset: nat, size: nat, ready: bool)
      modifies this`fetched, this`transfers, this`timedOut
      ensures fetched == old(fetched) + size
      ensures transfers == if ready then old(transfers) + [Transfer(offset, size)] else old(transfers)
      ensures timedOut == (old(timedOut) || !ready)
    {
      fetched := fetched + size;
      if !ready {
        timedOut := true;
        return;
      }
      transfers := transfers + [Transfer(offset, size)];
    }

    /** The callback and the transfer for the whole ring that open a session. */
    method Prefill(ready: bool)
      modifies this`fetched, this`transfers, this`timedOut
      ensures Tiled() && fetched == RING && timedOut == !ready
      ensures transfers == If(ready, Transfer(0, RING))
    {
      fetched, transfers, timedOut := 0, [], false;
      Extend([], Transfer(0, RING));
      Refill(0, RING, ready);
      assert [] + [Transfer(0, RING)] == [Transfer(0, RING)];
    }

    /** The prefill of ma3StartPlay and what follows it. */
    method StartPlay(ready: bool, drained: bool) returns (status: Status)
      requires Valid()
      modifies this
      ensures Valid()
      ensures status == if old(playing) then PlayActive else if drained then Success else TransTimeout
      ensures status == Success ==> isrInstalled && softwarePg == 0
      ensures status == PlayActive ==> isrInstalled == old(isrInstalled) && softwarePg == old(softwarePg)
      ensures status == PlayActive ==> fetched == old(fetched) && transfers == old(transfers) && timedOut == old(timedOut)
      ensures status != PlayActive ==> fetched == RING && timedOut == !ready
      ensures status != PlayActive ==> transfers == if ready then [Transfer(0, RING)] else []
      ensures status == TransTimeout ==> isrInstalled == old(isrInstalled)
      ensures status != PlayActive ==> analog == Analog(LeftOf(playVolume), RightOf(playVolume), 0x13)
      ensures playing
      ensures playVolume == if old(playing) || old(playVolume) != 0 then old(playVolume) else 0x1010
    {
      if playing {
        return PlayActive;
      }
      InitVolume();
      playing := true;
      Prefill(ready);
      if !drained {
        return TransTimeout;
      }
      softwarePg := 0;
      isrInstalled := true;
      status := Success;
    }

    /** ma3StopPlay; the interrupt is disabled even when the wait times out. */
    method StopPlay(drained: bool) returns (status: Status)
      requires Valid()
      modifies this`isrInstalled, this`playing
      ensures Valid() && !isrInstalled
      ensures status == if drained then Success else TransTimeout
      ensures playing == (old(playing) && !drained)
    {
      isrInstalled := false;
      if !drained {
        return TransTimeout;
      }
      playing := false;
      status := Success;
    }

    /** The part of ma3_init that concerns the volume: never silent, and the speaker at a fixed level. */
    method InitVolume()
      modifies this`playVolume, this`analog
      ensures playVolume == if old(playVolume) == 0 then 0x1010 else old(playVolume)
      ensures analog == Analog(LeftOf(playVolume), RightOf(playVolume), 0x13)
    {
      if playVolume == 0 {
        playVolume := 0x1010;
      }
      analog := Unpacked().(speaker := 0x13);
    }

    /** `volume >> 8` and `volume & 0xff`, as the settings are written. */
    function Unpacked(): (a: Analog)
      reads this
      ensures a == Analog(LeftOf(playVolume), RightOf(playVolume), LeftOf(playVolume))
    {
      Pow2Table();
      AndMask(playVolume, 8);
      Analog(Asr(playVolume, 8), And(playVolume, 0xff), Asr(playVolume, 8))
    }

    /** ma3SetPlayVolume: the packed word gives both volumes back, and nothing reaches the chip yet. */
    method SetPlayVolume(left: UInt8, right: UInt8)
      requires Valid()
      modifies this`changeVolume, this`playVolume
      ensures Valid() && changeVolume
      ensures LeftOf(playVolume) == left && RightOf(playVolume) == right
    {
      PackedVolume(left, right);
      playVolume := Or(Lsl(left, 8), right);
      changeVolume := true;
    }

    /** Set a volume, then let any interrupt that does not find the chip busy pass: the chip has it. */
    method VolumeReachesChip(left: UInt8, right: UInt8, pageLeft: int, pageRight: int, ready1: bool, ready2: bool)
      requires Valid() && isrInstalled
      modifies this
      ensures Valid() && isrInstalled && !changeVolume
      ensures analog == Analog(left, right, left)
    {
      SetPlayVolume(left, right);
      var _ := DmaIsr(true, pageLeft, pageRight, ready1, ready2);
    }

    /** `(register & 0x1f) << 5`: a five-bit page register of the chip, in bytes. */
    static function Position(register: int): (p: nat)
      ensures p == (register % 32) * 32
    {
      Pow2Table();
      AndMask(register, 5);
      Lsl(And(register, 0x1f), 5)
    }

    /** The position the chip reports for both channels: the one further behind. */
    static function Reported(left: int, right: int): (pg: nat)
      ensures pg == left % 32 * 32 || pg == right % 32 * 32
      ensures pg <= left % 32 * 32 && pg <= right % 32 * 32
    {
      if Position(left) > Position(right) then Position(right) else Position(left)
    }

    /**
     ma3_dma_isr. `idle`: the wait at its start succeeds; `ready1`, `ready2`: the waits before
     its transfers do; `left`, `right`: the page registers.
     */
    method DmaIsr(idle: bool, left: int, right: int, ready1: bool, ready2: bool) returns (status: Status)
      requires Valid() && isrInstalled
      modifies this
      ensures Valid() && isrInstalled
      ensures status == if idle then Success else TransTimeout
      ensures idle ==> softwarePg == Reported(left, right) && !changeVolume
      ensures idle ==> softwarePg == left % 32 * 32 || softwarePg == right % 32 * 32
      ensures idle ==> softwarePg <= left % 32 * 32 && softwarePg <= right % 32 * 32
      ensures idle ==> fetched == old(fetched) + Gap(old(softwarePg), Reported(left, right))
      ensures idle ==>
        && transfers == old(transfers) + Sent(old(softwarePg), Reported(left, right), ready1, ready2)
        && timedOut == (old(timedOut) || GivenUp(old(softwarePg), Reported(left, right), ready1, ready2))
      ensures !idle ==> fetched == old(fetched) && transfers == old(transfers) && softwarePg == old(softwarePg)
      ensures !idle ==> timedOut == old(timedOut)
      ensures playVolume == old(playVolume)
      ensures analog == if idle && old(changeVolume)
                        then Analog(LeftOf(playVolume), RightOf(playVolume), LeftOf(playVolume)) else old(analog)
    {
      if !idle {
        return TransTimeout;
      }
      DeliverVolume();
      var pg := ReadPosition(left, right);
      CatchUp(pg, ready1, ready2);
      status := Success;
    }

    /** A changed volume goes to the chip. */
    method DeliverVolume()
      modifies this`changeVolume, this`analog
      ensures !changeVolume
      ensures analog == if old(changeVolume)
                        then Analog(LeftOf(playVolume), RightOf(playVolume), LeftOf(playVolume)) else old(analog)
    {
      if changeVolume {
        analog := Unpacked();
        changeVolume := false;
      }
    }

    /** The two page registers; the slower channel decides. */
    static method ReadPosition(left: int, right: int) returns (pg: nat)
      ensures pg == Reported(left, right) < RING && pg % 32 == 0
      ensures pg == left % 32 * 32 || pg == right % 32 * 32
      ensures pg <= left % 32 * 32 && pg <= right % 32 * 32
    {
      var pg0, pg1 := Position(left), Position(right);
      pg := if pg0 > pg1 then pg1 else pg0;
    }

    /** The refill of the interrupt, in one or two transfers. */
    method CatchUp(pg: nat, ready1: bool, ready2: bool)
      requires Tiled() && softwarePg == fetched % RING && pg < RING
      modifies this`fetched, this`transfers, this`timedOut, this`softwarePg
      ensures Tiled() && softwarePg == fetched % RING == pg
      ensures fetched == old(fetched) + Gap(old(softwarePg), pg)
      ensures timedOut == (old(timedOut) || GivenUp(old(softwarePg), pg, ready1, ready2))
      ensures transfers == old(transfers) + Sent(old(softwarePg), pg, ready1, ready2)
    {
      if softwarePg == pg {
      } else if softwarePg < pg {
        SendUpTo(pg, ready1);
      } else {
        GoRound(pg, ready1, ready2);
      }
    }

    /** To the end of the ring and, unless the chip stands at its start, on from there. */
    method GoRound(pg: nat, ready1: bool, ready2: bool)
      requires Tiled() && softwarePg == fetched % RING && pg < softwarePg
      modifies this`fetched, this`transfers, this`timedOut, this`softwarePg
      ensures Tiled() && softwarePg == fetched % RING == pg
      ensures fetched == old(fetched) + (RING - old(softwarePg) + pg)
      ensures timedOut == (old(timedOut) || GivenUp(old(softwarePg), pg, ready1, ready2))
      ensures transfers == old(transfers) + Sent(old(softwarePg), pg, ready1, ready2)
    {
      ghost var start, first := transfers, If(ready1, Transfer(softwarePg, RING - softwarePg));
      SendUpTo(RING, ready1);
      if pg > 0 {
        SendUpTo(pg, ready2);
        Regroup(start, first, If(ready2, Transfer(0, pg)));
      }
    }

    /** One callback and one transfer, from the software position to `end`, and the position after it. */
    method SendUpTo(end: nat, ready: bool)
      requires Tiled() && softwarePg == fetched % RING && softwarePg < end <= RING
      modifies this`fetched, this`transfers, this`timedOut, this`softwarePg
      ensures Tiled() && softwarePg == fetched % RING == if end == RING then 0 else end
      ensures fetched == old(fetched) + (end - old(softwarePg))
      ensures timedOut == (old(timedOut) || !ready)
      ensures transfers == old(transfers) + If(ready, Transfer(old(softwarePg), end - old(softwarePg)))
    {
      Extend(transfers, Transfer(softwarePg, end - softwarePg));
      Refill(softwarePg, end - softwarePg, ready);
      softwarePg := if end == RING then 0 else end;
    }

    /**
     Any number of interrupts, whatever waits fail: where the software position ends and whether
     bytes were lost are known from the reports, and nothing is lost if and only if the transfers
     of the session still tile the ring with everything that was fetched.
     */
    method RunIsrs(run: seq<Irq>)
      requires Valid() && isrInstalled
      modifies this
      ensures Valid() && isrInstalled
      ensures softwarePg == EndsAt(old(softwarePg), run)
      ensures timedOut == (old(timedOut) || Loses(old(softwarePg), run))
      ensures !timedOut <==> Tiles(transfers) && Total(transfers) == fetched
    {
      var i := 0;
      while i < |run|
        invariant i <= |run| && Valid() && isrInstalled
        invariant softwarePg == EndsAt(old(softwarePg), run[..i])
        invariant timedOut == (old(timedOut) || Loses(old(softwarePg), run[..i]))
      {
        var irq := run[i];
        assert run[..i + 1] == run[..i] + [irq];
        var _ := DmaIsr(irq.idle, irq.left, irq.right, irq.ready1, irq.ready2);
        i := i + 1;
      }
      assert run[..i] == run;
    }
  }

  /** A session whose first interrupt finds the chip one page on and waits in vain: 32 bytes are fetched and lost. */
  method BytesLost() returns (p: Player)
    ensures p.Valid() && p.isrInstalled && p.softwarePg == 32
    ensures p.fetched == RING + 32 && p.transfers == [Transfer(0, RING)]
    ensures p.timedOut && Total(p.transfers) < p.fetched
  {
    p := new Player();
    var _ := p.StartPlay(true, true);
    var _ := p.DmaIsr(true, 1, 1, false, true);
    assert [Transfer(0, RING)] + [] == [Transfer(0, RING)];
  }

  /** One interrupt: whether the chip is idle, its page registers, and the waits before the transfers. */
  datatype Irq = Irq(idle: bool, left: int, right: int, ready1: bool, ready2: bool)

  /** The software position after a run. */
  function EndsAt(pg: nat, run: seq<Irq>): nat {
    if run == [] then pg
    else
      var last := run[|run| - 1];
      if last.idle then Player.Reported(last.left, last.right) else EndsAt(pg, run[..|run| - 1])
  }

  /** Some refill of the run is given up. */
  predicate Loses(pg: nat, run: seq<Irq>) {
    run != [] &&
    var earlier, last := run[..|run| - 1], run[|run| - 1];
    || Loses(pg, earlier)
    || (last.idle && GivenUp(EndsAt(pg, earlier), Player.Reported(last.left, last.right), last.ready1, last.ready2))
  }

  /** The run ends where the slower channel stood at the last interrupt that found the chip idle. */
  lemma {:induction false} EndsAtLastReport(pg: nat, run: seq<Irq>, i: nat)
    requires i < |run| && run[i].idle && forall j :: i < j < |run| ==> !run[j].idle
    ensures EndsAt(pg, run) == Player.Reported(run[i].left, run[i].right)
  {
    if i < |run| - 1 {
      EndsAtLastReport(pg, run[..|run| - 1], i);
    }
  }

  lemma {:induction false} StaysWithoutReport(pg: nat, run: seq<Irq>)
    requires forall j :: 0 <= j < |run| ==> !run[j].idle
    ensures EndsAt(pg, run) == pg && !Loses(pg, run)
  {
    if run != [] {
      StaysWithoutReport(pg, run[..|run| - 1]);
    }
  }

  ghost predicate LosesAt(pg: nat, run: seq<Irq>, i: nat)
    requires i < |run|
  {
    run[i].idle && GivenUp(EndsAt(pg, run[..i]), Player.Reported(run[i].left, run[i].right), run[i].ready1, run[i].ready2)
  }

  /** A run loses bytes if and only if one of its interrupts gives a refill up. */
  lemma {:induction false} LosesSomewhere(pg: nat, run: seq<Irq>)
    ensures Loses(pg, run) <==> exists i :: 0 <= i < |run| && LosesAt(pg, run, i)
  {
    if run != [] {
      var n := |run| - 1;
      var earlier := run[..n];
      LosesSomewhere(pg, earlier);
      forall i | 0 <= i < n
        ensures LosesAt(pg, run, i) == LosesAt(pg, earlier, i)
      {
        assert earlier[..i] == run[..i];
      }
      assert LosesAt(pg, run, n) ==> Loses(pg, run);
      if exists i :: 0 <= i < |run| && LosesAt(pg, run, i) {
        var i :| 0 <= i < |run| && LosesAt(pg, run, i);
        assert i < n ==> LosesAt(pg, earlier, i);
      }
    }
  }

  /** Nothing is lost when every wait succeeds. */
  lemma {:induction false} ReadyLosesNothing(pg: nat, run: seq<Irq>)
    requires forall i :: 0 <= i < |run| ==> run[i].ready1 && run[i].ready2
    ensures !Loses(pg, run)
  {
    if run != [] {
      ReadyLosesNothing(pg, run[..|run| - 1]);
    }
  }

  lemma PackedVolume(left: UInt8, right: UInt8)
    ensures Or(Lsl(left, 8), right) == left * 0x100 + right
  {
    assert Lsl(left, 8) == left * 0x100 && Pow2(8) == 0x100 by {
      Pow2Table();
    }
    OrDisjoint(left * 0x100, right, 8);
  }

  /** Bytes between two ring positions, going forward. */
  function Gap(from: nat, to: nat): int {
    if from <= to then to - from else RING - from + to
  }

  /** Going forward by the gap leads there, and the gap is less than a lap. */
  lemma GapLeads(from: nat, to: nat)
    requires from < RING && to < RING
    ensures 0 <= Gap(from, to) < RING && (from + Gap(from, to)) % RING == to
  {
  }

  function If(ready: bool, t: Transfer): seq<Transfer> {
    if ready then [t] else []
  }

  /** The transfers started on the way from one position to another, given which waits succeed. */
  function Sent(from: nat, to: nat, ready1: bool, ready2: bool): seq<Transfer>
    requires from < RING
  {
    if from == to then []
    else if from < to then If(ready1, Transfer(from, to - from))
    else if to == 0 then If(ready1, Transfer(from, RING - from))
    else If(ready1, Transfer(from, RING - from)) + If(ready2, Transfer(0, to))
  }

  /** A wait that is reached fails. */
  predicate GivenUp(from: nat, to: nat, ready1: bool, ready2: bool) {
    from != to && (!ready1 || (0 < to < from && !ready2))
  }

  /** A refill falls short of the bytes fetched for it exactly when it is given up. */
  lemma {:induction false} GivenUpIsShort(from: nat, to: nat, ready1: bool, ready2: bool)
    requires from < RING && to < RING
    ensures Total(Sent(from, to, ready1, ready2)) <= Gap(from, to)
    ensures GivenUp(from, to, ready1, ready2) <==> Total(Sent(from, to, ready1, ready2)) < Gap(from, to)
  {
    TotalOfTwo(ready1, Transfer(from, if from < to then to - from else RING - from), ready2, Transfer(0, to));
  }

  lemma {:induction false} TotalOfTwo(ready1: bool, t1: Transfer, ready2: bool, t2: Transfer)
    ensures Total(If(ready1, t1)) == if ready1 then t1.size else 0
    ensures Total(If(ready1, t1) + If(ready2, t2)) == Total(If(ready1, t1)) + if ready2 then t2.size else 0
  {
    Extend([], t1);
    assert [] + [t1] == [t1];
    if ready2 {
      Extend(If(ready1, t1), t2);
    } else {
      assert If(ready1, t1) + [] == If(ready1, t1);
    }
  }

  predicate Covers(transfers: seq<Transfer>, p: int) {
    exists i :: 0 <= i < |transfers| && transfers[i].offset <= p < transfers[i].offset + transfers[i].size
  }

  /** The ring positions refilled are those ahead of the software position, each stretch if its own wait succeeds. */
  lemma SentCovers(from: nat, to: nat, ready1: bool, ready2: bool, p: nat)
    requires from < RING && to < RING && p < RING
    ensures Covers(Sent(from, to, ready1, ready2), p) <==>
      (p - from) % RING < Gap(from, to) && (if p >= from then ready1 else ready2)
  {
    var sent := Sent(from, to, ready1, ready2);
    if from < to {
      assert ready1 ==> sent[0] == Transfer(from, to - from);
    } else if from > to {
      assert ready1 ==> sent[0] == Transfer(from, RING - from);
      assert ready2 && to > 0 ==> sent[|sent| - 1] == Transfer(0, to);
    }
  }
}
