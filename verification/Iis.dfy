/**
 The IIS driver of Host/Audio/Src/W99702_IIS.c: the play interrupt reads the DMA status
 to choose the buffer half, and a client that answers with a nonzero value ends playing.
 Each API call, interrupt and hardware status change is one step.
 */
module Iis {

  datatype Event =
    | StartPlay(channels: int)
    | StopPlay
    | StartRecord(channels: int, leftOnly: bool)
    | StopRecord
    | DmaProgress(middle: bool, end: bool)  // the DMA raises status bits
    | PlayIrq(answer: bool)                 // answer: what the client's callback returns, if called
    | RecordProgress(middle: bool, end: bool)
    | RecordIrq

  predicate IsRecordEvent(e: Event) {
    e.StartRecord? || e.StopRecord? || e.RecordProgress? || e.RecordIrq?
  }

  // --------------------------------------------------------------------------
  // The driver in terms of what the client sees
  // --------------------------------------------------------------------------

  /** callbacks and recCallbacks count the calls of the client's play and record callbacks. */
  datatype View = View(playing: bool, recording: bool, lastBlock: bool, middleIrq: bool, endIrq: bool, callbacks: nat,
                       recMiddleIrq: bool, recEndIrq: bool, recCallbacks: nat)

  function Step(v: View, e: Event): View {
    match e
    case StartPlay(_) =>
      if v.playing then v
      else v.(playing := true, lastBlock := false, middleIrq := false, endIrq := false, callbacks := v.callbacks + 2)
    case StopPlay => v.(playing := false)
    case StartRecord(_, _) =>
      if v.recording then v else v.(recording := true, recMiddleIrq := false, recEndIrq := false)
    case StopRecord => v.(recording := false)
    case DmaProgress(middle, end) => v.(middleIrq := v.middleIrq || middle, endIrq := v.endIrq || end)
    case PlayIrq(answer) => if v.playing then Isr(v, answer) else v
    case RecordProgress(middle, end) => v.(recMiddleIrq := v.recMiddleIrq || middle, recEndIrq := v.recEndIrq || end)
    case RecordIrq => if v.recording then RecordIsr(v) else v
  }

  /** One status bit is served per record interrupt, the middle one first. */
  function RecordIsr(v: View): View {
    if v.recMiddleIrq then v.(recMiddleIrq := false, recCallbacks := v.recCallbacks + 1)
    else if v.recEndIrq then v.(recEndIrq := false, recCallbacks := v.recCallbacks + 1)
    else v
  }

  function Isr(v: View, answer: bool): View {
    var v := if v.lastBlock then v.(playing := false, middleIrq := false, endIrq := false) else v;
    if v.middleIrq then v.(middleIrq := false, lastBlock := answer, callbacks := v.callbacks + 1)
    else if v.endIrq then v.(endIrq := false, lastBlock := answer, callbacks := v.callbacks + 1)
    else v
  }

  function Run(v: View, events: seq<Event>): View
    decreases |events|
  {
    if events == [] then v else Run(Step(v, events[0]), events[1..])
  }

  /** No i2sStartPlay of the run is accepted. */
  predicate NoRestart(v: View, events: seq<Event>)
    decreases |events|
  {
    events == [] || ((events[0].StartPlay? ==> v.playing) && NoRestart(Step(v, events[0]), events[1..]))
  }

  predicate Stopping(e: Event) {
    e.PlayIrq? || e.StopPlay?
  }

  /**
   After a callback has answered with a nonzero value, no run without a new start calls the
   client again, and playing ends exactly with the first play interrupt or stop call.
   */
  lemma {:induction false} SilentAfterLastBlock(v: View, events: seq<Event>)
    requires v.lastBlock && NoRestart(v, events)
    ensures Run(v, events).callbacks == v.callbacks
    ensures Run(v, events).lastBlock
    ensures Run(v, events).playing <==> v.playing && forall i :: 0 <= i < |events| ==> !Stopping(events[i])
    decreases |events|
  {
    if events != [] {
      var e, rest := events[0], events[1..];
      SilentStep(v, e);
      SilentAfterLastBlock(Step(v, e), rest);
      NoneStopping(events);
    }
  }

  lemma SilentStep(v: View, e: Event)
    requires v.lastBlock && (e.StartPlay? ==> v.playing)
    ensures Step(v, e).lastBlock && Step(v, e).callbacks == v.callbacks
    ensures Step(v, e).playing <==> v.playing && !Stopping(e)
  {
    if e.PlayIrq? {
      assert Isr(v, e.answer) == v.(playing := false, middleIrq := false, endIrq := false);
    }
  }

  lemma NoneStopping(events: seq<Event>)
    requires events != []
    ensures (forall i :: 0 <= i < |events| ==> !Stopping(events[i])) <==>
      !Stopping(events[0]) && forall i :: 0 <= i < |events[1..]| ==> !Stopping(events[1..][i])
  {
    var rest := events[1..];
    assert forall i :: 0 <= i < |rest| ==> rest[i] == events[i + 1];
    assert forall i :: 1 <= i < |events| ==> events[i] == rest[i - 1];
  }

  // --------------------------------------------------------------------------
  // What the calls are for
  // --------------------------------------------------------------------------

  /** Whether the last start or stop of the recording among the events is a start; if there is none, `before`. */
  predicate RecordWanted(before: bool, events: seq<Event>) {
    if events == [] then before
    else
      var n := |events| - 1;
      events[n].StartRecord? || (!events[n].StopRecord? && RecordWanted(before, events[..n]))
  }

  predicate PlayWanted(before: bool, events: seq<Event>) {
    if events == [] then before
    else
      var n := |events| - 1;
      events[n].StartPlay? || (!events[n].StopPlay? && PlayWanted(before, events[..n]))
  }

  lemma RecordStep(v: View, e: Event)
    ensures Step(v, e).recording == (e.StartRecord? || (!e.StopRecord? && v.recording))
  {
  }

  lemma PlayStep(v: View, e: Event)
    requires !v.lastBlock && (e.PlayIrq? ==> !e.answer)
    ensures Step(v, e).playing == (e.StartPlay? || (!e.StopPlay? && v.playing))
    ensures !Step(v, e).lastBlock
  {
  }

  /** It records if and only if the last start or stop of the recording was a start. */
  lemma {:induction false} RecordsAsWanted(v: View, events: seq<Event>)
    ensures Run(v, events).recording == RecordWanted(v.recording, events)
    decreases |events|
  {
    if events != [] {
      var n := |events| - 1;
      assert events == events[..n] + [events[n]];
      RunAppend(v, events[..n], events[n]);
      RecordStep(Run(v, events[..n]), events[n]);
      RecordsAsWanted(v, events[..n]);
    }
  }

  /** A client that never announces a last block is played to exactly as it started and stopped. */
  lemma {:induction false} PlaysAsWanted(v: View, events: seq<Event>)
    requires !v.lastBlock && forall i :: 0 <= i < |events| && events[i].PlayIrq? ==> !events[i].answer
    ensures Run(v, events).playing == PlayWanted(v.playing, events)
    ensures !Run(v, events).lastBlock
    decreases |events|
  {
    if events != [] {
      var n := |events| - 1;
      assert events == events[..n] + [events[n]];
      RunAppend(v, events[..n], events[n]);
      PlaysAsWanted(v, events[..n]);
      PlayStep(Run(v, events[..n]), events[n]);
    }
  }

  /** The DMA finishes halves one by one, the upper one where true, and interrupts after each. */
  function PlayRounds(halves: seq<bool>): seq<Event> {
    if halves == [] then [] else [DmaProgress(!halves[0], halves[0]), PlayIrq(false)] + PlayRounds(halves[1..])
  }

  function RecordRounds(halves: seq<bool>): seq<Event> {
    if halves == [] then [] else [RecordProgress(!halves[0], halves[0]), RecordIrq] + RecordRounds(halves[1..])
  }

  /** While playing, every half the DMA has finished is asked for once. */
  lemma {:induction false} PlayRoundsServed(v: View, halves: seq<bool>)
    requires v.playing && !v.lastBlock && !v.middleIrq && !v.endIrq
    ensures Run(v, PlayRounds(halves)) == v.(callbacks := v.callbacks + |halves|)
    decreases |halves|
  {
    if halves != [] {
      var rest := PlayRounds(halves[1..]);
      TwoSteps(v, DmaProgress(!halves[0], halves[0]), PlayIrq(false), rest);
      var raised := Step(v, DmaProgress(!halves[0], halves[0]));
      assert raised == v.(middleIrq := !halves[0], endIrq := halves[0]);
      assert Step(raised, PlayIrq(false)) == v.(callbacks := v.callbacks + 1);
      PlayRoundsServed(v.(callbacks := v.callbacks + 1), halves[1..]);
    }
  }

  /** While recording, every half the DMA has filled is handed out once. */
  lemma {:induction false} RecordRoundsServed(v: View, halves: seq<bool>)
    requires v.recording && !v.recMiddleIrq && !v.recEndIrq
    ensures Run(v, RecordRounds(halves)) == v.(recCallbacks := v.recCallbacks + |halves|)
    decreases |halves|
  {
    if halves != [] {
      var rest := RecordRounds(halves[1..]);
      TwoSteps(v, RecordProgress(!halves[0], halves[0]), RecordIrq, rest);
      var raised := Step(v, RecordProgress(!halves[0], halves[0]));
      assert raised == v.(recMiddleIrq := !halves[0], recEndIrq := halves[0]);
      assert Step(raised, RecordIrq) == v.(recCallbacks := v.recCallbacks + 1);
      RecordRoundsServed(v.(recCallbacks := v.recCallbacks + 1), halves[1..]);
    }
  }

  lemma TwoSteps(v: View, e: Event, f: Event, rest: seq<Event>)
    ensures Run(v, [e, f] + rest) == Run(Step(Step(v, e), f), rest)
  {
    assert ([e, f] + rest)[1..] == [f] + rest;
    assert ([f] + rest)[1..] == rest;
  }

  lemma {:induction false} RunAppend(v: View, a: seq<Event>, e: Event)
    ensures Run(v, a + [e]) == Step(Run(v, a), e)
    decreases |a|
  {
    if a == [] {
      assert ([] + [e])[1..] == [];
    } else {
      assert (a + [e])[1..] == a[1..] + [e];
      RunAppend(Step(v, a[0]), a[1..], e);
    }
  }

  // --------------------------------------------------------------------------
  // The driver in terms of its registers
  // --------------------------------------------------------------------------

  datatype Status = Success | PlayActive | PlayInactive | RecActive | RecInactive

  datatype PlaySide = PlaySide(
    running: bool,    // IIS_PLAY in ACTL_RESET
    left: bool,       // PLAY_LEFT_CHNNEL
    right: bool,      // PLAY_RIGHT_CHNNEL
    middleIrq: bool,  // P_DMA_MIDDLE_IRQ in ACTL_PSR, cleared by writing one
    endIrq: bool,     // P_DMA_END_IRQ
    attached: bool,   // the play interrupt
    active: bool,     // IIS_PLAY_ACTIVE
    lastBlock: bool)  // _tIIS.bPlayLastBlock

  datatype RecordSide = RecordSide(
    running: bool,    // IIS_RECORD
    left: bool,       // RECORD_LEFT_CHNNEL
    right: bool,      // RECORD_RIGHT_CHNNEL
    middleIrq: bool,  // R_DMA_MIDDLE_IRQ in ACTL_RSR
    endIrq: bool,     // R_DMA_END_IRQ
    attached: bool,   // the record interrupt
    active: bool)     // IIS_REC_ACTIVE

  datatype BufferHalf = Lower | Upper

  class Driver {
    var interfaceOn: bool  // IIS_EN and the other enables iis_init sets in ACTL_CON
    var play: PlaySide
    var rec: RecordSide
    ghost var requests: seq<BufferHalf>  // what the client's play callback was asked for
    ghost var handed: seq<BufferHalf>    // what the client's record callback was given

    /** A direction's run bit and interrupt are on exactly while its active flag is. */
    predicate Valid()
      reads this
    {
      && play.running == play.attached == play.active
      && rec.running == rec.attached == rec.active
    }

    ghost function State(): View
      reads this
    {
      View(play.active, rec.active, play.lastBlock, play.middleIrq, play.endIrq, |requests|,
           rec.middleIrq, rec.endIrq, |handed|)
    }

    constructor ()
      ensures Valid() && !play.active && !rec.active && requests == [] && handed == []
    {
      interfaceOn, requests, handed := false, [], [];
      play := PlaySide(false, false, false, false, false, false, false, false);
      rec := RecordSide(false, false, false, false, false, false, false);
    }

    method Callback(half: BufferHalf)
      modifies this`requests
      ensures requests == old(requests) + [half]
    {
      requests := requests + [half];
    }

    method I2sStartPlay(channels: int) returns (status: Status)
      requires Valid()
      modifies this`interfaceOn, this`play, this`requests
      ensures Valid() && State() == Step(old(State()), StartPlay(channels))
      ensures status == if old(play.active) then PlayActive else Success
      ensures play.active && play.running && play.attached
      ensures interfaceOn == (old(interfaceOn) || (status == Success && !rec.active))
      ensures status == PlayActive ==> play == old(play) && requests == old(requests)
      ensures status == Success ==> requests == old(requests) + [Lower, Upper]
      ensures status == Success ==> !play.lastBlock && !play.middleIrq && !play.endIrq
      ensures status == Success ==> play.left && play.right == (channels != 1)
    {
      if play.active {
        return PlayActive;
      }
      play := play.(right := channels != 1, left := true);
      if !play.active && !rec.active {
        interfaceOn := true;
      }
      play := play.(attached := true, lastBlock := false);
      Callback(Lower);
      Callback(Upper);
      play := play.(middleIrq := false, endIrq := false, running := true, active := true);
      status := Success;
    }

    method I2sStopPlay() returns (status: Status)
      requires Valid()
      modifies this`play
      ensures Valid() && State() == Step(old(State()), StopPlay)
      ensures status == if old(play.active) then Success else PlayInactive
      ensures !play.active && !play.running && !play.attached && !play.left && !play.right
      ensures play.lastBlock == old(play.lastBlock)
      ensures play.middleIrq == old(play.middleIrq) && play.endIrq == old(play.endIrq)
    {
      play := play.(right := false, left := false);
      if !play.active {
        return PlayInactive;
      }
      play := play.(running := false, attached := false, active := false);
      status := Success;
    }

    /** iis_play_isr: once stopped, the status it has just cleared keeps it from calling the client. */
    method IisPlayIsr(answer: bool)
      requires Valid() && play.attached
      modifies this`interfaceOn, this`play, this`requests
      ensures Valid() && State() == Step(old(State()), PlayIrq(answer))
      ensures requests == old(requests) +
        if old(play.lastBlock) then [] else if old(play.middleIrq) then [Lower] else if old(play.endIrq) then [Upper] else []
      ensures old(play.lastBlock) ==> !play.running && !play.attached && !play.left && !play.right
      ensures play.active == !old(play.lastBlock) && interfaceOn
      ensures play.lastBlock == if requests == old(requests) then old(play.lastBlock) else answer
      ensures !play.middleIrq
      ensures play.endIrq == (old(play.endIrq) && old(play.middleIrq) && !old(play.lastBlock))
      ensures !old(play.lastBlock) ==> play.left == old(play.left) && play.right == old(play.right)
    {
      interfaceOn := true;
      if play.lastBlock {
        play := play.(middleIrq := false, endIrq := false);
        var _ := I2sStopPlay();
      }
      if play.middleIrq {
        Callback(Lower);
        play := play.(middleIrq := false, lastBlock := answer);
      } else if play.endIrq {
        Callback(Upper);
        play := play.(endIrq := false, lastBlock := answer);
      }
    }

    method I2sStartRecord(channels: int, leftOnly: bool) returns (status: Status)
      requires Valid()
      modifies this`interfaceOn, this`rec
      ensures Valid() && State() == Step(old(State()), StartRecord(channels, leftOnly))
      ensures status == if old(rec.active) then RecActive else Success
      ensures rec.active && rec.running && rec.attached
      ensures interfaceOn == (old(interfaceOn) || (status == Success && !play.active))
      ensures status == RecActive ==> rec == old(rec)
      ensures status == Success ==> !rec.middleIrq && !rec.endIrq
      ensures status == Success ==> rec.left == (channels != 1 || leftOnly) && rec.right == (channels != 1 || !leftOnly)
    {
      if rec.active {
        return RecActive;
      }
      rec := rec.(left := channels != 1 || leftOnly, right := channels != 1 || !leftOnly);
      if !play.active && !rec.active {
        interfaceOn := true;
      }
      rec := rec.(attached := true, middleIrq := false, endIrq := false, running := true, active := true);
      status := Success;
    }

    method I2sStopRecord() returns (status: Status)
      requires Valid()
      modifies this`rec
      ensures Valid() && State() == Step(old(State()), StopRecord)
      ensures status == if old(rec.active) then Success else RecInactive
      ensures !rec.active && !rec.running && !rec.attached && !rec.left && !rec.right
      ensures rec.middleIrq == old(rec.middleIrq) && rec.endIrq == old(rec.endIrq)
    {
      rec := rec.(right := false, left := false);
      if !rec.active {
        return RecInactive;
      }
      rec := rec.(running := false, attached := false, active := false);
      status := Success;
    }

    /** iis_rec_isr */
    method IisRecIsr()
      requires Valid() && rec.attached
      modifies this`interfaceOn, this`rec, this`handed
      ensures Valid() && State() == Step(old(State()), RecordIrq)
      ensures handed == old(handed) + if old(rec.middleIrq) then [Lower] else if old(rec.endIrq) then [Upper] else []
      ensures !rec.middleIrq && rec.endIrq == (old(rec.endIrq) && old(rec.middleIrq)) && interfaceOn
      ensures rec.active && rec.left == old(rec.left) && rec.right == old(rec.right)
    {
      interfaceOn := true;
      if rec.middleIrq {
        rec := rec.(middleIrq := false);
        handed := handed + [Lower];
      } else if rec.endIrq {
        rec := rec.(endIrq := false);
        handed := handed + [Upper];
      }
    }

    method DispatchPlay(e: Event)
      requires Valid() && !IsRecordEvent(e)
      modifies this`interfaceOn, this`play, this`requests
      ensures Valid() && State() == Step(old(State()), e)
    {
      match e {
        case StartPlay(channels) => var _ := I2sStartPlay(channels);
        case StopPlay => var _ := I2sStopPlay();
        case DmaProgress(middle, end) =>
          play := play.(middleIrq := play.middleIrq || middle, endIrq := play.endIrq || end);
        case PlayIrq(answer) =>
          if play.attached {
            IisPlayIsr(answer);
          }
      }
    }

    method DispatchRecord(e: Event)
      requires Valid() && IsRecordEvent(e)
      modifies this`interfaceOn, this`rec, this`handed
      ensures Valid() && State() == Step(old(State()), e)
    {
      match e {
        case StartRecord(channels, leftOnly) => var _ := I2sStartRecord(channels, leftOnly);
        case StopRecord => var _ := I2sStopRecord();
        case RecordProgress(middle, end) =>
          rec := rec.(middleIrq := rec.middleIrq || middle, endIrq := rec.endIrq || end);
        case RecordIrq =>
          if rec.attached {
            IisRecIsr();
          }
      }
    }

    /** A play event leaves the record side alone, and the other way round. */
    method Dispatch(e: Event)
      requires Valid()
      modifies this
      ensures Valid() && State() == Step(old(State()), e)
      ensures if IsRecordEvent(e) then play == old(play) && requests == old(requests)
              else rec == old(rec) && handed == old(handed)
    {
      if IsRecordEvent(e) {
        DispatchRecord(e);
      } else {
        DispatchPlay(e);
      }
    }

    /** Every run keeps IIS_PLAY and the interrupt in step with the active flag. */
    method RunEvents(events: seq<Event>)
      requires Valid()
      modifies this
      ensures Valid() && State() == Run(old(State()), events)
      ensures rec.active == rec.running == rec.attached == RecordWanted(old(rec.active), events)
    {
      var i := 0;
      while i < |events|
        invariant i <= |events| && Valid()
        invariant State() == Run(old(State()), events[..i])
      {
        assert events[..i + 1] == events[..i] + [events[i]];
        RunAppend(old(State()), events[..i], events[i]);
        Dispatch(events[i]);
        i := i + 1;
      }
      assert events[..|events|] == events;
      RecordsAsWanted(old(State()), events);
    }
  }
}
