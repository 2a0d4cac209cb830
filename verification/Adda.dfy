/**
 The AD/DA converter driver of Host/Audio/Src/W99702_ADDA.c: play and record share the
 AD/DA clock and the control registers. Each API call and each interrupt is one step.
 */
module Adda {
  import opened DoubleBuffer

  datatype Call =
    | DacStart(channels: int)
    | DacStop
    | AdcStart(left: bool)
    | AdcStop
    | PlayIrq(answer: bool)  // the play interrupt; answer is what the client's callback returns
    | RecIrq

  // --------------------------------------------------------------------------
  // The driver in terms of its directions
  // --------------------------------------------------------------------------

  /** leftOn: the left play channel is enabled. */
  datatype View = View(playing: bool, recording: bool, lastBlock: bool, leftOn: bool)

  const IDLE := View(false, false, false, false)

  function Step(v: View, c: Call): View {
    match c
    case DacStart(_) =>
      if v.playing then v else v.(playing := true, lastBlock := false, leftOn := v.leftOn || !v.recording)
    case DacStop => v.(playing := false, leftOn := false)
    case AdcStart(_) => v.(recording := true)
    case AdcStop => v.(recording := false)
    case PlayIrq(answer) =>
      // the interrupt is attached only while playing
      if !v.playing then v
      else if v.lastBlock then v.(playing := false, leftOn := false, lastBlock := answer)
      else v.(lastBlock := answer)
    case RecIrq => v
  }

  function Run(v: View, calls: seq<Call>): View
    decreases |calls|
  {
    if calls == [] then v else Run(Step(v, calls[0]), calls[1..])
  }

  /** How often the play interrupt calls the client. */
  function Callbacks(v: View, calls: seq<Call>): nat
    decreases |calls|
  {
    if calls == [] then 0
    else (if CallsBack(v, calls[0]) then 1 else 0) + Callbacks(Step(v, calls[0]), calls[1..])
  }

  predicate CallsBack(v: View, c: Call) {
    c.PlayIrq? && v.playing
  }

  /** No dacStartPlay of the run is accepted. */
  predicate NoRestart(v: View, calls: seq<Call>)
    decreases |calls|
  {
    calls == [] || ((calls[0].DacStart? ==> v.playing) && NoRestart(Step(v, calls[0]), calls[1..]))
  }

  predicate IrqBeforeStop(calls: seq<Call>) {
    exists i :: 0 <= i < |calls| && calls[i].PlayIrq? && forall j :: 0 <= j < i ==> !calls[j].DacStop?
  }

  /**
   Once the client has answered that this was its last block, any run without a new start calls
   it exactly once more if an interrupt comes before a stop, and else not at all; playing ends
   with the first of the two.
   */
  lemma {:induction false} OneMoreCallback(v: View, calls: seq<Call>)
    requires (v.playing ==> v.lastBlock) && NoRestart(v, calls)
    ensures Callbacks(v, calls) == if v.playing && IrqBeforeStop(calls) then 1 else 0
    ensures Run(v, calls).playing <==> v.playing && forall i :: 0 <= i < |calls| ==> !calls[i].PlayIrq? && !calls[i].DacStop?
    decreases |calls|
  {
    if calls != [] {
      OneMoreCallback(Step(v, calls[0]), calls[1..]);
      FirstCall(calls);
    }
  }

  lemma FirstCall(calls: seq<Call>)
    requires calls != []
    ensures IrqBeforeStop(calls) <==> calls[0].PlayIrq? || (!calls[0].DacStop? && IrqBeforeStop(calls[1..]))
    ensures (forall i :: 0 <= i < |calls| ==> !calls[i].PlayIrq? && !calls[i].DacStop?) <==>
      && !calls[0].PlayIrq? && !calls[0].DacStop?
      && forall i :: 0 <= i < |calls[1..]| ==> !calls[1..][i].PlayIrq? && !calls[1..][i].DacStop?
  {
    var rest := calls[1..];
    assert forall i :: 0 <= i < |rest| ==> rest[i] == calls[i + 1];
    assert forall i :: 1 <= i < |calls| ==> calls[i] == rest[i - 1];
    if !calls[0].DacStop? && IrqBeforeStop(rest) {
      var i :| 0 <= i < |rest| && rest[i].PlayIrq? && forall j :: 0 <= j < i ==> !rest[j].DacStop?;
      assert calls[i + 1].PlayIrq?;
    }
    if IrqBeforeStop(calls) && !calls[0].PlayIrq? {
      var i :| 0 <= i < |calls| && calls[i].PlayIrq? && forall j :: 0 <= j < i ==> !calls[j].DacStop?;
      assert rest[i - 1].PlayIrq?;
    }
  }

  predicate IsPlayCall(c: Call) {
    c.DacStart? || c.DacStop? || c.PlayIrq?
  }

  /** The calls of one direction only. */
  function Only(play: bool, calls: seq<Call>): seq<Call> {
    if calls == [] then []
    else (if IsPlayCall(calls[0]) == play then [calls[0]] else []) + Only(play, calls[1..])
  }

  /** Whether it plays depends only on the play calls. */
  lemma {:induction false} PlayIndependent(v: View, w: View, calls: seq<Call>)
    requires v.playing == w.playing && v.lastBlock == w.lastBlock
    ensures Run(v, calls).playing == Run(w, Only(true, calls)).playing
    ensures Run(v, calls).lastBlock == Run(w, Only(true, calls)).lastBlock
    decreases |calls|
  {
    if calls != [] {
      var c, rest := calls[0], calls[1..];
      if IsPlayCall(c) {
        assert Only(true, calls)[1..] == Only(true, rest);
        PlayIndependent(Step(v, c), Step(w, c), rest);
      } else {
        assert Only(true, calls) == Only(true, rest);
        PlayIndependent(Step(v, c), w, rest);
      }
    }
  }

  /** Whether it records depends only on the record calls. */
  lemma {:induction false} RecordIndependent(v: View, w: View, calls: seq<Call>)
    requires v.recording == w.recording
    ensures Run(v, calls).recording == Run(w, Only(false, calls)).recording
    decreases |calls|
  {
    if calls != [] {
      var c, rest := calls[0], calls[1..];
      if IsPlayCall(c) {
        assert Only(false, calls) == Only(false, rest);
        RecordIndependent(Step(v, c), w, rest);
      } else {
        assert Only(false, calls)[1..] == Only(false, rest);
        RecordIndependent(Step(v, c), Step(w, c), rest);
      }
    }
  }

  // --------------------------------------------------------------------------
  // What the calls are for
  // --------------------------------------------------------------------------

  /** Whether the last start or stop of the recording among the calls is a start; if there is none, `before`. */
  predicate RecordWanted(before: bool, calls: seq<Call>) {
    if calls == [] then before
    else
      var n := |calls| - 1;
      calls[n].AdcStart? || (!calls[n].AdcStop? && RecordWanted(before, calls[..n]))
  }

  predicate PlayWanted(before: bool, calls: seq<Call>) {
    if calls == [] then before
    else
      var n := |calls| - 1;
      calls[n].DacStart? || (!calls[n].DacStop? && PlayWanted(before, calls[..n]))
  }

  /** It records if and only if the last start or stop of the recording was a start, of either channel. */
  lemma {:induction false} RecordsAsWanted(v: View, calls: seq<Call>)
    ensures Run(v, calls).recording == RecordWanted(v.recording, calls)
    decreases |calls|
  {
    if calls != [] {
      var n := |calls| - 1;
      assert calls == calls[..n] + [calls[n]];
      RunAppend(v, calls[..n], calls[n]);
      RecordsAsWanted(v, calls[..n]);
    }
  }

  /** A client that never announces a last block is played to exactly as it started and stopped. */
  lemma {:induction false} PlaysAsWanted(v: View, calls: seq<Call>)
    requires !v.lastBlock && forall i :: 0 <= i < |calls| && calls[i].PlayIrq? ==> !calls[i].answer
    ensures Run(v, calls).playing == PlayWanted(v.playing, calls)
    ensures !Run(v, calls).lastBlock
    decreases |calls|
  {
    if calls != [] {
      var n := |calls| - 1;
      assert calls == calls[..n] + [calls[n]];
      RunAppend(v, calls[..n], calls[n]);
      PlaysAsWanted(v, calls[..n]);
    }
  }

  /** The interrupts that come while it should play. */
  function IrqsWanted(before: bool, calls: seq<Call>): nat {
    if calls == [] then 0
    else
      var n := |calls| - 1;
      IrqsWanted(before, calls[..n]) + if calls[n].PlayIrq? && PlayWanted(before, calls[..n]) then 1 else 0
  }

  /** Such a client is called once for every interrupt between a start and a stop. */
  lemma {:induction false} CalledPerIrq(v: View, calls: seq<Call>)
    requires !v.lastBlock && forall i :: 0 <= i < |calls| && calls[i].PlayIrq? ==> !calls[i].answer
    ensures Callbacks(v, calls) == IrqsWanted(v.playing, calls)
    decreases |calls|
  {
    if calls != [] {
      var n := |calls| - 1;
      assert calls == calls[..n] + [calls[n]];
      CallbacksAppend(v, calls[..n], calls[n]);
      PlaysAsWanted(v, calls[..n]);
      CalledPerIrq(v, calls[..n]);
    }
  }

  /** Some interrupt after one whose callback announced the last block. */
  predicate IrqAfterLastBlock(calls: seq<Call>) {
    exists i, j :: 0 <= i < j < |calls| && calls[i] == PlayIrq(true) && calls[j].PlayIrq?
  }

  /**
   Without any start, playing goes on until the first stop call or the interrupt after a last block,
   whichever comes first, and never comes back.
   */
  lemma {:induction false} PlaysUntil(v: View, calls: seq<Call>)
    requires v.playing && !v.lastBlock && forall i :: 0 <= i < |calls| ==> !calls[i].DacStart?
    ensures Run(v, calls).playing <==> DacStop !in calls && !IrqAfterLastBlock(calls)
    ensures Run(v, calls).playing ==> Run(v, calls).lastBlock == (PlayIrq(true) in calls)
    decreases |calls|
  {
    if calls != [] {
      var n := |calls| - 1;
      var earlier := calls[..n];
      assert calls == earlier + [calls[n]];
      RunAppend(v, earlier, calls[n]);
      PlaysUntil(v, earlier);
      LastIrq(calls);
    }
  }

  lemma LastIrq(calls: seq<Call>)
    requires calls != []
    ensures var n := |calls| - 1;
      IrqAfterLastBlock(calls) <==> IrqAfterLastBlock(calls[..n]) || (calls[n].PlayIrq? && PlayIrq(true) in calls[..n])
  {
    var n := |calls| - 1;
    var earlier := calls[..n];
    if IrqAfterLastBlock(earlier) {
      var i, j :| 0 <= i < j < |earlier| && earlier[i] == PlayIrq(true) && earlier[j].PlayIrq?;
      assert calls[i] == PlayIrq(true) && calls[j].PlayIrq?;
    }
    if calls[n].PlayIrq? && PlayIrq(true) in earlier {
      var i :| 0 <= i < |earlier| && earlier[i] == PlayIrq(true);
      assert calls[i] == PlayIrq(true);
    }
    if IrqAfterLastBlock(calls) {
      var i, j :| 0 <= i < j < |calls| && calls[i] == PlayIrq(true) && calls[j].PlayIrq?;
      assert earlier[i] == PlayIrq(true);
      assert j < n ==> earlier[j] == calls[j];
    }
  }

  lemma {:induction false} RunAppend(v: View, a: seq<Call>, c: Call)
    ensures Run(v, a + [c]) == Step(Run(v, a), c)
    decreases |a|
  {
    if a == [] {
      assert ([] + [c])[1..] == [];
    } else {
      assert (a + [c])[1..] == a[1..] + [c];
      RunAppend(Step(v, a[0]), a[1..], c);
    }
  }

  lemma {:induction false} CallbacksAppend(v: View, a: seq<Call>, c: Call)
    ensures Callbacks(v, a + [c]) == Callbacks(v, a) + if CallsBack(Run(v, a), c) then 1 else 0
    ensures NoRestart(v, a + [c]) <==> NoRestart(v, a) && (c.DacStart? ==> Run(v, a).playing)
    decreases |a|
  {
    if a == [] {
      assert ([] + [c])[1..] == [];
    } else {
      assert (a + [c])[1..] == a[1..] + [c];
      CallbacksAppend(Step(v, a[0]), a[1..], c);
    }
  }

  lemma {:induction false} ChannelOnlyWhilePlaying(calls: seq<Call>)
    ensures Run(IDLE, calls).leftOn ==> Run(IDLE, calls).playing
    decreases |calls|
  {
    if calls != [] {
      var n := |calls| - 1;
      assert calls == calls[..n] + [calls[n]];
      ChannelOnlyWhilePlaying(calls[..n]);
      RunAppend(IDLE, calls[..n], calls[n]);
    }
  }

  /** What does leak: a play started while recording selects no channel, and only that one. */
  lemma StartIsAudible(calls: seq<Call>, channels: int)
    requires !Run(IDLE, calls).playing
    ensures var after := Run(IDLE, calls + [DacStart(channels)]);
      after.playing && (after.leftOn <==> !Run(IDLE, calls).recording)
  {
    RunAppend(IDLE, calls, DacStart(channels));
    ChannelOnlyWhilePlaying(calls);
  }

  lemma RecordingSilencesStart()
    ensures Run(IDLE, [AdcStart(true), DacStart(2)]) == View(true, true, false, false)
    ensures Run(IDLE, [DacStart(2), AdcStart(true)]) == View(true, true, false, true)
  {
  }

  // --------------------------------------------------------------------------
  // The driver in terms of its registers
  // --------------------------------------------------------------------------

  datatype Status = Success | DacPlayActive | AdcRecActive | AdcRecInactive

  /** The play bits of ACTL_CON, ACTL_RESET and ACTL_PSR, and the play variables. */
  datatype PlaySide = PlaySide(
    enabled: bool,    // DAC_EN
    running: bool,    // DAC_PLAY
    left: bool,       // PLAY_LEFT_CHNNEL
    right: bool,      // PLAY_RIGHT_CHNNEL
    middleIrq: bool,  // P_DMA_MIDDLE_IRQ, cleared by writing one
    endIrq: bool,     // P_DMA_END_IRQ
    attached: bool,   // the play interrupt
    active: bool,     // DAC_PLAY_ACTIVE
    toggle: bool,     // _bPlayDmaToggle
    lastBlock: bool)  // _tADDA.bPlayLastBlock

  /** The record bits of ACTL_CON, ACTL_RESET and ACTL_RSR, and the record variables. */
  datatype RecordSide = RecordSide(
    enabled: bool,    // ADC_EN
    running: bool,    // ADC_RECORD
    left: bool,       // RECORD_LEFT_CHNNEL
    right: bool,      // RECORD_RIGHT_CHNNEL
    middleIrq: bool,  // R_DMA_MIDDLE_IRQ
    endIrq: bool,     // R_DMA_END_IRQ
    attached: bool,   // the record interrupt
    active: bool,     // ADC_REC_ACTIVE
    toggle: bool)     // _bRecDmaToggle

  /** Which half of its buffer a callback is called for. */
  datatype BufferHalf = Lower | Upper

  function HalfFor(toggle: bool): BufferHalf {
    if toggle then Upper else Lower
  }

  predicate Alternating(halves: seq<BufferHalf>) {
    Alternates(Lower, Upper, halves)
  }

  class Driver {
    var clock: bool    // the AD/DA clock in CLKCON
    var audioOn: bool  // AUDIO_EN and the FIFO, interrupt and DMA enables of ACTL_CON
    var play: PlaySide
    var rec: RecordSide
    ghost var asked: seq<BufferHalf>   // where the play callbacks since the last start begin
    ghost var handed: seq<BufferHalf>  // what the record callbacks since the last start got

    /** Clock on exactly when active; enable, run bit and interrupt of a direction follow its flag;
        the callbacks of a direction alternate between the halves. */
    ghost predicate Valid()
      reads this
    {
      && clock == (play.active || rec.active)
      && play.enabled == play.running == play.attached == play.active
      && rec.enabled == rec.running == rec.attached == rec.active
      && Alternating(asked) && play.toggle == (|asked| % 2 == 1)
      && Alternating(handed) && rec.toggle == (|handed| % 2 == 1)
    }

    function State(): View
      reads this
    {
      View(play.active, rec.active, play.lastBlock, play.left)
    }

    constructor ()
      ensures Valid() && State() == IDLE
    {
      clock, audioOn, asked, handed := false, false, [], [];
      play := PlaySide(false, false, false, false, false, false, false, false, false, false);
      rec := RecordSide(false, false, false, false, false, false, false, false, false);
    }

    /** adda_init; the reset bits it raises are lowered again before it returns. */
    method Init()
      modifies this`clock, this`audioOn
      ensures clock && audioOn
    {
      clock := true;
      audioOn := true;
    }

    method DacStartPlay(channels: int) returns (status: Status)
      requires Valid()
      modifies this`clock, this`audioOn, this`play, this`asked
      ensures Valid() && State() == Step(old(State()), DacStart(channels))
      ensures status == if old(play.active) then DacPlayActive else Success
      ensures status == DacPlayActive ==> play == old(play) && asked == old(asked)
      ensures play.active && play.enabled && play.running && play.attached && clock
      ensures audioOn == (old(audioOn) || (status == Success && !rec.active))
      ensures status == Success ==> asked == [Lower, Upper] && !play.middleIrq && !play.endIrq && !play.lastBlock && !play.toggle
      ensures status == Success ==> play.left == (old(play.left) || !rec.active)
      ensures status == Success ==> play.right == (old(play.right) || (!rec.active && channels != 1))
    {
      if play.active {
        return DacPlayActive;
      }
      if !play.active && !rec.active {
        play := play.(left := true, right := play.right || channels != 1);
        Init();
      }
      play := play.(attached := true, lastBlock := false, toggle := false, middleIrq := false, endIrq := false,
        enabled := true, running := true, active := true);
      asked := [Lower, Upper];
      status := Success;
    }

    method DacStopPlay() returns (status: Status)
      requires Valid()
      modifies this`clock, this`play
      ensures Valid() && State() == Step(old(State()), DacStop)
      ensures status == Success
      ensures !play.active && !play.enabled && !play.running && !play.attached && clock == rec.active
      ensures play.lastBlock == old(play.lastBlock)
      ensures play.middleIrq == (old(play.middleIrq) && !old(play.active))
      ensures play.endIrq == (old(play.endIrq) && !old(play.active))
      ensures play.toggle == old(play.toggle) && !play.left && !play.right
    {
      play := play.(right := false, left := false);
      status := Success;
      if !play.active {
        return;
      }
      play := play.(enabled := false, running := false, middleIrq := false, endIrq := false,
        attached := false, active := false);
      if !play.active && !rec.active {
        clock := false;
      }
    }

    /** The first half of dac_play_isr: the stop after a last block. */
    method StopAfterLastBlock()
      requires Valid()
      modifies this`clock, this`play
      ensures Valid()
      ensures State() == if old(play.lastBlock) then old(State()).(playing := false, leftOn := false) else old(State())
      ensures play.middleIrq == (old(play.middleIrq) && !old(play.lastBlock))
      ensures play.endIrq == (old(play.endIrq) && !old(play.lastBlock))
      ensures play.right == (old(play.right) && !old(play.lastBlock))
      ensures play.toggle == old(play.toggle)
    {
      if play.lastBlock {
        play := play.(middleIrq := false, endIrq := false);
        var _ := DacStopPlay();
      }
    }

    /** The second half: acknowledge the status of the half whose turn it is and call the client. */
    method ServeHalf(answer: bool)
      requires Valid()
      modifies this`play, this`asked
      ensures Valid()
      ensures asked == old(asked) + [HalfFor(old(play.toggle))] && play.toggle == !old(play.toggle)
      ensures State() == old(State()).(lastBlock := answer) && play.right == old(play.right)
      ensures play.middleIrq == (old(play.middleIrq) && old(play.toggle))
      ensures play.endIrq == (old(play.endIrq) && !old(play.toggle))
    {
      AlternatesGrows(Lower, Upper, asked);
      if !play.toggle {
        play := play.(middleIrq := false, toggle := true);
        asked := asked + [Lower];
      } else {
        play := play.(endIrq := false, toggle := false);
        asked := asked + [Upper];
      }
      play := play.(lastBlock := answer);
    }

    /** dac_play_isr: after the last block it stops and still calls the client. */
    method DacPlayIsr(answer: bool)
      requires Valid() && play.attached
      modifies this`clock, this`audioOn, this`play, this`asked
      ensures Valid() && State() == Step(old(State()), PlayIrq(answer))
      ensures asked == old(asked) + [HalfFor(old(play.toggle))] && play.toggle == !old(play.toggle)
      ensures play.active == play.attached == !old(play.lastBlock) && play.lastBlock == answer && audioOn
      ensures play.left == (old(play.left) && !old(play.lastBlock))
      ensures play.middleIrq == (old(play.middleIrq) && old(play.toggle) && !old(play.lastBlock))
      ensures play.endIrq == (old(play.endIrq) && !old(play.toggle) && !old(play.lastBlock))
      ensures play.right == (old(play.right) && !old(play.lastBlock))
    {
      audioOn := true;
      StopAfterLastBlock();
      ServeHalf(answer);
    }

    method AdcStartRecord(left: bool) returns (status: Status)
      requires Valid()
      modifies this`clock, this`audioOn, this`rec, this`handed
      ensures Valid() && State() == Step(old(State()), AdcStart(left))
      ensures status == if old(rec.active) then AdcRecActive else Success
      ensures status == AdcRecActive ==> rec == old(rec) && handed == old(handed)
      ensures rec.active && rec.enabled && rec.running && rec.attached && clock
      ensures audioOn == (old(audioOn) || (status == Success && !play.active))
      ensures status == Success ==> handed == [] && !rec.middleIrq && !rec.endIrq && !rec.toggle
      ensures status == Success ==> rec.left == left && rec.right == !left
    {
      if rec.active {
        return AdcRecActive;
      }
      rec := rec.(left := left, right := !left);
      if !play.active && !rec.active {
        Init();
      }
      rec := rec.(attached := true, toggle := false, middleIrq := false, endIrq := false,
        enabled := true, running := true, active := true);
      handed := [];
      status := Success;
    }

    /** Only the left channel bit is cleared. */
    method AdcStopRecord() returns (status: Status)
      requires Valid()
      modifies this`clock, this`rec
      ensures Valid() && State() == Step(old(State()), AdcStop)
      ensures status == if old(rec.active) then Success else AdcRecInactive
      ensures !rec.active && !rec.enabled && !rec.running && !rec.attached && clock == play.active
      ensures !rec.left && rec.right == old(rec.right) && rec.toggle == old(rec.toggle)
      ensures rec.middleIrq == (old(rec.middleIrq) && !old(rec.active))
      ensures rec.endIrq == (old(rec.endIrq) && !old(rec.active))
    {
      rec := rec.(left := false);
      if !rec.active {
        return AdcRecInactive;
      }
      rec := rec.(enabled := false, running := false, middleIrq := false, endIrq := false,
        attached := false, active := false);
      if !play.active && !rec.active {
        clock := false;
      }
      status := Success;
    }

    method AdcRecIsr()
      requires Valid() && rec.attached
      modifies this`audioOn, this`rec, this`handed
      ensures Valid() && State() == Step(old(State()), RecIrq)
      ensures handed == old(handed) + [HalfFor(old(rec.toggle))] && audioOn
      ensures rec == if old(rec.toggle) then old(rec).(endIrq := false, toggle := false)
                     else old(rec).(middleIrq := false, toggle := true)
    {
      audioOn := true;
      AlternatesGrows(Lower, Upper, handed);
      if !rec.toggle {
        rec := rec.(middleIrq := false, toggle := true);
        handed := handed + [Lower];
      } else {
        rec := rec.(endIrq := false, toggle := false);
        handed := handed + [Upper];
      }
    }

    method Dispatch(c: Call)
      requires Valid()
      modifies this
      ensures Valid() && State() == Step(old(State()), c)
      ensures if IsPlayCall(c) then rec == old(rec) && handed == old(handed) else play == old(play) && asked == old(asked)
      ensures (c.DacStart? ==> old(play.active)) ==> |asked| == |old(asked)| + if c.PlayIrq? && old(play.active) then 1 else 0
    {
      match c {
        case DacStart(channels) => var _ := DacStartPlay(channels);
        case DacStop => var _ := DacStopPlay();
        case AdcStart(left) => var _ := AdcStartRecord(left);
        case AdcStop => var _ := AdcStopRecord();
        case PlayIrq(answer) =>
          if play.attached {
            DacPlayIsr(answer);
          }
        case RecIrq =>
          if rec.attached {
            AdcRecIsr();
          }
      }
    }

    /** Every run of calls and interrupts keeps the registers in step with the directions and counts the callbacks. */
    method RunCalls(calls: seq<Call>)
      requires Valid()
      modifies this
      ensures Valid() && State() == Run(old(State()), calls)
      ensures rec.active == rec.running == rec.attached == RecordWanted(old(rec.active), calls)
      ensures NoRestart(old(State()), calls) ==> |asked| == |old(asked)| + Callbacks(old(State()), calls)
    {
      var i := 0;
      while i < |calls|
        invariant i <= |calls| && Valid()
        invariant State() == Run(old(State()), calls[..i])
        invariant NoRestart(old(State()), calls[..i]) ==> |asked| == |old(asked)| + Callbacks(old(State()), calls[..i])
      {
        assert calls[..i + 1] == calls[..i] + [calls[i]];
        RunAppend(old(State()), calls[..i], calls[i]);
        CallbacksAppend(old(State()), calls[..i], calls[i]);
        Dispatch(calls[i]);
        i := i + 1;
      }
      assert calls[..|calls|] == calls;
      RecordsAsWanted(old(State()), calls);
    }
  }
}
