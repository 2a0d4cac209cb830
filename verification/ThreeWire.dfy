/**
 The bit-banged three-wire writer of Host/Audio/Src/W99702_AK4569.c, observed by a
 receiver on the other end of the GPIO pins.
 */
module ThreeWire {
  import opened Words
  import opened Sequences

  /** GPIO_DAT: the pins of the three-wire bus, the codec's power-down pin, and the rest. */
  datatype Pins = Pins(sclk: bool, sdout: bool, csb: bool, pdn: bool, rest: bv32)

  /**
   What the codec sees of GPIO_DAT: the register shifted in during a frame, the words
   latched at the end of frames, whether a data change while the clock was high was
   seen inside a frame, and whether a pin outside the bus ever moved.
   */
  datatype Receiver = Receiver(shift: UInt16, count: nat, latched: seq<UInt16>, glitch: bool, disturbed: bool)

  /** One write of GPIO_DAT. */
  function Observe(r: Receiver, before: Pins, after: Pins): Receiver {
    var selected := !before.csb && !after.csb;
    var r := r.(disturbed := r.disturbed || before.pdn != after.pdn || before.rest != after.rest);
    if before.csb && !after.csb then
      r.(shift := 0, count := 0)
    else if !before.csb && after.csb then
      if r.count == 16 then r.(latched := r.latched + [r.shift], count := 0) else r.(count := 0)
    else if selected && !before.sclk && after.sclk then
      r.(shift := ShiftIn(r.shift, after.sdout), count := r.count + 1)
    else if selected && before.sclk && after.sclk && before.sdout != after.sdout then
      r.(glitch := true)
    else
      r
  }

  /** The receiver's 16-bit shift register. */
  function ShiftIn(shift: UInt16, one: bool): UInt16 {
    (2 * shift + if one then 1 else 0) % 0x1_0000
  }

  /** The word of a register write: the fixed code 101, five address bits, eight data bits. */
  function Command(address: UInt8, data: UInt8): UInt16 {
    0xA000 + (address % 0x20) * 0x100 + data
  }

  /** The three fields of the word, and nothing else in it. */
  lemma CommandFields(address: UInt8, data: UInt8)
    ensures var c := Command(address, data);
      c / 0x2000 == 0x5 && c / 0x100 % 0x20 == address % 0x20 && c % 0x100 == data
  {
  }

  /** A bit is shifted in at the bottom, so the first of sixteen ends at the top. */
  lemma ShiftInBits(shift: UInt16, one: bool, k: nat)
    requires k < 15
    ensures Bit(ShiftIn(shift, one), 0) == one
    ensures Bit(ShiftIn(shift, one), k + 1) == Bit(shift, k)
  {
    var twice := 2 * shift + if one then 1 else 0;
    LastBit(shift, if one then 1 else 0);
    assert Bit(twice, k + 1) == Bit(shift, k);
    Pow2Table();
    LowBitsSurvive(twice, 16, k + 1);
    LowBitsSurvive(twice, 16, 0);
  }

  /** `x & (2^k - 1)` */
  method LowBits(x: UInt8, k: nat) returns (r: int)
    requires k == 5 || k == 8
    ensures r == x % Pow2(k)
  {
    AndMask(x, k);
    r := And(x, Pow2(k) - 1);
  }

  /** `x | y` for a y that lies in the k zero bits of x. */
  method UnionBelow(x: int, y: int, k: nat) returns (r: int)
    requires x >= 0 && x % Pow2(k) == 0 && 0 <= y < Pow2(k)
    ensures r == x + y
  {
    OrDisjoint(x, y, k);
    r := Or(x, y);
  }

  /** `(0x5 << 13) | ((address & 0x1f) << 8) | (data & 0xff)` */
  method BuildCommand(address: UInt8, data: UInt8) returns (command: UInt16)
    ensures command == Command(address, data)
  {
    Pow2Table();
    var code := Lsl(0x5, 13);
    var field := LowBits(address, 5);
    field := Lsl(field, 8);
    var low := LowBits(data, 8);
    command := UnionBelow(code, field, 13);
    command := UnionBelow(command, low, 8);
  }

  /** The writes that clock out the top n bits of a word: each bit with the clock low, then with the clock high. */
  function Wave(base: Pins, word: UInt16, n: nat): seq<Pins>
    requires n <= 16
  {
    if n == 0 then []
    else
      var one := Bit(word, 16 - n);
      Wave(base, word, n - 1) + [base.(sclk := false, sdout := one), base.(sclk := true, sdout := one)]
  }

  /** Writes 2 * k and 2 * k + 1 carry bit 15 - k, and there are no others. */
  lemma {:induction false} WaveBits(base: Pins, word: UInt16, n: nat, k: nat)
    requires k < n <= 16
    ensures |Wave(base, word, n)| == 2 * n
    ensures Wave(base, word, n)[2 * k] == base.(sclk := false, sdout := Bit(word, 15 - k))
    ensures Wave(base, word, n)[2 * k + 1] == base.(sclk := true, sdout := Bit(word, 15 - k))
  {
    if k < n - 1 {
      WaveBits(base, word, n - 1, k);
    } else if n > 1 {
      WaveBits(base, word, n - 1, n - 2);
    }
  }

  /** The mask test reads a bit. */
  lemma MaskReadsBit(word: UInt16, k: nat)
    requires k <= 15
    ensures (And(word, Lsl(1, k)) != 0) == Bit(word, k)
  {
    Pow2Table();
    Pow2Monotone(k, 15);
    LslExact(1, k);
    AndSingleBit(word, k);
    BitIsParity(word, k);
  }

  /** Sending bit k after the bits above it leaves the register holding the word shifted by k. */
  lemma NextBit(word: UInt16, k: nat)
    requires k <= 15
    ensures 0 <= Asr(word, k + 1) <= Asr(word, k) < 0x1_0000
    ensures Asr(word, k) == 2 * Asr(word, k + 1) + (if And(word, Lsl(1, k)) != 0 then 1 else 0)
  {
    Pow2Table();
    Pow2Monotone(k, 15);
    LslExact(1, k);
    AndSingleBit(word, k);
    AsrWithin(word, k);
    DivDiv(word, Pow2(k), 2);
  }

  class Gpio {
    var output: Pins  // REG_GPIO_OE: true where the pin is an input
    var dat: Pins
    ghost var receiver: Receiver
    ghost var waves: seq<Pins>  // everything written to GPIO_DAT

    /** The word that ending a frame now would latch: one if a full frame is still open, else none. */
    ghost function Pending(): seq<UInt16>
      reads this
    {
      if !dat.csb && receiver.count == 16 then [receiver.shift] else []
    }

    method Out(pins: Pins)
      modifies this`dat, this`receiver, this`waves
      ensures dat == pins && receiver == Observe(old(receiver), old(dat), pins)
      ensures waves == old(waves) + [pins]
    {
      receiver := Observe(receiver, dat, pins);
      waves := waves + [pins];
      dat := pins;
    }

    /** One clock cycle of a frame: data and clock low together, then clock high. */
    method SendBit(one: bool)
      requires !dat.csb && dat.sclk
      modifies this`dat, this`receiver, this`waves
      ensures dat == old(dat).(sdout := one)
      ensures waves == old(waves) + [old(dat).(sclk := false, sdout := one), old(dat).(sclk := true, sdout := one)]
      ensures receiver == old(receiver).(shift := ShiftIn(old(receiver.shift), one), count := old(receiver.count) + 1)
    {
      if one {
        Out(dat.(sclk := false, sdout := true));
        Out(dat.(sclk := true, sdout := true));
      } else {
        Out(dat.(sdout := false, sclk := false));
        Out(dat.(sdout := false, sclk := true));
      }
    }

    method SendIndexed(command: UInt16, index: nat)
      requires !dat.csb && dat.sclk && index <= 15 && receiver.shift == Asr(command, index + 1)
      modifies this`dat, this`receiver, this`waves
      ensures dat == old(dat).(sdout := dat.sdout)
      ensures waves == old(waves) + [old(dat).(sclk := false, sdout := Bit(command, index)),
                                     old(dat).(sclk := true, sdout := Bit(command, index))]
      ensures 0 <= Asr(command, index) < 0x1_0000
      ensures receiver == old(receiver).(shift := Asr(command, index), count := old(receiver.count) + 1)
    {
      NextBit(command, index);
      MaskReadsBit(command, index);
      SendBit(And(command, Lsl(1, index)) != 0);
    }

    /** The loop over bit indices, most significant first. */
    method SendWord(command: UInt16)
      requires !dat.csb && dat.sclk && receiver.shift == 0
      modifies this`dat, this`receiver, this`waves
      ensures dat == old(dat).(sdout := dat.sdout)
      ensures waves == old(waves) + Wave(old(dat), command, 16)
      ensures receiver == old(receiver).(shift := command, count := old(receiver.count) + 16)
    {
      assert Asr(command, 16) == 0 by {
        Pow2Table();
        AsrSign(command, 16);
      }
      var index := 15;
      while index >= 0
        invariant -1 <= index <= 15
        invariant dat == old(dat).(sdout := dat.sdout)
        invariant waves == old(waves) + Wave(old(dat), command, 15 - index)
        invariant receiver.shift == Asr(command, index + 1)
        invariant receiver == old(receiver).(shift := receiver.shift, count := old(receiver.count) + 15 - index)
      {
        ghost var sent, base := Wave(old(dat), command, 15 - index), old(dat);
        SendIndexed(command, index);
        Regroup(old(waves), sent, [base.(sclk := false, sdout := Bit(command, index)),
                                   base.(sclk := true, sdout := Bit(command, index))]);
        index := index - 1;
      }
      assert Asr(command, 0) == command;
    }

    /**
     ThreeWire_Write_Data: chip select goes up and down, sixteen bits are clocked out, and chip
     select goes up. For every address, data and starting pins the receiver latches the word of a
     frame left open, if any, and then exactly the command word, sees no data change while the
     clock is high, and no pin outside the bus moves.
     */
    method WriteData(address: UInt8, data: UInt8)
      modifies this
      ensures receiver.latched == old(receiver.latched) + old(Pending()) + [Command(address, data)]
      ensures receiver.glitch == old(receiver.glitch) && receiver.disturbed == old(receiver.disturbed)
      ensures dat == old(dat).(sclk := true, csb := true, sdout := dat.sdout)
      ensures waves == old(waves) + [old(dat).(csb := true, sclk := true), old(dat).(csb := false, sclk := true)]
                       + Wave(old(dat).(csb := false, sclk := true), Command(address, data), 16) + [dat]
      ensures output == old(output).(sclk := false, sdout := false, csb := false, pdn := false)
    {
      output := output.(sclk := false, sdout := false, csb := false, pdn := false);
      var command := BuildCommand(address, data);
      Out(dat.(csb := true, sclk := true));
      Out(dat.(csb := false, sclk := true));
      SendWord(command);
      Out(dat.(csb := true));
    }

    /** AK_Set_DAC_Volume, whose 16-bit level is cut to a byte by the writer's parameter. */
    method SetDacVolume(left: UInt8, right: UInt8)
      modifies this
      ensures receiver.latched == old(receiver.latched) + old(Pending()) + [Command(0xa, Level(left)), Command(0xb, Level(right))]
      ensures receiver.glitch == old(receiver.glitch)
      ensures dat.pdn == old(dat.pdn) && dat.rest == old(dat.rest)
      ensures dat.csb
    {
      WriteData(0xa, Level(left));
      WriteData(0xb, Level(right));
    }

    method PowerUp()
      modifies this
      ensures receiver.latched == old(receiver.latched) + old(Pending()) + [Command(0x6, 0x6), Command(0, 0xC1), Command(0, 0x1D)]
      ensures receiver.glitch == old(receiver.glitch)
      ensures dat.csb && dat.pdn == old(dat.pdn) && dat.rest == old(dat.rest)
    {
      WriteData(0x6, 0x6);
      WriteData(0, 0xC1);
      WriteData(0, 0x1D);
    }

    method Format()
      modifies this
      ensures receiver.latched == old(receiver.latched) + old(Pending()) + [Command(0x7, 0x1), Command(0x8, 0x1B)]
      ensures receiver.glitch == old(receiver.glitch)
      ensures dat.csb && dat.pdn == old(dat.pdn) && dat.rest == old(dat.rest)
    {
      WriteData(0x7, 0x1);
      WriteData(0x8, 0x1B);  // 0x9 | (1 << 1) | (1 << 4)
    }

    /** AK4569_DAC_Setup: the codec latches the whole register sequence in order. */
    method DacSetup()
      modifies this
      ensures receiver.latched == old(receiver.latched) + old(Pending())
        + [Command(0x6, 0x6), Command(0, 0xC1), Command(0, 0x1D), Command(0x7, 0x1), Command(0x8, 0x1B)]
        + [Command(0xa, 192), Command(0xb, 192)]
      ensures receiver.glitch == old(receiver.glitch)
      ensures dat.pdn && dat.rest == old(dat.rest)
      ensures dat.csb
    {
      Out(dat.(pdn := true));
      PowerUp();
      Format();
      SetDacVolume(10, 10);
    }
  }

  function Level(volume: UInt8): UInt8 {
    if volume != 0 then (volume * 3 + 162) % 0x100 else 0
  }

  /** Volume 0 is silent, 1 to 31 go up in steps of 3 to the loudest level, and above that the byte wraps. */
  lemma LevelMeaning(volume: UInt8)
    ensures Level(0) == 0
    ensures Level(1) == 165 && Level(31) == 255
    ensures 1 <= volume < 31 ==> Level(volume + 1) == Level(volume) + 3
    ensures volume > 31 ==> (Level(volume) - (volume * 3 + 162)) % 0x100 == 0
  {
  }
}
