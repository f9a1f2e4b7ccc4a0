/**
 * The analogue front end's pins: two serial chips that share one clock and one data line and have a latch line each,
 * and the control lines the host sets with one word and reads back as one word.
 */
module ShiftBus {
  import opened Words
  import opened Bits

  const ATT_LE := 17
  const BIAS_VHF := 18
  const BIAS_HF := 19
  const RANDO := 20
  const LED_BLUE := 21
  const PGA := 24
  const ATT_DATA := 26
  const ATT_CLK := 27
  const SHDWN := 28
  const DITH := 29
  const VHF_EN := 35
  const VGA_LE := 38

  // ---- the bits of a byte, most significant first ------------------------------------------

  /** The top `bits` digits of v's low `bits`, in the order in which they are sent. */
  function Digits(v: nat, bits: nat): (s: seq<bool>)
    ensures |s| == bits
  {
    seq(bits, (i: nat) requires i < bits => Bit(v, bits - 1 - i))
  }

  /** What a register holds, its first digit the most significant. */
  function Value(s: seq<bool>): nat {
    if s == [] then 0 else 2 * Value(s[..|s| - 1]) + if s[|s| - 1] then 1 else 0
  }

  lemma {:induction false} HalfMod(v: nat, p: nat)
    requires p > 0
    ensures v % (2 * p) == 2 * (v / 2 % p) + v % 2
  {
    var q, r := v / 2 / p, v / 2 % p;
    assert v / 2 == p * q + r;
    assert v == 2 * p * q + (2 * r + v % 2) by {
      assert 2 * (p * q) == 2 * p * q;
    }
    QuotientIs(v, 2 * p, q, 2 * r + v % 2);
  }

  /** A register that holds v's digits holds v, as far as it has room for it. */
  lemma {:induction false} DigitsValue(v: nat, bits: nat)
    ensures Value(Digits(v, bits)) == v % Pow2(bits)
    decreases bits
  {
    if bits > 0 {
      var s := Digits(v, bits);
      forall i | 0 <= i < bits - 1
        ensures s[i] == Digits(v / 2, bits - 1)[i]
      {
        assert Bit(v, bits - 1 - i) == Bit(v / 2, bits - 2 - i);
      }
      assert s[..bits - 1] == Digits(v / 2, bits - 1);
      assert s[bits - 1] == Bit(v, 0);
      DigitsValue(v / 2, bits - 1);
      HalfMod(v, Pow2(bits - 1));
    }
  }

  /** `(uint8_t)(w << 1)` moves every digit up by one. */
  lemma {:induction false} ShiftBit(w: nat, k: nat)
    requires k < 8
    ensures Bit(2 * w % 256, k) <==> k > 0 && Bit(w, k - 1)
  {
    if k > 0 {
      assert 2 * w % 256 / 2 == w % 128;
      LowBit(w, 7, k - 1);
    }
  }

  lemma {:induction false} LowBit(w: nat, n: nat, k: nat)
    requires k < n
    ensures Bit(w % Pow2(n), k) <==> Bit(w, k)
    decreases k
  {
    HalfMod(w, Pow2(n - 1));
    if k > 0 {
      LowBit(w / 2, n - 1, k - 1);
      assert w % Pow2(n) / 2 == w / 2 % Pow2(n - 1);
    }
  }

  /** A register of |r0| digits after the first i of them have been shifted in. */
  function Shifted(r0: seq<bool>, v: nat, i: nat): (s: seq<bool>)
    requires i <= |r0|
    ensures |s| == |r0|
  {
    r0[i..] + Digits(v, |r0|)[..i]
  }

  lemma {:induction false} ShiftedOne(r0: seq<bool>, v: nat, i: nat)
    requires i < |r0|
    ensures Shifted(r0, v, i)[1..] + [Bit(v, |r0| - 1 - i)] == Shifted(r0, v, i + 1)
  {
  }

  /** After as many shifts as the register is long nothing of its old contents is left. */
  lemma {:induction false} ShiftedAll(r0: seq<bool>, v: nat)
    ensures Shifted(r0, v, 0) == r0 && Shifted(r0, v, |r0|) == Digits(v, |r0|)
  {
  }

  lemma {:induction false} AndPow2(w: nat, k: nat)
    ensures And(w, Pow2(k)) == if Bit(w, k) then Pow2(k) else 0
    decreases k
  {
    if w == 0 {
      ZeroBit(k);
    } else if k > 0 {
      AndPow2(w / 2, k - 1);
    } else {
      AndZero(w / 2);
    }
  }

  lemma {:induction false} Pow2Bit(k: nat, j: nat)
    ensures Bit(Pow2(k), j) <==> j == k
    decreases k
  {
    if k > 0 && j > 0 {
      Pow2Bit(k - 1, j - 1);
    } else if j > 0 {
      ZeroBit(j - 1);
    }
  }

  /** A byte shifted left n times. */
  function MovedUp(v: Octet, n: nat): Octet {
    if n == 0 then v else 2 * MovedUp(v, n - 1) % 256
  }

  lemma {:induction false} MovedUpBit(v: Octet, n: nat, k: nat)
    requires n <= k < 8
    ensures Bit(MovedUp(v, n), k) <==> Bit(v, k - n)
    decreases n
  {
    if n > 0 {
      ShiftBit(MovedUp(v, n - 1), k);
      MovedUpBit(v, n - 1, k - 1);
    }
  }

  // ---- the control word --------------------------------------------------------------------

  /** A control line: its digit in the host's word, its pin, and whether the pin is driven inverted. */
  datatype Line = Line(digit: nat, pin: nat, inverted: bool)

  const LINES: seq<Line> := [
    Line(5, SHDWN, false), Line(6, DITH, false), Line(7, RANDO, false), Line(8, BIAS_HF, false),
    Line(9, BIAS_VHF, false),
    Line(11, LED_BLUE, false), Line(16, PGA, true), Line(15, VHF_EN, false)
  ]

  /** A host command as it reaches this module. */
  datatype Command = Attenuator(value: Octet) | Gain(value: Octet) | Gpio(word: Word) | Standby(on: bool)

  /** The last value a run of commands sent to the attenuator. */
  function LastAttenuation(cs: seq<Command>): Option<Octet> {
    if cs == [] then None
    else match cs[|cs| - 1] case Attenuator(v) => Some(v) case _ => LastAttenuation(cs[..|cs| - 1])
  }

  function LastGain(cs: seq<Command>): Option<Octet> {
    if cs == [] then None
    else match cs[|cs| - 1] case Gain(v) => Some(v) case _ => LastGain(cs[..|cs| - 1])
  }

  /** Digit k of the last control word, with SHDWN overridden by any standby call after it. */
  function LastDigit(cs: seq<Command>, k: nat): Option<bool> {
    if cs == [] then None
    else match cs[|cs| - 1]
      case Gpio(w) => Some(Bit(w, k))
      case Standby(on) => if k == 5 then Some(on) else LastDigit(cs[..|cs| - 1], k)
      case _ => LastDigit(cs[..|cs| - 1], k)
  }

  lemma {:induction false} WordGiven(cs: seq<Command>, i: nat, k: nat)
    requires i < |cs| && cs[i].Gpio?
    ensures LastDigit(cs, k).Some?
    decreases |cs|
  {
    if i < |cs| - 1 {
      WordGiven(cs[..|cs| - 1], i, k);
    }
  }

  // ---- the pins and the chips behind them --------------------------------------------------

  class FrontEnd {
    var pins: map<nat, bool>
    // Each chip shifts on a rising clock edge and captures on a rising edge of its latch line; a gated chip does not
    // shift while its latch line is high.
    const attGated: bool
    const vgaGated: bool
    var attShift: seq<bool>
    var vgaShift: seq<bool>
    var attLatch: seq<bool>
    var vgaLatch: seq<bool>

    predicate Valid()
      reads this
    {
      |attShift| == |attLatch| == 6 && |vgaShift| == |vgaLatch| == 8
    }

    predicate Level(pin: nat)
      reads this`pins
    {
      pin in pins && pins[pin]
    }

    constructor (attGated: bool, vgaGated: bool, att: seq<bool>, vga: seq<bool>)
      requires |att| == 6 && |vga| == 8
      ensures Valid()
    {
      this.attGated, this.vgaGated, pins := attGated, vgaGated, map[];
      attShift, attLatch, vgaShift, vgaLatch := att, att, vga, vga;
    }

    /** CyU3PGpioSetValue, with what the chips on the board make of the edge. */
    method SetPin(pin: nat, v: bool)
      requires Valid()
      modifies this
      ensures Valid() && pins == old(pins)[pin := v]
      ensures var clock := pin == 27 && v && !old(Level(27));
              && attShift == (if clock && !(attGated && old(Level(17)))
                              then old(attShift)[1..] + [old(Level(26))] else old(attShift))
              && vgaShift == (if clock && !(vgaGated && old(Level(38)))
                              then old(vgaShift)[1..] + [old(Level(26))] else old(vgaShift))
      ensures attLatch == if pin == 17 && v && !old(Level(17)) then old(attShift) else old(attLatch)
      ensures vgaLatch == if pin == 38 && v && !old(Level(38)) then old(vgaShift) else old(vgaLatch)
    {
      var rises := v && !Level(pin);
      if pin == ATT_CLK && rises {
        if !(attGated && Level(ATT_LE)) { attShift := attShift[1..] + [Level(ATT_DATA)]; }
        if !(vgaGated && Level(VGA_LE)) { vgaShift := vgaShift[1..] + [Level(ATT_DATA)]; }
      }
      if pin == ATT_LE && rises { attLatch := attShift; }
      if pin == VGA_LE && rises { vgaLatch := vgaShift; }
      pins := pins[pin := v];
    }

    /** The shift register behind a latch line. */
    function Register(latchPin: nat): seq<bool>
      reads this
    {
      if latchPin == ATT_LE then attShift else vgaShift
    }

    /** The pins outside the serial bus and this latch line. */
    twostate predicate OtherPinsSame(latchPin: nat)
      reads this
    {
      forall p: nat :: p != 26 && p != 27 && p != latchPin ==>
        ((p in pins && pins[p]) <==> old(p in pins && pins[p]))
    }

    /** Data out, clock up, clock down: one digit into the addressed register. */
    method ClockBit(b: bool, ghost latchPin: nat)
      requires Valid() && (latchPin == ATT_LE || latchPin == VGA_LE) && !Level(latchPin) && !Level(ATT_CLK)
      modifies this
      ensures Valid() && !Level(latchPin) && !Level(ATT_CLK)
      ensures Register(latchPin) == old(Register(latchPin))[1..] + [b]
      ensures attLatch == old(attLatch) && vgaLatch == old(vgaLatch) && OtherPinsSame(latchPin)
    {
      SetPin(ATT_DATA, b);
      SetPin(ATT_CLK, true);
      SetPin(ATT_CLK, false);
    }

    /** One turn of the loop: the digit under the mask goes out, and the byte moves up. */
    method SendDigit(latchPin: nat, v: Octet, top: nat, ghost value: Octet, ghost r0: seq<bool>, ghost sent: nat)
      returns (next: Octet)
      requires Valid() && (latchPin == ATT_LE || latchPin == VGA_LE) && !Level(latchPin) && !Level(ATT_CLK)
      requires sent <= top < 8 && |r0| == top + 1 && Register(latchPin) == Shifted(r0, value, sent)
               && v == MovedUp(value, sent)
      modifies this
      ensures Valid() && !Level(latchPin) && !Level(ATT_CLK) && OtherPinsSame(latchPin)
      ensures Register(latchPin) == Shifted(r0, value, sent + 1) && next == MovedUp(value, sent + 1)
      ensures attLatch == old(attLatch) && vgaLatch == old(vgaLatch)
    {
      var b := And(v, Pow2(top)) != 0;
      TestBit(v, top);
      MovedUpBit(value, sent, top);
      ShiftedOne(r0, value, sent);
      ClockBit(b, latchPin);
      next := 2 * v % 256;
    }

    /** The loop: `bits` digits, most significant first, with the latch line low. */
    method ShiftDigits(latchPin: nat, value: Octet, bits: nat)
      requires Valid() && (latchPin == ATT_LE || latchPin == VGA_LE) && bits == |Register(latchPin)|
      requires !Level(latchPin) && !Level(ATT_CLK)
      modifies this
      ensures Valid() && !Level(latchPin) && !Level(ATT_CLK) && OtherPinsSame(latchPin)
      ensures Register(latchPin) == Digits(value, bits) && attLatch == old(attLatch) && vgaLatch == old(vgaLatch)
    {
      var v: Octet := value;
      ghost var r0 := Register(latchPin);
      ShiftedAll(r0, value);
      ghost var sent := 0;
      var i := bits;
      while i > 0
        invariant 0 <= i && i + sent == bits == |r0| <= 8 && Valid() && !Level(latchPin) && !Level(ATT_CLK)
        invariant Register(latchPin) == Shifted(r0, value, sent) && v == MovedUp(value, sent)
        invariant attLatch == old(attLatch) && vgaLatch == old(vgaLatch) && OtherPinsSame(latchPin)
      {
        v := SendDigit(latchPin, v, bits - 1, value, r0, sent);
        i, sent := i - 1, sent + 1;
      }
    }

    /** Clocks `bits` digits out, then raises the latch line. */
    method GpioShiftOut(latchPin: nat, value: Octet, bits: nat)
      requires Valid() && ((latchPin == 17 && bits == 6) || (latchPin == 38 && bits == 8))
      modifies this
      ensures Valid() && !Level(27) && Level(latchPin) && OtherPinsSame(latchPin)
      ensures attLatch == if latchPin == 17 then Digits(value, 6) else old(attLatch)
      ensures vgaLatch == if latchPin == 38 then Digits(value, 8) else old(vgaLatch)
    {
      SetPin(latchPin, false);
      SetPin(ATT_CLK, false);
      ShiftDigits(latchPin, value, bits);
      SetPin(latchPin, true);
    }

    /** PE4304: the latch line ends low. */
    method SetAttenuator(value: Octet)
      requires Valid()
      modifies this
      ensures Valid() && Value(attLatch) == value % 64 && vgaLatch == old(vgaLatch) && !Level(17) && OtherPinsSame(17)
    {
      GpioShiftOut(ATT_LE, value, 6);
      SetPin(ATT_LE, false);
      DigitsValue(value, 6);
      assert Pow2(6) == 64;
    }

    /** AD8370: the latch line stays high. */
    method SetGain(value: Octet)
      requires Valid()
      modifies this
      ensures Valid() && Value(vgaLatch) == value && attLatch == old(attLatch) && Level(38) && OtherPinsSame(38)
      ensures !Level(26) && !Level(27)
    {
      GpioShiftOut(VGA_LE, value, 8);
      SetPin(ATT_DATA, false);
      DigitsValue(value, 8);
      assert Pow2(8) == 256;
    }

    /** Whether a control line stands as digit `b` of the word would have it. */
    predicate Shown(l: Line, b: bool)
      reads this`pins
    {
      Level(l.pin) == (b != l.inverted)
    }

    predicate ChipsSame(att: seq<bool>, vga: seq<bool>)
      reads this
    {
      Valid() && attLatch == att && vgaLatch == vga
    }

    /** The first n control lines stand as word w has them. */
    ghost predicate Stand(n: nat, w: Word)
      requires n <= |LINES|
      reads this`pins
    {
      forall i :: 0 <= i < n ==> Shown(LINES[i], Bit(w, LINES[i].digit))
    }

    method SetLine(i: nat, v: bool, ghost w: Word)
      requires Valid() && i < |LINES| && Stand(i, w) && v == (Bit(w, LINES[i].digit) != LINES[i].inverted)
      modifies this
      ensures ChipsSame(old(attLatch), old(vgaLatch)) && Stand(i + 1, w)
      ensures forall p: nat :: p != LINES[i].pin ==> Level(p) == old(Level(p))
    {
      SetPin(LINES[i].pin, v);
    }

    method GpioSet(mdata: Word)
      requires Valid()
      modifies this
      ensures ChipsSame(old(attLatch), old(vgaLatch)) && Stand(|LINES|, mdata)
      ensures && (Level(28) <==> Bit(mdata, 5)) && (Level(29) <==> Bit(mdata, 6)) && (Level(20) <==> Bit(mdata, 7))
              && (Level(19) <==> Bit(mdata, 8)) && (Level(18) <==> Bit(mdata, 9)) && (Level(21) <==> Bit(mdata, 11))
              && (Level(24) <==> !Bit(mdata, 16)) && (Level(35) <==> Bit(mdata, 15))
      ensures forall p: nat :: p !in {18, 19, 20, 21, 24, 28, 29, 35} ==> Level(p) == old(Level(p))
    {
      MaskTests(mdata);
      SetLine(0, And(mdata, Pow2(5)) == Pow2(5), mdata);
      SetLine(1, And(mdata, Pow2(6)) == Pow2(6), mdata);
      SetLine(2, And(mdata, Pow2(7)) == Pow2(7), mdata);
      SetLine(3, And(mdata, Pow2(8)) == Pow2(8), mdata);
      SetLine(4, And(mdata, Pow2(9)) == Pow2(9), mdata);
      SetLine(5, And(mdata, Pow2(11)) == Pow2(11), mdata);
      SetLine(6, And(mdata, Pow2(16)) != Pow2(16), mdata);
      SetLine(7, And(mdata, Pow2(15)) == Pow2(15), mdata);
      StandIs(mdata);
    }

    /** The lines by pin number. */
    lemma {:induction false} StandIs(w: Word)
      ensures Stand(|LINES|, w) <==>
                && (Level(28) <==> Bit(w, 5)) && (Level(29) <==> Bit(w, 6)) && (Level(20) <==> Bit(w, 7))
                && (Level(19) <==> Bit(w, 8)) && (Level(18) <==> Bit(w, 9)) && (Level(21) <==> Bit(w, 11))
                && (Level(24) <==> !Bit(w, 16)) && (Level(35) <==> Bit(w, 15))
    {
      assert Stand(|LINES|, w) <==>
               && Shown(LINES[0], Bit(w, 5)) && Shown(LINES[1], Bit(w, 6)) && Shown(LINES[2], Bit(w, 7))
               && Shown(LINES[3], Bit(w, 8)) && Shown(LINES[4], Bit(w, 9)) && Shown(LINES[5], Bit(w, 11))
               && Shown(LINES[6], Bit(w, 16)) && Shown(LINES[7], Bit(w, 15));
    }

    method AdcStandby(standby: bool)
      requires Valid()
      modifies this
      ensures ChipsSame(old(attLatch), old(vgaLatch))
      ensures Level(28) == standby && forall p: nat :: p != 28 ==> Level(p) == old(Level(p))
    {
      SetPin(SHDWN, standby);
    }

    /** Digit k of s is set exactly when one of the first n lines carries it and shows it. */
    ghost predicate Collected(s: nat, n: nat)
      requires n <= |LINES|
      reads this`pins
    {
      forall k: nat :: Bit(s, k) <==> exists j :: 0 <= j < n && LINES[j].digit == k && Shown(LINES[j], true)
    }

    method ReadLine(s: nat, i: nat) returns (t: nat)
      requires i < |LINES| && Collected(s, i)
      ensures Collected(t, i + 1)
    {
      t := s;
      if Level(LINES[i].pin) != LINES[i].inverted {
        OrDigit(s, LINES[i].digit);
        t := Or(s, Pow2(LINES[i].digit));
      }
    }

    /** The control lines as a word. */
    method ReadGpioState() returns (s: nat)
      ensures Collected(s, |LINES|)
      ensures && (Bit(s, 5) <==> Level(28)) && (Bit(s, 6) <==> Level(29)) && (Bit(s, 7) <==> Level(20))
              && (Bit(s, 8) <==> Level(19)) && (Bit(s, 9) <==> Level(18)) && (Bit(s, 11) <==> Level(21))
              && (Bit(s, 16) <==> !Level(24)) && (Bit(s, 15) <==> Level(35))
      ensures forall k: nat :: Bit(s, k) ==> k in {5, 6, 7, 8, 9, 11, 15, 16}
    {
      NoDigits();
      s := ReadLine(0, 0);
      s := ReadLine(s, 1);
      s := ReadLine(s, 2);
      s := ReadLine(s, 3);
      s := ReadLine(s, 4);
      s := ReadLine(s, 5);
      s := ReadLine(s, 6);
      s := ReadLine(s, 7);
      CollectedIs(s);
    }

    /** The word read back by digit and pin number. */
    lemma {:induction false} CollectedIs(s: nat)
      requires Collected(s, |LINES|)
      ensures && (Bit(s, 5) <==> Level(28)) && (Bit(s, 6) <==> Level(29)) && (Bit(s, 7) <==> Level(20))
              && (Bit(s, 8) <==> Level(19)) && (Bit(s, 9) <==> Level(18)) && (Bit(s, 11) <==> Level(21))
              && (Bit(s, 16) <==> !Level(24)) && (Bit(s, 15) <==> Level(35))
      ensures forall k: nat :: Bit(s, k) ==> k in {5, 6, 7, 8, 9, 11, 15, 16}
    {
      OneDigit(s, 0);
      OneDigit(s, 1);
      OneDigit(s, 2);
      OneDigit(s, 3);
      OneDigit(s, 4);
      OneDigit(s, 5);
      OneDigit(s, 6);
      OneDigit(s, 7);
    }

    lemma {:induction false} OneDigit(s: nat, j: nat)
      requires Collected(s, |LINES|) && j < |LINES|
      ensures Bit(s, LINES[j].digit) <==> Shown(LINES[j], true)
    {
      assert forall i :: 0 <= i < |LINES| && LINES[i].digit == LINES[j].digit ==> i == j;
    }

    // ---- runs of commands

    /** What the chips and lines have to show after a run of commands. */
    ghost predicate Shows(cs: seq<Command>)
      reads this
    {
      && (LastAttenuation(cs).Some? ==> Value(attLatch) == LastAttenuation(cs).value % 64)
      && (LastGain(cs).Some? ==> Value(vgaLatch) == LastGain(cs).value)
      && (forall i :: 0 <= i < |LINES| && LastDigit(cs, LINES[i].digit).Some? ==>
            Shown(LINES[i], LastDigit(cs, LINES[i].digit).value))
    }

    /**
     * The host reads back what it sent: once a control word has been given, the word read has exactly the digits of
     * the last one that belong to a line, SHDWN as the last standby call left it.
     */
    lemma {:induction false} ReadsBack(cs: seq<Command>, given: nat, s: nat)
      requires Shows(cs) && Collected(s, |LINES|) && given < |cs| && cs[given].Gpio?
      ensures forall k: nat :: Bit(s, k) <==>
                LastDigit(cs, k) == Some(true) && exists j :: 0 <= j < |LINES| && LINES[j].digit == k
    {
      forall k: nat
        ensures Bit(s, k) <==> LastDigit(cs, k) == Some(true) && exists j :: 0 <= j < |LINES| && LINES[j].digit == k
      {
        WordGiven(cs, given, k);
        assert forall i, j :: 0 <= i < |LINES| && 0 <= j < |LINES| && LINES[i].digit == LINES[j].digit ==> i == j;
      }
    }

    method Execute(c: Command, ghost cs: seq<Command>)
      requires Valid() && Shows(cs)
      modifies this
      ensures Valid() && Shows(cs + [c])
    {
      assert (cs + [c])[..|cs|] == cs;
      match c
      case Attenuator(v) => SetAttenuator(v);
      case Gain(v) => SetGain(v);
      case Gpio(w) => GpioSet(w);
      case Standby(on) => AdcStandby(on);
    }

    /**
     * After any run of commands the attenuator holds the last attenuation sent, mod 64, and the amplifier the last
     * gain, though both were clocked through by every transfer; the lines show the last word and the standby override.
     */
    method ExecuteAll(cs: seq<Command>)
      requires Valid()
      modifies this
      ensures Valid() && Shows(cs)
    {
      var i := 0;
      while i < |cs|
        invariant i <= |cs| && Valid() && Shows(cs[..i])
      {
        Execute(cs[i], cs[..i]);
        assert cs[..i] + [cs[i]] == cs[..i + 1];
        i := i + 1;
      }
      assert cs[..i] == cs;
    }
  }

  lemma {:induction false} NoDigits()
    ensures forall k: nat :: !Bit(0, k)
  {
    forall k: nat
      ensures !Bit(0, k)
    {
      ZeroBit(k);
    }
  }

  lemma {:induction false} OrDigit(s: nat, d: nat)
    ensures forall k: nat :: Bit(Or(s, Pow2(d)), k) <==> Bit(s, k) || k == d
  {
    forall k: nat
      ensures Bit(Or(s, Pow2(d)), k) <==> Bit(s, k) || k == d
    {
      OrBit(s, Pow2(d), k);
      Pow2Bit(d, k);
    }
  }

  lemma {:induction false} MaskTests(w: Word)
    ensures forall k: nat :: And(w, Pow2(k)) == Pow2(k) <==> Bit(w, k)
  {
    forall k: nat
      ensures And(w, Pow2(k)) == Pow2(k) <==> Bit(w, k)
    {
      AndPow2(w, k);
    }
  }
}
