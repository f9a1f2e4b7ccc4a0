/** The clock driver and the host's guarded way to the chip, writing registers one transfer at a time. */
module ClockChip {
  import opened Words
  import opened ClockPlan
  import opened ClockSpec

  const CHIP: Octet := 0xC0

  /** How many transfers a list of writes uses up: all of them, or those to the first that fails. */
  function Used(ws: seq<Write>, bus: seq<Outcome>): (n: nat)
    requires |bus| >= |ws|
    ensures n <= |ws|
  {
    if ws == [] then 0 else if bus[0].ok then 1 + Used(ws[1..], bus[1..]) else 1
  }

  lemma {:induction false} RunAppend(regs: Registers, ws: seq<Write>, w: Write, bus: seq<Outcome>)
    requires |bus| > |ws| && RunWrites(regs, ws, bus).1
    ensures RunWrites(regs, ws + [w], bus) == (Burst(RunWrites(regs, ws, bus).0, w, Sent(w, bus[|ws|])), bus[|ws|].ok)
    ensures Used(ws, bus) == |ws| && Used(ws + [w], bus) == |ws| + 1
    decreases |ws|
  {
    if ws == [] {
      assert RunWrites(Burst(regs, w, Sent(w, bus[0])), [], bus[1..]).1;
    } else {
      assert (ws + [w])[1..] == ws[1..] + [w];
      RunAppend(Burst(regs, ws[0], Sent(ws[0], bus[0])), ws[1..], w, bus[1..]);
    }
  }

  /** After the first failure the rest of the list does not matter. */
  lemma {:induction false} RunFailed(regs: Registers, ws: seq<Write>, more: seq<Write>, bus: seq<Outcome>)
    requires |bus| >= |ws| + |more| && !RunWrites(regs, ws, bus).1
    ensures RunWrites(regs, ws + more, bus) == RunWrites(regs, ws, bus) && Used(ws + more, bus) == Used(ws, bus)
    decreases |ws|
  {
    assert ws != [];
    assert (ws + more)[1..] == ws[1..] + more && (ws + more)[0] == ws[0];
    if bus[0].ok {
      RunFailed(Burst(regs, ws[0], Sent(ws[0], bus[0])), ws[1..], more, bus[1..]);
    }
  }

  /** A program under way: its writes, how many are done, and the registers and bus it began with. */
  datatype Program = Program(ws: seq<Write>, done: nat, r0: Registers, b0: seq<Outcome>)

  /** The first `done` writes have been made, all of them well. */
  ghost predicate Upto(p: Program, regs: Registers, bus: seq<Outcome>) {
    match p
    case Program(ws, done, r0, b0) =>
      done <= |ws| <= |b0| && bus == b0[done..] && RunWrites(r0, ws[..done], b0) == (regs, true)
  }

  /** All of the program has been attempted, up to its first failure. */
  ghost predicate Ended(p: Program, ok: bool, regs: Registers, bus: seq<Outcome>) {
    match p
    case Program(ws, _, r0, b0) =>
      |ws| <= |b0| && RunWrites(r0, ws, b0) == (regs, ok) && bus == b0[Used(ws, b0)..]
  }

  /** The registers after one transfer of w. */
  function After(regs: Registers, w: Write, o: Outcome): Registers {
    Burst(regs, w, Sent(w, o))
  }

  lemma {:induction false} OneWrite(regs: Registers, w: Write, o: Outcome)
    ensures RunWrites(regs, [w], [o]).0 == After(regs, w, o)
  {
  }

  /** si5351_access_blocked: true exactly for the requests the guard is to refuse. */
  method AccessBlocked(q: Request) returns (blocked: bool)
    requires q.value < 65536 && q.index < 65536 && q.length < 65536
    ensures blocked <==> Blocked(q)
    ensures blocked <==>
              q.length > 0 && (q.value % 256 == 0xC1
                               || (q.value % 256 == 0xC0
                                   && exists k :: 0 <= k < q.length && Undocumented(HostRegister(q, k))))
  {
    BlockedIff(q);
    if q.length == 0 { return false; }
    if q.value % 256 / 2 != 0x60 { return false; }
    if q.value % 2 == 1 { return true; }
    var k := 0;
    while k < q.length
      invariant k <= q.length && forall j :: 0 <= j < k ==> Writable(HostRegister(q, j))
    {
      if !Writable(HostRegister(q, k)) { return true; }
      k := k + 1;
    }
    return false;
  }

  lemma {:induction false} Begin(p: Program)
    requires p.done == 0 && |p.ws| <= |p.b0|
    ensures Upto(p, p.r0, p.b0)
  {
  }

  lemma {:induction false} SentWell(p: Program, regs: Registers, bus: seq<Outcome>)
    requires Upto(p, regs, bus) && p.done < |p.ws|
    ensures bus != [] && bus[0] == p.b0[p.done]
    ensures bus[0].ok ==> Upto(p.(done := p.done + 1), After(regs, p.ws[p.done], bus[0]), bus[1..])
  {
    var Program(ws, done, r0, b0) := p;
    RunAppend(r0, ws[..done], ws[done], b0);
    assert ws[..done + 1] == ws[..done] + [ws[done]];
  }

  lemma {:induction false} SentBadly(p: Program, regs: Registers, bus: seq<Outcome>)
    requires Upto(p, regs, bus) && p.done < |p.ws| && bus != [] && bus[0] == p.b0[p.done] && !bus[0].ok
    ensures Ended(p, false, After(regs, p.ws[p.done], bus[0]), bus[1..])
  {
    var Program(ws, done, r0, b0) := p;
    RunAppend(r0, ws[..done], ws[done], b0);
    assert ws[..done + 1] == ws[..done] + [ws[done]];
    RunFailed(r0, ws[..done + 1], ws[done + 1..], b0);
    assert ws == ws[..done + 1] + ws[done + 1..];
  }

  lemma {:induction false} AllSent(p: Program, regs: Registers, bus: seq<Outcome>)
    requires Upto(p, regs, bus) && p.done == |p.ws|
    ensures Ended(p, true, regs, bus)
    ensures forall d :: Ended(p.(done := d), true, regs, bus)
  {
    assert p.ws[..p.done] == p.ws;
    AllUsed(p.r0, p.ws, p.b0);
  }

  lemma {:induction false} AllUsed(regs: Registers, ws: seq<Write>, bus: seq<Outcome>)
    requires |bus| >= |ws| && RunWrites(regs, ws, bus).1
    ensures Used(ws, bus) == |ws|
    decreases |ws|
  {
    if ws != [] {
      AllUsed(Burst(regs, ws[0], Sent(ws[0], bus[0])), ws[1..], bus[1..]);
    }
  }

  /** One more transfer of a program: on with the rest, or the end of it. */
  lemma {:induction false} Transferred(p: Program, regs: Registers, bus: seq<Outcome>, regs': Registers)
    requires Upto(p, regs, bus) && p.done < |p.ws|
    ensures bus != []
    ensures regs' == After(regs, p.ws[p.done], bus[0]) ==>
              && (bus[0].ok ==> Upto(p.(done := p.done + 1), regs', bus[1..]))
              && (!bus[0].ok || p.done + 1 == |p.ws| ==> Ended(p, bus[0].ok, regs', bus[1..]))
  {
    SentWell(p, regs, bus);
    if !bus[0].ok {
      SentBadly(p, regs, bus);
    } else if p.done + 1 == |p.ws| {
      AllSent(p.(done := p.done + 1), After(regs, p.ws[p.done], bus[0]), bus[1..]);
    }
  }

  /** The eight bytes, filled in one by one. */
  method FillData(x: Fields) returns (d: seq<Octet>)
    requires x.r < 256 && x.r % 16 == 0
    ensures d == Pack(x)
  {
    PackThird(x.p1, x.r);
    var data := new Octet[8];
    data[0] := x.p3 / 256 % 256;
    data[1] := x.p3 % 256;
    data[2] := x.p1 / 65536 % 4 + x.r;
    data[3] := x.p1 / 256 % 256;
    data[4] := x.p1 % 256;
    data[5] := x.p3 / 65536 % 16 * 16 + x.p2 / 65536 % 16;
    data[6] := x.p2 / 256 % 256;
    data[7] := x.p2 % 256;
    d := data[..];
  }

  /** SetupPLL's P1, P2 and P3 in 32-bit arithmetic. */
  method PllParameters(mult: Octet, num: Word, denom: Word) returns (x: Fields)
    requires num <= 0xFFFFF && 0 < denom <= 0xFFFFF
    ensures x == PllFields(mult, num, denom) && x.r == 0
  {
    var n: Word := 128 * num;
    var p1: Word := Wrap(128 * mult + n / denom - 512);
    var p2: Word := Wrap(n - denom * (n / denom));
    x := Fields(p1, p2, denom, 0);
  }

  /** And packed. */
  method PllData(mult: Octet, num: Word, denom: Word) returns (data: seq<Octet>)
    requires num <= 0xFFFFF && 0 < denom <= 0xFFFFF
    ensures data == Pack(PllFields(mult, num, denom)) && |data| == 8
  {
    var x := PllParameters(mult, num, denom);
    data := FillData(x);
  }

  /** SetupMultisynth's, with P2 = 0 and P3 = 1 for an integer divider. */
  method SynthData(divider: Word, rDiv: Octet, ghost doublings: nat) returns (data: seq<Octet>)
    requires divider <= 900 && rDiv == R_DIV_2 * doublings % 256
    ensures rDiv % 16 == 0 && data == Pack(SynthFields(divider, doublings)) && |data| == 8
  {
    var p1: Word := Wrap(128 * divider - 512);
    RBits(doublings);
    data := FillData(Fields(p1, 0, 1, rDiv));
  }

  /** The three parts of Si5351Init's list. */
  ghost predicate PowersDown(ws: seq<Write>) {
    |ws| == 18 && ws[0] == Byte(3, 0xFF) && forall i :: 1 <= i <= 8 ==> ws[i] == Byte(15 + i, 0x80)
  }

  ghost predicate SetsBaseline(ws: seq<Write>) {
    && |ws| == 18 && ws[9] == Byte(15, 0x00) && ws[10] == Byte(9, 0x00) && ws[11] == Byte(24, 0x00)
    && ws[12] == Byte(25, 0x00)
    && ws[13] == Byte(149, 0x00) && ws[14] == Byte(183, 0x52) && ws[15] == Byte(187, 0xD0)
  }

  ghost predicate ResetsPlls(ws: seq<Write>) {
    |ws| == 18 && ws[16] == Byte(177, 0xAC) && ws[17] == Byte(3, 0x00)
  }

  lemma {:induction false} InitParts(ws: seq<Write>)
    requires ws == INIT_WRITES
    ensures PowersDown(ws) && SetsBaseline(ws) && ResetsPlls(ws)
  {
  }

  /** A request to the write address whose transfer succeeds, in numbers. */
  lemma {:induction false} WriteTold(regs: Registers, q: Request, data: seq<Octet>, o: Outcome)
    requires |data| == q.length <= 64
    ensures q.value % 256 == 0xC0 && o.ok ==>
              var a := WriteRequest(q, data, o);
              var r' := RunWrites(regs, Issued(a), Bus(a)).0;
              if exists k :: 0 <= k < q.length && Undocumented(HostRegister(q, k)) then Blocked(q) && r' == regs
              else !Blocked(q) && forall k :: 0 <= k < q.length ==> r'[HostRegister(q, k)] == data[k]
  {
    if q.value % 256 == 0xC0 && o.ok {
      BlockedIff(q);
      if !exists k :: 0 <= k < q.length && Undocumented(HostRegister(q, k)) {
        forall k | 0 <= k < q.length
          ensures Documented(HostRegister(q, k))
        {
          AllowlistIs(HostRegister(q, k));
        }
        HostArrives(regs, q, data, o);
      }
    }
  }

  class Clock {
    var regs: Registers
    var bus: seq<Outcome>     // how the coming transfers will end

    var failures: Word        // the I2C failure statistic

    /** A transfer to the device at `dev`; only bytes written to the clock chip's own address reach its registers. */
    method I2cTransfer(reg: Octet, dev: Octet, data: seq<Octet>, isRead: bool) returns (ok: bool)
      requires bus != []
      modifies this
      ensures data == [] ==> ok && regs == old(regs) && bus == old(bus)
      ensures data != [] ==> ok == old(bus[0].ok) && bus == old(bus[1..])
      ensures data != [] ==>
                regs == if dev == 0xC0 && !isRead then After(old(regs), Write(reg, data), old(bus[0])) else old(regs)
      ensures failures == if ok then old(failures) else Next(old(failures))
    {
      if |data| == 0 { return true; }
      ok := bus[0].ok;
      if dev == CHIP && !isRead {
        regs := After(regs, Write(reg, data), bus[0]);
      }
      bus := bus[1..];
      if !ok { failures := Next(failures); }
    }

    /** One write of the firmware's own, as the next step of program p. */
    method Send(reg: nat, data: seq<Octet>, ghost p: Program) returns (ok: bool)
      requires reg < 256 && data != []
      requires Upto(p, regs, bus) && p.done < |p.ws| && p.ws[p.done] == Write(reg, data)
      modifies this
      ensures ok ==> Upto(p.(done := p.done + 1), regs, bus)
      ensures !ok || p.done + 1 == |p.ws| ==> Ended(p, ok, regs, bus)
      ensures failures == if ok then old(failures) else Next(old(failures))
    {
      Transferred(p, regs, bus, After(regs, Write(reg, data), bus[0]));
      ok := I2cTransfer(reg, CHIP, data, false);
    }

    /** An I2CWFX3 request: the guard, then the transfer to whatever device the host named. */
    method HostWrite(q: Request, data: seq<Octet>, received: bool) returns (isHandled: bool)
      requires |data| == q.length <= 64 && q.value < 65536 && q.index < 65536 && bus != []
      modifies this
      ensures var a := WriteRequest(q, data, old(bus[0]));
              regs == if received then RunWrites(old(regs), Issued(a), Bus(a)).0 else old(regs)
      ensures isHandled <==> received && !Blocked(q) && (q.length == 0 || old(bus[0].ok))
      ensures failures == if isHandled || !received then old(failures) else Next(old(failures))
      ensures received && q.value % 256 == 0xC0 && old(bus[0].ok) ==>
                if exists k :: 0 <= k < q.length && Undocumented(HostRegister(q, k))
                then !isHandled && regs == old(regs)
                else isHandled && forall k :: 0 <= k < q.length ==> regs[HostRegister(q, k)] == data[k]
    {
      isHandled := false;
      WriteTold(regs, q, data, bus[0]);
      if received {
        var blocked := AccessBlocked(q);
        if blocked {
          failures := Next(failures);
        } else {
          OneWrite(regs, Write(q.index % 256, data), bus[0]);
          isHandled := I2cTransfer(q.index % 256, q.value % 256, data, false);
        }
      }
    }

    /** An I2CRFX3 request: it may be refused, and it changes no register. */
    method HostRead(q: Request) returns (isHandled: bool)
      requires q.length <= 64 && q.value < 65536 && q.index < 65536 && bus != []
      modifies this
      ensures regs == old(regs)
      ensures isHandled <==> !Blocked(q) && (q.length == 0 || old(bus[0].ok))
      ensures failures == if isHandled then old(failures) else Next(old(failures))
    {
      isHandled := false;
      var blocked := AccessBlocked(q);
      if blocked {
        failures := Next(failures);
      } else {
        isHandled := I2cTransfer(q.index % 256, q.value % 256, seq(q.length, i => 0), true);
      }
    }

    /** Steps 1 and 2: all outputs off, all eight drivers powered down. */
    method PowerDown(ghost p: Program) returns (ok: bool)
      requires Upto(p, regs, bus) && p.done == 0 && PowersDown(p.ws)
      modifies this
      ensures if ok then Upto(p.(done := 9), regs, bus) else Ended(p, false, regs, bus)
      ensures failures == if ok then old(failures) else Next(old(failures))
    {
      ok := Send(3, [0xFF], p);
      if !ok { return; }
      var reg := 16;
      while reg <= 16 + 7
        invariant 16 <= reg <= 24 && ok && Upto(p.(done := reg - 15), regs, bus) && failures == old(failures)
      {
        ok := Send(reg, [0x80], p.(done := reg - 15));
        if !ok { return; }
        reg := reg + 1;
      }
    }

    /** Step 4: the known-good baseline for the registers the frequency path does not rewrite. */
    method Baseline(ghost p: Program) returns (ok: bool)
      requires Upto(p, regs, bus) && p.done == 9 && SetsBaseline(p.ws)
      modifies this
      ensures if ok then Upto(p.(done := 16), regs, bus) else Ended(p, false, regs, bus)
      ensures failures == if ok then old(failures) else Next(old(failures))
    {
      ok := Send(15, [0x00], p);
      if !ok { return; }
      ok := Send(9, [0x00], p.(done := 10));
      if !ok { return; }
      ok := Send(24, [0x00], p.(done := 11));
      if !ok { return; }
      ok := Send(25, [0x00], p.(done := 12));
      if !ok { return; }
      ok := Send(149, [0x00], p.(done := 13));
      if !ok { return; }
      ok := Send(183, [0x52], p.(done := 14));
      if !ok { return; }
      ok := Send(187, [0xD0], p.(done := 15));
    }

    /** Steps 5 and 6: both PLLs reset, outputs enabled. */
    method ResetAndEnable(ghost p: Program) returns (ok: bool)
      requires Upto(p, regs, bus) && p.done == 16 && ResetsPlls(p.ws)
      modifies this
      ensures Ended(p, ok, regs, bus) && failures == if ok then old(failures) else Next(old(failures))
    {
      ok := Send(177, [0xAC], p);
      if !ok { return; }
      ok := Send(3, [0x00], p.(done := 17));
    }

    method Si5351Init() returns (ok: bool)
      requires |bus| >= |INIT_WRITES|
      modifies this
      ensures Ended(Program(INIT_WRITES, 0, old(regs), old(bus)), ok, regs, bus)
      ensures failures == if ok then old(failures) else Next(old(failures))
    {
      ghost var p := Program(INIT_WRITES, 0, regs, bus);
      Begin(p);
      InitParts(p.ws);
      ok := PowerDown(p);
      if ok {
        ok := Baseline(p.(done := 9));
        if ok {
          ok := ResetAndEnable(p.(done := 16));
        }
      }
    }

    /** Packs and sends the PLL parameters; the comment's ranges for num and denom are the caller's duty. */
    method SetupPLL(pll: Octet, mult: Octet, num: Word, denom: Word, ghost p: Program) returns (ok: bool)
      requires num <= 0xFFFFF && 0 < denom <= 0xFFFFF
      requires Upto(p, regs, bus) && p.done < |p.ws| && p.ws[p.done] == Write(pll, Pack(PllFields(mult, num, denom)))
      modifies this
      ensures ok ==> Upto(p.(done := p.done + 1), regs, bus)
      ensures !ok || p.done + 1 == |p.ws| ==> Ended(p, ok, regs, bus)
      ensures failures == if ok then old(failures) else Next(old(failures))
    {
      var data := PllData(mult, num, denom);
      ok := Send(pll, data, p);
    }

    method SetupMultisynth(synth: Octet, divider: Word, rDiv: Octet, ghost doublings: nat, ghost p: Program)
      returns (ok: bool)
      requires divider <= 900 && rDiv == R_DIV_2 * doublings % 256
      requires Upto(p, regs, bus) && p.done < |p.ws| && SynthReady(p, synth, divider, doublings)
      modifies this
      ensures ok ==> Upto(p.(done := p.done + 1), regs, bus)
      ensures !ok || p.done + 1 == |p.ws| ==> Ended(p, ok, regs, bus)
      ensures failures == if ok then old(failures) else Next(old(failures))
    {
      var data := SynthData(divider, rDiv, doublings);
      ok := Send(synth, data, p);
    }

    /** si5351aSetFrequencyA / B: power the output down, or plan, program and reset the PLL and switch the output on. */
    method SetFrequency(path: Path, freq: Word) returns (ok: bool)
      requires path == PATH_A || path == PATH_B
      requires |bus| >= |FrequencyWrites(path, freq)|
      modifies this
      ensures Ended(Program(FrequencyWrites(path, freq), 0, old(regs), old(bus)), ok, regs, bus)
      ensures failures == if ok then old(failures) else Next(old(failures))
    {
      ghost var p := Program(FrequencyWrites(path, freq), 0, regs, bus);
      Begin(p);
      if freq == 0 {
        ok := Send(path.control, [0x80], p);
        return;
      }
      var divider, mult, num, rdiv := PlanFrequency(freq, path.limit);
      ghost var k := PlanFor(freq, path.limit).doublings;
      StepsOf(path, freq);
      ok := SetupPLL(path.pll, mult, num, DENOM, p);
      if !ok { return; }
      ok := SetupMultisynth(path.synth, divider, rdiv % 256, k, p.(done := 1));
      if !ok { return; }
      ok := Send(177, [path.reset], p.(done := 2));
      if !ok { return; }
      ok := Send(path.control, [path.enable], p.(done := 3));
    }
  }

  lemma {:induction false} StepsOf(path: Path, f: nat)
    requires f > 0
    ensures var ws, p := FrequencyWrites(path, f), PlanFor(f, path.limit);
            && |ws| == 4
            && ws[0] == Write(path.pll, Pack(PllFields(p.mult, p.num, DENOM)))
            && SynthReady(Program(ws, 1, seq(REGISTERS, i => 0), []), path.synth, p.divider, p.doublings)
            && ws[2] == Byte(177, path.reset) && ws[3] == Byte(path.control, path.enable)
  {
  }

  ghost predicate SynthReady(p: Program, synth: nat, divider: nat, doublings: nat)
    requires p.done < |p.ws|
  {
    RBits(doublings);
    p.ws[p.done] == Write(synth, Pack(SynthFields(divider, doublings)))
  }

  /** k of the doublings are done. */
  ghost predicate Doubled(freq: nat, limit: nat, frequency: nat, k: nat)
    requires freq > 0 && frequency > 0
  {
    frequency == freq * Pow2(k) && k + Doublings(frequency, limit) == Doublings(freq, limit) <= 20
  }

  lemma {:induction false} Twice(f: nat, k: nat)
    ensures f * Pow2(k + 1) == f * Pow2(k) * 2
  {
  }

  lemma {:induction false} OneMore(freq: nat, limit: nat, frequency: nat, k: nat)
    requires freq > 0 && 0 < frequency < limit && Doubled(freq, limit, frequency, k)
    ensures k < 20 && Doubled(freq, limit, frequency * 2, k + 1)
  {
    Twice(freq, k);
    assert Doublings(frequency, limit) == 1 + Doublings(2 * frequency, limit);
  }

  lemma {:induction false} AllDoubled(freq: nat, limit: nat, frequency: nat, k: nat)
    requires freq > 0 && 0 < frequency && frequency >= limit && Doubled(freq, limit, frequency, k)
    ensures k == Doublings(freq, limit) && frequency == freq * Pow2(k)
  {
  }

  /** The doubling loop, in 32-bit variables that never overflow. */
  method Double(freq: Word, limit: nat) returns (frequency: Word, rdiv: Word)
    requires freq > 0 && limit <= LIMIT_B
    ensures frequency == freq * Pow2(Doublings(freq, limit)) && rdiv == R_DIV_2 * Doublings(freq, limit)
  {
    rdiv := 0;
    frequency := freq;
    ghost var k := 0;
    DoublingsBound(freq, limit);
    while frequency < limit
      invariant frequency > 0 && Doubled(freq, limit, frequency, k) && rdiv == R_DIV_2 * k && k <= 20
      decreases if frequency < limit then limit - frequency else 0
    {
      OneMore(freq, limit, frequency, k);
      frequency := frequency * 2;
      rdiv := rdiv + R_DIV_2;
      k := k + 1;
    }
    AllDoubled(freq, limit, frequency, k);
  }

  /** The divisions that follow: the even divider, the PLL ratio and its fraction. */
  method Divide(frequency: Word) returns (divider: Word, mult: Octet, num: Word)
    requires frequency >= 1_000_000
    ensures divider == EvenDivider(frequency) <= 900
    ensures var vco := divider * frequency; mult == vco / XTAL && num == vco % XTAL * DENOM / XTAL < DENOM
  {
    DividerRange(frequency);
    VcoBounds(frequency);
    divider := MAX_VCO / frequency;
    if divider % 2 == 1 {
      divider := divider - 1;
    }
    var pllFreq: Word := divider * frequency;
    NumBelow(pllFreq % XTAL);
    mult := pllFreq / XTAL;
    num := pllFreq % XTAL * DENOM / XTAL;
  }

  /** si5351aSetFrequency's arithmetic computes the plan. */
  method PlanFrequency(freq: Word, limit: nat) returns (divider: Word, mult: Octet, num: Word, rdiv: Word)
    requires freq > 0 && (limit == LIMIT_A || limit == LIMIT_B)
    ensures var p := PlanFor(freq, limit);
            divider == p.divider <= 900 && mult == p.mult && num == p.num < DENOM && rdiv == R_DIV_2 * p.doublings
  {
    DoublingsReach(freq, limit);
    var frequency;
    frequency, rdiv := Double(freq, limit);
    divider, mult, num := Divide(frequency);
  }
}
