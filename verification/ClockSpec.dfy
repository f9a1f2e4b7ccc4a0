/** The Si5351's register file under bursts of I2C writes that may fail part way, and the registers a host may reach. */
module ClockSpec {
  import opened Words
  import opened ClockPlan

  const REGISTERS := 256

  /** One I2C write: `data` to consecutive registers from `reg`, the address wrapping at 256. */
  datatype Write = Write(reg: nat, data: seq<Octet>)

  /** How a transfer ended; when it failed, `sent` bytes may have reached the chip. */
  datatype Outcome = Outcome(ok: bool, sent: nat)

  type Registers = r: seq<Octet> | |r| == REGISTERS witness seq(REGISTERS, i => 0)

  function Sent(w: Write, o: Outcome): (n: nat)
    ensures n <= |w.data|
  {
    if o.ok || o.sent > |w.data| then |w.data| else o.sent
  }

  /** The register the i-th byte of a burst goes to. */
  function Target(w: Write, i: nat): (r: nat)
    ensures r < REGISTERS
  {
    (w.reg + i) % REGISTERS
  }

  /** The first n bytes of a burst stored. */
  function Burst(regs: Registers, w: Write, n: nat): (r: Registers)
    requires n <= |w.data|
    decreases n
  {
    if n == 0 then regs else Burst(regs, w, n - 1)[Target(w, n - 1) := w.data[n - 1]]
  }

  /** The writes in order, stopping at the first that fails. */
  function RunWrites(regs: Registers, ws: seq<Write>, bus: seq<Outcome>): (Registers, bool)
    requires |bus| >= |ws|
    decreases |ws|
  {
    if ws == [] then (regs, true)
    else
      var r := Burst(regs, ws[0], Sent(ws[0], bus[0]));
      if bus[0].ok then RunWrites(r, ws[1..], bus[1..]) else (r, false)
  }

  // ---- the allowlist -----------------------------------------------------------------------

  /** si5351_reg_writable. */
  predicate Writable(r: nat) {
    r <= 3 || r == 9 || 15 <= r <= 92 || 149 <= r <= 170 || r == 177 || r == 183 || r == 187
  }

  ghost predicate Allowed(w: Write) {
    forall i :: 0 <= i < |w.data| ==> Writable(Target(w, i))
  }

  /** The register numbers AN619 documents for a host to write, and the others, which it must not touch. */
  predicate Documented(r: nat) {
    0 <= r <= 3 || r == 9 || 15 <= r <= 92 || 149 <= r <= 170 || r == 177 || r == 183 || r == 187
  }

  predicate Undocumented(r: nat) {
    || 4 <= r <= 8 || 10 <= r <= 14 || 93 <= r <= 148 || 171 <= r <= 176
    || 178 <= r <= 182 || 184 <= r <= 186 || 188 <= r <= 255
  }

  /** The allowlist is the documented numbers, and leaves out exactly the others. */
  lemma {:induction false} AllowlistIs(r: nat)
    requires r < 256
    ensures Writable(r) <==> Documented(r)
    ensures !Writable(r) <==> Undocumented(r)
  {
  }

  /** Two register files agree outside the allowlist. */
  ghost predicate SameReserved(a: Registers, b: Registers) {
    forall r :: 0 <= r < REGISTERS && !Writable(r) ==> a[r] == b[r]
  }

  lemma {:induction false} BurstReserved(regs: Registers, w: Write, n: nat)
    requires Allowed(w) && n <= |w.data|
    ensures SameReserved(regs, Burst(regs, w, n))
    decreases n
  {
    if n > 0 {
      BurstReserved(regs, w, n - 1);
      assert Writable(Target(w, n - 1));
    }
  }

  lemma {:induction false} WritesReserved(regs: Registers, ws: seq<Write>, bus: seq<Outcome>)
    requires |bus| >= |ws| && forall i :: 0 <= i < |ws| ==> Allowed(ws[i])
    ensures SameReserved(regs, RunWrites(regs, ws, bus).0)
    decreases |ws|
  {
    if ws != [] {
      BurstReserved(regs, ws[0], Sent(ws[0], bus[0]));
      if bus[0].ok {
        WritesReserved(Burst(regs, ws[0], Sent(ws[0], bus[0])), ws[1..], bus[1..]);
      }
    }
  }

  // ---- firmware programming ----------------------------------------------------------------

  function Byte(reg: nat, value: Octet): Write {
    Write(reg, [value])
  }

  /** Si5351Init, in order. */
  const INIT_WRITES: seq<Write> := [
    Byte(3, 0xFF),
    Byte(16, 0x80), Byte(17, 0x80), Byte(18, 0x80), Byte(19, 0x80), Byte(20, 0x80), Byte(21, 0x80), Byte(22, 0x80),
    Byte(23, 0x80),
    Byte(15, 0x00), Byte(9, 0x00), Byte(24, 0x00), Byte(25, 0x00), Byte(149, 0x00), Byte(183, 0x52), Byte(187, 0xD0),
    Byte(177, 0xAC),
    Byte(3, 0x00)
  ]

  /**
   * The chip-facing side of one output: where its PLL, MultiSynth and control registers are, and its reset and enable
   * bytes.
   */
  datatype Path = Path(pll: nat, synth: nat, reset: Octet, control: nat, enable: Octet, limit: nat)

  const PATH_A := Path(26, 42, 0x20, 16, 0x4F, LIMIT_A)
  const PATH_B := Path(34, 58, 0x80, 18, 0x6C, LIMIT_B)

  /** si5351aSetFrequencyA / B: power-down for 0, else ratio, divider, PLL reset, output on. */
  function FrequencyWrites(path: Path, f: nat): seq<Write> {
    if f == 0 then [Byte(path.control, 0x80)]
    else
      var p := PlanFor(f, path.limit);
      [Write(path.pll, PllBytes(p)), Write(path.synth, SynthBytes(p)), Byte(177, path.reset),
       Byte(path.control, path.enable)]
  }

  lemma {:induction false} InitAllowed()
    ensures forall i :: 0 <= i < |INIT_WRITES| ==> Allowed(INIT_WRITES[i])
  {
  }

  lemma {:induction false} RangeAllowed(reg: nat, data: seq<Octet>)
    requires reg + |data| <= REGISTERS && forall r :: reg <= r < reg + |data| ==> Writable(r)
    ensures Allowed(Write(reg, data))
  {
  }

  /** Everything the firmware itself programs stays on the allowlist, for every frequency and either output. */
  lemma {:induction false} FrequencyAllowed(path: Path, f: nat)
    requires path == PATH_A || path == PATH_B
    ensures forall i :: 0 <= i < |FrequencyWrites(path, f)| ==> Allowed(FrequencyWrites(path, f)[i])
  {
    RangeAllowed(path.control, [0x80]);
    RangeAllowed(path.control, [path.enable]);
    RangeAllowed(177, [path.reset]);
    if f > 0 {
      RangeAllowed(path.pll, PllBytes(PlanFor(f, path.limit)));
      RangeAllowed(path.synth, SynthBytes(PlanFor(f, path.limit)));
    }
  }

  // ---- host requests -----------------------------------------------------------------------

  /** An I2CWFX3 or I2CRFX3 request's three setup fields. */
  datatype Request = Request(value: nat, index: nat, length: nat)

  /** si5351_access_blocked: the read address as a base, or any reserved register in the range. */
  ghost predicate Blocked(q: Request) {
    && q.length != 0 && q.value % 256 / 2 == 0x60
    && (q.value % 2 == 1 || exists k :: 0 <= k < q.length && !Writable(HostRegister(q, k)))
  }

  /** The k-th register a request names; the chip's address wraps. */
  function HostRegister(q: Request, k: nat): (r: nat)
    ensures r < 256
  {
    (q.index + k) % 256
  }

  /** One step of any run: a host write or read, or the firmware programming the chip, over any bus. */
  datatype Action =
    | WriteRequest(q: Request, data: seq<Octet>, o: Outcome)
    | ReadRequest(q: Request)
    | Init(bus: seq<Outcome>)
    | SetFrequency(path: Path, f: nat, bus: seq<Outcome>)

  /** The chip writes an action issues: a host write past the check reaches the chip only at its write address. */
  ghost function Issued(a: Action): seq<Write> {
    match a
    case WriteRequest(q, data, _) =>
      if Blocked(q) || q.length == 0 || q.value % 256 != 0xC0 then [] else [Write(q.index % 256, data)]
    case ReadRequest(_) => []
    case Init(_) => INIT_WRITES
    case SetFrequency(path, f, _) => FrequencyWrites(path, f)
  }

  function Bus(a: Action): seq<Outcome> {
    match a
    case WriteRequest(_, _, o) => [o]
    case ReadRequest(_) => []
    case Init(bus) => bus
    case SetFrequency(_, _, bus) => bus
  }

  ghost predicate Legal(a: Action) {
    && (a.WriteRequest? ==> |a.data| == a.q.length <= 64)
    && (a.SetFrequency? ==> a.path == PATH_A || a.path == PATH_B)
    && |Bus(a)| >= |Issued(a)|
  }

  ghost predicate AllLegal(acts: seq<Action>) {
    forall i :: 0 <= i < |acts| ==> Legal(acts[i])
  }

  lemma {:induction false} HostAllowed(q: Request, data: seq<Octet>)
    requires |data| == q.length && !Blocked(q) && q.value % 256 == 0xC0
    ensures Allowed(Write(q.index % 256, data))
  {
    var w := Write(q.index % 256, data);
    forall i | 0 <= i < |w.data|
      ensures Writable(Target(w, i))
    {
      SameTarget(q, w, i);
    }
  }

  lemma {:induction false} SameTarget(q: Request, w: Write, i: nat)
    requires w.reg == q.index % 256
    ensures HostRegister(q, i) == Target(w, i)
  {
  }

  /**
   * Whatever the host asks for and whatever the firmware programs, no write is even addressed to a reserved register.
   */
  lemma {:induction false} IssuedAllowed(a: Action)
    requires Legal(a)
    ensures forall i :: 0 <= i < |Issued(a)| ==> Allowed(Issued(a)[i])
  {
    match a
    case WriteRequest(q, data, o) =>
      if !Blocked(q) && q.value % 256 == 0xC0 {
        HostAllowed(q, data);
      }
    case ReadRequest(_) =>
    case Init(bus) => InitAllowed();
    case SetFrequency(path, f, bus) => FrequencyAllowed(path, f);
  }

  ghost function RunAll(regs: Registers, acts: seq<Action>): Registers
    requires AllLegal(acts)
    decreases |acts|
  {
    if acts == [] then regs else RunAll(RunWrites(regs, Issued(acts[0]), Bus(acts[0])).0, acts[1..])
  }

  /** No run of host requests and firmware programming, failed transfers included, changes a reserved register. */
  lemma {:induction false} ReservedNeverWritten(regs: Registers, acts: seq<Action>)
    requires AllLegal(acts)
    ensures SameReserved(regs, RunAll(regs, acts))
    decreases |acts|
  {
    if acts != [] {
      IssuedAllowed(acts[0]);
      WritesReserved(regs, Issued(acts[0]), Bus(acts[0]));
      ReservedNeverWritten(RunWrites(regs, Issued(acts[0]), Bus(acts[0])).0, acts[1..]);
    }
  }

  /** The same in register numbers. */
  lemma {:induction false} UndocumentedKept(regs: Registers, acts: seq<Action>, r: nat)
    requires AllLegal(acts)
    requires || 4 <= r <= 8 || 10 <= r <= 14 || 93 <= r <= 148 || 171 <= r <= 176
             || 178 <= r <= 182 || 184 <= r <= 186 || 188 <= r <= 255
    ensures RunAll(regs, acts)[r] == regs[r]
  {
    AllowlistIs(r);
    ReservedNeverWritten(regs, acts);
  }

  /** What the guard refuses: the read address, and at the write address any range with an undocumented register. */
  lemma {:induction false} BlockedIff(q: Request)
    ensures Blocked(q) <==>
              q.length > 0 && (q.value % 256 == 0xC1
                               || (q.value % 256 == 0xC0
                                   && exists k :: 0 <= k < q.length && Undocumented(HostRegister(q, k))))
  {
    ClockAddress(q.value);
    if k :| 0 <= k < q.length && !Writable(HostRegister(q, k)) {
      AllowlistIs(HostRegister(q, k));
    }
    if k :| 0 <= k < q.length && Undocumented(HostRegister(q, k)) {
      AllowlistIs(HostRegister(q, k));
    }
  }

  lemma {:induction false} ClockAddress(v: nat)
    ensures v % 256 / 2 == 0x60 <==> v % 256 == 0xC0 || v % 256 == 0xC1
    ensures v % 2 == v % 256 % 2
  {
  }

  /** A burst of at most 256 bytes, wrap included: each of its registers gets its byte, and no other changes. */
  lemma {:induction false} BurstArrives(regs: Registers, w: Write, n: nat)
    requires n <= |w.data| <= 256
    ensures forall k :: 0 <= k < n ==> Burst(regs, w, n)[Target(w, k)] == w.data[k]
    ensures forall r :: 0 <= r < 256 && (forall k :: 0 <= k < n ==> Target(w, k) != r) ==>
              Burst(regs, w, n)[r] == regs[r]
    decreases n
  {
    if n > 0 {
      BurstArrives(regs, w, n - 1);
      forall k | 0 <= k < n - 1
        ensures Target(w, k) != Target(w, n - 1)
      {
        TargetsDiffer(w.reg + k, n - 1 - k);
      }
    }
  }

  lemma {:induction false} TargetsDiffer(a: nat, d: nat)
    requires 0 < d < 256
    ensures a % 256 != (a + d) % 256
  {
  }

  /** Register r is none of those a request names. */
  predicate Unnamed(q: Request, r: nat) {
    forall k :: 0 <= k < q.length ==> HostRegister(q, k) != r
  }

  /**
   * The other side: what a host writes to documented registers is not refused, and when the transfer succeeds its bytes
   * are in those registers and nothing else has changed.
   */
  lemma {:induction false} HostArrives(regs: Registers, q: Request, data: seq<Octet>, o: Outcome)
    requires |data| == q.length <= 64 && q.value % 256 == 0xC0 && o.ok
    requires forall k :: 0 <= k < q.length ==> Documented(HostRegister(q, k))
    ensures var a := WriteRequest(q, data, o);
            && !Blocked(q) && Legal(a)
            && var r' := RunWrites(regs, Issued(a), Bus(a)).0;
               && (forall k :: 0 <= k < q.length ==> r'[HostRegister(q, k)] == data[k])
               && (forall r :: 0 <= r < 256 && Unnamed(q, r) ==> r'[r] == regs[r])
  {
    NotBlocked(q);
    var w := Write(q.index % 256, data);
    if q.length > 0 {
      WholeBurst(regs, w, o);
      RequestArrives(regs, q, w);
    }
  }

  lemma {:induction false} NotBlocked(q: Request)
    requires q.value % 256 == 0xC0 && forall k :: 0 <= k < q.length ==> Documented(HostRegister(q, k))
    ensures !Blocked(q)
  {
    BlockedIff(q);
    if k :| 0 <= k < q.length && Undocumented(HostRegister(q, k)) {
      AllowlistIs(HostRegister(q, k));
    }
  }

  lemma {:induction false} WholeBurst(regs: Registers, w: Write, o: Outcome)
    requires o.ok
    ensures RunWrites(regs, [w], [o]).0 == Burst(regs, w, |w.data|)
  {
  }

  lemma {:induction false} RequestArrives(regs: Registers, q: Request, w: Write)
    requires w.reg == q.index % 256 && |w.data| == q.length <= 64
    ensures forall k :: 0 <= k < q.length ==> Burst(regs, w, q.length)[HostRegister(q, k)] == w.data[k]
    ensures forall r :: 0 <= r < 256 && Unnamed(q, r) ==> Burst(regs, w, q.length)[r] == regs[r]
  {
    BurstArrives(regs, w, q.length);
    forall k | 0 <= k < q.length
      ensures Target(w, k) == HostRegister(q, k)
    {
      SameTarget(q, w, k);
    }
    forall r | 0 <= r < 256 && Unnamed(q, r)
      ensures Burst(regs, w, q.length)[r] == regs[r]
    {
      assert forall k :: 0 <= k < q.length ==> Target(w, k) != r;
    }
  }

  /** A list of writes is made up to the first transfer that fails: all before it whole, and of it what was sent. */
  lemma {:induction false} StopsAtFailure(regs: Registers, ws: seq<Write>, bus: seq<Outcome>, n: nat)
    requires |bus| >= |ws| && n < |ws| && !bus[n].ok && forall i :: 0 <= i < n ==> bus[i].ok
    ensures !RunWrites(regs, ws, bus).1 && RunWrites(regs, ws[..n], bus).1
    ensures RunWrites(regs, ws, bus).0 == Burst(RunWrites(regs, ws[..n], bus).0, ws[n], Sent(ws[n], bus[n]))
    decreases n
  {
    if n > 0 {
      assert ws[..n][1..] == ws[1..][..n - 1];
      StopsAtFailure(Burst(regs, ws[0], Sent(ws[0], bus[0])), ws[1..], bus[1..], n - 1);
    }
  }

  // ---- recovery from any register contents -------------------------------------------------

  lemma {:induction false} BurstAt(regs: Registers, w: Write, n: nat, r: nat)
    requires n <= |w.data| && w.reg + |w.data| <= REGISTERS && r < REGISTERS
    ensures Burst(regs, w, n)[r] == if w.reg <= r < w.reg + n then w.data[r - w.reg] else regs[r]
    decreases n
  {
    if n > 0 {
      BurstAt(regs, w, n - 1, r);
      assert Target(w, n - 1) == w.reg + n - 1;
    }
  }

  /** What register r holds after a list of writes that all succeed: the last byte sent to it, or what it held. */
  function Final(ws: seq<Write>, r: nat, before: Octet): Octet {
    if ws == [] then before
    else
      var w := ws[|ws| - 1];
      if w.reg <= r < w.reg + |w.data| then w.data[r - w.reg] else Final(ws[..|ws| - 1], r, before)
  }

  ghost predicate NoWrap(ws: seq<Write>) {
    forall i :: 0 <= i < |ws| ==> ws[i].reg + |ws[i].data| <= REGISTERS
  }

  lemma {:induction false} FinalCons(w: Write, ws: seq<Write>, r: nat, before: Octet)
    ensures Final([w] + ws, r, before)
            == Final(ws, r, if w.reg <= r < w.reg + |w.data| then w.data[r - w.reg] else before)
    decreases |ws|
  {
    if ws == [] {
      assert ([w] + ws)[..0] == [];
    } else {
      assert ([w] + ws)[..|ws|] == [w] + ws[..|ws| - 1];
      FinalCons(w, ws[..|ws| - 1], r, before);
    }
  }

  lemma {:induction false} SucceededAt(regs: Registers, ws: seq<Write>, bus: seq<Outcome>, r: nat)
    requires |bus| >= |ws| && NoWrap(ws) && r < REGISTERS && RunWrites(regs, ws, bus).1
    ensures RunWrites(regs, ws, bus).0[r] == Final(ws, r, regs[r])
    decreases |ws|
  {
    if ws != [] {
      var first := Burst(regs, ws[0], Sent(ws[0], bus[0]));
      assert bus[0].ok;
      BurstAt(regs, ws[0], |ws[0].data|, r);
      SucceededAt(first, ws[1..], bus[1..], r);
      FinalCons(ws[0], ws[1..], r, regs[r]);
      assert [ws[0]] + ws[1..] == ws;
    }
  }

  /** The registers that Si5351Init and SetFrequencyA between them determine. */
  predicate Determined(r: nat) {
    r == 3 || r == 9 || 15 <= r <= 33 || 42 <= r <= 49 || r == 149 || r == 183 || r == 187
  }

  predicate Covers(w: Write, r: nat) {
    w.reg <= r < w.reg + |w.data|
  }

  /** The last write that covers register r decides it. */
  lemma {:induction false} FinalIs(ws: seq<Write>, r: nat, before: Octet, k: nat)
    requires k < |ws| && Covers(ws[k], r)
    requires forall j :: k < j < |ws| ==> !Covers(ws[j], r)
    ensures Final(ws, r, before) == ws[k].data[r - ws[k].reg]
    decreases |ws|
  {
    if k < |ws| - 1 {
      assert !Covers(ws[|ws| - 1], r);
      FinalIs(ws[..|ws| - 1], r, before, k);
    }
  }

  lemma {:induction false} FinalKeeps(ws: seq<Write>, r: nat, before: Octet)
    requires forall j :: 0 <= j < |ws| ==> !Covers(ws[j], r)
    ensures Final(ws, r, before) == before
    decreases |ws|
  {
    if ws != [] {
      assert !Covers(ws[|ws| - 1], r);
      FinalKeeps(ws[..|ws| - 1], r, before);
    }
  }

  predicate OnFrequencyPath(r: nat) {
    r == 16 || 26 <= r <= 33 || 42 <= r <= 49
  }

  /** What a successful Si5351Init leaves of a register that held `before`, in numbers. */
  function InitLeft(r: nat, before: Octet): Octet {
    if 16 <= r <= 23 then 0x80
    else if r == 177 then 0xAC
    else if r == 183 then 0x52
    else if r == 187 then 0xD0
    else if r == 3 || r == 9 || r == 15 || r == 24 || r == 25 || r == 149 then 0x00
    else before
  }

  lemma {:induction false} FinalOfInit(ws: seq<Write>, r: nat, before: Octet)
    requires ws == INIT_WRITES && r < 256
    ensures NoWrap(ws) && Final(ws, r, before) == InitLeft(r, before)
  {
    if 16 <= r <= 23 || r in {3, 9, 15, 24, 25, 149, 177, 183, 187} {
      var k := if r == 177 then 16 else InitIndex(r);
      FinalIs(ws, r, before, k);
    } else {
      FinalKeeps(ws, r, before);
    }
  }

  /** Every register after a successful Si5351Init, whatever it held. */
  lemma {:induction false} InitChip(before: Registers, bus: seq<Outcome>, after: Registers, r: nat)
    requires Programmed(before, INIT_WRITES, bus, after) && r < 256
    ensures after[r] == InitLeft(r, before[r])
  {
    FinalOfInit(INIT_WRITES, r, before[r]);
    SucceededAt(before, INIT_WRITES, bus, r);
  }

  /** What Si5351Init leaves in the registers the frequency path does not write. */
  function InitValue(r: nat): Octet {
    if 17 <= r <= 23 then 0x80 else if r == 183 then 0x52 else if r == 187 then 0xD0 else 0x00
  }

  /** What the determined registers hold in the end: a function of the frequency alone. */
  function Expected(f: nat, r: nat): Octet
    requires f > 0
  {
    if r == 16 then 0x4F
    else if 26 <= r <= 33 then PllBytes(PlanFor(f, LIMIT_A))[r - 26]
    else if 42 <= r <= 49 then SynthBytes(PlanFor(f, LIMIT_A))[r - 42]
    else InitValue(r)
  }

  /** The write of Si5351Init that has the last word on register r, when the frequency path leaves r alone. */
  function InitIndex(r: nat): (k: nat)
    ensures k < 18
  {
    if r == 3 then 17
    else if 16 <= r <= 23 then r - 15
    else if r == 15 then 9
    else if r == 9 then 10
    else if r == 24 || r == 25 then r - 13
    else if r == 149 then 13
    else if r == 183 then 14
    else 15
  }

  /** The chip took all of ws from state a and ended in state b. */
  ghost predicate Programmed(a: Registers, ws: seq<Write>, bus: seq<Outcome>, b: Registers) {
    |bus| >= |ws| && RunWrites(a, ws, bus) == (b, true)
  }

  lemma {:induction false} InitShape(ws: seq<Write>, r: nat)
    requires ws == INIT_WRITES && Determined(r) && !OnFrequencyPath(r)
    ensures NoWrap(ws) && |ws| == 18
    ensures Covers(ws[InitIndex(r)], r) && ws[InitIndex(r)].data[r - ws[InitIndex(r)].reg] == InitValue(r)
    ensures forall j :: InitIndex(r) < j < |ws| ==> !Covers(ws[j], r)
  {
  }

  lemma {:induction false} InitLeaves(a: Registers, ws: seq<Write>, bus: seq<Outcome>, b: Registers, r: nat)
    requires ws == INIT_WRITES && Determined(r) && !OnFrequencyPath(r) && Programmed(a, ws, bus, b)
    ensures b[r] == InitValue(r)
  {
    InitShape(ws, r);
    LastWordOn(a, ws, bus, b, r, InitIndex(r));
  }

  lemma {:induction false} LastWordOn(a: Registers, ws: seq<Write>, bus: seq<Outcome>, b: Registers, r: nat, k: nat)
    requires NoWrap(ws) && Programmed(a, ws, bus, b) && r < REGISTERS
    requires k < |ws| && Covers(ws[k], r) && forall j :: k < j < |ws| ==> !Covers(ws[j], r)
    ensures b[r] == ws[k].data[r - ws[k].reg]
  {
    SucceededAt(a, ws, bus, r);
    FinalIs(ws, r, a[r], k);
  }

  lemma {:induction false} FrequencyShape(ws: seq<Write>, f: nat)
    requires f > 0 && ws == FrequencyWrites(PATH_A, f)
    ensures NoWrap(ws) && |ws| == 4 && ws[3] == Byte(16, 0x4F) && ws[2].reg == 177 && |ws[2].data| == 1
    ensures ws[0] == Write(26, PllBytes(PlanFor(f, LIMIT_A))) && ws[1] == Write(42, SynthBytes(PlanFor(f, LIMIT_A)))
  {
  }

  /** The frequency writes for either output: where they go, the single bytes, and whose plan the eight bytes carry. */
  lemma {:induction false} FrequencyBytes(f: nat)
    ensures FrequencyWrites(PATH_A, 0) == [Write(16, [0x80])] && FrequencyWrites(PATH_B, 0) == [Write(18, [0x80])]
    ensures f > 0 ==>
              var ws, p := FrequencyWrites(PATH_A, f), PlanFor(f, 1_000_000);
              ws == [Write(26, PllBytes(p)), Write(42, SynthBytes(p)), Write(177, [0x20]), Write(16, [0x4F])]
    ensures f > 0 ==>
              var ws, p := FrequencyWrites(PATH_B, f), PlanFor(f, 1_000_001);
              ws == [Write(34, PllBytes(p)), Write(58, SynthBytes(p)), Write(177, [0x80]), Write(18, [0x6C])]
  {
  }

  /** The write of the frequency path that has the last word on register r. */
  function FrequencyIndex(r: nat): nat {
    if r == 16 then 3 else if r <= 33 then 0 else 1
  }

  lemma {:induction false} FrequencyCovers(ws: seq<Write>, f: nat, r: nat)
    requires f > 0 && ws == FrequencyWrites(PATH_A, f) && OnFrequencyPath(r)
    ensures |ws| == 4 && Covers(ws[FrequencyIndex(r)], r)
    ensures ws[FrequencyIndex(r)].data[r - ws[FrequencyIndex(r)].reg] == Expected(f, r)
    ensures forall j :: FrequencyIndex(r) < j < |ws| ==> !Covers(ws[j], r)
  {
    FrequencyShape(ws, f);
  }

  lemma {:induction false} FrequencySpares(ws: seq<Write>, f: nat, r: nat)
    requires f > 0 && ws == FrequencyWrites(PATH_A, f) && Determined(r) && !OnFrequencyPath(r)
    ensures forall j :: 0 <= j < |ws| ==> !Covers(ws[j], r)
  {
    FrequencyShape(ws, f);
  }

  lemma {:induction false} FrequencyLeaves(a: Registers, ws: seq<Write>, bus: seq<Outcome>, b: Registers, f: nat,
                                           r: nat)
    requires f > 0 && ws == FrequencyWrites(PATH_A, f) && Programmed(a, ws, bus, b) && Determined(r)
    ensures b[r] == if OnFrequencyPath(r) then Expected(f, r) else a[r]
  {
    FrequencyShape(ws, f);
    if OnFrequencyPath(r) {
      FrequencyCovers(ws, f, r);
      LastWordOn(a, ws, bus, b, r, FrequencyIndex(r));
    } else {
      FrequencySpares(ws, f, r);
      SucceededAt(a, ws, bus, r);
      FinalKeeps(ws, r, a[r]);
    }
  }

  /**
   * Recovery: a successful Si5351Init followed by a successful si5351aSetFrequencyA(f), f > 0, leaves these
   * registers a function of f alone, whatever the host had written to the chip before.
   */
  lemma {:induction false} RecoveredChip(before: Registers, middle: Registers, after: Registers, f: nat,
                                         busI: seq<Outcome>, busF: seq<Outcome>, r: nat)
    requires f > 0 && Determined(r)
    requires Programmed(before, INIT_WRITES, busI, middle)
    requires Programmed(middle, FrequencyWrites(PATH_A, f), busF, after)
    ensures after[r] == Expected(f, r)
  {
    FrequencyLeaves(middle, FrequencyWrites(PATH_A, f), busF, after, f, r);
    if !OnFrequencyPath(r) {
      InitLeaves(before, INIT_WRITES, busI, middle, r);
    }
  }
}
