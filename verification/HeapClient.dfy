/** Clients of the checked heap that stay inside their blocks: nothing they do, in any order, sets off the check. */
module HeapClient {
  import opened Words
  import opened HeapSpec
  import opened LinkSpec
  import opened BufferHeap

  type Size = n: nat | n < 0x1_0000

  /**
   * A call by a client, each with what the mutex answers: ask for a buffer, give the k-th one held back, or store a
   * word at byte 4*j of it.
   */
  datatype Call = Get(size: Size, lockOk: bool) | Return(k: nat, lockOk: bool) | Put(k: nat, j: nat, v: Word)

  /** A buffer a client holds: the pointer it was given and the size it asked for. */
  datatype Held = Held(ptr: nat, size: nat)

  /** The heap is set up with checks, and every live block carries both signatures. */
  ghost predicate Intact(m: BufferManager)
    reads m, if m.usedStatus != null then {m.usedStatus} else {}
  {
    m.Valid() && m.usedStatus != null && m.enableChecks && SignedFrom(m.List(), 0)
  }

  /** The clients hold exactly the live blocks. */
  ghost predicate Holds(m: BufferManager, held: seq<Held>)
    reads m
  {
    |held| == |m.live| && forall k :: 0 <= k < |held| ==> HeldAs(m, held[k], m.live[k])
  }

  ghost predicate HeldAs(m: BufferManager, h: Held, b: Block)
    reads m
  {
    h.ptr == m.ClientPtr(b) && b.bytes == BlockBytes(h.size, true)
  }

  // ---- signatures that survive -------------------------------------------------------------

  lemma {:induction false} SignatureKept(l: InUse, ram': seq<Word>, m: nat)
    requires ListOk(l) && m < |l.live| && SameButLinks(l.ram, ram', l.live[m]) && Signed(l.ram, l.live[m])
    ensures Signed(ram', l.live[m])
  {
    OwnWords(l.ram, l.base, l.live, l.lines, m);
  }

  /** Signed blocks stay signed where nothing but links changes. */
  lemma {:induction false} SignaturesKept(l: InUse, ram': seq<Word>, k: int)
    requires ListOk(l) && SignedFrom(l, 0) && OthersSame(l, ram', k)
    ensures forall m :: 0 <= m < |l.live| && m != k ==> Signed(ram', l.live[m])
  {
    forall m | 0 <= m < |l.live| && m != k
      ensures Signed(ram', l.live[m])
    {
      SignatureKept(l, ram', m);
    }
  }

  /** Word j of a buffer of that size lies in the block's payload. */
  lemma {:induction false} PutInside(b: Block, size: nat, j: nat)
    requires b.bytes == BlockBytes(size, true) && 4 * j + 4 <= size
    ensures Payload(b, HeaderAt(b) + 8 + j)
  {
  }

  lemma {:induction false} AllocLive(h: Heap, size: nat)
    requires 32 * h.searchPos <= |h.bits|
    ensures match AllocBlock(h, size, true)
            case None => AllocStep(h, size, true) == h
            case Some(b) => AllocStep(h, size, true).live == h.live + [b] && b.bytes == BlockBytes(size, true)
  {
  }

  lemma {:induction false} OneMoreHeld(m: BufferManager, older: seq<Block>, b: Block, held: seq<Held>, size: nat)
    requires m.live == older + [b] && b.bytes == BlockBytes(size, true) && |held| == |older|
    requires forall k :: 0 <= k < |held| ==> HeldAs(m, held[k], older[k])
    ensures Holds(m, held + [Held(m.ClientPtr(b), size)])
  {
  }

  lemma {:induction false} OneMoreIntact(l: InUse, l': InUse, b: Block)
    requires ListOk(l) && SignedFrom(l, 0) && OthersSame(l, l'.ram, -1) && l'.live == l.live + [b] && Signed(l'.ram, b)
    ensures SignedFrom(l', 0)
  {
    SignaturesKept(l, l'.ram, -1);
  }

  // ---- the calls ---------------------------------------------------------------------------

  /** Alloc, told by the list of live blocks. */
  method GetBlock(m: BufferManager, size: Size, lockOk: bool) returns (ptr: nat, ghost got: Option<Block>)
    requires Intact(m)
    modifies m`searchPos, m`allocCnt, m`inUseList, m`live, m`ram, m.usedStatus
    ensures Intact(m)
    ensures match got
            case None => ptr == 0 && m.live == old(m.live)
            case Some(b) =>
              m.live == old(m.live) + [b] && b.bytes == BlockBytes(size, true) && ptr == m.ClientPtr(b) > 0
  {
    ghost var l, h := m.List(), m.Abs();
    ptr, got := m.Alloc(size, lockOk);
    AllocLive(h, size);
    if got.Some? {
      OneMoreIntact(l, m.List(), got.value);
    }
  }

  method GetBuffer(m: BufferManager, size: Size, lockOk: bool, held: seq<Held>) returns (held': seq<Held>)
    requires Intact(m) && Holds(m, held)
    modifies m`searchPos, m`allocCnt, m`inUseList, m`live, m`ram, m.usedStatus
    ensures Intact(m) && Holds(m, held')
  {
    ghost var older := m.live;
    var ptr, got := GetBlock(m, size, lockOk);
    held' := if ptr == 0 then held else held + [Held(ptr, size)];
    if got.Some? {
      OneMoreHeld(m, older, got.value, held, size);
    }
  }

  lemma {:induction false} SignedWithout(l: InUse, l': InUse, k: nat)
    requires ListOk(l) && SignedFrom(l, 0) && k < |l.live| && OthersSame(l, l'.ram, k) && l'.live == Without(l.live, k)
    ensures SignedFrom(l', 0)
  {
    SignaturesKept(l, l'.ram, k);
  }

  lemma {:induction false} OneLessHeld(m: BufferManager, older: seq<Block>, k: nat, held: seq<Held>)
    requires k < |held| == |older| && m.live == Without(older, k)
    requires forall j :: 0 <= j < |held| ==> HeldAs(m, held[j], older[j])
    ensures Holds(m, held[..k] + held[k + 1..])
  {
  }

  /** Free of a live block, told likewise; the signatures being good, the callback is not called. */
  method ReturnBlock(m: BufferManager, ptr: nat, ghost k: nat, lockOk: bool) returns (ret: int)
    requires Intact(m) && k < |m.live| && ptr == m.ClientPtr(m.live[k])
    modifies m`searchPos, m`freeCnt, m`inUseList, m`badBlocks, m`live, m`ram, m.usedStatus
    ensures Intact(m) && m.badBlocks == old(m.badBlocks)
    ensures ret == 0 <==> lockOk
    ensures m.live == if ret == 0 then Without(old(m.live), k) else old(m.live)
  {
    ghost var l := m.List();
    m.PointerInside(k);
    ret := m.Free(ptr, lockOk, k, m.live[k].start);
    if lockOk {
      SignedWithout(l, m.List(), k);
    }
  }

  method ReturnBuffer(m: BufferManager, k: nat, lockOk: bool, held: seq<Held>) returns (held': seq<Held>)
    requires Intact(m) && Holds(m, held) && k < |held|
    modifies m`searchPos, m`freeCnt, m`inUseList, m`badBlocks, m`live, m`ram, m.usedStatus
    ensures Intact(m) && Holds(m, held') && m.badBlocks == old(m.badBlocks)
  {
    ghost var older := m.live;
    var ret := ReturnBlock(m, held[k].ptr, k, lockOk);
    held' := held;
    if ret == 0 {
      held' := held[..k] + held[k + 1..];
      OneLessHeld(m, older, k, held);
    }
  }

  method PutWord(m: BufferManager, k: nat, j: nat, v: Word, held: seq<Held>)
    requires Intact(m) && Holds(m, held) && k < |held| && 4 * j + 4 <= held[k].size
    modifies m`ram
    ensures Intact(m) && Holds(m, held)
  {
    ghost var l := m.List();
    PutInside(m.live[k], held[k].size, j);
    OwnWords(m.ram, m.heapBase, m.live, 32 * m.words, k);
    m.Store(k, (held[k].ptr - m.heapBase) / 4 + j, v);
    SignaturesKept(l, m.ram, k);
  }

  /** Checks switched on and the heap set up: nobody holds anything yet. */
  method SetUp(m: BufferManager, callback: bool, mutexOk: bool, memoryOk: bool)
    requires m.Valid() && m.usedStatus == null
    modifies m
    ensures m.Valid()
    ensures mutexOk && memoryOk ==> m.usedStatus != null && fresh(m.usedStatus) && Intact(m) && Holds(m, [])
  {
    var ok := m.EnableChecks(true, callback);
    m.Init(mutexOk, memoryOk);
  }

  /** A call as its client makes it: only for a buffer it holds, and only at a word inside it. */
  method Make(m: BufferManager, c: Call, held: seq<Held>) returns (held': seq<Held>)
    requires Intact(m) && Holds(m, held)
    modifies m`searchPos, m`allocCnt, m`freeCnt, m`inUseList, m`badBlocks, m`live, m`ram, m.usedStatus
    ensures Intact(m) && Holds(m, held') && m.badBlocks == old(m.badBlocks)
  {
    held' := held;
    match c
    case Get(size, lockOk) =>
      held' := GetBuffer(m, size, lockOk, held);
    case Return(k, lockOk) =>
      if k < |held| {
        held' := ReturnBuffer(m, k, lockOk, held);
      }
    case Put(k, j, v) =>
      if k < |held| && 4 * j + 4 <= held[k].size {
        PutWord(m, k, j, v, held);
      }
  }

  /**
   * Any calls in any order by clients that stay inside their buffers: no signature is broken, the callback is not
   * called, and a check at the end succeeds.
   */
  method CheckAfter(m: BufferManager, calls: seq<Call>, held: seq<Held>) returns (ok: bool, held': seq<Held>)
    requires Intact(m) && Holds(m, held)
    modifies m`searchPos, m`allocCnt, m`freeCnt, m`inUseList, m`badBlocks, m`live, m`ram, m.usedStatus
    ensures ok && Intact(m) && Holds(m, held') && m.badBlocks == old(m.badBlocks)
  {
    held' := held;
    for i := 0 to |calls|
      invariant Intact(m) && Holds(m, held') && m.badBlocks == old(m.badBlocks)
    {
      held' := Make(m, calls[i], held');
    }
    SignedAbove(m.List(), 0);
    ok := m.CorruptionCheck();
  }

  lemma {:induction false} FooterPast(b: Block, size: nat)
    requires b.bytes == BlockBytes(size, true)
    ensures FooterAt(b) == HeaderAt(b) + 8 + RoundUp4(size) / 4
  {
  }

  /** Where a buffer's footer is, told by its pointer and size. */
  lemma {:induction false} FooterFound(m: BufferManager, k: nat, held: seq<Held>)
    requires Intact(m) && Holds(m, held) && k < |held|
    ensures m.heapBase <= held[k].ptr
    ensures (held[k].ptr - m.heapBase) / 4 + RoundUp4(held[k].size) / 4 == FooterAt(m.live[k])
  {
    FooterPast(m.live[k], held[k].size);
    OwnWords(m.ram, m.heapBase, m.live, 32 * m.words, k);
  }

  /** Block k, and no other, has a broken signature. */
  ghost predicate OneBroken(m: BufferManager, k: nat)
    reads m, if m.usedStatus != null then {m.usedStatus} else {}
  {
    && m.Valid() && m.usedStatus != null && m.enableChecks && k < |m.live| && !Signed(m.ram, m.live[k])
    && forall j :: 0 <= j < |m.live| && j != k ==> Signed(m.ram, m.live[j])
  }

  /** A store one word past a buffer. */
  method PutPast(m: BufferManager, k: nat, v: Word, held: seq<Held>)
    requires Intact(m) && Holds(m, held) && k < |held| && v != END_SIG
    modifies m`ram
    ensures OneBroken(m, k) && m.ClientPtr(m.live[k]) == held[k].ptr
  {
    ghost var l := m.List();
    FooterFound(m, k, held);
    OwnWords(m.ram, m.heapBase, m.live, 32 * m.words, k);
    m.Store(k, (held[k].ptr - m.heapBase) / 4 + RoundUp4(held[k].size) / 4, v);
    SignaturesKept(l, m.ram, k);
  }

  /** One broken block, wherever it is, is the one the check names. */
  method CheckFinds(m: BufferManager, ghost k: nat) returns (ok: bool)
    requires OneBroken(m, k)
    modifies m`badBlocks
    ensures !ok && m.badBlocks == old(m.badBlocks) + if m.callbackSet then [m.ClientPtr(m.live[k])] else []
  {
    ok := m.CorruptionCheck();
    if m.callbackSet {
      ghost var j :| m.IsNewestBroken(j) && m.badBlocks == old(m.badBlocks) + [m.ClientPtr(m.live[j])];
    }
  }

  /** It is found: the check fails, and the callback hears of that buffer. */
  method CheckAfterOverrun(m: BufferManager, k: nat, v: Word, held: seq<Held>) returns (ok: bool)
    requires Intact(m) && Holds(m, held) && k < |held| && v != END_SIG
    modifies m`ram, m`badBlocks
    ensures !ok && m.badBlocks == old(m.badBlocks) + if m.callbackSet then [held[k].ptr] else []
  {
    PutPast(m, k, v, held);
    ok := CheckFinds(m, k);
  }
}
