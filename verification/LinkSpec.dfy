/**
 * The in-use list that the error-detection build threads through the buffer heap. Headers and footers
 * live in the heap's own memory, so the list is described over the words of that memory.
 */
module LinkSpec {
  import opened Words
  import opened Bits
  import opened HeapSpec

  const START_SIG: Word := 0x4658_334D
  const END_SIG: Word := 0x454E_444D

  // Word offsets of the MemBlockInfo fields.
  const ALLOC_ID := 0
  const ALLOC_SIZE := 1
  const PREV_BLK := 2
  const NEXT_BLK := 3
  const SIG := 4

  function Address(base: nat, b: Block): nat {
    base + 32 * b.start
  }

  function WordAt(base: nat, address: nat): int {
    (address - base) / 4
  }

  /** Block b owns the memory words HeaderAt(b) .. EndAt(b)-1. */
  function HeaderAt(b: Block): nat {
    8 * b.start
  }

  function EndAt(b: Block): nat {
    8 * (b.start + b.lines)
  }

  function FooterAt(b: Block): int {
    8 * b.start + b.bytes / 4 - 1
  }

  predicate Payload(b: Block, i: int) {
    HeaderAt(b) + 8 <= i < FooterAt(b)
  }

  ghost predicate Checked(b: Block) {
    b.bytes % 4 == 0 && HEADER_BYTES + FOOTER_BYTES <= b.bytes
  }

  ghost predicate Region(ram: seq<Word>, base: nat, live: seq<Block>, lines: nat) {
    && base > 0 && base + 32 * lines <= UINT32 && |ram| == 8 * lines
    && Layout(live, lines) && (forall k :: 0 <= k < |live| ==> Checked(live[k]))
  }

  /** The address of the k-th oldest block's header; address 0 ends the list on both sides. */
  function AddressAt(base: nat, live: seq<Block>, k: int): nat {
    if 0 <= k < |live| then Address(base, live[k]) else 0
  }

  /** `prev_blk` leads from each block to the next older one and `next_blk` back, with no other links. */
  ghost predicate Linked(ram: seq<Word>, base: nat, live: seq<Block>, lines: nat, head: nat) {
    && Region(ram, base, live, lines)
    && head == AddressAt(base, live, |live| - 1)
    && forall k :: 0 <= k < |live| ==> LinkedHere(ram, base, live, k)
  }

  /**
   * The in-use list as the manager holds it: the memory, its base address and size, the blocks, and the head pointer.
   */
  datatype InUse = InUse(ram: seq<Word>, base: nat, lines: nat, live: seq<Block>, head: nat)

  ghost predicate ListOk(l: InUse) {
    match l
    case InUse(ram, base, lines, live, head) => Linked(ram, base, live, lines, head)
  }

  /** Of every listed block but the k-th, nothing except its two links differs in the memory ram'. */
  ghost predicate OthersSame(l: InUse, ram': seq<Word>, k: int) {
    match l
    case InUse(ram, _, _, live, _) => forall m {:trigger SameButLinks(ram, ram', live[m])} ::
      0 <= m < |live| && m != k ==> SameButLinks(ram, ram', live[m])
  }

  /** The callback's arguments when block k is looked at: its client pointer if either signature is broken. */
  function Report(l: InUse, k: nat, callback: bool): seq<nat> {
    match l
    case InUse(ram, base, _, live, _) =>
      if callback && k < |live| && !Signed(ram, live[k]) then [Address(base, live[k]) + HEADER_BYTES] else []
  }

  /** The callback has been called as that says, and not otherwise. */
  ghost predicate Reported(l: InUse, k: nat, callback: bool, before: seq<nat>, after: seq<nat>) {
    after == before + Report(l, k, callback)
  }

  lemma {:induction false} ReportedBlock(l: InUse, k: nat, callback: bool, before: seq<nat>, after: seq<nat>,
                                         intact: bool)
    requires k < |l.live| && intact == Signed(l.ram, l.live[k])
    requires after == before + if callback && !intact then [Address(l.base, l.live[k]) + HEADER_BYTES] else []
    ensures Reported(l, k, callback, before, after)
  {
  }

  ghost predicate LinkedHere(ram: seq<Word>, base: nat, live: seq<Block>, k: nat)
    requires k < |live|
  {
    LinkedAt(ram, live[k], AddressAt(base, live, k - 1), AddressAt(base, live, k + 1))
  }

  predicate LinkedAt(ram: seq<Word>, b: Block, prev: nat, next: nat) {
    && HeaderAt(b) + SIG < |ram| && ram[HeaderAt(b) + ALLOC_SIZE] == b.bytes
    && ram[HeaderAt(b) + PREV_BLK] == prev && ram[HeaderAt(b) + NEXT_BLK] == next
  }

  predicate Signed(ram: seq<Word>, b: Block) {
    && HeaderAt(b) + SIG < |ram| && 0 <= FooterAt(b) < |ram|
    && ram[HeaderAt(b) + SIG] == START_SIG && ram[FooterAt(b)] == END_SIG
  }

  /** Header and footer in numbers: where each of their words lies, and what it is. */
  lemma {:induction false} HeaderWords(ram: seq<Word>, b: Block, prev: nat, next: nat)
    requires 8 * b.start + 8 <= |ram| && 0 <= 8 * b.start + b.bytes / 4 - 1 < |ram|
    ensures LinkedAt(ram, b, prev, next) && Signed(ram, b) <==>
              && ram[8 * b.start + 1] == b.bytes && ram[8 * b.start + 2] == prev && ram[8 * b.start + 3] == next
              && ram[8 * b.start + 4] == 0x4658_334D && ram[8 * b.start + b.bytes / 4 - 1] == 0x454E_444D
  {
  }

  /** Nothing of block b differs between two memories, its list links aside. */
  ghost predicate SameButLinks(ram: seq<Word>, ram': seq<Word>, b: Block) {
    && EndAt(b) <= |ram| == |ram'|
    && forall i :: HeaderAt(b) <= i < EndAt(b) && i != HeaderAt(b) + PREV_BLK && i != HeaderAt(b) + NEXT_BLK ==>
         ram'[i] == ram[i]
  }

  lemma {:induction false} OwnWords(ram: seq<Word>, base: nat, live: seq<Block>, lines: nat, k: nat)
    requires Region(ram, base, live, lines) && k < |live|
    ensures HeaderAt(live[k]) + 8 <= FooterAt(live[k]) < EndAt(live[k]) <= |ram|
    ensures Address(base, live[k]) < UINT32 && WordAt(base, Address(base, live[k])) == HeaderAt(live[k])
  {
  }

  lemma {:induction false} WordsApart(live: seq<Block>, lines: nat, j: nat, k: nat)
    requires Layout(live, lines) && j < |live| && k < |live| && j != k
    ensures EndAt(live[j]) <= HeaderAt(live[k]) || EndAt(live[k]) <= HeaderAt(live[j])
  {
  }

  /** A link that is null or points at a header inside the memory. */
  predicate Pointer(ram: seq<Word>, base: nat, address: nat) {
    address == 0 || (base <= address && WordAt(base, address) + SIG < |ram|)
  }

  // ---- pushing a new block -----------------------------------------------------------------

  /** The word of the old head's `next_blk`, or -1 when the list was empty. */
  function NextOfHead(base: nat, head: nat): int {
    if head == 0 then -1 else WordAt(base, head) + NEXT_BLK
  }

  /** r is ram after block b was given a header, a footer, and a place in front of `head`. */
  ghost predicate Pushed(ram: seq<Word>, r: seq<Word>, base: nat, head: nat, b: Block) {
    && |r| == |ram|
    && LinkedAt(r, b, head, 0) && Signed(r, b)
    && (head != 0 ==> 0 <= NextOfHead(base, head) < |r| && r[NextOfHead(base, head)] == Address(base, b))
    && forall i :: 0 <= i < |ram| && !(HeaderAt(b) <= i < EndAt(b)) && i != NextOfHead(base, head) ==> r[i] == ram[i]
  }

  lemma {:induction false} PushedBody(ram: seq<Word>, r: seq<Word>, base: nat, live: seq<Block>, lines: nat, head: nat,
                                      b: Block, k: nat)
    requires Linked(ram, base, live, lines, head) && Pushed(ram, r, base, head, b) && k < |live|
    requires EndAt(live[k]) <= HeaderAt(b) || EndAt(b) <= HeaderAt(live[k])
    ensures SameButLinks(ram, r, live[k])
  {
  }

  /** The word a push patches is the newest block's `next_blk`. */
  lemma {:induction false} PatchedWord(ram: seq<Word>, base: nat, live: seq<Block>, lines: nat, head: nat)
    requires Linked(ram, base, live, lines, head) && live != []
    ensures head == Address(base, live[|live| - 1]) != 0
    ensures NextOfHead(base, head) == HeaderAt(live[|live| - 1]) + NEXT_BLK
  {
    OwnWords(ram, base, live, lines, |live| - 1);
  }

  lemma {:induction false} PushedOlder(ram: seq<Word>, r: seq<Word>, base: nat, live: seq<Block>, lines: nat, head: nat,
                                       b: Block, k: nat)
    requires Linked(ram, base, live, lines, head) && Pushed(ram, r, base, head, b) && k < |live| - 1
    requires EndAt(live[k]) <= HeaderAt(b) || EndAt(b) <= HeaderAt(live[k])
    ensures LinkedAt(r, live[k], AddressAt(base, live, k - 1), AddressAt(base, live, k + 1))
  {
    PatchedWord(ram, base, live, lines, head);
    OwnWords(ram, base, live, lines, k);
    assert LinkedHere(ram, base, live, k);
    WordsApart(live, lines, k, |live| - 1);
  }

  lemma {:induction false} PushedNewest(ram: seq<Word>, r: seq<Word>, base: nat, live: seq<Block>, lines: nat,
                                        head: nat, b: Block, k: nat)
    requires Linked(ram, base, live, lines, head) && Pushed(ram, r, base, head, b) && k + 1 == |live|
    requires EndAt(live[k]) <= HeaderAt(b) || EndAt(b) <= HeaderAt(live[k])
    ensures LinkedAt(r, live[k], AddressAt(base, live, k - 1), Address(base, b))
  {
    PatchedWord(ram, base, live, lines, head);
    OwnWords(ram, base, live, lines, k);
    assert LinkedHere(ram, base, live, k);
  }

  lemma {:induction false} PushedLinks(ram: seq<Word>, r: seq<Word>, base: nat, live: seq<Block>, lines: nat, head: nat,
                                       b: Block, k: nat)
    requires Linked(ram, base, live, lines, head) && Pushed(ram, r, base, head, b) && k < |live|
    requires EndAt(live[k]) <= HeaderAt(b) || EndAt(b) <= HeaderAt(live[k])
    ensures LinkedAt(r, live[k], AddressAt(base, live, k - 1), AddressAt(base, live + [b], k + 1))
  {
    if k + 1 == |live| {
      PushedNewest(ram, r, base, live, lines, head, b, k);
    } else {
      PushedOlder(ram, r, base, live, lines, head, b, k);
    }
  }

  lemma {:induction false} PushedFrame(ram: seq<Word>, r: seq<Word>, base: nat, live: seq<Block>, lines: nat, head: nat,
                                       b: Block, k: nat)
    requires Linked(ram, base, live, lines, head) && Pushed(ram, r, base, head, b) && k < |live|
    requires EndAt(live[k]) <= HeaderAt(b) || EndAt(b) <= HeaderAt(live[k])
    ensures SameButLinks(ram, r, live[k])
    ensures LinkedAt(r, live[k], AddressAt(base, live, k - 1), AddressAt(base, live + [b], k + 1))
  {
    PushedBody(ram, r, base, live, lines, head, b, k);
    PushedLinks(ram, r, base, live, lines, head, b, k);
  }

  lemma {:induction false} PushedHere(ram: seq<Word>, r: seq<Word>, base: nat, live: seq<Block>, lines: nat, head: nat,
                                      b: Block, k: nat)
    requires Linked(ram, base, live, lines, head) && Pushed(ram, r, base, head, b) && k <= |live|
    requires Layout(live + [b], lines)
    ensures LinkedHere(r, base, live + [b], k)
    ensures k < |live| ==> SameButLinks(ram, r, live[k])
  {
    OlderNeighbour(base, live, b, k);
    if k < |live| {
      WordsApart(live + [b], lines, k, |live|);
      PushedFrame(ram, r, base, live, lines, head, b, k);
    }
  }

  /** A newly pushed block joins the list at its head; every other link, signature and payload word stays. */
  lemma {:induction false} PushKeeps(ram: seq<Word>, r: seq<Word>, base: nat, live: seq<Block>, lines: nat, head: nat,
                                     b: Block)
    requires Linked(ram, base, live, lines, head) && Pushed(ram, r, base, head, b)
    requires Layout(live + [b], lines) && Checked(b)
    ensures Linked(r, base, live + [b], lines, Address(base, b))
    ensures forall k :: 0 <= k < |live| ==> SameButLinks(ram, r, live[k])
  {
    forall k | 0 <= k <= |live|
      ensures LinkedHere(r, base, live + [b], k)
      ensures k < |live| ==> SameButLinks(ram, r, live[k])
    {
      PushedHere(ram, r, base, live, lines, head, b, k);
    }
  }

  lemma {:induction false} OlderNeighbour(base: nat, live: seq<Block>, b: Block, k: nat)
    requires k <= |live|
    ensures AddressAt(base, live + [b], k - 1) == AddressAt(base, live, k - 1)
    ensures (live + [b])[k] == if k < |live| then live[k] else b
  {
  }

  // ---- unlinking a block -------------------------------------------------------------------

  predicate Unlinkable(ram: seq<Word>, base: nat, b: Block) {
    && HeaderAt(b) + SIG < |ram|
    && Pointer(ram, base, ram[HeaderAt(b) + PREV_BLK]) && Pointer(ram, base, ram[HeaderAt(b) + NEXT_BLK])
  }

  /** The word of the newer neighbour's `prev_blk`, or -1 when there is none. */
  function PrevOfNext(ram: seq<Word>, base: nat, b: Block): int
    requires HeaderAt(b) + SIG < |ram|
  {
    if ram[HeaderAt(b) + NEXT_BLK] == 0 then -1 else WordAt(base, ram[HeaderAt(b) + NEXT_BLK]) + PREV_BLK
  }

  /** The word of the older neighbour's `next_blk`, or -1 when there is none. */
  function NextOfPrev(ram: seq<Word>, base: nat, b: Block): int
    requires HeaderAt(b) + SIG < |ram|
  {
    if ram[HeaderAt(b) + PREV_BLK] == 0 then -1 else WordAt(base, ram[HeaderAt(b) + PREV_BLK]) + NEXT_BLK
  }

  /** r is ram after block b's two neighbours, where it has them, were made neighbours of each other. */
  ghost predicate Unlinked(ram: seq<Word>, r: seq<Word>, base: nat, b: Block)
    requires HeaderAt(b) + SIG < |ram|
  {
    && |r| == |ram|
    && forall i :: 0 <= i < |ram| ==>
         r[i] == if i == PrevOfNext(ram, base, b) then ram[HeaderAt(b) + PREV_BLK]
                 else if i == NextOfPrev(ram, base, b) then ram[HeaderAt(b) + NEXT_BLK]
                 else ram[i]
  }

  function HeadWithout(ram: seq<Word>, base: nat, b: Block, head: nat): nat
    requires HeaderAt(b) + SIG < |ram|
  {
    if head == Address(base, b) then ram[HeaderAt(b) + PREV_BLK] else head
  }

  lemma {:induction false} LiveUnlinkable(ram: seq<Word>, base: nat, live: seq<Block>, lines: nat, head: nat, k: nat)
    requires Linked(ram, base, live, lines, head) && k < |live|
    ensures Unlinkable(ram, base, live[k])
  {
    OwnWords(ram, base, live, lines, k);
    assert LinkedHere(ram, base, live, k);
    if k > 0 { OwnWords(ram, base, live, lines, k - 1); }
    if k + 1 < |live| { OwnWords(ram, base, live, lines, k + 1); }
  }

  lemma {:induction false} Neighbours(ram: seq<Word>, base: nat, live: seq<Block>, lines: nat, head: nat, k: nat)
    requires Linked(ram, base, live, lines, head) && k < |live| && HeaderAt(live[k]) + SIG < |ram|
    ensures ram[HeaderAt(live[k]) + PREV_BLK] == AddressAt(base, live, k - 1)
    ensures ram[HeaderAt(live[k]) + NEXT_BLK] == AddressAt(base, live, k + 1)
    ensures PrevOfNext(ram, base, live[k]) == if k + 1 < |live| then HeaderAt(live[k + 1]) + PREV_BLK else -1
    ensures NextOfPrev(ram, base, live[k]) == if k > 0 then HeaderAt(live[k - 1]) + NEXT_BLK else -1
  {
    assert LinkedHere(ram, base, live, k);
    if k > 0 { OwnWords(ram, base, live, lines, k - 1); }
    if k + 1 < |live| { OwnWords(ram, base, live, lines, k + 1); }
  }

  /** The two patched words lie outside block m, or are m's own link towards k. */
  lemma {:induction false} PatchesApart(live: seq<Block>, lines: nat, k: nat, m: nat, i: int)
    requires Layout(live, lines) && k < |live| && m < |live| && HeaderAt(live[m]) <= i < EndAt(live[m])
    ensures k + 1 < |live| && i == HeaderAt(live[k + 1]) + PREV_BLK ==> m == k + 1
    ensures k > 0 && i == HeaderAt(live[k - 1]) + NEXT_BLK ==> m == k - 1
  {
  }

  lemma {:induction false} UnlinkedFrame(ram: seq<Word>, r: seq<Word>, base: nat, live: seq<Block>, lines: nat,
                                         head: nat, k: nat, m: nat)
    requires Linked(ram, base, live, lines, head) && k < |live| && m < |live| && m != k
    requires HeaderAt(live[k]) + SIG < |ram| && Unlinked(ram, r, base, live[k])
    ensures SameButLinks(ram, r, live[m])
  {
    Neighbours(ram, base, live, lines, head, k);
    OwnWords(ram, base, live, lines, m);
    forall i | HeaderAt(live[m]) <= i < EndAt(live[m])
               && i != HeaderAt(live[m]) + PREV_BLK && i != HeaderAt(live[m]) + NEXT_BLK
      ensures r[i] == ram[i]
    {
      PatchesApart(live, lines, k, m, i);
    }
  }

  lemma {:induction false} UnlinkedAt(ram: seq<Word>, r: seq<Word>, base: nat, live: seq<Block>, lines: nat, head: nat,
                                      k: nat, m: nat)
    requires Linked(ram, base, live, lines, head) && k < |live| && m < |live| && m != k
    requires HeaderAt(live[k]) + SIG < |ram| && Unlinked(ram, r, base, live[k])
    ensures LinkedAt(r, live[m], AddressAt(base, live, if m == k + 1 then k - 1 else m - 1),
                     AddressAt(base, live, if m == k - 1 then k + 1 else m + 1))
  {
    Neighbours(ram, base, live, lines, head, k);
    OwnWords(ram, base, live, lines, m);
    assert LinkedHere(ram, base, live, m);
    PatchesApart(live, lines, k, m, HeaderAt(live[m]) + ALLOC_SIZE);
    PatchesApart(live, lines, k, m, HeaderAt(live[m]) + PREV_BLK);
    PatchesApart(live, lines, k, m, HeaderAt(live[m]) + NEXT_BLK);
  }

  lemma {:induction false} WithoutNeighbours(base: nat, live: seq<Block>, k: nat, j: nat)
    requires k < |live| && j < |live| - 1
    ensures var m := if j < k then j else j + 1;
            && |Without(live, k)| == |live| - 1 && Without(live, k)[j] == live[m]
            && AddressAt(base, Without(live, k), j - 1) == AddressAt(base, live, if m == k + 1 then k - 1 else m - 1)
            && AddressAt(base, Without(live, k), j + 1) == AddressAt(base, live, if m == k - 1 then k + 1 else m + 1)
  {
  }

  /** A block's links, told by its place in the old list, are those its place in the new list asks for. */
  lemma {:induction false} LinkedWithout(r: seq<Word>, base: nat, live: seq<Block>, k: nat, j: nat)
    requires k < |live| && j < |live| - 1
    requires var m := if j < k then j else j + 1;
             LinkedAt(r, live[m], AddressAt(base, live, if m == k + 1 then k - 1 else m - 1),
                      AddressAt(base, live, if m == k - 1 then k + 1 else m + 1))
    ensures |Without(live, k)| == |live| - 1 && LinkedHere(r, base, Without(live, k), j)
  {
    WithoutNeighbours(base, live, k, j);
  }

  lemma {:induction false} UnlinkedHere(ram: seq<Word>, r: seq<Word>, base: nat, live: seq<Block>, lines: nat,
                                        head: nat, k: nat, j: nat)
    requires Linked(ram, base, live, lines, head) && k < |live| && j < |live| - 1
    requires HeaderAt(live[k]) + SIG < |ram| && Unlinked(ram, r, base, live[k])
    ensures |Without(live, k)| == |live| - 1
    ensures LinkedHere(r, base, Without(live, k), j)
  {
    UnlinkedAt(ram, r, base, live, lines, head, k, if j < k then j else j + 1);
    LinkedWithout(r, base, live, k, j);
  }

  lemma {:induction false} CheckedWithout(ram: seq<Word>, base: nat, live: seq<Block>, lines: nat, k: nat)
    requires Region(ram, base, live, lines) && k < |live|
    ensures forall j :: 0 <= j < |Without(live, k)| ==> Checked(Without(live, k)[j])
  {
  }

  /** Unlinking any live block, newest, oldest or in between, leaves the list of the others in the same order. */
  lemma {:induction false} UnlinkKeeps(ram: seq<Word>, r: seq<Word>, base: nat, live: seq<Block>, lines: nat, head: nat,
                                       k: nat)
    requires Linked(ram, base, live, lines, head) && k < |live|
    requires HeaderAt(live[k]) + SIG < |ram| && Unlinked(ram, r, base, live[k])
    ensures Linked(r, base, Without(live, k), lines, HeadWithout(ram, base, live[k], head))
    ensures forall m :: 0 <= m < |live| && m != k ==> SameButLinks(ram, r, live[m])
  {
    WithoutLayout(live, k, lines);
    NewHead(ram, base, live, lines, head, k);
    CheckedWithout(ram, base, live, lines, k);
    forall j | 0 <= j < |live| - 1
      ensures LinkedHere(r, base, Without(live, k), j)
    {
      UnlinkedHere(ram, r, base, live, lines, head, k, j);
    }
    forall m | 0 <= m < |live| && m != k
      ensures SameButLinks(ram, r, live[m])
    {
      UnlinkedFrame(ram, r, base, live, lines, head, k, m);
    }
  }

  lemma {:induction false} NewHead(ram: seq<Word>, base: nat, live: seq<Block>, lines: nat, head: nat, k: nat)
    requires Linked(ram, base, live, lines, head) && k < |live|
    requires HeaderAt(live[k]) + SIG < |ram|
    ensures HeadWithout(ram, base, live[k], head) == AddressAt(base, Without(live, k), |live| - 2)
  {
    assert LinkedHere(ram, base, live, k);
    if k != |live| - 1 {
      Apart(live, lines, k, |live| - 1);
      assert Fits(live[k], lines);
    }
  }

  // ---- walking the list --------------------------------------------------------------------

  function Reversed(live: seq<Block>): (r: seq<Block>)
    ensures |r| == |live|
  {
    seq(|live|, i requires 0 <= i < |live| => live[|live| - 1 - i])
  }

  /** The header addresses met by following `prev_blk` from address a, at most n of them. */
  function PrevWalk(ram: seq<Word>, base: nat, a: nat, n: nat): seq<nat>
    decreases n
  {
    if n == 0 || a == 0 || !(base <= a && WordAt(base, a) + SIG < |ram|) then []
    else [a] + PrevWalk(ram, base, ram[WordAt(base, a) + PREV_BLK], n - 1)
  }

  lemma {:induction false} PrevWalkFrom(ram: seq<Word>, base: nat, live: seq<Block>, lines: nat, head: nat, j: nat,
                                        n: nat)
    requires Linked(ram, base, live, lines, head) && j <= |live| && n >= j
    ensures var w := PrevWalk(ram, base, AddressAt(base, live, j - 1), n);
            |w| == j && forall i :: 0 <= i < j ==> w[i] == AddressAt(base, live, j - 1 - i)
    decreases j
  {
    if j > 0 {
      OwnWords(ram, base, live, lines, j - 1);
      assert LinkedHere(ram, base, live, j - 1);
      PrevWalkFrom(ram, base, live, lines, head, j - 1, n - 1);
    }
  }

  /** However far it is followed, the walk from the head meets every live block once, newest first, and stops. */
  lemma {:induction false} WalkMeetsAll(l: InUse, n: nat)
    requires ListOk(l) && n >= |l.live|
    ensures PrevWalk(l.ram, l.base, l.head, n)
            == seq(|l.live|, i requires 0 <= i < |l.live| => Address(l.base, Reversed(l.live)[i]))
  {
    PrevWalkFrom(l.ram, l.base, l.live, l.lines, l.head, |l.live|, n);
  }

  /** `next_blk` undoes `prev_blk` and the other way round, and both end in null at the ends of the list. */
  lemma {:induction false} LinksInverse(l: InUse, k: nat)
    requires ListOk(l) && k < |l.live|
    ensures OwnedHeader(l, k)
    ensures var w := HeaderAt(l.live[k]);
            && (l.ram[w + PREV_BLK] == 0 <==> k == 0)
            && (l.ram[w + NEXT_BLK] == 0 <==> k == |l.live| - 1)
            && (k > 0 ==> OwnedHeader(l, k - 1) && l.ram[w + PREV_BLK] == Address(l.base, l.live[k - 1])
                          && l.ram[HeaderAt(l.live[k - 1]) + NEXT_BLK] == Address(l.base, l.live[k]))
  {
    OwnWords(l.ram, l.base, l.live, l.lines, k);
    assert LinkedHere(l.ram, l.base, l.live, k);
    if k > 0 {
      OwnWords(l.ram, l.base, l.live, l.lines, k - 1);
      assert LinkedHere(l.ram, l.base, l.live, k - 1);
    }
  }

  predicate OwnedHeader(l: InUse, k: nat) {
    k < |l.live| && HeaderAt(l.live[k]) + SIG < |l.ram|
  }

  /** A store inside one live block, its size and link words excepted, leaves the list as it was. */
  lemma {:induction false} StoreKeeps(l: InUse, k: nat, i: nat, v: Word)
    requires ListOk(l) && k < |l.live| && HeaderAt(l.live[k]) <= i < EndAt(l.live[k])
    requires i != HeaderAt(l.live[k]) + ALLOC_SIZE && i != HeaderAt(l.live[k]) + PREV_BLK
             && i != HeaderAt(l.live[k]) + NEXT_BLK
    ensures i < |l.ram| && ListOk(l.(ram := l.ram[i := v])) && OthersSame(l, l.ram[i := v], k)
    ensures Payload(l.live[k], i) && Signed(l.ram, l.live[k]) ==> Signed(l.ram[i := v], l.live[k])
  {
    OwnWords(l.ram, l.base, l.live, l.lines, k);
    var r := l.ram[i := v];
    forall m | 0 <= m < |l.live|
      ensures LinkedHere(r, l.base, l.live, m)
      ensures m != k ==> SameButLinks(l.ram, r, l.live[m])
    {
      assert LinkedHere(l.ram, l.base, l.live, m);
      OwnWords(l.ram, l.base, l.live, l.lines, m);
      if m != k {
        WordsApart(l.live, l.lines, m, k);
      }
    }
  }
}
