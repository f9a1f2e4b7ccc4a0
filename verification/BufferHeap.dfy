/** The DMA buffer manager: a bitmap of status words, an in-place in-use list, and the heap memory itself. */
module BufferHeap {
  import opened Words
  import opened Bits
  import opened HeapSpec
  import opened LinkSpec

  // ---- status words as one bitmap ----------------------------------------------------------

  function WordBits(w: Word): (r: seq<bool>)
    ensures |r| == 32
  {
    seq(32, k requires 0 <= k < 32 => Bit(w, k))
  }

  function BitsOf(words: seq<Word>): (r: seq<bool>)
    ensures |r| == 32 * |words|
  {
    if words == [] then [] else BitsOf(words[..|words| - 1]) + WordBits(words[|words| - 1])
  }

  lemma {:induction false} WordBitAt(words: seq<Word>, w: nat, k: nat)
    requires w < |words| && k < 32
    ensures BitsOf(words)[32 * w + k] <==> Bit(words[w], k)
  {
    if w < |words| - 1 {
      WordBitAt(words[..|words| - 1], w, k);
    }
  }

  /** Line i of the bitmap is digit i mod 32 of word i div 32. */
  lemma {:induction false} BitsOfAt(words: seq<Word>, i: nat)
    requires i < 32 * |words|
    ensures BitsOf(words)[i] <==> Bit(words[i / 32], i % 32)
  {
    WordBitAt(words, i / 32, i % 32);
  }

  /** The mask over digits startbit .. endbit-1, computed the way the source does. */
  function Mask(startbit: nat, endbit: nat): (m: int)
    requires startbit <= endbit <= 32
    ensures m == Pow2(endbit) - Pow2(startbit) && 0 <= m < UINT32
  {
    MaskRange(endbit);
    MaskBit(startbit, endbit, 0);
    (if endbit == 32 then 0xFFFF_FFFF else Pow2(endbit) - 1) - (Pow2(startbit) - 1)
  }

  function Masked(w: Word, mask: Word, value: bool): (r: Word) {
    WordIsPow2();
    UpdateRange(w, mask, 32);
    if value then Or(w, mask) else AndNot(w, mask)
  }

  lemma {:induction false} MaskRange(e: nat)
    requires e <= 32
    ensures Pow2(e) <= Pow2(32) == UINT32
  {
    WordIsPow2();
    MaskBit(e, 32, 0);
  }

  /** Rewriting one word through a mask fills one stretch of the bitmap. */
  lemma {:induction false} MaskedFills(words: seq<Word>, w: nat, s: nat, e: nat, value: bool)
    requires w < |words| && s <= e <= 32
    ensures BitsOf(words[w := Masked(words[w], Mask(s, e), value)]) == Fill(BitsOf(words), 32 * w + s, e - s, value)
  {
    var r := words[w := Masked(words[w], Mask(s, e), value)];
    forall i | 0 <= i < 32 * |words|
      ensures BitsOf(r)[i] == Fill(BitsOf(words), 32 * w + s, e - s, value)[i]
    {
      BitsOfAt(words, i);
      BitsOfAt(r, i);
      if i / 32 == w {
        MaskBit(s, e, i % 32);
        OrBit(words[w], Mask(s, e), i % 32);
        AndNotBit(words[w], Mask(s, e), i % 32);
      }
    }
  }

  lemma {:induction false} FillTwice(bits: seq<bool>, start: nat, a: nat, b: nat, value: bool)
    ensures Fill(Fill(bits, start, a, value), start + a, b, value) == Fill(bits, start, a + b, value)
  {
  }

  method SetStatus(usedStatus: array<Word>, startPos: nat, count: nat, value: bool)
    requires startPos + count <= 32 * usedStatus.Length
    modifies usedStatus
    ensures BitsOf(usedStatus[..]) == Fill(old(BitsOf(usedStatus[..])), startPos, count, value)
  {
    var numBits := count;
    var wordnum: nat := startPos / 32;
    var startbit: nat := startPos % 32;
    var endbit: nat := if startbit + numBits < 32 then startbit + numBits else 32;
    var mask: Word := Mask(startbit, endbit);
    while numBits > 0
      invariant 0 <= numBits <= count && startbit <= endbit <= 32 && mask == Mask(startbit, endbit)
      invariant numBits > 0 ==> startPos + (count - numBits) == 32 * wordnum + startbit
      invariant numBits > 0 ==> startbit < endbit == if startbit + numBits < 32 then startbit + numBits else 32
      invariant BitsOf(usedStatus[..]) == Fill(old(BitsOf(usedStatus[..])), startPos, count - numBits, value)
    {
      MaskedFills(usedStatus[..], wordnum, startbit, endbit, value);
      FillTwice(old(BitsOf(usedStatus[..])), startPos, count - numBits, endbit - startbit, value);
      ghost var before := usedStatus[..];
      usedStatus[wordnum] := Masked(usedStatus[wordnum], mask, value);
      assert usedStatus[..] == before[wordnum := Masked(before[wordnum], mask, value)];
      wordnum := wordnum + 1;
      numBits := numBits - (endbit - startbit);
      startbit := 0;
      endbit := if numBits >= 32 then 32 else numBits;
      mask := Mask(startbit, endbit);
    }
  }

  /** A fresh status array, every word zeroed. */
  method NewStatusWords(size: nat) returns (words: array<Word>)
    ensures fresh(words) && words.Length == size && BitsOf(words[..]) == Clear(32 * size)
  {
    words := new Word[size];
    var i := 0;
    while i < size
      invariant 0 <= i <= size
      invariant forall j :: 0 <= j < i ==> words[j] == 0
    {
      words[i] := 0;
      i := i + 1;
    }
    forall b | 0 <= b < 32 * size
      ensures !BitsOf(words[..])[b]
    {
      BitsOfAt(words[..], b);
      ZeroBit(b % 32);
    }
  }

  // ---- the search --------------------------------------------------------------------------

  /** The scan stands before line pos: no run of n so far, and the `count` lines just seen are clear. */
  ghost predicate Scanned(bits: seq<bool>, lo: nat, pos: nat, n: nat, count: nat) {
    && lo <= pos - count && pos <= |bits| && count < n
    && (forall i :: pos - count <= i < pos ==> !bits[i])
    && (pos - count == lo || bits[pos - count - 1])
    && NoRun(bits, lo, pos, n)
  }

  lemma {:induction false} ScanOn(bits: seq<bool>, lo: nat, pos: nat, n: nat, count: nat)
    requires Scanned(bits, lo, pos, n, count) && pos < |bits|
    ensures bits[pos] ==> Scanned(bits, lo, pos + 1, n, 0)
    ensures !bits[pos] && count + 1 < n ==> Scanned(bits, lo, pos + 1, n, count + 1)
    ensures !bits[pos] && count + 1 == n ==>
              FreeRun(bits, pos - count, n) && NoRun(bits, lo, pos, n) && lo <= pos - count
  {
  }

  /** `(usedStatus[wordnum] & (1 << bitnum)) == 0`: the line's status bit is clear. */
  method IsClear(usedStatus: array<Word>, wordnum: nat, bitnum: nat) returns (clear: bool)
    requires wordnum < usedStatus.Length && bitnum < 32
    ensures clear <==> !BitsOf(usedStatus[..])[32 * wordnum + bitnum]
  {
    TestBit(usedStatus[wordnum], bitnum);
    WordBitAt(usedStatus[..], wordnum, bitnum);
    clear := And(usedStatus[wordnum], Pow2(bitnum)) == 0;
  }

  /** Where the scan stands: `tmp` words are finished since it began at word `from`, wrapped or not. */
  ghost predicate At(size: nat, from: nat, wordnum: nat, bitnum: nat, tmp: nat, wrapped: bool) {
    && bitnum < 32 && wordnum < size && tmp <= size
    && wordnum == (if wrapped then from + tmp - size else from + tmp)
    && (tmp == size ==> wrapped && bitnum == 0)
  }

  ghost predicate Scanning(bits: seq<bool>, from: nat, pos: nat, n: nat, count: nat, wrapped: bool) {
    && Scanned(bits, if wrapped then 0 else 32 * from, pos, n, count)
    && (wrapped ==> NoRun(bits, 32 * from, |bits|, n))
  }

  lemma {:induction false} WrapScan(bits: seq<bool>, from: nat, n: nat, count: nat)
    requires Scanning(bits, from, |bits|, n, count, false)
    ensures Scanning(bits, from, 0, n, 0, true)
  {
  }

  /** Moves to the next bit; past the last word it wraps to the top of the array and drops the run. */
  method Advance(ghost bits: seq<bool>, size: nat, ghost from: nat, ghost n: nat, w: nat, b: nat, t: nat, c: nat,
                 ghost wr: bool)
    returns (wordnum: nat, bitnum: nat, tmp: nat, count: nat, ghost wrapped: bool)
    requires At(size, from, w, b, t, wr) && t < size && from < size && |bits| == 32 * size
    requires Scanning(bits, from, 32 * w + b + 1, n, c, wr)
    ensures At(size, from, wordnum, bitnum, tmp, wrapped)
    ensures Scanning(bits, from, 32 * wordnum + bitnum, n, count, wrapped)
    ensures count == 0 || (count == c && wrapped == wr && 32 * wordnum + bitnum == 32 * w + b + 1)
    ensures tmp > t || (tmp == t && bitnum > b)
  {
    wordnum, bitnum, tmp, count, wrapped := w, b + 1, t, c, wr;
    if bitnum == 32 {
      bitnum := 0;
      wordnum := wordnum + 1;
      tmp := tmp + 1;
      if wordnum == size {
        WrapScan(bits, from, n, c);
        wordnum := 0;
        count := 0;
        wrapped := true;
      }
    }
  }

  /** One line of the scan: a clear line lengthens the run or begins one, a set line ends it. */
  method CountLine(usedStatus: array<Word>, wordnum: nat, bitnum: nat, start0: nat, count0: nat, ghost lo: nat,
                   ghost n: nat)
    returns (start: nat, count: nat)
    requires wordnum < usedStatus.Length && bitnum < 32
    requires Scanned(BitsOf(usedStatus[..]), lo, 32 * wordnum + bitnum, n, count0)
    requires count0 > 0 ==> start0 == 32 * wordnum + bitnum - count0 + 1
    ensures count <= n && (count > 0 ==> start == 32 * wordnum + bitnum + 1 - count + 1)
    ensures count < n ==> Scanned(BitsOf(usedStatus[..]), lo, 32 * wordnum + bitnum + 1, n, count)
    ensures count == n ==> FreeRun(BitsOf(usedStatus[..]), start - 1, n) && lo <= start - 1
                           && NoRun(BitsOf(usedStatus[..]), lo, 32 * wordnum + bitnum, n)
  {
    start, count := start0, count0;
    ScanOn(BitsOf(usedStatus[..]), lo, 32 * wordnum + bitnum, n, count0);
    var clear := IsClear(usedStatus, wordnum, bitnum);
    if clear {
      if count == 0 {
        start := 32 * wordnum + bitnum + 1;
      }
      count := count + 1;
    } else {
      count := 0;
    }
  }

  /** The nested word/bit scan: first fit from word `from`, wrapping once, dropping the run at the wrap. */
  method FindRun(usedStatus: array<Word>, from: nat, n: nat) returns (start: nat, lastWord: nat, found: bool)
    requires from < usedStatus.Length && n >= 2
    ensures found ==> start > 0 && lastWord == (start + n - 2) / 32
    ensures IsSearchResult(BitsOf(usedStatus[..]), 32 * from, n, if found then Some(start - 1) else None)
  {
    ghost var bits := BitsOf(usedStatus[..]);
    ghost var wrapped := false;
    var wordnum: nat, bitnum: nat, count: nat, tmp: nat := from, 0, 0, 0;
    start, lastWord, found := 0, 0, false;
    while tmp < usedStatus.Length
      invariant !found && At(usedStatus.Length, from, wordnum, bitnum, tmp, wrapped)
      invariant Scanning(bits, from, 32 * wordnum + bitnum, n, count, wrapped)
      invariant count > 0 ==> start == 32 * wordnum + bitnum - count + 1
      decreases usedStatus.Length - tmp, 32 - bitnum
    {
      start, count := CountLine(usedStatus, wordnum, bitnum, start, count, if wrapped then 0 else 32 * from, n);
      if count == n {
        lastWord := wordnum;
        found := true;
        FoundIsFirst(bits, 32 * from, wrapped, n, start - 1);
        WordOf(start + n - 2, wordnum, bitnum);
        return;
      }
      wordnum, bitnum, tmp, count, wrapped :=
        Advance(bits, usedStatus.Length, from, n, wordnum, bitnum, tmp, count, wrapped);
    }
  }

  lemma {:induction false} FoundIsFirst(bits: seq<bool>, from: nat, wrapped: bool, n: nat, p: nat)
    requires from <= |bits| && FreeRun(bits, p, n) && n > 0
    requires wrapped ==> NoRun(bits, from, |bits|, n) && p + n <= from && NoRun(bits, 0, p + n - 1, n)
    requires !wrapped ==> from <= p && NoRun(bits, from, p + n - 1, n)
    ensures IsSearchResult(bits, from, n, Some(p))
  {
  }

  lemma {:induction false} OwnHeader(b: Block, lines: nat)
    requires Fits(b, lines) && Checked(b)
    ensures HeaderAt(b) + 8 <= FooterAt(b) < EndAt(b) <= 8 * lines
  {
  }

  lemma {:induction false} HeadPointer(ram: seq<Word>, base: nat, live: seq<Block>, lines: nat, head: nat, b: Block)
    requires Linked(ram, base, live, lines, head) && Layout(live + [b], lines)
    ensures head != 0 ==> base <= head && 0 <= NextOfHead(base, head) < |ram|
    ensures head != 0 ==> NextOfHead(base, head) < HeaderAt(b) || EndAt(b) <= NextOfHead(base, head)
  {
    if live != [] {
      OwnWords(ram, base, live, lines, |live| - 1);
      WordsApart(live + [b], lines, |live| - 1, |live|);
    }
  }

  lemma {:induction false} NeighboursApart(ram: seq<Word>, base: nat, live: seq<Block>, lines: nat, head: nat, k: nat)
    requires Linked(ram, base, live, lines, head) && k < |live| && HeaderAt(live[k]) + SIG < |ram|
    ensures PrevOfNext(ram, base, live[k]) != NextOfPrev(ram, base, live[k]) || PrevOfNext(ram, base, live[k]) == -1
    ensures base + 4 * HeaderAt(live[k]) == Address(base, live[k])
  {
    Neighbours(ram, base, live, lines, head, k);
    if 0 < k && k + 1 < |live| {
      WordsApart(live, lines, k - 1, k + 1);
    }
  }

  /** A line's word number. */
  lemma {:induction false} WordOf(line: int, w: nat, b: nat)
    requires line == 32 * w + b && b < 32
    ensures line / 32 == w
  {
  }

  lemma {:induction false} EmptyHeapOk(lines: nat)
    requires lines > 0
    ensures HeapOk(Initial(lines))
  {
  }

  lemma {:induction false} EmptyList(ram: seq<Word>, base: nat, lines: nat)
    requires base > 0 && base + 32 * lines <= UINT32 && |ram| == 8 * lines
    ensures ListOk(InUse(ram, base, lines, [], 0))
  {
  }

  lemma {:induction false} AllocNone(h: Heap, size: nat, checks: bool)
    requires HeapOk(h)
    requires IsSearchResult(h.bits, 32 * h.searchPos, BlockLines(BlockBytes(size, checks)) + 1, None)
    ensures AllocBlock(h, size, checks) == None && AllocStep(h, size, checks) == h
  {
  }

  lemma {:induction false} AllocAt(h: Heap, size: nat, checks: bool, start: nat)
    requires HeapOk(h) && start > 0
    requires IsSearchResult(h.bits, 32 * h.searchPos, BlockLines(BlockBytes(size, checks)) + 1, Some(start - 1))
    ensures var b := Block(start, BlockLines(BlockBytes(size, checks)), BlockBytes(size, checks));
            && AllocBlock(h, size, checks) == Some(b) && AllocStep(h, size, checks) == Taken(h, b)
            && HeapOk(Taken(h, b)) && Fits(b, |h.bits|) && (checks ==> Checked(b))
  {
    AllocKeeps(h, size, checks);
    var n := BlockLines(BlockBytes(size, checks));
    SearchResultUnique(h.bits, 32 * h.searchPos, n + 1, Search(h.bits, 32 * h.searchPos, n + 1), Some(start - 1));
    var b := Block(start, n, BlockBytes(size, checks));
    assert Taken(h, b).live[|h.live|] == b;
  }

  /** Counts the consecutive set bits from line `start` on, crossing from word to word. */
  method CountOnes(usedStatus: array<Word>, start: nat) returns (count: nat)
    requires start < 32 * usedStatus.Length
    ensures count == OnesFrom(BitsOf(usedStatus[..]), start)
  {
    ghost var bits := BitsOf(usedStatus[..]);
    var wordnum: nat, bitnum: nat := start / 32, start % 32;
    count := 0;
    while wordnum < usedStatus.Length
      invariant bitnum < 32 && wordnum <= usedStatus.Length && (wordnum == usedStatus.Length ==> bitnum == 0)
      invariant 32 * wordnum + bitnum == start + count
      invariant forall i :: start <= i < start + count ==> bits[i]
      decreases 32 * usedStatus.Length - start - count
    {
      var clear := IsClear(usedStatus, wordnum, bitnum);
      if clear {
        break;
      }
      count := count + 1;
      bitnum := bitnum + 1;
      if bitnum == 32 {
        bitnum := 0;
        wordnum := wordnum + 1;
      }
    }
    OnesFromIs(bits, start, count);
  }

  lemma {:induction false} LineOf(offset: nat, line: int)
    requires 32 * line <= offset < 32 * line + 32
    ensures offset / 32 == line
  {
  }

  lemma {:induction false} LiveLine(h: Heap, k: nat)
    requires HeapOk(h) && k < |h.live|
    ensures 0 < h.live[k].start < |h.bits| && Fits(h.live[k], |h.bits|) && Layout(h.live, |h.bits|)
  {
  }

  lemma {:induction false} HeadIsNewest(l: InUse)
    requires ListOk(l)
    ensures l.head == AddressAt(l.base, l.live, |l.live| - 1)
  {
  }

  /** Every listed block has an address, so a null pointer means that none is left. */
  lemma {:induction false} NoNullAddress(l: InUse, n: nat)
    requires ListOk(l) && n <= |l.live| && AddressAt(l.base, l.live, n - 1) == 0
    ensures n == 0
  {
  }

  /** All blocks from position n on carry both signatures. */
  ghost predicate SignedFrom(l: InUse, n: int) {
    match l
    case InUse(ram, _, _, live, _) => forall k :: 0 <= k < |live| && n <= k ==> Signed(ram, live[k])
  }

  lemma {:induction false} OneMoreSigned(l: InUse, n: nat)
    requires n < |l.live| && SignedFrom(l, n + 1) && Signed(l.ram, l.live[n])
    ensures SignedFrom(l, n)
  {
  }

  lemma {:induction false} NoneSigned(l: InUse)
    ensures SignedFrom(l, |l.live|)
  {
  }

  lemma {:induction false} SignedAbove(l: InUse, n: nat)
    requires SignedFrom(l, n)
    ensures forall k :: n <= k < |l.live| ==> Signed(l.ram, l.live[k])
  {
  }

  /** Clearing at a line that is not marked changes no bit. */
  lemma {:induction false} ClearNothing(h: Heap, line: nat)
    requires HeapOk(h) && line < |h.bits| && !h.bits[line]
    ensures Cleared(h, line) == Heap(h.bits, 0, h.live) && HeapOk(Cleared(h, line))
  {
  }

  // ---- the manager -------------------------------------------------------------------------

  class BufferManager {
    const heapBase: nat
    const baseLine: nat
    const words: nat                // status words, each for 32 lines of 32 bytes
    var ram: seq<Word>              // the heap memory itself, word by word
    var usedStatus: array?<Word>
    var startAddr: nat
    var regionSize: nat
    var statusSize: nat
    var searchPos: nat
    var enableChecks: bool
    var callbackSet: bool
    var allocCnt: Word
    var freeCnt: Word
    var inUseList: Word
    var badBlocks: seq<nat>         // arguments of the bad-memory callback, in call order
    ghost var live: seq<Block>      // live blocks, oldest first

    ghost predicate Map()
      reads this
    {
      && heapBase == 32 * baseLine > 0 && words > 0
      && heapBase + 1024 * words <= UINT32 && |ram| == 256 * words
    }

    ghost predicate Valid()
      reads this, if usedStatus != null then {usedStatus} else {}
    {
      && Map()
      && (!enableChecks ==> inUseList == 0)
      && (usedStatus == null ==> startAddr == regionSize == statusSize == 0 && live == [] && inUseList == 0)
      && (usedStatus != null ==>
            && BitmapOk() && statusSize == words
            && (enableChecks ==> ListOk(List())))
    }

    /** The bitmap, the search position and the live blocks. */
    ghost function Abs(): Heap
      reads this, if usedStatus != null then {usedStatus} else {}
    {
      Heap(if usedStatus == null then [] else BitsOf(usedStatus[..]), searchPos, live)
    }

    /** The in-use list, of use when checks are on. */
    ghost function List(): InUse
      reads this
    {
      InUse(ram, heapBase, 32 * words, live, inUseList)
    }

    /** The pointer a client holds for block b: past the header when there is one. */
    function ClientPtr(b: Block): nat
      reads this
    {
      Address(heapBase, b) + if enableChecks then HEADER_BYTES else 0
    }

    constructor (base: nat, size: nat, memory: seq<Word>)
      requires base > 0 && base % 32 == 0 && size > 0 && size % 1024 == 0 && base + size <= UINT32
      requires 4 * |memory| == size
      ensures Valid() && usedStatus == null && heapBase == base && 1024 * words == size && ram == memory
              && !enableChecks
    {
      heapBase, baseLine, words, ram := base, base / 32, size / 1024, memory;
      usedStatus := null;
      startAddr, regionSize, statusSize, searchPos := 0, 0, 0, 0;
      enableChecks, callbackSet := false, false;
      allocCnt, freeCnt, inUseList := 0, 0, 0;
      badBlocks, live := [], [];
    }

    method EnableChecks(enable: bool, callback: bool) returns (ok: bool)
      requires Valid()
      modifies this`enableChecks, this`callbackSet
      ensures Valid() && ok == (usedStatus == null)
      ensures enableChecks == if ok then enable else old(enableChecks)
      ensures callbackSet == if ok then callback else old(callbackSet)
    {
      ok := usedStatus == null;
      if ok {
        enableChecks, callbackSet := enable, callback;
      }
    }

    /** Mutex creation and the status array's allocation may each fail, and then nothing changes. */
    method Init(mutexOk: bool, memoryOk: bool)
      requires Valid()
      modifies this`usedStatus, this`startAddr, this`regionSize, this`statusSize, this`searchPos
      ensures Valid()
      ensures if old(usedStatus) != null || !mutexOk || !memoryOk
              then usedStatus == old(usedStatus) && searchPos == old(searchPos)
              else usedStatus != null && fresh(usedStatus) && Abs() == Initial(32 * words)
    {
      if (startAddr != 0 && regionSize != 0) || !mutexOk || !memoryOk {
        return;
      }
      var size := (1024 * words / LINE_BYTES + 31) / 32;
      usedStatus := NewStatusWords(size);
      startAddr, regionSize, statusSize, searchPos := heapBase, 1024 * words, size, 0;
      EmptyHeapOk(32 * words);
      EmptyList(ram, heapBase, 32 * words);
      assert Abs() == Initial(32 * words);
    }

    method DeInit(lockOk: bool)
      requires Valid()
      modifies this
      ensures Valid()
      ensures lockOk ==> usedStatus == null && allocCnt == 0 && freeCnt == 0
      ensures enableChecks == old(enableChecks) && callbackSet == old(callbackSet)
      ensures ram == old(ram) && badBlocks == old(badBlocks)
      ensures !lockOk ==> unchanged(this)
    {
      if !lockOk {
        return;
      }
      usedStatus := null;
      startAddr, regionSize, statusSize := 0, 0, 0;
      allocCnt, freeCnt, inUseList := 0, 0, 0;
      live := [];
    }

    /** Fills the five header fields of the block whose memory starts at word `at`. */
    method WriteFields(at: nat, bytes: Word, ghost b: Block)
      requires at == HeaderAt(b) && b.bytes == bytes && at + 8 <= |ram|
      modifies this`allocCnt, this`ram
      ensures |ram| == |old(ram)| && LinkedAt(ram, b, inUseList, 0) && ram[at + SIG] == START_SIG
      ensures forall i :: 0 <= i < |ram| && !(at <= i < at + 5) ==> ram[i] == old(ram)[i]
      ensures ram[at] == old(allocCnt) && allocCnt == Next(old(allocCnt))
    {
      ram := ram[at + ALLOC_ID := allocCnt];
      allocCnt := Next(allocCnt);
      ram := ram[at + ALLOC_SIZE := bytes];
      ram := ram[at + PREV_BLK := inUseList];
      ram := ram[at + NEXT_BLK := 0];
      ram := ram[at + SIG := START_SIG];
    }

    /** Header, footer and links of a block put at the head of the list. */
    method PushHeader(start: nat, bytes: Word, ghost b: Block)
      requires b.start == start && b.bytes == bytes && heapBase + 32 * start < UINT32
      requires HeaderAt(b) + 8 <= FooterAt(b) < EndAt(b) <= |ram|
      requires inUseList != 0 ==> heapBase <= inUseList && 0 <= NextOfHead(heapBase, inUseList) < |ram|
      requires inUseList != 0 ==>
                 NextOfHead(heapBase, inUseList) < HeaderAt(b) || EndAt(b) <= NextOfHead(heapBase, inUseList)
      modifies this`allocCnt, this`inUseList, this`ram
      ensures Pushed(old(ram), ram, heapBase, old(inUseList), b) && inUseList == heapBase + 32 * start
      ensures ram[8 * start] == old(allocCnt) && allocCnt == Next(old(allocCnt))
    {
      var at: Word := heapBase + 32 * start;
      WriteFields(8 * start, bytes, b);
      if inUseList != 0 {
        ram := ram[(inUseList - heapBase) / 4 + NEXT_BLK := at];
      }
      inUseList := at;
      ram := ram[8 * start + bytes / 4 - 1 := END_SIG];
    }

    /** The header and footer of a newly marked block, and its place at the head of the in-use list. */
    method WriteHeader(start: nat, bytes: nat, ghost b: Block, ghost older: seq<Block>, ghost h: Heap)
      requires Map() && b.start == start && b.bytes == bytes && Checked(b) && bytes < UINT32
      requires ListOk(InUse(ram, heapBase, 32 * words, older, inUseList))
      requires HeapOk(h) && h.live == older + [b] && |h.bits| == 32 * words
      modifies this`allocCnt, this`inUseList, this`ram
      ensures ListOk(InUse(ram, heapBase, 32 * words, older + [b], inUseList))
      ensures Signed(ram, b) && OthersSame(old(InUse(ram, heapBase, 32 * words, older, inUseList)), ram, -1)
      ensures ram[8 * start] == old(allocCnt) && allocCnt == Next(old(allocCnt))
    {
      LiveLine(h, |older|);
      OwnHeader(b, 32 * words);
      HeadPointer(ram, heapBase, older, 32 * words, inUseList, b);
      PushHeader(start, bytes, b);
      PushKeeps(old(ram), ram, heapBase, older, 32 * words, old(inUseList), b);
    }

    /** The bitmap's own invariant, whatever the list looks like. */
    ghost predicate BitmapOk()
      reads this, if usedStatus != null then {usedStatus} else {}
    {
      && Map() && HeapOk(Abs())
      && usedStatus != null && usedStatus.Length == words && startAddr == heapBase && regionSize == 1024 * words
    }

    /** Marks all lines of the block but the last, and moves the search position to its last line's word. */
    method MarkBlock(start: nat, lines: nat, lastWord: nat, ghost b: Block)
      requires usedStatus != null && b.start == start && b.lines == lines >= 1
      requires start + lines - 1 <= 32 * usedStatus.Length && lastWord == (start + lines - 1) / 32
      modifies this`searchPos, this`live, usedStatus
      ensures Abs() == Taken(old(Abs()), b)
    {
      searchPos := lastWord;
      SetStatus(usedStatus, start, lines - 1, true);
      live := live + [b];
    }

    /** Finds a run of free lines and takes the block out of it. */
    method TakeBlock(size: nat, bytes: nat) returns (start: nat, ghost got: Option<Block>)
      requires BitmapOk() && bytes == BlockBytes(size, enableChecks)
      modifies this`searchPos, this`live, usedStatus
      ensures BitmapOk() && got == AllocBlock(old(Abs()), size, enableChecks)
              && Abs() == AllocStep(old(Abs()), size, enableChecks)
      ensures if got == None then start == 0 else start == got.value.start > 0
      ensures got.Some? ==>
                live == old(live) + [got.value] && (enableChecks ==> Checked(got.value)) && got.value.bytes == bytes
    {
      ghost var h := Abs();
      got := None;
      var n := BlockLines(bytes);
      var lastWord, found;
      start, lastWord, found := FindRun(usedStatus, searchPos, n + 1);
      if found {
        AllocAt(h, size, enableChecks, start);
        got := Some(Block(start, n, bytes));
        MarkBlock(start, n, lastWord, got.value);
      } else {
        start := 0;
        AllocNone(h, size, enableChecks);
      }
    }

    /** Once its lines are taken, a block gets its header when checks are on, and the caller its pointer. */
    method Publish(start: nat, bytes: nat, ghost b: Block, ghost older: seq<Block>) returns (ptr: nat)
      requires BitmapOk() && statusSize == words && live == older + [b] && b.start == start > 0 && b.bytes == bytes
      requires if enableChecks
               then Checked(b) && bytes < UINT32 && ListOk(InUse(ram, heapBase, 32 * words, older, inUseList))
               else inUseList == 0
      modifies this`allocCnt, this`inUseList, this`ram
      ensures Valid() && ptr == ClientPtr(b)
      ensures if enableChecks
              then Signed(ram, b) && OthersSame(InUse(old(ram), heapBase, 32 * words, older, old(inUseList)), ram, -1)
              else ram == old(ram)
      ensures Numbered(b, old(allocCnt))
    {
      ptr := startAddr + 32 * start;
      if enableChecks {
        WriteHeader(start, bytes, b, older, Abs());
        ptr := ptr + HEADER_BYTES;
      }
    }

    /**
     * With checks on block b carries the number of allocations before it, which has been counted up; else nothing was.
     */
    predicate Numbered(b: Block, before: Word)
      reads this`ram, this`allocCnt, this`enableChecks
    {
      if enableChecks then 8 * b.start < |ram| && ram[8 * b.start] == before && allocCnt == Next(before)
      else allocCnt == before
    }

    /** Allocation past its guards: the lines first, then the header when checks are on. */
    method AllocLocked(size: nat) returns (ptr: nat, ghost got: Option<Block>)
      requires Valid() && size < 0x1_0000 && usedStatus != null
      modifies this`searchPos, this`allocCnt, this`inUseList, this`live, this`ram, usedStatus
      ensures Valid() && got == AllocBlock(old(Abs()), size, enableChecks)
              && Abs() == AllocStep(old(Abs()), size, enableChecks)
      ensures if got == None then ptr == 0 else ptr == ClientPtr(got.value)
      ensures if got == None || !enableChecks then ram == old(ram)
              else Signed(ram, got.value) && OthersSame(old(List()), ram, -1)
      ensures if got == None then allocCnt == old(allocCnt) else Numbered(got.value, old(allocCnt))
    {
      ptr := 0;
      var bytes := BlockBytes(size, enableChecks);
      var start;
      start, got := TakeBlock(size, bytes);
      if start != 0 {
        ptr := Publish(start, bytes, got.value, old(live));
      }
    }

    method Alloc(size: nat, lockOk: bool) returns (ptr: nat, ghost got: Option<Block>)
      requires Valid() && size < 0x1_0000
      modifies this`searchPos, this`allocCnt, this`inUseList, this`live, this`ram, usedStatus
      ensures Valid()
      ensures !lockOk || usedStatus == null ==> got == None && Abs() == old(Abs())
      ensures lockOk && usedStatus != null ==>
                got == AllocBlock(old(Abs()), size, enableChecks) && Abs() == AllocStep(old(Abs()), size, enableChecks)
      ensures if got == None then ptr == 0
              else ptr == heapBase + 32 * got.value.start + if enableChecks then 32 else 0
      ensures if got == None || !enableChecks then ram == old(ram)
              else Signed(ram, got.value) && OthersSame(old(List()), ram, -1)
      ensures if got == None then allocCnt == old(allocCnt) else Numbered(got.value, old(allocCnt))
    {
      ptr, got := 0, None;
      if !lockOk || startAddr == 0 || regionSize == 0 {
        return;
      }
      ptr, got := AllocLocked(size);
    }

    /** Every live block's pointer is aligned to a cache line, and the bytes asked for lie inside the heap. */
    lemma {:induction false} LivePointer(k: nat)
      requires Valid() && usedStatus != null && k < |live|
      ensures ClientPtr(live[k]) == heapBase + 32 * live[k].start + if enableChecks then 32 else 0
      ensures ClientPtr(live[k]) % 32 == 0 && heapBase < ClientPtr(live[k])
      ensures Address(heapBase, live[k]) + live[k].bytes <= heapBase + 1024 * words
    {
    }

    /** The k-th live block is the one `buffer` points at. */
    ghost predicate IsLive(buffer: nat, k: int)
      reads this
    {
      0 <= k < |live| && buffer == ClientPtr(live[k])
    }

    /** Compares both signatures of the block at word `at`; the callback, if registered, hears of a mismatch. */
    method CheckSignatures(at: nat, ghost b: Block) returns (intact: bool)
      requires at == HeaderAt(b) && HeaderAt(b) + 8 <= FooterAt(b) < |ram| && ram[at + ALLOC_SIZE] == b.bytes
      modifies this`badBlocks
      ensures intact == Signed(ram, b)
      ensures badBlocks == old(badBlocks) + if callbackSet && !intact then [heapBase + 4 * at + HEADER_BYTES] else []
    {
      var size := ram[at + ALLOC_SIZE];
      intact := !(ram[at + SIG] != START_SIG || ram[at + size / 4 - 1] != END_SIG);
      if !intact && callbackSet {
        badBlocks := badBlocks + [heapBase + 4 * at + HEADER_BYTES];
      }
    }

    /** The links of block b's two neighbours, and the head, patched past it. */
    method PatchLinks(at: nat, ghost b: Block)
      requires Unlinkable(ram, heapBase, b) && at == HeaderAt(b) && heapBase + 4 * at == Address(heapBase, b)
      requires PrevOfNext(ram, heapBase, b) != NextOfPrev(ram, heapBase, b) || PrevOfNext(ram, heapBase, b) == -1
      modifies this`inUseList, this`ram
      ensures Unlinked(old(ram), ram, heapBase, b) && inUseList == HeadWithout(old(ram), heapBase, b, old(inUseList))
    {
      var prev, next := ram[at + PREV_BLK], ram[at + NEXT_BLK];
      if next != 0 {
        ram := ram[(next - heapBase) / 4 + PREV_BLK := prev];
      }
      if prev != 0 {
        ram := ram[(prev - heapBase) / 4 + NEXT_BLK := next];
      }
      if inUseList == heapBase + 4 * at {
        inUseList := prev;
      }
    }

    /** Drops the block whose header starts at word `at` from the in-use list. */
    method UnlinkHeader(at: nat, ghost k: nat)
      requires Map() && ListOk(List()) && k < |live| && at == HeaderAt(live[k])
      modifies this`inUseList, this`ram
      ensures ListOk(InUse(ram, heapBase, 32 * words, Without(live, k), inUseList))
      ensures OthersSame(old(List()), ram, k)
    {
      LiveUnlinkable(ram, heapBase, live, 32 * words, inUseList, k);
      NeighboursApart(ram, heapBase, live, 32 * words, inUseList, k);
      PatchLinks(at, live[k]);
      UnlinkKeeps(old(ram), ram, heapBase, live, 32 * words, old(inUseList), k);
    }

    /** Clears the ones from line `start` on, and lets the next search begin at the bottom. */
    method ReleaseRun(start: nat)
      requires usedStatus != null && start < 32 * usedStatus.Length
      modifies this`searchPos, usedStatus
      ensures Abs() == Cleared(old(Abs()), start)
    {
      var count := CountOnes(usedStatus, start);
      SetStatus(usedStatus, start, count, false);
      searchPos := 0;
    }

    /** Clears the marked lines from `address` on, when it lies inside the heap. */
    method ClearLines(address: nat, ghost line: int) returns (ret: int)
      requires usedStatus != null ==> usedStatus.Length == words && startAddr == heapBase && regionSize == 1024 * words
      requires usedStatus == null ==> startAddr == regionSize == 0
      requires heapBase + 32 * line <= address < heapBase + 32 * line + 32
      modifies this`searchPos, usedStatus
      ensures ret == if usedStatus != null && heapBase < address < heapBase + 1024 * words then 0 else -1
      ensures ret == -1 ==> Abs() == old(Abs())
      ensures ret == 0 ==> 0 <= line < 32 * words
      ensures ret == 0 ==> Abs() == Cleared(old(Abs()), line)
    {
      ret := -1;
      if address > startAddr && address < startAddr + regionSize {
        var start := (address - startAddr) / 32;
        LineOf(address - startAddr, line);
        ReleaseRun(start);
        ret := 0;
      }
    }

    /** The live block k whose lines were cleared leaves the set of live blocks. */
    ghost method Forget(h: Heap, k: nat)
      requires usedStatus != null && HeapOk(h) && k < |h.live| && live == h.live
      requires Abs() == Cleared(h, h.live[k].start)
      modifies this`live
      ensures Abs() == FreeStep(h, k) && HeapOk(Abs())
    {
      FreeKeeps(h, k);
      live := Without(live, k);
    }

    /** Clears the lines of live block k. */
    method ClearLive(address: nat, ghost k: nat) returns (ret: int)
      requires BitmapOk() && k < |live| && address == Address(heapBase, live[k])
      modifies this`searchPos, this`live, usedStatus
      ensures BitmapOk() && ret == 0 && Abs() == FreeStep(old(Abs()), k) && live == Without(old(live), k)
    {
      ghost var h := Abs();
      LiveLine(h, k);
      ret := ClearLines(address, live[k].start);
      Forget(h, k);
    }

    /** The two signatures are looked at, and only the callback hears of the outcome. */
    method CheckHeader(at: nat, ghost k: nat)
      requires Map() && ListOk(List()) && k < |live| && at == HeaderAt(live[k])
      modifies this`badBlocks
      ensures Reported(List(), k, callbackSet, old(badBlocks), badBlocks)
    {
      OwnWords(ram, heapBase, live, 32 * words, k);
      assert LinkedHere(ram, heapBase, live, k);
      var intact := CheckSignatures(at, live[k]);
      ReportedBlock(List(), k, callbackSet, old(badBlocks), badBlocks, intact);
    }

    /** What Free does with the header of live block k when checks are on; returns the header's address. */
    method ReleaseHeader(pointer: nat, ghost k: nat) returns (buffer: nat)
      requires Valid() && usedStatus != null && enableChecks && IsLive(pointer, k)
      modifies this`freeCnt, this`inUseList, this`badBlocks, this`ram
      ensures buffer == Address(heapBase, live[k])
      ensures ListOk(InUse(ram, heapBase, 32 * words, Without(live, k), inUseList))
      ensures OthersSame(old(List()), ram, k)
      ensures Reported(old(List()), k, callbackSet, old(badBlocks), badBlocks)
      ensures freeCnt == Next(old(freeCnt))
    {
      buffer := pointer - HEADER_BYTES;
      var at := (buffer - heapBase) / 4;
      CheckHeader(at, k);
      freeCnt := Next(freeCnt);
      UnlinkHeader(at, k);
    }

    /** Free past its guards, with checks on: the header first, then the lines. */
    method FreeChecked(pointer: nat, ghost k: nat) returns (ret: int)
      requires Valid() && enableChecks && usedStatus != null && IsLive(pointer, k)
      modifies this`searchPos, this`freeCnt, this`inUseList, this`badBlocks, this`live, this`ram, usedStatus
      ensures BitmapOk() && ListOk(List()) && ret == 0 && Abs() == FreeStep(old(Abs()), k)
      ensures Reported(old(List()), k, callbackSet, old(badBlocks), badBlocks) && OthersSame(old(List()), ram, k)
      ensures freeCnt == Next(old(freeCnt))
    {
      var buffer := ReleaseHeader(pointer, k);
      ret := ClearLive(buffer, k);
    }

    /** Free past its guards, with checks off: the lines alone, or nothing at a line that is not marked. */
    method FreeUnchecked(pointer: nat, ghost k: int, ghost line: int) returns (ret: int)
      requires Valid() && !enableChecks
      requires if k >= 0 then usedStatus != null && IsLive(pointer, k) && line == live[k].start
               else DeadLine(pointer, line)
      modifies this`searchPos, this`live, usedStatus
      ensures Valid() && ret == if usedStatus != null && heapBase < pointer < heapBase + 1024 * words then 0 else -1
      ensures k >= 0 ==> Abs() == FreeStep(old(Abs()), k)
      ensures k < 0 ==> Abs().bits == old(Abs()).bits && live == old(live)
    {
      ghost var h := Abs();
      if k >= 0 {
        LiveLine(h, k);
      } else if 0 <= line < |h.bits| {
        ClearNothing(h, line);
      }
      ret := ClearLines(pointer, line);
      if k >= 0 {
        Forget(h, k);
      }
    }

    lemma {:induction false} PointerInside(k: nat)
      requires Valid() && usedStatus != null && k < |live|
      ensures heapBase < ClientPtr(live[k]) < heapBase + 1024 * words
    {
      assert Fits(live[k], 32 * words);
    }

    /** Free with the lock held, for an address not below the heap. */
    method FreeLocked(pointer: nat, ghost k: int, ghost line: int) returns (ret: int)
      requires Valid() && pointer >= heapBase
      requires if k >= 0 then usedStatus != null && IsLive(pointer, k) && line == live[k].start
               else DeadLine(pointer, line)
      modifies this`searchPos, this`freeCnt, this`inUseList, this`badBlocks, this`live, this`ram, usedStatus
      ensures Valid()
      ensures ret == if usedStatus != null && heapBase < pointer < heapBase + 1024 * words then 0 else -1
      ensures k >= 0 ==> Abs() == FreeStep(old(Abs()), k)
      ensures enableChecks ==>
                Reported(old(List()), k, callbackSet, old(badBlocks), badBlocks) && OthersSame(old(List()), ram, k)
      ensures !enableChecks ==> badBlocks == old(badBlocks) && ram == old(ram)
      ensures k < 0 ==> Abs().bits == old(Abs()).bits && live == old(live)
      ensures freeCnt == if enableChecks then Next(old(freeCnt)) else old(freeCnt)
    {
      if enableChecks {
        PointerInside(k);
        ret := FreeChecked(pointer, k);
      } else {
        ret := FreeUnchecked(pointer, k, line);
      }
    }

    /**
     * Free, for live block k or, with k = -1, for a pointer to nothing live. A pointer below the heap and a
     * failed lock leave everything as it was.
     */
    method Free(pointer: nat, lockOk: bool, ghost k: int, ghost line: int) returns (ret: int)
      requires Valid()
      requires pointer >= heapBase && lockOk ==>
                 if k >= 0 then usedStatus != null && IsLive(pointer, k) && line == live[k].start
                 else DeadLine(pointer, line)
      modifies this`searchPos, this`freeCnt, this`inUseList, this`badBlocks, this`live, this`ram, usedStatus
      ensures Valid()
      ensures ret == if lockOk && usedStatus != null && heapBase < pointer < heapBase + 1024 * words then 0 else -1
      ensures pointer < heapBase || !lockOk ==>
                Abs() == old(Abs()) && ram == old(ram) && badBlocks == old(badBlocks) && freeCnt == old(freeCnt)
      ensures pointer >= heapBase && lockOk && k >= 0 ==> Abs() == FreeStep(old(Abs()), k)
      ensures pointer >= heapBase && lockOk && enableChecks ==>
                Reported(old(List()), k, callbackSet, old(badBlocks), badBlocks) && OthersSame(old(List()), ram, k)
      ensures !enableChecks ==> badBlocks == old(badBlocks) && ram == old(ram) && freeCnt == old(freeCnt)
      ensures pointer >= heapBase && lockOk && k < 0 ==> Abs().bits == old(Abs()).bits && live == old(live)
      ensures pointer >= heapBase && lockOk && enableChecks ==> freeCnt == Next(old(freeCnt))
    {
      ret := -1;
      if pointer >= heapBase && lockOk {
        ret := FreeLocked(pointer, k, line);
      }
    }

    /** The pointer falls in `line`, no header is consulted, and that line, if the heap has it, is not marked. */
    ghost predicate DeadLine(pointer: nat, line: int)
      reads this, if usedStatus != null then {usedStatus} else {}
    {
      && !enableChecks && heapBase + 32 * line <= pointer < heapBase + 32 * line + 32
      && (0 <= line < |Abs().bits| ==> !Abs().bits[line])
    }

    /** A client's store into its own block, at any word but the size and the two links. */
    method Store(ghost k: nat, i: nat, v: Word)
      requires Valid() && usedStatus != null && enableChecks && k < |live| && HeaderAt(live[k]) <= i < EndAt(live[k])
      requires i != HeaderAt(live[k]) + ALLOC_SIZE && i != HeaderAt(live[k]) + PREV_BLK
               && i != HeaderAt(live[k]) + NEXT_BLK
      modifies this`ram
      ensures Valid() && Abs() == old(Abs()) && OthersSame(old(List()), ram, k)
      ensures Payload(live[k], i) && Signed(old(ram), live[k]) ==> Signed(ram, live[k])
      ensures |ram| == |old(ram)| && ram[i] == v
    {
      StoreKeeps(List(), k, i, v);
      ram := ram[i := v];
    }

    /** One step of the check: the block at address `block` is the n-th oldest; hands back the next older one. */
    method CheckBlock(block: nat, ghost n: nat) returns (prev: nat, intact: bool)
      requires Map() && ListOk(List()) && n < |live| && block == AddressAt(heapBase, live, n)
               && SignedFrom(List(), n + 1)
      modifies this`badBlocks
      ensures intact ==> SignedFrom(List(), n)
      ensures block != 0 && prev == AddressAt(heapBase, live, n - 1) && intact == Signed(ram, live[n])
      ensures badBlocks == old(badBlocks)
                           + if callbackSet && !intact then [Address(heapBase, live[n]) + HEADER_BYTES] else []
    {
      ListedInBounds(n);
      if block < heapBase || block >= heapBase + 1024 * words {
        assert false;  // the source gives up here; no listed block is out of bounds
      }
      OwnWords(ram, heapBase, live, 32 * words, n);
      assert LinkedHere(ram, heapBase, live, n);
      var at := (block - heapBase) / 4;
      intact := CheckSignatures(at, live[n]);
      prev := ram[at + PREV_BLK];
      if intact {
        OneMoreSigned(List(), n);
      }
    }

    /** The bounds test made before a header is read never refuses a listed block. */
    lemma {:induction false} ListedInBounds(n: nat)
      requires Map() && ListOk(List()) && n < |live|
      ensures heapBase <= Address(heapBase, live[n]) < heapBase + 1024 * words
    {
    }

    /** The signature check of every block on a list that is not empty, newest first, up to the first broken one. */
    method CheckList() returns (ok: bool, ghost n: nat)
      requires Map() && ListOk(List())
      modifies this`badBlocks
      ensures n <= |live| && SignedFrom(List(), n)
      ensures ok ==> n == 0 && badBlocks == old(badBlocks)
      ensures !ok ==> n > 0 && !Signed(ram, live[n - 1])
      ensures !ok ==>
                badBlocks == old(badBlocks)
                             + if callbackSet then [Address(heapBase, live[n - 1]) + HEADER_BYTES] else []
    {
      var block: nat := inUseList;
      n := |live|;
      HeadIsNewest(List());
      NoneSigned(List());
      while block != 0
        invariant n <= |live| && block == AddressAt(heapBase, live, n - 1) && SignedFrom(List(), n)
        invariant badBlocks == old(badBlocks)
        decreases n
      {
        var prev, intact := CheckBlock(block, n - 1);
        if !intact {
          return false, n;
        }
        block := prev;
        n := n - 1;
      }
      NoNullAddress(List(), n);
      ok := true;
    }

    /** Without checks the list is empty and the answer is success; with them every live block is looked at. */
    method CorruptionCheck() returns (ok: bool)
      requires Valid()
      modifies this`badBlocks
      ensures Valid()
      ensures ok <==> (usedStatus != null && enableChecks ==> forall k :: 0 <= k < |live| ==> Signed(ram, live[k]))
      ensures ok || !callbackSet ==> badBlocks == old(badBlocks)
      ensures !ok && callbackSet ==>
                exists k :: IsNewestBroken(k) && badBlocks == old(badBlocks) + [ClientPtr(live[k])]
    {
      if usedStatus == null || !enableChecks {
        return true;  // inUseList is null
      }
      ghost var n;
      ok, n := CheckList();
      if ok {
        SignedAbove(List(), 0);
      } else {
        SignedAbove(List(), n);
        assert IsNewestBroken(n - 1) && ClientPtr(live[n - 1]) == Address(heapBase, live[n - 1]) + HEADER_BYTES;
      }
    }

    /** Block k has a broken signature and no newer block has. */
    ghost predicate IsNewestBroken(k: int)
      reads this
    {
      0 <= k < |live| && !Signed(ram, live[k]) && forall j :: k < j < |live| ==> Signed(ram, live[j])
    }
  }
}
