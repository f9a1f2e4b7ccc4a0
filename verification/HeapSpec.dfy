/** The DMA buffer heap as values: a bitmap of cache lines, a search position and the live blocks. */
module HeapSpec {
  import opened Words

  const LINE_BYTES := 32
  const HEADER_BYTES := 32   // sizeof (MemBlockInfo), padding included
  const FOOTER_BYTES := 4

  /**
   * A block of `lines` cache lines beginning at line `start`; `bytes` is what was asked for, header and footer
   * included.
   */
  datatype Block = Block(start: nat, lines: nat, bytes: nat)

  datatype Heap = Heap(bits: seq<bool>, searchPos: nat, live: seq<Block>)

  // ---- sizes -------------------------------------------------------------------------------

  function RoundUp4(n: nat): nat {
    (n + 3) / 4 * 4
  }

  function BlockBytes(size: nat, checks: bool): nat {
    if checks then RoundUp4(size) + HEADER_BYTES + FOOTER_BYTES else size
  }

  function BlockLines(bytes: nat): (n: nat)
    ensures n >= 2 && 32 * n >= bytes
  {
    if bytes <= LINE_BYTES then 2 else (bytes + LINE_BYTES - 1) / 32
  }

  // ---- the bitmap --------------------------------------------------------------------------

  /** The lines p .. p+n-1 all read as free. */
  ghost predicate FreeRun(bits: seq<bool>, p: int, n: nat) {
    0 <= p && p + n <= |bits| && forall i :: p <= i < p + n ==> !bits[i]
  }

  ghost predicate NoRun(bits: seq<bool>, lo: nat, hi: nat, n: nat) {
    forall p :: lo <= p && p + n <= hi ==> !FreeRun(bits, p, n)
  }

  /** r is the lowest run of n clear bits lying wholly in [lo, hi), if there is one. */
  ghost predicate IsFirstRun(bits: seq<bool>, lo: nat, hi: nat, n: nat, r: Option<nat>) {
    match r
    case None => NoRun(bits, lo, hi, n)
    case Some(p) => lo <= p && p + n <= hi && FreeRun(bits, p, n) && forall q :: lo <= q < p ==> !FreeRun(bits, q, n)
  }

  /** First run at or after `from`; failing that, first run wholly before `from`. */
  ghost predicate IsSearchResult(bits: seq<bool>, from: nat, n: nat, r: Option<nat>) {
    if NoRun(bits, from, |bits|, n) then IsFirstRun(bits, 0, from, n, r) else IsFirstRun(bits, from, |bits|, n, r)
  }

  lemma {:induction false} SearchResultUnique(bits: seq<bool>, from: nat, n: nat, r: Option<nat>, s: Option<nat>)
    requires IsSearchResult(bits, from, n, r) && IsSearchResult(bits, from, n, s)
    ensures r == s
  {
  }

  lemma {:induction false} FirstRunExists(bits: seq<bool>, lo: nat, hi: nat, n: nat) returns (r: Option<nat>)
    requires hi <= |bits|
    ensures IsFirstRun(bits, lo, hi, n, r)
    decreases hi - lo
  {
    if lo + n > hi {
      r := None;
    } else if FreeRun(bits, lo, n) {
      r := Some(lo);
    } else if lo == hi {
      r := None;
    } else {
      r := FirstRunExists(bits, lo + 1, hi, n);
    }
  }

  lemma {:induction false} SearchExists(bits: seq<bool>, from: nat, n: nat)
    requires from <= |bits|
    ensures exists r :: IsSearchResult(bits, from, n, r)
  {
    var r := FirstRunExists(bits, from, |bits|, n);
    if r == None {
      r := FirstRunExists(bits, 0, from, n);
    }
    assert IsSearchResult(bits, from, n, r);
  }

  /** The one result the search order allows. */
  ghost function Search(bits: seq<bool>, from: nat, n: nat): (r: Option<nat>)
    requires from <= |bits|
    ensures IsSearchResult(bits, from, n, r)
  {
    SearchExists(bits, from, n);
    var r :| IsSearchResult(bits, from, n, r);
    r
  }

  /** The number of consecutive set bits at `start`. */
  function OnesFrom(bits: seq<bool>, start: nat): (c: nat)
    ensures start <= |bits| ==> start + c <= |bits|
    ensures start > |bits| ==> c == 0
    ensures forall i :: start <= i < start + c ==> bits[i]
    ensures start + c < |bits| ==> !bits[start + c]
    decreases |bits| - start
  {
    if start < |bits| && bits[start] then 1 + OnesFrom(bits, start + 1) else 0
  }

  lemma {:induction false} OnesFromIs(bits: seq<bool>, start: nat, c: nat)
    requires start + c <= |bits|
    requires forall i :: start <= i < start + c ==> bits[i]
    requires start + c < |bits| ==> !bits[start + c]
    ensures OnesFrom(bits, start) == c
    decreases c
  {
  }

  function Fill(bits: seq<bool>, start: nat, count: nat, value: bool): (r: seq<bool>)
    ensures |r| == |bits|
    ensures forall i :: 0 <= i < |bits| ==> r[i] == if start <= i < start + count then value else bits[i]
  {
    seq(|bits|, i requires 0 <= i < |bits| => if start <= i < start + count then value else bits[i])
  }

  function Clear(n: nat): seq<bool> {
    seq(n, i => false)
  }

  // ---- the two operations ------------------------------------------------------------------

  ghost function AllocBlock(h: Heap, size: nat, checks: bool): (r: Option<Block>)
    requires 32 * h.searchPos <= |h.bits|
    ensures r.Some? ==> r.value.lines >= 2
  {
    var bytes := BlockBytes(size, checks);
    var n := BlockLines(bytes);
    match Search(h.bits, 32 * h.searchPos, n + 1)
    case None => None
    case Some(p) => Some(Block(p + 1, n, bytes))
  }

  /** Block b taken: all of its lines but the last are marked, and the search resumes at its last line's word. */
  function Taken(h: Heap, b: Block): Heap
    requires b.lines >= 1
  {
    Heap(Fill(h.bits, b.start, b.lines - 1, true), (b.start + b.lines - 1) / 32, h.live + [b])
  }

  ghost function AllocStep(h: Heap, size: nat, checks: bool): Heap
    requires 32 * h.searchPos <= |h.bits|
  {
    match AllocBlock(h, size, checks)
    case None => h
    case Some(b) => Taken(h, b)
  }

  /** Free knows a first line only: it counts the ones from there on to find how far the block goes. */
  function Cleared(h: Heap, start: nat): Heap {
    Heap(Fill(h.bits, start, OnesFrom(h.bits, start), false), 0, h.live)
  }

  function FreeStep(h: Heap, k: nat): Heap
    requires k < |h.live|
  {
    Cleared(h, h.live[k].start).(live := Without(h.live, k))
  }

  function Without(s: seq<Block>, k: nat): seq<Block>
    requires k < |s|
  {
    s[..k] + s[k + 1..]
  }

  // ---- what every run keeps ----------------------------------------------------------------

  predicate Fits(b: Block, lines: nat) {
    b.lines >= 2 && 1 <= b.start && b.start + b.lines <= lines && b.bytes <= 32 * b.lines
  }

  predicate Disjoint(a: Block, b: Block) {
    a.start + a.lines <= b.start || b.start + b.lines <= a.start
  }

  /** The set bits that stand for block b: all of its lines but the last. */
  predicate Marks(b: Block, i: int) {
    b.start <= i < b.start + b.lines - 1
  }

  ghost predicate Marked(live: seq<Block>, i: int) {
    exists k :: 0 <= k < |live| && Marks(live[k], i)
  }

  ghost predicate Layout(live: seq<Block>, lines: nat) {
    && (forall k :: 0 <= k < |live| ==> Fits(live[k], lines))
    && (forall j, k :: 0 <= j < k < |live| ==> Disjoint(live[j], live[k]))
  }

  ghost predicate HeapOk(h: Heap) {
    match h
    case Heap(bits, searchPos, live) =>
      && 32 * searchPos < |bits|
      && Layout(live, |bits|)
      && forall i :: 0 <= i < |bits| ==> (bits[i] <==> Marked(live, i))
  }

  /** A live block is fenced: its lines but the last are set, and the bits on both sides of them are clear. */
  lemma {:induction false} LiveBlockFenced(h: Heap, k: nat)
    requires HeapOk(h) && k < |h.live|
    ensures var b := h.live[k];
            && (forall i :: b.start <= i < b.start + b.lines - 1 ==> h.bits[i])
            && !h.bits[b.start - 1]
            && !h.bits[b.start + b.lines - 1]
            && OnesFrom(h.bits, b.start) == b.lines - 1
  {
  }

  lemma {:induction false} Apart(live: seq<Block>, lines: nat, j: nat, k: nat)
    requires Layout(live, lines) && j < |live| && k < |live| && j != k
    ensures Disjoint(live[j], live[k])
  {
  }

  /** Taking a block out of a run of clear lines one longer keeps the heap in order. */
  lemma {:induction false} TakenKeeps(h: Heap, b: Block)
    requires HeapOk(h) && b.lines >= 2 && b.start >= 1 && b.bytes <= 32 * b.lines
    requires FreeRun(h.bits, b.start - 1, b.lines + 1)
    ensures HeapOk(Taken(h, b))
  {
    var h' := Taken(h, b);
    forall k | 0 <= k < |h.live|
      ensures Disjoint(h.live[k], b)
    {
      FreeRunMissesBlock(h, k, b);
    }
    forall i | 0 <= i < |h.bits|
      ensures h'.bits[i] <==> Marked(h'.live, i)
    {
      MarkedAppend(h.live, b, i);
    }
  }

  /** Allocation adds at most one block, disjoint from every live block, and marks exactly it. */
  lemma {:induction false} AllocKeeps(h: Heap, size: nat, checks: bool)
    requires HeapOk(h)
    ensures HeapOk(AllocStep(h, size, checks))
  {
    match AllocBlock(h, size, checks)
    case None =>
    case Some(b) => TakenKeeps(h, b);
  }

  lemma {:induction false} FreeRunMissesBlock(h: Heap, k: nat, b: Block)
    requires HeapOk(h) && k < |h.live|
    requires b.lines >= 2 && b.start >= 1 && FreeRun(h.bits, b.start - 1, b.lines + 1)
    ensures Disjoint(h.live[k], b)
  {
    var a := h.live[k];
    // if they overlapped, line i would be both marked and in the run
    var i := if b.start - 1 <= a.start then a.start else b.start - 1;
    assert Marks(h.live[k], i) ==> Marked(h.live, i);
    assert i < |h.bits| && (i < b.start + b.lines ==> !h.bits[i]);
  }

  lemma {:induction false} MarkedAppend(live: seq<Block>, b: Block, i: int)
    ensures Marked(live + [b], i) <==> Marked(live, i) || Marks(b, i)
  {
    var s := live + [b];
    if Marked(live, i) {
      var k :| 0 <= k < |live| && Marks(live[k], i);
      assert Marks(s[k], i);
    }
    if Marks(b, i) {
      assert Marks(s[|live|], i);
    }
  }

  /** Freeing any live block, in any order, clears exactly that block's bits. */
  lemma {:induction false} FreeKeeps(h: Heap, k: nat)
    requires HeapOk(h) && k < |h.live|
    ensures HeapOk(FreeStep(h, k)) && FreeStep(h, k).searchPos == 0 && FreeStep(h, k).live == Without(h.live, k)
    ensures forall i :: 0 <= i < |h.bits| ==>
              (FreeStep(h, k).bits[i] <==> h.bits[i] && !Marks(h.live[k], i))
  {
    var h' := FreeStep(h, k);
    LiveBlockFenced(h, k);
    forall i | 0 <= i < |h.bits|
      ensures h'.bits[i] <==> Marked(h'.live, i)
    {
      MarkedWithout(h, k, i);
    }
    WithoutLayout(h.live, k, |h.bits|);
  }

  lemma {:induction false} WithoutLayout(live: seq<Block>, k: nat, lines: nat)
    requires k < |live| && Layout(live, lines)
    ensures Layout(Without(live, k), lines)
  {
  }

  lemma {:induction false} MarkedWithout(h: Heap, k: nat, i: nat)
    requires HeapOk(h) && k < |h.live| && i < |h.bits|
    ensures Marked(Without(h.live, k), i) <==> h.bits[i] && !Marks(h.live[k], i)
  {
    var s := Without(h.live, k);
    forall j | 0 <= j < |s|
      ensures Marks(s[j], i) ==> Marked(h.live, i) && !Marks(h.live[k], i)
    {
      WithoutAt(h.live, k, j);
      Apart(h.live, |h.bits|, if j < k then j else j + 1, k);
    }
    forall j | 0 <= j < |h.live| && j != k
      ensures Marks(h.live[j], i) ==> Marked(s, i)
    {
      WithoutAt(h.live, k, if j < k then j else j - 1);
    }
  }

  lemma {:induction false} WithoutAt(live: seq<Block>, k: nat, j: nat)
    requires k < |live| && j < |live| - 1
    ensures |Without(live, k)| == |live| - 1
    ensures Without(live, k)[j] == live[if j < k then j else j + 1]
  {
  }

  /** Allocating and freeing the same block puts the bitmap back bit for bit. */
  lemma {:induction false} AllocFreeRestores(h: Heap, size: nat, checks: bool)
    requires HeapOk(h) && AllocBlock(h, size, checks).Some?
    ensures var h' := AllocStep(h, size, checks);
            FreeStep(h', |h.live|).bits == h.bits && FreeStep(h', |h.live|).live == h.live
  {
    var h' := AllocStep(h, size, checks);
    var b := AllocBlock(h, size, checks).value;
    AllocKeeps(h, size, checks);
    FreeKeeps(h', |h.live|);
    assert FreeRun(h.bits, b.start - 1, b.lines + 1);
    assert h'.live == h.live + [b];
  }

  // ---- runs --------------------------------------------------------------------------------

  /** One client action: ask for `size` bytes, or give back the k-th live block. */
  datatype Action = Ask(size: nat) | GiveBack(k: nat)

  ghost function Act(h: Heap, a: Action, checks: bool): Heap
    requires 32 * h.searchPos <= |h.bits|
  {
    match a
    case Ask(size) => AllocStep(h, size, checks)
    case GiveBack(k) => if k < |h.live| then FreeStep(h, k) else h
  }

  ghost predicate Reaches(h: Heap, acts: seq<Action>, checks: bool, h': Heap)
    decreases |acts|
  {
    if acts == [] then h == h'
    else 32 * h.searchPos <= |h.bits| && Reaches(Act(h, acts[0], checks), acts[1..], checks, h')
  }

  function Initial(lines: nat): Heap {
    Heap(Clear(lines), 0, [])
  }

  lemma {:induction false} RunKeeps(h: Heap, acts: seq<Action>, checks: bool, h': Heap)
    requires HeapOk(h) && Reaches(h, acts, checks, h')
    ensures HeapOk(h') && |h'.bits| == |h.bits|
    decreases |acts|
  {
    if acts != [] {
      match acts[0] {
        case Ask(size) => AllocKeeps(h, size, checks);
        case GiveBack(k) => if k < |h.live| { FreeKeeps(h, k); }
      }
      RunKeeps(Act(h, acts[0], checks), acts[1..], checks, h');
    }
  }

  /**
   * Every reachable heap: live blocks disjoint, inside the heap, fenced; every set bit belongs to exactly one block.
   */
  lemma {:induction false} ReachableHeap(lines: nat, acts: seq<Action>, checks: bool, h: Heap)
    requires lines > 0 && Reaches(Initial(lines), acts, checks, h)
    ensures |h.bits| == lines && Layout(h.live, lines)
    ensures forall k :: 0 <= k < |h.live| ==>
              OnesFrom(h.bits, h.live[k].start) == h.live[k].lines - 1 && !h.bits[h.live[k].start - 1]
    ensures forall i :: 0 <= i < lines && h.bits[i] ==>
              exists k :: 0 <= k < |h.live| && Marks(h.live[k], i)
                          && forall j :: 0 <= j < |h.live| && Marks(h.live[j], i) ==> j == k
    ensures h.live == [] ==> h.bits == Clear(lines)
  {
    RunKeeps(Initial(lines), acts, checks, h);
    forall k | 0 <= k < |h.live|
      ensures OnesFrom(h.bits, h.live[k].start) == h.live[k].lines - 1 && !h.bits[h.live[k].start - 1]
    {
      LiveBlockFenced(h, k);
    }
    forall i | 0 <= i < lines && h.bits[i]
      ensures exists k :: 0 <= k < |h.live| && Marks(h.live[k], i)
                          && forall j :: 0 <= j < |h.live| && Marks(h.live[j], i) ==> j == k
    {
      var k :| 0 <= k < |h.live| && Marks(h.live[k], i);
      forall j | 0 <= j < |h.live| && Marks(h.live[j], i)
        ensures j == k
      {
        OneOwner(h.live, lines, j, k, i);
      }
    }
  }

  lemma {:induction false} OneOwner(live: seq<Block>, lines: nat, j: nat, k: nat, i: nat)
    requires Layout(live, lines) && j < |live| && k < |live|
    ensures Marks(live[j], i) && Marks(live[k], i) ==> j == k
  {
  }

  /** Giving back blocks until none is left, in whatever order, returns the heap to its first state. */
  function GiveBackAll(h: Heap, order: seq<nat>): Heap
    decreases |order|
  {
    if order == [] || order[0] >= |h.live| then h else GiveBackAll(FreeStep(h, order[0]), order[1..])
  }

  lemma {:induction false} FreeAllRestores(h: Heap, order: seq<nat>)
    requires HeapOk(h) && |order| == |h.live|
    requires forall i :: 0 <= i < |order| ==> order[i] < |h.live| - i
    ensures GiveBackAll(h, order) == if h.live == [] then h else Initial(|h.bits|)
    decreases |order|
  {
    if order == [] {
    } else {
      FreeKeeps(h, order[0]);
      var h1 := FreeStep(h, order[0]);
      FreeAllRestores(h1, order[1..]);
      if h1.live == [] {
        assert h1.bits == Clear(|h.bits|);
      }
    }
  }

  // ---- what a request needs ----------------------------------------------------------------

  /**
   * What a request for `size` bytes needs, in numbers: with checks the bytes are rounded up to a multiple of 4 and 36
   * are added; the lines are at least two, and not one more than hold the bytes.
   */
  predicate Needs(size: nat, checks: bool, bytes: nat, lines: nat) {
    && (if checks then bytes % 4 == 0 && size + 36 <= bytes < size + 40 else bytes == size)
    && lines >= 2 && bytes <= 32 * lines && (lines == 2 || 32 * (lines - 1) < bytes)
  }

  lemma {:induction false} BytesNeeded(size: nat)
    ensures RoundUp4(size) % 4 == 0 && size <= RoundUp4(size) < size + 4
  {
  }

  lemma {:induction false} OneMultiple(a: nat, b: nat, n: nat)
    requires a % 4 == 0 && b % 4 == 0 && n <= a < n + 4 && n <= b < n + 4
    ensures a == b
  {
  }

  lemma {:induction false} LinesNeeded(bytes: nat, lines: nat)
    ensures lines >= 2 && bytes <= 32 * lines && (lines == 2 || 32 * (lines - 1) < bytes) <==>
              lines == BlockLines(bytes)
  {
  }

  /** There is one answer, the allocator's. */
  lemma {:induction false} NeedsOne(size: nat, checks: bool, bytes: nat, lines: nat)
    ensures Needs(size, checks, bytes, lines) <==>
              bytes == BlockBytes(size, checks) && lines == BlockLines(BlockBytes(size, checks))
  {
    LinesNeeded(bytes, lines);
    BytesNeeded(size);
    if checks && bytes >= 36 && (bytes - 36) % 4 == 0 && size <= bytes - 36 < size + 4 {
      OneMultiple(bytes - 36, RoundUp4(size), size);
    }
  }

  /** The bits after block b was taken: its lines but the last are set as well. */
  ghost predicate TakenBits(bits: seq<bool>, b: Block, bits': seq<bool>) {
    && |bits'| == |bits|
    && forall i :: 0 <= i < |bits| ==> (bits'[i] <==> bits[i] || b.start <= i < b.start + b.lines - 1)
  }

  /**
   * Allocation for every size: it fails exactly when neither part of the search order holds a run of free lines one
   * longer than needed. Else the block lies behind the first line of the lowest such run of the first part that has
   * one, is exactly as long as needed, and the next search begins at the word of its last line.
   */
  lemma {:induction false} AllocMeans(h: Heap, size: nat, checks: bool, bytes: nat, lines: nat)
    requires HeapOk(h) && Needs(size, checks, bytes, lines)
    ensures AllocBlock(h, size, checks).None? <==>
              NoRun(h.bits, 32 * h.searchPos, |h.bits|, lines + 1) && NoRun(h.bits, 0, 32 * h.searchPos, lines + 1)
    ensures match AllocBlock(h, size, checks)
            case None => AllocStep(h, size, checks) == h
            case Some(b) =>
              var h' := AllocStep(h, size, checks);
              && b.bytes == bytes && b.lines == lines && b.start > 0 && FreeRun(h.bits, b.start - 1, lines + 1)
              && (if NoRun(h.bits, 32 * h.searchPos, |h.bits|, lines + 1)
                  then b.start + lines <= 32 * h.searchPos && NoRun(h.bits, 0, b.start + lines - 1, lines + 1)
                  else 32 * h.searchPos < b.start && NoRun(h.bits, 32 * h.searchPos, b.start + lines - 1, lines + 1))
              && TakenBits(h.bits, b, h'.bits) && h'.live == h.live + [b]
              && 32 * h'.searchPos <= b.start + lines - 1 < 32 * h'.searchPos + 32
  {
    NeedsOne(size, checks, bytes, lines);
  }

  /** Block b is what one of the requests needed. */
  ghost predicate Asked(b: Block, acts: seq<Action>, checks: bool) {
    exists size :: Ask(size) in acts && Needs(size, checks, b.bytes, b.lines)
  }

  lemma {:induction false} ActNeeds(h: Heap, a: Action, checks: bool, b: Block)
    requires HeapOk(h) && b in Act(h, a, checks).live && b !in h.live
    ensures a.Ask? && Needs(a.size, checks, b.bytes, b.lines)
  {
    match a
    case Ask(size) =>
      NeedsOne(size, checks, BlockBytes(size, checks), BlockLines(BlockBytes(size, checks)));
      AllocMeans(h, size, checks, BlockBytes(size, checks), BlockLines(BlockBytes(size, checks)));
    case GiveBack(k) =>
  }

  lemma {:induction false} RunNeeds(h: Heap, acts: seq<Action>, checks: bool, h': Heap)
    requires HeapOk(h) && Reaches(h, acts, checks, h')
    ensures forall b :: b in h'.live ==> b in h.live || Asked(b, acts, checks)
    decreases |acts|
  {
    if acts != [] {
      var h1 := Act(h, acts[0], checks);
      RunKeeps(h, [acts[0]], checks, h1);
      RunNeeds(h1, acts[1..], checks, h');
      forall b | b in h'.live && b !in h.live
        ensures Asked(b, acts, checks)
      {
        if b in h1.live {
          ActNeeds(h, acts[0], checks, b);
        }
      }
    }
  }

  /** In every reachable heap every live block is exactly as long as some request needed. */
  lemma {:induction false} ReachableNeeds(lines: nat, acts: seq<Action>, checks: bool, h: Heap, k: nat)
    requires lines > 0 && Reaches(Initial(lines), acts, checks, h) && k < |h.live|
    ensures Asked(h.live[k], acts, checks)
  {
    RunNeeds(Initial(lines), acts, checks, h);
    assert h.live[k] in h.live;
  }

  // ---- how complete the search is ----------------------------------------------------------

  /** Allocation fails exactly when neither part of the search order holds a long enough run. */
  lemma {:induction false} AllocFailsIff(h: Heap, size: nat, checks: bool)
    requires HeapOk(h)
    ensures var n := BlockLines(BlockBytes(size, checks)) + 1;
            AllocBlock(h, size, checks).None? <==>
              NoRun(h.bits, 32 * h.searchPos, |h.bits|, n) && NoRun(h.bits, 0, 32 * h.searchPos, n)
  {
  }

  /** Some run of n clear lines. */
  ghost predicate HasRun(bits: seq<bool>, n: nat) {
    exists p: nat :: FreeRun(bits, p, n)
  }

  /** Every run of n clear lines begins before line `from` and ends after it. */
  ghost predicate AllStraddle(bits: seq<bool>, from: nat, n: nat) {
    forall p: nat :: FreeRun(bits, p, n) ==> p < from < p + n
  }

  /**
   * How the search is incomplete: it misses, though a run is there, exactly when every run straddles the resume
   * position.
   */
  lemma {:induction false} MissesIff(h: Heap, size: nat, checks: bool)
    requires HeapOk(h)
    ensures var n := BlockLines(BlockBytes(size, checks)) + 1;
            AllocBlock(h, size, checks).None? && HasRun(h.bits, n) <==>
              HasRun(h.bits, n) && AllStraddle(h.bits, 32 * h.searchPos, n)
  {
    AllocFailsIff(h, size, checks);
    var n := BlockLines(BlockBytes(size, checks)) + 1;
    if AllStraddle(h.bits, 32 * h.searchPos, n) {
      assert NoRun(h.bits, 32 * h.searchPos, |h.bits|, n) && NoRun(h.bits, 0, 32 * h.searchPos, n);
    }
  }

  /** After a free, and after initialisation, the search misses no run at all. */
  lemma {:induction false} CompleteAtTop(h: Heap, size: nat, checks: bool, p: nat)
    requires HeapOk(h) && h.searchPos == 0
    requires FreeRun(h.bits, p, BlockLines(BlockBytes(size, checks)) + 1)
    ensures AllocBlock(h, size, checks).Some?
  {
  }

  // Away from the top it can miss one, because a run is dropped where the search wraps: in a 64-line
  // heap three blocks, the middle one given back, and a fourth block that moves the search position on.
  const BLOCK_A := Block(1, 27, 864)
  const BLOCK_B := Block(28, 9, 288)
  const BLOCK_C := Block(37, 3, 96)
  const BLOCK_D := Block(40, 24, 768)

  ghost predicate Shape(bits: seq<bool>, b: bool, c: bool, d: bool) {
    && |bits| == 64
    && forall i :: 0 <= i < 64 ==>
         (bits[i] <==> 1 <= i < 27 || (b && 28 <= i < 36) || (c && 37 <= i < 39) || (d && 40 <= i < 63))
  }

  lemma {:induction false} SearchFinds(bits: seq<bool>, from: nat, n: nat, p: nat)
    requires from <= p && FreeRun(bits, p, n)
    requires forall q :: from <= q < p ==> !FreeRun(bits, q, n)
    ensures Search(bits, from, n) == Some(p)
  {
  }

  /** What one allocation does to the bitmap once the search is known. */
  lemma {:induction false} AskTo(h: Heap, size: nat, p: nat) returns (h': Heap)
    requires 32 * h.searchPos <= |h.bits|
    requires Search(h.bits, 32 * h.searchPos, BlockLines(size) + 1) == Some(p)
    ensures h' == Act(h, Ask(size), false)
    ensures h' == Heap(Fill(h.bits, p + 1, BlockLines(size) - 1, true), (p + BlockLines(size)) / 32,
                       h.live + [Block(p + 1, BlockLines(size), size)])
  {
    h' := Act(h, Ask(size), false);
  }

  lemma {:induction false} StraddleA(h: Heap) returns (h': Heap)
    requires h.bits == Clear(64) && h.searchPos == 0 && h.live == []
    ensures 32 * h.searchPos <= |h.bits| && h' == Act(h, Ask(864), false)
    ensures h'.searchPos == 0 && h'.live == [BLOCK_A]
    ensures Shape(h'.bits, false, false, false)
  {
    SearchFinds(h.bits, 0, 28, 0);
    h' := AskTo(h, 864, 0);
  }

  lemma {:induction false} StraddleB(h: Heap) returns (h': Heap)
    requires Shape(h.bits, false, false, false) && h.searchPos == 0 && h.live == [BLOCK_A]
    ensures 32 * h.searchPos <= |h.bits| && h' == Act(h, Ask(288), false)
    ensures h'.searchPos == 1 && h'.live == [BLOCK_A, BLOCK_B]
    ensures Shape(h'.bits, true, false, false)
  {
    forall q | 0 <= q < 27
      ensures !FreeRun(h.bits, q, 10)
    {
      assert h.bits[if q == 0 then 1 else q];
    }
    SearchFinds(h.bits, 0, 10, 27);
    h' := AskTo(h, 288, 27);
  }

  lemma {:induction false} StraddleC(h: Heap) returns (h': Heap)
    requires Shape(h.bits, true, false, false) && h.searchPos == 1 && h.live == [BLOCK_A, BLOCK_B]
    ensures 32 * h.searchPos <= |h.bits| && h' == Act(h, Ask(96), false)
    ensures h'.searchPos == 1 && h'.live == [BLOCK_A, BLOCK_B, BLOCK_C]
    ensures Shape(h'.bits, true, true, false)
  {
    forall q | 32 <= q < 36
      ensures !FreeRun(h.bits, q, 4)
    {
      assert h.bits[q];
    }
    SearchFinds(h.bits, 32, 4, 36);
    h' := AskTo(h, 96, 36);
  }

  lemma {:induction false} StraddleFree(h: Heap) returns (h': Heap)
    requires Shape(h.bits, true, true, false) && h.searchPos == 1 && h.live == [BLOCK_A, BLOCK_B, BLOCK_C]
    ensures 32 * h.searchPos <= |h.bits| && h' == Act(h, GiveBack(1), false)
    ensures h'.searchPos == 0 && h'.live == [BLOCK_A, BLOCK_C]
    ensures Shape(h'.bits, false, true, false)
  {
    OnesFromIs(h.bits, 28, 8);
    assert Without(h.live, 1) == [BLOCK_A, BLOCK_C];
    h' := Act(h, GiveBack(1), false);
  }

  lemma {:induction false} StraddleD(h: Heap) returns (h': Heap)
    requires Shape(h.bits, false, true, false) && h.searchPos == 0 && h.live == [BLOCK_A, BLOCK_C]
    ensures 32 * h.searchPos <= |h.bits| && h' == Act(h, Ask(768), false)
    ensures h'.searchPos == 1 && h'.live == [BLOCK_A, BLOCK_C, BLOCK_D]
    ensures Shape(h'.bits, false, true, true)
  {
    forall q | 0 <= q < 39
      ensures !FreeRun(h.bits, q, 25)
    {
      assert h.bits[if q == 0 then 1 else if q < 27 then q else if q < 38 then 37 else 38];
    }
    SearchFinds(h.bits, 0, 25, 39);
    h' := AskTo(h, 768, 39);
  }

  lemma {:induction false} StraddleRefuses(h: Heap)
    requires Shape(h.bits, false, true, true) && h.searchPos == 1
    ensures FreeRun(h.bits, 27, 8) && AllocBlock(h, 224, false) == None
  {
    forall q: nat | q + 8 <= 32 || (32 <= q && q + 8 <= 64)
      ensures !FreeRun(h.bits, q, 8)
    {
      assert h.bits[if q == 0 then 1 else if q < 27 then q else if q < 38 then 37 else if q == 39 then 40 else q];
    }
    SearchResultUnique(h.bits, 32, 8, Search(h.bits, 32, 8), None);
  }

  lemma {:induction false} StraddleRun(h0: Heap, acts: seq<Action>) returns (h: Heap)
    requires h0.bits == Clear(64) && h0.searchPos == 0 && h0.live == []
    requires |acts| == 5 && acts[0] == Ask(864) && acts[1] == Ask(288) && acts[2] == Ask(96)
    requires acts[3] == GiveBack(1) && acts[4] == Ask(768)
    ensures Reaches(h0, acts, false, h)
    ensures Shape(h.bits, false, true, true) && h.searchPos == 1
  {
    var h1 := StraddleA(h0);
    var h2 := StraddleB(h1);
    var h3 := StraddleC(h2);
    var h4 := StraddleFree(h3);
    h := StraddleD(h4);
    ReachesFive(h0, h1, h2, h3, h4, h, acts);
  }

  /** A reachable heap that refuses 224 bytes although its free lines 27 .. 36 would hold them. */
  lemma {:induction false} ReachableMiss(lines: nat) returns (acts: seq<Action>, h: Heap)
    requires lines == 64
    ensures Reaches(Initial(lines), acts, false, h) && HeapOk(h)
    ensures FreeRun(h.bits, 27, BlockLines(BlockBytes(224, false)) + 1) && AllocBlock(h, 224, false) == None
  {
    acts := [Ask(864), Ask(288), Ask(96), GiveBack(1), Ask(768)];
    h := StraddleRun(Initial(lines), acts);
    RunKeeps(Initial(lines), acts, false, h);
    StraddleRefuses(h);
  }

  lemma {:induction false} ReachesFive(h0: Heap, h1: Heap, h2: Heap, h3: Heap, h4: Heap, h5: Heap, acts: seq<Action>)
    requires |h0.bits| == |h1.bits| == |h2.bits| == |h3.bits| == |h4.bits| == 64 && |acts| == 5
    requires h0.searchPos <= 1 && h1.searchPos <= 1 && h2.searchPos <= 1 && h3.searchPos <= 1 && h4.searchPos <= 1
    requires h1 == Act(h0, acts[0], false) && h2 == Act(h1, acts[1], false)
    requires h3 == Act(h2, acts[2], false) && h4 == Act(h3, acts[3], false) && h5 == Act(h4, acts[4], false)
    ensures Reaches(h0, acts, false, h5)
  {
    assert Reaches(h4, acts[4..], false, h5);
    assert acts[3..][1..] == acts[4..];
    assert Reaches(h3, acts[3..], false, h5);
    assert acts[2..][1..] == acts[3..];
    assert Reaches(h2, acts[2..], false, h5);
    assert acts[1..][1..] == acts[2..];
    assert Reaches(h1, acts[1..], false, h5);
  }
}
