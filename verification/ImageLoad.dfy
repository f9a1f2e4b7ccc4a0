/** When booting from the image gives the memory the ELF file describes: exactly which segments come out right. */
module ImageLoad {
  import opened Words
  import opened ImageSpec

  /**
   * No larger in the file than in memory, sizes that round up in 32 bits, and whole words up to the vector area's end.
   */
  predicate WellFormed(p: ProgramHeader) {
    p.load ==> p.fileSize <= p.memSize && p.memSize + 3 < UINT32 && (p.vaddr < 0x100 ==> p.vaddr % 4 == 0)
  }

  function FileWords(p: ProgramHeader): nat {
    WordCount(p.fileSize)
  }

  function MemWords(p: ProgramHeader): nat {
    WordCount(p.memSize)
  }

  /** How many words of the segment lie in the vector area that is left out. */
  function Stripped(p: ProgramHeader, vectors: bool): nat {
    if p.vaddr < 0x100 && !vectors then (0x100 - p.vaddr) / 4 else 0
  }

  /** Where in the file the kept part of a segment begins, not cut to 32 bits. */
  function FileStart(p: ProgramHeader, vectors: bool): nat {
    p.offset + 4 * Stripped(p, vectors)
  }

  // ---- what a segment asks for -------------------------------------------------------------

  /** Byte i of a segment with `size` bytes in the file from `at` on: the file's, and zero beyond them. */
  function WantedByte(elf: seq<Octet>, at: nat, size: nat, i: nat): Octet {
    if i < size && at + i < |elf| then elf[at + i] else 0
  }

  function WantedWord(elf: seq<Octet>, at: nat, size: nat, j: nat): Word {
    LittleEndian(WantedByte(elf, at, size, 4 * j), WantedByte(elf, at, size, 4 * j + 1),
                 WantedByte(elf, at, size, 4 * j + 2), WantedByte(elf, at, size, 4 * j + 3))
  }

  function Wanted(elf: seq<Octet>, at: nat, size: nat, n: nat): (ws: seq<Word>)
    ensures |ws| == n
  {
    seq(n, (j: nat) => WantedWord(elf, at, size, j))
  }

  /** The memory with the segment in it, less the stripped vector area. */
  function Intended(m: Memory, elf: seq<Octet>, p: ProgramHeader, vectors: bool): Memory {
    var s := Stripped(p, vectors);
    if !p.load || MemWords(p) <= s then m
    else Store(m, p.vaddr + 4 * s, Wanted(elf, p.offset, p.fileSize, MemWords(p))[s..])
  }

  /** The lowest k bytes of a word. */
  function Low(x: Word, k: nat): nat {
    match k
    case 1 => x % 0x100
    case 2 => x % 0x1_0000
    case 3 => x % 0x100_0000
    case _ => x
  }

  /** How many bytes of the last word belong to a segment of this size. */
  function TailBytes(size: nat): (k: nat)
    ensures 1 <= k <= 4
  {
    if size % 4 == 0 then 4 else size % 4
  }

  function LastPlace(p: ProgramHeader): nat {
    (p.vaddr + 4 * MemWords(p) + UINT32 - 4) % UINT32
  }

  /** The same memory, but that at `last` only the lowest k bytes need be the same. */
  ghost predicate SameBut(a: Memory, b: Memory, last: nat, k: nat) {
    && a.Keys == b.Keys
    && forall i :: i in a.Keys ==> if i == last then Low(a[i], k) == Low(b[i], k) else a[i] == b[i]
  }

  /** The same memory, but for bytes past the segment's end in its last word. */
  ghost predicate Alike(a: Memory, b: Memory, p: ProgramHeader) {
    SameBut(a, b, LastPlace(p), TailBytes(p.memSize))
  }

  /** The file holds the segment's file part, to a whole number of words. */
  predicate Complete(elf: seq<Octet>, p: ProgramHeader) {
    p.load ==> p.offset + 4 * FileWords(p) <= |elf|
  }

  /** Zero-filled memory does not begin inside the last file word. */
  predicate WholeEnd(p: ProgramHeader) {
    p.fileSize % 4 == 0 || p.memSize == p.fileSize
  }

  /**
   * The segments that load as asked. Nothing but vectors is skipped; otherwise the file position past the vectors is
   * not cut to 32 bits, no chunk follows a partly filled one, and no zeros are asked for in the last file word.
   */
  predicate Faithful(p: ProgramHeader, dev: nat, vectors: bool)
    requires dev > 0 && WellFormed(p) && p.load
  {
    var s, file, mem := Stripped(p, vectors), FileWords(p), MemWords(p);
    if s > 0 && file <= s then mem <= s
    else FileStart(p, vectors) < UINT32 && ChunksFit(mem - s, file - s, dev) && WholeEnd(p)
  }

  // ---- words and bytes ---------------------------------------------------------------------

  lemma {:induction false} Digit(b: Octet, q: nat, c: Octet, r: nat)
    ensures b + 0x100 * q == c + 0x100 * r <==> b == c && q == r
  {
  }

  /** The lowest k of four bytes, as a number. */
  function Part(b0: Octet, b1: Octet, b2: Octet, b3: Octet, k: nat): nat {
    match k
    case 1 => b0
    case 2 => b0 + 0x100 * b1
    case 3 => b0 + 0x100 * (b1 + 0x100 * b2)
    case _ => b0 + 0x100 * (b1 + 0x100 * (b2 + 0x100 * b3))
  }

  lemma {:induction false} LowOf(b0: Octet, b1: Octet, b2: Octet, b3: Octet, k: nat)
    requires 1 <= k <= 4
    ensures LittleEndian(b0, b1, b2, b3) < UINT32
    ensures Low(LittleEndian(b0, b1, b2, b3), k) == Part(b0, b1, b2, b3, k)
  {
    var x := LittleEndian(b0, b1, b2, b3);
    match k
    case 1 => QuotientIs(x, 0x100, b1 + 0x100 * b2 + 0x1_0000 * b3, b0);
    case 2 => QuotientIs(x, 0x1_0000, b2 + 0x100 * b3, b0 + 0x100 * b1);
    case 3 => QuotientIs(x, 0x100_0000, b3, b0 + 0x100 * b1 + 0x1_0000 * b2);
    case _ =>
  }

  lemma {:induction false} PartIff(b0: Octet, b1: Octet, b2: Octet, b3: Octet, c0: Octet, c1: Octet, c2: Octet,
                                   c3: Octet, k: nat)
    requires 1 <= k <= 4
    ensures Part(b0, b1, b2, b3, k) == Part(c0, c1, c2, c3, k) <==>
              b0 == c0 && (k > 1 ==> b1 == c1) && (k > 2 ==> b2 == c2) && (k > 3 ==> b3 == c3)
  {
    match k
    case 1 =>
    case 2 => Digit(b0, b1, c0, c1);
    case 3 =>
      Digit(b0, b1 + 0x100 * b2, c0, c1 + 0x100 * c2);
      Digit(b1, b2, c1, c2);
    case _ =>
      Digit(b0, b1 + 0x100 * (b2 + 0x100 * b3), c0, c1 + 0x100 * (c2 + 0x100 * c3));
      Digit(b1, b2 + 0x100 * b3, c1, c2 + 0x100 * c3);
      Digit(b2, b3, c2, c3);
  }

  lemma {:induction false} FilePart(elf: seq<Octet>, at: nat, k: nat)
    requires at + 4 <= |elf| && 1 <= k <= 4
    ensures Low(FileWord(elf, at), k) == Part(elf[at], elf[at + 1], elf[at + 2], elf[at + 3], k)
  {
    LowOf(elf[at], elf[at + 1], elf[at + 2], elf[at + 3], k);
  }

  lemma {:induction false} WantedPart(elf: seq<Octet>, at: nat, size: nat, j: nat, k: nat)
    requires 1 <= k <= 4
    ensures Low(WantedWord(elf, at, size, j), k)
            == Part(WantedByte(elf, at, size, 4 * j), WantedByte(elf, at, size, 4 * j + 1),
                    WantedByte(elf, at, size, 4 * j + 2), WantedByte(elf, at, size, 4 * j + 3), k)
  {
    LowOf(WantedByte(elf, at, size, 4 * j), WantedByte(elf, at, size, 4 * j + 1),
          WantedByte(elf, at, size, 4 * j + 2), WantedByte(elf, at, size, 4 * j + 3), k);
  }

  /** A file word is what is asked for as word j, in its lowest k bytes, exactly when its bytes are. */
  lemma {:induction false} WordIff(elf: seq<Octet>, w: nat, at: nat, size: nat, j: nat, k: nat)
    requires w + 4 <= |elf| && 1 <= k <= 4
    ensures Low(FileWord(elf, w), k) == Low(WantedWord(elf, at, size, j), k) <==>
              && elf[w] == WantedByte(elf, at, size, 4 * j)
              && (k > 1 ==> elf[w + 1] == WantedByte(elf, at, size, 4 * j + 1))
              && (k > 2 ==> elf[w + 2] == WantedByte(elf, at, size, 4 * j + 2))
              && (k > 3 ==> elf[w + 3] == WantedByte(elf, at, size, 4 * j + 3))
  {
    FilePart(elf, w, k);
    WantedPart(elf, at, size, j, k);
    PartIff(elf[w], elf[w + 1], elf[w + 2], elf[w + 3], WantedByte(elf, at, size, 4 * j),
            WantedByte(elf, at, size, 4 * j + 1), WantedByte(elf, at, size, 4 * j + 2),
            WantedByte(elf, at, size, 4 * j + 3), k);
  }

  lemma {:induction false} ZeroWord(elf: seq<Octet>, at: nat, size: nat, j: nat)
    requires size <= 4 * j
    ensures WantedWord(elf, at, size, j) == 0
  {
  }

  // ---- memories that agree where it matters ------------------------------------------------

  /** How many bytes of word j of n matter. */
  function Matter(j: nat, n: nat, t: nat): nat {
    if j + 1 == n then t else 4
  }

  /** The same words, but that of the last only the lowest k bytes need be the same. */
  predicate Agree(u: seq<Word>, v: seq<Word>, k: nat)
    requires |u| == |v|
  {
    forall j :: 0 <= j < |u| ==> Low(u[j], Matter(j, |u|, k)) == Low(v[j], Matter(j, |u|, k))
  }

  lemma {:induction false} PlacesDiffer(addr: nat, i: nat, j: nat)
    requires i < j < i + 0x4000_0000
    ensures (addr + 4 * i) % UINT32 != (addr + 4 * j) % UINT32
  {
    assert addr + 4 * j == addr + 4 * i + 4 * (j - i);
    ShiftDiffers(addr + 4 * i, 4 * (j - i));
  }

  lemma {:induction false} ShiftDiffers(n: nat, d: nat)
    requires 0 < d < UINT32
    ensures n % UINT32 != (n + d) % UINT32
  {
  }

  lemma {:induction false} OneMoreStored(m: Memory, addr: nat, u: seq<Word>)
    requires u != []
    ensures Store(m, addr, u) == Store(m, addr, u[..|u| - 1])[(addr + 4 * (|u| - 1)) % UINT32 := u[|u| - 1]]
  {
    var n := |u| - 1;
    assert u == u[..n] + [u[n]];
    StoreConcat(m, addr, u[..n], [u[n]]);
    assert [u[n]][1..] == [];
  }

  lemma {:induction false} AgreeBefore(u: seq<Word>, v: seq<Word>, k: nat)
    requires |u| == |v| > 0 && Agree(u, v, k)
    ensures u[..|u| - 1] == v[..|u| - 1] && Low(u[|u| - 1], k) == Low(v[|u| - 1], k)
  {
    forall j | 0 <= j < |u| - 1
      ensures u[j] == v[j]
    {
      assert Low(u[j], 4) == Low(v[j], 4);
    }
  }

  /** Words that agree leave memories that do. */
  lemma {:induction false} StoresAlike(m: Memory, addr: nat, u: seq<Word>, v: seq<Word>, k: nat)
    requires |u| == |v| > 0 && Agree(u, v, k)
    ensures SameBut(Store(m, addr, u), Store(m, addr, v), (addr + 4 * (|u| - 1)) % UINT32, k)
  {
    AgreeBefore(u, v, k);
    OneMoreStored(m, addr, u);
    OneMoreStored(m, addr, v);
  }

  /** And words that do not, do not. */
  lemma {:induction false} StoresUnlike(m: Memory, addr: nat, u: seq<Word>, v: seq<Word>, k: nat)
    requires 0 < |u| == |v| <= 0x4000_0000 && !Agree(u, v, k)
    ensures !SameBut(Store(m, addr, u), Store(m, addr, v), (addr + 4 * (|u| - 1)) % UINT32, k)
  {
    var n := |u| - 1;
    var j :| 0 <= j <= n && Low(u[j], Matter(j, n + 1, k)) != Low(v[j], Matter(j, n + 1, k));
    StoreAt(m, addr, u, j);
    StoreAt(m, addr, v, j);
    if j < n {
      PlacesDiffer(addr, j, n);
    }
  }

  // ---- the words of a kept extent ----------------------------------------------------------

  lemma {:induction false} WordAgrees(elf: seq<Octet>, at: nat, size: nat, j: nat, k: nat)
    requires at + 4 * j + 4 <= |elf| && 1 <= k <= 4 && 4 * j + k <= size
    ensures Low(FileWord(elf, at + 4 * j), k) == Low(WantedWord(elf, at, size, j), k)
  {
    WordIff(elf, at + 4 * j, at, size, j, k);
  }

  lemma {:induction false} WantedAt(elf: seq<Octet>, at: nat, size: nat, n: nat, s: nat, j: nat)
    requires s + j < n
    ensures Wanted(elf, at, size, n)[s..][j] == WantedWord(elf, at, size, s + j)
  {
  }

  /**
   * An extent of a segment whose file part ends well: `s` words of the segment come before it, and t bytes of its
   * last word are asked for.
   */
  predicate ExtentOf(x: Extent, at: nat, size: nat, t: nat, s: nat) {
    && x.at == at + 4 * s && x.file <= x.mem && 0 < x.mem && 1 <= t <= 4
    && size <= 4 * (s + x.file) < size + 4
    && (4 * (s + x.file) == size || 4 * (s + x.mem - 1) + t == size)
  }

  lemma {:induction false} PaddedAt(elf: seq<Octet>, x: Extent, at: nat, s: nat, j: nat)
    requires x.at == at + 4 * s && x.file <= x.mem && j < x.mem
    ensures Padded(elf, x.at, x.file, x.mem)[j] == if j < x.file then FileWord(elf, at + 4 * (s + j)) else 0
  {
    assert at + 4 * s + 4 * j == at + 4 * (s + j);
  }

  lemma {:induction false} WholeBytes(x: Extent, at: nat, size: nat, t: nat, s: nat, j: nat)
    requires ExtentOf(x, at, size, t, s) && j < x.file
    ensures 1 <= Matter(j, x.mem, t) <= 4 && 4 * (s + j) + Matter(j, x.mem, t) <= size
    ensures at + 4 * (s + j) + 4 <= at + 4 * (s + x.file)
  {
  }

  lemma {:induction false} NoBytes(x: Extent, at: nat, size: nat, t: nat, s: nat, j: nat)
    requires ExtentOf(x, at, size, t, s) && j >= x.file
    ensures size <= 4 * (s + j)
  {
  }

  lemma {:induction false} FileEntry(elf: seq<Octet>, x: Extent, at: nat, size: nat, t: nat, s: nat, j: nat)
    requires ExtentOf(x, at, size, t, s) && at + 4 * (s + x.file) <= |elf| && j < x.file
    ensures Low(FileWord(elf, at + 4 * (s + j)), Matter(j, x.mem, t))
            == Low(WantedWord(elf, at, size, s + j), Matter(j, x.mem, t))
  {
    WholeBytes(x, at, size, t, s, j);
    WordAgrees(elf, at, size, s + j, Matter(j, x.mem, t));
  }

  lemma {:induction false} ZeroEntry(elf: seq<Octet>, x: Extent, at: nat, size: nat, t: nat, s: nat, j: nat)
    requires ExtentOf(x, at, size, t, s) && j >= x.file
    ensures WantedWord(elf, at, size, s + j) == 0
  {
    NoBytes(x, at, size, t, s, j);
    ZeroWord(elf, at, size, s + j);
  }

  /** The file words of an extent and then zeros agree with what is asked for. */
  lemma {:induction false} EntryRight(elf: seq<Octet>, x: Extent, at: nat, size: nat, t: nat, s: nat, j: nat, k: nat)
    requires ExtentOf(x, at, size, t, s) && at + 4 * (s + x.file) <= |elf| && j < x.mem && k == Matter(j, x.mem, t)
    ensures Low(Padded(elf, x.at, x.file, x.mem)[j], k) == Low(WantedWord(elf, at, size, s + j), k)
  {
    PaddedAt(elf, x, at, s, j);
    if j < x.file {
      FileEntry(elf, x, at, size, t, s, j);
    } else {
      ZeroEntry(elf, x, at, size, t, s, j);
    }
  }

  /** The file words of an extent and then zeros, against what is asked for: right when the file part ends well. */
  lemma {:induction false} WordsAgree(elf: seq<Octet>, x: Extent, at: nat, size: nat, t: nat, s: nat)
    requires ExtentOf(x, at, size, t, s) && at + 4 * (s + x.file) <= |elf|
    ensures Agree(Padded(elf, x.at, x.file, x.mem), Wanted(elf, at, size, s + x.mem)[s..], t)
  {
    var u, v := Padded(elf, x.at, x.file, x.mem), Wanted(elf, at, size, s + x.mem)[s..];
    forall j | 0 <= j < x.mem
      ensures Low(u[j], Matter(j, x.mem, t)) == Low(v[j], Matter(j, x.mem, t))
    {
      EntryRight(elf, x, at, size, t, s, j, Matter(j, x.mem, t));
      WantedAt(elf, at, size, s + x.mem, s, j);
    }
  }

  // ---- the kept extent ---------------------------------------------------------------------

  lemma {:induction false} WordCountIs(size: Word)
    requires size + 3 < UINT32
    ensures size <= 4 * WordCount(size) < size + 4 && WordCount(size) <= 0x4000_0000
    ensures size % 4 == 0 <==> 4 * WordCount(size) == size
  {
  }

  lemma {:induction false} StrippedIs(p: ProgramHeader, vectors: bool)
    requires WellFormed(p) && p.load
    ensures var s := Stripped(p, vectors);
            if p.vaddr < VECTORS && !vectors then 0 < 4 * s == VECTORS - p.vaddr && (VECTORS - p.vaddr) / 4 == s
            else s == 0
  {
  }

  lemma {:induction false} TailIs(mem: nat, n: nat)
    requires mem <= 4 * n < mem + 4
    ensures mem == 4 * (n - 1) + TailBytes(mem)
  {
  }

  /** The segment in words: f of n in the file, the first s left out. */
  ghost predicate Counts(p: ProgramHeader, vectors: bool, s: nat, f: nat, n: nat) {
    && s == Stripped(p, vectors) && f == FileWords(p) && n == MemWords(p)
    && p.fileSize <= 4 * f < p.fileSize + 4 && p.memSize <= 4 * n < p.memSize + 4 && f <= n <= 0x4000_0000
    && (p.fileSize % 4 == 0 <==> 4 * f == p.fileSize)
  }

  lemma {:induction false} CountsAre(p: ProgramHeader, vectors: bool)
    requires WellFormed(p) && p.load
    ensures Counts(p, vectors, Stripped(p, vectors), FileWords(p), MemWords(p))
  {
    WordCountIs(p.fileSize);
    WordCountIs(p.memSize);
  }

  lemma {:induction false} InRange(n: int)
    requires 0 <= n < UINT32
    ensures n % UINT32 == n
  {
  }

  lemma {:induction false} KeptIs(p: ProgramHeader, vectors: bool, s: nat, f: nat, n: nat)
    requires WellFormed(p) && p.load && Counts(p, vectors, s, f, n)
    ensures Kept(p, vectors) == if s > 0 && f <= s then None
                                else Some(Extent((p.offset + 4 * s) % UINT32, p.vaddr + 4 * s, n - s, f - s))
  {
    StrippedIs(p, vectors);
    if f > s {
      InRange(n - s);
    }
    InRange(p.offset);
  }

  /** A kept extent's file position is cut only if it has file words. */
  lemma {:induction false} KeptPosition(p: ProgramHeader, vectors: bool, s: nat)
    requires WellFormed(p) && p.load && s == Stripped(p, vectors)
    ensures var at := p.offset + 4 * s;
            && at < UINT32 + VECTORS && (at >= UINT32 ==> s > 0)
            && at % UINT32 == if at < UINT32 then at else at - UINT32
  {
    StrippedIs(p, vectors);
    CutOnce(p.offset + 4 * s);
  }

  /** What a kept extent is, in numbers. */
  ghost predicate KeptAs(p: ProgramHeader, vectors: bool, x: Extent, s: nat) {
    && p.load && Kept(p, vectors) == Some(x) && s == Stripped(p, vectors) && s + x.mem == MemWords(p)
    && s + x.file == FileWords(p) && x.addr == p.vaddr + 4 * s && 0 < x.mem <= 0x4000_0000 && x.file <= x.mem
    && p.fileSize <= 4 * (s + x.file) < p.fileSize + 4
    && p.memSize == 4 * (s + x.mem - 1) + TailBytes(p.memSize)
  }

  lemma {:induction false} CutOnce(at: nat)
    requires at < UINT32 + VECTORS
    ensures at % UINT32 == if at < UINT32 then at else at - UINT32
  {
  }

  lemma {:induction false} LastIs(p: ProgramHeader, s: nat, n: nat)
    requires s < n == MemWords(p)
    ensures LastPlace(p) == (p.vaddr + 4 * s + 4 * (n - s - 1)) % UINT32
  {
    SameTurn(p.vaddr + 4 * n - 4);
  }

  lemma {:induction false} SameTurn(n: nat)
    ensures (n + UINT32) % UINT32 == n % UINT32
  {
  }

  // ---- the segments that load right --------------------------------------------------------

  lemma {:induction false} ExtentLoads(m: Memory, elf: seq<Octet>, x: Extent, dev: nat)
    requires dev > 0
    ensures |Payload(Chunks(elf, x, dev))| == x.mem
    ensures Load(m, Chunks(elf, x, dev)) == Store(m, x.addr, Payload(Chunks(elf, x, dev)))
  {
    ChunksLoad(m, elf, x, dev);
    ChunksLength(elf, x, dev);
  }

  lemma {:induction false} PayloadAgrees(elf: seq<Octet>, x: Extent, dev: nat, at: nat, size: nat, t: nat, s: nat)
    requires dev > 0 && ChunksFit(x.mem, x.file, dev) && ExtentOf(x, at, size, t, s) && at + 4 * (s + x.file) <= |elf|
    ensures |Payload(Chunks(elf, x, dev))| == x.mem
    ensures Agree(Payload(Chunks(elf, x, dev)), Wanted(elf, at, size, s + x.mem)[s..], t)
  {
    ChunksRight(elf, x, dev);
    WordsAgree(elf, x, at, size, t, s);
  }

  lemma {:induction false} ExtentRight(m: Memory, elf: seq<Octet>, x: Extent, dev: nat, at: nat, size: nat, t: nat,
                                       s: nat)
    requires dev > 0 && ChunksFit(x.mem, x.file, dev) && ExtentOf(x, at, size, t, s) && at + 4 * (s + x.file) <= |elf|
    ensures var got, want := Load(m, Chunks(elf, x, dev)), Store(m, x.addr, Wanted(elf, at, size, s + x.mem)[s..]);
            SameBut(got, want, (x.addr + 4 * (x.mem - 1)) % UINT32, t)
  {
    ExtentLoads(m, elf, x, dev);
    PayloadAgrees(elf, x, dev, at, size, t, s);
    StoresAlike(m, x.addr, Payload(Chunks(elf, x, dev)), Wanted(elf, at, size, s + x.mem)[s..], t);
  }

  lemma {:induction false} SectionsAre(elf: seq<Octet>, p: ProgramHeader, dev: nat, vectors: bool)
    requires dev > 0 && Kept(p, vectors).Some?
    ensures Sections(elf, p, dev, vectors) == Chunks(elf, Kept(p, vectors).value, dev)
  {
  }

  lemma {:induction false} IntendedIs(m: Memory, elf: seq<Octet>, p: ProgramHeader, vectors: bool, s: nat, n: nat)
    requires p.load && s == Stripped(p, vectors) && s < n == MemWords(p)
    ensures Intended(m, elf, p, vectors) == Store(m, p.vaddr + 4 * s, Wanted(elf, p.offset, p.fileSize, n)[s..])
  {
  }

  lemma {:induction false} KeptRight(m: Memory, elf: seq<Octet>, p: ProgramHeader, dev: nat, vectors: bool, x: Extent,
                                     s: nat)
    requires dev > 0 && KeptAs(p, vectors, x, s) && ExtentOf(x, p.offset, p.fileSize, TailBytes(p.memSize), s)
    requires ChunksFit(x.mem, x.file, dev) && p.offset + 4 * (s + x.file) <= |elf|
    ensures Alike(Load(m, Sections(elf, p, dev, vectors)), Intended(m, elf, p, vectors), p)
  {
    SectionsAre(elf, p, dev, vectors);
    IntendedIs(m, elf, p, vectors, s, s + x.mem);
    LastIs(p, s, s + x.mem);
    ExtentRight(m, elf, x, dev, p.offset, p.fileSize, TailBytes(p.memSize), s);
  }

  /** A segment dropped whole, with nothing asked for above the vectors. */
  lemma {:induction false} DroppedRight(m: Memory, elf: seq<Octet>, p: ProgramHeader, dev: nat, vectors: bool)
    requires dev > 0 && p.load && MemWords(p) <= Stripped(p, vectors)
    requires Kept(p, vectors).Some? ==> Kept(p, vectors).value.mem == 0
    ensures Load(m, Sections(elf, p, dev, vectors)) == m == Intended(m, elf, p, vectors)
  {
  }

  lemma {:induction false} SegmentRight(m: Memory, elf: seq<Octet>, p: ProgramHeader, dev: nat, vectors: bool)
    requires dev > 0 && WellFormed(p) && p.load && Complete(elf, p) && Faithful(p, dev, vectors)
    ensures Alike(Load(m, Sections(elf, p, dev, vectors)), Intended(m, elf, p, vectors), p)
  {
    var s, f, n := Stripped(p, vectors), FileWords(p), MemWords(p);
    CountsAre(p, vectors);
    KeptIs(p, vectors, s, f, n);
    KeptPosition(p, vectors, s);
    if n > s {
      TailIs(p.memSize, n);
      KeptRight(m, elf, p, dev, vectors, Kept(p, vectors).value, s);
    } else {
      DroppedRight(m, elf, p, dev, vectors);
    }
  }

  // ---- the segments that do not ------------------------------------------------------------

  /** The segment of this file does not even load as asked into empty memory. */
  ghost predicate Unlike(elf: seq<Octet>, p: ProgramHeader, dev: nat, vectors: bool)
    requires dev > 0
  {
    !Alike(Load(map[], Sections(elf, p, dev, vectors)), Intended(map[], elf, p, vectors), p)
  }

  /** One byte that differs is enough for a word. */
  lemma {:induction false} ByteDiffers(elf: seq<Octet>, w: nat, at: nat, size: nat, j: nat, k: nat, i: nat)
    requires w + 4 <= |elf| && i < k <= 4 && elf[w + i] != WantedByte(elf, at, size, 4 * j + i)
    ensures Low(FileWord(elf, w), k) != Low(WantedWord(elf, at, size, j), k)
  {
    WordIff(elf, w, at, size, j, k);
  }

  /** One word that differs is enough for the memory. */
  lemma {:induction false} WordWrong(elf: seq<Octet>, p: ProgramHeader, dev: nat, vectors: bool, x: Extent, s: nat,
                                     u: seq<Word>, j: nat, k: nat)
    requires dev > 0 && KeptAs(p, vectors, x, s) && u == Payload(Chunks(elf, x, dev)) && j < |u| == x.mem
    requires k == Matter(j, x.mem, TailBytes(p.memSize))
    requires Low(u[j], k) != Low(WantedWord(elf, p.offset, p.fileSize, s + j), k)
    ensures Unlike(elf, p, dev, vectors)
  {
    SectionsAre(elf, p, dev, vectors);
    IntendedIs(map[], elf, p, vectors, s, s + x.mem);
    LastIs(p, s, s + x.mem);
    ExtentLoads(map[], elf, x, dev);
    WantedAt(elf, p.offset, p.fileSize, s + x.mem, s, j);
    StoresUnlike(map[], x.addr, u, Wanted(elf, p.offset, p.fileSize, s + x.mem)[s..], TailBytes(p.memSize));
  }

  /** So is one byte, i, of word j, which comes from byte w of the file on. */
  lemma {:induction false} ByteShows(elf: seq<Octet>, p: ProgramHeader, dev: nat, vectors: bool, x: Extent, s: nat,
                                     u: seq<Word>, j: nat, w: nat, i: nat)
    requires dev > 0 && KeptAs(p, vectors, x, s) && u == Payload(Chunks(elf, x, dev)) && j < |u| == x.mem
    requires w + 4 <= |elf| && u[j] == FileWord(elf, w) && i < Matter(j, x.mem, TailBytes(p.memSize))
    requires elf[w + i] != WantedByte(elf, p.offset, p.fileSize, 4 * (s + j) + i)
    ensures Unlike(elf, p, dev, vectors)
  {
    var k := Matter(j, x.mem, TailBytes(p.memSize));
    ByteDiffers(elf, w, p.offset, p.fileSize, s + j, k, i);
    WordWrong(elf, p, dev, vectors, x, s, u, j, k);
  }

  /** The file begun by `head`, filled up to n bytes. */
  function Filled(head: seq<Octet>, n: nat, b: Octet): (elf: seq<Octet>)
    requires |head| <= n
    ensures |elf| == n && head <= elf
  {
    head + seq(n - |head|, (_: nat) => b)
  }

  lemma {:induction false} FirstWord(elf: seq<Octet>, x: Extent, dev: nat)
    requires dev > 0 && 0 < x.file <= x.mem
    ensures |Payload(Chunks(elf, x, dev))| == x.mem && Payload(Chunks(elf, x, dev))[0] == FileWord(elf, x.at)
  {
    ChunksStep(elf, x, dev);
    ChunksLength(elf, x, dev);
  }

  /** The file position was cut to 32 bits: the first word comes from elsewhere. */
  lemma {:induction false} CutWrong(head: seq<Octet>, p: ProgramHeader, dev: nat, vectors: bool, x: Extent, s: nat)
    returns (elf: seq<Octet>)
    requires dev > 0 && KeptAs(p, vectors, x, s) && x.file > 0 && |head| <= p.offset + 4 * s && x.at < p.offset + 4 * s
    ensures head <= elf && Complete(elf, p) && Unlike(elf, p, dev, vectors)
  {
    var at := p.offset + 4 * s;
    var zeros := Filled(head, at, 0);
    var b: Octet := if x.at < |head| && head[x.at] == 1 then 0 else 1;
    elf := Filled(zeros, p.offset + 4 * (s + x.file), b);
    assert elf[x.at] == zeros[x.at] != b == elf[at];
    FirstWord(elf, x, dev);
    ByteShows(elf, p, dev, vectors, x, s, Payload(Chunks(elf, x, dev)), 0, x.at, 0);
  }

  /** A chunk follows a partly filled one: the word after the file part shows up where zeros belong. */
  lemma {:induction false} ChunkWrong(head: seq<Octet>, p: ProgramHeader, dev: nat, vectors: bool, x: Extent, s: nat)
    returns (elf: seq<Octet>)
    requires dev > 0 && KeptAs(p, vectors, x, s) && x.at == p.offset + 4 * s && !ChunksFit(x.mem, x.file, dev)
    requires |head| <= p.offset + p.fileSize
    ensures head <= elf && Complete(elf, p) && Unlike(elf, p, dev, vectors)
  {
    var end := p.offset + 4 * (s + x.file);
    elf := Filled(head, end + 4, 1);
    var j := ChunksWrong(elf, x, dev);
    ByteShows(elf, p, dev, vectors, x, s, Payload(Chunks(elf, x, dev)), j, end, 0);
  }

  /** Zeros are asked for in the last file word: a byte from beyond the file part shows up among them. */
  lemma {:induction false} ByteWrong(head: seq<Octet>, p: ProgramHeader, dev: nat, vectors: bool, x: Extent, s: nat)
    returns (elf: seq<Octet>)
    requires dev > 0 && KeptAs(p, vectors, x, s) && x.at == p.offset + 4 * s && ChunksFit(x.mem, x.file, dev)
    requires |head| <= p.offset + p.fileSize && x.file > 0 && 4 * (s + x.file) != p.fileSize && p.memSize > p.fileSize
    ensures head <= elf && Complete(elf, p) && Unlike(elf, p, dev, vectors)
  {
    var j, w := x.file - 1, p.offset + 4 * (s + x.file - 1);
    elf := Filled(head, w + 4, 1);
    ChunksRight(elf, x, dev);
    PaddedAt(elf, x, p.offset, s, j);
    ByteShows(elf, p, dev, vectors, x, s, Payload(Chunks(elf, x, dev)), j, w, p.fileSize - 4 * (s + j));
  }

  /** A segment whose file part ends in the vector area is skipped, and the memory it asks for above is missing. */
  lemma {:induction false} SkipWrong(elf: seq<Octet>, p: ProgramHeader, dev: nat, vectors: bool, s: nat, n: nat)
    requires dev > 0 && p.load && Kept(p, vectors).None? && s == Stripped(p, vectors)
             && s < n == MemWords(p) <= 0x4000_0000
    ensures Unlike(elf, p, dev, vectors)
  {
    IntendedIs(map[], elf, p, vectors, s, n);
    StoreAt(map[], p.vaddr + 4 * s, Wanted(elf, p.offset, p.fileSize, n)[s..], 0);
  }

  lemma {:induction false} KeptWrong(head: seq<Octet>, p: ProgramHeader, dev: nat, vectors: bool, x: Extent, s: nat)
    returns (elf: seq<Octet>)
    requires dev > 0 && KeptAs(p, vectors, x, s) && |head| <= p.offset + p.fileSize && |head| <= UINT32
    requires x.at == p.offset + 4 * s || (x.file > 0 && x.at < UINT32 <= p.offset + 4 * s)
    requires x.at != p.offset + 4 * s || !ChunksFit(x.mem, x.file, dev)
             || (4 * (s + x.file) != p.fileSize && p.memSize > p.fileSize)
    requires x.file > 0 || 4 * (s + x.file) == p.fileSize
    ensures head <= elf && Complete(elf, p) && Unlike(elf, p, dev, vectors)
  {
    if x.at != p.offset + 4 * s {
      elf := CutWrong(head, p, dev, vectors, x, s);
    } else if !ChunksFit(x.mem, x.file, dev) {
      elf := ChunkWrong(head, p, dev, vectors, x, s);
    } else {
      elf := ByteWrong(head, p, dev, vectors, x, s);
    }
  }

  lemma {:induction false} SegmentWrong(head: seq<Octet>, p: ProgramHeader, dev: nat, vectors: bool)
    returns (elf: seq<Octet>)
    requires dev > 0 && WellFormed(p) && p.load && !Faithful(p, dev, vectors)
    requires |head| <= p.offset + p.fileSize && |head| <= UINT32
    ensures head <= elf && Complete(elf, p) && Unlike(elf, p, dev, vectors)
  {
    var s, f, n := Stripped(p, vectors), FileWords(p), MemWords(p);
    CountsAre(p, vectors);
    KeptIs(p, vectors, s, f, n);
    KeptPosition(p, vectors, s);
    TailIs(p.memSize, n);
    if s > 0 && f <= s {
      elf := Filled(head, p.offset + 4 * f + 4, 0);
      SkipWrong(elf, p, dev, vectors, s, n);
    } else {
      if n - s <= dev {
        OneChunkFits(n - s, f - s, dev);
      }
      elf := KeptWrong(head, p, dev, vectors, Kept(p, vectors).value, s);
    }
  }

  /** The segment of this file loads as asked into any memory. */
  ghost predicate LoadsRight(elf: seq<Octet>, p: ProgramHeader, dev: nat, vectors: bool)
    requires dev > 0
  {
    forall m: Memory :: Alike(Load(m, Sections(elf, p, dev, vectors)), Intended(m, elf, p, vectors), p)
  }

  /**
   * Over all complete files that begin alike, say with one ELF header and one table of segments, a segment loads as
   * asked if and only if it is faithful.
   */
  lemma {:induction false} SegmentLoadsIff(head: seq<Octet>, p: ProgramHeader, dev: nat, vectors: bool)
    requires dev > 0 && WellFormed(p) && p.load && |head| <= p.offset + p.fileSize && |head| <= UINT32
    ensures (forall elf :: head <= elf && Complete(elf, p) ==> LoadsRight(elf, p, dev, vectors)) <==>
              Faithful(p, dev, vectors)
  {
    if Faithful(p, dev, vectors) {
      forall elf, m: Memory | head <= elf && Complete(elf, p)
        ensures Alike(Load(m, Sections(elf, p, dev, vectors)), Intended(m, elf, p, vectors), p)
      {
        SegmentRight(m, elf, p, dev, vectors);
      }
    } else {
      var elf := SegmentWrong(head, p, dev, vectors);
      assert !LoadsRight(elf, p, dev, vectors);
    }
  }

  // ---- the whole image ---------------------------------------------------------------------

  /** The image after its four leading bytes. */
  function ImageOf(elf: seq<Octet>, ps: seq<ProgramHeader>, entry: Word, dev: nat, vectors: bool): seq<Word>
    requires dev > 0
  {
    AllEncodable(elf, ps, dev, vectors);
    var ss := AllSections(elf, ps, dev, vectors);
    Encode(ss) + Trailer(entry, Wrap(Sum(Payload(ss))))
  }

  function IntendedAll(m: Memory, elf: seq<Octet>, ps: seq<ProgramHeader>, vectors: bool): Memory
    decreases |ps|
  {
    if ps == [] then m else Intended(IntendedAll(m, elf, ps[..|ps| - 1], vectors), elf, ps[|ps| - 1], vectors)
  }

  lemma {:induction false} LoadConcat(m: Memory, a: seq<Section>, b: seq<Section>)
    ensures Load(m, a + b) == Load(Load(m, a), b)
    decreases |a|
  {
    if a == [] {
      assert a + b == b;
    } else {
      assert (a + b)[1..] == a[1..] + b;
      LoadConcat(Store(m, a[0].addr, a[0].words), a[1..], b);
    }
  }

  predicate AllFaithful(ps: seq<ProgramHeader>, dev: nat, vectors: bool)
    requires dev > 0
  {
    forall i :: 0 <= i < |ps| ==> WellFormed(ps[i]) && (ps[i].load ==> Faithful(ps[i], dev, vectors))
  }

  predicate AllComplete(elf: seq<Octet>, ps: seq<ProgramHeader>) {
    forall i :: 0 <= i < |ps| ==> Complete(elf, ps[i])
  }

  /** How many of the lowest bytes at k no segment ends below. */
  function Sure(ps: seq<ProgramHeader>, k: nat): (t: nat)
    ensures 1 <= t <= 4
    decreases |ps|
  {
    if ps == [] then 4
    else
      var t, p := Sure(ps[..|ps| - 1], k), ps[|ps| - 1];
      if p.load && LastPlace(p) == k && TailBytes(p.memSize) < t then TailBytes(p.memSize) else t
  }

  /** The same memory, but for bytes past some segment's end in its last word. */
  ghost predicate AllAlike(a: Memory, b: Memory, ps: seq<ProgramHeader>) {
    a.Keys == b.Keys && forall k :: k in a.Keys ==> Low(a[k], Sure(ps, k)) == Low(b[k], Sure(ps, k))
  }

  lemma {:induction false} FinerMod(x: nat, d: nat, n: nat)
    requires d > 0 && n > 0
    ensures d * n > 0 && x % (d * n) % d == x % d
  {
    var q, r := x / (d * n), x % (d * n);
    assert x == d * (n * q + r / d) + r % d;
    QuotientIs(x, d, n * q + r / d, r % d);
  }

  lemma {:induction false} FewerBytes(x: Word, k: nat)
    requires 1 <= k <= 3
    ensures Low(x, k) == match k
                         case 1 => Low(x, 2) % 0x100
                         case 2 => Low(x, 3) % 0x1_0000
                         case _ => Low(x, 4) % 0x100_0000
  {
    FinerMod(x, 0x100, 0x100);
    FinerMod(x, 0x1_0000, 0x100);
  }

  lemma {:induction false} FewerSame(x: Word, y: Word, i: nat, k: nat)
    requires 1 <= i <= k <= 4 && Low(x, k) == Low(y, k)
    ensures Low(x, i) == Low(y, i)
    decreases k - i
  {
    if i < k {
      FewerBytes(x, k - 1);
      FewerBytes(y, k - 1);
      FewerSame(x, y, i, k - 1);
    }
  }

  lemma {:induction false} StoreAlike(a: Memory, b: Memory, addr: nat, ws: seq<Word>, ps: seq<ProgramHeader>)
    requires AllAlike(a, b, ps)
    ensures AllAlike(Store(a, addr, ws), Store(b, addr, ws), ps)
    decreases |ws|
  {
    if ws != [] {
      var k := addr % UINT32;
      StoreAlike(a[k := ws[0]], b[k := ws[0]], addr + 4, ws[1..], ps);
    }
  }

  /** Memories that agree but for earlier segments' ends, and then for one more. */
  lemma {:induction false} AlikeJoins(a: Memory, b: Memory, c: Memory, ps: seq<ProgramHeader>)
    requires ps != [] && ps[|ps| - 1].load && Alike(a, b, ps[|ps| - 1]) && AllAlike(b, c, ps[..|ps| - 1])
    ensures AllAlike(a, c, ps)
  {
    var p := ps[|ps| - 1];
    forall k | k in a.Keys
      ensures Low(a[k], Sure(ps, k)) == Low(c[k], Sure(ps, k))
    {
      FewerSame(b[k], c[k], Sure(ps, k), Sure(ps[..|ps| - 1], k));
      if k == LastPlace(p) {
        FewerSame(a[k], b[k], Sure(ps, k), TailBytes(p.memSize));
      }
    }
  }

  lemma {:induction false} AllLoad(m: Memory, elf: seq<Octet>, ps: seq<ProgramHeader>, dev: nat, vectors: bool)
    requires dev > 0 && AllFaithful(ps, dev, vectors) && AllComplete(elf, ps)
    ensures AllAlike(Load(m, AllSections(elf, ps, dev, vectors)), IntendedAll(m, elf, ps, vectors), ps)
    decreases |ps|
  {
    if ps != [] {
      var before, p := ps[..|ps| - 1], ps[|ps| - 1];
      AllLoad(m, elf, before, dev, vectors);
      LoadConcat(m, AllSections(elf, before, dev, vectors), Sections(elf, p, dev, vectors));
      OneMoreLoads(Load(m, AllSections(elf, before, dev, vectors)), IntendedAll(m, elf, before, vectors), elf, ps, dev,
                   vectors);
    }
  }

  lemma {:induction false} OneMoreLoads(a: Memory, b: Memory, elf: seq<Octet>, ps: seq<ProgramHeader>, dev: nat,
                                        vectors: bool)
    requires dev > 0 && ps != [] && AllAlike(a, b, ps[..|ps| - 1]) && WellFormed(ps[|ps| - 1])
    requires Complete(elf, ps[|ps| - 1]) && (ps[|ps| - 1].load ==> Faithful(ps[|ps| - 1], dev, vectors))
    ensures var p := ps[|ps| - 1]; AllAlike(Load(a, Sections(elf, p, dev, vectors)), Intended(b, elf, p, vectors), ps)
  {
    var p := ps[|ps| - 1];
    if p.load {
      SegmentRight(a, elf, p, dev, vectors);
      IntendedAlike(a, b, elf, p, vectors, ps[..|ps| - 1]);
      AlikeJoins(Load(a, Sections(elf, p, dev, vectors)), Intended(a, elf, p, vectors), Intended(b, elf, p, vectors),
                 ps);
    } else {
      forall k | k in a.Keys
        ensures Low(a[k], Sure(ps, k)) == Low(b[k], Sure(ps, k))
      {
        assert Sure(ps, k) == Sure(ps[..|ps| - 1], k);
      }
    }
  }

  lemma {:induction false} IntendedAlike(a: Memory, b: Memory, elf: seq<Octet>, p: ProgramHeader, vectors: bool,
                                         ps: seq<ProgramHeader>)
    requires AllAlike(a, b, ps)
    ensures AllAlike(Intended(a, elf, p, vectors), Intended(b, elf, p, vectors), ps)
  {
    var s := Stripped(p, vectors);
    if p.load && MemWords(p) > s {
      StoreAlike(a, b, p.vaddr + 4 * s, Wanted(elf, p.offset, p.fileSize, MemWords(p))[s..], ps);
    }
  }

  lemma {:induction false} SureWholly(ps: seq<ProgramHeader>, k: nat)
    requires forall i :: 0 <= i < |ps| ==> ps[i].memSize % 4 == 0
    ensures Sure(ps, k) == 4
    decreases |ps|
  {
    if ps != [] {
      SureWholly(ps[..|ps| - 1], k);
      assert ps[|ps| - 1].memSize % 4 == 0;
    }
  }

  /** Where no segment ends inside a word the memories are the same. */
  lemma {:induction false} AlikeWholly(a: Memory, b: Memory, ps: seq<ProgramHeader>)
    requires AllAlike(a, b, ps) && forall i :: 0 <= i < |ps| ==> ps[i].memSize % 4 == 0
    ensures a == b
  {
    forall k | k in a.Keys
      ensures a[k] == b[k]
    {
      SureWholly(ps, k);
    }
  }

  /**
   * Converting and booting. The image parses, in one way only, to the entry point, a checksum that is the sum of all
   * payload words mod 2^32, and sections whose loading gives what the faithful segments ask for, in order; not a byte
   * is otherwise if they all end with a word.
   */
  lemma {:induction false} BootsAsLinked(m: Memory, elf: seq<Octet>, ps: seq<ProgramHeader>, entry: Word, dev: nat,
                                         vectors: bool)
    requires dev > 0
    ensures var r := Parse(ImageOf(elf, ps, entry, dev, vectors));
            && r.Some? && r.value.entry == entry && r.value.checksum == Wrap(Sum(Payload(r.value.sections)))
            && (AllFaithful(ps, dev, vectors) && AllComplete(elf, ps) ==>
                  var got, want := Load(m, r.value.sections), IntendedAll(m, elf, ps, vectors);
                  && AllAlike(got, want, ps)
                  && ((forall i :: 0 <= i < |ps| ==> ps[i].memSize % 4 == 0) ==> got == want))
  {
    AllEncodable(elf, ps, dev, vectors);
    var ss := AllSections(elf, ps, dev, vectors);
    ParseEncoded(ss, entry, Wrap(Sum(Payload(ss))));
    if AllFaithful(ps, dev, vectors) && AllComplete(elf, ps) {
      AllLoad(m, elf, ps, dev, vectors);
      if forall i :: 0 <= i < |ps| ==> ps[i].memSize % 4 == 0 {
        AlikeWholly(Load(m, ss), IntendedAll(m, elf, ps, vectors), ps);
      }
    }
  }
}
