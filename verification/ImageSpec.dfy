/**
 * The FX3 boot image: how segments become sections of words, what a boot loader makes of them, and when the loaded
 * memory is what the ELF file asked for.
 */
module ImageSpec {
  import opened Words

  const VECTORS := 0x100

  /** The fields of an ELF program header that are used; `load` is PT_LOAD. */
  datatype ProgramHeader = ProgramHeader(load: bool, offset: Word, vaddr: Word, fileSize: Word, memSize: Word)

  /** One record of the image: its words and the address they are for. */
  datatype Section = Section(addr: Word, words: seq<Word>)

  // ---- the sections of a segment -----------------------------------------------------------

  /** The little-endian word at byte `at` of the file; nothing can be read where fewer than four bytes are left. */
  function FileWord(elf: seq<Octet>, at: nat): Word {
    if at + 4 <= |elf| then LittleEndian(elf[at], elf[at + 1], elf[at + 2], elf[at + 3]) else 0
  }

  function LittleEndian(b0: nat, b1: nat, b2: nat, b3: nat): nat {
    b0 + 0x100 * b1 + 0x1_0000 * b2 + 0x100_0000 * b3
  }

  /** `valid` words of the file from byte `at`, then zeros. */
  function Padded(elf: seq<Octet>, at: nat, valid: nat, load: nat): (ws: seq<Word>)
    ensures |ws| == load
  {
    seq(load, (j: nat) => if j < valid then FileWord(elf, at + 4 * j) else 0)
  }

  /** A stretch still to be written: its place in the file and in memory, and its two sizes in words. */
  datatype Extent = Extent(at: nat, addr: Word, mem: nat, file: nat)

  /** How many words the next chunk has: no more than the EEPROM allows. */
  function Loads(x: Extent, dev: nat): nat {
    if x.mem > dev then dev else x.mem
  }

  /** How many of them are read from the file. */
  function Valid(x: Extent, dev: nat): (n: nat)
    ensures n <= Loads(x, dev)
  {
    if Loads(x, dev) > x.file then x.file else Loads(x, dev)
  }

  function FirstChunk(elf: seq<Octet>, x: Extent, dev: nat): Section {
    Section(x.addr, Padded(elf, x.at, Valid(x, dev), Loads(x, dev)))
  }

  /** What is left after it; a chunk only partly in the file does not reduce the count of file words. */
  function NextExtent(x: Extent, dev: nat): Extent {
    Extent(x.at + 4 * Valid(x, dev), (x.addr + 4 * Loads(x, dev)) % UINT32, x.mem - Loads(x, dev),
           if Loads(x, dev) > x.file then x.file else x.file - Loads(x, dev))
  }

  function Chunks(elf: seq<Octet>, x: Extent, dev: nat): seq<Section>
    requires dev > 0
    decreases x.mem
  {
    if x.mem == 0 then [] else [FirstChunk(elf, x, dev)] + Chunks(elf, NextExtent(x, dev), dev)
  }

  /** `(size + 3) / 4` on unsigned 32-bit numbers. */
  function WordCount(size: Word): nat {
    (size + 3) % UINT32 / 4
  }

  /** The vector area is dropped unless asked for, and with it a segment whose file part does not reach past it. */
  function Kept(p: ProgramHeader, vectors: bool): Option<Extent> {
    var mem, file := WordCount(p.memSize), WordCount(p.fileSize);
    var strip := VECTORS - p.vaddr;
    if !p.load then None
    else if p.vaddr >= VECTORS || vectors then Some(Extent(p.offset, p.vaddr, mem, file))
    else if file > strip / 4 then
      Some(Extent((p.offset + strip) % UINT32, VECTORS, (mem - strip / 4) % UINT32, file - strip / 4))
    else None
  }

  function Sections(elf: seq<Octet>, p: ProgramHeader, dev: nat, vectors: bool): seq<Section>
    requires dev > 0
  {
    match Kept(p, vectors)
    case None => []
    case Some(x) => Chunks(elf, x, dev)
  }

  function AllSections(elf: seq<Octet>, ps: seq<ProgramHeader>, dev: nat, vectors: bool): seq<Section>
    requires dev > 0
    decreases |ps|
  {
    if ps == [] then [] else AllSections(elf, ps[..|ps| - 1], dev, vectors) + Sections(elf, ps[|ps| - 1], dev, vectors)
  }

  // ---- the image and its parser ------------------------------------------------------------

  function Encode(ss: seq<Section>): seq<Word>
    requires forall i :: 0 <= i < |ss| ==> |ss[i].words| < UINT32
  {
    if ss == [] then [] else [|ss[0].words|, ss[0].addr] + ss[0].words + Encode(ss[1..])
  }

  function Sum(ws: seq<Word>): nat {
    if ws == [] then 0 else Sum(ws[..|ws| - 1]) + ws[|ws| - 1]
  }

  function Payload(ss: seq<Section>): seq<Word> {
    if ss == [] then [] else ss[0].words + Payload(ss[1..])
  }

  /** What a boot loader reads: the sections, the entry point and the checksum. */
  datatype Image = Image(sections: seq<Section>, entry: Word, checksum: Word)

  function Trailer(entry: Word, checksum: Word): seq<Word> {
    [0, entry, checksum]
  }

  function Parse(img: seq<Word>): Option<Image>
    decreases |img|
  {
    if |img| < 3 then None
    else if img[0] == 0 then if |img| == 3 then Some(Image([], img[1], img[2])) else None
    else
      var n: nat := img[0];
      if |img| < 2 + n then None
      else match Parse(img[2 + n..])
        case None => None
        case Some(rest) => Some(rest.(sections := [Section(img[1], img[2..2 + n])] + rest.sections))
  }

  predicate Encodable(ss: seq<Section>) {
    forall i :: 0 <= i < |ss| ==> 0 < |ss[i].words| < UINT32
  }

  /** Parsing gives back what was encoded. */
  lemma {:induction false} ParseEncoded(ss: seq<Section>, entry: Word, checksum: Word)
    requires Encodable(ss)
    ensures Parse(Encode(ss) + Trailer(entry, checksum)) == Some(Image(ss, entry, checksum))
    decreases |ss|
  {
    var img := Encode(ss) + Trailer(entry, checksum);
    if ss != [] {
      var n := |ss[0].words|;
      assert img[0] == n && img[1] == ss[0].addr;
      assert img[2..2 + n] == ss[0].words;
      assert img[2 + n..] == Encode(ss[1..]) + Trailer(entry, checksum);
      ParseEncoded(ss[1..], entry, checksum);
      assert [ss[0]] + ss[1..] == ss;
    }
  }

  /** One section in an image, word by word: its length, its address, its words; then zero, entry point and checksum. */
  lemma {:induction false} OneSection(c: Section, entry: Word, checksum: Word)
    requires 0 < |c.words| < UINT32
    ensures Encode([c]) + Trailer(entry, checksum) == [|c.words|, c.addr] + c.words + [0, entry, checksum]
  {
    assert [c][1..] == [];
  }

  lemma {:induction false} ParseStep(img: seq<Word>, n: nat)
    requires Parse(img).Some? && img[0] == n > 0
    ensures 2 + n <= |img| && Parse(img[2 + n..]).Some?
    ensures var x, rest := Parse(img).value, Parse(img[2 + n..]).value;
            x == rest.(sections := [Section(img[1], img[2..2 + n])] + rest.sections)
  {
  }

  lemma {:induction false} EncodeStep(c: Section, ss: seq<Section>)
    requires 0 < |c.words| < UINT32 && Encodable(ss)
    ensures Encodable([c] + ss) && Encode([c] + ss) == [|c.words|, c.addr] + c.words + Encode(ss)
  {
    assert ([c] + ss)[1..] == ss;
  }

  lemma {:induction false} HeadAndRest(img: seq<Word>, n: nat, rest: seq<Word>)
    requires 2 + n <= |img| && img[0] == n && rest == img[2 + n..]
    ensures img == [n, img[1]] + img[2..2 + n] + rest
  {
  }

  /** What an image says, encoded again. */
  function Reencoded(x: Image): seq<Word>
    requires Encodable(x.sections)
  {
    Encode(x.sections) + Trailer(x.entry, x.checksum)
  }

  lemma {:induction false} ReencodedStep(img: seq<Word>, n: nat, x: Image, rest: Image)
    requires 2 + n <= |img| && img[0] == n > 0 && Encodable(rest.sections) && Reencoded(rest) == img[2 + n..]
    requires x == rest.(sections := [Section(img[1], img[2..2 + n])] + rest.sections)
    ensures Encodable(x.sections) && Reencoded(x) == img
  {
    EncodeStep(Section(img[1], img[2..2 + n]), rest.sections);
    Regrouped([n, img[1]] + img[2..2 + n], Encode(rest.sections), Trailer(rest.entry, rest.checksum));
    HeadAndRest(img, n, Reencoded(rest));
  }

  /** And nothing else parses: an image has one reading, whose encoding is the image. */
  lemma {:induction false} ParseUnambiguous(img: seq<Word>)
    requires Parse(img).Some?
    ensures Encodable(Parse(img).value.sections) && Reencoded(Parse(img).value) == img
    decreases |img|
  {
    if img[0] != 0 {
      var n: nat := img[0];
      ParseStep(img, n);
      ParseUnambiguous(img[2 + n..]);
      ReencodedStep(img, n, Parse(img).value, Parse(img[2 + n..]).value);
    } else {
      assert img == Trailer(img[1], img[2]);
    }
  }

  lemma {:induction false} Regrouped(a: seq<Word>, b: seq<Word>, c: seq<Word>)
    ensures a + b + c == a + (b + c)
  {
  }

  lemma {:induction false} EncodeConcat(a: seq<Section>, b: seq<Section>)
    requires Encodable(a) && Encodable(b)
    ensures Encodable(a + b) && Encode(a + b) == Encode(a) + Encode(b)
    decreases |a|
  {
    if a == [] {
      assert a + b == b;
    } else {
      var c, rest := a[0], a[1..];
      assert a == [c] + rest && a + b == [c] + (rest + b);
      EncodeConcat(rest, b);
      calc {
        Encode(a + b);
        { EncodeStep(c, rest + b); }
        [|c.words|, c.addr] + c.words + Encode(rest + b);
        [|c.words|, c.addr] + c.words + (Encode(rest) + Encode(b));
        { Regrouped([|c.words|, c.addr] + c.words, Encode(rest), Encode(b)); }
        [|c.words|, c.addr] + c.words + Encode(rest) + Encode(b);
        { EncodeStep(c, rest); }
        Encode(a) + Encode(b);
      }
    }
  }

  lemma {:induction false} PayloadConcat(a: seq<Section>, b: seq<Section>)
    ensures Payload(a + b) == Payload(a) + Payload(b)
    decreases |a|
  {
    if a == [] {
      assert a + b == b;
    } else {
      assert (a + b)[1..] == a[1..] + b && (a + b)[0] == a[0];
      PayloadConcat(a[1..], b);
    }
  }

  lemma {:induction false} SumConcat(a: seq<Word>, b: seq<Word>)
    ensures Sum(a + b) == Sum(a) + Sum(b)
    decreases |b|
  {
    if b == [] {
      assert a + b == a;
    } else {
      assert (a + b)[..|a + b| - 1] == a + b[..|b| - 1];
      SumConcat(a, b[..|b| - 1]);
    }
  }

  lemma {:induction false} SumZeros(ws: seq<Word>)
    requires forall j :: 0 <= j < |ws| ==> ws[j] == 0
    ensures Sum(ws) == 0
    decreases |ws|
  {
    if ws != [] {
      SumZeros(ws[..|ws| - 1]);
    }
  }

  lemma {:induction false} ChunksEncodable(elf: seq<Octet>, x: Extent, dev: nat)
    requires dev > 0 && x.mem < UINT32
    ensures Encodable(Chunks(elf, x, dev))
    decreases x.mem
  {
    if x.mem > 0 {
      ChunksEncodable(elf, NextExtent(x, dev), dev);
    }
  }

  lemma {:induction false} AllEncodable(elf: seq<Octet>, ps: seq<ProgramHeader>, dev: nat, vectors: bool)
    requires dev > 0
    ensures Encodable(AllSections(elf, ps, dev, vectors))
    decreases |ps|
  {
    if ps != [] {
      AllEncodable(elf, ps[..|ps| - 1], dev, vectors);
      SectionsEncodable(elf, ps[|ps| - 1], dev, vectors);
    }
  }

  lemma {:induction false} SectionsEncodable(elf: seq<Octet>, p: ProgramHeader, dev: nat, vectors: bool)
    requires dev > 0
    ensures Encodable(Sections(elf, p, dev, vectors))
  {
    match Kept(p, vectors)
    case None =>
    case Some(x) => ChunksEncodable(elf, x, dev);
  }

  // ---- loading -----------------------------------------------------------------------------

  type Memory = map<nat, Word>

  /** Words stored one after another, the address wrapping at 32 bits. */
  function Store(m: Memory, addr: nat, ws: seq<Word>): Memory
    decreases |ws|
  {
    if ws == [] then m else Store(m[addr % UINT32 := ws[0]], addr + 4, ws[1..])
  }

  function Load(m: Memory, ss: seq<Section>): Memory
    decreases |ss|
  {
    if ss == [] then m else Load(Store(m, ss[0].addr, ss[0].words), ss[1..])
  }

  lemma {:induction false} StoreConcat(m: Memory, addr: nat, u: seq<Word>, v: seq<Word>)
    ensures Store(m, addr, u + v) == Store(Store(m, addr, u), addr + 4 * |u|, v)
    decreases |u|
  {
    if u == [] {
      assert u + v == v;
    } else {
      assert (u + v)[1..] == u[1..] + v;
      StoreConcat(m[addr % UINT32 := u[0]], addr + 4, u[1..], v);
    }
  }

  lemma {:induction false} StoreWraps(m: Memory, a: nat, b: nat, ws: seq<Word>)
    requires a % UINT32 == b % UINT32
    ensures Store(m, a, ws) == Store(m, b, ws)
    decreases |ws|
  {
    if ws != [] {
      NextWraps(a, b);
      StoreWraps(m[a % UINT32 := ws[0]], a + 4, b + 4, ws[1..]);
    }
  }

  lemma {:induction false} NextWraps(a: nat, b: nat)
    requires a % UINT32 == b % UINT32
    ensures (a + 4) % UINT32 == (b + 4) % UINT32
  {
  }

  /** A stored word can be read back, as long as the store does not run once round the address space. */
  lemma {:induction false} StoreAt(m: Memory, addr: nat, ws: seq<Word>, j: nat)
    requires j < |ws| <= 0x4000_0000
    ensures (addr + 4 * j) % UINT32 in Store(m, addr, ws) && Store(m, addr, ws)[(addr + 4 * j) % UINT32] == ws[j]
    decreases |ws|
  {
    if j > 0 {
      StoreAt(m[addr % UINT32 := ws[0]], addr + 4, ws[1..], j - 1);
    } else {
      StoreKeeps(m[addr % UINT32 := ws[0]], addr + 4, ws[1..], addr % UINT32);
    }
  }

  lemma {:induction false} StoreKeeps(m: Memory, addr: nat, ws: seq<Word>, a: nat)
    requires a in m && forall j :: 0 <= j < |ws| ==> Place(addr, j) != a
    ensures a in Store(m, addr, ws) && Store(m, addr, ws)[a] == m[a]
    decreases |ws|
  {
    if ws != [] {
      assert Place(addr, 0) != a;
      LaterPlaces(addr, addr + 4, |ws|, a);
      StoreKeeps(m[addr % UINT32 := ws[0]], addr + 4, ws[1..], a);
    }
  }

  lemma {:induction false} LaterPlaces(addr: nat, next: nat, n: nat, a: nat)
    requires next == addr + 4 && forall j :: 0 <= j < n ==> Place(addr, j) != a
    ensures forall j :: 0 <= j < n - 1 ==> Place(next, j) != a
  {
    forall j | 0 <= j < n - 1
      ensures Place(next, j) != a
    {
      assert Place(next, j) == Place(addr, j + 1);
    }
  }

  function Place(addr: nat, j: int): int {
    (addr + 4 * j) % UINT32
  }

  // ---- chunking ----------------------------------------------------------------------------

  lemma {:induction false} ChunksStep(elf: seq<Octet>, x: Extent, dev: nat)
    requires dev > 0 && x.mem > 0
    ensures var rest := Chunks(elf, NextExtent(x, dev), dev);
            && Chunks(elf, x, dev) == [FirstChunk(elf, x, dev)] + rest && Chunks(elf, x, dev)[1..] == rest
            && Payload(Chunks(elf, x, dev)) == FirstChunk(elf, x, dev).words + Payload(rest)
  {
  }

  lemma {:induction false} LoadJoined(m: Memory, first: Section, rest: seq<Section>, next: nat, ws: seq<Word>)
    requires Load(Store(m, first.addr, first.words), rest) == Store(Store(m, first.addr, first.words), next, ws)
    requires next % UINT32 == (first.addr + 4 * |first.words|) % UINT32
    ensures Load(m, [first] + rest) == Store(m, first.addr, first.words + ws)
  {
    assert ([first] + rest)[1..] == rest;
    StoreConcat(m, first.addr, first.words, ws);
    StoreWraps(Store(m, first.addr, first.words), next, first.addr + 4 * |first.words|, ws);
  }

  lemma {:induction false} NextAddr(x: Extent, dev: nat)
    ensures NextExtent(x, dev).addr % UINT32 == (x.addr + 4 * Loads(x, dev)) % UINT32
  {
  }

  /** Loading the chunks one by one is storing their words in one go: the chunk addresses follow on, wrap and all. */
  lemma {:induction false} ChunksLoad(m: Memory, elf: seq<Octet>, x: Extent, dev: nat)
    requires dev > 0
    ensures Load(m, Chunks(elf, x, dev)) == Store(m, x.addr, Payload(Chunks(elf, x, dev)))
    decreases x.mem
  {
    if x.mem > 0 {
      ChunksStep(elf, x, dev);
      var first, next := FirstChunk(elf, x, dev), NextExtent(x, dev);
      ChunksLoad(Store(m, x.addr, first.words), elf, next, dev);
      NextAddr(x, dev);
      LoadJoined(m, first, Chunks(elf, next, dev), next.addr, Payload(Chunks(elf, next, dev)));
    }
  }

  lemma {:induction false} ChunksLength(elf: seq<Octet>, x: Extent, dev: nat)
    requires dev > 0
    ensures |Payload(Chunks(elf, x, dev))| == x.mem
    decreases x.mem
  {
    if x.mem > 0 {
      ChunksStep(elf, x, dev);
      ChunksLength(elf, NextExtent(x, dev), dev);
    }
  }

  lemma {:induction false} WrapsOn(a: nat, b: nat)
    ensures (a % UINT32 + b) % UINT32 == (a + b) % UINT32
  {
  }

  lemma {:induction false} OneLess(k: nat, dev: nat)
    requires k > 0
    ensures k * dev - dev == (k - 1) * dev && k * dev >= dev
  {
  }

  lemma {:induction false} LaterChunk(elf: seq<Octet>, x: Extent, dev: nat, k: nat)
    requires 0 < dev < x.mem && 0 < k
    ensures var next := NextExtent(x, dev);
            && next.mem == x.mem - dev && next.addr == (x.addr + 4 * dev) % UINT32
            && (k - 1 < |Chunks(elf, next, dev)| ==>
                  k < |Chunks(elf, x, dev)| && Chunks(elf, x, dev)[k] == Chunks(elf, next, dev)[k - 1])
  {
    ChunksStep(elf, x, dev);
  }

  lemma {:induction false} FirstIs(elf: seq<Octet>, x: Extent, dev: nat)
    requires 0 < dev && 0 < x.mem
    ensures |Chunks(elf, x, dev)| > 0 && Chunks(elf, x, dev)[0] == FirstChunk(elf, x, dev)
  {
  }

  /**
   * How a stretch is cut: section k begins n = k * dev words on, at the address that follows, and every section but the
   * last has as many words as allowed.
   */
  lemma {:induction false} ChunkAt(elf: seq<Octet>, x: Extent, dev: nat, k: nat, n: nat)
    requires dev > 0 && n == k * dev && n < x.mem
    ensures k < |Chunks(elf, x, dev)|
    ensures Chunks(elf, x, dev)[k].addr == (x.addr + 4 * n) % UINT32
    ensures |Chunks(elf, x, dev)[k].words| == if x.mem - n > dev then dev else x.mem - n
    decreases k
  {
    if k > 0 {
      OneLess(k, dev);
      LaterChunk(elf, x, dev, k);
      ChunkAt(elf, NextExtent(x, dev), dev, k - 1, n - dev);
      WrapsOn(x.addr + 4 * dev, 4 * (n - dev));
    } else {
      FirstIs(elf, x, dev);
    }
  }

  /** No chunk follows one that is only partly in the file. */
  predicate ChunksFit(mem: nat, file: nat, dev: nat)
    requires dev > 0
  {
    file % dev == 0 || mem <= dev * (file / dev + 1)
  }

  lemma {:induction false} QuotientLess(n: nat, d: nat)
    requires 0 < d <= n
    ensures (n - d) / d == n / d - 1 && (n - d) % d == n % d
  {
    QuotientIs(n - d, d, n / d - 1, n % d);
  }

  lemma {:induction false} OneChunkLess(mem: nat, file: nat, dev: nat)
    requires 0 < dev <= file && dev <= mem
    ensures ChunksFit(mem, file, dev) <==> ChunksFit(mem - dev, file - dev, dev)
  {
    QuotientLess(file, dev);
    assert dev * (file / dev + 1) == dev * (file / dev) + dev;
  }

  lemma {:induction false} ShortFile(mem: nat, file: nat, dev: nat)
    requires file < dev
    ensures ChunksFit(mem, file, dev) <==> file == 0 || mem <= dev
  {
  }

  lemma {:induction false} OneChunkFits(mem: nat, file: nat, dev: nat)
    requires 0 < dev && mem <= dev
    ensures ChunksFit(mem, file, dev)
  {
  }

  /** Fitting carries over to what is left after a chunk. */
  lemma {:induction false} FitCarries(x: Extent, dev: nat)
    requires dev > 0 && x.mem > dev
    ensures ChunksFit(x.mem, x.file, dev) ==> x.file >= dev || x.file == 0
    ensures x.file >= dev || x.file == 0 ==>
              var y := NextExtent(x, dev); ChunksFit(x.mem, x.file, dev) <==> ChunksFit(y.mem, y.file, dev)
  {
    if x.file >= dev {
      OneChunkLess(x.mem, x.file, dev);
    } else {
      ShortFile(x.mem, x.file, dev);
      ShortFile(x.mem - dev, x.file, dev);
    }
  }

  lemma {:induction false} PaddedSplit(elf: seq<Octet>, at: nat, file: nat, mem: nat, dev: nat)
    requires dev <= mem && (file >= dev || file == 0)
    ensures var v := if dev > file then file else dev;
            Padded(elf, at, v, dev) + Padded(elf, at + 4 * v, file - v, mem - dev) == Padded(elf, at, file, mem)
  {
  }

  /** Then the chunks hold the segment's file words followed by zeros. */
  lemma {:induction false} ChunksRight(elf: seq<Octet>, x: Extent, dev: nat)
    requires dev > 0 && ChunksFit(x.mem, x.file, dev)
    ensures Payload(Chunks(elf, x, dev)) == Padded(elf, x.at, x.file, x.mem)
    decreases x.mem
  {
    if x.mem > 0 {
      ChunksStep(elf, x, dev);
      if x.mem <= dev {
        assert Chunks(elf, NextExtent(x, dev), dev) == [];
        assert Padded(elf, x.at, Valid(x, dev), x.mem) == Padded(elf, x.at, x.file, x.mem);
      } else {
        FitCarries(x, dev);
        ChunksRight(elf, NextExtent(x, dev), dev);
        PaddedSplit(elf, x.at, x.file, x.mem, dev);
      }
    }
  }

  /** Right after a partly filled chunk comes a word from beyond the segment's file part. */
  lemma {:induction false} ChunkAfterPart(elf: seq<Octet>, x: Extent, dev: nat)
    requires 0 < x.file < dev < x.mem
    ensures dev < |Payload(Chunks(elf, x, dev))|
            && Payload(Chunks(elf, x, dev))[dev] == FileWord(elf, x.at + 4 * x.file)
  {
    var next := NextExtent(x, dev);
    ChunksStep(elf, x, dev);
    ChunksStep(elf, next, dev);
    assert FirstChunk(elf, next, dev).words[0] == FileWord(elf, next.at);
  }

  /**
   * Otherwise they do not: the chunk after the partly filled one takes in words from beyond the segment's file
   * part, because the count of file words left is not reduced. Word j, to be zero, is the first of them.
   */
  lemma {:induction false} ChunksWrong(elf: seq<Octet>, x: Extent, dev: nat) returns (j: nat)
    requires dev > 0 && !ChunksFit(x.mem, x.file, dev)
    ensures x.file <= j < |Payload(Chunks(elf, x, dev))| == x.mem
    ensures Payload(Chunks(elf, x, dev))[j] == FileWord(elf, x.at + 4 * x.file)
    decreases x.mem
  {
    if x.mem <= dev {
      OneChunkFits(x.mem, x.file, dev);
    }
    ChunksLength(elf, x, dev);
    FitCarries(x, dev);
    if x.file >= dev {
      var i := ChunksWrong(elf, NextExtent(x, dev), dev);
      ChunkAfterFull(elf, x, dev, i);
      j := dev + i;
    } else {
      ShortFile(x.mem, x.file, dev);
      ChunkAfterPart(elf, x, dev);
      j := dev;
    }
  }

  /** After a full chunk the rest follows, with the same end of the file part. */
  lemma {:induction false} ChunkAfterFull(elf: seq<Octet>, x: Extent, dev: nat, i: nat)
    requires 0 < dev <= x.file && dev < x.mem && i < |Payload(Chunks(elf, NextExtent(x, dev), dev))|
    ensures var next := NextExtent(x, dev);
            && next.mem == x.mem - dev && next.file == x.file - dev && next.at + 4 * next.file == x.at + 4 * x.file
            && dev + i < |Payload(Chunks(elf, x, dev))|
            && Payload(Chunks(elf, x, dev))[dev + i] == Payload(Chunks(elf, next, dev))[i]
  {
    ChunksStep(elf, x, dev);
  }
}
