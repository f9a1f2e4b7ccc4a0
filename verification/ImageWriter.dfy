/** elf2img's writer: nested loops that copy each segment through a 2048-word buffer and add up the checksum. */
module ImageWriter {
  import opened Words
  import opened ImageSpec
  import opened ImageLoad

  const BUFFER := 2048

  /** The EEPROM sizes in words, by the three size bits of the I2C configuration byte. */
  const DEVICE_SIZES: seq<nat> := [0x0100, 0x0200, 0x0400, 0x0800, 0x1000, 0x2000, 0x4000, 0x4000]

  /** 1 KB for code 0, twice as much for each further code up to 6; 64 KB is the most a section may have. */
  lemma {:induction false} SizesDouble(k: nat)
    requires k < 8
    ensures DEVICE_SIZES[k] == if k <= 6 then 0x100 * Pow2(k) else 0x4000
  {
    assert Pow2(3) == 8 && Pow2(6) == 64;
  }

  // ---- where the copying stands ------------------------------------------------------------

  function Min(a: nat, b: nat): nat {
    if a < b then a else b
  }

  /** The file position p reads as position q does: they are equal, or p is past the last whole word and before q. */
  ghost predicate SamePlace(elf: seq<Octet>, p: nat, q: nat) {
    p == q || (p <= q && |elf| < p + 4)
  }

  /** A chunk being copied: the file bytes, where its file part begins, how much of it is valid, and its size. */
  datatype Copying = Copying(elf: seq<Octet>, at: nat, valid: nat, load: nat)

  function Target(c: Copying): (ws: seq<Word>)
    ensures |ws| == c.load
  {
    Padded(c.elf, c.at, c.valid, c.load)
  }

  /** After `done` words: the position, and the count still to be read, exact unless the file has run out. */
  ghost predicate Reading(c: Copying, done: nat, v: nat, p: nat) {
    match c
    case Copying(elf, at, valid, load) =>
      && done <= load && valid <= load
      && SamePlace(elf, p, at + 4 * Min(done, valid))
      && (v == valid - Min(done, valid) || |elf| < p + 4)
  }

  /** A read of `asked` words at byte `at` that got `count` of them. */
  datatype Fetch = Fetch(elf: seq<Octet>, at: nat, asked: nat, count: nat)

  /** The words are at the front of a cleared buffer; fewer than asked for only at the end of the file. */
  ghost predicate ReadInto(f: Fetch, buffer: seq<Word>) {
    match f
    case Fetch(elf, p, n, count) =>
      && count <= n <= |buffer|
      && (count == n || |elf| < p + 4 * count + 4) && (count > 0 ==> p + 4 * count <= |elf|)
      && (forall j :: 0 <= j < count ==> buffer[j] == FileWord(elf, p + 4 * j))
      && (forall j :: count <= j < |buffer| ==> buffer[j] == 0)
  }

  lemma {:induction false} PieceCopied(c: Copying, done: nat, v: nat, p: nat, count: nat, buffer: seq<Word>)
    requires Reading(c, done, v, p) && ReadInto(Fetch(c.elf, p, Min(v, BUFFER), count), buffer) && |buffer| == BUFFER
    ensures var n := Min(c.load - done, BUFFER);
            count <= n && count <= v && Reading(c, done + n, v - count, p + 4 * count)
  {
  }

  lemma {:induction false} PieceRead(c: Copying, done: nat, v: nat, p: nat, count: nat, buffer: seq<Word>)
    requires Reading(c, done, v, p) && ReadInto(Fetch(c.elf, p, Min(v, BUFFER), count), buffer) && |buffer| == BUFFER
    ensures var n := Min(c.load - done, BUFFER); buffer[..n] == Target(c)[done..done + n]
  {
  }

  lemma {:induction false} AddMod(a: nat, s: nat, w: nat, t: nat)
    requires t == s + w
    ensures Wrap(Wrap(a + s) + w) == Wrap(a + t)
  {
  }

  lemma {:induction false} SumOne(ws: seq<Word>, i: nat)
    requires i < |ws|
    ensures Sum(ws[..i + 1]) == Sum(ws[..i]) + ws[i]
  {
    assert ws[..i + 1][..i] == ws[..i];
  }

  /** Adding only the words that were read adds up the whole piece, and the pieces add up to the chunk. */
  lemma {:induction false} SumPiece(ws: seq<Word>, done: nat, n: nat, buffer: seq<Word>, count: nat)
    requires done + n <= |ws| && count <= n <= |buffer| && buffer[..n] == ws[done..done + n]
    requires forall j :: count <= j < n ==> buffer[j] == 0
    ensures Sum(ws[..done + n]) == Sum(ws[..done]) + Sum(buffer[..count])
  {
    assert ws[..done + n] == ws[..done] + buffer[..n];
    SumConcat(ws[..done], buffer[..n]);
    assert buffer[..n] == buffer[..count] + buffer[count..n];
    SumConcat(buffer[..count], buffer[count..n]);
    SumZeros(buffer[count..n]);
  }

  /** The first `done` words of the chunk are in the image and in the checksum. */
  ghost predicate Copied(c: Copying, done: nat, img0: seq<Word>, sum0: nat, img: seq<Word>, checksum: nat) {
    match c
    case Copying(_, _, _, load) =>
      done <= load && img == img0 + Target(c)[..done] && checksum == Wrap(sum0 + Sum(Target(c)[..done]))
  }

  lemma {:induction false} Joined(img0: seq<Word>, ws: seq<Word>, done: nat, n: nat)
    requires done + n <= |ws|
    ensures img0 + ws[..done] + ws[done..done + n] == img0 + ws[..done + n]
  {
  }

  lemma {:induction false} CopiedOn(c: Copying, done: nat, img0: seq<Word>, sum0: nat, img: seq<Word>, checksum: nat,
                                    n: nat, piece: seq<Word>, sum: nat, checksum': nat)
    requires Copied(c, done, img0, sum0, img, checksum) && done + n <= c.load
    requires piece == Target(c)[done..done + n] && Sum(Target(c)[..done + n]) == Sum(Target(c)[..done]) + sum
    requires checksum' == Wrap(checksum + sum)
    ensures Copied(c, done + n, img0, sum0, img + piece, checksum')
  {
    Joined(img0, Target(c), done, n);
    AddMod(sum0, Sum(Target(c)[..done]), sum, Sum(Target(c)[..done + n]));
  }

  /** What one pass writes, and what the words it read add to the sum. */
  lemma {:induction false} PieceSum(c: Copying, done: nat, v: nat, p: nat, count: nat, buffer: seq<Word>, n: nat)
    requires Reading(c, done, v, p) && n == Min(c.load - done, BUFFER)
    requires |buffer| == BUFFER && ReadInto(Fetch(c.elf, p, Min(v, BUFFER), count), buffer)
    ensures count <= n && buffer[..n] == Target(c)[done..done + n]
    ensures Sum(Target(c)[..done + n]) == Sum(Target(c)[..done]) + Sum(buffer[..count])
  {
    PieceCopied(c, done, v, p, count, buffer);
    PieceRead(c, done, v, p, count, buffer);
    SumPiece(Target(c), done, n, buffer, count);
  }

  /** One pass of the copy loop, in all. */
  lemma {:induction false} PieceDone(c: Copying, done: nat, v: nat, p: nat, count: nat, buffer: seq<Word>, n: nat,
                                     img0: seq<Word>, sum0: nat, img: seq<Word>, checksum: nat, checksum': nat)
    requires Reading(c, done, v, p) && n == Min(c.load - done, BUFFER) && Copied(c, done, img0, sum0, img, checksum)
    requires |buffer| == BUFFER && ReadInto(Fetch(c.elf, p, Min(v, BUFFER), count), buffer)
    requires count <= BUFFER ==> checksum' == Wrap(checksum + Sum(buffer[..count]))
    ensures count <= v && Reading(c, done + n, v - count, p + 4 * count)
    ensures Copied(c, done + n, img0, sum0, img + buffer[..n], checksum')
  {
    PieceCopied(c, done, v, p, count, buffer);
    PieceSum(c, done, v, p, count, buffer, n);
    CopiedOn(c, done, img0, sum0, img, checksum, n, buffer[..n], Sum(buffer[..count]), checksum');
  }

  lemma {:induction false} NoneCopied(c: Copying, img: seq<Word>, checksum: Word)
    ensures Copied(c, 0, img, checksum, img, checksum)
  {
  }

  lemma {:induction false} AllCopied(c: Copying, img0: seq<Word>, sum0: nat, img: seq<Word>, checksum: nat)
    requires Copied(c, c.load, img0, sum0, img, checksum)
    ensures img == img0 + Target(c) && checksum == Wrap(sum0 + Sum(Target(c)))
  {
    assert Target(c)[..c.load] == Target(c);
  }

  /** The image so far and its checksum. */
  datatype Output = Output(img: seq<Word>, checksum: nat)

  /** Exactly these sections have been added to the image and to the checksum. */
  ghost predicate Emitted(before: Output, after: Output, ss: seq<Section>) {
    match after
    case Output(img, checksum) =>
      && Encodable(ss) && img == before.img + Encode(ss) && checksum == Wrap(before.checksum + Sum(Payload(ss)))
  }

  lemma {:induction false} NothingEmitted(o: Output)
    requires o.checksum < UINT32
    ensures Emitted(o, o, [])
  {
  }

  lemma {:induction false} ImageThen(a: Output, b: Output, c: Output, ss: seq<Section>, tt: seq<Section>)
    requires Emitted(a, b, ss) && Emitted(b, c, tt)
    ensures Encodable(ss + tt) && c.img == a.img + Encode(ss + tt)
  {
    EncodeConcat(ss, tt);
    Regrouped(a.img, Encode(ss), Encode(tt));
  }

  /** Two additions to a 32-bit sum are one. */
  lemma {:induction false} ChecksumThen(a: Output, b: Output, c: Output, ss: seq<Section>, tt: seq<Section>, u: nat)
    requires Emitted(a, b, ss) && Emitted(b, c, tt) && u == Sum(Payload(ss)) + Sum(Payload(tt))
    ensures c.checksum == Wrap(a.checksum + u)
  {
    AddMod(a.checksum, Sum(Payload(ss)), Sum(Payload(tt)), u);
  }

  lemma {:induction false} EmittedThen(a: Output, b: Output, c: Output, ss: seq<Section>, tt: seq<Section>)
    requires Emitted(a, b, ss) && Emitted(b, c, tt)
    ensures Emitted(a, c, ss + tt)
  {
    PayloadConcat(ss, tt);
    SumConcat(Payload(ss), Payload(tt));
    ImageThen(a, b, c, ss, tt);
    ChecksumThen(a, b, c, ss, tt, Sum(Payload(ss + tt)));
  }

  lemma {:induction false} EmittedOne(a: Output, c: Section, words: seq<Word>, checksum: nat)
    requires 0 < |c.words| < UINT32 && words == c.words && checksum == Wrap(a.checksum + Sum(c.words))
    ensures Emitted(a, Output(a.img + [|c.words|, c.addr] + words, checksum), [c])
  {
    assert Encode([c]) == [|c.words|, c.addr] + c.words;
    assert Payload([c]) == c.words;
    assert a.img + [|c.words|, c.addr] + words == a.img + Encode([c]);
  }

  /** What has been emitted of segment x when stretch y is still to go. */
  ghost predicate Written(elf: seq<Octet>, dev: nat, x: Extent, y: Extent, done: seq<Section>) {
    match y
    case Extent(_, _, mem, _) => dev > 0 && mem <= x.mem < UINT32 && Chunks(elf, x, dev) == done + Chunks(elf, y, dev)
  }

  lemma {:induction false} WrittenStart(elf: seq<Octet>, dev: nat, x: Extent)
    requires dev > 0 && x.mem < UINT32
    ensures Written(elf, dev, x, x, [])
  {
  }

  lemma {:induction false} WrittenChunk(elf: seq<Octet>, dev: nat, x: Extent, y: Extent, done: seq<Section>)
    requires Written(elf, dev, x, y, done) && 0 < y.mem
    ensures Written(elf, dev, x, NextExtent(y, dev), done + [FirstChunk(elf, y, dev)])
    ensures 0 < |FirstChunk(elf, y, dev).words| < UINT32
  {
  }

  lemma {:induction false} WrittenEnd(elf: seq<Octet>, dev: nat, x: Extent, y: Extent, done: seq<Section>)
    requires Written(elf, dev, x, y, done) && y.mem == 0
    ensures done == Chunks(elf, x, dev)
  {
  }

  lemma {:induction false} OneMoreHeader(elf: seq<Octet>, ps: seq<ProgramHeader>, i: nat, dev: nat, vectors: bool)
    requires dev > 0 && i < |ps|
    ensures AllSections(elf, ps[..i + 1], dev, vectors)
            == AllSections(elf, ps[..i], dev, vectors) + Sections(elf, ps[i], dev, vectors)
  {
    assert ps[..i + 1][..i] == ps[..i];
  }

  lemma {:induction false} ImageDone(elf: seq<Octet>, ps: seq<ProgramHeader>, entry: Word, dev: nat, vectors: bool,
                                     img: seq<Word>, checksum: Word)
    requires dev > 0 && Emitted(Output([], 0), Output(img, checksum), AllSections(elf, ps, dev, vectors))
    ensures img + [0, entry, checksum] == ImageOf(elf, ps, entry, dev, vectors)
  {
  }

  /** The sizes of the next chunk and what they leave. */
  method Split(memSz: nat, fileSz: nat, dev: nat) returns (loadSz: nat, validSz: nat, memLeft: nat, fileLeft: nat)
    ensures loadSz == (if memSz > dev then dev else memSz) && validSz == (if loadSz > fileSz then fileSz else loadSz)
    ensures memLeft == memSz - loadSz && fileLeft == if loadSz > fileSz then fileSz else fileSz - loadSz
  {
    memLeft, fileLeft := memSz, fileSz;
    if memLeft > dev {
      loadSz := dev;
      memLeft := memLeft - loadSz;
    } else {
      loadSz := memLeft;
      memLeft := 0;
    }
    if loadSz > fileLeft {
      validSz := fileLeft;
    } else {
      validSz := loadSz;
      fileLeft := fileLeft - validSz;
    }
  }

  // ---- what is kept of a segment -----------------------------------------------------------

  /** The sizes in words and the removal of the vector area, in 32-bit arithmetic. */
  method Trim(p: ProgramHeader, vectors: bool) returns (x: Option<Extent>)
    requires p.load
    ensures x == Kept(p, vectors) && (x.Some? ==> x.value.mem < UINT32)
  {
    var memSz: Word, fileSz: Word := (p.memSize + 3) % UINT32 / 4, (p.fileSize + 3) % UINT32 / 4;
    var secStart: Word, offset: Word := p.vaddr, p.offset;
    if secStart < VECTORS && !vectors {
      var strip: nat := VECTORS - secStart;
      if fileSz > strip / 4 {
        offset := (offset + strip) % UINT32;
        memSz := (memSz - strip / 4) % UINT32;
        fileSz := fileSz - strip / 4;
        secStart := VECTORS;
      } else {
        return None;
      }
    }
    x := Some(Extent(offset, secStart, memSz, fileSz));
  }

  // ---- the writer --------------------------------------------------------------------------

  class Writer {
    const elf: seq<Octet>
    const dev: nat                  // words per section at most
    const loadIntVectors: bool
    var pos: nat                    // the read position in the ELF file
    var img: seq<Word>              // what has been written after the four leading bytes
    var checksum: Word

    constructor (elf: seq<Octet>, i2cConf: Octet, vectors: bool)
      ensures this.elf == elf && loadIntVectors == vectors && img == [] && checksum == 0
      ensures var k := i2cConf / 2 % 8; dev == if k <= 6 then 0x100 * Pow2(k) else 0x4000
    {
      SizesDouble(i2cConf / 2 % 8);
      this.elf, loadIntVectors, dev := elf, vectors, DEVICE_SIZES[i2cConf / 2 % 8];
      pos, img, checksum := 0, [], 0;
    }

    method FRead(buffer: array<Word>, n: nat) returns (count: nat)
      requires n <= buffer.Length && forall j :: 0 <= j < buffer.Length ==> buffer[j] == 0
      modifies this`pos, buffer
      ensures ReadInto(Fetch(elf, old(pos), n, count), buffer[..]) && pos == old(pos) + 4 * count
    {
      count := 0;
      while count < n && pos + 4 <= |elf|
        invariant count <= n && pos == old(pos) + 4 * count && (count > 0 ==> pos <= |elf|)
        invariant forall j :: 0 <= j < count ==> buffer[j] == FileWord(elf, old(pos) + 4 * j)
        invariant forall j :: count <= j < buffer.Length ==> buffer[j] == 0
      {
        buffer[count] := FileWord(elf, pos);
        pos, count := pos + 4, count + 1;
      }
    }

    /** A cleared buffer with the valid words, if any, read into its front. */
    method Fill(buffer: array<Word>, n: nat) returns (count: nat)
      requires n <= buffer.Length
      modifies this`pos, buffer
      ensures ReadInto(Fetch(elf, old(pos), n, count), buffer[..]) && pos == old(pos) + 4 * count
    {
      count := 0;
      Clear(buffer);
      if n != 0 {
        count := FRead(buffer, n);
      }
    }

    /** `checksum += buffer[i]` for the words read. */
    method AddUp(buffer: array<Word>, count: nat)
      requires count <= buffer.Length
      modifies this`checksum
      ensures checksum == Wrap(old(checksum) + Sum(buffer[..][..count]))
    {
      ghost var ws := buffer[..];
      for i := 0 to count
        invariant checksum == Wrap(old(checksum) + Sum(ws[..i]))
      {
        SumOne(ws, i);
        AddMod(old(checksum), Sum(ws[..i]), buffer[i], Sum(ws[..i + 1]));
        checksum := Wrap(checksum + buffer[i]);
      }
    }

    method Clear(buffer: array<Word>)
      modifies buffer
      ensures forall j :: 0 <= j < buffer.Length ==> buffer[j] == 0
    {
      for i := 0 to buffer.Length
        invariant forall j :: 0 <= j < i ==> buffer[j] == 0
      {
        buffer[i] := 0;
      }
    }

    /** One pass of the copy loop: clear, read what is valid, add it up, write. */
    method CopyPiece(buffer: array<Word>, loadSz: nat, validSz: nat, ghost c: Copying, ghost done: nat,
                     ghost img0: seq<Word>, ghost sum0: nat)
      returns (actualRd: nat, actualWr: nat)
      requires buffer.Length == BUFFER && c.elf == elf && Reading(c, done, validSz, pos) && done + loadSz == c.load
      requires Copied(c, done, img0, sum0, img, checksum)
      modifies this`pos, this`img, this`checksum, buffer
      ensures actualWr == Min(loadSz, BUFFER) && actualRd <= validSz
              && Reading(c, done + actualWr, validSz - actualRd, pos)
      ensures Copied(c, done + actualWr, img0, sum0, img, checksum)
    {
      var readlen, writelen := Min(validSz, BUFFER), Min(loadSz, BUFFER);
      actualRd := Fill(buffer, readlen);
      ghost var words := buffer[..];
      AddUp(buffer, actualRd);
      PieceDone(c, done, validSz, old(pos), actualRd, words, writelen, img0, sum0, img, old(checksum), checksum);
      img := img + buffer[..writelen];
      actualWr := writelen;
    }

    /** Copies one chunk. */
    method CopyChunk(loadWords: nat, validWords: nat, ghost at: nat)
      requires validWords <= loadWords && SamePlace(elf, pos, at)
      modifies this`pos, this`img, this`checksum
      ensures SamePlace(elf, pos, at + 4 * validWords)
      ensures img == old(img) + Padded(elf, at, validWords, loadWords)
      ensures checksum == Wrap(old(checksum) + Sum(Padded(elf, at, validWords, loadWords)))
    {
      ghost var c := Copying(elf, at, validWords, loadWords);
      var buffer := new Word[BUFFER](i => 0);
      var loadSz, validSz := loadWords, validWords;
      ghost var done := 0;
      NoneCopied(c, img, checksum);
      while loadSz != 0
        invariant done + loadSz == loadWords && Reading(c, done, validSz, pos)
        invariant Copied(c, done, old(img), old(checksum), img, checksum)
      {
        var actualRd, actualWr := CopyPiece(buffer, loadSz, validSz, c, done, old(img), old(checksum));
        validSz, loadSz := validSz - actualRd, loadSz - actualWr;
        done := done + actualWr;
      }
      AllCopied(c, old(img), old(checksum), img, checksum);
    }

    ghost function Out(): Output
      reads this
    {
      Output(img, checksum)
    }

    /** One section: its length and address, then its words. */
    method WriteSection(loadSz: Word, validSz: nat, secStart: Word, ghost at: nat)
      requires validSz <= loadSz && loadSz > 0 && SamePlace(elf, pos, at)
      modifies this`pos, this`img, this`checksum
      ensures SamePlace(elf, pos, at + 4 * validSz)
      ensures Emitted(old(Out()), Out(), [Section(secStart, Padded(elf, at, validSz, loadSz))])
    {
      img := img + [loadSz, secStart];
      CopyChunk(loadSz, validSz, at);
      EmittedOne(old(Out()), Section(secStart, Padded(elf, at, validSz, loadSz)), Padded(elf, at, validSz, loadSz),
                 checksum);
    }

    /** One turn of the chunk loop: sizes the chunk, writes it, and moves on in memory and in the file. */
    method NextChunk(y: Extent, ghost x: Extent, ghost start: Output, ghost done: seq<Section>) returns (next: Extent)
      requires dev > 0 && y.mem > 0 && SamePlace(elf, pos, y.at)
      requires Written(elf, dev, x, y, done) && Emitted(start, Out(), done)
      modifies this`pos, this`img, this`checksum
      ensures next == NextExtent(y, dev) && SamePlace(elf, pos, next.at)
      ensures var done' := done + [FirstChunk(elf, y, dev)];
              Written(elf, dev, x, next, done') && Emitted(start, Out(), done')
    {
      WrittenChunk(elf, dev, x, y, done);
      var loadSz, validSz, memSz, fileSz := Split(y.mem, y.file, dev);
      WriteSection(loadSz, validSz, y.addr, y.at);
      EmittedThen(start, old(Out()), Out(), done, [FirstChunk(elf, y, dev)]);
      next := Extent(y.at + 4 * validSz, (y.addr + 4 * loadSz) % UINT32, memSz, fileSz);
    }

    /** The chunk loop over what is kept of a segment. */
    method CopySegment(x: Extent)
      requires dev > 0 && x.mem < UINT32 && x.at == pos
      modifies this`pos, this`img, this`checksum
      ensures Emitted(old(Out()), Out(), Chunks(elf, x, dev))
    {
      var y := x;
      ghost var done: seq<Section> := [];
      WrittenStart(elf, dev, x);
      NothingEmitted(Out());
      while y.mem != 0
        invariant SamePlace(elf, pos, y.at) && Written(elf, dev, x, y, done) && Emitted(old(Out()), Out(), done)
        decreases y.mem
      {
        ghost var more := done + [FirstChunk(elf, y, dev)];
        y := NextChunk(y, x, old(Out()), done);
        done := more;
      }
      WrittenEnd(elf, dev, x, y, done);
    }

    method ProcessProgHeader(p: ProgramHeader)
      requires dev > 0
      modifies this`pos, this`img, this`checksum
      ensures Emitted(old(Out()), Out(), Sections(elf, p, dev, loadIntVectors))
    {
      NothingEmitted(Out());
      if !p.load { return; }
      var x := Trim(p, loadIntVectors);
      if x.Some? {
        pos := x.value.at;
        CopySegment(x.value);
      }
    }

    /** All program headers in order, then the closing record with entry point and checksum. */
    method Convert(ps: seq<ProgramHeader>, entry: Word)
      requires dev > 0 && img == [] && checksum == 0
      modifies this`pos, this`img, this`checksum
      ensures img == ImageOf(elf, ps, entry, dev, loadIntVectors)
      ensures |img| >= 3 && img[|img| - 3..] == [0, entry, checksum]
    {
      NothingEmitted(Out());
      var i := 0;
      while i < |ps|
        invariant i <= |ps| && Emitted(old(Out()), Out(), AllSections(elf, ps[..i], dev, loadIntVectors))
      {
        ghost var before := Out();
        ProcessProgHeader(ps[i]);
        EmittedThen(old(Out()), before, Out(), AllSections(elf, ps[..i], dev, loadIntVectors),
                    Sections(elf, ps[i], dev, loadIntVectors));
        OneMoreHeader(elf, ps, i, dev, loadIntVectors);
        i := i + 1;
      }
      assert ps[..i] == ps;
      ImageDone(elf, ps, entry, dev, loadIntVectors, img, checksum);
      img := img + [0, entry, checksum];
    }
  }
}
