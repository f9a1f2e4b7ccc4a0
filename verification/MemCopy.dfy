/** CyU3PMemCopy over one flat byte memory, in which source and destination may overlap in any way. */
module MemCopy {

  type Byte = b: nat | b < 0x100

  /** All bytes of [src, src+count) moved to [dest, dest+count) at once. */
  function Moved(m: seq<Byte>, dest: nat, src: nat, count: nat): seq<Byte>
    requires dest + count <= |m| && src + count <= |m|
  {
    m[..dest] + m[src..src + count] + m[dest + count..]
  }

  /** A transfer: the memory before it, and its three arguments. */
  datatype Transfer = Transfer(m: seq<Byte>, dest: nat, src: nat, count: nat) {
    predicate Valid() {
      dest + count <= |m| && src + count <= |m|
    }
  }

  /** What byte i reads once the destination bytes with offsets lo .. hi-1 hold their source bytes. */
  function Wanted(t: Transfer, lo: nat, hi: nat, i: nat): Byte
    requires t.Valid() && hi <= t.count && i < |t.m|
  {
    if t.dest + lo <= i < t.dest + hi then t.m[t.src + (i - t.dest)] else t.m[i]
  }

  /** Offsets lo .. hi-1 are done and every other byte is as it was. */
  ghost predicate Done(t: Transfer, now: seq<Byte>, lo: nat, hi: nat)
    requires t.Valid()
  {
    |now| == |t.m| && lo <= hi <= t.count && forall i :: 0 <= i < |now| ==> now[i] == Wanted(t, lo, hi, i)
  }

  /** From the end downwards with the destination above the source, the next source byte is still unharmed. */
  lemma {:induction false} StepDown(t: Transfer, now: seq<Byte>, lo: nat)
    requires t.Valid() && t.dest > t.src && 0 < lo && Done(t, now, lo, t.count)
    ensures Done(t, now[t.dest + lo - 1 := now[t.src + lo - 1]], lo - 1, t.count)
  {
  }

  /** From the start upwards with the destination not above the source, likewise. */
  lemma {:induction false} StepUp(t: Transfer, now: seq<Byte>, hi: nat)
    requires t.Valid() && t.dest <= t.src && hi < t.count && Done(t, now, 0, hi)
    ensures Done(t, now[t.dest + hi := now[t.src + hi]], 0, hi + 1)
  {
  }

  lemma {:induction false} AllDone(t: Transfer, now: seq<Byte>)
    requires t.Valid() && Done(t, now, 0, t.count)
    ensures now == Moved(t.m, t.dest, t.src, t.count)
  {
  }

  /** Moved, byte by byte: the destination gets the source's bytes, no other byte changes. */
  lemma {:induction false} MovedAt(m: seq<Byte>, dest: nat, src: nat, count: nat, i: nat)
    requires dest + count <= |m| && src + count <= |m| && i < |m|
    ensures |Moved(m, dest, src, count)| == |m|
    ensures Moved(m, dest, src, count)[i] == if dest <= i < dest + count then m[src + (i - dest)] else m[i]
  {
  }

  /** One byte, with what it does for the transfer under way. */
  method CopyDown(mem: array<Byte>, d: nat, s: nat, ghost t: Transfer, ghost lo: nat)
    requires t.Valid() && t.dest > t.src && 0 < lo && Done(t, mem[..], lo, t.count)
    requires d == t.dest + lo - 1 && s == t.src + lo - 1
    modifies mem
    ensures Done(t, mem[..], lo - 1, t.count)
  {
    StepDown(t, mem[..], lo);
    ghost var now := mem[..];
    mem[d] := mem[s];
    assert mem[..] == now[d := now[s]];
  }

  method CopyUp(mem: array<Byte>, d: nat, s: nat, ghost t: Transfer, ghost hi: nat)
    requires t.Valid() && t.dest <= t.src && hi < t.count && Done(t, mem[..], 0, hi)
    requires d == t.dest + hi && s == t.src + hi
    modifies mem
    ensures Done(t, mem[..], 0, hi + 1)
  {
    StepUp(t, mem[..], hi);
    ghost var now := mem[..];
    mem[d] := mem[s];
    assert mem[..] == now[d := now[s]];
  }

  /** Eight bytes downwards, in the order the unrolled loop body writes them. */
  method EightDown(mem: array<Byte>, dest: nat, src: nat, ghost t: Transfer, ghost lo: nat)
    requires t.Valid() && t.dest > t.src && 8 <= lo && Done(t, mem[..], lo, t.count)
    requires dest + 8 == t.dest + lo && src + 8 == t.src + lo
    modifies mem
    ensures Done(t, mem[..], lo - 8, t.count)
  {
    CopyDown(mem, dest + 7, src + 7, t, lo);
    CopyDown(mem, dest + 6, src + 6, t, lo - 1);
    CopyDown(mem, dest + 5, src + 5, t, lo - 2);
    CopyDown(mem, dest + 4, src + 4, t, lo - 3);
    CopyDown(mem, dest + 3, src + 3, t, lo - 4);
    CopyDown(mem, dest + 2, src + 2, t, lo - 5);
    CopyDown(mem, dest + 1, src + 1, t, lo - 6);
    CopyDown(mem, dest + 0, src + 0, t, lo - 7);
  }

  /** Eight bytes upwards. */
  method EightUp(mem: array<Byte>, dest: nat, src: nat, ghost t: Transfer, ghost hi: nat)
    requires t.Valid() && t.dest <= t.src && hi + 8 <= t.count && Done(t, mem[..], 0, hi)
    requires dest == t.dest + hi && src == t.src + hi
    modifies mem
    ensures Done(t, mem[..], 0, hi + 8)
  {
    CopyUp(mem, dest + 0, src + 0, t, hi);
    CopyUp(mem, dest + 1, src + 1, t, hi + 1);
    CopyUp(mem, dest + 2, src + 2, t, hi + 2);
    CopyUp(mem, dest + 3, src + 3, t, hi + 3);
    CopyUp(mem, dest + 4, src + 4, t, hi + 4);
    CopyUp(mem, dest + 5, src + 5, t, hi + 5);
    CopyUp(mem, dest + 6, src + 6, t, hi + 6);
    CopyUp(mem, dest + 7, src + 7, t, hi + 7);
  }

  /** The copy, both directions, unrolled by eight, equals the simultaneous move for every overlap. */
  method Copy(mem: array<Byte>, to: nat, from: nat, n: nat)
    requires to + n <= mem.Length && from + n <= mem.Length
    modifies mem
    ensures mem[..] == Moved(old(mem[..]), to, from, n)
  {
    ghost var t := Transfer(mem[..], to, from, n);
    var dest: nat, src: nat, count: nat := to, from, n;
    if dest > src {
      dest := dest + count;
      src := src + count;
      while count >= 8
        invariant count <= n && dest == to + count && src == from + count && Done(t, mem[..], count, n)
      {
        dest := dest - 8;
        src := src - 8;
        count := count - 8;
        EightDown(mem, dest, src, t, count + 8);
      }
      while count > 0
        invariant count <= n && dest == to + count && src == from + count && Done(t, mem[..], count, n)
      {
        dest := dest - 1;
        src := src - 1;
        count := count - 1;
        CopyDown(mem, dest, src, t, count + 1);
      }
    } else {
      while count >= 8
        invariant count <= n && dest == to + (n - count) && src == from + (n - count) && Done(t, mem[..], 0, n - count)
      {
        EightUp(mem, dest, src, t, n - count);
        dest := dest + 8;
        src := src + 8;
        count := count - 8;
      }
      while count > 0
        invariant count <= n && dest == to + (n - count) && src == from + (n - count) && Done(t, mem[..], 0, n - count)
      {
        CopyUp(mem, dest, src, t, n - count);
        dest := dest + 1;
        src := src + 1;
        count := count - 1;
      }
    }
    AllDone(t, mem[..]);
  }
}
