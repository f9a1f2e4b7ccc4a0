/** The debug formatter, which writes into a fixed buffer, and the debug text buffer behind READINFODEBUG. */
module DebugConsole {
  import opened Words
  import opened DebugSpec

  // ---- the formatter -----------------------------------------------------------------------

  /** What comes of message m from position i on, when `prefix` has been written so far. */
  function Rest(m: string, args: seq<Arg>, i: nat, max: nat, prefix: string): Option<string>
    requires ArgsMatch(m, args)
  {
    match Pieces(m, args)
    case None => None
    case Some(ps) => if Fits(ps, i, max) then Some(prefix + Joined(ps)) else None
  }

  lemma {:induction false} RestStart(m: string, args: seq<Arg>, max: nat)
    requires ArgsMatch(m, args)
    ensures Rest(m, args, 0, max, "") == Rendered(m, args, max)
  {
    if Pieces(m, args).Some? {
      assert "" + Joined(Pieces(m, args).value) == Joined(Pieces(m, args).value);
    }
  }

  lemma {:induction false} FirstPiece(p: string, ps: seq<string>, i: nat, max: nat, prefix: string)
    ensures Fits([p] + ps, i, max) <==> i + 2 < max && i + |p| + 2 <= max && Fits(ps, i + |p|, max)
    ensures prefix + Joined([p] + ps) == prefix + p + Joined(ps)
  {
  }

  /** One piece p off the front: out of room, or on with the rest. */
  lemma {:induction false} RestPiece(m: string, args: seq<Arg>, p: string, m': string, args': seq<Arg>, i: nat,
                                     max: nat, prefix: string)
    requires ArgsMatch(m, args) && ArgsMatch(m', args') && Pieces(m, args) == Prepend(p, Pieces(m', args'))
    ensures i + 2 >= max || i + |p| + 2 > max ==> Rest(m, args, i, max, prefix) == None
    ensures i + 2 < max && i + |p| + 2 <= max ==>
              Rest(m, args, i, max, prefix) == Rest(m', args', i + |p|, max, prefix + p)
  {
    if Pieces(m', args').Some? {
      FirstPiece(p, Pieces(m', args').value, i, max, prefix);
    }
  }

  lemma {:induction false} OutOfRoom(m: string, args: seq<Arg>, i: nat, max: nat, prefix: string)
    requires ArgsMatch(m, args) && m != "" && i + 2 >= max
    ensures Rest(m, args, i, max, prefix) == None
  {
  }

  /** `strcpy(debugMsg + i, s)`. */
  method CopyString(debugMsg: array<char>, i: nat, s: string)
    requires i + |s| < debugMsg.Length
    modifies debugMsg
    ensures debugMsg[..i + |s|] == old(debugMsg[..i]) + s && debugMsg[i + |s|] == '\0'
  {
    var k := 0;
    while k < |s|
      invariant k <= |s| && debugMsg[..i + k] == old(debugMsg[..i]) + s[..k]
    {
      debugMsg[i + k] := s[k];
      assert debugMsg[..i + k + 1] == debugMsg[..i + k] + [s[k]];
      k := k + 1;
    }
    debugMsg[i + |s|] := '\0';
  }

  /** One format item: where it leaves the message, the arguments and the write position, or why it stops. */
  datatype Item = Stop | Go(message: string, args: seq<Arg>, i: nat)

  /** An optional minus sign and a string, if they leave room for the terminator and one more. */
  method PutString(debugMsg: array<char>, i0: nat, minus: bool, argStr: string) returns (ok: bool, i: nat)
    requires i0 + 2 < debugMsg.Length && |argStr| < 65536
    modifies debugMsg
    ensures var p := if minus then "-" + argStr else argStr;
            && (ok <==> i0 + |p| + 2 <= debugMsg.Length)
            && (ok ==> i == i0 + |p| && debugMsg[..i] == old(debugMsg[..i0]) + p)
  {
    i := i0;
    if minus {
      debugMsg[i] := '-';
      i := i + 1;
    }
    assert debugMsg[..i] == old(debugMsg[..i0]) + if minus then "-" else "";
    var j := |argStr| % 65536;
    ok := i < debugMsg.Length - j - 1;
    if ok {
      CopyString(debugMsg, i, argStr);
      i := i + j;
    }
  }

  /** The item at the front of `message`: an ordinary character or a conversion. */
  method PutItem(debugMsg: array<char>, message: string, args: seq<Arg>, i0: nat) returns (r: Item)
    requires message != "" && ArgsMatch(message, args) && i0 + 2 < debugMsg.Length
    modifies debugMsg
    ensures r.Stop? ==> Rest(message, args, i0, debugMsg.Length, old(debugMsg[..i0])) == None
    ensures r.Go? ==>
              && |r.message| < |message| && ArgsMatch(r.message, r.args) && r.i + 2 <= debugMsg.Length
              && Rest(message, args, i0, debugMsg.Length, old(debugMsg[..i0]))
                 == Rest(r.message, r.args, r.i, debugMsg.Length, debugMsg[..r.i])
  {
    var i := i0;
    ghost var prefix := debugMsg[..i0];
    if message[0] != '%' {
      RestPiece(message, args, [message[0]], message[1..], args, i, debugMsg.Length, prefix);
      debugMsg[i] := message[0];
      assert debugMsg[..i + 1] == prefix + [message[0]];
      return Go(message[1..], args, i + 1);
    }
    if |message| == 1 { return Stop; }
    var c := message[1];
    if c == '%' {
      RestPiece(message, args, "%", message[2..], args, i, debugMsg.Length, prefix);
      debugMsg[i] := '%';
      assert debugMsg[..i + 1] == prefix + "%";
      return Go(message[2..], args, i + 1);
    }
    if !Converts(c) { return Stop; }
    RestPiece(message, args, Piece(c, args[0]), message[2..], args[1..], i, debugMsg.Length, prefix);
    if c == 'c' {
      debugMsg[i] := args[0].c;
      assert debugMsg[..i + 1] == prefix + [args[0].c];
      return Go(message[2..], args[1..], i + 1);
    }
    var ok;
    ok, i := PutString(debugMsg, i, c == 'd' && args[0].negative, if c == 's' then args[0].s else args[0].digits);
    if !ok { return Stop; }
    r := Go(message[2..], args[1..], i);
  }

  /** All of the message's text, terminated, or an error: never a part of it, and never past the buffer. */
  method MyDebugSNPrint(debugMsg: array<char>, message: string, args: seq<Arg>) returns (ok: bool, length: nat)
    requires ArgsMatch(message, args) && debugMsg.Length >= 2
    modifies debugMsg
    ensures ok <==> Rendered(message, args, debugMsg.Length).Some?
    ensures ok ==> length + 2 <= debugMsg.Length && debugMsg[length] == '\0'
    ensures ok ==> debugMsg[..length] == Rendered(message, args, debugMsg.Length).value
  {
    var m, a, i := message, args, 0;
    ok, length := false, 0;
    RestStart(message, args, debugMsg.Length);
    assert debugMsg[..0] == "";
    while m != ""
      invariant 0 <= i && i + 2 <= debugMsg.Length && ArgsMatch(m, a)
      invariant Rest(m, a, i, debugMsg.Length, debugMsg[..i]) == Rendered(message, args, debugMsg.Length)
      decreases |m|
    {
      if i >= debugMsg.Length - 2 {
        OutOfRoom(m, a, i, debugMsg.Length, debugMsg[..i]);
        return;
      }
      var item := PutItem(debugMsg, m, a, i);
      if item.Stop? { return; }
      m, a, i := item.message, item.args, item.i;
    }
    assert debugMsg[..i] + "" == debugMsg[..i];
    ghost var text := debugMsg[..i];
    debugMsg[i] := '\0';
    assert debugMsg[..i] == text;
    ok, length := true, i;
  }

  // ---- the text buffer ---------------------------------------------------------------------

  class DebugBuffer {
    const glBufDebug: array<char>
    var glDebTxtLen: nat
    var glIsApplnActive: bool
    var glFlagDebug: bool
    ghost var delivered: string
    ghost var accepted: string

    ghost predicate Valid()
      reads this, glBufDebug
    {
      glBufDebug.Length == SIZE && glDebTxtLen < SIZE && Lossless(Queue())
    }

    ghost function Queue(): Fifo
      requires glDebTxtLen <= glBufDebug.Length
      reads this, glBufDebug
    {
      Fifo(glBufDebug[..glDebTxtLen], delivered, accepted)
    }

    constructor ()
      ensures Valid() && Queue() == Fifo("", "", "") && !glFlagDebug && fresh(glBufDebug)
    {
      glBufDebug := new char[SIZE](i => '\0');
      glDebTxtLen, glIsApplnActive, glFlagDebug := 0, false, false;
      delivered, accepted := "", "";
    }

    /** Appends the first len characters of buf, if the text stays below the buffer's size. */
    method Append(buf: array<char>, len: nat)
      requires Valid() && buf != glBufDebug && len <= buf.Length
      modifies this`glDebTxtLen, this`accepted, glBufDebug
      ensures Valid() && Queue() == Step(old(Queue()), Print(buf[..len]))
    {
      ghost var text := buf[..len];
      StepLossless(Queue(), Print(text));
      if glDebTxtLen + len < SIZE {
        CopyIn(glBufDebug, glDebTxtLen, buf, len);
        glDebTxtLen := glDebTxtLen + len;
        accepted := accepted + text;
      }
    }

    /** A message is queued whole or not at all; nothing is queued unless the application and debugging are on. */
    method DebugPrint2USB(msg: string, args: seq<Arg>)
      requires Valid() && ArgsMatch(msg, args)
      modifies this`glDebTxtLen, this`accepted, glBufDebug
      ensures Valid()
      ensures var text := Rendered(msg, args, 256);
              Queue() == if glIsApplnActive && glFlagDebug && text.Some? then Step(old(Queue()), Print(text.value))
                         else old(Queue())
    {
      if !glIsApplnActive || !glFlagDebug { return; }
      var buf := new char[SIZE](i => '\0');
      var ok, len := MyDebugSNPrint(buf, msg, args);
      if ok {
        Append(buf, len);
      }
    }

    /** READINFODEBUG's reply: up to 63 characters and a terminator, or a stall when nothing waits. */
    method Drain() returns (reply: string, stalled: bool)
      requires Valid()
      modifies this`glDebTxtLen, this`delivered, glBufDebug
      ensures Valid() && Queue() == Step(old(Queue()), Poll)
      ensures stalled <==> old(glDebTxtLen) == 0
      ensures !stalled ==> 2 <= |reply| <= 64 && reply == delivered[|old(delivered)|..] + ['\0']
      ensures stalled ==> reply == "" && delivered == old(delivered)
      ensures !stalled ==>
                var n := if old(glDebTxtLen) > 63 then 63 else old(glDebTxtLen);
                reply == old(Queue()).waiting[..n] + ['\0'] && Queue().waiting == old(Queue()).waiting[n..]
    {
      StepLossless(Queue(), Poll);
      reply, stalled := "", glDebTxtLen == 0;
      if glDebTxtLen > 0 {
        var len := glDebTxtLen;
        if len > 64 - 1 { len := 64 - 1; }
        var part := glBufDebug[..len];
        var remain := glDebTxtLen - len;
        if remain > 0 {
          MoveDown(glBufDebug, len, remain);
        }
        glDebTxtLen := remain;
        reply := part + ['\0'];
        delivered := delivered + part;
      }
    }
  }

  /** `memcpy(&dst[at], src, len)`. */
  method CopyIn(dst: array<char>, at: nat, src: array<char>, len: nat)
    requires src != dst && at + len <= dst.Length && len <= src.Length
    modifies dst
    ensures dst[..at + len] == old(dst[..at]) + src[..len]
  {
    for k := 0 to len
      invariant dst[..at + k] == old(dst[..at]) + src[..k]
    {
      dst[at + k] := src[k];
      assert dst[..at + k + 1] == dst[..at + k] + [src[k]];
    }
  }

  /** `memmove(buf, buf + from, n)`, source and destination overlapping. */
  method MoveDown(buf: array<char>, from: nat, n: nat)
    requires from + n <= buf.Length
    modifies buf
    ensures buf[..n] == old(buf[from..from + n])
  {
    for k := 0 to n
      invariant buf[..k] == old(buf[from..from + k])
      invariant forall j :: k <= j < buf.Length ==> buf[j] == old(buf[j])
    {
      buf[k] := buf[from + k];
      assert buf[..k + 1] == buf[..k] + [buf[k]];
    }
  }
}
