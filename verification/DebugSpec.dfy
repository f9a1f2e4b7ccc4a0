/**
 * Debug text: what a format string renders to, when the formatter takes it, and the queue the host drains by polling.
 */
module DebugSpec {
  import opened Words

  // ---- formatting --------------------------------------------------------------------------

  /** A variable argument; for a number, its sign and the digits the SDK's conversion returns for its magnitude. */
  datatype Arg = Letter(c: char) | Text(s: string) | Number(negative: bool, digits: string)

  predicate Converts(c: char) {
    c == 'c' || c == 'd' || c == 's' || c == 'u' || c == 'x' || c == 'X'
  }

  predicate Suits(c: char, a: Arg) {
    match a
    case Letter(_) => c == 'c'
    case Text(_) => c == 's'
    case Number(_, _) => c == 'd' || c == 'u' || c == 'x' || c == 'X'
  }

  /** What one conversion puts out. */
  function Piece(c: char, a: Arg): string {
    match a
    case Letter(l) => [l]
    case Text(s) => s
    case Number(negative, digits) => if c == 'd' && negative then "-" + digits else digits
  }

  /** The arguments are there, of the right kinds: what C asks of the caller. Strings are shorter than 65536. */
  predicate ArgsMatch(m: string, args: seq<Arg>)
    decreases |m|
  {
    if m == "" then true
    else if m[0] != '%' then ArgsMatch(m[1..], args)
    else if |m| == 1 then true
    else if Converts(m[1]) then
      args != [] && Suits(m[1], args[0]) && |Piece(m[1], args[0])| < 65536 && ArgsMatch(m[2..], args[1..])
    else m[1] == '%' ==> ArgsMatch(m[2..], args)
  }

  /** The pieces a message consists of, or None when it has a conversion the formatter does not know. */
  function Pieces(m: string, args: seq<Arg>): Option<seq<string>>
    requires ArgsMatch(m, args)
    decreases |m|
  {
    if m == "" then Some([])
    else if m[0] != '%' then Prepend([m[0]], Pieces(m[1..], args))
    else if |m| == 1 then None
    else if m[1] == '%' then Prepend("%", Pieces(m[2..], args))
    else if Converts(m[1]) then Prepend(Piece(m[1], args[0]), Pieces(m[2..], args[1..]))
    else None
  }

  function Prepend(p: string, rest: Option<seq<string>>): Option<seq<string>> {
    match rest
    case None => None
    case Some(ps) => Some([p] + ps)
  }

  function Joined(ps: seq<string>): string {
    if ps == [] then "" else ps[0] + Joined(ps[1..])
  }

  /** From position i on, each piece starts below max - 2 and ends at most there. */
  predicate Fits(ps: seq<string>, i: nat, max: nat)
    decreases |ps|
  {
    ps == [] || (i + 2 < max && i + |ps[0]| + 2 <= max && Fits(ps[1..], i + |ps[0]|, max))
  }

  /** That is: the whole text leaves two places free, and one more before its last piece. */
  lemma {:induction false} FitsIff(ps: seq<string>, i: nat, max: nat)
    requires ps != []
    ensures Fits(ps, i, max) <==> i + |Joined(ps)| + 2 <= max && i + |Joined(ps[..|ps| - 1])| + 2 < max
    decreases |ps|
  {
    assert ps == [ps[0]] + ps[1..];
    if |ps| == 1 {
      assert Joined(ps) == ps[0] + Joined([]);
    } else {
      assert ps[..|ps| - 1][1..] == ps[1..][..|ps| - 2];
      FitsIff(ps[1..], i + |ps[0]|, max);
    }
  }

  /** What the formatter makes of a message in a buffer of `max` bytes: all of its text, or nothing. */
  function Rendered(m: string, args: seq<Arg>, max: nat): Option<string>
    requires ArgsMatch(m, args)
  {
    match Pieces(m, args)
    case None => None
    case Some(ps) => if Fits(ps, 0, max) then Some(Joined(ps)) else None
  }

  // ---- what the text is --------------------------------------------------------------------

  /** What one item of a message puts out for its argument, if it takes one. */
  ghost predicate PutsOut(item: string, x: seq<Arg>, text: string) {
    || (exists negative, digits :: item == "%d" && x == [Number(negative, digits)]
                                   && text == (if negative then "-" else "") + digits)
    || (exists negative, digits :: (item == "%u" || item == "%x" || item == "%X") && x == [Number(negative, digits)]
                                   && text == digits)
    || (exists c :: item == "%c" && x == [Letter(c)] && text == [c])
    || (exists s :: item == "%s" && x == [Text(s)] && text == s)
    || (item == "%%" && x == [] && text == "%")
    || (|item| == 1 && item[0] != '%' && x == [] && text == item)
  }

  /** How many arguments a message takes. */
  function Takes(m: string): nat {
    if m == "" then 0
    else if m[0] != '%' then Takes(m[1..])
    else if |m| == 1 then 0
    else (if m[1] in "cdsuxX" then 1 else 0) + Takes(m[2..])
  }

  function Both(a: Option<seq<string>>, b: Option<seq<string>>): Option<seq<string>> {
    if a.Some? && b.Some? then Some(a.value + b.value) else None
  }

  lemma {:induction false} PrependBoth(p: string, a: Option<seq<string>>, b: Option<seq<string>>)
    ensures Both(Prepend(p, a), b) == Prepend(p, Both(a, b))
  {
    if a.Some? && b.Some? {
      assert [p] + a.value + b.value == [p] + (a.value + b.value);
    }
  }

  /** A message that renders, followed by another: the arguments of the one, then those of the other. */
  lemma {:induction false} PiecesJoin(a: string, xs: seq<Arg>, b: string, ys: seq<Arg>)
    requires ArgsMatch(a, xs) && ArgsMatch(b, ys) && |xs| == Takes(a) && Pieces(a, xs).Some?
    ensures ArgsMatch(a + b, xs + ys) && Pieces(a + b, xs + ys) == Both(Pieces(a, xs), Pieces(b, ys))
    decreases |a|
  {
    if a == "" {
      assert a + b == b && xs + ys == ys;
      assert Pieces(b, ys).Some? ==> [] + Pieces(b, ys).value == Pieces(b, ys).value;
    } else if a[0] != '%' {
      assert (a + b)[1..] == a[1..] + b;
      PiecesJoin(a[1..], xs, b, ys);
      PrependBoth([a[0]], Pieces(a[1..], xs), Pieces(b, ys));
    } else {
      assert (a + b)[2..] == a[2..] + b && (a + b)[1] == a[1];
      if a[1] == '%' {
        PiecesJoin(a[2..], xs, b, ys);
        PrependBoth("%", Pieces(a[2..], xs), Pieces(b, ys));
      } else {
        assert (xs + ys)[1..] == xs[1..] + ys && (xs + ys)[0] == xs[0];
        PiecesJoin(a[2..], xs[1..], b, ys);
        PrependBoth(Piece(a[1], xs[0]), Pieces(a[2..], xs[1..]), Pieces(b, ys));
      }
    }
  }

  lemma {:induction false} JoinedBoth(ps: seq<string>, qs: seq<string>)
    ensures Joined(ps + qs) == Joined(ps) + Joined(qs)
    decreases |ps|
  {
    if ps == [] {
      assert ps + qs == qs;
    } else {
      assert (ps + qs)[1..] == ps[1..] + qs;
      JoinedBoth(ps[1..], qs);
    }
  }

  lemma {:induction false} LastPiece(p: string)
    ensures ArgsMatch("", []) && Takes("") == 0 && Prepend(p, Pieces("", [])) == Some([p])
  {
    assert [p] + [] == [p];
  }

  lemma {:induction false} OrdinaryPiece(item: string)
    requires |item| == 1 && item[0] != '%'
    ensures ArgsMatch(item, []) && Takes(item) == 0 && Pieces(item, []) == Some([item])
  {
    assert item[1..] == "" && [item[0]] == item;
    LastPiece(item);
  }

  lemma {:induction false} PercentPiece(item: string)
    requires item == "%%"
    ensures ArgsMatch(item, []) && Takes(item) == 0 && Pieces(item, []) == Some(["%"])
  {
    assert item[2..] == "";
    LastPiece("%");
  }

  lemma {:induction false} ConversionPiece(item: string, x: Arg)
    requires |item| == 2 && item[0] == '%' && Converts(item[1]) && Suits(item[1], x) && |Piece(item[1], x)| < 65536
    ensures ArgsMatch(item, [x]) && Takes(item) == 1 && Pieces(item, [x]) == Some([Piece(item[1], x)])
  {
    assert item[2..] == "" && [x][1..] == [];
    LastPiece(Piece(item[1], x));
  }

  /** One item is one piece, and that is what it puts out. */
  lemma {:induction false} ItemPiece(item: string, x: seq<Arg>, text: string)
    requires PutsOut(item, x, text) && |text| < 65536
    ensures ArgsMatch(item, x) && Takes(item) == |x| && Pieces(item, x) == Some([text])
  {
    if x != [] {
      if x[0].Number? {
        assert "" + x[0].digits == x[0].digits;
      }
      ConversionPiece(item, x[0]);
    } else if |item| == 1 {
      OrdinaryPiece(item);
    } else {
      PercentPiece(item);
    }
  }

  /** Text that leaves three places free fits, however it is cut into pieces. */
  lemma {:induction false} FitsWhen(ps: seq<string>, max: nat)
    requires |Joined(ps)| + 3 <= max
    ensures Fits(ps, 0, max)
  {
    if ps != [] {
      FitsIff(ps, 0, max);
      JoinedBoth(ps[..|ps| - 1], [ps[|ps| - 1]]);
      assert ps == ps[..|ps| - 1] + [ps[|ps| - 1]];
    }
  }

  lemma {:induction false} JoinedThree(ps: seq<string>, text: string, qs: seq<string>)
    ensures Joined(ps + ([text] + qs)) == Joined(ps) + text + Joined(qs)
  {
    JoinedBoth(ps, [text] + qs);
    JoinedBoth([text], qs);
    assert [text][1..] == [] && text + "" == text;
    assert Joined(ps) + (text + Joined(qs)) == Joined(ps) + text + Joined(qs);
  }

  lemma {:induction false} PiecesAround(a: string, xs: seq<Arg>, item: string, x: seq<Arg>, text: string, b: string,
                                        ys: seq<Arg>)
    requires ArgsMatch(a, xs) && ArgsMatch(b, ys) && |xs| == Takes(a) && Pieces(a, xs).Some? && Pieces(b, ys).Some?
    requires PutsOut(item, x, text) && |text| < 65536
    ensures ArgsMatch(a + (item + b), xs + (x + ys))
    ensures Pieces(a + (item + b), xs + (x + ys)) == Some(Pieces(a, xs).value + ([text] + Pieces(b, ys).value))
  {
    ItemPiece(item, x, text);
    PiecesJoin(item, x, b, ys);
    PiecesJoin(a, xs, item + b, x + ys);
  }

  /**
   * The text of a message around any one item: what comes before it, what the item puts out, what comes after it. All
   * of it is rendered, if anything is, and something is if it leaves three places free.
   */
  lemma {:induction false} TextAround(a: string, xs: seq<Arg>, item: string, x: seq<Arg>, text: string, b: string,
                                      ys: seq<Arg>, max: nat)
    requires ArgsMatch(a, xs) && ArgsMatch(b, ys) && |xs| == Takes(a) && PutsOut(item, x, text) && |text| < 65536
    requires Rendered(a, xs, max).Some? && Rendered(b, ys, max).Some?
    ensures ArgsMatch(a + (item + b), xs + (x + ys))
    ensures var t := Rendered(a, xs, max).value + text + Rendered(b, ys, max).value;
            var whole := Rendered(a + (item + b), xs + (x + ys), max);
            (whole.Some? ==> whole.value == t) && (|t| + 3 <= max ==> whole.Some?)
  {
    PiecesAround(a, xs, item, x, text, b, ys);
    var ps, qs := Pieces(a, xs).value, Pieces(b, ys).value;
    JoinedThree(ps, text, qs);
    if |Joined(ps) + text + Joined(qs)| + 3 <= max {
      FitsWhen(ps + ([text] + qs), max);
    }
  }

  /** A conversion the formatter does not know, or a percent sign with nothing behind it, is an error. */
  lemma {:induction false} UnknownRefused(a: string, xs: seq<Arg>, c: char, b: string, ys: seq<Arg>, max: nat)
    requires ArgsMatch(a, xs) && |xs| == Takes(a) && c !in "%cdsuxX"
    ensures Pieces(a, xs).Some? ==> ArgsMatch(a + ("%" + [c] + b), xs + ys) && ArgsMatch(a + "%", xs + ys)
    ensures Pieces(a, xs).Some? ==>
              Rendered(a + ("%" + [c] + b), xs + ys, max) == None && Rendered(a + "%", xs + ys, max) == None
  {
    if Pieces(a, xs).Some? {
      PiecesJoin(a, xs, "%" + [c] + b, ys);
      PiecesJoin(a, xs, "%", ys);
    }
  }

  // ---- the queue ---------------------------------------------------------------------------

  const SIZE := 256
  const POLL := 63

  /** What waits in the buffer, what the host has been given, and what was accepted, each in order. */
  datatype Fifo = Fifo(waiting: string, delivered: string, accepted: string)

  /** `Print` carries the text of a message the formatter took; `Poll` is one READINFODEBUG. */
  datatype Event = Print(text: string) | Poll

  function PollSize(q: Fifo): (n: nat)
    ensures n <= |q.waiting|
  {
    if |q.waiting| > POLL then POLL else |q.waiting|
  }

  function Step(q: Fifo, ev: Event): Fifo {
    match ev
    case Print(text) =>
      if |q.waiting| + |text| < SIZE then Fifo(q.waiting + text, q.delivered, q.accepted + text) else q
    case Poll => Fifo(q.waiting[PollSize(q)..], q.delivered + q.waiting[..PollSize(q)], q.accepted)
  }

  function Run(q: Fifo, evs: seq<Event>): Fifo
    decreases |evs|
  {
    if evs == [] then q else Step(Run(q, evs[..|evs| - 1]), evs[|evs| - 1])
  }

  predicate Lossless(q: Fifo) {
    q.delivered + q.waiting == q.accepted && |q.waiting| < 256
  }

  lemma {:induction false} StepLossless(q: Fifo, ev: Event)
    requires Lossless(q)
    ensures Lossless(Step(q, ev))
  {
  }

  /** The messages of a run that were accepted, each whole. */
  function Accepted(q: Fifo, evs: seq<Event>): string
    decreases |evs|
  {
    if evs == [] then ""
    else
      var before, ev := evs[..|evs| - 1], evs[|evs| - 1];
      Accepted(q, before) + if ev.Print? && |Run(q, before).waiting| + |ev.text| < 256 then ev.text else ""
  }

  /**
   * Over any interleaving of messages and polls: what the host was given followed by what still waits is exactly the
   * accepted messages one after another, and the buffer is never full.
   */
  lemma {:induction false} RunLossless(evs: seq<Event>)
    ensures var q := Run(Fifo("", "", ""), evs);
            Lossless(q) && q.accepted == Accepted(Fifo("", "", ""), evs)
    decreases |evs|
  {
    if evs != [] {
      var before := evs[..|evs| - 1];
      RunLossless(before);
      StepLossless(Run(Fifo("", "", ""), before), evs[|evs| - 1]);
    } else {
      assert "" + "" == "";
    }
  }

  function Polls(q: Fifo, n: nat): Fifo {
    if n == 0 then q else Step(Polls(q, n - 1), Poll)
  }

  /** The queue with the first n of its waiting bytes delivered. */
  function Moved(q: Fifo, n: nat): Fifo
    requires n <= |q.waiting|
  {
    Fifo(q.waiting[n..], q.delivered + q.waiting[..n], q.accepted)
  }

  lemma {:induction false} OnePoll(q: Fifo, n: nat)
    requires n <= |q.waiting|
    ensures Step(Moved(q, n), Poll) == Moved(q, if |q.waiting| - n > POLL then n + POLL else |q.waiting|)
  {
  }

  lemma {:induction false} PolledAfter(q: Fifo, n: nat)
    ensures Polls(q, n) == Moved(q, if POLL * n <= |q.waiting| then POLL * n else |q.waiting|)
    decreases n
  {
    if n == 0 {
      assert q.delivered + q.waiting[..0] == q.delivered;
    } else {
      PolledAfter(q, n - 1);
      OnePoll(q, if POLL * (n - 1) <= |q.waiting| then POLL * (n - 1) else |q.waiting|);
    }
  }

  /** A backlog of n bytes is gone after ceil(n / 63) polls, all of it delivered in order, and not a poll sooner. */
  lemma {:induction false} DrainsIn(q: Fifo, k: nat)
    ensures Polls(q, k).waiting == "" <==> k >= (|q.waiting| + 62) / 63
    ensures Polls(q, k).waiting == "" ==> Polls(q, k).delivered == q.delivered + q.waiting
  {
    PolledAfter(q, k);
    assert q.waiting[..|q.waiting|] == q.waiting;
    assert 63 * k >= |q.waiting| <==> k >= (|q.waiting| + 62) / 63;
  }
}
