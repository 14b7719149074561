/** A receiver of mail text as in RFC 5321 section 4.5.2, and what it makes of the output of blast. */
module SmtpReceiver {
  import opened Options
  import opened Bytes
  import opened SmtpBlast

  // ---------- The receiver ----------

  /** Where the first CR LF of `s` is. */
  function FirstCrlf(s: seq<byte>): (r: Option<nat>)
    ensures r.Some? ==> r.value + 2 <= |s| && s[r.value] == CR && s[r.value + 1] == LF
  {
    if |s| < 2 then None
    else if s[0] == CR && s[1] == LF then Some(0)
    else match FirstCrlf(s[1..]) case None => None case Some(i) => Some(i + 1)
  }

  datatype Received = Incomplete | Message(text: seq<byte>, rest: seq<byte>)

  /** RFC 5321 section 4.5.2: line by line; a line that is a single dot ends the text, and of any other
      line that begins with a dot the dot is removed. */
  function Receive(s: seq<byte>): Received
    decreases |s|
  {
    match FirstCrlf(s)
    case None => Incomplete
    case Some(i) =>
      var line, rest := s[..i], s[i + 2..];
      if line == [DOT] then Message([], rest)
      else
        var text := if line != [] && line[0] == DOT then line[1..] else line;
        match Receive(rest)
        case Incomplete => Incomplete
        case Message(more, r) => Message(text + [CR, LF] + more, r)
  }

  /** The file with every line end, LF or CR LF, written as CR LF. */
  function Normalised(f: seq<byte>): seq<byte> {
    if f == [] then []
    else if f[0] == LF then [CR, LF] + Normalised(f[1..])
    else if |f| >= 2 && f[0] == CR && f[1] == LF then [CR, LF] + Normalised(f[2..])
    else [f[0]] + Normalised(f[1..])
  }

  ghost predicate Plain(l: seq<byte>) {
    forall i :: 0 <= i < |l| ==> l[i] != CR && l[i] != LF
  }

  /** A line as it goes over the wire. */
  function StuffedLine(l: seq<byte>): seq<byte> {
    if l != [] && l[0] == DOT then [DOT] + l else l
  }

  lemma {:induction false} NormalisedStep(f: seq<byte>)
    requires f != []
    ensures f[0] == LF ==> Normalised(f) == [CR, LF] + Normalised(f[1..])
    ensures |f| >= 2 && f[0] == CR && f[1] == LF ==> Normalised(f) == [CR, LF] + Normalised(f[2..])
    ensures f[0] != LF && !(|f| >= 2 && f[0] == CR && f[1] == LF) ==> Normalised(f) == [f[0]] + Normalised(f[1..])
  {
  }

  lemma {:induction false} PlainPassesThrough(l: seq<byte>, g: seq<byte>)
    requires Plain(l)
    ensures Stuffed(false, l + g) == l + Stuffed(false, g)
    ensures Normalised(l + g) == l + Normalised(g)
  {
    hide Stuffed, Normalised;
    if l == [] {
      assert l + g == g && [] + Stuffed(false, g) == Stuffed(false, g) && [] + Normalised(g) == Normalised(g);
    } else {
      var rest := l[1..];
      assert (l + g)[0] == l[0] && (l + g)[1..] == rest + g;
      PlainPassesThrough(rest, g);
      StuffedStep(false, l + g);
      NormalisedStep(l + g);
      assert [l[0]] + (rest + Stuffed(false, g)) == l + Stuffed(false, g);
      assert [l[0]] + (rest + Normalised(g)) == l + Normalised(g);
    }
  }

  /** A line, its end, and what follows. */
  function Line(l: seq<byte>, x: seq<byte>): seq<byte> {
    l + [CR, LF] + x
  }

  lemma {:induction false} LineThen(l: seq<byte>, x: seq<byte>, y: seq<byte>)
    ensures Line(l, x) + y == Line(l, x + y)
  {
    assert l + [CR, LF] + x + y == l + [CR, LF] + (x + y);
  }

  lemma {:induction false} EndOfLine(g: seq<byte>, rest: seq<byte>)
    requires g == [LF] + rest || g == [CR, LF] + rest
    ensures forall bol :: Stuffed(bol, g) == [CR, LF] + Stuffed(true, rest)
    ensures Normalised(g) == [CR, LF] + Normalised(rest)
  {
    if g[0] == LF {
      assert g[1..] == rest;
    } else {
      assert g[1..][1..] == rest && g[2..] == rest;
    }
  }

  lemma {:induction false} FirstOfLine(l: seq<byte>)
    requires Plain(l) && l != []
    ensures FirstStuffed(true, l[0]) + l[1..] == StuffedLine(l) && l[0] != LF && l[0] != CR && Plain(l[1..])
  {
  }

  lemma {:induction false} PlainAtLineStart(l: seq<byte>, g: seq<byte>)
    requires Plain(l) && l != []
    ensures Stuffed(true, l + g) == StuffedLine(l) + Stuffed(false, g)
  {
    hide Stuffed, Normalised, FirstStuffed, StuffedLine, Plain;
    FirstOfLine(l);
    StuffedStep(true, l + g);
    assert (l + g)[0] == l[0] && (l + g)[1..] == l[1..] + g;
    PlainPassesThrough(l[1..], g);
    var first, rest := FirstStuffed(true, l[0]), Stuffed(false, g);
    assert first + (l[1..] + rest) == first + l[1..] + rest;
  }

  /** A line and its end, at the beginning of a line. */
  lemma {:induction false} LineStuffed(l: seq<byte>, g: seq<byte>, rest: seq<byte>)
    requires Plain(l) && (g == [LF] + rest || g == [CR, LF] + rest)
    ensures Stuffed(true, l + g) == Line(StuffedLine(l), Stuffed(true, rest))
    ensures Normalised(l + g) == Line(l, Normalised(rest))
  {
    hide Stuffed, Normalised;
    EndOfLine(g, rest);
    PlainPassesThrough(l, g);
    if l == [] {
      assert l + g == g;
    } else {
      PlainAtLineStart(l, g);
    }
  }

  lemma {:induction false} LastLine(l: seq<byte>)
    requires Plain(l)
    ensures Stuffed(true, l) == StuffedLine(l) && Normalised(l) == l
  {
    assert l + [] == l;
    PlainPassesThrough(l, []);
    if l != [] { PlainAtLineStart(l, []); }
  }

  // ---------- Receiving what was sent ----------

  lemma {:induction false} FirstCrlfAfterPlain(l: seq<byte>, x: seq<byte>)
    requires Plain(l)
    ensures FirstCrlf(Line(l, x)) == Some(|l|)
  {
    if l != [] {
      FirstCrlfAfterPlain(l[1..], x);
      assert Line(l, x)[1..] == Line(l[1..], x);
    }
  }

  lemma {:induction false} LineParts(l: seq<byte>, x: seq<byte>)
    ensures Line(l, x)[..|l|] == l && |Line(l, x)| == |l| + 2 + |x| && Line(l, x)[|l| + 2..] == x
  {
  }

  /** The receiver takes one line off the wire. */
  lemma {:induction false} ReceiveLine(l: seq<byte>, x: seq<byte>)
    requires Plain(l) && Receive(x).Message?
    ensures Receive(Line(StuffedLine(l), x)) == Message(Line(l, Receive(x).text), Receive(x).rest)
  {
    hide FirstCrlf;
    var w := StuffedLine(l);
    FirstCrlfAfterPlain(w, x);
    LineParts(w, x);
    if l != [] && l[0] == DOT { assert w[1..] == l; }
  }

  lemma {:induction false} ReceiveEnd(tail: seq<byte>)
    ensures Receive(Line([DOT], tail)) == Message([], tail)
  {
    hide FirstCrlf;
    FirstCrlfAfterPlain([DOT], tail);
    LineParts([DOT], tail);
  }

  /** The length of the first line, without its end. */
  function LineLength(f: seq<byte>): (k: nat)
    ensures k <= |f| && Plain(f[..k])
    ensures k < |f| ==> f[k] == CR || f[k] == LF
  {
    if f == [] || f[0] == CR || f[0] == LF then 0
    else
      var k := LineLength(f[1..]);
      assert f[..k + 1] == [f[0]] + f[1..][..k];
      k + 1
  }

  /** The terminator that main sends after the body, and what the client sends later. */
  function Terminator(tail: seq<byte>): seq<byte> {
    [CR, LF] + Line([DOT], tail)
  }

  /** The receiver, given what blast sent and then the terminator, stops only at the terminator and has the file
      with its line ends normalised, and one line end more. */
  lemma {:induction false} Delivered(f: seq<byte>, tail: seq<byte>)
    requires CrOnlyInCrlf(f)
    ensures Receive(Stuffed(true, f) + Terminator(tail)) == Message(Normalised(f) + [CR, LF], tail)
    decreases |f|
  {
    hide Stuffed, Receive, Normalised, LineLength, Line, Terminator, StuffedLine, Plain, CrOnlyInCrlf;
    LineEndAt(f);
    var k := LineLength(f);
    var l := f[..k];
    if k == |f| {
      assert l == f;
      DeliveredLast(l, tail);
    } else {
      var skip := if f[k] == LF then 1 else 2;
      var g, rest := f[k..], f[k + skip..];
      assert f == l + g;
      CrOnlyInSuffix(f, k + skip);
      DeliveredLine(l, g, rest, tail);
    }
  }

  /** What ends the first line. */
  lemma {:induction false} LineEndAt(f: seq<byte>)
    requires CrOnlyInCrlf(f)
    ensures
      var k := LineLength(f);
      k < |f| ==> f[k..] == [LF] + f[k + 1..] || (f[k] == CR && k + 2 <= |f| && f[k..] == [CR, LF] + f[k + 2..])
  {
  }

  /** A file of one line without an end. */
  lemma {:induction false} DeliveredLast(l: seq<byte>, tail: seq<byte>)
    requires Plain(l)
    ensures Receive(Stuffed(true, l) + Terminator(tail)) == Message(Normalised(l) + [CR, LF], tail)
  {
    hide Stuffed, Receive, Normalised, StuffedLine;
    LastLine(l);
    ReceiveEnd(tail);
    ReceiveLine(l, Line([DOT], tail));
    assert StuffedLine(l) + Terminator(tail) == Line(StuffedLine(l), Line([DOT], tail));
    assert Line(l, []) == l + [CR, LF];
  }

  lemma {:induction false} DeliveredLine(l: seq<byte>, g: seq<byte>, rest: seq<byte>, tail: seq<byte>)
    requires Plain(l) && (g == [LF] + rest || g == [CR, LF] + rest) && CrOnlyInCrlf(rest)
    ensures Receive(Stuffed(true, l + g) + Terminator(tail)) == Message(Normalised(l + g) + [CR, LF], tail)
    decreases |l + g|, 0
  {
    hide Stuffed, Receive, Normalised, Line, Terminator, StuffedLine;
    Delivered(rest, tail);
    LineStuffed(l, g, rest);
    LineThen(StuffedLine(l), Stuffed(true, rest), Terminator(tail));
    LineThen(l, Normalised(rest), [CR, LF]);
    ReceiveLine(l, Stuffed(true, rest) + Terminator(tail));
  }

  function WithoutCr(f: seq<byte>): (g: seq<byte>)
    ensures CR !in g
  {
    if f == [] then [] else (if f[0] == CR then [] else [f[0]]) + WithoutCr(f[1..])
  }

  lemma {:induction false} WithoutCrStep(f: seq<byte>)
    requires f != []
    ensures WithoutCr(f) == if f[0] == CR then WithoutCr(f[1..]) else [f[0]] + WithoutCr(f[1..])
  {
  }

  lemma {:induction false} CrsDropped(bol: bool, f: seq<byte>)
    ensures Stuffed(bol, WithoutCr(f)) == Stuffed(bol, f)
    decreases f
  {
    hide Stuffed, WithoutCr;
    if f == [] {
      NoCrs(f);
    } else {
      CrsDropped(BolNext(bol, f[0]), f[1..]);
      StuffedStep(bol, f);
      WithoutCrStep(f);
      if f[0] != CR {
        StuffedStep(bol, WithoutCr(f));
        assert WithoutCr(f)[1..] == WithoutCr(f[1..]);
      }
    }
  }

  lemma {:induction false} NoCrs(f: seq<byte>)
    requires f == []
    ensures WithoutCr(f) == f && Normalised(f) == f
  {
  }

  /** The receiver gets the text of any file, without its CRs and with CR LF at its line ends. */
  lemma {:induction false} DeliveredAny(f: seq<byte>, tail: seq<byte>)
    ensures Receive(Stuffed(true, f) + Terminator(tail)) == Message(Normalised(WithoutCr(f)) + [CR, LF], tail)
  {
    hide Stuffed, Receive, Normalised, WithoutCr, Terminator;
    CrsDropped(true, f);
    forall i | 0 <= i < |WithoutCr(f)| ensures WithoutCr(f)[i] != CR { assert WithoutCr(f)[i] in WithoutCr(f); }
    Delivered(WithoutCr(f), tail);
  }

  lemma {:induction false} CrOnlyInCrlfStep(f: seq<byte>)
    requires f != []
    ensures CrOnlyInCrlf(f) <==> CrOnlyInCrlf(f[1..]) && (f[0] == CR ==> |f| >= 2 && f[1] == LF)
  {
    if CrOnlyInCrlf(f) { CrOnlyInSuffix(f, 1); }
    if CrOnlyInCrlf(f[1..]) {
      forall i | 1 <= i < |f| && f[i] == CR ensures i + 1 < |f| && f[i + 1] == LF { assert f[1..][i - 1] == CR; }
    }
  }

  /** Dropping the CRs does not change the normalised text if they all begin line ends, and shortens it otherwise. */
  lemma {:induction false} LoneCrsLost(f: seq<byte>)
    ensures CrOnlyInCrlf(f) ==> Normalised(WithoutCr(f)) == Normalised(f)
    ensures !CrOnlyInCrlf(f) ==> |Normalised(WithoutCr(f))| < |Normalised(f)|
    decreases |f|
  {
    hide WithoutCr, Normalised, CrOnlyInCrlf;
    if f == [] {
      NoCrs(f);
      CrOnlyInNothing();
    } else {
      WithoutCrStep(f);
      NormalisedStep(f);
      CrOnlyInCrlfStep(f);
      if |f| >= 2 && f[0] == CR && f[1] == LF {
        var g := f[1..];
        assert g[1..] == f[2..];
        LoneCrsLost(f[2..]);
        WithoutCrStep(g);
        CrOnlyInCrlfStep(g);
        NormalisedStep(WithoutCr(f));
        assert WithoutCr(f)[1..] == WithoutCr(f[2..]);
      } else {
        LoneCrsLost(f[1..]);
        if f[0] != CR {
          NormalisedStep(WithoutCr(f));
          assert WithoutCr(f)[1..] == WithoutCr(f[1..]);
        }
      }
    }
  }

  lemma {:induction false} CrOnlyInNothing()
    ensures CrOnlyInCrlf([])
  {
  }

  /** The receiver has the file, with its line ends normalised and one line end more, exactly when every CR of the file
      begins a line end. */
  lemma {:induction false} DeliveredExactly(f: seq<byte>, tail: seq<byte>)
    ensures Receive(Stuffed(true, f) + Terminator(tail)) == Message(Normalised(f) + [CR, LF], tail) <==> CrOnlyInCrlf(f)
  {
    hide Stuffed, Receive, Normalised, WithoutCr, Terminator, CrOnlyInCrlf;
    DeliveredAny(f, tail);
    LoneCrsLost(f);
    var m, n := Normalised(WithoutCr(f)) + [CR, LF], Normalised(f) + [CR, LF];
    assert m == n ==> |m| == |n|;
  }
}
