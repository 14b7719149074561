/** What the receiver makes of what blast really sends, for all files and all divisions into reads. */
module SmtpDelivery {
  import opened Bytes
  import opened SmtpBlast
  import opened SmtpReceiver

  // ---------- One text for all chunks ----------

  /** A chunk's text without the CRs at its end, behind which the next chunk starts afresh. */
  function TrimCr(t: seq<byte>): (g: seq<byte>)
    ensures g == [] || g[|g| - 1] != CR
  {
    if t != [] && t[|t| - 1] == CR then TrimCr(t[..|t| - 1]) else t
  }

  function Trimmed(chunks: seq<seq<byte>>): seq<byte> {
    if chunks == [] then [] else Trimmed(chunks[..|chunks| - 1]) + TrimCr(TextOf(chunks[|chunks| - 1]))
  }

  /** Whether the loops double a dot behind `g`. */
  function StartAfter(start: bool, g: seq<byte>): bool {
    if g == [] then start else g[|g| - 1] == LF
  }

  lemma {:induction false} CodedAppend(start: bool, f: seq<byte>, g: seq<byte>)
    ensures Coded(start, f + g) == Coded(start, f) + Coded(StartAfter(start, f), g)
    decreases f
  {
    hide Coded, FirstStuffed;
    if f == [] {
      CodedNothing(f);
      assert f + g == g && [] + Coded(start, g) == Coded(start, g);
    } else {
      var rest := f[1..];
      assert (f + g)[0] == f[0] && (f + g)[1..] == rest + g;
      CodedAppend(f[0] == LF, rest, g);
      CodedStep(start, f);
      CodedStep(start, f + g);
      assert StartAfter(f[0] == LF, rest) == StartAfter(start, f);
      var first, x, y := FirstStuffed(start, f[0]), Coded(f[0] == LF, rest), Coded(StartAfter(start, f), g);
      assert first + (x + y) == first + x + y;
    }
  }

  lemma {:induction false} WithoutCrAppend(f: seq<byte>, g: seq<byte>)
    ensures WithoutCr(f + g) == WithoutCr(f) + WithoutCr(g)
  {
    if f == [] {
      assert f + g == g;
    } else {
      assert (f + g)[1..] == f[1..] + g;
      WithoutCrAppend(f[1..], g);
    }
  }

  lemma {:induction false} OneCr(bol: bool)
    ensures Coded(bol, [CR]) == [] && WithoutCr([CR]) == [] && BolAfter(bol, [CR]) == bol
  {
    hide Coded, BolAfter;
    LastByteTells(bol, bol, [CR]);
  }

  /** The CRs at the end change nothing but the start of what follows. */
  lemma {:induction false} TrimCrKeeps(bol: bool, t: seq<byte>)
    ensures Coded(bol, TrimCr(t)) == Coded(bol, t) && WithoutCr(TrimCr(t)) == WithoutCr(t)
    ensures BolAfter(bol, t) == StartAfter(bol, TrimCr(t))
  {
    hide Coded, WithoutCr, BolAfter, Stuffed;
    if t == [] {
      OnlyCrNothing(bol);
    } else {
      var f, c := t[..|t| - 1], t[|t| - 1];
      assert t == f + [c];
      StuffedAppend(bol, f, [c]);
      if c == CR {
        TrimCrKeeps(bol, f);
        CodedAppend(bol, f, [c]);
        WithoutCrAppend(f, [c]);
        OneCr(StartAfter(bol, f));
        OneCr(BolAfter(bol, f));
      } else {
        OneByte(BolAfter(bol, f), c);
      }
    }
  }

  lemma {:induction false} OneByte(bol: bool, c: byte)
    requires c != CR
    ensures BolAfter(bol, [c]) == (c == LF)
  {
    assert BolAfter(bol, [c]) == BolAfter(BolNext(bol, c), [c][1..]);
  }

  /** What blast sends is what its loops would write for one text. */
  lemma {:induction false} WireIsCoded(chunks: seq<seq<byte>>, n: nat)
    requires n <= |chunks|
    ensures Wire(chunks[..n]) == Coded(true, Trimmed(chunks[..n]))
    ensures WithoutCr(Trimmed(chunks[..n])) == WithoutCr(Text(chunks[..n]))
    ensures BolAfter(true, Text(chunks[..n])) == StartAfter(true, Trimmed(chunks[..n]))
  {
    hide Coded, WithoutCr, BolAfter, TrimCr, Stuffed, TextOf, Wire, Text, Trimmed;
    if n == 0 {
      StartOfFile(chunks);
      NothingTrimmed(chunks);
    } else {
      var f, g, t := Text(chunks[..n - 1]), Trimmed(chunks[..n - 1]), TextOf(chunks[n - 1]);
      WireIsCoded(chunks, n - 1);
      OneMoreChunk(chunks, n - 1);
      OneMoreTrimmed(chunks, n - 1);
      TrimCrKeeps(BolAfter(true, f), t);
      CodedAppend(true, g, TrimCr(t));
      WithoutCrAppend(f, t);
      WithoutCrAppend(g, TrimCr(t));
      StuffedAppend(true, f, t);
    }
  }

  lemma {:induction false} NothingTrimmed(chunks: seq<seq<byte>>)
    ensures Trimmed(chunks[..0]) == [] && Coded(true, []) == []
  {
  }

  lemma {:induction false} OneMoreTrimmed(chunks: seq<seq<byte>>, i: nat)
    requires i < |chunks|
    ensures Trimmed(chunks[..i + 1]) == Trimmed(chunks[..i]) + TrimCr(TextOf(chunks[i]))
  {
    assert chunks[..i + 1][..i] == chunks[..i];
  }

  // ---------- The lines of that text ----------

  /** The length of the first line, without its LF. */
  function LfLength(g: seq<byte>): (k: nat)
    ensures k <= |g| && LF !in g[..k] && (k < |g| ==> g[k] == LF)
  {
    if g == [] || g[0] == LF then 0
    else
      var k := LfLength(g[1..]);
      assert g[..k + 1] == [g[0]] + g[1..][..k];
      k + 1
  }

  /** A line of the file as the loops write it: behind a CR they do not double its dot. */
  function WireLine(l: seq<byte>): seq<byte> {
    if l != [] && l[0] == CR then WithoutCr(l) else StuffedLine(WithoutCr(l))
  }

  lemma {:induction false} CodedInLine(l: seq<byte>, r: seq<byte>)
    requires LF !in l
    ensures Coded(false, l + r) == WithoutCr(l) + Coded(false, r)
  {
    hide Coded, WithoutCr;
    if l == [] {
      NoCrs(l);
      assert l + r == r && [] + Coded(false, r) == Coded(false, r);
    } else {
      assert (l + r)[0] == l[0] && (l + r)[1..] == l[1..] + r;
      CodedInLine(l[1..], r);
      CodedStep(false, l + r);
      WithoutCrStep(l);
      assert l[0] in l && l[0] != LF;
    }
  }

  lemma {:induction false} CodedFromStart(l: seq<byte>, r: seq<byte>)
    requires LF !in l && (r == [] || r[0] == LF)
    ensures Coded(true, l + r) == WireLine(l) + Coded(false, r)
  {
    hide Coded, WithoutCr;
    if l == [] {
      NoCrs(l);
      CodedNothing([]);
      if r != [] {
        CodedStep(true, r);
        CodedStep(false, r);
      }
      assert l + r == r && [] + Coded(false, r) == Coded(false, r);
    } else {
      assert (l + r)[0] == l[0] && (l + r)[1..] == l[1..] + r;
      CodedStep(true, l + r);
      CodedInLine(l[1..], r);
      WithoutCrStep(l);
      var first, x, y := FirstStuffed(true, l[0]), WithoutCr(l[1..]), Coded(false, r);
      assert l[0] in l && l[0] != LF;
      assert first + (x + y) == first + x + y;
      assert first + x == WireLine(l);
    }
  }

  lemma {:induction false} CodedLine(g: seq<byte>)
    ensures
      var k := LfLength(g);
      Coded(true, g) == if k == |g| then WireLine(g) else Line(WireLine(g[..k]), Coded(true, g[k + 1..]))
  {
    hide Coded, WireLine;
    var k := LfLength(g);
    var l, r := g[..k], g[k..];
    assert g == l + r;
    CodedFromStart(l, r);
    if r == [] {
      CodedNothing(r);
      assert l == g && WireLine(l) + [] == WireLine(l);
    } else {
      CodedStep(false, r);
      assert r[1..] == g[k + 1..];
      var w, x := WireLine(l), Coded(true, g[k + 1..]);
      assert w + ([CR, LF] + x) == w + [CR, LF] + x;
    }
  }

  lemma {:induction false} PlainWithoutCr(l: seq<byte>)
    requires LF !in l
    ensures Plain(WithoutCr(l))
  {
    hide WithoutCr;
    if l == [] {
      NoCrs(l);
    } else {
      PlainWithoutCr(l[1..]);
      WithoutCrStep(l);
      assert l[0] in l;
    }
  }

  /** The line in the text that should be delivered, and as it should be sent. */
  lemma {:induction false} LineDue(g: seq<byte>)
    ensures
      var k := LfLength(g);
      var l := WithoutCr(g[..k]);
      && Plain(l)
      && (k == |g| ==>
        l == WithoutCr(g) && Normalised(WithoutCr(g)) == l && Stuffed(true, WithoutCr(g)) == StuffedLine(l))
      && (k < |g| ==>
        var rest := WithoutCr(g[k + 1..]);
        && Normalised(WithoutCr(g)) == Line(l, Normalised(rest))
        && Stuffed(true, WithoutCr(g)) == Line(StuffedLine(l), Stuffed(true, rest)))
  {
    hide Stuffed, Normalised, WithoutCr, Line, StuffedLine;
    var k := LfLength(g);
    var l := WithoutCr(g[..k]);
    PlainWithoutCr(g[..k]);
    if k == |g| {
      assert g[..k] == g;
      LastLine(l);
    } else {
      var rest := WithoutCr(g[k + 1..]);
      assert g == g[..k] + g[k..] && g[k..][1..] == g[k + 1..];
      WithoutCrAppend(g[..k], g[k..]);
      WithoutCrStep(g[k..]);
      LineStuffed(l, [LF] + rest, rest);
    }
  }

  // ---------- What the receiver can get at most ----------

  /** What the receiver makes of a line. */
  function Undotted(w: seq<byte>): seq<byte> {
    if w != [] && w[0] == DOT then w[1..] else w
  }

  lemma {:induction false} TakesLine(w: seq<byte>, x: seq<byte>)
    requires Plain(w)
    ensures w == [DOT] ==> Receive(Line(w, x)) == Message([], x)
    ensures w != [DOT] && Receive(x).Message? ==>
      Receive(Line(w, x)) == Message(Line(Undotted(w), Receive(x).text), Receive(x).rest)
  {
    hide FirstCrlf;
    FirstCrlfAfterPlain(w, x);
    LineParts(w, x);
  }

  /** A line that is not doubled where it should be arrives with a byte less, or ends the text. */
  lemma {:induction false} LineArrives(l0: seq<byte>)
    requires LF !in l0
    ensures
      var l, w := WithoutCr(l0), WireLine(l0);
      && Plain(w) && |Undotted(w)| <= |l| && (w == [DOT] ==> w != StuffedLine(l))
      && (|Undotted(w)| == |l| ==> w == StuffedLine(l))
  {
    hide WithoutCr;
    PlainWithoutCr(l0);
  }

  /** The text received up to `tail` is at most the one due, and all of it only if every dot has been doubled. */
  ghost predicate AtMostDue(g: seq<byte>, r: Received, tail: seq<byte>) {
    && r.Message? && |tail| <= |r.rest|
    && (|r.rest| == |tail| ==>
      && r.rest == tail && |r.text| <= |Normalised(WithoutCr(g))| + 2
      && (|r.text| == |Normalised(WithoutCr(g))| + 2 ==> Coded(true, g) == Stuffed(true, WithoutCr(g))))
  }

  lemma {:induction false} ReceivedAtMost(g: seq<byte>, tail: seq<byte>)
    ensures AtMostDue(g, Receive(Coded(true, g) + Terminator(tail)), tail)
    decreases |g|
  {
    hide Coded, Stuffed, Receive, Normalised, WithoutCr, WireLine, StuffedLine, Undotted;
    var k := LfLength(g);
    var l0 := g[..k];
    var w := WireLine(l0);
    CodedLine(g);
    LineDue(g);
    LineArrives(l0);
    if k == |g| {
      assert l0 == g;
      var x := Line([DOT], tail);
      ReceiveEnd(tail);
      TakesLine(w, x);
      assert w + Terminator(tail) == Line(w, x);
    } else {
      var rest := g[k + 1..];
      var x := Coded(true, rest) + Terminator(tail);
      ReceivedAtMost(rest, tail);
      TakesLine(w, x);
      LineThen(w, Coded(true, rest), Terminator(tail));
    }
  }

  // ---------- Exactly when the text arrives ----------

  /** For every file and every division into reads: the receiver stops only at the terminator and has the text, without
      its CRs and with its line ends normalised, if and only if no read hides a dot behind a CR. */
  lemma {:induction false} WireDelivered(chunks: seq<seq<byte>>, tail: seq<byte>)
    ensures
      Receive(Wire(chunks) + Terminator(tail)) == Message(Normalised(WithoutCr(Text(chunks))) + [CR, LF], tail) <==>
      forall i :: 0 <= i < |chunks| ==> ChunkClear(chunks, i)
  {
    hide Coded, Stuffed, Receive, Normalised, WithoutCr, Terminator, Wire, Text, Trimmed, ChunkClear, BolAfter;
    var f, g := Text(chunks), Trimmed(chunks);
    assert chunks[..|chunks|] == chunks;
    WireIsCoded(chunks, |chunks|);
    WireIsStuffed(chunks);
    DeliveredAny(f, tail);
    ReceivedAtMost(g, tail);
    CrsDropped(true, f);
  }

  /** Nothing is lost of the file: the receiver has it, line ends normalised and one line end more, if and only if every
      CR of its text begins a line end. */
  lemma {:induction false} FileDelivered(chunks: seq<seq<byte>>, tail: seq<byte>)
    ensures Receive(Wire(chunks) + Terminator(tail)) == Message(Normalised(Text(chunks)) + [CR, LF], tail) <==>
      CrOnlyInCrlf(Text(chunks))
  {
    hide Coded, Stuffed, Receive, Normalised, WithoutCr, Terminator, Wire, Text, Trimmed, ChunkClear, BolAfter;
    hide CrOnlyInCrlf, NoHiddenDot;
    var f, g := Text(chunks), Trimmed(chunks);
    assert chunks[..|chunks|] == chunks;
    WireIsCoded(chunks, |chunks|);
    LoneCrsLost(f);
    ReceivedAtMost(g, tail);
    if CrOnlyInCrlf(f) {
      NoDotBehindCr(f);
      ChunksClear(chunks, |chunks|);
      WireDelivered(chunks, tail);
    }
  }

  lemma {:induction false} NoDotBehindCr(f: seq<byte>)
    requires CrOnlyInCrlf(f)
    ensures NoHiddenDot(true, f)
  {
  }

  // ---------- A hidden dot ----------

  lemma {:induction false} CodedCons(start: bool, bol: bool, c: byte, r: seq<byte>)
    ensures Coded(start, [c] + r) == FirstStuffed(start, c) + Coded(c == LF, r)
    ensures BolAfter(bol, [c] + r) == BolAfter(BolNext(bol, c), r)
  {
    assert ([c] + r)[1..] == r;
  }

  lemma {:induction false} WireOfOne(x: seq<byte>)
    requires NoNul(x)
    ensures Wire([x]) == Coded(true, x) && Text([x]) == x
  {
    hide Coded, TextOf;
    var chunks := [x];
    OneMoreChunk(chunks, 0);
    StartOfFile(chunks);
    assert chunks[..1] == chunks;
    WholeText([], x, []);
  }

  lemma {:induction false} WireOfTwo(x: seq<byte>, y: seq<byte>)
    requires NoNul(x) && NoNul(y)
    ensures Wire([x, y]) == Coded(true, x) + Coded(BolAfter(true, x), y)
  {
    hide Coded, TextOf, BolAfter, Wire, Text;
    var chunks := [x, y];
    WireOfOne(x);
    OneMoreChunk(chunks, 1);
    assert chunks[..1] == [x] && chunks[..2] == chunks;
    WholeText([], y, []);
  }

  lemma {:induction false} HiddenDotCoded()
    ensures Coded(true, [LF, CR, DOT, LF]) == [CR, LF, DOT, CR, LF]
    ensures Coded(true, [LF, CR]) == [CR, LF] && BolAfter(true, [LF, CR])
    ensures Coded(true, [DOT, LF]) == [DOT, DOT, CR, LF]
  {
    hide Coded, BolAfter;
    CodedNothing([]);
    assert [LF] + [] == [LF] && [CR] + [] == [CR];
    CodedCons(false, true, LF, []);
    CodedCons(true, true, CR, []);
    assert BolAfter(true, [CR]) by { LastByteTells(true, true, [CR]); }
    assert [DOT, LF] == [DOT] + [LF] && [LF, CR] == [LF] + [CR];
    CodedCons(true, true, LF, [CR]);
    CodedCons(false, true, DOT, [LF]);
    CodedCons(true, true, DOT, [LF]);
    assert [CR, DOT, LF] == [CR] + [DOT, LF] && [LF, CR, DOT, LF] == [LF] + [CR, DOT, LF];
    CodedCons(true, true, CR, [DOT, LF]);
    CodedCons(true, true, LF, [CR, DOT, LF]);
  }

  /** A line that consists of a dot, which nothing has doubled. */
  lemma {:induction false} DotTaken(tail: seq<byte>)
    ensures Receive([CR, LF, DOT, CR, LF] + Terminator(tail)) == Message([CR, LF], Terminator(tail))
  {
    hide Receive, Terminator;
    var rest := Line([DOT], Terminator(tail));
    ReceiveEnd(Terminator(tail));
    ReceiveLine([], rest);
    assert [CR, LF, DOT, CR, LF] + Terminator(tail) == Line(StuffedLine([]), rest);
    assert Line([], []) == [CR, LF];
  }

  lemma {:induction false} ReadableChunk(x: seq<byte>, i: nat)
    requires NoNul(x) && |x| <= 4095 && i < |x| && x[i] != CR
    ensures ReadChunk(x)
  {
    WholeText([], x, []);
  }

  /** Two divisions of one file for which blast sends different texts. In the first one a CR hides the dot of a line,
      and the receiver takes the line for the end of the text. */
  lemma {:induction false} ReadsMatter(tail: seq<byte>)
    ensures
      var once: seq<seq<byte>>, twice: seq<seq<byte>> := [[LF, CR, DOT, LF]], [[LF, CR], [DOT, LF]];
      && Concat(once) == Concat(twice) && ReadChunks(once) && ReadChunks(twice)
      && Wire(once) == [CR, LF, DOT, CR, LF] && Wire(twice) == [CR, LF, DOT, DOT, CR, LF]
      && Receive(Wire(once) + Terminator(tail)) == Message([CR, LF], Terminator(tail))
  {
    hide Coded, BolAfter, Wire, Receive, Terminator, ReadChunk;
    var x: seq<byte>, y: seq<byte>, z: seq<byte> := [LF, CR, DOT, LF], [LF, CR], [DOT, LF];
    HiddenDotCoded();
    WireOfOne(x);
    WireOfTwo(y, z);
    DotTaken(tail);
    ReadableChunk(x, 0);
    ReadableChunk(y, 0);
    ReadableChunk(z, 0);
    assert Concat([x]) == x + Concat([x][1..]);
    assert Concat([y, z]) == y + Concat([z]) && Concat([z]) == z + Concat([z][1..]);
    assert y + z == x;
  }
}
