/** The body transfer of c/app/mail/smtp.c: dot-stuffing and line ends, chunk by chunk. */
module SmtpBlast {
  import opened Bytes

  const DOT: byte := 46

  /** The transducer that doubles every dot at the beginning of a line, writes LF as CR LF and drops CRs; `bol` says
      whether the last byte sent ended a line. */
  function Stuffed(bol: bool, f: seq<byte>): seq<byte>
    decreases f
  {
    if f == [] then [] else FirstStuffed(bol, f[0]) + Stuffed(BolNext(bol, f[0]), f[1..])
  }

  /** The bytes sent for the byte `c`. */
  function FirstStuffed(bol: bool, c: byte): seq<byte> {
    if c == LF then [CR, LF] else if c == CR then [] else if bol && c == DOT then [DOT, DOT] else [c]
  }

  function BolNext(bol: bool, c: byte): bool {
    c == LF || (c == CR && bol)
  }

  /** Whether the wire is at the beginning of a line after `f`. */
  function BolAfter(bol: bool, f: seq<byte>): bool
    decreases f
  {
    if f == [] then bol else BolAfter(BolNext(bol, f[0]), f[1..])
  }

  /** What the loops of blast write for the text of one chunk: they double a dot only directly behind a line end, or,
      with `start`, at the beginning of the chunk. */
  function Coded(start: bool, f: seq<byte>): seq<byte>
    decreases f
  {
    if f == [] then [] else FirstStuffed(start, f[0]) + Coded(f[0] == LF, f[1..])
  }

  /** A dot at the beginning of a line, with nothing but CRs between the line end and the dot, and at least one. */
  ghost predicate HiddenDot(bol: bool, f: seq<byte>, i: nat) {
    0 < i < |f| && f[i] == DOT && f[i - 1] == CR && BolAfter(bol, f[..i])
  }

  ghost predicate NoHiddenDot(bol: bool, f: seq<byte>) {
    forall i :: 0 < i < |f| ==> !HiddenDot(bol, f, i)
  }

  ghost predicate OnlyCr(f: seq<byte>) {
    forall i :: 0 <= i < |f| ==> f[i] == CR
  }

  // ---------- The transducer ----------

  lemma {:induction false} StuffedNothing(f: seq<byte>)
    requires f == []
    ensures forall bol :: Stuffed(bol, f) == []
  {
  }

  lemma {:induction false} StuffedStep(bol: bool, f: seq<byte>)
    requires f != []
    ensures Stuffed(bol, f) == FirstStuffed(bol, f[0]) + Stuffed(BolNext(bol, f[0]), f[1..])
    ensures BolAfter(bol, f) == BolAfter(BolNext(bol, f[0]), f[1..])
  {
  }

  lemma {:induction false} StuffedAppend(bol: bool, f: seq<byte>, g: seq<byte>)
    ensures Stuffed(bol, f + g) == Stuffed(bol, f) + Stuffed(BolAfter(bol, f), g)
    ensures BolAfter(bol, f + g) == BolAfter(BolAfter(bol, f), g)
    decreases f
  {
    hide Stuffed, FirstStuffed, BolNext;
    if f == [] {
      StuffedNothing(f);
      assert f + g == g && [] + Stuffed(bol, g) == Stuffed(bol, g);
    } else {
      var bol', rest := BolNext(bol, f[0]), f[1..];
      assert (f + g)[0] == f[0] && (f + g)[1..] == rest + g;
      StuffedAppend(bol', rest, g);
      StuffedStep(bol, f);
      StuffedStep(bol, f + g);
      var first, x, y := FirstStuffed(bol, f[0]), Stuffed(bol', rest), Stuffed(BolAfter(bol', rest), g);
      assert first + (x + y) == first + x + y;
    }
  }

  lemma {:induction false} CodedStep(start: bool, f: seq<byte>)
    requires f != []
    ensures Coded(start, f) == FirstStuffed(start, f[0]) + Coded(f[0] == LF, f[1..])
  {
  }

  lemma {:induction false} CodedNothing(f: seq<byte>)
    requires f == []
    ensures forall start :: Coded(start, f) == []
  {
  }

  /** At most two bytes out for each byte in. */
  lemma {:induction false} CodedSize(start: bool, f: seq<byte>)
    ensures |Coded(start, f)| <= 2 * |f|
    decreases f
  {
    if f != [] { CodedSize(f[0] == LF, f[1..]); }
  }

  /** The last byte written for a chunk tells whether the wire is at the beginning of a line. */
  lemma {:induction false} LastByteTells(start: bool, bol: bool, f: seq<byte>)
    ensures Coded(start, f) == [] <==> OnlyCr(f)
    ensures OnlyCr(f) ==> BolAfter(bol, f) == bol
    ensures !OnlyCr(f) ==> BolAfter(bol, f) == (Coded(start, f)[|Coded(start, f)| - 1] == LF)
    decreases f
  {
    hide Coded, BolAfter, OnlyCr;
    if f == [] {
      CodedNothing(f);
      OnlyCrNothing(bol);
    } else {
      LastByteTells(f[0] == LF, BolNext(bol, f[0]), f[1..]);
      CodedStep(start, f);
      StuffedStep(bol, f);
      OnlyCrStep(f);
    }
  }

  lemma {:induction false} OnlyCrNothing(bol: bool)
    ensures OnlyCr([]) && BolAfter(bol, []) == bol
  {
  }

  lemma {:induction false} OnlyCrStep(f: seq<byte>)
    requires f != []
    ensures OnlyCr(f) <==> f[0] == CR && OnlyCr(f[1..])
  {
    if f[0] == CR && OnlyCr(f[1..]) {
      assert forall i :: 0 < i < |f| ==> f[i] == f[1..][i - 1];
    }
    if OnlyCr(f) {
      assert forall i :: 0 <= i < |f| - 1 ==> f[1..][i] == f[i + 1];
    }
  }

  // ---------- Where the loops differ from the transducer ----------

  lemma {:induction false} HiddenDotLater(bol: bool, f: seq<byte>, i: nat)
    requires 1 < i < |f|
    ensures HiddenDot(bol, f, i) <==> HiddenDot(BolNext(bol, f[0]), f[1..], i - 1)
  {
    assert f[..i][1..] == f[1..][..i - 1];
  }

  lemma {:induction false} HiddenDotFirst(bol: bool, f: seq<byte>)
    requires |f| > 1
    ensures HiddenDot(bol, f, 1) <==> f[0] == CR && f[1] == DOT && bol
  {
    assert f[..1] == [f[0]] && BolAfter(bol, [f[0]]) == BolAfter(BolNext(bol, f[0]), []);
  }

  lemma {:induction false} HiddenDotStep(bol: bool, f: seq<byte>)
    requires f != []
    ensures NoHiddenDot(bol, f) <==>
      NoHiddenDot(BolNext(bol, f[0]), f[1..]) && !(|f| > 1 && f[0] == CR && f[1] == DOT && bol)
  {
    hide HiddenDot, BolNext;
    var bol', rest := BolNext(bol, f[0]), f[1..];
    if |f| > 1 { HiddenDotFirst(bol, f); }
    forall i | 1 < i < |f| ensures HiddenDot(bol, f, i) <==> HiddenDot(bol', rest, i - 1) {
      HiddenDotLater(bol, f, i);
    }
    assert forall i :: 0 < i < |rest| ==> (HiddenDot(bol', rest, i) <==> HiddenDot(bol, f, i + 1));
  }

  /** The loops do what the transducer does exactly when no dot is hidden; otherwise they write less. */
  lemma {:induction false} CodedIs(start: bool, bol: bool, f: seq<byte>)
    requires start ==> bol
    ensures |Coded(start, f)| <= |Stuffed(bol, f)|
    ensures |Coded(start, f)| == |Stuffed(bol, f)| ==> Coded(start, f) == Stuffed(bol, f)
    ensures Coded(start, f) == Stuffed(bol, f) <==>
      NoHiddenDot(bol, f) && !(f != [] && f[0] == DOT && bol && !start)
    decreases f
  {
    hide Coded, Stuffed, NoHiddenDot;
    if f == [] {
      CodedNothing(f);
      StuffedNothing(f);
      NothingHidden(bol);
    } else {
      CodedIs(f[0] == LF, BolNext(bol, f[0]), f[1..]);
      CodedStep(start, f);
      StuffedStep(bol, f);
      HiddenDotStep(bol, f);
    }
  }

  lemma {:induction false} NothingHidden(bol: bool)
    ensures NoHiddenDot(bol, [])
  {
  }

  lemma {:induction false} NoHiddenDotAppend(bol: bool, f: seq<byte>, g: seq<byte>)
    requires NoHiddenDot(bol, f + g)
    ensures NoHiddenDot(bol, f) && NoHiddenDot(BolAfter(bol, f), g)
  {
    hide BolAfter;
    forall i | 0 < i < |f| ensures !HiddenDot(bol, f, i) {
      assert !HiddenDot(bol, f + g, i) && (f + g)[..i] == f[..i];
    }
    forall i | 0 < i < |g| ensures !HiddenDot(BolAfter(bol, f), g, i) {
      StuffedAppend(bol, f, g[..i]);
      assert !HiddenDot(bol, f + g, |f| + i) && (f + g)[..|f| + i] == f + g[..i];
    }
  }

  // ---------- One chunk ----------

  /** `out` has been written of `goal`, and the bytes for `rest` are missing. */
  ghost predicate Encoding(goal: seq<byte>, out: seq<byte>, start: bool, rest: seq<byte>) {
    goal == out + Coded(start, rest)
  }

  lemma {:induction false} EncodingBegins(start: bool, f: seq<byte>)
    ensures Encoding(Coded(start, f), [], start, f)
  {
  }

  /** Everything is written, and the last byte tells about the beginning of a line. */
  lemma {:induction false} EncodingEnds(bol: bool, f: seq<byte>, out: seq<byte>, start: bool, rest: seq<byte>)
    requires rest == [] && Encoding(Coded(bol, f), out, start, rest)
    ensures out == Coded(bol, f)
    ensures BolAfter(bol, f) == if out == [] then bol else out[|out| - 1] == LF
  {
    hide Coded, BolAfter;
    CodedNothing(rest);
    assert out + [] == out;
    LastByteTells(bol, bol, f);
  }

  /** What the loops take of a chunk. */
  ghost predicate IsText(t: seq<byte>, sbuf: seq<byte>) {
    && |t| <= |sbuf| && (|t| < |sbuf| ==> sbuf[|t|] == NUL)
    && forall i :: 0 <= i < |t| ==> t[i] == sbuf[i] != NUL
  }

  lemma {:induction false} ChunkText(sbuf: seq<byte>)
    ensures IsText(TextOf(sbuf), sbuf)
  {
    hide TextOf;
    TextOfIs(sbuf);
  }

  lemma {:induction false} TextGoesOn(t: seq<byte>, sbuf: seq<byte>, m: nat)
    requires IsText(t, sbuf) && m <= |t|
    ensures m < |sbuf| && sbuf[m] != NUL <==> m < |t|
    ensures m < |t| ==> t[m..] != [] && t[m..][0] == sbuf[m]
  {
  }

  /** The loops that turn one chunk of the file, up to a NUL, into the contents of body_buf. */
  method EncodeChunk(sbuf: seq<byte>, body: array<byte>, atLineStart: bool) returns (n: nat, isEndline: bool)
    requires body.Length == 8192 && |sbuf| <= 4095
    requires TextOf(sbuf) == [] || !OnlyCr(TextOf(sbuf))
    modifies body
    ensures n <= 2 * |sbuf| && body[..n] == Coded(atLineStart, TextOf(sbuf))
    ensures isEndline == BolAfter(atLineStart, TextOf(sbuf))
  {
    hide Coded, BolAfter, TextOf, OnlyCr, Encoding, IsText;
    ghost var t := TextOf(sbuf);
    ghost var goal := Coded(atLineStart, t);
    ChunkText(sbuf);
    CodedSize(atLineStart, t);
    LastByteTells(atLineStart, atLineStart, t);
    EncodingBegins(atLineStart, t);
    isEndline := atLineStart;
    n := 0;
    var m := 0;
    assert t[0..] == t && body[..0] == [];
    TextGoesOn(t, sbuf, 0);
    while m < |sbuf| && sbuf[m] != NUL
      invariant m <= |t| && n <= |goal| && (m < |sbuf| && sbuf[m] != NUL <==> m < |t|)
      invariant if n == 0 then m == 0 && isEndline == atLineStart else isEndline == (body[n - 1] == LF)
      invariant Encoding(goal, body[..n], isEndline, t[m..])
      decreases |sbuf| - m
    {
      TextGoesOn(t, sbuf, m);
      n := EncodeDot(sbuf, body, n, m, isEndline, goal, t[m..]);
      n, m := EncodeLine(sbuf, body, n, m, goal, t);
      isEndline := body[n - 1] == LF;
      TextGoesOn(t, sbuf, m);
    }
    EncodingEnds(atLineStart, t, body[..n], isEndline, t[m..]);
  }

  /** A dot at the beginning of a line is doubled. */
  method EncodeDot(sbuf: seq<byte>, body: array<byte>, n0: nat, m: nat, isEndline: bool, ghost goal: seq<byte>,
                   ghost rest: seq<byte>)
    returns (n: nat)
    requires body.Length == 8192 && |goal| <= 8190 && n0 <= |goal| && m < |sbuf| && rest != [] && rest[0] == sbuf[m]
    requires Encoding(goal, body[..n0], isEndline, rest)
    modifies body
    ensures n <= |goal| && Encoding(goal, body[..n], false, rest)
  {
    hide Encoding;
    n := n0;
    EncodingDot(goal, body[..n], isEndline, rest);
    if isEndline && sbuf[m] == DOT {
      body[n] := sbuf[m];
      n := n + 1;
      assert body[..n] == body[..n - 1] + [DOT];
    }
  }

  lemma {:induction false} EncodingDot(goal: seq<byte>, out: seq<byte>, start: bool, rest: seq<byte>)
    requires Encoding(goal, out, start, rest) && rest != []
    ensures start && rest[0] == DOT ==> |out| < |goal| && Encoding(goal, out + [DOT], false, rest)
    ensures !(start && rest[0] == DOT) ==> Encoding(goal, out, false, rest)
  {
    hide Coded;
    CodedStep(start, rest);
    CodedStep(false, rest);
    if start && rest[0] == DOT {
      var more := Coded(false, rest[1..]);
      assert out + ([DOT, DOT] + more) == out + [DOT] + ([DOT] + more);
    }
  }

  /** The inner loop: the bytes up to and including the next LF, or up to the end of the text. */
  method EncodeLine(sbuf: seq<byte>, body: array<byte>, n0: nat, m0: nat, ghost goal: seq<byte>, ghost t: seq<byte>)
    returns (n: nat, m: nat)
    requires body.Length == 8192 && |goal| <= 8190 && n0 <= |goal| && m0 < |t|
    requires IsText(t, sbuf) && goal != [] && Encoding(goal, body[..n0], false, t[m0..])
    modifies body
    ensures m0 < m <= |t| && 0 < n <= |goal|
    ensures Encoding(goal, body[..n], body[n - 1] == LF, t[m..])
  {
    hide Encoding;
    n, m := n0, m0;
    while m < |sbuf| && sbuf[m] != NUL
      invariant m0 <= m <= |t| && n <= |goal|
      invariant Encoding(goal, body[..n], false, t[m..])
      decreases |sbuf| - m
    {
      EncodingByte(goal, body[..n], t[m..]);
      assert t[m..][1..] == t[m + 1..] && t[m..][0] == sbuf[m];
      if sbuf[m] != LF {
        if sbuf[m] != CR {
          body[n] := sbuf[m];
          n := n + 1;
          assert body[..n] == body[..n - 1] + [sbuf[m]];
        }
        m := m + 1;
      } else {
        body[n] := CR;
        body[n + 1] := LF;
        n := n + 2;
        assert body[..n] == body[..n - 2] + [CR, LF];
        m := m + 1;
        return;
      }
    }
    EncodingDone(goal, body[..n], t[m..]);
  }

  lemma {:induction false} EncodingByte(goal: seq<byte>, out: seq<byte>, rest: seq<byte>)
    requires Encoding(goal, out, false, rest) && rest != []
    ensures
      var more := if rest[0] == LF then [CR, LF] else [rest[0]];
      if rest[0] == CR then Encoding(goal, out, false, rest[1..])
      else |out| + |more| <= |goal| && Encoding(goal, out + more, rest[0] == LF, rest[1..])
  {
    hide Coded;
    CodedStep(false, rest);
    assert out + [] == out;
    assert out + FirstStuffed(false, rest[0]) + Coded(rest[0] == LF, rest[1..]) == goal;
  }

  lemma {:induction false} EncodingDone(goal: seq<byte>, out: seq<byte>, rest: seq<byte>)
    requires Encoding(goal, out, false, rest) && rest == []
    ensures goal == out && forall start :: Encoding(goal, out, start, rest)
  {
    CodedNothing(rest);
  }

  // ---------- The whole file ----------

  /** What one call of swrite does: send at least one byte, be interrupted, or fail. */
  datatype SendResult = Sent(more: nat) | Interrupted | Failed

  /** The connection. `plan` is what the next calls of swrite will do; after it, calls send everything. */
  class Socket {
    var wire: seq<byte>
    var plan: seq<SendResult>

    constructor (plan: seq<SendResult>)
      ensures wire == [] && this.plan == plan
    {
      wire, this.plan := [], plan;
    }

    /** swrite: the number of bytes sent, 0 when interrupted, -1 when it failed. */
    method Send(data: seq<byte>) returns (w: int)
      requires data != []
      modifies this
      ensures plan == if old(plan) == [] then [] else old(plan)[1..]
      ensures w == -1 || 0 <= w <= |data|
      ensures w >= 0 ==> wire == old(wire) + data[..w]
      ensures w == 0 ==> old(plan) != []
      ensures w == -1 ==> old(plan) != [] && old(plan)[0] == Failed && wire == old(wire)
      ensures old(plan) == [] ==> w == |data|
    {
      var next := if plan == [] then Sent(|data| - 1) else plan[0];
      plan := if plan == [] then [] else plan[1..];
      match next {
        case Failed => return -1;
        case Interrupted => w := 0;
        case Sent(more) => w := if more < |data| then more + 1 else |data|;
      }
      wire := wire + data[..w];
    }
  }

  /** The write loop of blast for one chunk. */
  method SendAll(sock: Socket, data: seq<byte>) returns (ok: bool)
    modifies sock
    ensures ok ==> sock.wire == old(sock.wire) + data
    ensures old(sock.wire) <= sock.wire <= old(sock.wire) + data
    ensures Failed !in old(sock.plan) ==> ok && Failed !in sock.plan
    ensures old(sock.plan) == [] ==> sock.plan == []
  {
    var left := data;
    ghost var done: seq<byte> := [];
    while |left| > 0
      invariant data == done + left && sock.wire == old(sock.wire) + done
      invariant Failed !in old(sock.plan) ==> Failed !in sock.plan
      invariant old(sock.plan) == [] ==> sock.plan == []
      decreases |sock.plan|, |left|
    {
      var w := sock.Send(left);
      SendingGoesOn(old(sock.wire), data, done, left, if w < 0 then 0 else w);
      if w < 0 { return false; }
      done := done + left[..w];
      left := left[w..];
    }
    assert data == done;
    return true;
  }

  /** `done` has been sent of `data`, and the next `w` bytes of `left` are. */
  lemma {:induction false} SendingGoesOn(wire: seq<byte>, data: seq<byte>, done: seq<byte>, left: seq<byte>, w: nat)
    requires data == done + left && w <= |left|
    ensures data == done + left[..w] + left[w..] && wire + done + left[..w] == wire + (done + left[..w])
    ensures wire <= wire + done <= wire + data
  {
    assert wire + data == wire + done + left;
  }

  /** What blast reads at a time: at most 4095 bytes, whose text is not CRs only. */
  ghost predicate ReadChunks(chunks: seq<seq<byte>>) {
    forall i :: 0 <= i < |chunks| ==> ReadChunk(chunks[i])
  }

  ghost predicate ReadChunk(chunk: seq<byte>) {
    |chunk| <= 4095 && (TextOf(chunk) == [] || !OnlyCr(TextOf(chunk)))
  }

  /** What the loops take of the file: of every chunk, the bytes before a NUL. */
  function Text(chunks: seq<seq<byte>>): seq<byte> {
    if chunks == [] then [] else Text(chunks[..|chunks| - 1]) + TextOf(chunks[|chunks| - 1])
  }

  /** What blast sends. */
  function Wire(chunks: seq<seq<byte>>): seq<byte> {
    if chunks == [] then []
    else
      var before := chunks[..|chunks| - 1];
      Wire(before) + Coded(BolAfter(true, Text(before)), TextOf(chunks[|chunks| - 1]))
  }

  lemma {:induction false} OneMoreChunk(chunks: seq<seq<byte>>, i: nat)
    requires i < |chunks|
    ensures Text(chunks[..i + 1]) == Text(chunks[..i]) + TextOf(chunks[i])
    ensures Wire(chunks[..i + 1]) == Wire(chunks[..i]) + Coded(BolAfter(true, Text(chunks[..i])), TextOf(chunks[i]))
  {
    assert chunks[..i + 1][..i] == chunks[..i];
  }

  lemma {:induction false} WirePrefix(chunks: seq<seq<byte>>, i: nat, wire: seq<byte>)
    requires i <= |chunks|
    ensures wire + Wire(chunks[..i]) <= wire + Wire(chunks)
    decreases |chunks| - i
  {
    hide Wire;
    if i < |chunks| {
      OneMoreChunk(chunks, i);
      WirePrefix(chunks, i + 1, wire);
    } else {
      assert chunks[..i] == chunks;
    }
  }

  /** blast. When a write fails, only a beginning has been sent. */
  method Blast(chunks: seq<seq<byte>>, sock: Socket) returns (ok: bool, sent: nat)
    requires ReadChunks(chunks)
    modifies sock
    ensures ok ==> sock.wire == old(sock.wire) + Wire(chunks) && sent == |Wire(chunks)|
    ensures old(sock.wire) <= sock.wire <= old(sock.wire) + Wire(chunks)
    ensures Failed !in old(sock.plan) ==> ok && Failed !in sock.plan
    ensures old(sock.plan) == [] ==> sock.plan == []
  {
    hide Coded, BolAfter, Text, Wire, TextOf;
    var isEndline := true;
    var body := new byte[8192];
    sent := 0;
    StartOfFile(chunks);
    for i := 0 to |chunks|
      invariant isEndline == BolAfter(true, Text(chunks[..i]))
      invariant sock.wire == old(sock.wire) + Wire(chunks[..i])
      invariant sent == |Wire(chunks[..i])|
      invariant Failed !in old(sock.plan) ==> Failed !in sock.plan
      invariant old(sock.plan) == [] ==> sock.plan == []
    {
      assert ReadChunk(chunks[i]);
      OneMoreChunk(chunks, i);
      StuffedAppend(true, Text(chunks[..i]), TextOf(chunks[i]));
      var n;
      n, isEndline := EncodeChunk(chunks[i], body, isEndline);
      var wrote := SendAll(sock, body[..n]);
      if !wrote {
        WirePrefix(chunks, i + 1, old(sock.wire));
        return false, sent;
      }
      sent := sent + n;
    }
    assert chunks[..|chunks|] == chunks;
    return true, sent;
  }

  lemma {:induction false} StartOfFile(chunks: seq<seq<byte>>)
    ensures Text(chunks[..0]) == [] && Wire(chunks[..0]) == [] && BolAfter(true, [])
  {
  }

  // ---------- What is sent, and the division of the file ----------

  /** No dot of chunk `i` is hidden by CRs of the same chunk. */
  ghost predicate ChunkClear(chunks: seq<seq<byte>>, i: nat)
    requires i < |chunks|
  {
    NoHiddenDot(BolAfter(true, Text(chunks[..i])), TextOf(chunks[i]))
  }

  /** What is sent depends on the text alone, not on where the reads divide it, exactly when no CRs between the
      beginning of a line and a dot are read together with the dot. */
  lemma {:induction false} WireIsStuffed(chunks: seq<seq<byte>>)
    ensures Wire(chunks) == Stuffed(true, Text(chunks)) <==> forall i :: 0 <= i < |chunks| ==> ChunkClear(chunks, i)
  {
    assert chunks[..|chunks|] == chunks;
    WireUpTo(chunks, |chunks|);
  }

  lemma {:induction false} WireUpTo(chunks: seq<seq<byte>>, n: nat)
    requires n <= |chunks|
    ensures |Wire(chunks[..n])| <= |Stuffed(true, Text(chunks[..n]))|
    ensures Wire(chunks[..n]) == Stuffed(true, Text(chunks[..n])) <==> forall i :: 0 <= i < n ==> ChunkClear(chunks, i)
  {
    hide Wire, Text, Stuffed, Coded, BolAfter, TextOf, NoHiddenDot;
    if n == 0 {
      StartOfFile(chunks);
      StuffedNothing(Text(chunks[..0]));
    } else {
      var f, t := Text(chunks[..n - 1]), TextOf(chunks[n - 1]);
      var bol := BolAfter(true, f);
      WireUpTo(chunks, n - 1);
      OneMoreChunk(chunks, n - 1);
      StuffedAppend(true, f, t);
      CodedIs(bol, bol, t);
      SumsEqual(Wire(chunks[..n - 1]), Coded(bol, t), Stuffed(true, f), Stuffed(bol, t));
      assert ChunkClear(chunks, n - 1) <==> NoHiddenDot(bol, t);
    }
  }

  lemma {:induction false} SumsEqual(a: seq<byte>, b: seq<byte>, c: seq<byte>, d: seq<byte>)
    requires |a| <= |c| && |b| <= |d|
    ensures a + b == c + d <==> a == c && b == d
  {
    if a + b == c + d {
      assert |a + b| == |c + d|;
      assert a == (a + b)[..|a|] && c == (c + d)[..|c|];
      assert b == (a + b)[|a|..] && d == (c + d)[|c|..];
    }
  }

  /** Where the text hides no dot, no read does. */
  lemma {:induction false} ChunksClear(chunks: seq<seq<byte>>, n: nat)
    requires n <= |chunks| && NoHiddenDot(true, Text(chunks[..n]))
    ensures forall i :: 0 <= i < n ==> ChunkClear(chunks, i)
  {
    hide Text, NoHiddenDot;
    if n > 0 {
      OneMoreChunk(chunks, n - 1);
      NoHiddenDotAppend(true, Text(chunks[..n - 1]), TextOf(chunks[n - 1]));
      ChunksClear(chunks, n - 1);
    }
  }

  /** A file without NULs and without hidden dots goes over the wire as the transducer says, whatever the reads are. */
  lemma {:induction false} FileSent(chunks: seq<seq<byte>>)
    requires NoNul(Concat(chunks)) && NoHiddenDot(true, Concat(chunks))
    ensures Wire(chunks) == Stuffed(true, Concat(chunks))
  {
    hide Wire, Stuffed, Concat, NoNul, NoHiddenDot, ChunkClear;
    assert chunks[..|chunks|] == chunks;
    TextIsFile(chunks, |chunks|);
    ChunksClear(chunks, |chunks|);
    WireIsStuffed(chunks);
  }

  lemma {:induction false} TextIsFile(chunks: seq<seq<byte>>, n: nat)
    requires n <= |chunks| && NoNul(Concat(chunks))
    ensures Text(chunks[..n]) == Concat(chunks[..n])
  {
    hide Concat, TextOf, Text;
    if n == 0 {
      ConcatNone(chunks);
      StartOfFile(chunks);
    } else {
      TextIsFile(chunks, n - 1);
      OneMoreChunk(chunks, n - 1);
      ConcatSnoc(chunks, n - 1);
      assert chunks == chunks[..n] + chunks[n..];
      ConcatAppend(chunks[..n], chunks[n..]);
      WholeText(Concat(chunks[..n - 1]), chunks[n - 1], Concat(chunks[n..]));
    }
  }

  lemma {:induction false} WholeText(a: seq<byte>, b: seq<byte>, c: seq<byte>)
    requires NoNul(a + b + c)
    ensures TextOf(b) == b
  {
    hide TextOf;
    TextOfIs(b);
    if |TextOf(b)| < |b| { assert b[|TextOf(b)|] == (a + b + c)[|a| + |TextOf(b)|]; }
  }

  // ---------- The reads of a regular file ----------

  /** What a regular file yields, 4095 bytes at a time. */
  function Pieces(f: seq<byte>): seq<seq<byte>>
    decreases |f|
  {
    if |f| <= 4095 then if f == [] then [] else [f] else [f[..4095]] + Pieces(f[4095..])
  }

  /** Every CR is followed by LF, except perhaps at the very end. */
  ghost predicate CrBeforeLf(f: seq<byte>) {
    forall i :: 0 <= i < |f| - 1 && f[i] == CR ==> f[i + 1] == LF
  }

  /** The reads of a regular file yield the file. Where every CR is followed by LF, no read yields only CRs, unless the
      last one yields a lone CR. */
  lemma {:induction false} PiecesAreChunks(f: seq<byte>)
    requires NoNul(f) && CrBeforeLf(f)
    ensures Concat(Pieces(f)) == f
    ensures ReadChunks(Pieces(f)) <==> |f| % 4095 != 1 || f[|f| - 1] != CR
    decreases |f|
  {
    hide CrBeforeLf, NoNul, Concat, ReadChunk;
    if 0 < |f| <= 4095 {
      PieceOnlyCr(f);
      ConcatNone(Pieces(f));
      ConcatCons(f, Pieces(f)[..0]);
      assert [f] + Pieces(f)[..0] == Pieces(f) == [f] && f + [] == f;
      assert ReadChunks([f]) <==> ReadChunk([f][0]);
      assert |f| % 4095 == 1 <==> |f| == 1;
    } else if |f| > 4095 {
      var head, rest := f[..4095], f[4095..];
      PartOfFile(f, 4095);
      PieceOnlyCr(head);
      PiecesAreChunks(rest);
      ConcatCons(head, Pieces(rest));
      ChunksCons(head, Pieces(rest));
      assert |f| % 4095 == |rest| % 4095;
    } else {
      ConcatNone(Pieces(f));
      assert Pieces(f)[..0] == Pieces(f);
    }
  }

  lemma {:induction false} ChunksCons(head: seq<byte>, chunks: seq<seq<byte>>)
    requires ReadChunk(head)
    ensures ReadChunks([head] + chunks) <==> ReadChunks(chunks)
  {
    hide ReadChunk;
    if ReadChunks([head] + chunks) {
      forall i | 0 <= i < |chunks| ensures ReadChunk(chunks[i]) {
        assert chunks[i] == ([head] + chunks)[i + 1];
      }
    }
  }

  /** Two CRs in a row are no line end. */
  lemma {:induction false} PieceOnlyCr(f: seq<byte>)
    requires NoNul(f) && CrBeforeLf(f) && 0 < |f| <= 4095
    ensures ReadChunk(f) <==> f != [CR]
  {
    hide TextOf;
    TextOfIs(f);
    if |TextOf(f)| < |f| { assert f[|TextOf(f)|] == NUL; }
    assert TextOf(f) == f;
    if |f| > 1 { assert f[0] == CR ==> f[1] == LF; }
  }

  lemma {:induction false} PartOfFile(f: seq<byte>, m: nat)
    requires NoNul(f) && CrBeforeLf(f) && m <= |f|
    ensures NoNul(f[..m]) && CrBeforeLf(f[..m]) && NoNul(f[m..]) && CrBeforeLf(f[m..])
  {
    forall i | 0 <= i < |f[m..]| - 1 && f[m..][i] == CR ensures f[m..][i + 1] == LF {
      assert f[m + i] == CR;
    }
  }

  /** A file whose CRs all belong to line ends is sent as the transducer says. */
  lemma {:induction false} RegularFileSent(f: seq<byte>)
    requires NoNul(f) && CrOnlyInCrlf(f)
    ensures ReadChunks(Pieces(f)) && Concat(Pieces(f)) == f && Wire(Pieces(f)) == Stuffed(true, f)
  {
    hide ReadChunks, Concat, Wire, Stuffed, BolAfter, Pieces, NoNul;
    PiecesAreChunks(f);
    FileSent(Pieces(f));
  }
}
