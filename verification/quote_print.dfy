/** c/src/code/quote_print.c: quoted-printable, both directions. */
module QuotePrint {
  import opened Options
  import opened Bytes
  import opened MailLines

  const MAXL: nat := 75
  const EQUALS: byte := 61
  const SPACE: byte := 32

  // ---------- The encoder ----------

  function HexDigit(n: nat): byte
    requires n < 16
  {
    if n < 10 then 48 + n else 55 + n
  }

  /** The byte after the first one; `beyond` is what lies in memory behind the string. */
  function Peek(s: seq<byte>, beyond: byte): byte {
    if |s| > 1 then s[1] else beyond
  }

  predicate NeedsEscape(c: byte, next: byte) {
    c < 32 || c == 127 || c >= 128 || c == EQUALS || (c == SPACE && next == CR)
  }

  /** Whether a soft line break comes before the escape of `c`, when the line would then be `lp` long: room is
      left for the other bytes of a UTF-8 sequence that `c` begins. */
  predicate BreakBefore(c: byte, lp: nat) {
    || (c <= 0x7f && lp > MAXL)
    || (0x7f < c <= 0xdf && lp + 3 > MAXL)
    || (0xdf < c <= 0xef && lp + 6 > MAXL)
    || (0xef < c <= 0xf4 && lp + 9 > MAXL)
  }

  /** What one round of the loop writes, how many bytes it takes, and the new line position. */
  datatype Token = Token(out: seq<byte>, used: nat, lp: nat)

  const SOFT_BREAK: seq<byte> := [EQUALS, CR, LF]

  function Escape(c: byte): seq<byte> {
    [EQUALS, HexDigit(c / 16), HexDigit(c % 16)]
  }

  function NextToken(s: seq<byte>, lp: nat, beyond: byte): (t: Token)
    requires s != []
    ensures 1 <= t.used <= |s|
  {
    var c, next := s[0], Peek(s, beyond);
    if c == CR && next == LF && |s| > 1 then Token([CR, LF], 2, 0)
    else if NeedsEscape(c, next) then
      if BreakBefore(c, lp + 3) then Token(SOFT_BREAK + Escape(c), 1, 3) else Token(Escape(c), 1, lp + 3)
    else
      if lp + 1 > MAXL then Token(SOFT_BREAK + [c], 1, 1) else Token([c], 1, lp + 1)
  }

  /** The encoding of `s` from line position `lp` on. */
  function Encoded(s: seq<byte>, lp: nat, beyond: byte): seq<byte>
    decreases |s|
  {
    if s == [] then []
    else
      var t := NextToken(s, lp, beyond);
      t.out + Encoded(s[t.used..], t.lp, beyond)
  }

  // ---------- The decoder ----------

  /** hexval_tbl: a hexadecimal digit's value, 16 for CR and LF, 32 for blanks, 64 for anything else. */
  function HexVal(c: byte): nat {
    if c == 9 || c == SPACE then 32
    else if c == LF || c == CR then 16
    else if 48 <= c <= 57 then c - 48
    else if 65 <= c <= 70 then c - 55
    else if 97 <= c <= 102 then c - 87
    else 64
  }

  /** The number of blanks at the beginning of `s`. */
  function Blanks(s: seq<byte>): (k: nat)
    ensures k <= |s| && (k < |s| ==> HexVal(s[k]) != 32)
    ensures forall i :: 0 <= i < k ==> HexVal(s[i]) == 32
  {
    if s != [] && HexVal(s[0]) == 32 then 1 + Blanks(s[1..]) else 0
  }

  /** What follows a soft line break whose text begins at `r`, behind the equals sign; None when it is malformed. */
  function AfterBreak(r: seq<byte>): (x: Option<seq<byte>>)
    ensures x.Some? ==> |x.value| < |r|
  {
    var k := Blanks(r);
    if k == |r| || HexVal(r[k]) == 64 then None
    else if r[k] == CR && |r| - k >= 2 && r[k + 1] == LF then Some(r[k + 2..])
    else Some(r[k + 1..])
  }

  /** The text that `s` encodes; None for a malformed encoding. A NUL ends the input. */
  function Decoded(s: seq<byte>): Option<seq<byte>>
    decreases |s|
  {
    if s == [] || s[0] == NUL then Some([])
    else if s[0] != EQUALS then Append([s[0]], Decoded(s[1..]))
    else if |s| == 1 || s[1] == NUL then Some([])
    else if HexVal(s[1]) < 16 then
      if |s| == 2 || HexVal(s[2]) >= 16 then None
      else Append([HexVal(s[1]) * 16 + HexVal(s[2])], Decoded(s[3..]))
    else if HexVal(s[1]) < 64 then
      match AfterBreak(s[1..]) case None => None case Some(x) => Decoded(x)
    else None
  }

  /** The sizing pre-pass: two bytes less for every equals sign it sees. */
  function PrePass(s: seq<byte>): (n: nat)
    ensures n <= |s|
    decreases |s|
  {
    if |s| <= 1 || s[0] == NUL then |s|
    else if s[0] == EQUALS then PrePass(s[2..])
    else 1 + PrePass(s[1..])
  }

  // ---------- Round trip ----------

  lemma {:induction false} DecodePlain(c: byte, x: seq<byte>)
    requires c != NUL && c != EQUALS
    ensures Decoded([c] + x) == Append([c], Decoded(x))
  {
    assert ([c] + x)[1..] == x;
  }

  lemma {:induction false} DecodeEscape(c: byte, x: seq<byte>)
    ensures Decoded(Escape(c) + x) == Append([c], Decoded(x))
  {
    var s := Escape(c) + x;
    assert s[3..] == x;
    assert HexVal(HexDigit(c / 16)) == c / 16 && HexVal(HexDigit(c % 16)) == c % 16;
    assert s[1] == HexDigit(c / 16) && s[2] == HexDigit(c % 16);
  }

  lemma {:induction false} DecodeBreak(x: seq<byte>)
    ensures Decoded(SOFT_BREAK + x) == Decoded(x)
  {
    var s := SOFT_BREAK + x;
    var r := s[1..];
    assert r[0] == CR && r[1] == LF && r[2..] == x;
    assert Blanks(r) == 0;
  }

  /** Decoding a token gives back the bytes it was made from. */
  lemma {:induction false} DecodeToken(s: seq<byte>, lp: nat, beyond: byte, x: seq<byte>)
    requires s != []
    ensures
      var t := NextToken(s, lp, beyond);
      Decoded(t.out + x) == Append(s[..t.used], Decoded(x))
  {
    hide Decoded, Escape;
    var t, c := NextToken(s, lp, beyond), s[0];
    if t.used == 2 {
      assert t.out + x == [CR] + ([LF] + x);
      DecodePlain(CR, [LF] + x);
      DecodePlain(LF, x);
      if Decoded(x).Some? { assert [CR] + ([LF] + Decoded(x).value) == s[..2] + Decoded(x).value; }
    } else {
      assert s[..1] == [c];
      var plain := if NeedsEscape(c, Peek(s, beyond)) then Escape(c) else [c];
      if NeedsEscape(c, Peek(s, beyond)) { DecodeEscape(c, x); } else { DecodePlain(c, x); }
      if t.out != plain {
        assert t.out + x == SOFT_BREAK + (plain + x);
        DecodeBreak(plain + x);
      }
    }
  }

  /** Every byte string survives encoding and decoding. */
  lemma {:induction false} RoundTrip(s: seq<byte>, lp: nat, beyond: byte)
    ensures Decoded(Encoded(s, lp, beyond)) == Some(s)
    decreases |s|
  {
    hide Decoded, NextToken;
    if s == [] {
      DecodeNothing();
    } else {
      var t := NextToken(s, lp, beyond);
      RoundTrip(s[t.used..], t.lp, beyond);
      DecodeToken(s, lp, beyond, Encoded(s[t.used..], t.lp, beyond));
      assert s == s[..t.used] + s[t.used..];
    }
  }

  lemma {:induction false} DecodeNothing()
    ensures Decoded([]) == Some([])
  {
  }

  // ---------- Sizes ----------

  /** A soft-broken line has taken at least 22 bytes, so the output is bounded. */
  lemma {:induction false} EncodedSize(s: seq<byte>, lp: nat, beyond: byte)
    ensures 22 * |Encoded(s, lp, beyond)| <= 69 * |s| + 3 * ((lp + 2) / 3)
    decreases |s|
  {
    if s != [] {
      var t := NextToken(s, lp, beyond);
      EncodedSize(s[t.used..], t.lp, beyond);
      TokenSize(s, lp, beyond);
    }
  }

  lemma {:induction false} TokenSize(s: seq<byte>, lp: nat, beyond: byte)
    requires s != []
    ensures
      var t := NextToken(s, lp, beyond);
      22 * |t.out| + 3 * ((t.lp + 2) / 3) <= 69 * t.used + 3 * ((lp + 2) / 3)
  {
  }

  /** The size of the output buffer. */
  function EncodeCapacity(n: nat): nat {
    3 * (n + (3 * n / (MAXL - 9) + 1))
  }

  /** The output and its final NUL fit in the buffer. */
  lemma {:induction false} EncodedFits(s: seq<byte>, beyond: byte)
    ensures |Encoded(s, 0, beyond)| + 1 <= EncodeCapacity(|s|)
  {
    EncodedSize(s, 0, beyond);
  }

  lemma {:induction false} LinesFitBreak(x: seq<byte>, col: nat)
    requires col <= 75
    ensures LinesFit(SOFT_BREAK + x, col) == LinesFit(x, 0)
  {
    var w: seq<byte> := [EQUALS];
    assert SOFT_BREAK + x == w + ([CR, LF] + x);
    LinesFitText(w, [CR, LF] + x, col);
    assert ([CR, LF] + x)[2..] == x;
  }

  lemma {:induction false} TokenLine(s: seq<byte>, lp: nat, beyond: byte, x: seq<byte>)
    requires s != [] && lp <= MAXL && (s[0] <= 0xf4 || lp + 3 <= MAXL)
    ensures
      var t := NextToken(s, lp, beyond);
      t.lp <= MAXL && LinesFit(t.out + x, lp) == LinesFit(x, t.lp)
  {
    hide LinesFit;
    var t, c := NextToken(s, lp, beyond), s[0];
    if t.used == 2 {
      LinesFitEnd(x, lp);
    } else {
      var plain := if NeedsEscape(c, Peek(s, beyond)) then Escape(c) else [c];
      assert CR !in plain;
      if t.out != plain {
        assert t.out + x == SOFT_BREAK + (plain + x);
        LinesFitBreak(plain + x, lp);
        LinesFitText(plain, x, 0);
      } else {
        LinesFitText(plain, x, lp);
      }
    }
  }

  /** A line end of the text comes next, or its end. */
  predicate AtLineEnd(s: seq<byte>) {
    s == [] || (|s| >= 2 && s[0] == CR && s[1] == LF)
  }

  /** The escape of a byte above 0xf4, before which the encoder never breaks the line, finds room in the line: it ends
      by column 75, or in column 76 with the line ending there anyway. */
  predicate HighByteFits(s: seq<byte>, lp: nat)
    requires s != []
  {
    s[0] > 0xf4 ==> lp + 3 <= MAXL || (lp + 3 == MAXL + 1 && AtLineEnd(s[1..]))
  }

  /** Every byte above 0xf4 finds room in its line. */
  predicate HighBytesFit(s: seq<byte>, lp: nat, beyond: byte)
    decreases |s|
  {
    s == [] || (HighByteFits(s, lp) && (var t := NextToken(s, lp, beyond); HighBytesFit(s[t.used..], t.lp, beyond)))
  }

  /** An escape that begins in one of the last columns. */
  lemma {:induction false} NoRoom(c: byte, x: seq<byte>, col: nat)
    requires 74 <= col
    ensures !LinesFit(Escape(c) + x, col)
  {
    var e := Escape(c) + x;
    assert e[0] == EQUALS && e[1] == HexDigit(c / 16) && e[2] == HexDigit(c % 16);
    assert e[1..][1..] == e[2..] && e[1..][0] == e[1] && e[2..][0] == e[2];
    assert !LinesFit(e[2..], col + 2);
    assert !LinesFit(e[1..], col + 1);
  }

  /** Column 76 is full: only a line end still fits. */
  lemma {:induction false} FullLine(s: seq<byte>, beyond: byte)
    ensures
      LinesFit(Encoded(s, 76, beyond), 76) <==>
      AtLineEnd(s) && (s == [] || LinesFit(Encoded(s[2..], 0, beyond), 0))
  {
    if s != [] {
      var t := NextToken(s, 76, beyond);
      var x := Encoded(s[t.used..], t.lp, beyond);
      var e := t.out + x;
      assert Encoded(s, 76, beyond) == e;
      if AtLineEnd(s) {
        LineEndToken(s, 76, beyond);
        LinesFitEnd(x, 76);
      } else {
        assert t.out != [] && t.out[0] != CR;
        assert e[0] == t.out[0];
      }
    }
  }

  /** The lines of the encoding keep to the 76 characters of RFC 2045 section 6.7 exactly when every byte above 0xf4
      finds room in its line. */
  lemma {:induction false} LinesFitExactly(s: seq<byte>, lp: nat, beyond: byte)
    requires lp <= MAXL
    ensures LinesFit(Encoded(s, lp, beyond), lp) <==> HighBytesFit(s, lp, beyond)
    decreases |s|
  {
    hide NextToken, LinesFit;
    if s == [] {
      NothingFits(lp, beyond);
    } else {
      var t := NextToken(s, lp, beyond);
      var x := Encoded(s[t.used..], t.lp, beyond);
      if s[0] <= 0xf4 || lp + 3 <= MAXL {
        TokenLine(s, lp, beyond, x);
        LinesFitExactly(s[t.used..], t.lp, beyond);
      } else {
        HighToken(s, lp, beyond);
        if lp + 3 == MAXL + 1 {
          LinesFitText(Escape(s[0]), x, lp);
          FullLine(s[1..], beyond);
          if AtLineEnd(s[1..]) && s[1..] != [] {
            LinesFitExactly(s[1..][2..], 0, beyond);
            LineEndToken(s[1..], 76, beyond);
          }
        } else {
          NoRoom(s[0], x, lp);
        }
      }
    }
  }

  lemma {:induction false} NothingFits(lp: nat, beyond: byte)
    ensures LinesFit(Encoded([], lp, beyond), lp)
  {
  }

  lemma {:induction false} HighToken(s: seq<byte>, lp: nat, beyond: byte)
    requires s != [] && s[0] > 0xf4
    ensures NextToken(s, lp, beyond) == Token(Escape(s[0]), 1, lp + 3) && CR !in Escape(s[0])
  {
  }

  lemma {:induction false} LineEndToken(s: seq<byte>, lp: nat, beyond: byte)
    requires AtLineEnd(s) && s != []
    ensures NextToken(s, lp, beyond) == Token([CR, LF], 2, 0)
  {
  }

  /** Text without bytes above 0xf4 never has a longer line. */
  lemma {:induction false} EncodedLines(s: seq<byte>, lp: nat, beyond: byte)
    requires lp <= MAXL && forall i :: 0 <= i < |s| ==> s[i] <= 0xf4
    ensures LinesFit(Encoded(s, lp, beyond), lp)
  {
    hide Encoded, LinesFit;
    LowBytesFit(s, lp, beyond);
    LinesFitExactly(s, lp, beyond);
  }

  lemma {:induction false} LowBytesFit(s: seq<byte>, lp: nat, beyond: byte)
    requires forall i :: 0 <= i < |s| ==> s[i] <= 0xf4
    ensures HighBytesFit(s, lp, beyond)
    decreases |s|
  {
    hide NextToken;
    if s != [] {
      var t := NextToken(s, lp, beyond);
      LowBytesFit(s[t.used..], t.lp, beyond);
    }
  }

  /** A family of texts with a longer line: bytes 0xff that go on beyond column 76. */
  lemma {:induction false} LongLine(n: nat, lp: nat, beyond: byte)
    requires lp <= MAXL && lp + 3 * n > 76
    ensures !LinesFit(Encoded(seq(n, _ => 0xff as byte), lp, beyond), lp)
  {
    hide Encoded, LinesFit;
    HighRun(n, lp, beyond);
    LinesFitExactly(seq(n, _ => 0xff as byte), lp, beyond);
  }

  lemma {:induction false} HighRun(n: nat, lp: nat, beyond: byte)
    requires lp <= MAXL && lp + 3 * n > 76
    ensures !HighBytesFit(seq(n, _ => 0xff as byte), lp, beyond)
    decreases n
  {
    var s := seq(n, _ => 0xff as byte);
    assert s[1..] == seq(n - 1, _ => 0xff as byte);
    if lp + 3 <= MAXL { HighRun(n - 1, lp + 3, beyond); }
  }

  /** s_quoted_printable_encode_alloc */
  method EncodeAlloc(str: seq<byte>, beyond: byte) returns (ret: array<byte>, len: nat)
    ensures fresh(ret) && ret.Length == 3 * (|str| + 3 * |str| / 66 + 1) && len < ret.Length
    ensures ret[..len] == Encoded(str, 0, beyond) && ret[len] == NUL
  {
    hide Encoded;
    ghost var goal := Encoded(str, 0, beyond);
    EncodedFits(str, beyond);
    ret := new byte[EncodeCapacity(|str|)];
    var i, lp := 0, 0;
    len := 0;
    assert str[0..] == str;
    while i < |str|
      invariant i <= |str| && len <= |goal| < ret.Length
      invariant goal == ret[..len] + Encoded(str[i..], lp, beyond)
    {
      EncodedStep(str[i..], lp, beyond);
      ghost var t := NextToken(str[i..], lp, beyond);
      ghost var i0 := i;
      len, i, lp := PutToken(str, i, lp, beyond, ret, len);
      assert str[i0..][t.used..] == str[i..];
    }
    EncodedStep(str[i..], lp, beyond);
    ret[len] := NUL;
  }

  lemma {:induction false} EncodedStep(s: seq<byte>, lp: nat, beyond: byte)
    ensures s == [] ==> Encoded(s, lp, beyond) == []
    ensures s != [] ==>
      var t := NextToken(s, lp, beyond);
      Encoded(s, lp, beyond) == t.out + Encoded(s[t.used..], t.lp, beyond)
  {
  }

  /** One round of the encoding loop. */
  method PutToken(str: seq<byte>, at: nat, lp0: nat, beyond: byte, ret: array<byte>, d0: nat)
    returns (d: nat, i: nat, lp: nat)
    requires at < |str| && d0 + |NextToken(str[at..], lp0, beyond).out| <= ret.Length
    modifies ret
    ensures
      var t := NextToken(str[at..], lp0, beyond);
      d == d0 + |t.out| && i == at + t.used && lp == t.lp && ret[..d] == old(ret[..d0]) + t.out
  {
    d, i, lp := d0, at, lp0;
    ghost var before := ret[..d0];
    var c := str[i];
    i := i + 1;
    var next := if i < |str| then str[i] else beyond;
    assert next == Peek(str[at..], beyond);
    if c == CR && next == LF && |str| - i > 0 {
      d := Put(ret, d, [CR, str[i]]);
      i, lp := i + 1, 0;
    } else if NeedsEscape(c, next) {
      lp := lp + 3;
      if BreakBefore(c, lp) {
        d := Put(ret, d, [EQUALS, CR, LF]);
        lp := 3;
        assert before + SOFT_BREAK + Escape(c) == before + (SOFT_BREAK + Escape(c));
      }
      d := Put(ret, d, [EQUALS, HexDigit(c / 16), HexDigit(c % 16)]);
    } else {
      lp := lp + 1;
      if lp > MAXL {
        d := Put(ret, d, [EQUALS, CR, LF]);
        lp := 1;
        assert before + SOFT_BREAK + [c] == before + (SOFT_BREAK + [c]);
      }
      d := Put(ret, d, [c]);
    }
  }

  // ---------- The decoder's loops ----------

  /** The sizing loop. */
  method BufferSize(str: seq<byte>) returns (size: nat)
    ensures size == PrePass(str)
  {
    var i, p: nat := |str|, 0;
    var buf_size: int := |str|;
    assert str[0..] == str;
    while i > 1 && str[p] != NUL
      invariant i == |str| - p && 0 <= p <= |str|
      invariant buf_size - i + PrePass(str[p..]) == PrePass(str)
      decreases i
    {
      if str[p] == EQUALS {
        buf_size := buf_size - 2;
        assert str[p..][2..] == str[p + 2..];
        p := p + 1;
        i := i - 1;
      } else {
        assert str[p..][1..] == str[p + 1..];
      }
      p := p + 1;
      i := i - 1;
    }
    size := buf_size;
  }

  lemma {:induction false} PrePassSkip(s: seq<byte>, k: nat)
    requires k <= |s| && forall i :: 0 <= i < k ==> s[i] != NUL && s[i] != EQUALS
    ensures PrePass(s) == k + PrePass(s[k..])
  {
    if k > 0 {
      PrePassSkip(s[1..], k - 1);
      assert s[1..][k - 1..] == s[k..];
    } else {
      assert s[0..] == s;
    }
  }

  /** The rest of the input behind one round of the decoding loop, and the byte it writes, if any. */
  datatype Round = Round(out: seq<byte>, rest: seq<byte>)

  /** One round of the decoding loop; None when it fails or the input ends there. */
  function NextRound(s: seq<byte>): Option<Round>
    requires s != [] && s[0] != NUL
  {
    if s[0] != EQUALS then Some(Round([s[0]], s[1..]))
    else if |s| == 1 || s[1] == NUL then None
    else if HexVal(s[1]) < 16 then
      if |s| == 2 || HexVal(s[2]) >= 16 then None
      else Some(Round([HexVal(s[1]) * 16 + HexVal(s[2])], s[3..]))
    else if HexVal(s[1]) < 64 then
      match AfterBreak(s[1..]) case None => None case Some(x) => Some(Round([], x))
    else None
  }

  /** A soft line break skips no equals sign and no NUL. */
  lemma {:induction false} BreakSkips(r: seq<byte>) returns (j: nat)
    requires AfterBreak(r).Some? && r[0] != EQUALS && r[0] != NUL
    ensures 1 <= j <= |r| && AfterBreak(r).value == r[j..]
    ensures forall i :: 0 <= i < j ==> r[i] != NUL && r[i] != EQUALS
  {
    var k := Blanks(r);
    j := if r[k] == CR && |r| - k >= 2 && r[k + 1] == LF then k + 2 else k + 1;
  }

  /** What a round writes is paid for by what the pre-pass counted: the buffer always suffices, even for
      malformed input. */
  lemma {:induction false} RoundPaid(s: seq<byte>)
    requires s != [] && s[0] != NUL && NextRound(s).Some?
    ensures |NextRound(s).value.rest| < |s|
    ensures |NextRound(s).value.out| + PrePass(NextRound(s).value.rest) <= PrePass(s)
  {
    hide AfterBreak, PrePass;
    PrePassStep(s);
    if s[0] != EQUALS {
    } else if HexVal(s[1]) < 16 {
      PrePassStep(s[2..]);
      assert s[2..][1..] == s[3..];
    } else {
      var r := s[1..];
      var j := BreakSkips(r);
      PrePassSkip(r[1..], j - 1);
      assert r[1..][j - 1..] == r[j..] && s[2..] == r[1..];
    }
  }

  /** How the sizing pass counts the first byte, or the first two. */
  lemma {:induction false} PrePassStep(s: seq<byte>)
    requires s != [] && s[0] != NUL
    ensures s[0] != EQUALS || |s| == 1 ==> PrePass(s) == 1 + PrePass(s[1..])
    ensures s[0] == EQUALS && |s| > 1 ==> PrePass(s) == PrePass(s[2..])
  {
  }

  /** The input ends in the middle of an escape: the rest is ignored. */
  predicate CutShort(s: seq<byte>) {
    s != [] && s[0] == EQUALS && (|s| == 1 || s[1] == NUL)
  }

  lemma {:induction false} DecodedByRounds(s: seq<byte>)
    requires s != [] && s[0] != NUL
    ensures Decoded(s) ==
      if CutShort(s) then Some([])
      else match NextRound(s) case None => None case Some(x) => Append(x.out, Decoded(x.rest))
  {
    hide AfterBreak;
    if !CutShort(s) && NextRound(s).Some? {
      var x := NextRound(s).value;
      if Decoded(x.rest).Some? { assert [] + Decoded(x.rest).value == Decoded(x.rest).value; }
    }
  }

  /** The loop that skips blanks behind an equals sign, and the line end; false for a malformed break. */
  method SkipBreak(str: seq<byte>, at: nat) returns (ok: bool, p: nat)
    requires at < |str| && 16 <= HexVal(str[at]) < 64
    ensures ok <==> AfterBreak(str[at..]).Some?
    ensures ok ==> at < p <= |str| && AfterBreak(str[at..]).value == str[p..]
  {
    p := at;
    var i, h := |str| - at, HexVal(str[at]);
    while h == 32
      invariant at <= p < |str| && i == |str| - p && h == HexVal(str[p])
      invariant Blanks(str[at..]) == p - at + Blanks(str[p..])
      invariant h < 64
      decreases i
    {
      assert str[p..][1..] == str[p + 1..];
      i := i - 1;
      if i == 0 { return false, p; }
      p := p + 1;
      h := HexVal(str[p]);
      if h == 64 { return false, p; }
    }
    assert Blanks(str[p..]) == 0 && Blanks(str[at..]) == p - at;
    assert forall k :: p - at <= k < |str| - at ==> str[at..][k] == str[at + k];
    assert str[at..][p - at + 1..] == str[p + 1..];
    assert |str| - p >= 2 ==> str[at..][p - at + 2..] == str[p + 2..];
    if str[p] == CR && i >= 2 && str[p + 1] == LF { p := p + 1; }
    p := p + 1;
    ok := true;
  }

  /** The text that decoding yields when the output so far is `out` and `s` is left. */
  function Pending(out: seq<byte>, s: seq<byte>): Option<seq<byte>> {
    Append(out, Decoded(s))
  }

  datatype Status = Going | Ended | Malformed

  /** The tests of one round of the decoding loop, and the byte it is to write. */
  method ParseRound(str: seq<byte>, at: nat) returns (status: Status, p: nat, out: seq<byte>)
    requires at < |str| && str[at] != NUL
    ensures status == Going ==>
      at < p <= |str| && !CutShort(str[at..]) && NextRound(str[at..]) == Some(Round(out, str[p..]))
    ensures status == Ended ==> CutShort(str[at..])
    ensures status == Malformed ==> !CutShort(str[at..]) && NextRound(str[at..]) == None
  {
    hide AfterBreak;
    ghost var s := str[at..];
    p, out := at, [];
    if str[p] == EQUALS {
      p := p + 1;
      if p == |str| || str[p] == NUL { return Ended, p, []; }
      var h := HexVal(str[p]);
      if h < 16 {
        p := p + 1;
        if p == |str| || HexVal(str[p]) >= 16 { return Malformed, p, []; }
        out := [h * 16 + HexVal(str[p])];
        p := p + 1;
      } else if h < 64 {
        assert s[1..] == str[p..];
        var ok;
        ok, p := SkipBreak(str, p);
        if !ok { return Malformed, p, []; }
      } else {
        return Malformed, p, [];
      }
    } else {
      out := [str[p]];
      p := p + 1;
    }
    status := Going;
  }

  /** One round of the decoding loop. */
  method DecodeRound(str: seq<byte>, at: nat, retval: array<byte>, d0: nat) returns (status: Status, p: nat, d: nat)
    requires at < |str| && str[at] != NUL && d0 + PrePass(str[at..]) < retval.Length
    modifies retval
    ensures status == Going ==>
      && at < p <= |str| && d0 <= d && d + PrePass(str[p..]) < retval.Length
      && Pending(retval[..d], str[p..]) == old(Pending(retval[..d0], str[at..]))
    ensures status == Ended ==>
      d == d0 && retval[..d] == old(retval[..d0]) && old(Pending(retval[..d0], str[at..])) == Some(retval[..d])
    ensures status == Malformed ==> old(Pending(retval[..d0], str[at..])) == None
  {
    hide Decoded, NextRound, CutShort, PrePass;
    ghost var before := retval[..d0];
    DecodedByRounds(str[at..]);
    var out;
    status, p, out := ParseRound(str, at);
    d := d0;
    if status == Ended {
      assert before + [] == before;
      return;
    }
    if status == Malformed { return; }
    RoundPaid(str[at..]);
    d := Put(retval, d, out);
    if Decoded(str[p..]).Some? {
      assert before + (out + Decoded(str[p..]).value) == before + out + Decoded(str[p..]).value;
    }
  }

  /** s_quoted_printable_decode_alloc: every write is inside the buffer that the pre-pass sized. */
  method DecodeAlloc(str: seq<byte>) returns (ok: bool, retval: array<byte>, len: nat)
    ensures fresh(retval) && retval.Length == PrePass(str) + 1 && len < retval.Length
    ensures ok <==> Decoded(str).Some?
    ensures ok ==> retval[..len] == Decoded(str).value && retval[len] == NUL
  {
    hide Decoded;
    var size := BufferSize(str);
    retval := new byte[size + 1];
    var p := 0;
    len := 0;
    assert str[0..] == str;
    if Decoded(str).Some? { assert [] + Decoded(str).value == Decoded(str).value; }
    while p < |str| && str[p] != NUL
      invariant p <= |str| && len + PrePass(str[p..]) < retval.Length
      invariant Pending(retval[..len], str[p..]) == Decoded(str)
      decreases |str| - p
    {
      var status;
      status, p, len := DecodeRound(str, p, retval, len);
      if status == Malformed { return false, retval, 0; }
      if status == Ended {
        retval[len] := NUL;
        return true, retval, len;
      }
    }
    DecodedEnd(str[p..]);
    assert retval[..len] + [] == retval[..len];
    retval[len] := NUL;
    return true, retval, len;
  }

  lemma {:induction false} DecodedEnd(s: seq<byte>)
    requires s == [] || s[0] == NUL
    ensures Decoded(s) == Some([])
  {
  }
}
