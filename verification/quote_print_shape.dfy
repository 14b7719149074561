/** What the encoder of c/src/code/quote_print.c writes, in the terms of section 6.7 of RFC 2045, and the digits that
    its decoder reads. */
module QuotePrintShape {
  import opened Options
  import opened Bytes
  import opened QuotePrint

  // ---------- Digits ----------

  const UPPER := "01234567" + "89ABCDEF"
  const LOWER := "01234567" + "89abcdef"

  /** The decoder knows the digits in both cases. */
  lemma {:induction false} HexValOfDigit(n: nat)
    requires n < 16
    ensures |UPPER| == |LOWER| == 16 && UPPER[n] as int < 128 && LOWER[n] as int < 128
    ensures HexVal(UPPER[n] as int) == HexVal(LOWER[n] as int) == n
  {
    if n < 8 {} else {}
  }

  /** A byte is a digit of the decoder exactly when it is one of these characters; line ends have 16, blanks 32, and all
      other bytes 64. */
  lemma {:induction false} HexValIs(c: byte)
    ensures |UPPER| == |LOWER| == 16
    ensures HexVal(c) < 16 <==> exists n: nat :: n < 16 && (UPPER[n] as int == c || LOWER[n] as int == c)
    ensures (HexVal(c) == 16 <==> c in {10, 13}) && (HexVal(c) == 32 <==> c in {9, 32})
    ensures HexVal(c) in {16, 32, 64} || HexVal(c) < 16
  {
    HexValOfDigit(0);
    if HexVal(c) < 16 {
      var n := HexVal(c);
      HexValOfDigit(n);
      assert UPPER[n] as int == c || LOWER[n] as int == c by { DigitOfHexVal(c); }
    }
    forall n: nat | n < 16 && (UPPER[n] as int == c || LOWER[n] as int == c) ensures HexVal(c) < 16 {
      HexValOfDigit(n);
    }
  }

  lemma {:induction false} DigitOfHexVal(c: byte)
    requires HexVal(c) < 16
    ensures |UPPER| == |LOWER| == 16 && (UPPER[HexVal(c)] as int == c || LOWER[HexVal(c)] as int == c)
  {
    if HexVal(c) < 8 {} else {}
  }

  /** An equals sign and two digits, each in either case, are decoded to the byte of these digits. */
  lemma {:induction false} DecodeDigits(h: byte, l: byte, m: nat, n: nat, x: seq<byte>)
    requires m < 16 && n < 16 && |UPPER| == |LOWER| == 16
    requires h == UPPER[m] as int || h == LOWER[m] as int
    requires l == UPPER[n] as int || l == LOWER[n] as int
    ensures Decoded([61, h, l] + x) == Append([16 * m + n], Decoded(x))
  {
    hide UPPER, LOWER;
    HexValOfDigit(m);
    HexValOfDigit(n);
    assert HexVal(0) == 64;
    assert ([61, h, l] + x)[3..] == x;
  }

  // ---------- What is written for a byte ----------

  /** The bytes that may stand for themselves, `next` being the one behind. */
  predicate Plain(c: byte, next: byte) {
    33 <= c <= 60 || 62 <= c <= 126 || (c == 32 && next != 13)
  }

  /** The room that the line must have for `c`, or else it is broken in front of it: for the escape of a byte above 127,
      room also for what follows in a UTF-8 sequence of two, three or four bytes. */
  function Room(c: byte, next: byte): nat {
    if Plain(c, next) then 1
    else if c < 128 then 3
    else if c < 224 then 6
    else if c < 240 then 9
    else if c < 245 then 12
    else 0
  }

  /** Character `n` of the digits, which the standard wants in upper case. */
  function Digit(n: nat): byte
    requires n < 16
  {
    if n < 8 then UPPER[n] as int else UPPER[n] as int
  }

  /** What is written for `c`, in front of which the line may be broken. */
  function Body(c: byte, next: byte): (r: seq<byte>) {
    if Plain(c, next) then [c] else [61, Digit(c / 16), Digit(c % 16)]
  }

  lemma {:induction false} DigitIs(n: nat)
    requires n < 16
    ensures HexDigit(n) == Digit(n)
  {
    if n < 8 {} else {}
  }

  /** How the encoding of a text begins: with its line end, or with its first byte, in front of which the line is broken
      exactly if it has no room in 75 columns. */
  lemma {:induction false} EncodedBegins(s: seq<byte>, lp: nat, beyond: byte)
    requires s != []
    ensures
      var next := if |s| > 1 then s[1] else beyond;
      if |s| > 1 && s[0] == 13 && s[1] == 10 then Encoded(s, lp, beyond) == [13, 10] + Encoded(s[2..], 0, beyond)
      else if lp + Room(s[0], next) > 75 && s[0] < 245 then
        Encoded(s, lp, beyond) == [61, 13, 10] + Body(s[0], next) + Encoded(s[1..], |Body(s[0], next)|, beyond)
      else
        Encoded(s, lp, beyond) == Body(s[0], next) + Encoded(s[1..], lp + |Body(s[0], next)|, beyond)
  {
    hide Encoded, HexDigit, Digit;
    EncodedStep(s, lp, beyond);
    DigitIs(s[0] / 16);
    DigitIs(s[0] % 16);
  }

  // ---------- The shape of the output ----------

  predicate IsDigit(c: byte) {
    48 <= c <= 57 || 65 <= c <= 70
  }

  /** Byte `i` of an encoded text is a printable character or belongs to a line end; an equals sign begins an escape or
      a soft line break, and no line ends in a blank. */
  ghost predicate Sound(e: seq<byte>, i: nat)
    requires i < |e|
  {
    && (e[i] == 13 || e[i] == 10 || 32 <= e[i] <= 126)
    && (e[i] == 13 ==> i + 1 < |e| && e[i + 1] == 10)
    && (e[i] == 10 ==> i > 0 && e[i - 1] == 13)
    && (e[i] == 61 ==> i + 2 < |e| && ((e[i + 1] == 13 && e[i + 2] == 10) || (IsDigit(e[i + 1]) && IsDigit(e[i + 2]))))
    && (e[i] == 32 && i + 1 < |e| ==> e[i + 1] != 13)
  }

  ghost predicate AllSound(e: seq<byte>) {
    forall i :: 0 <= i < |e| ==> Sound(e, i)
  }

  lemma {:induction false} SoundJoined(a: seq<byte>, b: seq<byte>)
    requires AllSound(a) && AllSound(b) && (a != [] && a[|a| - 1] == 32 && b != [] ==> b[0] != 13)
    ensures AllSound(a + b)
  {
    var e := a + b;
    forall i | 0 <= i < |e| ensures Sound(e, i) {
      if i < |a| {
        assert Sound(a, i);
      } else {
        assert Sound(b, i - |a|);
      }
    }
  }

  lemma {:induction false} BodySound(c: byte, next: byte)
    ensures AllSound(Body(c, next)) && AllSound([61, 13, 10] + Body(c, next)) && AllSound([13, 10])
    ensures var r := Body(c, next); r != [] && r[0] != 13 && (r[|r| - 1] == 32 ==> c == 32 && next != 13)
  {
    hide Digit;
    assert forall n :: 0 <= n < 16 ==> IsDigit(Digit(n)) by {
      forall n | 0 <= n < 16 ensures IsDigit(Digit(n)) { DigitIs(n); }
    }
  }

  /** Only a line end of the text is written as one. */
  lemma {:induction false} FirstByte(s: seq<byte>, lp: nat, beyond: byte)
    requires Encoded(s, lp, beyond) != [] && Encoded(s, lp, beyond)[0] == 13
    ensures |s| > 1 && s[0] == 13 && s[1] == 10
  {
    hide Encoded, Body;
    EncodedStep(s, lp, beyond);
    EncodedBegins(s, lp, beyond);
    BodySound(s[0], if |s| > 1 then s[1] else beyond);
  }

  /** RFC 2045 section 6.7: whatever the text, the encoder writes printable characters and whole line ends, every equals
      sign begins an escape of two digits or a soft line break, and no line ends in a blank. */
  lemma {:induction false} EncodedSound(s: seq<byte>, lp: nat, beyond: byte)
    ensures AllSound(Encoded(s, lp, beyond))
    decreases |s|
  {
    hide Encoded, Body, AllSound;
    EncodedStep(s, lp, beyond);
    if s == [] {
      NothingSound();
    } else {
      EncodedBegins(s, lp, beyond);
      var next := if |s| > 1 then s[1] else beyond;
      var r := Body(s[0], next);
      BodySound(s[0], next);
      if |s| > 1 && s[0] == 13 && s[1] == 10 {
        EncodedSound(s[2..], 0, beyond);
        SoundJoined([13, 10], Encoded(s[2..], 0, beyond));
      } else {
        var broken := lp + Room(s[0], next) > 75 && s[0] < 245;
        var lp' := (if broken then 0 else lp) + |r|;
        var x := Encoded(s[1..], lp', beyond);
        EncodedSound(s[1..], lp', beyond);
        if x != [] && x[0] == 13 { FirstByte(s[1..], lp', beyond); }
        SoundJoined(if broken then [61, 13, 10] + r else r, x);
      }
    }
  }

  lemma {:induction false} NothingSound()
    ensures AllSound([])
  {
  }

  // ---------- Text that stays as it is ----------

  ghost predicate PlainAt(s: seq<byte>, i: nat, beyond: byte)
    requires i < |s|
  {
    Plain(s[i], if i + 1 < |s| then s[i + 1] else beyond)
  }

  /** A text that fits in the line, of printable characters other than the equals sign, and blanks with no CR behind
      them, is its own encoding. */
  lemma {:induction false} PlainText(s: seq<byte>, lp: nat, beyond: byte)
    requires lp + |s| <= 75 && forall i :: 0 <= i < |s| ==> PlainAt(s, i, beyond)
    ensures Encoded(s, lp, beyond) == s
    decreases |s|
  {
    hide Encoded;
    EncodedStep(s, lp, beyond);
    if s != [] {
      EncodedBegins(s, lp, beyond);
      assert PlainAt(s, 0, beyond);
      forall i | 0 <= i < |s[1..]| ensures PlainAt(s[1..], i, beyond) {
        assert PlainAt(s, i + 1, beyond);
      }
      PlainText(s[1..], lp + 1, beyond);
    }
  }
}
