/** c/src/code/base64.c, and the folding loop of c/app/mail/s_generate_eml.c. */
module Base64 {
  import opened Options
  import opened Bytes
  import opened MailLines

  const PAD: byte := 61

  // ---------- Tables and bits ----------

  /** base64_table */
  function Letter(v: nat): (c: byte)
    requires v < 64
  {
    if v < 26 then 65 + v else if v < 52 then 71 + v else if v < 62 then v - 4 else if v == 62 then 43 else 47
  }

  /** base64_reverse_table: the value of a letter, -1 for white space, -2 for anything else. */
  function Reverse(c: byte): (v: int)
    ensures -2 <= v < 64
  {
    if 65 <= c <= 90 then c - 65
    else if 97 <= c <= 122 then c - 71
    else if 48 <= c <= 57 then c + 4
    else if c == 43 then 62
    else if c == 47 then 63
    else if c == 9 || c == LF || c == CR || c == 32 then -1
    else -2
  }

  /** Bitwise or. */
  function Or(a: nat, b: nat): nat {
    if a == 0 && b == 0 then 0
    else (if a % 2 == 1 || b % 2 == 1 then 1 else 0) + 2 * Or(a / 2, b / 2)
  }

  lemma {:induction false} OrZero(a: nat)
    ensures Or(a, 0) == a
  {
    if a > 0 { OrZero(a / 2); }
  }

  /** One bit more to the left of which the sum is known. */
  lemma {:induction false} OrHalf(a: nat, b: nat)
    requires a % 2 == 0 && Or(a / 2, b / 2) == a / 2 + b / 2
    ensures Or(a, b) == a + b
  {
    if a == 0 && b == 0 { assert Or(0, 0) == 0; }
  }

  /** Numbers whose bits do not meet: or is addition, with two, four or six low bits free. */
  lemma {:induction false} OrTwoBits(a: nat, b: nat)
    requires a % 4 == 0 && b < 4
    ensures Or(a, b) == a + b
  {
    hide Or;
    OrZero(a / 2 / 2);
    OrHalf(a / 2, b / 2);
    OrHalf(a, b);
  }

  lemma {:induction false} OrFourBits(a: nat, b: nat)
    requires a % 16 == 0 && b < 16
    ensures Or(a, b) == a + b
  {
    hide Or;
    OrTwoBits(a / 2 / 2, b / 2 / 2);
    OrHalf(a / 2, b / 2);
    OrHalf(a, b);
  }

  lemma {:induction false} OrSixBits(a: nat, b: nat)
    requires a % 64 == 0 && b < 64
    ensures Or(a, b) == a + b
  {
    hide Or;
    OrFourBits(a / 2 / 2, b / 2 / 2);
    OrHalf(a / 2, b / 2);
    OrHalf(a, b);
  }

  lemma {:induction false} ReverseLetter(v: nat)
    requires v < 64
    ensures Reverse(Letter(v)) == v && Letter(v) != PAD && Letter(v) != NUL && Letter(v) != CR
  {
  }

  // ---------- The alphabet ----------

  /** Table 1 of RFC 4648 section 4. */
  const ALPHABET := "ABCDEFGHIJKLM" + "NOPQRSTUVWXYZ" + "abcdefghijklm" + "nopqrstuvwxyz" + "0123456789" + "+/"

  lemma {:induction false} CapitalLetters(v: nat)
    requires v < 26
    ensures |ALPHABET| == 64 && ALPHABET[v] as int == Letter(v)
  {
    if v < 13 {} else {}
  }

  lemma {:induction false} SmallLetters(v: nat)
    requires 26 <= v < 52
    ensures ALPHABET[v] as int == Letter(v)
  {
    if v < 39 {} else {}
  }

  lemma {:induction false} OtherLetters(v: nat)
    requires 52 <= v < 64
    ensures ALPHABET[v] as int == Letter(v)
  {
    if v < 62 {} else {}
  }

  /** The encoder's table is the alphabet, from A to the slash. */
  lemma {:induction false} LetterIs(v: nat)
    requires v < 64
    ensures |ALPHABET| == 64 && Letter(v) == ALPHABET[v] as int
  {
    CapitalLetters(0);
    if v < 26 { CapitalLetters(v); } else if v < 52 { SmallLetters(v); } else { OtherLetters(v); }
  }

  /** The decoder's table has the place of each character of the alphabet, and nothing for any other byte but the
      white space that it skips. */
  lemma {:induction false} ReverseIs(c: byte)
    ensures |ALPHABET| == 64 && (0 <= Reverse(c) <==> exists v: nat :: v < 64 && ALPHABET[v] as int == c)
    ensures forall v: nat :: v < 64 && ALPHABET[v] as int == c ==> Reverse(c) == v
    ensures Reverse(c) == -1 <==> c in {9, 10, 13, 32}
  {
    LetterIs(0);
    forall v: nat | v < 64 && ALPHABET[v] as int == c ensures Reverse(c) == v {
      LetterIs(v);
      ReverseLetter(v);
    }
    if 0 <= Reverse(c) {
      LetterIs(Reverse(c));
      LetterReverse(c);
    }
  }

  lemma {:induction false} LetterReverse(c: byte)
    requires 0 <= Reverse(c)
    ensures Letter(Reverse(c)) == c
  {
  }

  // ---------- The encoder ----------

  /** The four letters of three bytes. */
  function Group(a: byte, b: byte, c: byte): seq<byte> {
    [Letter(a / 4), Letter(a % 4 * 16 + b / 16), Letter(b % 16 * 4 + c / 64), Letter(c % 64)]
  }

  function Encoded(s: seq<byte>): seq<byte> {
    if |s| > 2 then Group(s[0], s[1], s[2]) + Encoded(s[3..])
    else if |s| == 2 then [Letter(s[0] / 4), Letter(s[0] % 4 * 16 + s[1] / 16), Letter(s[1] % 16 * 4), PAD]
    else if |s| == 1 then [Letter(s[0] / 4), Letter(s[0] % 4 * 16), PAD, PAD]
    else []
  }

  /** Four letters for every three bytes begun, and only letters and padding. */
  lemma {:induction false} EncodedShape(s: seq<byte>)
    ensures |Encoded(s)| == (|s| + 2) / 3 * 4
    ensures NUL !in Encoded(s) && CR !in Encoded(s)
  {
    if |s| > 2 {
      EncodedShape(s[3..]);
      assert NUL !in Group(s[0], s[1], s[2]) && CR !in Group(s[0], s[1], s[2]);
    }
  }

  /** RFC 4648 section 4: the characters of `v0` to `v3` stand for the one to three bytes of `t`, whose bits are those
      of the four numbers one behind the other; padding stands where no byte reaches. */
  ghost predicate Digits(g: seq<byte>, t: seq<byte>, v0: nat, v1: nat, v2: nat, v3: nat)
    requires |g| == 4 && 1 <= |t| <= 3 && |ALPHABET| == 64
  {
    && v0 < 64 && v1 < 64 && v2 < 64 && v3 < 64
    && g[0] == ALPHABET[v0] as int && g[1] == ALPHABET[v1] as int
    && (if |t| >= 2 then g[2] == ALPHABET[v2] as int else g[2] == 61 && v2 == 0)
    && (if |t| == 3 then g[3] == ALPHABET[v3] as int else g[3] == 61 && v3 == 0)
    && ((v0 * 64 + v1) * 64 + v2) * 64 + v3 ==
       65536 * (t[0] as nat) + (if |t| >= 2 then 256 * (t[1] as nat) else 0) + (if |t| == 3 then t[2] as nat else 0)
  }

  lemma {:induction false} GroupValue(a: nat, b: nat, c: nat)
    requires a < 256 && b < 256 && c < 256
    ensures
      ((a / 4 * 64 + (a % 4 * 16 + b / 16)) * 64 + (b % 16 * 4 + c / 64)) * 64 + c % 64 == 65536 * a + 256 * b + c
  {
  }

  /** The bytes that group `k` of the output stands for. */
  function Third(s: seq<byte>, k: nat): (t: seq<byte>)
    requires 3 * k < |s|
    ensures 1 <= |t| <= 3
  {
    if 3 * k + 3 <= |s| then s[3 * k..3 * k + 3] else s[3 * k..]
  }

  lemma {:induction false} EncodedGroup(s: seq<byte>, k: nat)
    requires 3 * k < |s|
    ensures 4 * k + 4 <= |Encoded(s)| && Encoded(s)[4 * k..4 * k + 4] == Encoded(Third(s, k))
  {
    hide Encoded;
    EncodedShape(s);
    EncodedShape(Third(s, k));
    EncodedStep(s);
    if k > 0 {
      EncodedGroup(s[3..], k - 1);
      assert Encoded(s)[4 * k..4 * k + 4] == Encoded(s[3..])[4 * k - 4..4 * k];
      assert Third(s[3..], k - 1) == Third(s, k);
    } else if |s| > 2 {
      EncodedStep(Third(s, 0));
      EncodedStep(s[3..3]);
    } else {
      assert Third(s, 0) == s;
    }
  }

  lemma {:induction false} ThirdDigits(t: seq<byte>) returns (v0: nat, v1: nat, v2: nat, v3: nat)
    requires 1 <= |t| <= 3
    ensures |Encoded(t)| == 4 && |ALPHABET| == 64 && Digits(Encoded(t), t, v0, v1, v2, v3)
  {
    hide Encoded, Letter, ALPHABET;
    EncodedStep(t);
    if |t| == 3 { EncodedStep(t[3..]); }
    var a, b, c := t[0], if |t| >= 2 then t[1] else 0, if |t| >= 3 then t[2] else 0;
    v0, v1, v2, v3 := a / 4, a % 4 * 16 + b / 16, b % 16 * 4 + c / 64, c % 64;
    GroupValue(a, b, c);
    LetterIs(v0);
    LetterIs(v1);
    LetterIs(v2);
    LetterIs(v3);
  }

  /** Every group of the output has four numbers, whose characters it is and whose bits are those of its bytes. */
  lemma {:induction false} EncodedDigits(s: seq<byte>, k: nat) returns (v0: nat, v1: nat, v2: nat, v3: nat)
    requires 3 * k < |s|
    ensures 4 * k + 4 <= |Encoded(s)| && |ALPHABET| == 64
    ensures Digits(Encoded(s)[4 * k..4 * k + 4], Third(s, k), v0, v1, v2, v3)
  {
    hide Encoded, Third, Digits;
    EncodedGroup(s, k);
    v0, v1, v2, v3 := ThirdDigits(Third(s, k));
  }

  /** s_base64_encode_alloc. A length for which the sizes do not fit in an `int` is refused: the program tests whether
      `str_len + 2` overflows; when only the number of characters does, malloc is asked for a negative number of bytes
      and fails. The first refusal stores 0 in `*ret_length`, the second one leaves there what the caller had. */
  method EncodeAlloc(str: seq<byte>, retLength: nat) returns (r: Option<array<byte>>, len: nat)
    requires |str| < 0x8000_0000
    ensures r.None? <==> (|str| + 2) / 3 * 4 >= 0x8000_0000
    ensures r.None? ==> len == if |str| + 2 >= 0x8000_0000 then 0 else retLength
    ensures r.Some? ==>
      && fresh(r.value) && r.value.Length == len + 1 && len == (|str| + 2) / 3 * 4
      && r.value[..len] == Encoded(str) && r.value[len] == NUL
  {
    hide Encoded;
    if |str| + 2 >= 0x8000_0000 || (|str| + 2) / 3 >= 0x4000_0000 { return None, 0; }
    var size := (|str| + 2) / 3 * 4;
    if size >= 0x8000_0000 { return None, retLength; }
    var result := new byte[size + 1];
    len := EncodeInto(str, result);
    r := Some(result);
  }

  /** The loop of s_base64_encode_alloc and the tail end of things. */
  method EncodeInto(str: seq<byte>, result: array<byte>) returns (len: nat)
    requires result.Length == (|str| + 2) / 3 * 4 + 1
    modifies result
    ensures len == result.Length - 1 && result[..len] == Encoded(str) && result[len] == NUL
  {
    hide Encoded, Letter;
    EncodedShape(str);
    ghost var goal := Encoded(str);
    var i: nat, left: nat := 0, |str|;
    len := 0;
    assert str[0..] == str;
    while left > 2
      invariant i + left == |str| && len + |Encoded(str[i..])| == |goal| == result.Length - 1
      invariant goal == result[..len] + Encoded(str[i..])
    {
      EncodedStep(str[i..]);
      var a, b, c := str[i], str[i + 1], str[i + 2];
      assert str[i..][3..] == str[i + 3..];
      len := Put(result, len,
                 [Letter(a / 4), Letter(a % 4 * 16 + b / 16), Letter(b % 16 * 4 + c / 64), Letter(c % 64)]);
      i, left := i + 3, left - 3;
    }
    EncodedStep(str[i..]);
    if left != 0 {
      var a := str[i];
      if left > 1 {
        var b := str[i + 1];
        len := Put(result, len, [Letter(a / 4), Letter(a % 4 * 16 + b / 16), Letter(b % 16 * 4), PAD]);
      } else {
        len := Put(result, len, [Letter(a / 4), Letter(a % 4 * 16), PAD, PAD]);
      }
    }
    result[len] := NUL;
  }

  lemma {:induction false} EncodedStep(s: seq<byte>)
    ensures |s| > 2 ==> Encoded(s) == Group(s[0], s[1], s[2]) + Encoded(s[3..])
    ensures |s| == 2 ==> Encoded(s) == [Letter(s[0] / 4), Letter(s[0] % 4 * 16 + s[1] / 16), Letter(s[1] % 16 * 4), PAD]
    ensures |s| == 1 ==> Encoded(s) == [Letter(s[0] / 4), Letter(s[0] % 4 * 16), PAD, PAD]
    ensures s == [] ==> Encoded(s) == []
  {
  }

  // ---------- The decoder ----------

  /** What a letter adds: the byte it completes, if any, and the bits it leaves for the next byte.
      `phase` is the number of letters seen modulo 4, `acc` the bits of the byte begun. */
  datatype Join = Join(out: seq<byte>, acc: byte)

  function JoinLetter(phase: nat, acc: byte, v: nat): Join
    requires phase < 4 && v < 64
  {
    if phase == 0 then Join([], v * 4 % 256)
    else if phase == 1 then Join([Or(acc, v / 16) % 256], v % 16 * 16)
    else if phase == 2 then Join([Or(acc, v / 4) % 256], v % 4 * 64)
    else Join([Or(acc, v) % 256], acc)
  }

  /** The bytes that the rest `s` of the input completes; None for a misplaced padding character.
      `beyond` is what lies in memory behind the input. */
  function Decoded(phase: nat, acc: byte, s: seq<byte>, beyond: byte): Option<seq<byte>>
    requires phase < 4
    decreases |s|
  {
    if s == [] then if beyond == PAD && phase == 1 then None else Some([])
    else if s[0] == NUL then Some([])
    else if s[0] == PAD then if phase == 1 then None else Decoded(phase, acc, s[1..], beyond)
    else if Reverse(s[0]) < 0 then Decoded(phase, acc, s[1..], beyond)
    else
      var j := JoinLetter(phase, acc, Reverse(s[0]));
      Append(j.out, Decoded((phase + 1) % 4, j.acc, s[1..], beyond))
  }

  // ---------- Round trip ----------

  /** A letter joins what is there. */
  lemma {:induction false} DecodeLetter(phase: nat, acc: byte, v: nat, x: seq<byte>, beyond: byte)
    requires phase < 4 && v < 64
    ensures
      var j := JoinLetter(phase, acc, v);
      Decoded(phase, acc, [Letter(v)] + x, beyond) == Append(j.out, Decoded((phase + 1) % 4, j.acc, x, beyond))
  {
    ReverseLetter(v);
    assert ([Letter(v)] + x)[1..] == x;
  }

  lemma {:induction false} DecodePad(phase: nat, acc: byte, x: seq<byte>, beyond: byte)
    requires phase < 4 && phase != 1
    ensures Decoded(phase, acc, [PAD] + x, beyond) == Decoded(phase, acc, x, beyond)
  {
    assert ([PAD] + x)[1..] == x;
  }

  lemma {:induction false} AppendTwice(d: seq<byte>, e: seq<byte>, x: Option<seq<byte>>)
    ensures Append(d, Append(e, x)) == Append(d + e, x)
  {
    if x.Some? { assert d + (e + x.value) == d + e + x.value; }
  }

  lemma {:induction false} AppendNothing(x: Option<seq<byte>>)
    ensures Append([], x) == x
  {
    if x.Some? { assert [] + x.value == x.value; }
  }

  /** The bytes that the letters of a group complete. */
  lemma {:induction false} JoinFirst(acc: byte, a: byte)
    ensures JoinLetter(0, acc, a / 4) == Join([], a / 4 * 4)
  {
  }

  lemma {:induction false} JoinSecond(a: byte, b: byte)
    ensures JoinLetter(1, a / 4 * 4, a % 4 * 16 + b / 16) == Join([a], b / 16 * 16)
  {
    hide Or;
    var v := a % 4 * 16 + b / 16;
    assert v / 16 == a % 4 && v % 16 == b / 16;
    OrTwoBits(a / 4 * 4, a % 4);
    assert a / 4 * 4 + a % 4 == a;
  }

  lemma {:induction false} JoinThird(b: byte, c: byte)
    ensures JoinLetter(2, b / 16 * 16, b % 16 * 4 + c / 64) == Join([b], c / 64 * 64)
  {
    hide Or;
    var v := b % 16 * 4 + c / 64;
    assert v / 4 == b % 16 && v % 4 == c / 64;
    OrFourBits(b / 16 * 16, b % 16);
    assert b / 16 * 16 + b % 16 == b;
  }

  lemma {:induction false} JoinFourth(c: byte)
    ensures JoinLetter(3, c / 64 * 64, c % 64).out == [c]
  {
    hide Or;
    OrSixBits(c / 64 * 64, c % 64);
  }

  lemma {:induction false} TwoLetters(acc: byte, a: byte, b: byte, x: seq<byte>, beyond: byte)
    ensures Decoded(0, acc, [Letter(a / 4), Letter(a % 4 * 16 + b / 16)] + x, beyond)
      == Append([a], Decoded(2, b / 16 * 16, x, beyond))
  {
    hide Decoded, Letter, JoinLetter, Or;
    JoinFirst(acc, a);
    JoinSecond(a, b);
    var l0, l1 := Letter(a / 4), Letter(a % 4 * 16 + b / 16);
    assert [l0, l1] + x == [l0] + ([l1] + x);
    DecodeLetter(0, acc, a / 4, [l1] + x, beyond);
    DecodeLetter(1, a / 4 * 4, a % 4 * 16 + b / 16, x, beyond);
    AppendNothing(Decoded(1, a / 4 * 4, [l1] + x, beyond));
  }

  lemma {:induction false} ThirdLetter(b: byte, c: byte, x: seq<byte>, beyond: byte)
    ensures Decoded(2, b / 16 * 16, [Letter(b % 16 * 4 + c / 64)] + x, beyond)
      == Append([b], Decoded(3, c / 64 * 64, x, beyond))
  {
    hide Decoded, Letter, JoinLetter, Or;
    JoinThird(b, c);
    DecodeLetter(2, b / 16 * 16, b % 16 * 4 + c / 64, x, beyond);
  }

  lemma {:induction false} FourthLetter(c: byte, x: seq<byte>, beyond: byte)
    ensures exists acc: byte ::
      Decoded(3, c / 64 * 64, [Letter(c % 64)] + x, beyond) == Append([c], Decoded(0, acc, x, beyond))
  {
    hide Decoded, Letter, JoinLetter, Or;
    JoinFourth(c);
    DecodeLetter(3, c / 64 * 64, c % 64, x, beyond);
  }

  /** Decoding gives back the bytes that were encoded. */
  lemma {:induction false} RoundTrip(s: seq<byte>, acc: byte, beyond: byte)
    ensures Decoded(0, acc, Encoded(s), beyond) == Some(s)
  {
    hide Decoded, Letter, Encoded;
    EncodedStep(s);
    DecodeEnd(beyond);
    if |s| > 2 {
      var a, b, c, x := s[0], s[1], s[2], Encoded(s[3..]);
      var l2, l3 := Letter(b % 16 * 4 + c / 64), Letter(c % 64);
      TwoLetters(acc, a, b, [l2] + ([l3] + x), beyond);
      ThirdLetter(b, c, [l3] + x, beyond);
      FourthLetter(c, x, beyond);
      var acc': byte :| Decoded(3, c / 64 * 64, [l3] + x, beyond) == Append([c], Decoded(0, acc', x, beyond));
      RoundTrip(s[3..], acc', beyond);
      assert Encoded(s) == [Letter(a / 4), Letter(a % 4 * 16 + b / 16)] + ([l2] + ([l3] + x));
      assert s == [a] + ([b] + ([c] + s[3..]));
    } else if |s| == 2 {
      var a, b := s[0], s[1];
      var l2 := Letter(b % 16 * 4);
      TwoLetters(acc, a, b, [l2] + ([PAD] + []), beyond);
      ThirdLetter(b, 0, [PAD] + [], beyond);
      DecodePad(3, 0, [], beyond);
      assert Encoded(s) == [Letter(a / 4), Letter(a % 4 * 16 + b / 16)] + ([l2] + ([PAD] + []));
      assert s == [a] + ([b] + []);
    } else if |s| == 1 {
      var a := s[0];
      TwoLetters(acc, a, 0, [PAD] + ([PAD] + []), beyond);
      DecodePad(2, 0, [PAD] + [], beyond);
      DecodePad(2, 0, [], beyond);
      assert Encoded(s) == [Letter(a / 4), Letter(a % 4 * 16 + 0 / 16)] + ([PAD] + ([PAD] + []));
      assert s == [a] + [];
    }
  }

  lemma {:induction false} DecodeEnd(beyond: byte)
    ensures forall phase: nat, acc: byte :: phase < 4 && phase != 1 ==> Decoded(phase, acc, [], beyond) == Some([])
  {
  }

  // ---------- Folding ----------

  const WIDTH: nat := 76

  /** The text in lines of 76 characters; no line end follows the last one. */
  function Folded(e: seq<byte>): seq<byte> {
    if |e| <= WIDTH then e else e[..WIDTH] + [CR, LF] + Folded(e[WIDTH..])
  }

  /** The input without the characters that the decoder skips. */
  function Stripped(s: seq<byte>): seq<byte> {
    if s == [] then []
    else (if s[0] == CR || s[0] == LF then [] else [s[0]]) + Stripped(s[1..])
  }

  /** Line ends may be put anywhere. */
  lemma {:induction false} DecodeIgnoresLineEnds(phase: nat, acc: byte, s: seq<byte>, beyond: byte)
    requires phase < 4
    ensures Decoded(phase, acc, Stripped(s), beyond) == Decoded(phase, acc, s, beyond)
    decreases |s|
  {
    hide JoinLetter;
    if s != [] {
      if s[0] == CR || s[0] == LF {
        DecodeIgnoresLineEnds(phase, acc, s[1..], beyond);
        assert Stripped(s) == Stripped(s[1..]);
      } else {
        assert Stripped(s)[0] == s[0] && Stripped(s)[1..] == Stripped(s[1..]);
        if s[0] == PAD || Reverse(s[0]) < 0 {
          DecodeIgnoresLineEnds(phase, acc, s[1..], beyond);
        } else {
          var j := JoinLetter(phase, acc, Reverse(s[0]));
          DecodeIgnoresLineEnds((phase + 1) % 4, j.acc, s[1..], beyond);
        }
      }
    }
  }

  lemma {:induction false} StrippedAppend(s: seq<byte>, t: seq<byte>)
    ensures Stripped(s + t) == Stripped(s) + Stripped(t)
  {
    if s == [] {
      assert s + t == t;
    } else {
      assert (s + t)[1..] == s[1..] + t;
      StrippedAppend(s[1..], t);
    }
  }

  lemma {:induction false} StrippedFolded(e: seq<byte>)
    ensures Stripped(Folded(e)) == Stripped(e)
    decreases |e|
  {
    hide Stripped;
    if |e| > WIDTH {
      var line, rest := e[..WIDTH], e[WIDTH..];
      StrippedFolded(rest);
      StrippedAppend(line + [CR, LF], Folded(rest));
      StrippedAppend(line, [CR, LF]);
      StrippedAppend(line, rest);
      assert Stripped([CR, LF]) == [] by { StrippedLineEnd(); }
      assert e == line + rest;
    }
  }

  lemma {:induction false} StrippedLineEnd()
    ensures Stripped([CR, LF]) == []
  {
    var e, f: seq<byte> := [CR, LF], [LF];
    assert e[1..] == f && f[1..] == [];
    assert Stripped(f) == [];
  }

  /** Every byte string survives encoding, folding and decoding. */
  lemma {:induction false} FoldedRoundTrip(s: seq<byte>, beyond: byte)
    ensures Decoded(0, 0, Folded(Encoded(s)), beyond) == Some(s)
  {
    hide Decoded, Encoded, Stripped, Folded;
    var e := Encoded(s);
    StrippedFolded(e);
    DecodeIgnoresLineEnds(0, 0, Folded(e), beyond);
    DecodeIgnoresLineEnds(0, 0, e, beyond);
    RoundTrip(s, 0, beyond);
  }

  /** Folded lines have at most 76 characters (RFC 2045 section 6.8). */
  lemma {:induction false} FoldedLines(e: seq<byte>)
    requires CR !in e
    ensures LinesFit(Folded(e), 0)
    decreases |e|
  {
    hide LinesFit;
    if |e| > WIDTH {
      var line, rest := e[..WIDTH], e[WIDTH..];
      FoldedLines(rest);
      assert Folded(e) == line + ([CR, LF] + Folded(rest));
      LinesFitText(line, [CR, LF] + Folded(rest), 0);
      LinesFitFull(Folded(rest));
    } else {
      assert e + [] == e;
      LinesFitText(e, [], 0);
      LinesFitNothing(|e|);
    }
  }

  lemma {:induction false} LinesBefore(n: nat, i: nat)
    requires n > 76
    ensures (n - 1) / 76 == 1 + (n - 77) / 76
    ensures i >= 78 ==> (i - 78) % 78 == i % 78 && (i - 78) / 78 == i / 78 - 1
  {
  }

  lemma {:induction false} FoldedStep(e: seq<byte>)
    ensures Folded(e) == if |e| <= 76 then e else e[..76] + ([13, 10] + Folded(e[76..]))
  {
    if |e| > 76 { assert e[..76] + [13, 10] + Folded(e[76..]) == e[..76] + ([13, 10] + Folded(e[76..])); }
  }

  /** Where the line ends are: 76 characters in every line but the last, which is never empty, and CR LF behind them. */
  lemma {:induction false} FoldedAt(e: seq<byte>, i: nat)
    ensures |Folded(e)| == |e| + (if e == [] then 0 else (|e| - 1) / 76 * 2)
    ensures i < |Folded(e)| ==>
      Folded(e)[i] == if i % 78 == 76 then 13 else if i % 78 == 77 then 10 else e[i / 78 * 76 + i % 78]
    decreases |e|
  {
    hide Folded;
    FoldedStep(e);
    if |e| > 76 {
      LinesBefore(|e|, i);
      FoldedAt(e[76..], if i < 78 then 0 else i - 78);
    }
  }

  lemma {:induction false} LinesFitFull(x: seq<byte>)
    ensures LinesFit([CR, LF] + x, 76) == LinesFit(x, 0)
  {
    LinesFitEnd(x, 76);
  }

  lemma {:induction false} LinesFitNothing(col: nat)
    ensures LinesFit([], col)
  {
  }

  // ---------- The loops ----------

  /** `i` letters complete `j` bytes: three for every group of four, and one less than there are letters behind them. */
  ghost predicate Completed(i: nat, j: nat) {
    j == i / 4 * 3 + (if i % 4 == 0 then 0 else i % 4 - 1)
  }

  lemma {:induction false} NoneCompleted()
    ensures Completed(0, 0)
  {
  }

  lemma {:induction false} CompletedBelow(i: nat, j: nat)
    requires Completed(i, j)
    ensures j <= i && (i % 4 == 2 ==> j + 1 <= i)
  {
  }

  /** The switch of the decoding loop: joins one letter to the buffer. */
  method JoinInto(result: array<byte>, i: nat, j0: nat, ch: nat, ghost acc: byte) returns (j: nat, ghost acc': byte)
    requires ch < 64 && Completed(i, j0) && j0 + 1 < result.Length
    requires i % 4 != 0 ==> result[j0] == acc
    modifies result
    ensures
      var x := JoinLetter(i % 4, acc, ch);
      j == j0 + |x.out| && result[..j] == old(result[..j0]) + x.out && acc' == x.acc
    ensures (i + 1) % 4 != 0 ==> result[j] == acc'
    ensures Completed(i + 1, j)
  {
    hide Or;
    ghost var before := result[..j0];
    j := j0;
    acc' := JoinLetter(i % 4, acc, ch).acc;
    match i % 4 {
      case 0 =>
        result[j] := ch * 4 % 256;
      case 1 =>
        result[j] := Or(result[j], ch / 16) % 256;
        j := j + 1;
        result[j] := ch % 16 * 16;
      case 2 =>
        result[j] := Or(result[j], ch / 4) % 256;
        j := j + 1;
        result[j] := ch % 4 * 64;
      case _ =>
        result[j] := Or(result[j], ch) % 256;
        j := j + 1;
    }
    assert result[..j0] == before;
  }

  /** What follows the decoding loop: a padding character behind the input, and the NUL. */
  method PadTail(result: array<byte>, i: nat, j: nat, padded: bool) returns (ok: bool)
    requires j < result.Length && (i % 4 == 2 ==> j + 1 < result.Length)
    modifies result
    ensures ok <==> !(padded && i % 4 == 1)
    ensures result[..j] == old(result[..j]) && (ok ==> result[j] == NUL)
  {
    if padded {
      if i % 4 == 1 { return false; }
      var k := if i % 4 == 2 then j + 1 else j;
      if i % 4 != 0 { result[k] := NUL; }
    }
    result[j] := NUL;
    return true;
  }

  /** s_base64_decode_alloc: skips what is not a letter and completes bytes in place; every write is inside the
      buffer of one byte more than the input. */
  method DecodeAlloc(str: seq<byte>, beyond: byte) returns (ok: bool, result: array<byte>, j: nat)
    ensures fresh(result) && result.Length == |str| + 1 && j < result.Length
    ensures ok <==> Decoded(0, 0, str, beyond).Some?
    ensures ok ==> result[..j] == Decoded(0, 0, str, beyond).value && result[j] == NUL
  {
    hide Decoded, JoinLetter, Or, Completed, Reverse;
    result := new byte[|str| + 1];
    var p: nat, i: nat := 0, 0;
    j := 0;
    ghost var acc: byte := 0;
    assert str[0..] == str && result[..0] == [];
    NoneCompleted();
    AppendNothing(Decoded(0, 0, str, beyond));
    while p < |str| && str[p] != NUL
      invariant p <= |str| && i <= p && Completed(i, j) && j <= i
      invariant i % 4 != 0 ==> result[j] == acc
      invariant Append(result[..j], Decoded(i % 4, acc, str[p..], beyond)) == Decoded(0, 0, str, beyond)
      decreases |str| - p
    {
      DecodedStep(i % 4, acc, str[p..], beyond);
      assert str[p..][1..] == str[p + 1..];
      var ch := str[p];
      p := p + 1;
      if ch == PAD {
        if i % 4 == 1 { return false, result, 0; }
      } else {
        var v := Reverse(ch);
        if v >= 0 {
          ghost var x := JoinLetter(i % 4, acc, v);
          AppendTwice(result[..j], x.out, Decoded((i % 4 + 1) % 4, x.acc, str[p..], beyond));
          assert (i % 4 + 1) % 4 == (i + 1) % 4;
          j, acc := JoinInto(result, i, j, v, acc);
          i := i + 1;
          CompletedBelow(i, j);
        }
      }
    }
    DecodedStep(i % 4, acc, str[p..], beyond);
    assert result[..j] + [] == result[..j];
    CompletedBelow(i, j);
    ok := PadTail(result, i, j, p == |str| && beyond == PAD);
    if !ok { j := 0; }
  }

  lemma {:induction false} DecodedStep(phase: nat, acc: byte, s: seq<byte>, beyond: byte)
    requires phase < 4
    ensures Decoded(phase, acc, s, beyond) ==
      if s == [] then if beyond == PAD && phase == 1 then None else Some([])
      else if s[0] == NUL then Some([])
      else if s[0] == PAD then if phase == 1 then None else Decoded(phase, acc, s[1..], beyond)
      else if Reverse(s[0]) < 0 then Decoded(phase, acc, s[1..], beyond)
      else
        var j := JoinLetter(phase, acc, Reverse(s[0]));
        Append(j.out, Decoded((phase + 1) % 4, j.acc, s[1..], beyond))
  {
  }

  /** strlen of the buffer. */
  method StringLength(buf: array<byte>, ghost len: nat) returns (n: nat)
    requires len < buf.Length && buf[len] == NUL && forall k :: 0 <= k < len ==> buf[k] != NUL
    ensures n == len
  {
    n := 0;
    while buf[n] != NUL
      invariant n <= len
      decreases len - n
    {
      n := n + 1;
    }
  }

  /** A full line: strncat of the line end, the bytes for fwrite, and memset of the buffer. */
  method FlushLine(obuf: array<byte>, i: nat) returns (line: seq<byte>)
    requires i + 3 <= obuf.Length && NUL !in obuf[..i] && forall k :: i <= k < obuf.Length ==> obuf[k] == NUL
    modifies obuf
    ensures line == old(obuf[..i]) + [CR, LF] && forall k :: 0 <= k < obuf.Length ==> obuf[k] == NUL
  {
    assert forall k :: 0 <= k < i ==> obuf[k] in obuf[..i];
    var end := StringLength(obuf, i);
    obuf[end], obuf[end + 1], obuf[end + 2] := CR, LF, NUL;
    line := obuf[..i + 2];
    forall k | 0 <= k < obuf.Length { obuf[k] := NUL; }
  }

  /** The folding loop of the mail generator, with what it writes to the file. */
  method Fold(text: seq<byte>) returns (file: seq<byte>)
    requires NUL !in text
    ensures file == Folded(text)
  {
    hide Folded;
    var obuf := new byte[4096](_ => NUL);
    file := [];
    var i, p: nat := 0, 0;
    assert text[0..] == text;
    while p < |text|
      invariant p <= |text| && 0 <= i <= WIDTH && i <= p
      invariant obuf[..i] == text[p - i..p]
      invariant forall k :: i <= k < obuf.Length ==> obuf[k] == NUL
      invariant Folded(text) == file + Folded(text[p - i..])
    {
      if i == WIDTH {
        FoldLine(text, p - i);
        assert NUL !in obuf[..i];
        var line := FlushLine(obuf, i);
        file := file + line;
        i := 0;
      }
      obuf[i] := text[p];
      p := p + 1;
      i := i + 1;
      assert obuf[..i] == obuf[..i - 1] + [text[p - 1]];
    }
    FoldLast(text[p - i..]);
    if i > 0 { file := file + obuf[..i]; }
  }

  lemma {:induction false} FoldLine(text: seq<byte>, q: nat)
    requires q + WIDTH < |text|
    ensures Folded(text[q..]) == text[q..q + WIDTH] + [CR, LF] + Folded(text[q + WIDTH..])
  {
    assert text[q..][..WIDTH] == text[q..q + WIDTH] && text[q..][WIDTH..] == text[q + WIDTH..];
  }

  lemma {:induction false} FoldLast(line: seq<byte>)
    requires |line| <= WIDTH
    ensures Folded(line) == line
  {
  }
}
