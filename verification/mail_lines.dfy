/** Line lengths of encoded mail text, whose lines end in CR LF. */
module MailLines {
  import opened Bytes

  /** No line of `e`, begun at column `col`, is longer than 76 characters. */
  predicate LinesFit(e: seq<byte>, col: nat)
    decreases |e|
  {
    if e == [] then true
    else if |e| >= 2 && e[0] == CR && e[1] == LF then LinesFit(e[2..], 0)
    else col < 76 && LinesFit(e[1..], col + 1)
  }

  lemma {:induction false} LinesFitText(w: seq<byte>, x: seq<byte>, col: nat)
    requires CR !in w && col + |w| <= 76
    ensures LinesFit(w + x, col) == LinesFit(x, col + |w|)
  {
    if w == [] {
      assert w + x == x;
    } else {
      assert (w + x)[1..] == w[1..] + x && (w + x)[0] == w[0];
      LinesFitText(w[1..], x, col + 1);
    }
  }

  lemma {:induction false} LinesFitEnd(x: seq<byte>, col: nat)
    ensures LinesFit([CR, LF] + x, col) == LinesFit(x, 0)
  {
    assert ([CR, LF] + x)[2..] == x;
  }
}
