/** The lines that the client of c/app/mail/smtp.c has to send, and what a server that reads lines makes of them. */
module SmtpDialogue {
  import opened Options
  import opened Bytes
  import SmtpReceiver
  import SmtpSession

  /** The strings that main puts into its commands. */
  datatype Names = Names(hostname: seq<byte>, user: seq<byte>, passwd: seq<byte>, from: seq<byte>)

  function RcptLines(rs: seq<seq<byte>>): (ls: seq<seq<byte>>)
    ensures |ls| == |rs|
    ensures forall j :: 0 <= j < |rs| ==> ls[j] == Ascii("RCPT TO:<") + rs[j] + Ascii(">")
  {
    seq(|rs|, j requires 0 <= j < |rs| => Ascii("RCPT TO:<") + rs[j] + Ascii(">"))
  }

  /** RFC 5321 section 3.3 and RFC 4954 section 4: the lines in front of the message. */
  function Dialogue(sasl: bool, names: Names, to: seq<byte>): seq<seq<byte>> {
    (if sasl then [Ascii("EHLO ") + names.hostname, Ascii("AUTH LOGIN"), names.user, names.passwd]
     else [Ascii("HELO ") + names.hostname])
    + [Ascii("MAIL FROM:<") + names.from + Ascii(">")] + RcptLines(SmtpSession.Recipients(to)) + [Ascii("DATA")]
  }

  /** The lines as they go over the wire. */
  function Terminated(ls: seq<seq<byte>>): seq<byte> {
    if ls == [] then [] else Terminated(ls[..|ls| - 1]) + (ls[|ls| - 1] + [13, 10])
  }

  /** The whole lines of a stream. */
  function LinesOf(s: seq<byte>): seq<seq<byte>>
    decreases |s|
  {
    match SmtpReceiver.FirstCrlf(s)
    case None => []
    case Some(i) => [s[..i]] + LinesOf(s[i + 2..])
  }

  /** The line and its end find room in a buffer of 4096 bytes. */
  predicate Fits(line: seq<byte>) {
    |line| + 2 < 4096
  }

  /** A line as it is written: whole, or its first 4095 bytes. */
  function OnWire(line: seq<byte>): seq<byte> {
    if Fits(line) then line + [13, 10] else (line + [13, 10])[..4095]
  }

  ghost predicate AllFit(ls: seq<seq<byte>>) {
    forall k :: 0 <= k < |ls| ==> Fits(ls[k])
  }

  /** No line end inside the line. */
  ghost predicate OneLine(line: seq<byte>) {
    forall i :: 0 <= i < |line| - 1 ==> !(line[i] == 13 && line[i + 1] == 10)
  }

  ghost predicate AllOneLine(ls: seq<seq<byte>>) {
    forall k :: 0 <= k < |ls| ==> OneLine(ls[k])
  }

  // ---------- Reading lines ----------

  lemma {:induction false} TerminatedLast(ls: seq<seq<byte>>, line: seq<byte>)
    ensures Terminated([]) == [] && Terminated(ls + [line]) == Terminated(ls) + (line + [13, 10])
  {
    assert (ls + [line])[..|ls|] == ls;
  }

  lemma {:induction false} TerminatedFirst(line: seq<byte>, ls: seq<seq<byte>>)
    ensures Terminated([line] + ls) == line + [13, 10] + Terminated(ls)
  {
    hide Terminated;
    if ls == [] {
      TerminatedLast([], line);
      assert [line] + ls == [] + [line];
    } else {
      var front, last := ls[..|ls| - 1], ls[|ls| - 1];
      TerminatedFirst(line, front);
      TerminatedLast(front, last);
      TerminatedLast([line] + front, last);
      assert ls == front + [last] && [line] + ls == [line] + front + [last];
    }
  }

  /** The first line end is that of the first line, unless there is one inside it. */
  lemma {:induction false} FirstLineEnd(line: seq<byte>, x: seq<byte>)
    ensures
      var r := SmtpReceiver.FirstCrlf(line + [13, 10] + x);
      r.Some? && r.value <= |line| && (r.value == |line| <==> OneLine(line))
  {
    var s := line + [13, 10] + x;
    if line == [] {
      assert s[0] == 13 && s[1] == 10;
    } else {
      assert s[1..] == line[1..] + [13, 10] + x;
      FirstLineEnd(line[1..], x);
      if |line| > 1 && line[0] == 13 && line[1] == 10 {
        assert !OneLine(line);
      } else {
        assert !(s[0] == 13 && s[1] == 10);
        if OneLine(line[1..]) {
          forall i | 0 <= i < |line| - 1 ensures !(line[i] == 13 && line[i + 1] == 10) {
            if i > 0 { assert !(line[1..][i - 1] == 13 && line[1..][i] == 10); }
          }
        }
        if OneLine(line) {
          forall i | 0 <= i < |line[1..]| - 1 ensures !(line[1..][i] == 13 && line[1..][i + 1] == 10) {
            assert !(line[i + 1] == 13 && line[i + 2] == 10);
          }
        }
      }
    }
  }

  /** A server that reads lines gets exactly the lines that were meant if and only if no string has a line end in it. */
  lemma {:induction false} LinesRead(ls: seq<seq<byte>>)
    ensures LinesOf(Terminated(ls)) == ls <==> AllOneLine(ls)
  {
    hide OneLine;
    if ls == [] {
      assert Terminated(ls) == [];
    } else {
      var line, rest := ls[0], ls[1..];
      assert ls == [line] + rest;
      TerminatedFirst(line, rest);
      FirstLineEnd(line, Terminated(rest));
      LinesRead(rest);
      var s := Terminated(ls);
      var i := SmtpReceiver.FirstCrlf(s).value;
      if i == |line| {
        assert s[..i] == line && s[i + 2..] == Terminated(rest);
        assert LinesOf(s) == [line] + LinesOf(Terminated(rest));
        if AllOneLine(rest) {
          forall k | 0 <= k < |ls| ensures OneLine(ls[k]) { if k > 0 { assert OneLine(rest[k - 1]); } }
        }
        if AllOneLine(ls) {
          forall k | 0 <= k < |rest| ensures OneLine(rest[k]) { assert OneLine(ls[k + 1]); }
        }
        if LinesOf(s) == ls { assert LinesOf(Terminated(rest)) == ls[1..]; }
      } else {
        assert LinesOf(s)[0] == s[..i] != line;
        assert !OneLine(ls[0]);
      }
    }
  }
}
