/** The lines of a text, as mread_line of c/lib/mfile/mfile.c hands them out. */
module MfileLines {
  import opened Bytes

  /** No NUL, and every CR belongs to a line end. */
  ghost predicate Text(s: seq<byte>) {
    NoNul(s) && CrOnlyInCrlf(s)
  }

  lemma {:induction false} FirstByte(s: seq<byte>)
    requires Text(s)
    ensures s != [] ==> s[0] != NUL
    ensures s != [] && s[0] == CR ==> |s| >= 2 && s[1] == LF && s[1..][0] == LF && s[1..][1..] == s[2..]
  {
  }

  /** What one turn of mread_line's loop makes of the text `s`: `t` is left, `two` are the bytes at the place in the
      buffer, and the line ends `n` bytes on if it is `done`. */
  ghost predicate Stepped(s: seq<byte>, t: seq<byte>, two: seq<byte>, done: bool, n: int)
    requires |two| == 2
  {
    if s == [] then done && n == 0 && t == []
    else if s[0] == LF then done && n == 1 && t == s[1..] && two[0] == LF
    else if s[0] == CR then done && n == 2 && |s| >= 2 && t == s[2..] && two == [CR, LF]
    else !done && t == s[1..] && two[0] == s[0]
  }

  /** The length of the first line with its LF; without one, all of the text. */
  function LineLen(s: seq<byte>): (k: nat)
    ensures k <= |s| && (s != [] ==> 0 < k)
  {
    if s == [] then 0 else if s[0] == LF then 1 else 1 + LineLen(s[1..])
  }

  /** The first line ends with the first LF. */
  lemma {:induction false} LineLenIs(s: seq<byte>)
    ensures forall i :: 0 <= i < LineLen(s) - 1 ==> s[i] != LF
    ensures LineLen(s) == |s| || s[LineLen(s) - 1] == LF
  {
    if s != [] && s[0] != LF {
      LineLenIs(s[1..]);
      forall i | 0 <= i < LineLen(s) - 1 ensures s[i] != LF {
        if i > 0 { assert s[i] == s[1..][i - 1]; }
      }
    }
  }

  function Lines(s: seq<byte>): seq<seq<byte>>
    decreases |s|
  {
    if s == [] then [] else [s[..LineLen(s)]] + Lines(s[LineLen(s)..])
  }

  /** The lines, one after the other, are the text. */
  lemma {:induction false} LinesJoin(s: seq<byte>)
    ensures Concat(Lines(s)) == s
    decreases |s|
  {
    if s != [] {
      var k := LineLen(s);
      LinesJoin(s[k..]);
      ConcatCons(s[..k], Lines(s[k..]));
      assert s[..k] + s[k..] == s;
    }
  }

  /** The turns of mread_line's loop for the first line: one for each byte, but CR LF takes one, and so does the end of
      the text. */
  function Turns(s: seq<byte>): (n: nat)
    ensures 0 < n
  {
    if s == [] || s[0] == LF || s[0] == CR then 1 else 1 + Turns(s[1..])
  }

  lemma {:induction false} TurnsAre(s: seq<byte>)
    requires CrOnlyInCrlf(s)
    ensures
      var k := LineLen(s);
      Turns(s) == if k >= 1 && s[k - 1] == LF then (if k >= 2 && s[k - 2] == CR then k - 1 else k) else k + 1
  {
    if s != [] && s[0] != LF {
      CrOnlyInSuffix(s, 1);
      var t := s[1..];
      if s[0] == CR {
        assert t[0] == LF;
        assert LineLen(t) == 1;
      } else {
        TurnsAre(t);
        var k := LineLen(t);
        assert LineLen(s) == k + 1;
        assert k >= 1 ==> t[k - 1] == s[k];
        assert k >= 2 ==> t[k - 2] == s[k - 1];
      }
    }
  }

  /** The bytes before the end of the first line of `s` that have been read, and the text `t` that is left. */
  ghost predicate InLine(s: seq<byte>, t: seq<byte>, got: seq<byte>) {
    && s == got + t && Text(t)
    && LineLen(s) == |got| + LineLen(t) && Turns(s) == |got| + Turns(t)
  }

  /** What mread_line makes of the text `s` with a buffer of `n` bytes: `t` is left. A line for which the loop has
      enough turns is delivered; of a longer one, the call drops `n - 2` bytes and returns 0. */
  ghost predicate LineRead(s: seq<byte>, t: seq<byte>, buf: seq<byte>, n: nat, r: nat)
    requires 2 <= n == |buf|
  {
    if Turns(s) <= n - 2 then
      r == LineLen(s) && r < n && buf[..r] == s[..r] && t == s[r..]
    else
      r == 0 && n - 2 <= |s| && buf[..n - 2] == s[..n - 2] && t == s[n - 2..]
  }

  lemma {:induction false} AtStart(s: seq<byte>)
    requires Text(s)
    ensures InLine(s, s, [])
  {
  }

  lemma {:induction false} StillInLine(s: seq<byte>, t: seq<byte>, t': seq<byte>, got: seq<byte>, two: seq<byte>,
                                       n: int)
    requires InLine(s, t, got) && |two| == 2 && Stepped(t, t', two, false, n)
    ensures InLine(s, t', got + [two[0]]) && Text(t')
  {
    CrOnlyInSuffix(t, 1);
    assert s == got + [t[0]] + t[1..];
  }

  lemma {:induction false} LineDone(s: seq<byte>, t: seq<byte>, t': seq<byte>, got: seq<byte>, buf: seq<byte>, r: nat)
    requires InLine(s, t, got) && |got| + 3 <= |buf| && buf[..|got|] == got
    requires Stepped(t, t', buf[|got|..|got| + 2], true, r - |got|)
    ensures LineRead(s, t', buf, |buf|, r)
  {
    var d := |got|;
    var two := buf[d..d + 2];
    if t == [] {
      assert s == got;
    } else if t[0] == LF {
      assert two[0] == buf[d];
      assert buf[..d + 1] == s[..d + 1];
    } else {
      assert two[0] == buf[d] && two[1] == buf[d + 1];
      assert LineLen(t[1..]) == 1;
      assert buf[..d + 2] == s[..d + 2];
    }
  }

  lemma {:induction false} LineTooLong(s: seq<byte>, t: seq<byte>, buf: seq<byte>, n: nat)
    requires 2 <= n == |buf| && InLine(s, t, buf[..n - 2])
    ensures LineRead(s, t, buf, n, 0)
  {
  }

  /** A line for which a buffer of `n` bytes is long enough. */
  predicate Fits(l: seq<byte>, n: nat) {
    var k := |l|;
    if k >= 1 && l[k - 1] == LF then (if k >= 2 && l[k - 2] == CR then k <= n - 1 else k <= n - 2) else k <= n - 3
  }

  /** mread_line returns the first line of a text exactly when it fits. */
  lemma {:induction false} FitsIs(s: seq<byte>, n: nat)
    requires CrOnlyInCrlf(s) && s != []
    ensures Turns(s) <= n - 2 <==> Fits(s[..LineLen(s)], n)
  {
    TurnsAre(s);
  }

  lemma {:induction false} FirstLine(s: seq<byte>)
    requires s != []
    ensures Lines(s) == [s[..LineLen(s)]] + Lines(s[LineLen(s)..])
  {
  }

  /** A call hands out the first line of the text if it fits. */
  lemma {:induction false} NextLine(s: seq<byte>, t: seq<byte>, buf: seq<byte>, n: nat, r: nat)
    requires 2 <= n == |buf| && LineRead(s, t, buf, n, r) && CrOnlyInCrlf(s) && s != []
    ensures r > 0 <==> Fits(Lines(s)[0], n)
    ensures r > 0 ==> r < n && r <= |s| && buf[..r] == s[..r] && t == s[r..] && Lines(s) == [buf[..r]] + Lines(t)
    ensures r == 0 ==> n - 2 <= |s| && t == s[n - 2..]
  {
    FirstLine(s);
    FitsIs(s, n);
  }

  /** At the end of the text mread_line returns 0. */
  lemma {:induction false} NoMoreLines(t: seq<byte>, buf: seq<byte>, n: nat, r: nat)
    requires 2 <= n == |buf| && LineRead([], t, buf, n, r)
    ensures r == 0 && t == []
  {
  }

  lemma {:induction false} NoLines()
    ensures Lines([]) == []
  {
  }

  lemma {:induction false} NoNulTail(s: seq<byte>, k: nat)
    requires NoNul(s) && k <= |s|
    ensures NoNul(s[k..])
  {
  }

  ghost predicate AllFit(lines: seq<seq<byte>>, n: nat) {
    forall l :: l in lines ==> Fits(l, n)
  }

  /** Calls have handed out `lines` of the text `all`, and `s` is left. */
  ghost predicate TakingLines(all: seq<byte>, lines: seq<seq<byte>>, s: seq<byte>, n: nat) {
    lines + Lines(s) == Lines(all) && Concat(lines) + s == all && AllFit(lines, n)
  }

  /** Calls until 0 have handed out `lines` of the text `all`, and `t` is left: all lines if all of them fit; otherwise
      the lines before the first one that does not fit, of which `n - 2` bytes are lost. */
  ghost predicate LinesTaken(all: seq<byte>, lines: seq<seq<byte>>, t: seq<byte>, n: nat)
    requires 2 <= n
  {
    var k, read := |lines|, |Concat(lines)|;
    && lines <= Lines(all)
    && (lines == Lines(all) <==> AllFit(Lines(all), n))
    && AllFit(lines, n)
    && (if lines == Lines(all) then Concat(lines) == all && t == []
        else !Fits(Lines(all)[k], n) && read + n - 2 <= |all| && t == all[read + n - 2..])
  }

  lemma {:induction false} NoLinesTaken(all: seq<byte>, n: nat)
    ensures TakingLines(all, [], all, n)
  {
    assert [] + Lines(all) == Lines(all);
    assert Concat([]) + all == all by { ConcatNone<byte>([]); }
  }

  /** One call in a run of calls. */
  lemma {:induction false} LinesGoOn(all: seq<byte>, lines: seq<seq<byte>>, s: seq<byte>, t: seq<byte>,
                                     buf: seq<byte>, n: nat, r: nat)
    requires 2 <= n == |buf| && LineRead(s, t, buf, n, r) && Text(s) && TakingLines(all, lines, s, n)
    ensures r < n && (r == 0 ==> LinesTaken(all, lines, t, n))
    ensures r > 0 ==> |t| < |s| && Text(t) && TakingLines(all, lines + [buf[..r]], t, n)
  {
    hide LineRead, Lines, NoNul, CrOnlyInCrlf, Fits, Concat;
    if s == [] {
      NoMoreLines(t, buf, n, r);
      NoLines();
      assert lines + [] == lines && Concat(lines) + [] == Concat(lines);
    } else {
      FirstLine(s);
      NextLine(s, t, buf, n, r);
      if r > 0 {
        CrOnlyInSuffix(s, r);
        NoNulTail(s, r);
        OneMoreTaken(lines, buf[..r], s, t);
      } else {
        assert Lines(all)[|lines|] == Lines(s)[0] && Lines(all)[|lines|] in Lines(all);
      }
    }
  }

  lemma {:induction false} OneMoreTaken(lines: seq<seq<byte>>, line: seq<byte>, s: seq<byte>, t: seq<byte>)
    requires Lines(s) == [line] + Lines(t) && s == line + t
    ensures lines + [line] + Lines(t) == lines + Lines(s)
    ensures Concat(lines + [line]) + t == Concat(lines) + s
  {
    hide Concat, Lines;
    var more := lines + [line];
    ConcatSnoc(more, |lines|);
    assert more[..|lines|] == lines && more[..|lines| + 1] == more;
    assert Concat(lines) + line + t == Concat(lines) + (line + t);
  }

  /** Lines that are shorter than the buffer by three bytes all fit, whatever their ends are. */
  lemma {:induction false} ShortLinesFit(s: seq<byte>, n: nat)
    requires forall l :: l in Lines(s) ==> |l| <= n - 3
    ensures AllFit(Lines(s), n)
  {
    hide Lines;
  }
}
