/** A database from its start to the last lookup: the writer of c/lib/scdb/scdb_make.c, then the reader of
    c/lib/scdb/scdb.c. */
module ScdbRoundTrip {
  import opened Options
  import opened Bytes
  import opened ScdbUtils
  import opened ScdbFormat
  import opened ScdbBuffer
  import opened ScdbScatter
  import opened ScdbMake
  import opened ScdbReader
  import opened ScdbLookup

  /** Every length is an `unsigned int`. */
  ghost predicate Storable(pairs: seq<Pair>) {
    forall i :: 0 <= i < |pairs| ==> |pairs[i].key| < TWO_32 && |pairs[i].data| < TWO_32
  }

  lemma {:induction false} PositionsGrow(pairs: seq<Pair>, i: nat)
    requires i <= |pairs|
    ensures NextPos(pairs[..i]) <= NextPos(pairs)
    decreases |pairs| - i
  {
    hide Record;
    if i < |pairs| {
      PositionsGrow(pairs, i + 1);
      assert pairs[..i + 1][..i] == pairs[..i];
    } else {
      assert pairs[..i] == pairs;
    }
  }

  /** An addition that does not fit means that the whole file would not. */
  lemma {:induction false} TooBig(pairs: seq<Pair>, i: nat)
    requires i <= |pairs| && NextPos(pairs[..i]) >= TWO_32
    ensures |Image(pairs)| >= TWO_32
  {
    hide NextPos, Image;
    PositionsGrow(pairs, i);
    ImageSize(pairs);
  }

  /** scdb_make_start, scdb_make_add for each pair, and scdb_make_finish. */
  method Store(pairs: seq<Pair>, file: File) returns (r: int)
    requires Storable(pairs) && file.bytes == []
    modifies file
    ensures r == 0 || r == -1
    ensures r == 0 ==> file.bytes == Image(pairs) && |Image(pairs)| < TWO_32
    ensures Failed !in old(file.plan) ==> (r == 0 <==> |Image(pairs)| < TWO_32)
  {
    hide Maker.Valid, NextPos, Image;
    var m := new Maker(file);
    for i := 0 to |pairs|
      invariant m.Valid() && m.adds == pairs[..i] && fresh(Footprint(m.head))
      invariant Failed !in old(file.plan) ==> Failed !in file.plan
    {
      assert pairs[..i] + [pairs[i]] == pairs[..i + 1];
      assert Pair(pairs[i].key, pairs[i].data) == pairs[i];
      r := m.Add(pairs[i].key, pairs[i].data);
      if r == -1 {
        if Failed !in old(file.plan) { TooBig(pairs, i + 1); }
        return;
      }
    }
    assert pairs[..|pairs|] == pairs;
    r := m.Finish();
  }

  // ---------- A database from the lines of a file ----------

  /** memchr(t, sep, strlen(t)) */
  function FirstAt(t: seq<byte>, sep: byte): (r: Option<nat>)
    ensures r.Some? ==> r.value < |t| && t[r.value] == sep && sep !in t[..r.value]
    ensures r.None? ==> sep !in t
  {
    if t == [] then None
    else if t[0] == sep then Some(0)
    else
      match FirstAt(t[1..], sep)
      case None => None
      case Some(i) =>
        assert t[..i + 1] == [t[0]] + t[1..][..i];
        Some(i + 1)
  }

  /** The key and the data of a line, if it has a separator. */
  function Split(line: seq<byte>, sep: byte): Option<Pair> {
    var t := TextOf(line);
    match FirstAt(t, sep) case None => None case Some(i) => Some(Pair(t[..i], t[i + 1..]))
  }

  /** The pairs of the lines that have a separator. */
  function PairsOf(lines: seq<seq<byte>>, sep: byte): seq<Pair> {
    if lines == [] then []
    else
      PairsOf(lines[..|lines| - 1], sep)
      + match Split(lines[|lines| - 1], sep) case None => [] case Some(a) => [a]
  }

  /** Every pair is a line, up to a NUL, without its first separator, and no key has a NUL. */
  lemma {:induction false} PairsAreLines(lines: seq<seq<byte>>, sep: byte, a: Pair)
    requires a in PairsOf(lines, sep)
    ensures NoNul(a.key) && sep !in a.key
    ensures exists line :: line in lines && a.key + [sep] + a.data == TextOf(line)
  {
    hide TextOf, FirstAt;
    var front, last := lines[..|lines| - 1], lines[|lines| - 1];
    if a in PairsOf(front, sep) {
      PairsAreLines(front, sep, a);
      var line :| line in front && a.key + [sep] + a.data == TextOf(line);
      assert line in lines;
    } else {
      TextOfIs(last);
      var t := TextOf(last);
      var i := FirstAt(t, sep).value;
      assert t == t[..i] + [t[i]] + t[i + 1..] && last in lines;
    }
  }

  /** The lines that have a separator in front of their first NUL, in their order. */
  function WithSeparator(lines: seq<seq<byte>>, sep: byte): (r: seq<seq<byte>>) {
    if lines == [] then []
    else
      var front, last := lines[..|lines| - 1], lines[|lines| - 1];
      WithSeparator(front, sep) + if sep in TextOf(last) then [last] else []
  }

  /** The pair is the text of the line, divided at its first separator. */
  ghost predicate Divides(a: Pair, line: seq<byte>, sep: byte) {
    a.key + [sep] + a.data == TextOf(line) && sep !in a.key
  }

  ghost predicate DivideAll(pairs: seq<Pair>, lines: seq<seq<byte>>, sep: byte) {
    |pairs| == |lines| && forall k :: 0 <= k < |pairs| ==> Divides(pairs[k], lines[k], sep)
  }

  /** Every line with a separator has its pair, in the order of the lines, and there are no other pairs. */
  lemma {:induction false} LinesHavePairs(lines: seq<seq<byte>>, sep: byte)
    ensures DivideAll(PairsOf(lines, sep), WithSeparator(lines, sep), sep)
  {
    hide TextOf, FirstAt, Divides;
    if lines != [] {
      LinesHavePairs(lines[..|lines| - 1], sep);
      SplitDivides(lines[|lines| - 1], sep);
    }
  }

  lemma {:induction false} SplitDivides(line: seq<byte>, sep: byte)
    ensures Split(line, sep).Some? <==> sep in TextOf(line)
    ensures Split(line, sep).Some? ==> Divides(Split(line, sep).value, line, sep)
  {
    hide TextOf;
    var t := TextOf(line);
    if Split(line, sep).Some? {
      var i := FirstAt(t, sep).value;
      assert t == t[..i] + [t[i]] + t[i + 1..];
    }
  }

  lemma {:induction false} OneMoreLine(lines: seq<seq<byte>>, sep: byte, i: nat)
    requires i < |lines|
    ensures PairsOf(lines[..i + 1], sep) ==
      PairsOf(lines[..i], sep) + match Split(lines[i], sep) case None => [] case Some(a) => [a]
  {
    assert lines[..i + 1][..i] == lines[..i];
  }

  /** The pairs of the first lines are the first pairs. */
  lemma {:induction false} FirstPairs(lines: seq<seq<byte>>, sep: byte, i: nat)
    requires i <= |lines|
    ensures PairsOf(lines[..i], sep) <= PairsOf(lines, sep)
    decreases |lines| - i
  {
    hide PairsOf, Split;
    if i < |lines| {
      OneMoreLine(lines, sep, i);
      FirstPairs(lines, sep, i + 1);
    } else {
      assert lines[..i] == lines;
    }
  }

  lemma {:induction false} TooManyLines(lines: seq<seq<byte>>, sep: byte, i: nat)
    requires i <= |lines| && NextPos(PairsOf(lines[..i], sep)) >= TWO_32
    ensures |Image(PairsOf(lines, sep))| >= TWO_32
  {
    hide PairsOf, NextPos, Image;
    FirstPairs(lines, sep, i);
    var part, all := PairsOf(lines[..i], sep), PairsOf(lines, sep);
    assert all[..|part|] == part;
    TooBig(all, |part|);
  }

  lemma {:induction false} SplitSize(line: seq<byte>, sep: byte)
    ensures Split(line, sep).Some? ==> |Split(line, sep).value.key| + |Split(line, sep).value.data| < |line|
  {
  }

  /** scdb_make_gen_file: `lines` is what fgets yields, `eof` whether it then has come to the end of the file. The
      result is the number of lines with a separator, whose pairs are in the database then, or -1. */
  method GenFile(lines: seq<seq<byte>>, eof: bool, sep: byte, file: File) returns (num: int)
    requires file.bytes == [] && forall i :: 0 <= i < |lines| ==> |lines[i]| < 4096
    modifies file
    ensures
      var pairs := PairsOf(lines, sep);
      && DivideAll(pairs, WithSeparator(lines, sep), sep)
      && (num == -1 || num == |WithSeparator(lines, sep)|)
      && (num >= 0 ==> eof && file.bytes == Image(pairs) && |Image(pairs)| < TWO_32)
      && (Failed !in old(file.plan) ==> (num >= 0 <==> eof && |Image(pairs)| < TWO_32))
  {
    hide Maker.Valid, NextPos, Image, PairsOf, Split, WithSeparator, Divides;
    LinesHavePairs(lines, sep);
    var m := new Maker(file);
    num := 0;
    NoPairs(lines[..0], sep);
    for i := 0 to |lines|
      invariant m.Valid() && m.adds == PairsOf(lines[..i], sep) && fresh(Footprint(m.head)) && num == |m.adds|
      invariant Failed !in old(file.plan) ==> Failed !in file.plan
    {
      OneMoreLine(lines, sep, i);
      SplitSize(lines[i], sep);
      var tok := Split(lines[i], sep);
      if tok.Some? {
        var r := m.Add(tok.value.key, tok.value.data);
        if r == -1 {
          if Failed !in old(file.plan) { TooManyLines(lines, sep, i + 1); }
          return -1;
        }
        num := num + 1;
      }
    }
    assert lines[..|lines|] == lines;
    if !eof { return -1; }
    var r := m.Finish();
    if r == -1 { return -1; }
  }

  lemma {:induction false} NoPairs(lines: seq<seq<byte>>, sep: byte)
    requires lines == []
    ensures PairsOf(lines, sep) == []
  {
  }

  // ---------- Lookups ----------

  /** scdb_find, and scdb_findnext as long as there are matches, with the data that they point at. */
  method AllMatches(image: seq<byte>, key: seq<byte>, ghost pairs: seq<Pair>) returns (values: seq<seq<byte>>)
    requires image == Image(pairs) && |image| < TWO_32
    ensures values == Answers(pairs, key)
    ensures NoNul(key) ==> values == Values(pairs, key)
  {
    hide Image, Answers, Values, FindNextStep, KeyTable;
    var db := new Scdb(image);
    ghost var c := db.GetCursor();
    ghost var n := 0;
    ghost var answers := Answers(pairs, key);
    values := [];
    var code := db.Find(key);
    LookupAnswers(pairs, key, c, 0);
    while code == 1
      invariant n <= |answers| && values == answers[..n] && Step(db.GetCursor(), code) == Call(image, c, key, n)
      invariant code == if n < |answers| then 1 else 0
      invariant n < |answers| ==> Points(image, db.GetCursor(), answers[n])
      decreases |answers| - n
    {
      values := values + [image[db.dpos..db.dpos + db.dlen]];
      code := db.FindNext(key);
      n := n + 1;
      LookupAnswers(pairs, key, c, n);
    }
    assert answers[..n] == answers;
    if NoNul(key) { AnswersAreValues(pairs, key); }
  }

  /** The cursor points at this data. */
  ghost predicate Points(image: seq<byte>, c: Cursor, data: seq<byte>) {
    c.dpos + c.dlen <= |image| && image[c.dpos..c.dpos + c.dlen] == data
  }

  /** A new database, filled and then asked for a key without NULs: it gives exactly the values stored under the key, in
      the order in which they were stored. With a disk that works it fails only for a file of 4 GB or more. */
  method StoreAndLookUp(pairs: seq<Pair>, key: seq<byte>, plan: seq<Outcome>) returns (ok: bool, values: seq<seq<byte>>)
    requires Storable(pairs) && NoNul(key)
    ensures ok ==> values == Values(pairs, key)
    ensures Failed !in plan ==> (ok <==> |Image(pairs)| < TWO_32)
  {
    hide Image, Values, Answers, Storable;
    var file := new File(plan);
    var r := Store(pairs, file);
    if r == -1 { return false, []; }
    values := AllMatches(file.bytes, key, pairs);
    ok := true;
  }
}
