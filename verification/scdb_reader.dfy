/** c/lib/scdb/scdb.c: the reader, for a file that is mapped into memory. */
module ScdbReader {
  import opened Options
  import opened Bytes
  import opened ScdbUtils

  /** scdb_read: `len` bytes at `pos`, if the file has them. */
  function ReadAt(map_: seq<byte>, pos: nat, len: nat): (r: Option<seq<byte>>)
    ensures r.Some? ==> |r.value| == len
  {
    if pos > |map_| || |map_| - pos < len then None else Some(map_[pos..pos + len])
  }

  /** strncmp(a, b, |b|) == 0: equal up to the length given or up to a NUL in both. */
  predicate StrncmpEqual(a: seq<byte>, b: seq<byte>)
    requires |a| == |b|
  {
    a == [] || (a[0] == b[0] && (a[0] == NUL || StrncmpEqual(a[1..], b[1..])))
  }

  const COMPARE_BLOCK: nat := 32

  function BlockLength(len: nat): nat {
    if len < COMPARE_BLOCK then len else COMPARE_BLOCK
  }

  /** match: compares the key with the file in blocks of 32 bytes; None for a failed read. */
  function Match(map_: seq<byte>, key: seq<byte>, pos: nat): Option<bool>
    decreases |key|
  {
    if key == [] then Some(true)
    else
      var n := BlockLength(|key|);
      match ReadAt(map_, pos, n)
      case None => None
      case Some(buf) =>
        if !StrncmpEqual(buf, key[..n]) then Some(false) else Match(map_, key[n..], Wrap32(pos + n))
  }

  datatype Cursor = Cursor(loop: nat, khash: nat, kpos: nat, hpos: nat, hslots: nat, dpos: nat, dlen: nat)

  /** The cursor after a call and what the call returned. */
  datatype Step = Step(c: Cursor, code: int)

  /** The cursor after one slot has been consumed. */
  function Advance(c: Cursor): Cursor {
    var next := Wrap32(c.kpos + 8);
    c.(loop := c.loop + 1, kpos := if next == Wrap32(c.hpos + Wrap32(c.hslots * 8)) then c.hpos else next)
  }

  /** Whether the record at `pos` has this key; None for a failed read. */
  function RecordHasKey(map_: seq<byte>, key: seq<byte>, pos: nat): Option<bool> {
    match ReadAt(map_, pos, 8)
    case None => None
    case Some(rec) => if Unpack(rec, 0) == |key| then Match(map_, key, Wrap32(pos + 8)) else Some(false)
  }

  /** The data length stored at the head of the record at `pos`; 0 when it cannot be read. */
  function StoredDataLength(map_: seq<byte>, pos: nat): nat {
    match ReadAt(map_, pos, 8)
    case None => 0
    case Some(rec) => Unpack(rec, 4)
  }

  /** The probing loop of scdb_findnext from cursor `c` on. */
  function Scan(map_: seq<byte>, c: Cursor, key: seq<byte>): (r: Step)
    ensures c.loop <= c.hslots ==> r.c.loop <= r.c.hslots == c.hslots
    decreases c.hslots - c.loop
  {
    if c.loop >= c.hslots then Step(c, 0)
    else
      match ReadAt(map_, c.kpos, 8)
      case None => Step(c, -1)
      case Some(slot) =>
        var pos := Unpack(slot, 4);
        if pos == 0 then Step(c, 0)
        else if Unpack(slot, 0) != c.khash then Scan(map_, Advance(c), key)
        else
          match RecordHasKey(map_, key, pos)
          case None => Step(Advance(c), -1)
          case Some(false) => Scan(map_, Advance(c), key)
          case Some(true) =>
            Step(Advance(c).(dpos := Wrap32(pos + 8 + |key|), dlen := StoredDataLength(map_, pos)), 1)
  }

  /** scdb_findnext: a cursor with loop 0 first looks up the table of the key's bucket. */
  function FindNextStep(map_: seq<byte>, c: Cursor, key: seq<byte>): Step {
    if c.loop != 0 then Scan(map_, c, key)
    else
      var u := HashOf(key);
      match ReadAt(map_, Wrap32(u * 8) % 2048, 8)
      case None => Step(c, -1)
      case Some(buf) =>
        var n := Unpack(buf, 4);
        if n == 0 then Step(c.(hslots := 0), 0)
        else
          var hpos := Unpack(buf, 0);
          Scan(map_, c.(hslots := n, hpos := hpos, khash := u, kpos := Wrap32(hpos + Wrap32(u / 256 % n * 8))), key)
  }

  class Scdb {
    const map_: seq<byte>
    var loop: nat
    var khash: nat
    var kpos: nat
    var hpos: nat
    var hslots: nat
    var dpos: nat
    var dlen: nat

    constructor (image: seq<byte>)
      ensures map_ == image && GetCursor() == Cursor(0, 0, 0, 0, 0, 0, 0)
    {
      map_ := image;
      loop, khash, kpos, hpos, hslots, dpos, dlen := 0, 0, 0, 0, 0, 0, 0;
    }

    function GetCursor(): Cursor
      reads this
    {
      Cursor(loop, khash, kpos, hpos, hslots, dpos, dlen)
    }

    /** match: the loop over 32-byte blocks. */
    method MatchKey(key: seq<byte>, at: nat) returns (r: Option<bool>)
      ensures r == Match(map_, key, at)
    {
      var k, pos := key, at;
      while |k| > 0
        invariant Match(map_, key, at) == Match(map_, k, pos)
        decreases |k|
      {
        var n := BlockLength(|k|);
        var buf := ReadAt(map_, pos, n);
        if buf.None? { return None; }
        if !StrncmpEqual(buf.value, k[..n]) { return Some(false); }
        pos := Wrap32(pos + n);
        k := k[n..];
      }
      r := Some(true);
    }

    method FindStart()
      modifies this
      ensures GetCursor() == old(GetCursor()).(loop := 0)
    {
      loop := 0;
    }

    /** The record part of one probing step: 1 when the record at `pos` is the key's, 0 when not, -1 for a failed
        read. */
    method CheckRecord(key: seq<byte>, pos: nat) returns (code: int)
      modifies this`dpos, this`dlen
      ensures code == match RecordHasKey(map_, key, pos) case None => -1 case Some(b) => if b then 1 else 0
      ensures code == 1 ==> dpos == Wrap32(pos + 8 + |key|) && dlen == StoredDataLength(map_, pos)
      ensures code != 1 ==> dpos == old(dpos) && dlen == old(dlen)
    {
      var rec := ReadAt(map_, pos, 8);
      if rec.None? { return -1; }
      if Unpack(rec.value, 0) != |key| { return 0; }
      var same := MatchKey(key, Wrap32(pos + 8));
      if same.None? { return -1; }
      if !same.value { return 0; }
      dlen := Unpack(rec.value, 4);
      dpos := Wrap32(pos + 8 + |key|);
      return 1;
    }

    /** One round of the probing loop; `done` when it returns from scdb_findnext. */
    method Probe(key: seq<byte>) returns (done: bool, code: int)
      requires loop < hslots
      modifies this
      ensures done ==> Step(GetCursor(), code) == old(Scan(map_, GetCursor(), key))
      ensures !done ==> Scan(map_, GetCursor(), key) == old(Scan(map_, GetCursor(), key))
      ensures !done ==> loop == old(loop) + 1 && hslots == old(hslots)
    {
      var slot := ReadAt(map_, kpos, 8);
      if slot.None? { return true, -1; }
      var pos := Unpack(slot.value, 4);
      if pos == 0 { return true, 0; }
      loop := loop + 1;
      kpos := Wrap32(kpos + 8);
      if kpos == Wrap32(hpos + Wrap32(hslots * 8)) {
        kpos := hpos;
      }
      assert GetCursor() == old(Advance(GetCursor()));
      if Unpack(slot.value, 0) == khash {
        code := CheckRecord(key, pos);
        if code != 0 { return true, code; }
      }
      return false, 0;
    }

    method FindNext(key: seq<byte>) returns (code: int)
      modifies this
      ensures Step(GetCursor(), code) == FindNextStep(map_, old(GetCursor()), key)
    {
      if loop == 0 {
        var u := HashOf(key);
        var buf := ReadAt(map_, Wrap32(u * 8) % 2048, 8);
        if buf.None? { return -1; }
        hslots := Unpack(buf.value, 4);
        if hslots == 0 { return 0; }
        hpos := Unpack(buf.value, 0);
        khash := u;
        kpos := Wrap32(hpos + Wrap32(u / 256 % hslots * 8));
      }
      while loop < hslots
        invariant Scan(map_, GetCursor(), key) == FindNextStep(map_, old(GetCursor()), key)
        decreases hslots - loop
      {
        var done, r := Probe(key);
        if done { return r; }
      }
      return 0;
    }

    method Find(key: seq<byte>) returns (code: int)
      modifies this
      ensures Step(GetCursor(), code) == FindNextStep(map_, old(GetCursor()).(loop := 0), key)
    {
      FindStart();
      code := FindNext(key);
    }
  }

  const NO_LOOKUP := Cursor(0, 0, 0, 0, 0, 0, 0)

  /** The data that the first match of a lookup points at. */
  function FirstMatch(image: seq<byte>, key: seq<byte>): Option<seq<byte>> {
    var s := FindNextStep(image, NO_LOOKUP, key);
    if s.code == 1 then ReadAt(image, s.c.dpos, s.c.dlen) else None
  }

  /** scdb_get_alloc, on a mapped file. */
  method GetAlloc(image: seq<byte>, key: seq<byte>) returns (r: Option<seq<byte>>)
    ensures r == FirstMatch(image, key)
  {
    var c := new Scdb(image);
    var ret := c.Find(key);
    if ret == 1 {
      return ReadAt(image, c.dpos, c.dlen);
    }
    return None;
  }
}
