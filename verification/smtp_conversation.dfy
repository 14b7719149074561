/** The reply-driven loop of c/app/mail/smtp.c, one whole reply per read, with everything that it puts on the wire. */
module SmtpConversation {
  import opened Options
  import opened Bytes
  import opened SmtpDialogue
  import opened SmtpSession
  import SmtpBlast
  import SmtpDelivery
  import SmtpReceiver

  // ---------- What is written ----------

  /** What snprintf leaves of a command in a buffer of 4096 bytes. */
  function Cut(s: seq<byte>): seq<byte> {
    if |s| < 4096 then s else s[..4095]
  }

  /** The command as it is written; for the message, what follows it. */
  function Rendered(c: Command, names: Names): (r: seq<byte>)
    ensures r != []
  {
    match c
    case SendHelo => Cut(Ascii("HELO ") + names.hostname + [CR, LF])
    case SendEhlo => Cut(Ascii("EHLO ") + names.hostname + [CR, LF])
    case SendAuthLogin => Ascii("AUTH LOGIN") + [CR, LF]
    case SendUser => Cut(names.user + [CR, LF])
    case SendPassword => Cut(names.passwd + [CR, LF])
    case SendMailFrom => Cut(Ascii("MAIL FROM:<") + names.from + Ascii(">") + [CR, LF])
    case SendRcptTo(recipient) => Cut(Ascii("RCPT TO:<") + recipient + Ascii(">") + [CR, LF])
    case SendData => Ascii("DATA") + [CR, LF]
    case SendBody => [CR, LF, SmtpBlast.DOT, CR, LF]
    case SendQuit => Ascii("QUIT") + [CR, LF]
  }

  /** What `eml` is sent as; None when the file cannot be opened. */
  function BodySent(eml: Option<seq<seq<byte>>>): seq<byte> {
    match eml case None => [] case Some(chunks) => SmtpBlast.Wire(chunks)
  }

  ghost predicate Sendable(eml: Option<seq<seq<byte>>>) {
    match eml case None => true case Some(chunks) => SmtpBlast.ReadChunks(chunks)
  }

  /** What goes over the wire for a command. */
  function Written(c: Command, names: Names, eml: Option<seq<seq<byte>>>): seq<byte> {
    (if c == SendBody then BodySent(eml) else []) + Rendered(c, names)
  }

  /** What a command has put on the wire: a beginning of what it should, with the whole message in any case, and all of
      it if the connection is `sound`. */
  ghost predicate PartOf(c: Command, part: seq<byte>, names: Names, eml: Option<seq<seq<byte>>>, sound: bool) {
    && part <= Written(c, names, eml)
    && (c == SendBody ==> BodySent(eml) <= part)
    && (sound ==> part == Written(c, names, eml))
  }

  ghost predicate PartsOf(sent: seq<Command>, parts: seq<seq<byte>>, names: Names, eml: Option<seq<seq<byte>>>,
                          sound: bool) {
    |sent| == |parts| && forall k :: 0 <= k < |sent| ==> PartOf(sent[k], parts[k], names, eml, sound)
  }

  /** The session has followed the first `n` steps of the script. */
  ghost predicate Followed(script: seq<Step>, n: nat, sent: seq<Command>, ok: bool, parts: seq<seq<byte>>,
                           names: Names, eml: Option<seq<seq<byte>>>, sound: bool) {
    && n <= |script| && sent == Commands(script, n) && (ok <==> n == |script|)
    && (n > |script| - 3 ==> eml.Some?) && PartsOf(sent, parts, names, eml, sound)
  }

  /** The session has come to the message, of which it has written only a beginning. */
  ghost predicate BrokenOff(script: seq<Step>, n: nat, sent: seq<Command>, ok: bool, parts: seq<seq<byte>>,
                            names: Names, eml: Option<seq<seq<byte>>>, sound: bool) {
    && 3 <= |script| && n > |script| - 3 && sent == Commands(script, |script| - 3) && !ok && |parts| == |sent| + 1
    && PartsOf(sent, parts[..|sent|], names, eml, sound) && parts[|sent|] <= BodySent(eml)
  }

  // ---------- What is on the wire ----------

  /** The lines DATA and QUIT with their ends. */
  const DATA_LINE: seq<byte> := [68, 65, 84, 65, 13, 10]
  const QUIT_LINE: seq<byte> := [81, 85, 73, 84, 13, 10]

  /** The lines of which the first `n` steps consist. */
  function Spoken(d: seq<seq<byte>>, n: nat): seq<seq<byte>> {
    if n < |d| then d[..n] else d
  }

  /** Everything on the wire after `n` steps: the lines, the message with its terminator, and QUIT. */
  function Conversation(sasl: bool, names: Names, to: seq<byte>, eml: Option<seq<seq<byte>>>, n: nat): seq<byte> {
    var d := Dialogue(sasl, names, to);
    var front := Terminated(Spoken(d, n));
    if n <= |d| || eml.None? then front
    else front + (BodySent(eml) + [13, 10, 46, 13, 10]) + if n == |d| + 1 then [] else QUIT_LINE
  }

  lemma {:induction false} DialogueAt(sasl: bool, names: Names, to: seq<byte>, j: nat)
    ensures
      var d, rs, b := Dialogue(sasl, names, to), Recipients(to), Opening(sasl);
      && |d| == b + |rs| + 1 && d[b + |rs|] == Ascii("DATA")
      && (j < |rs| ==> d[b + j] == Ascii("RCPT TO:<") + rs[j] + Ascii(">"))
  {
    hide Recipients, Ascii;
  }

  lemma {:induction false} OpeningLine(sasl: bool, to: seq<byte>, names: Names, k: nat)
    requires k < Opening(sasl)
    ensures |Script(sasl, to)| >= 7 && k < |Dialogue(sasl, names, to)|
    ensures
      var send := Script(sasl, to)[k].send;
      && send.Some? && send.value != SendBody
      && Rendered(send.value, names) == OnWire(Dialogue(sasl, names, to)[k])
  {
    hide Recipients, Script, RcptLines, Ascii;
    ScriptOpening(sasl, to);
    var login := Script(sasl, to)[..5];
    if sasl {
      assert login[k] == Script(sasl, to)[k];
    } else {
      assert Script(sasl, to)[..2][k] == Script(sasl, to)[k];
    }
  }

  /** Step `k` sends line `k`. */
  lemma {:induction false} CommandLine(sasl: bool, to: seq<byte>, names: Names, k: nat)
    requires k < |Dialogue(sasl, names, to)|
    ensures k + 3 < |Script(sasl, to)|
    ensures
      var send := Script(sasl, to)[k].send;
      && send.Some? && send.value != SendBody
      && Rendered(send.value, names) == OnWire(Dialogue(sasl, names, to)[k])
  {
    hide Recipients, Script, Dialogue, Ascii;
    var b, rs := Opening(sasl), Recipients(to);
    DialogueAt(sasl, names, to, if k < b then 0 else k - b);
    ScriptAt(sasl, to, 0);
    if k < b {
      OpeningLine(sasl, to, names, k);
    } else {
      ScriptAt(sasl, to, k - b);
    }
  }

  lemma {:induction false} ScriptOpening(sasl: bool, to: seq<byte>)
    ensures |Script(sasl, to)| >= 7
    ensures sasl ==>
      Script(sasl, to)[..5] == [Step(220, Some(SendEhlo)), Step(250, Some(SendAuthLogin)), Step(334, Some(SendUser)),
                                Step(334, Some(SendPassword)), Step(235, Some(SendMailFrom))]
    ensures !sasl ==> Script(sasl, to)[..2] == [Step(220, Some(SendHelo)), Step(250, Some(SendMailFrom))]
  {
  }

  lemma {:induction false} WholePart(sent: seq<Command>, parts: seq<seq<byte>>, names: Names,
                                     eml: Option<seq<seq<byte>>>, k: nat)
    requires PartsOf(sent, parts, names, eml, true) && k < |sent|
    ensures k < |parts| && parts[k] == Written(sent[k], names, eml)
  {
    assert PartOf(sent[k], parts[k], names, eml, true);
  }

  /** What each of the first `n` steps has put on the wire. */
  lemma {:induction false} PartAt(sasl: bool, to: seq<byte>, names: Names, eml: Option<seq<seq<byte>>>, n: nat,
                                  parts: seq<seq<byte>>, k: nat)
    requires n < |Script(sasl, to)| && PartsOf(Commands(Script(sasl, to), n), parts, names, eml, true) && k < n
    ensures |parts| == n
    ensures
      var d := Dialogue(sasl, names, to);
      parts[k] == if k < |d| then OnWire(d[k])
                  else if k == |d| then BodySent(eml) + [13, 10, 46, 13, 10]
                  else QUIT_LINE
  {
    hide Script, Commands, Recipients, Dialogue, BodySent, OnWire;
    var b, rs, d := Opening(sasl), Recipients(to), Dialogue(sasl, names, to);
    DialogueAt(sasl, names, to, 0);
    CommandsAt(sasl, to, n, k);
    WholePart(Commands(Script(sasl, to), n), parts, names, eml, k);
    if k < |d| {
      CommandLine(sasl, to, names, k);
    } else {
      ScriptAt(sasl, to, k - b - |rs|);
      QuitIs();
    }
  }

  lemma {:induction false} QuitIs()
    ensures Ascii("QUIT") + [CR, LF] == QUIT_LINE && Ascii("DATA") + [CR, LF] == DATA_LINE
  {
  }

  /** The lines are on the wire as they should be exactly when each of them fits in the buffer. */
  lemma {:induction false} LinesWritten(ls: seq<seq<byte>>, parts: seq<seq<byte>>)
    requires |ls| == |parts| && forall k :: 0 <= k < |ls| ==> parts[k] == OnWire(ls[k])
    ensures |Concat(parts)| <= |Terminated(ls)| && (|Concat(parts)| == |Terminated(ls)| <==> AllFit(ls))
    ensures AllFit(ls) ==> Concat(parts) == Terminated(ls)
  {
    hide Concat;
    if ls == [] {
      ConcatNone(parts);
      assert parts[..0] == parts;
    } else {
      var m := |ls| - 1;
      LinesWritten(ls[..m], parts[..m]);
      ConcatSnoc(parts, m);
      assert parts[..m + 1] == parts;
      assert AllFit(ls) <==> AllFit(ls[..m]) && Fits(ls[m]) by { FitsSnoc(ls); }
    }
  }

  lemma {:induction false} FitsSnoc(ls: seq<seq<byte>>)
    requires ls != []
    ensures AllFit(ls) <==> AllFit(ls[..|ls| - 1]) && Fits(ls[|ls| - 1])
  {
    hide Fits;
    var front := ls[..|ls| - 1];
    if AllFit(front) && Fits(ls[|ls| - 1]) {
      forall k | 0 <= k < |ls| ensures Fits(ls[k]) { if k < |front| { assert Fits(front[k]); } }
    }
    if AllFit(ls) {
      forall k | 0 <= k < |front| ensures Fits(front[k]) { assert Fits(ls[k]); }
    }
  }

  /** After any number of steps over a connection that loses nothing, the wire has the lines of the dialogue, the
      message and QUIT, exactly when each line fits in the buffer. */
  lemma {:induction false} WireIs(sasl: bool, to: seq<byte>, names: Names, eml: Option<seq<seq<byte>>>, n: nat,
                                  parts: seq<seq<byte>>)
    requires n <= |Script(sasl, to)| && PartsOf(Commands(Script(sasl, to), n), parts, names, eml, true)
    requires n > |Script(sasl, to)| - 3 ==> eml.Some?
    ensures Concat(parts) == Conversation(sasl, names, to, eml, n) <==> AllFit(Spoken(Dialogue(sasl, names, to), n))
  {
    hide Script, Commands, Dialogue, Concat, PartsOf, OnWire, AllFit, Terminated, BodySent, Recipients;
    var d := Dialogue(sasl, names, to);
    DialogueAt(sasl, names, to, 0);
    ScriptAt(sasl, to, 0);
    AllCommands(sasl, to);
    var n' := if n < |Script(sasl, to)| then n else n - 1;
    var ls := Spoken(d, n);
    if n' == 0 {
      NoneSent(Script(sasl, to), parts, names, eml);
    } else {
      PartAt(sasl, to, names, eml, n', parts, 0);
    }
    forall k | 0 <= k < |ls| ensures parts[..|ls|][k] == OnWire(ls[k]) {
      PartAt(sasl, to, names, eml, n', parts, k);
    }
    if n' > |d| { PartAt(sasl, to, names, eml, n', parts, |d|); }
    if n' > |d| + 1 { PartAt(sasl, to, names, eml, n', parts, |d| + 1); }
    LinesWritten(ls, parts[..|ls|]);
    if n' > |d| { ConcatSnoc(parts, |d|); }
    if n' > |d| + 1 { ConcatSnoc(parts, |d| + 1); }
    assert parts[..n'] == parts;
  }

  /** The same when the session has come to a message that cannot be opened. */
  lemma {:induction false} BrokenWire(sasl: bool, to: seq<byte>, names: Names, n: nat, sent: seq<Command>,
                                      parts: seq<seq<byte>>)
    requires BrokenOff(Script(sasl, to), n, sent, false, parts, names, None, true)
    ensures Concat(parts) == Conversation(sasl, names, to, None, n) <==> AllFit(Spoken(Dialogue(sasl, names, to), n))
  {
    hide Script, Commands, Dialogue, Concat, PartsOf, AllFit, Terminated, Recipients;
    var m := |Script(sasl, to)| - 3;
    DialogueAt(sasl, names, to, 0);
    ScriptAt(sasl, to, 0);
    WireIs(sasl, to, names, None, m, parts[..|sent|]);
    ConcatSnoc(parts, |sent|);
    assert parts[..|sent| + 1] == parts && parts[|sent|] == [];
  }

  lemma {:induction false} NoneSent(script: seq<Step>, parts: seq<seq<byte>>, names: Names,
                                    eml: Option<seq<seq<byte>>>)
    requires PartsOf(Commands(script, 0), parts, names, eml, true)
    ensures parts == []
  {
    NoCommands(script);
  }

  // ---------- The loop ----------

  /** blast from the opening of the file on. */
  method SendMessage(eml: Option<seq<seq<byte>>>, sock: SmtpBlast.Socket) returns (ok: bool)
    requires Sendable(eml)
    modifies sock
    ensures ok ==> eml.Some? && sock.wire == old(sock.wire) + BodySent(eml)
    ensures old(sock.wire) <= sock.wire <= old(sock.wire) + BodySent(eml)
    ensures SmtpBlast.Failed !in old(sock.plan) ==> (ok <==> eml.Some?) && SmtpBlast.Failed !in sock.plan
    ensures old(sock.plan) == [] ==> sock.plan == []
  {
    match eml {
      case None => ok := false;
      case Some(chunks) =>
        var sent;
        ok, sent := SmtpBlast.Blast(chunks, sock);
    }
  }

  /** The swrite at the end of the loop, whose result main ignores. */
  method WriteCommand(data: seq<byte>, sock: SmtpBlast.Socket) returns (ghost part: seq<byte>)
    requires data != []
    modifies sock
    ensures sock.wire == old(sock.wire) + part && part <= data
    ensures SmtpBlast.Failed !in old(sock.plan) ==> SmtpBlast.Failed !in sock.plan
    ensures old(sock.plan) == [] ==> sock.plan == [] && part == data
  {
    var w := sock.Send(data);
    part := if w < 0 then [] else data[..w];
  }

  /** One round of the loop behind the test of the reply: the message, if it is its turn, and the command. */
  method Act(stage: Stage, send: Command, names: Names, eml: Option<seq<seq<byte>>>, sock: SmtpBlast.Socket)
    returns (ok: bool, ghost part: seq<byte>)
    requires Sendable(eml) && (stage == Data <==> send == SendBody)
    modifies sock
    ensures sock.wire == old(sock.wire) + part
    ensures ok ==> PartOf(send, part, names, eml, old(sock.plan) == []) && (stage == Data ==> eml.Some?)
    ensures !ok ==> stage == Data && part <= BodySent(eml) && (eml.None? || SmtpBlast.Failed in old(sock.plan))
    ensures SmtpBlast.Failed !in old(sock.plan) ==> SmtpBlast.Failed !in sock.plan
    ensures old(sock.plan) == [] ==> sock.plan == []
  {
    hide Rendered, BodySent, Sendable, Written, PartOf;
    part := [];
    if stage == Data {
      ok := SendMessage(eml, sock);
      part := sock.wire[|old(sock.wire)|..];
      if !ok { return; }
    }
    ghost var body := part;
    part := WriteCommand(Rendered(send, names), sock);
    PartWritten(send, body, part, names, eml, old(sock.plan) == []);
    assert old(sock.wire) + body + part == old(sock.wire) + (body + part);
    part := body + part;
    ok := true;
  }

  lemma {:induction false} PartWritten(c: Command, body: seq<byte>, part: seq<byte>, names: Names,
                                       eml: Option<seq<seq<byte>>>, sound: bool)
    requires body == if c == SendBody then BodySent(eml) else []
    requires part <= Rendered(c, names) && (sound ==> part == Rendered(c, names))
    ensures PartOf(c, body + part, names, eml, sound)
  {
    hide Rendered, BodySent;
  }

  /** The replies have satisfied `i` steps of the script, and the stage and what is left of the recipients stand for the
      others. */
  ghost predicate AtStep(script: seq<Step>, replies: seq<seq<byte>>, sasl: bool, stage: Stage, tok: seq<byte>, i: nat) {
    && i < |script| && i <= |replies| && (stage == Greet <==> i == 0)
    && script[i..] == (if stage == Greet then Script(sasl, tok) else Remaining(stage, tok))
    && Satisfied(replies, script) == i + Satisfied(replies[i..], script[i..])
  }

  lemma {:induction false} FirstStep(sasl: bool, to: seq<byte>, replies: seq<seq<byte>>)
    ensures |Script(sasl, to)| > 3 && Commands(Script(sasl, to), 0) == []
    ensures AtStep(Script(sasl, to), replies, sasl, Greet, to, 0)
  {
    hide Script, Satisfied, Remaining, Commands;
    ScriptLength(sasl, to);
    NoCommands(Script(sasl, to));
    assert replies[0..] == replies && Script(sasl, to)[0..] == Script(sasl, to);
  }

  lemma {:induction false} AllReplies(script: seq<Step>, replies: seq<seq<byte>>, sasl: bool, stage: Stage,
                                      tok: seq<byte>, i: nat)
    requires AtStep(script, replies, sasl, stage, tok, i) && i == |replies|
    ensures Satisfied(replies, script) == i < |script|
  {
    hide Script, Satisfied, Remaining;
  }

  /** The test of one reply, and the switch. */
  method Turn(sasl: bool, stage: Stage, tok: seq<byte>, replies: seq<seq<byte>>, i: nat, ghost script: seq<Step>)
    returns (r: nat, send: Option<Command>, stage': Stage, tok': seq<byte>)
    requires i < |replies| && AtStep(script, replies, sasl, stage, tok, i)
    ensures i < |script| && (stage == Data <==> i == |script| - 3) && (send.None? <==> stage == Quit)
    ensures if r != 0 then Satisfied(replies, script) == i else Satisfied(replies, script) > i
    ensures r == 0 && stage == Quit ==>
      Satisfied(replies, script) == |script| == i + 1 && Commands(script, |script|) == Commands(script, i)
    ensures r == 0 && stage != Quit ==>
      && i + 1 < |script| && AtStep(script, replies, sasl, stage', tok', i + 1)
      && (stage == Data <==> send.value == SendBody)
      && Commands(script, i + 1) == Commands(script, i) + [send.value]
  {
    hide Script, Satisfied, Remaining, ReplyCode, Wanted, Commands;
    StageLength(stage, tok);
    r := SmtpCode(stage, replies[i]);
    send, stage', tok' := Respond(sasl, stage, tok, script[i..]);
    assert script[i..][0] == script[i] && script[i..][1..] == script[i + 1..];
    SatisfiedStep(replies, script, i);
    NextCommand(script, i);
    if stage == Greet { ScriptLength(sasl, tok); }
  }

  /** The loop of main. It writes exactly the commands of the script whose replies came in, in the order of the script,
      with the message in its place, and reports success exactly when the replies complete the script. If the file
      cannot be opened or a write of the message fails, a beginning of it is on the wire, and the session ends there.
      `parts` is what each command has put on the wire. Over a connection that loses nothing that is the conversation
      byte for byte, exactly if each of its lines fits in the buffer. */
  method Session(sasl: bool, to: seq<byte>, names: Names, eml: Option<seq<seq<byte>>>, sock: SmtpBlast.Socket,
                 replies: seq<seq<byte>>)
    returns (sent: seq<Command>, ok: bool, ghost parts: seq<seq<byte>>)
    requires Sendable(eml)
    modifies sock
    ensures sock.wire == old(sock.wire) + Concat(parts)
    ensures
      var script := Script(sasl, to);
      var n := Satisfied(replies, script);
      || Followed(script, n, sent, ok, parts, names, eml, old(sock.plan) == [])
      || ((eml.None? || SmtpBlast.Failed in old(sock.plan))
          && BrokenOff(script, n, sent, ok, parts, names, eml, old(sock.plan) == []))
    ensures
      var n, d := Satisfied(replies, Script(sasl, to)), Dialogue(sasl, names, to);
      old(sock.plan) == [] ==>
        (sock.wire[|old(sock.wire)|..] == Conversation(sasl, names, to, eml, n) <==> AllFit(Spoken(d, n)))
  {
    hide Script, Satisfied, Commands, Sendable, BodySent, PartOf, PartsOf, AtStep, Concat, Conversation, Spoken, AllFit;
    hide Dialogue;
    ghost var script := Script(sasl, to);
    ghost var sound := sock.plan == [];
    var stage, tok, i := Greet, to, 0;
    sent, parts := [], [];
    FirstStep(sasl, to, replies);
    NoParts(sock.wire, names, eml, sound);
    while i < |replies|
      invariant i <= |replies| && i < |script| && AtStep(script, replies, sasl, stage, tok, i)
      invariant sent == Commands(script, i) && |parts| == |sent| && PartsOf(sent, parts, names, eml, sound)
      invariant sock.wire == old(sock.wire) + Concat(parts) && (sound ==> sock.plan == [])
      invariant SmtpBlast.Failed !in old(sock.plan) ==> SmtpBlast.Failed !in sock.plan
      invariant i > |script| - 3 ==> eml.Some?
      decreases |replies| - i
    {
      var r, send, stage', tok' := Turn(sasl, stage, tok, replies, i, script);
      if r != 0 {
        if sound { WireIs(sasl, to, names, eml, i, parts); }
        return sent, false, parts;
      }
      if stage == Quit {
        if sound { WireIs(sasl, to, names, eml, |script|, parts); }
        return sent, true, parts;
      }
      var done;
      ghost var part, plan := [], sock.plan;
      done, part := Act(stage, send.value, names, eml, sock);
      OneMorePart(old(sock.wire), parts, part);
      parts := parts + [part];
      assert parts == parts[..|sent|] + [part] && parts[|sent|] == part;
      if !done {
        if sound { BrokenWire(sasl, to, names, Satisfied(replies, script), sent, parts); }
        return sent, false, parts;
      }
      PartsGrow(sent, parts[..|sent|], send.value, part, names, eml, sound, plan == []);
      sent := sent + [send.value];
      stage, tok := stage', tok';
      i := i + 1;
    }
    AllReplies(script, replies, sasl, stage, tok, i);
    if sound { WireIs(sasl, to, names, eml, i, parts); }
    return sent, false, parts;
  }

  lemma {:induction false} PartsGrow(sent: seq<Command>, parts: seq<seq<byte>>, c: Command, part: seq<byte>,
                                     names: Names, eml: Option<seq<seq<byte>>>, sound: bool, now: bool)
    requires PartsOf(sent, parts, names, eml, sound) && PartOf(c, part, names, eml, now) && (sound ==> now)
    ensures PartsOf(sent + [c], parts + [part], names, eml, sound)
  {
    hide Written, BodySent;
    assert PartOf(c, part, names, eml, sound);
  }

  lemma {:induction false} NoParts(wire: seq<byte>, names: Names, eml: Option<seq<seq<byte>>>, sound: bool)
    ensures wire + Concat<byte>([]) == wire && PartsOf([], [], names, eml, sound)
  {
  }

  lemma {:induction false} OneMorePart(wire: seq<byte>, parts: seq<seq<byte>>, part: seq<byte>)
    ensures wire + Concat(parts) + part == wire + Concat(parts + [part])
  {
    hide Concat;
    var all := parts + [part];
    ConcatSnoc(all, |parts|);
    assert all[..|parts|] == parts && all[..|parts| + 1] == all;
    assert wire + Concat(parts) + part == wire + (Concat(parts) + part);
  }

  // ---------- The message between its commands ----------

  lemma {:induction false} LastCommands(sasl: bool, to: seq<byte>)
    ensures
      var sent := Commands(Script(sasl, to), |Script(sasl, to)|);
      && |sent| >= 3 && sent[|sent| - 3] == SendData && sent[|sent| - 2] == SendBody && sent[|sent| - 1] == SendQuit
  {
    hide Script, Recipients, Commands;
    var script, k := Script(sasl, to), Opening(sasl) + |Recipients(to)|;
    AllCommands(sasl, to);
    ScriptAt(sasl, to, 0);
    ScriptAt(sasl, to, 1);
    ScriptAt(sasl, to, 2);
    CommandsAt(sasl, to, |script| - 1, k);
    CommandsAt(sasl, to, |script| - 1, k + 1);
    CommandsAt(sasl, to, |script| - 1, k + 2);
  }

  /** The last parts of a complete session. */
  lemma {:induction false} LastParts(parts: seq<seq<byte>>)
    requires |parts| >= 2
    ensures Concat(parts) == Concat(parts[..|parts| - 2]) + (parts[|parts| - 2] + parts[|parts| - 1])
  {
    hide Concat;
    var k := |parts| - 2;
    ConcatSnoc(parts, k);
    ConcatSnoc(parts, k + 1);
    assert parts[..k + 2] == parts;
    assert Concat(parts[..k]) + parts[k] + parts[k + 1] == Concat(parts[..k]) + (parts[k] + parts[k + 1]);
  }

  lemma {:induction false} MessageWritten(names: Names, chunks: seq<seq<byte>>)
    ensures Written(SendData, names, Some(chunks)) == DATA_LINE
    ensures Written(SendBody, names, Some(chunks)) + Written(SendQuit, names, Some(chunks))
      == SmtpBlast.Wire(chunks) + SmtpReceiver.Terminator(QUIT_LINE)
  {
    hide SmtpBlast.Wire, SmtpReceiver.Terminator, Ascii, DATA_LINE, QUIT_LINE;
    QuitIs();
    var body := SmtpBlast.Wire(chunks);
    assert Written(SendBody, names, Some(chunks)) == body + [CR, LF, SmtpBlast.DOT, CR, LF];
    assert Written(SendQuit, names, Some(chunks)) == QUIT_LINE;
    MessageEnds(body, QUIT_LINE);
  }

  /** What a complete session over a connection that loses nothing has written behind DATA: the message, its terminator,
      and QUIT. */
  lemma {:induction false} EndOfSession(sasl: bool, to: seq<byte>, names: Names, chunks: seq<seq<byte>>,
                                        parts: seq<seq<byte>>)
    requires PartsOf(Commands(Script(sasl, to), |Script(sasl, to)|), parts, names, Some(chunks), true)
    ensures |parts| > 2 && parts[|parts| - 3] == DATA_LINE
    ensures Concat(parts) == Concat(parts[..|parts| - 2])
      + (SmtpBlast.Wire(chunks) + SmtpReceiver.Terminator(QUIT_LINE))
  {
    hide Script, Commands, Concat, Written, Rendered, PartOf, SmtpBlast.Wire, SmtpReceiver.Terminator;
    var sent := Commands(Script(sasl, to), |Script(sasl, to)|);
    LastCommands(sasl, to);
    WholePart(sent, parts, names, Some(chunks), |sent| - 3);
    WholePart(sent, parts, names, Some(chunks), |sent| - 2);
    WholePart(sent, parts, names, Some(chunks), |sent| - 1);
    LastParts(parts);
    MessageWritten(names, chunks);
  }

  /** The stream behind DATA of a complete session. */
  ghost predicate Received(chunks: seq<seq<byte>>, text: seq<byte>) {
    SmtpReceiver.Receive(SmtpBlast.Wire(chunks) + SmtpReceiver.Terminator(QUIT_LINE))
      == SmtpReceiver.Message(SmtpReceiver.Normalised(text) + [CR, LF], QUIT_LINE)
  }

  /** A receiver that reads behind DATA gets the text of the message, without its CRs, and goes on with QUIT, if and
      only if no read hides a dot; and it gets the whole file, with its line ends normalised, if and only if every CR
      begins a line end. */
  lemma {:induction false} ServerReceives(sasl: bool, to: seq<byte>, names: Names, chunks: seq<seq<byte>>,
                                          parts: seq<seq<byte>>)
    requires PartsOf(Commands(Script(sasl, to), |Script(sasl, to)|), parts, names, Some(chunks), true)
    ensures
      var text := SmtpBlast.Text(chunks);
      && |parts| > 2 && parts[|parts| - 3] == DATA_LINE
      && Concat(parts) == Concat(parts[..|parts| - 2]) + (SmtpBlast.Wire(chunks) + SmtpReceiver.Terminator(QUIT_LINE))
      && (Received(chunks, SmtpReceiver.WithoutCr(text)) <==>
          forall i :: 0 <= i < |chunks| ==> SmtpBlast.ChunkClear(chunks, i))
      && (Received(chunks, text) <==> CrOnlyInCrlf(text))
  {
    hide Script, Commands, Concat, Rendered, PartsOf, SmtpBlast.Wire, SmtpBlast.Text, SmtpBlast.ChunkClear;
    hide CrOnlyInCrlf, SmtpReceiver.Receive, SmtpReceiver.Normalised, SmtpReceiver.WithoutCr, SmtpReceiver.Terminator;
    hide DATA_LINE, QUIT_LINE;
    EndOfSession(sasl, to, names, chunks, parts);
    SmtpDelivery.WireDelivered(chunks, QUIT_LINE);
    SmtpDelivery.FileDelivered(chunks, QUIT_LINE);
  }

  lemma {:induction false} MessageEnds(body: seq<byte>, quit: seq<byte>)
    ensures body + [CR, LF, SmtpBlast.DOT, CR, LF] + quit == body + SmtpReceiver.Terminator(quit)
  {
  }

  /** What a server that reads lines has of the `wire` after `n` steps: of a dialogue that goes on, exactly the first
      `n` lines, and of a finished one, in front of the message, all of them, if and only if no string has a line end
      in it. */
  ghost predicate LinesArrive(d: seq<seq<byte>>, wire: seq<byte>, at: nat, n: nat) {
    && (n <= |d| ==> (LinesOf(wire) == Spoken(d, n) <==> AllOneLine(Spoken(d, n))))
    && (n == |d| + 3 ==>
        at <= |wire| && wire[..at] == Terminated(d) && (LinesOf(wire[..at]) == d <==> AllOneLine(d)))
  }

  /** A mail over a connection that loses nothing: the wire is the conversation as far as the replies have brought it,
      exactly if each of its lines fits in the buffer, and then a server reads its lines. When the session succeeds, a
      receiver that reads behind DATA gets the file, with its line ends normalised, if and only if every CR of its text
      begins a line end. */
  method Mail(sasl: bool, to: seq<byte>, names: Names, chunks: seq<seq<byte>>, replies: seq<seq<byte>>)
    returns (ok: bool, wire: seq<byte>, ghost at: nat)
    requires SmtpBlast.ReadChunks(chunks)
    ensures ok <==> Satisfied(replies, Script(sasl, to)) == |Script(sasl, to)|
    ensures
      var n, d := Satisfied(replies, Script(sasl, to)), Dialogue(sasl, names, to);
      && (wire == Conversation(sasl, names, to, Some(chunks), n) <==> AllFit(Spoken(d, n)))
      && (AllFit(Spoken(d, n)) ==> LinesArrive(d, wire, at, n))
    ensures ok ==>
      var text := SmtpBlast.Text(chunks);
      && 6 <= at <= |wire| && wire[at - 6..at] == DATA_LINE
      && (SmtpReceiver.Receive(wire[at..]) == SmtpReceiver.Message(SmtpReceiver.Normalised(text) + [CR, LF], QUIT_LINE)
          <==> CrOnlyInCrlf(text))
  {
    hide Script, Commands, Concat, Rendered, PartsOf, Satisfied, SmtpBlast.Wire, SmtpBlast.Text, SmtpBlast.ChunkClear;
    hide CrOnlyInCrlf, SmtpReceiver.Receive, SmtpReceiver.Normalised, SmtpReceiver.WithoutCr, SmtpReceiver.Terminator;
    hide Dialogue, Conversation, Spoken, AllFit, LinesArrive, QUIT_LINE;
    var sock := new SmtpBlast.Socket([]);
    var sent;
    ghost var parts;
    sent, ok, parts := Session(sasl, to, names, Some(chunks), sock, replies);
    wire := sock.wire;
    assert wire == wire[0..] == Concat(parts);
    at := 0;
    if ok {
      ServerReceives(sasl, to, names, chunks, parts);
      at := |Concat(parts[..|parts| - 2])|;
      DataBefore(parts);
      assert wire[at..] == SmtpBlast.Wire(chunks) + SmtpReceiver.Terminator(QUIT_LINE);
    }
    ghost var n := Satisfied(replies, Script(sasl, to));
    if AllFit(Spoken(Dialogue(sasl, names, to), n)) { LinesDelivered(sasl, to, names, chunks, n, wire, at); }
  }

  lemma {:induction false} LinesDelivered(sasl: bool, to: seq<byte>, names: Names, chunks: seq<seq<byte>>, n: nat,
                                          wire: seq<byte>, at: nat)
    requires n <= |Script(sasl, to)| && wire == Conversation(sasl, names, to, Some(chunks), n)
    requires n == |Script(sasl, to)| ==>
      at <= |wire| && wire[at..] == SmtpBlast.Wire(chunks) + SmtpReceiver.Terminator(QUIT_LINE)
    ensures LinesArrive(Dialogue(sasl, names, to), wire, at, n)
  {
    hide Script, Dialogue, Recipients, Terminated, LinesOf, AllOneLine, SmtpBlast.Wire;
    var d := Dialogue(sasl, names, to);
    DialogueAt(sasl, names, to, 0);
    ScriptAt(sasl, to, 0);
    LinesRead(Spoken(d, n));
    if n == |d| + 3 {
      var body := SmtpBlast.Wire(chunks);
      MessageEnds(body, QUIT_LINE);
      assert Spoken(d, n) == d && wire == Terminated(d) + (body + [13, 10, 46, 13, 10]) + QUIT_LINE;
      assert |wire[at..]| == |body| + 5 + |QUIT_LINE|;
      assert at == |Terminated(d)|;
    }
  }

  lemma {:induction false} DataBefore(parts: seq<seq<byte>>)
    requires |parts| > 2
    ensures
      var at, data := |Concat(parts[..|parts| - 2])|, parts[|parts| - 3];
      |data| <= at <= |Concat(parts)| && Concat(parts)[at - |data|..at] == data
  {
    hide Concat;
    var k := |parts| - 2;
    ConcatSnoc(parts, k - 1);
    assert parts == parts[..k] + parts[k..];
    ConcatAppend(parts[..k], parts[k..]);
  }
}
