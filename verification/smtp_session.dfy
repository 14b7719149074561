/** The stages of c/app/mail/smtp.c: reply codes, recipients, and the script that a session has to follow. */
module SmtpSession {
  import opened Options
  import opened Bytes

  const COMMA: byte := 44

  datatype Stage = Greet | Helo | Ehlo | Auth | User | Passwd | Mail | Rcpt | Data | Eom | Quit

  datatype Command = SendHelo | SendEhlo | SendAuthLogin | SendUser | SendPassword | SendMailFrom
    | SendRcptTo(recipient: seq<byte>) | SendData | SendBody | SendQuit

  // ---------- Reply codes ----------

  predicate IsSpace(c: byte) {
    c == 32 || 9 <= c <= 13
  }

  predicate IsDigit(c: byte) {
    48 <= c <= 57
  }

  /** The value of the digits at the beginning of `s`, behind the digits worth `acc`. */
  function Digits(s: seq<byte>, acc: int): int {
    if s == [] || !IsDigit(s[0]) then acc else Digits(s[1..], 10 * acc + (s[0] as int - 48))
  }

  /** atoi */
  function Atoi(s: seq<byte>): int {
    if s == [] then 0
    else if IsSpace(s[0]) then Atoi(s[1..])
    else if s[0] == 45 then -Digits(s[1..], 0)
    else if s[0] == 43 then Digits(s[1..], 0)
    else Digits(s, 0)
  }

  /** strncpy(rcode, s, 3): at most three characters, up to a NUL. */
  function FirstThree(s: seq<byte>): (r: seq<byte>)
    ensures |r| <= 3
  {
    TextOf(if |s| < 3 then s else s[..3])
  }

  /** Where the backward search for LF from index `i` stops. */
  function SearchBack(buf: seq<byte>, i: nat): (r: nat)
    requires i < |buf|
    ensures r <= i && (r == 0 || buf[r] == LF)
    ensures forall j :: r < j <= i ==> buf[j] != LF
  {
    if buf[i] != LF && i > 0 then SearchBack(buf, i - 1) else i
  }

  /** Where smtp_code looks for the code: behind the last LF that is not the final byte, or at the start. */
  function CodeStart(buf: seq<byte>): (r: nat)
    ensures r <= |buf|
  {
    if |buf| < 2 then 0
    else
      var i := SearchBack(buf, |buf| - 2);
      if i == 0 then 0 else i + 1
  }

  function ReplyCode(buf: seq<byte>): int {
    Atoi(FirstThree(buf[CodeStart(buf)..]))
  }

  /** The code that smtp_code wants to see in each stage. */
  function Wanted(stage: Stage): nat {
    match stage
    case Greet => 220
    case Helo | Ehlo | Mail | Rcpt | Eom => 250
    case Auth | User => 334
    case Passwd => 235
    case Data => 354
    case Quit => 221
  }

  /** smtp_code: 0 when the reply is the one the stage wants, 1 otherwise. */
  method SmtpCode(stage: Stage, buf: seq<byte>) returns (r: nat)
    ensures r == if ReplyCode(buf) == Wanted(stage) then 0 else 1
  {
    var i: int := |buf| - 2;
    while i > 0 && buf[i] != LF
      invariant -2 <= i <= |buf| - 2
      invariant i >= 0 ==> SearchBack(buf, i) == SearchBack(buf, |buf| - 2)
      invariant i < 0 ==> |buf| < 2
      decreases i
    {
      i := i - 1;
    }
    var code := if i <= 0 then Atoi(FirstThree(buf)) else Atoi(FirstThree(buf[i + 1..]));
    assert buf[0..] == buf;
    match stage {
      case Greet => r := if code != 220 then 1 else 0;
      case Helo | Ehlo | Mail | Rcpt | Eom => r := if code != 250 then 1 else 0;
      case Auth | User => r := if code != 334 then 1 else 0;
      case Passwd => r := if code != 235 then 1 else 0;
      case Data => r := if code != 354 then 1 else 0;
      case Quit => r := if code != 221 then 1 else 0;
    }
  }

  /** The decimal digits of a three-digit code. */
  function CodeText(code: nat): seq<byte>
    requires 100 <= code <= 999
  {
    [(48 + code / 100) as byte, (48 + code / 10 % 10) as byte, (48 + code % 10) as byte]
  }

  /** A character of a code against the digit it should be. */
  lemma {:induction false} CharacterIs(c: byte, x: nat)
    requires x < 256
    ensures c == x as byte <==> c as int == x
  {
    assert (x as byte) as int == x;
    assert (c as int) as byte == c;
  }

  lemma {:induction false} CodeTextIs(s: seq<byte>, code: nat)
    requires |s| == 3 && 100 <= code <= 999
    ensures s == CodeText(code) <==>
      s[0] as int == 48 + code / 100 && s[1] as int == 48 + code / 10 % 10 && s[2] as int == 48 + code % 10
  {
    CharacterIs(s[0], 48 + code / 100);
    CharacterIs(s[1], 48 + code / 10 % 10);
    CharacterIs(s[2], 48 + code % 10);
    assert s == [s[0], s[1], s[2]];
  }

  /** Three characters are worth a three-digit code exactly when they are its digits. */
  lemma {:induction false} AtoiExact(s: seq<byte>, code: nat)
    requires |s| <= 3 && 100 <= code <= 999
    ensures Atoi(s) == code <==> s == CodeText(code)
  {
    hide Atoi, CodeText, IsDigit;
    CodeTextLength(code);
    AtoiShort(s);
    if |s| == 3 {
      CodeTextIs(s, code);
      DigitsAre(s[0], s[1], s[2], code);
      if IsDigit(s[0]) && IsDigit(s[1]) && IsDigit(s[2]) { AtoiThree(s); }
    }
  }

  lemma {:induction false} DecimalDigits(code: nat)
    requires 100 <= code <= 999
    ensures code == 100 * (code / 100) + 10 * (code / 10 % 10) + code % 10
    ensures 1 <= code / 100 <= 9
  {
    assert code / 10 / 10 == code / 100;
  }

  lemma {:induction false} DigitsUnique(x: int, y: int, z: int, x': int, y': int, z': int)
    requires 0 <= x <= 9 && 0 <= y <= 9 && 0 <= z <= 9 && 0 <= x' <= 9 && 0 <= y' <= 9 && 0 <= z' <= 9
    ensures 100 * x + 10 * y + z == 100 * x' + 10 * y' + z' <==> x == x' && y == y' && z == z'
  {
  }

  /** The decimal digits of a three-digit number. */
  lemma {:induction false} DigitsAre(a: byte, b: byte, c: byte, code: nat)
    requires 100 <= code <= 999
    ensures IsDigit(a) && IsDigit(b) && IsDigit(c) ==>
      (100 * (a as int - 48) + 10 * (b as int - 48) + (c as int - 48) == code <==>
       a as int == 48 + code / 100 && b as int == 48 + code / 10 % 10 && c as int == 48 + code % 10)
    ensures a as int == 48 + code / 100 && b as int == 48 + code / 10 % 10 && c as int == 48 + code % 10 ==>
      IsDigit(a) && IsDigit(b) && IsDigit(c)
  {
    DecimalDigits(code);
    if IsDigit(a) && IsDigit(b) && IsDigit(c) {
      DigitsUnique(a as int - 48, b as int - 48, c as int - 48, code / 100, code / 10 % 10, code % 10);
    }
  }

  lemma {:induction false} CodeTextLength(code: nat)
    requires 100 <= code <= 999
    ensures |CodeText(code)| == 3
  {
  }

  /** A leading space, a sign or a missing digit leaves less than 100. */
  lemma {:induction false} AtoiShort(s: seq<byte>)
    requires |s| <= 3
    ensures Atoi(s) < 100 || (|s| == 3 && IsDigit(s[0]) && IsDigit(s[1]) && IsDigit(s[2]))
  {
    if s == [] {
    } else if IsSpace(s[0]) {
      AtoiSmall(s[1..]);
    } else if s[0] == 45 || s[0] == 43 {
      DigitsSmall(s[1..]);
    } else {
      assert s == [s[0]] + s[1..];
      DigitsOf(s);
    }
  }

  lemma {:induction false} DigitsOf(s: seq<byte>)
    requires |s| <= 3
    ensures Digits(s, 0) < 100 || (|s| == 3 && IsDigit(s[0]) && IsDigit(s[1]) && IsDigit(s[2]))
    ensures 0 <= Digits(s, 0)
    ensures |s| == 3 && IsDigit(s[0]) && IsDigit(s[1]) && IsDigit(s[2]) ==>
      Digits(s, 0) == 100 * (s[0] as int - 48) + 10 * (s[1] as int - 48) + (s[2] as int - 48)
  {
    if s != [] && IsDigit(s[0]) {
      var d := s[0] as int - 48;
      assert Digits(s, 0) == Digits(s[1..], d);
      if |s| >= 2 && IsDigit(s[1]) {
        assert s[1..][0] == s[1] && s[1..][1..] == s[2..];
        assert Digits(s[1..], d) == Digits(s[2..], 10 * d + (s[1] as int - 48));
        if |s| == 3 && IsDigit(s[2]) {
          var v := 10 * d + (s[1] as int - 48);
          assert s[2..][0] == s[2] && s[2..][1..] == [];
          assert Digits(s[2..], v) == Digits(s[2..][1..], 10 * v + (s[2] as int - 48));
        }
      }
    }
  }

  lemma {:induction false} DigitsSmall(s: seq<byte>)
    requires |s| <= 2
    ensures 0 <= Digits(s, 0) < 100
  {
    DigitsOf(s);
  }

  lemma {:induction false} AtoiSmall(s: seq<byte>)
    requires |s| <= 2
    ensures Atoi(s) < 100
    decreases |s|
  {
    if s != [] && IsSpace(s[0]) {
      AtoiSmall(s[1..]);
    } else if s != [] && (s[0] == 45 || s[0] == 43) {
      DigitsSmall(s[1..]);
    } else {
      DigitsSmall(s);
    }
  }

  lemma {:induction false} AtoiThree(s: seq<byte>)
    requires |s| == 3 && IsDigit(s[0]) && IsDigit(s[1]) && IsDigit(s[2])
    ensures Atoi(s) == 100 * (s[0] as int - 48) + 10 * (s[1] as int - 48) + (s[2] as int - 48)
  {
    DigitsOf(s);
  }

  /** The search stops at the end of `head`. */
  lemma {:induction false} SearchStops(head: seq<byte>, line: seq<byte>, i: nat)
    requires forall k :: 0 <= k < |line| ==> line[k] != LF
    requires head == [] || (|head| >= 2 && head[|head| - 1] == LF)
    requires |head| <= i + 1 <= |head| + |line|
    ensures SearchBack(head + line + [LF], i) == if head == [] then 0 else |head| - 1
    decreases i
  {
    var buf := head + line + [LF];
    if i >= |head| {
      assert buf[i] == line[i - |head|];
      if i > 0 { SearchStops(head, line, i - 1); }
    } else {
      assert buf[i] == head[i];
    }
  }

  /** Behind a single LF the search ends at the start of the reply, and atoi skips the LF and reads two characters. */
  lemma {:induction false} LoneLf(line: seq<byte>)
    requires forall k :: 0 <= k < |line| ==> line[k] != LF
    ensures ReplyCode([LF] + line + [LF]) < 100
  {
    hide Atoi;
    var buf := [LF] + line + [LF];
    var i := SearchBack(buf, |buf| - 2);
    assert forall k :: 1 <= k <= |line| ==> buf[k] == line[k - 1];
    assert CodeStart(buf) == 0 && buf[0..] == buf;
    AtoiShort(FirstThree(buf));
  }

  /** Where the code of the last line begins. */
  lemma {:induction false} LastLineFound(head: seq<byte>, line: seq<byte>)
    requires forall k :: 0 <= k < |line| ==> line[k] != LF
    requires head == [] || (|head| >= 2 && head[|head| - 1] == LF)
    ensures CodeStart(head + line + [LF]) == |head| && (head + line + [LF])[|head|..] == line + [LF]
  {
    var buf := head + line + [LF];
    if |buf| >= 2 { SearchStops(head, line, |buf| - 2); }
  }

  /** The code of a line with its end. */
  lemma {:induction false} LineCode(line: seq<byte>, code: nat)
    requires (forall k :: 0 <= k < |line| ==> line[k] != LF) && 100 <= code <= 999
    ensures Atoi(FirstThree(line + [LF])) == code <==> |line| >= 3 && line[..3] == CodeText(code)
  {
    hide Atoi, CodeText;
    var first := if |line| < 2 then line + [LF] else (line + [LF])[..3];
    assert FirstThree(line + [LF]) == TextOf(first);
    AtoiExact(TextOf(first), code);
    TextOfIs(first);
    CodeTextDigits(code);
    if |line| >= 3 {
      assert first == line[..3];
    } else {
      assert first[|line|] == LF;
    }
  }

  /** Of a reply of one or more whole lines, only the last line counts, and it is accepted exactly when it
      begins with the digits of the code; only behind a single LF nothing is accepted. */
  lemma {:induction false} LastLineDecides(head: seq<byte>, line: seq<byte>, code: nat)
    requires forall k :: 0 <= k < |line| ==> line[k] != LF
    requires head == [] || head[|head| - 1] == LF
    requires 100 <= code <= 999
    ensures ReplyCode(head + line + [LF]) == code <==> head != [LF] && |line| >= 3 && line[..3] == CodeText(code)
  {
    hide Atoi, CodeText, FirstThree, CodeStart;
    if head == [LF] {
      LoneLf(line);
    } else {
      LastLineFound(head, line);
      LineCode(line, code);
    }
  }

  lemma {:induction false} CodeTextDigits(code: nat)
    requires 100 <= code <= 999
    ensures |CodeText(code)| == 3 && forall i :: 0 <= i < 3 ==> IsDigit(CodeText(code)[i])
  {
    var t := CodeText(code);
    CodeTextIs(t, code);
  }

  // ---------- Recipients ----------

  /** memchr(s, ',', strlen(s)) */
  function FindComma(s: seq<byte>): (r: Option<nat>)
    ensures r.Some? ==> r.value < |s| && s[r.value] == COMMA
    ensures r.Some? ==> COMMA !in s[..r.value]
    ensures r.None? ==> COMMA !in s
  {
    if s == [] then None
    else if s[0] == COMMA then Some(0)
    else
      match FindComma(s[1..])
      case None => None
      case Some(i) =>
        assert s[..i + 1] == [s[0]] + s[1..][..i];
        Some(i + 1)
  }

  /** The comma-separated recipients. */
  function Recipients(to: seq<byte>): (rs: seq<seq<byte>>)
    ensures rs != []
    decreases |to|
  {
    match FindComma(to)
    case None => [to]
    case Some(i) => [to[..i]] + Recipients(to[i + 1..])
  }

  function Joined(rs: seq<seq<byte>>): seq<byte>
    requires rs != []
  {
    if |rs| == 1 then rs[0] else rs[0] + [COMMA] + Joined(rs[1..])
  }

  /** The recipients are the pieces between the commas. */
  lemma {:induction false} RecipientsJoin(to: seq<byte>)
    ensures Joined(Recipients(to)) == to
    ensures forall i :: 0 <= i < |Recipients(to)| ==> COMMA !in Recipients(to)[i]
    decreases |to|
  {
    match FindComma(to) {
      case None =>
      case Some(i) =>
        RecipientsJoin(to[i + 1..]);
        assert Recipients(to)[1..] == Recipients(to[i + 1..]);
        assert to == to[..i] + [COMMA] + to[i + 1..];
    }
  }

  // ---------- The conversation that a session has to follow ----------

  /** Wait for a reply with this code, then send this; None at the end. */
  datatype Step = Step(code: nat, send: Option<Command>)

  function RcptSteps(rs: seq<seq<byte>>): (r: seq<Step>)
    ensures |r| == |rs|
  {
    if rs == [] then [] else [Step(250, Some(SendRcptTo(rs[0])))] + RcptSteps(rs[1..])
  }

  const CLOSING := [Step(250, Some(SendData)), Step(354, Some(SendBody)), Step(250, Some(SendQuit)), Step(221, None)]

  /** RFC 5321 section 3.3 as this client uses it: log in if asked to, then MAIL, one RCPT per recipient, DATA,
      the body, QUIT. */
  function Script(sasl: bool, to: seq<byte>): seq<Step> {
    (if sasl then
       [Step(220, Some(SendEhlo)), Step(250, Some(SendAuthLogin)), Step(334, Some(SendUser)),
        Step(334, Some(SendPassword)), Step(235, Some(SendMailFrom))]
     else
       [Step(220, Some(SendHelo)), Step(250, Some(SendMailFrom))])
    + RcptSteps(Recipients(to)) + CLOSING
  }

  /** How many steps of the script the replies satisfy, from the first one on without a gap. */
  function Satisfied(replies: seq<seq<byte>>, script: seq<Step>): (n: nat)
    ensures n <= |script| && n <= |replies|
  {
    if replies == [] || script == [] || ReplyCode(replies[0]) != script[0].code then 0
    else 1 + Satisfied(replies[1..], script[1..])
  }

  /** The commands of the first `n` steps. */
  function Commands(script: seq<Step>, n: nat): seq<Command>
    requires n <= |script|
  {
    if n == 0 then []
    else Commands(script, n - 1) + match script[n - 1].send case None => [] case Some(c) => [c]
  }

  // ---------- The stage loop ----------

  /** How far a stage is from the end. */
  function Rank(stage: Stage): nat {
    match stage
    case Quit => 0 case Eom => 1 case Data => 2 case Rcpt => 3 case Mail => 4 case Helo | Passwd => 5
    case User => 6 case Auth => 7 case Ehlo => 8 case Greet => 9
  }

  /** What remains of the script in each stage; `tok` is the part of the recipient list not yet used. */
  function Remaining(stage: Stage, tok: seq<byte>): (r: seq<Step>)
    ensures stage != Greet ==> r != []
    decreases Rank(stage)
  {
    match stage
    case Greet => []
    case Helo => [Step(250, Some(SendMailFrom))] + Remaining(Mail, tok)
    case Ehlo => [Step(250, Some(SendAuthLogin))] + Remaining(Auth, tok)
    case Auth => [Step(334, Some(SendUser))] + Remaining(User, tok)
    case User => [Step(334, Some(SendPassword))] + Remaining(Passwd, tok)
    case Passwd => [Step(235, Some(SendMailFrom))] + Remaining(Mail, tok)
    case Mail => RcptSteps(Recipients(tok)) + Remaining(Rcpt, tok)
    case Rcpt => [Step(250, Some(SendData))] + Remaining(Data, tok)
    case Data => [Step(354, Some(SendBody))] + Remaining(Eom, tok)
    case Eom => [Step(250, Some(SendQuit))] + Remaining(Quit, tok)
    case Quit => [Step(221, None)]
  }

  /** The greeting opens the whole script. */
  lemma {:induction false} ScriptOpens(sasl: bool, to: seq<byte>)
    ensures Script(sasl, to) ==
      if sasl then [Step(220, Some(SendEhlo))] + Remaining(Ehlo, to)
      else [Step(220, Some(SendHelo))] + Remaining(Helo, to)
  {
    hide Recipients, RcptSteps;
    var mail := RcptSteps(Recipients(to)) + CLOSING;
    ClosingIs(to);
    assert Remaining(Mail, to) == mail;
    if sasl {
      assert Remaining(Passwd, to) == [Step(235, Some(SendMailFrom))] + mail;
      assert Remaining(User, to) == [Step(334, Some(SendPassword)), Step(235, Some(SendMailFrom))] + mail;
      assert Remaining(Auth, to) ==
        [Step(334, Some(SendUser)), Step(334, Some(SendPassword)), Step(235, Some(SendMailFrom))] + mail;
    }
  }

  lemma {:induction false} ClosingIs(to: seq<byte>)
    ensures Remaining(Rcpt, to) == CLOSING
  {
    assert Remaining(Eom, to) == [Step(250, Some(SendQuit)), Step(221, None)];
    assert Remaining(Data, to) == [Step(354, Some(SendBody)), Step(250, Some(SendQuit)), Step(221, None)];
  }

  /** Naming one recipient takes one step off what remains. */
  lemma {:induction false} MailStep(tok: seq<byte>)
    ensures
      var comma, mail := FindComma(tok), Remaining(Mail, tok);
      if comma.Some? then
        mail == [Step(250, Some(SendRcptTo(tok[..comma.value])))] + Remaining(Mail, tok[comma.value + 1..])
      else mail == [Step(250, Some(SendRcptTo(tok)))] + Remaining(Rcpt, tok)
  {
    hide FindComma, RcptSteps;
    var comma := FindComma(tok);
    ClosingIs(tok);
    if comma.Some? {
      var r, tok' := tok[..comma.value], tok[comma.value + 1..];
      ClosingIs(tok');
      RcptStepsCons(r, Recipients(tok'));
      Regroup(Step(250, Some(SendRcptTo(r))), RcptSteps(Recipients(tok')), CLOSING);
    } else {
      RcptStepsNone();
      RcptStepsCons(tok, []);
      assert [tok] + [] == [tok];
    }
  }

  lemma {:induction false} RcptStepsNone()
    ensures RcptSteps([]) == []
  {
  }

  lemma {:induction false} Regroup(s: Step, x: seq<Step>, y: seq<Step>)
    ensures [s] + x + y == [s] + (x + y)
  {
  }

  lemma {:induction false} RcptStepsCons(r: seq<byte>, rs: seq<seq<byte>>)
    ensures RcptSteps([r] + rs) == [Step(250, Some(SendRcptTo(r)))] + RcptSteps(rs)
  {
    assert ([r] + rs)[1..] == rs;
  }

  /** Outside GREET and MAIL a stage takes the first step off what remains. */
  lemma {:induction false} StageStep(stage: Stage, tok: seq<byte>)
    ensures stage in {Helo, Passwd} ==>
      Remaining(stage, tok) == [Step(Wanted(stage), Some(SendMailFrom))] + Remaining(Mail, tok)
    ensures stage == Ehlo ==> Remaining(stage, tok) == [Step(250, Some(SendAuthLogin))] + Remaining(Auth, tok)
    ensures stage == Auth ==> Remaining(stage, tok) == [Step(334, Some(SendUser))] + Remaining(User, tok)
    ensures stage == User ==> Remaining(stage, tok) == [Step(334, Some(SendPassword))] + Remaining(Passwd, tok)
    ensures stage == Rcpt ==> Remaining(stage, tok) == [Step(250, Some(SendData))] + Remaining(Data, tok)
    ensures stage == Data ==> Remaining(stage, tok) == [Step(354, Some(SendBody))] + Remaining(Eom, tok)
    ensures stage == Eom ==> Remaining(stage, tok) == [Step(250, Some(SendQuit))] + Remaining(Quit, tok)
    ensures stage == Quit ==> Remaining(stage, tok) == [Step(221, None)]
  {
    hide Recipients, RcptSteps;
  }

  /** The body of the switch: the next command and stage. */
  method Respond(sasl: bool, stage: Stage, tok: seq<byte>, ghost script: seq<Step>)
    returns (send: Option<Command>, stage': Stage, tok': seq<byte>)
    requires script == if stage == Greet then Script(sasl, tok) else Remaining(stage, tok)
    ensures script != [] && script[0] == Step(Wanted(stage), send)
    ensures (send.None? <==> stage == Quit) && (send == Some(SendBody) <==> stage == Data)
    ensures stage != Quit ==> stage' != Greet && script[1..] == Remaining(stage', tok')
  {
    hide Script, Remaining, FindComma;
    tok' := tok;
    StageStep(stage, tok);
    if stage == Mail { MailStep(tok); }
    if stage == Greet { ScriptOpens(sasl, tok); }
    match stage {
      case Greet =>
        if sasl {
          send, stage' := Some(SendEhlo), Ehlo;
        } else {
          send, stage' := Some(SendHelo), Helo;
        }
      case Passwd | Helo => send, stage' := Some(SendMailFrom), Mail;
      case Ehlo => send, stage' := Some(SendAuthLogin), Auth;
      case Auth => send, stage' := Some(SendUser), User;
      case User => send, stage' := Some(SendPassword), Passwd;
      case Mail =>
        var comma := FindComma(tok);
        if comma.Some? {
          send, stage' := Some(SendRcptTo(tok[..comma.value])), Mail;
          tok' := tok[comma.value + 1..];
        } else {
          send, stage' := Some(SendRcptTo(tok)), Rcpt;
        }
      case Rcpt => send, stage' := Some(SendData), Data;
      case Data => send, stage' := Some(SendBody), Eom;
      case Eom => send, stage' := Some(SendQuit), Quit;
      case Quit => send, stage' := None, Quit;
    }
    if stage != Quit { assert script == [Step(Wanted(stage), send)] + Remaining(stage', tok'); }
  }

  /** How much of the script each stage leaves: the length counts the stages and recipients still to come. */
  lemma {:induction false} StageLength(stage: Stage, tok: seq<byte>)
    ensures stage == Quit ==> |Remaining(stage, tok)| == 1
    ensures stage == Eom ==> |Remaining(stage, tok)| == 2
    ensures stage == Data ==> |Remaining(stage, tok)| == 3
    ensures stage !in {Greet, Quit, Eom, Data} ==> |Remaining(stage, tok)| >= 4
    decreases Rank(stage)
  {
    hide Recipients, RcptSteps;
    match stage {
      case Ehlo => StageLength(Auth, tok);
      case Auth => StageLength(User, tok);
      case User => StageLength(Passwd, tok);
      case Passwd | Helo => StageLength(Mail, tok);
      case Mail => StageLength(Rcpt, tok);
      case Rcpt => StageLength(Data, tok);
      case Data => StageLength(Eom, tok);
      case _ =>
    }
  }

  lemma {:induction false} ScriptLength(sasl: bool, to: seq<byte>)
    ensures |Script(sasl, to)| >= 7
  {
  }

  lemma {:induction false} SatisfiedStep(replies: seq<seq<byte>>, script: seq<Step>, i: nat)
    requires i < |script| && i < |replies|
    requires Satisfied(replies, script) == i + Satisfied(replies[i..], script[i..])
    ensures ReplyCode(replies[i]) == script[i].code ==>
      Satisfied(replies, script) == i + 1 + Satisfied(replies[i + 1..], script[i + 1..])
    ensures ReplyCode(replies[i]) != script[i].code ==> Satisfied(replies, script) == i
  {
    assert replies[i..][1..] == replies[i + 1..] && script[i..][1..] == script[i + 1..];
  }

  lemma {:induction false} NoCommands(script: seq<Step>)
    ensures Commands(script, 0) == []
  {
  }

  lemma {:induction false} NextCommand(script: seq<Step>, i: nat)
    requires i < |script|
    ensures script[i].send.Some? ==> Commands(script, i + 1) == Commands(script, i) + [script[i].send.value]
    ensures script[i].send.None? ==> Commands(script, i + 1) == Commands(script, i)
  {
  }

  // ---------- What every session keeps ----------

  lemma {:induction false} SatisfiedCodes(replies: seq<seq<byte>>, script: seq<Step>, k: nat)
    requires k < Satisfied(replies, script)
    ensures ReplyCode(replies[k]) == script[k].code
  {
    hide ReplyCode;
    if k > 0 {
      SatisfiedCodes(replies[1..], script[1..], k - 1);
    }
  }

  lemma {:induction false} RcptStepsAt(rs: seq<seq<byte>>, j: nat)
    requires j < |rs|
    ensures RcptSteps(rs)[j] == Step(250, Some(SendRcptTo(rs[j])))
  {
    if j > 0 { RcptStepsAt(rs[1..], j - 1); }
  }

  /** The number of commands before the first RCPT. */
  function Opening(sasl: bool): nat {
    if sasl then 5 else 2
  }

  /** The steps of the script by number. */
  lemma {:induction false} ScriptAt(sasl: bool, to: seq<byte>, j: nat)
    ensures
      var s, rs, b := Script(sasl, to), Recipients(to), Opening(sasl);
      && |s| == b + |rs| + 4
      && (j < |rs| ==> s[b + j] == Step(250, Some(SendRcptTo(rs[j]))))
      && (j < 4 ==> s[b + |rs| + j] == CLOSING[j])
      && (j < b ==> s[j].send.Some? && s[j].send != Some(SendBody))
  {
    hide Recipients, RcptSteps;
    if j < |Recipients(to)| { RcptStepsAt(Recipients(to), j); }
  }

  /** Every step but the last sends a command. */
  lemma {:induction false} StepSends(sasl: bool, to: seq<byte>, j: nat)
    requires j + 1 < |Script(sasl, to)|
    ensures Script(sasl, to)[j].send.Some?
  {
    hide Script, Recipients;
    var b, rs := Opening(sasl), Recipients(to);
    ScriptAt(sasl, to, j);
    if j >= b { ScriptAt(sasl, to, j - b); }
    if j >= b + |rs| { ScriptAt(sasl, to, j - b - |rs|); }
  }

  lemma {:induction false} CommandsAt(sasl: bool, to: seq<byte>, n: nat, k: nat)
    requires n < |Script(sasl, to)| && k < n
    ensures |Commands(Script(sasl, to), n)| == n
    ensures Script(sasl, to)[k].send == Some(Commands(Script(sasl, to), n)[k])
  {
    hide Script;
    StepSends(sasl, to, n - 1);
    if n > 1 { CommandsAt(sasl, to, n - 1, if k < n - 1 then k else 0); }
  }

  /** The last step sends nothing. */
  lemma {:induction false} AllCommands(sasl: bool, to: seq<byte>)
    ensures
      var script := Script(sasl, to);
      |script| > 0 && Commands(script, |script|) == Commands(script, |script| - 1)
  {
    hide Script, Recipients;
    ScriptAt(sasl, to, 3);
  }

  lemma {:induction false} BodyPlace(sasl: bool, to: seq<byte>, k: nat)
    requires k < |Script(sasl, to)| && Script(sasl, to)[k].send == Some(SendBody)
    ensures k == Opening(sasl) + |Recipients(to)| + 1 && Script(sasl, to)[k].code == 354
  {
    hide Script, Recipients;
    var rs, b := Recipients(to), Opening(sasl);
    ScriptAt(sasl, to, k);
    if k >= b { ScriptAt(sasl, to, k - b); }
    if k >= b + |rs| { ScriptAt(sasl, to, k - b - |rs|); }
  }

  /** Command `k` names the recipient and reply `k` + 1, the one to it, is 250. */
  ghost predicate RcptDone(sent: seq<Command>, replies: seq<seq<byte>>, k: nat, recipient: seq<byte>) {
    k < |sent| && k + 1 < |replies| && sent[k] == SendRcptTo(recipient) && ReplyCode(replies[k + 1]) == 250
  }

  lemma {:induction false} RcptAccepted(sasl: bool, to: seq<byte>, replies: seq<seq<byte>>, n: nat, j: nat)
    requires n <= Satisfied(replies, Script(sasl, to))
    requires j < |Recipients(to)| && Opening(sasl) + j + 1 < n
    ensures RcptDone(Commands(Script(sasl, to), n), replies, Opening(sasl) + j, Recipients(to)[j])
  {
    hide Script, ReplyCode, Satisfied, Commands, Recipients;
    var k := Opening(sasl) + j;
    ScriptAt(sasl, to, j);
    ScriptAt(sasl, to, j + 1);
    ScriptAt(sasl, to, 0);
    if n == |Script(sasl, to)| {
      AllCommands(sasl, to);
      CommandsAt(sasl, to, n - 1, k);
    } else {
      CommandsAt(sasl, to, n, k);
    }
    SatisfiedCodes(replies, Script(sasl, to), k + 1);
  }

  /** The body is sent only after every recipient has been named, in order, each RCPT has been answered 250, and
      DATA has been answered 354. */
  lemma {:induction false} BodyOnlyWhenAccepted(sasl: bool, to: seq<byte>, replies: seq<seq<byte>>, n: nat, k: nat)
    requires n <= Satisfied(replies, Script(sasl, to))
    requires k < n && Script(sasl, to)[k].send == Some(SendBody)
    ensures k == Opening(sasl) + |Recipients(to)| + 1 && ReplyCode(replies[k]) == 354
    ensures forall j :: 0 <= j < |Recipients(to)| ==>
      RcptDone(Commands(Script(sasl, to), n), replies, Opening(sasl) + j, Recipients(to)[j])
  {
    hide Script, ReplyCode, Satisfied, Commands, Recipients, RcptDone;
    BodyPlace(sasl, to, k);
    SatisfiedCodes(replies, Script(sasl, to), k);
    forall j | 0 <= j < |Recipients(to)|
      ensures RcptDone(Commands(Script(sasl, to), n), replies, Opening(sasl) + j, Recipients(to)[j])
    {
      RcptAccepted(sasl, to, replies, n, j);
    }
  }
}
