/** From the first byte to the mailboxes: for every sender, list of recipients and body that the server supports, the
    event loop takes the mail, registers it and stores it. */
module MailTransfer {
  import opened Buffers
  import opened CStrings
  import opened LineSyntax
  import opened RequestParsers
  import opened Dialogue
  import opened Connections
  import opened Spools
  import opened Wrappers
  import BodySyntax
  import SmtpSessions

  /** Between two requests of the mail dialogue: a reply waits, and nothing is buffered from the client. */
  ghost predicate Waiting(env: Env, es: seq<Event>) {
    var s := Connections.Run(env, es);
    && WellAnswered(env) && Legal(env, es) && AllHarmless(env, es) && Inv(s) && s.status.Open?
    && (s.current == None || s.current == Some(ReqWrite)) && s.input == ""
  }

  lemma Extend(env: Env, es: seq<Event>, e: Event)
    requires Legal(env, es) && AllHarmless(env, es) && Harmless(env, Connections.Run(env, es), e)
    requires Inv(Connections.Run(env, es)) && Enabled(Connections.Run(env, es), e)
    ensures Ready(Connections.Run(env, es), e)
    ensures Legal(env, es + [e]) && AllHarmless(env, es + [e])
    ensures Connections.Run(env, es + [e]) == Connections.Step(env, Connections.Run(env, es), e)
  {
    hide Inv, Connections.Step, Harmless;
    var s := Connections.Run(env, es);
    InvIsPrepared(s);
    var es' := es + [e];
    assert es'[..|es'| - 1] == es;
    forall i | 0 <= i < |es'| ensures Harmless(env, Connections.Run(env, es'[..i]), es'[i]) {
      if i < |es| {
        assert es'[..i] == es[..i] && Harmless(env, Connections.Run(env, es[..i]), es[i]);
      }
    }
  }

  /** The connection's fields that one exchange of the mail dialogue does not touch. */
  predicate SameDelivery(s: Conn, t: Conn) {
    t.registered == s.registered && t.spool == s.spool && t.files == s.files
  }

  /** The state after a reply that was sent completely. */
  function Replied(s: Conn, file: int): Conn {
    Jump(s.(current := Some(ReqWrite), sent := s.sent + s.output.pending, output := Queue("", 0), client := Reading),
         AfterReply(s.session.state), file)
  }

  lemma SendReply(env: Env, es: seq<Event>, file: int) returns (es': seq<Event>)
    requires Waiting(env, es) && file !in Connections.Run(env, es).files
    ensures es <= es'
    ensures var t := Connections.Run(env, es');
            && Legal(env, es') && AllHarmless(env, es') && Inv(t) && t.status.Open?
            && t == Replied(Connections.Run(env, es), file)
  {
    hide Started, ReadHandler, Good;
    var s := Connections.Run(env, es);
    var e := ClientWritable(|s.output.pending|, 1, file);
    InvIsPrepared(s);
    Extend(env, es, e);
    es' := es + [e];
    assert s.output.pending[..|s.output.pending|] == s.output.pending;
    ReplySentJumps(Sent(s, |s.output.pending|).(client := Reading), file);
  }

  /** A line that the fresh parser completes on, read in one piece; what follows it stays unread. */
  lemma ReadCompleteLine(env: Env, s: Conn, line: string, verb: string, arg: string, rest: string)
    requires s.current == Some(ReqRead) && s.parser == LineParser(INIT) && HasHandler(s.session.state)
    requires IsLine(Command, line, verb, arg) && NUL !in verb && NUL !in arg && s.input == line + rest
    ensures var t := s.(parser := LineParser(Parse(Complete, verb, arg)), input := rest, log := s.log + Bytes(line),
                        client := Writing);
            ReadLine(env, s) == Settle(t, Request(Classify(verb, arg), env(|s.history|)))
  {
    hide Settle, Classify, IsLine;
    ConsumesWholeLine(Command, line, rest, verb, arg);
    assert (line + rest)[..|line|] == line && (line + rest)[|line|..] == rest;
    CStrOfClean(verb);
    CStrOfClean(arg);
  }

  /** What a client sends for a command: with an argument, or bare. */
  predicate Sends(line: string, verb: string, arg: string) {
    && NUL !in verb && NUL !in arg && |line| <= BUFFER_SIZE
    && (line == verb + " " + arg + "\r\n" || (line == verb + "\r\n" && arg == ""))
    && FeedAll(Command, INIT, line) == Parse(Complete, verb, arg)
  }

  lemma SentLine(line: string, verb: string, arg: string)
    requires Sends(line, verb, arg)
    ensures IsLine(Command, line, verb, arg) && line != ""
  {
    CompletesExactlyOnLines(Command, line, verb, arg);
  }

  /** One exchange: the waiting reply is sent, and a command line arrives and is processed. */
  lemma Exchange(env: Env, es: seq<Event>, line: string, verb: string, arg: string, file: int) returns (es': seq<Event>)
    requires Waiting(env, es) && file !in Connections.Run(env, es).files
    requires AfterReply(Connections.Run(env, es).session.state) == ReqRead
    requires Sends(line, verb, arg) && !Classify(verb, arg).Quit?
    ensures es <= es' && Waiting(env, es') && SameDelivery(Connections.Run(env, es), Connections.Run(env, es'))
    ensures var s := Connections.Run(env, es);
            HasHandler(s.session.state)
            && Connections.Run(env, es').session == Respond(s.session, Classify(verb, arg), env(|s.history|)).session
  {
    hide Classify, Respond, Good, Legal, AllHarmless, IsLine, FeedAll;
    var s := Connections.Run(env, es);
    InvIsPrepared(s);
    SentLine(line, verb, arg);
    var es1 := SendReply(env, es, file);
    var t := Connections.Run(env, es1);
    var e := ClientReadable(line);
    Extend(env, es1, e);
    es' := es1 + [e];
    var u := t.(input := line, received := t.received + line);
    assert line == line + "";
    ReadCompleteLine(env, u, line, verb, arg, "");
    assert Connections.Run(env, es') == ReadLine(env, u);
    ReadHandlerKeepsInv(env, t, line);
    OnlyQuitEnds(s.session, Classify(verb, arg), env(|s.history|));
  }

  // ----- The four commands and the body

  lemma VerbsOfMail(arg: string)
    ensures Classify("HELO", arg) == Hello(arg) && Classify("MAIL", arg) == Mail(arg)
    ensures Classify("RCPT", arg) == Rcpt(arg) && Classify("DATA", arg) == Command.Data
  {
    SmtpSessions.VerbsAreDistinct("HELO", arg);
    SmtpSessions.VerbsAreDistinct("MAIL", arg);
    SmtpSessions.VerbsAreDistinct("RCPT", arg);
    SmtpSessions.VerbsAreDistinct("DATA", arg);
  }

  lemma MailTurns(s: Session, domain: string, from: string, to: string, a: Answers)
    requires domain != "" && ParseAddress("FROM:", from).Local? && ParseAddress("TO:", to).Local?
    ensures s.state == EHLO ==> Respond(s, Hello(domain), a).session == s.(state := FROM)
    ensures s.state == FROM ==>
              Respond(s, Mail(from), a).session == s.(state := TO, mailFrom := ParseAddress("FROM:", from).mail)
    ensures s.state == TO || s.state == DATA ==>
              Respond(s, Rcpt(to), a).session == s.(state := DATA, rcptTo := s.rcptTo + [ParseAddress("TO:", to).mail])
    ensures s.state == DATA ==> Respond(s, Command.Data, a).session == s.(state := BODY)
  {
    hide ParseAddress;
  }

  /** An argument that reaches the handlers unchanged. */
  predicate CleanArg(arg: string) {
    IsArg(arg) && NUL !in arg
  }

  predicate CleanRecipient(arg: string) {
    CleanArg(arg) && ParseAddress("TO:", arg).Local?
  }

  function MailAddresses(args: seq<string>): seq<string>
    requires forall a :: a in args ==> CleanRecipient(a)
  {
    if args == [] then []
    else
      assert CleanRecipient(args[0]);
      [ParseAddress("TO:", args[0]).mail] + MailAddresses(args[1..])
  }

  lemma CleanIsLocal(r: string)
    ensures CleanRecipient(r) ==> ParseAddress("TO:", r).Local?
  {
  }

  /** The lines of a mail: HELO, MAIL and RCPT have an argument, and DATA is sent bare. */
  function LineOf(verb: string, arg: string): string {
    if arg == "" then verb + "\r\n" else verb + " " + arg + "\r\n"
  }

  lemma LinesOfMail(verb: string, arg: string)
    requires CleanArg(arg) && if arg == "" then verb == "DATA" else verb in {"HELO", "MAIL", "RCPT"}
    ensures Sends(LineOf(verb, arg), verb, arg)
  {
    hide FeedAll;
    if arg == "" {
      assert SameIgnoringCase("DATA"[..4], "DATA");
      BareVerbs("DATA", "");
    } else {
      LongestLine(verb, arg);
    }
  }

  lemma LocalArgIsNotEmpty(prefix: string, arg: string)
    requires ParseAddress(prefix, arg).Local?
    ensures arg != ""
  {
  }

  /** One recipient more. */
  lemma AddRecipient(env: Env, es: seq<Event>, r: string, file: int) returns (es': seq<Event>)
    requires Waiting(env, es) && file !in Connections.Run(env, es).files && CleanRecipient(r)
    requires var st := Connections.Run(env, es).session.state; st == DATA || st == TO
    ensures es <= es' && Waiting(env, es') && SameDelivery(Connections.Run(env, es), Connections.Run(env, es'))
    ensures var s := Connections.Run(env, es).session;
            Connections.Run(env, es').session == s.(state := DATA, rcptTo := s.rcptTo + [ParseAddress("TO:", r).mail])
  {
    hide Waiting, SameDelivery, Respond, ParseAddress, Connections.Run, Classify, Sends, LineOf;
    VerbsOfMail(r);
    LocalArgIsNotEmpty("TO:", r);
    LinesOfMail("RCPT", r);
    MailTurns(Connections.Run(env, es).session, "x", AnyLocal(), r, env(|Connections.Run(env, es).history|));
    es' := Exchange(env, es, LineOf("RCPT", r), "RCPT", r, file);
  }

  lemma {:induction false} AddRecipients(env: Env, es: seq<Event>, rcpts: seq<string>, file: int)
      returns (es': seq<Event>)
    requires Waiting(env, es) && file !in Connections.Run(env, es).files
    requires var st := Connections.Run(env, es).session.state; st == DATA || (st == TO && rcpts != [])
    requires forall r :: r in rcpts ==> CleanRecipient(r)
    ensures es <= es' && Waiting(env, es') && SameDelivery(Connections.Run(env, es), Connections.Run(env, es'))
    ensures var s := Connections.Run(env, es).session;
            Connections.Run(env, es').session == s.(state := DATA, rcptTo := s.rcptTo + MailAddresses(rcpts))
    decreases |rcpts|
  {
    hide Waiting, ParseAddress, Connections.Run, CleanRecipient;
    var s := Connections.Run(env, es).session;
    if rcpts == [] {
      es' := es;
      assert s.rcptTo + [] == s.rcptTo;
    } else {
      CleanIsLocal(rcpts[0]);
      var es1 := AddRecipient(env, es, rcpts[0], file);
      es' := AddRecipients(env, es1, rcpts[1..], file);
      assert s.rcptTo + ([ParseAddress("TO:", rcpts[0]).mail] + MailAddresses(rcpts[1..]))
          == s.rcptTo + [ParseAddress("TO:", rcpts[0]).mail] + MailAddresses(rcpts[1..]);
    }
  }

  /** Some accepted sender, to instantiate MailTurns. */
  function AnyLocal(): (from: string)
    ensures ParseAddress("FROM:", from).Local?
  {
    ParsesBracketed("FROM:", "");
    "FROM:" + "<" + "" + ">"
  }

  /** A body that the parser can frame and the buffer can hold at once. */
  ghost predicate Sendable(body: string) {
    |body| <= BUFFER_SIZE - 5 && NUL !in body && !BodySyntax.HasDotLine(body + "\r")
  }

  /** The fill that holds a whole framed body. */
  lemma ReadWholeBody(s: Conn, body: string)
    requires s.parser == BodyParser(BodySyntax.START) && Sendable(body) && s.input == BodySyntax.Frame(body)
    ensures var t := ReadBody(s);
            && t.parser.BodyParser? && t.parser.Phase() == Complete && BodySyntax.Text(t.parser.body) == body
            && t == s.(parser := t.parser, input := "", log := t.log, client := Idle,
                       files := s.files[s.outputFd := Writing], current := Some(ReqDataWrite))
  {
    var w := BodySyntax.Frame(body);
    assert w + "" == w;
    BodySyntax.FramingRoundTrip(body, "");
    assert w[..|w|] == w && w[|w|..] == "";
  }

  /** The reply to DATA is sent, and the body arrives. */
  lemma ReceiveBody(env: Env, es: seq<Event>, body: string, file: int) returns (es': seq<Event>)
    requires Waiting(env, es) && Sendable(body) && Connections.Run(env, es).session.state == BODY
    requires file !in Connections.Run(env, es).files
    ensures es <= es' && Legal(env, es') && AllHarmless(env, es') && Inv(Connections.Run(env, es'))
    ensures var s, t := Connections.Run(env, es), Connections.Run(env, es');
            && t.status.Open? && t.current == Some(ReqDataWrite) && t.input == "" && t.outputFd == file
            && t.parser.BodyParser? && t.parser.Phase() == Complete && BodySyntax.Text(t.parser.body) == body
            && t.registered == s.registered && t.session == s.session
            && t.files == s.files[file := Writing] && t.spool == Started(s.spool, s.session.mailFrom, s.session.rcptTo)
  {
    hide Good, Legal, AllHarmless, Started;
    var s := Connections.Run(env, es);
    var es1 := SendReply(env, es, file);
    var t := Connections.Run(env, es1);
    var w := BodySyntax.Frame(body);
    Extend(env, es1, ClientReadable(w));
    es' := es1 + [ClientReadable(w)];
    var u := t.(input := w, received := t.received + w);
    ReadWholeBody(u, body);
    assert Connections.Run(env, es') == ReadBody(u);
    FrameIsNoFault(body);
    ReadHandlerKeepsInv(env, t, w);
    assert s.files[file := Idle][file := Writing] == s.files[file := Writing];
  }

  /** The body arrives, goes to the spool file, and is registered and copied for every recipient. */
  lemma SendBody(env: Env, es: seq<Event>, body: string, file: int, next: int) returns (es': seq<Event>)
    requires Waiting(env, es) && Sendable(body) && Connections.Run(env, es).session.state == BODY
    requires file !in Connections.Run(env, es).files && next !in Connections.Run(env, es).files && next != file
    ensures es <= es' && Waiting(env, es')
    ensures var s, t := Connections.Run(env, es), Connections.Run(env, es');
            && t.registered == s.registered + DeliverTo(s.session.mailFrom, s.session.rcptTo)
            && t.spool == Mailed(s.spool, s.session.mailFrom, s.session.rcptTo, body)
            && t.session == Cleaned(s.session).(state := EHLO) && t.files == s.files
  {
    hide Legal, AllHarmless, Started, Written, Copied, Inv, Connections.Run, Sendable;
    var es2 := ReceiveBody(env, es, body, file);
    es' := StoreBody(env, es2, file, next);
    var s := Connections.Run(env, es);
    assert s.files[file := Writing] - {file} == s.files;
  }

  /** A body that can be sent does not open with LF "." CR. */
  lemma FrameIsNoFault(body: string)
    requires Sendable(body)
    ensures !("\n.\r" <= BodySyntax.Frame(body))
  {
    var w := BodySyntax.Frame(body);
    BodySyntax.FramingRoundTrip(body, "");
    assert w + "" == w;
    BodySyntax.ConsumesInitialDotLine(w);
  }

  lemma StoreBody(env: Env, es: seq<Event>, file: int, next: int) returns (es': seq<Event>)
    requires Legal(env, es) && AllHarmless(env, es) && WellAnswered(env) && Inv(Connections.Run(env, es))
    requires var s := Connections.Run(env, es);
             && s.status.Open? && s.current == Some(ReqDataWrite) && s.input == "" && s.outputFd == file
             && s.parser.BodyParser? && s.parser.Phase() == Complete && next !in s.files
    ensures es <= es' && Waiting(env, es')
    ensures var s, t := Connections.Run(env, es), Connections.Run(env, es');
            && t.registered == s.registered + DeliverTo(s.session.mailFrom, s.session.rcptTo)
            && t.spool == Copied(Written(s.spool, BodySyntax.Text(s.parser.body)), s.session.rcptTo)
            && t.session == Cleaned(s.session).(state := EHLO) && t.files == s.files - {file}
  {
    hide Good, Legal, AllHarmless, Respond, Written, Copied;
    var s := Connections.Run(env, es);
    var e := FileWritable(file, true, next);
    Extend(env, es, e);
    FileHandlerKeepsInv(env, s, e);
    BodyEndTurn(s.session, env(|s.history|));
    RenderedLength(OkBody);
    es' := es + [e];
    assert s.files[file := Idle] - {file} == s.files - {file};
  }

  /** Between two messages: HELO is awaited, and no recipient of an earlier message is left. */
  ghost predicate BetweenMails(env: Env, es: seq<Event>) {
    var s := Connections.Run(env, es);
    Waiting(env, es) && s.session.state == EHLO && s.session.rcptTo == []
  }

  /** What MAIL and RCPT name. */
  ghost predicate Addressed(from: string, rcpts: seq<string>) {
    && CleanArg(from) && ParseAddress("FROM:", from).Local?
    && rcpts != [] && forall r :: r in rcpts ==> CleanRecipient(r)
  }

  /** On every connection between two messages, for every local sender, every non-empty list of local recipients and
      every body that can be framed, there is a conversation after which exactly this mail has been registered, once for
      each recipient and in order, and its header and its body have been written and copied. */
  lemma MailIsDelivered(env: Env, es: seq<Event>, domain: string, from: string, rcpts: seq<string>, body: string,
                        file: int, next: int) returns (es': seq<Event>)
    requires BetweenMails(env, es) && CleanArg(domain) && domain != "" && Addressed(from, rcpts) && Sendable(body)
    requires file !in Connections.Run(env, es).files && next !in Connections.Run(env, es).files && next != file
    ensures es <= es' && BetweenMails(env, es')
    ensures var s, t := Connections.Run(env, es), Connections.Run(env, es');
            var f, to := ParseAddress("FROM:", from).mail, MailAddresses(rcpts);
            && t.registered == s.registered + DeliverTo(f, to)
            && t.spool == Mailed(s.spool, f, to, body)
            && t.files == s.files
  {
    hide Waiting, Respond, ParseAddress, Connections.Run, MailAddresses, CleanRecipient, Classify, Sends, Sendable,
         Mailed;
    var es1 := OpenMail(env, es, domain, from, file);
    var es2 := AddRecipients(env, es1, rcpts, file);
    var s2 := Connections.Run(env, es2);
    assert [] + MailAddresses(rcpts) == MailAddresses(rcpts);
    VerbsOfMail("");
    LinesOfMail("DATA", "");
    assert LineOf("DATA", "") == "DATA\r\n";
    StartBody(s2.session, env(|s2.history|));
    var es3 := Exchange(env, es2, "DATA\r\n", "DATA", "", file);
    es' := SendBody(env, es3, body, file, next);
  }

  lemma StartBody(s: Session, a: Answers)
    requires s.state == DATA
    ensures Respond(s, Command.Data, a).session == s.(state := BODY)
  {
  }

  /** HELO and MAIL. */
  lemma OpenMail(env: Env, es: seq<Event>, domain: string, from: string, file: int) returns (es': seq<Event>)
    requires BetweenMails(env, es) && CleanArg(domain) && domain != "" && CleanArg(from)
             && ParseAddress("FROM:", from).Local?
    requires file !in Connections.Run(env, es).files
    ensures es <= es' && Waiting(env, es') && SameDelivery(Connections.Run(env, es), Connections.Run(env, es'))
    ensures Connections.Run(env, es').session
            == Connections.Run(env, es).session.(state := TO, mailFrom := ParseAddress("FROM:", from).mail)
  {
    hide Respond, ParseAddress, Waiting, Connections.Run, Classify, CleanArg, Sends, LineOf;
    LocalArgIsNotEmpty("FROM:", from);
    LinesOfMail("HELO", domain);
    LinesOfMail("MAIL", from);
    VerbsOfMail(domain);
    VerbsOfMail(from);
    var s := Connections.Run(env, es);
    Greet(s.session, domain, from, env(|s.history|), env(|s.history|));
    var es1 := Exchange(env, es, LineOf("HELO", domain), "HELO", domain, file);
    var s1 := Connections.Run(env, es1);
    Greet(s.session, domain, from, env(|s.history|), env(|s1.history|));
    es' := Exchange(env, es1, LineOf("MAIL", from), "MAIL", from, file);
  }

  lemma Greet(s: Session, domain: string, from: string, a: Answers, b: Answers)
    requires s.state == EHLO && domain != "" && ParseAddress("FROM:", from).Local?
    ensures Respond(s, Hello(domain), a).session == s.(state := FROM)
    ensures Respond(s.(state := FROM), Mail(from), b).session
            == s.(state := TO, mailFrom := ParseAddress("FROM:", from).mail)
  {
    hide ParseAddress;
  }

  lemma Start(env: Env)
    requires WellAnswered(env)
    ensures BetweenMails(env, []) && Connections.Run(env, []) == ACCEPTED
  {
    AcceptedInv();
  }

  // ----- Failures that can be reached

  /** A write to the spool file can fail, and then the next event makes the engine abort: after any mail has been named
      and its body received. */
  lemma AbortIsReachable(env: Env, es: seq<Event>, body: string, file: int, next: int) returns (es': seq<Event>)
    requires Waiting(env, es) && Sendable(body) && Connections.Run(env, es).session.state == BODY
    requires file !in Connections.Run(env, es).files && next !in Connections.Run(env, es).files && next != file
    ensures es <= es' && Legal(env, es') && AllHarmless(env, es') && Connections.Run(env, es').status.Aborted?
  {
    hide Good, Legal, AllHarmless, Sendable;
    var es1 := ReceiveBody(env, es, body, file);
    var s := Connections.Run(env, es1);
    var e, e' := FileWritable(file, false, next), FileWritable(file, true, next);
    Extend(env, es1, e);
    var es2 := es1 + [e];
    StepKeepsInv(env, s, e);
    var t := Connections.Run(env, es2);
    assert t == s.(current := Some(ReqError));
    StuckAborts(env, t, e');
    es' := es2 + [e'];
    Snoc(env, es2, e');
  }

  lemma Snoc(env: Env, es: seq<Event>, e: Event)
    requires Legal(env, es) && AllHarmless(env, es) && Harmless(env, Connections.Run(env, es), e)
    requires Enabled(Connections.Run(env, es), e) && Ready(Connections.Run(env, es), e)
    ensures Legal(env, es + [e]) && AllHarmless(env, es + [e])
    ensures Connections.Run(env, es + [e]) == Connections.Step(env, Connections.Run(env, es), e)
  {
    hide Connections.Step, Harmless;
    var es' := es + [e];
    assert es'[..|es'| - 1] == es;
    forall i | 0 <= i < |es'| ensures Harmless(env, Connections.Run(env, es'[..i]), es'[i]) {
      if i < |es| {
        assert es'[..i] == es[..i] && Harmless(env, Connections.Run(env, es[..i]), es[i]);
      }
    }
  }

  const PASSWORD_LINE := "XAUTH password\r\n"

  /** The waiting reply is sent, and the password arrives with more behind it. */
  lemma PasswordArrives(env: Env, es: seq<Event>, rest: string, file: int) returns (es': seq<Event>)
    requires Waiting(env, es) && Connections.Run(env, es).session.state == FROM
    requires |rest| <= 1000 && file !in Connections.Run(env, es).files
    ensures es <= es' && Legal(env, es') && AllHarmless(env, es') && Inv(Connections.Run(env, es'))
    ensures var s, t := Connections.Run(env, es), Connections.Run(env, es');
            && t.status.Open? && t.current == Some(ReqWrite) && t.session == s.session.(state := XFROM)
            && t.input == rest && t.files == s.files
  {
    hide Good, Legal, AllHarmless, Respond, Classify, Render, IsLine;
    var s := Connections.Run(env, es);
    var es1 := SendReply(env, es, file);
    var t := Connections.Run(env, es1);
    var w := PASSWORD_LINE + rest;
    PasswordIsTaken(s.session, env(|s.history|));
    Extend(env, es1, ClientReadable(w));
    es' := es1 + [ClientReadable(w)];
    ReadCompleteLine(env, t.(input := w, received := t.received + w), PASSWORD_LINE, "XAUTH", "password", rest);
    ReadHandlerKeepsInv(env, t, w);
  }

  /** Requests that follow the password in one packet wait for further bytes: when the reply has been sent the machine
      stands in REQUEST_ADMIN, reads from the client, and has not looked at them. */
  lemma PipelinedAdminWaits(env: Env, es: seq<Event>, rest: string, file: int) returns (es': seq<Event>)
    requires Waiting(env, es) && Connections.Run(env, es).session.state == FROM
    requires |rest| <= 1000 && file !in Connections.Run(env, es).files
    ensures es <= es' && Legal(env, es') && AllHarmless(env, es')
    ensures var s := Connections.Run(env, es');
            && Inv(s) && s.status.Open? && s.current == Some(ReqAdmin) && s.session.state == XFROM
            && s.client == Reading && s.input == rest && s.output.pending == ""
  {
    hide Good, Legal, AllHarmless, ReadHandler;
    var es1 := PasswordArrives(env, es, rest, file);
    var s := Connections.Run(env, es1);
    var e := ClientWritable(|s.output.pending|, 1, file);
    InvIsPrepared(s);
    Extend(env, es1, e);
    es' := es1 + [e];
    ReplySentJumps(Sent(s, |s.output.pending|).(client := Reading), file);
  }

  lemma PasswordIsTaken(s: Session, a: Answers)
    requires s.state == FROM
    ensures Classify("XAUTH", "password") == Auth("password") && IsLine(Command, PASSWORD_LINE, "XAUTH", "password")
    ensures |PASSWORD_LINE| == 16 && NUL !in "XAUTH" && NUL !in "password"
    ensures Respond(s, Auth("password"), a) == Say(s, XFROM, Authenticated)
  {
    hide Classify, IsLine, Respond;
    PasswordVerb();
    PasswordLineIsLine();
    PasswordTurn(s, a);
  }

  lemma PasswordLineIsLine()
    ensures IsLine(Command, PASSWORD_LINE, "XAUTH", "password") && |PASSWORD_LINE| == 16
    ensures NUL !in "XAUTH" && NUL !in "password"
  {
    assert PASSWORD_LINE == "XAUTH" + " " + "password" + "\r\n";
  }

  lemma PasswordTurn(s: Session, a: Answers)
    requires s.state == FROM
    ensures Respond(s, Auth("password"), a) == Say(s, XFROM, Authenticated)
  {
    hide ParseAddress;
  }

  lemma PasswordVerb()
    ensures Classify("XAUTH", "password") == Auth("password")
  {
    hide Classify;
    SmtpSessions.VerbsAreDistinct("XAUTH", "password");
  }

  /** In REQUEST_ADMIN a bare XQUIT is answered, and leads back to the mail dialogue. */
  lemma BareXquitLeaves(env: Env, s: Conn)
    requires WellAnswered(env) && Inv(s) && s.status.Open? && s.current == Some(ReqAdmin) && s.input == ""
    requires s.parser == LineParser(INIT)
    ensures Prepared(s)
    ensures var t := ReadHandler(env, s, "XQUIT\r\n");
            && t.session == s.session.(state := FROM) && t.input == "" && t.current == Some(ReqWrite)
            && t.output.pending == "250 XQUIT! Ok\n" && t.history == s.history + [Request(Leave, env(|s.history|))]
  {
    hide Classify, FeedAll, ConsumeLength, Good, InSequence, Render;
    InvIsPrepared(s);
    XquitLine();
    AdminState(s);
    XquitText();
    CStrOfClean("XQUIT");
    CStrOfClean("");
  }

  /** The bare XQUIT is one request. */
  lemma XquitLine()
    ensures var w := "XQUIT\r\n";
            && ConsumeLength(Admin, INIT, w) == 7 && w[..7] == w && w[7..] == ""
            && FeedAll(Admin, INIT, w) == Parse(Complete, "XQUIT", "")
    ensures Classify("XQUIT", "") == Leave && NUL !in "XQUIT" && NUL !in ""
  {
    hide FeedAll, ConsumeLength, Classify;
    var w := "XQUIT\r\n";
    assert w == "XQUIT" + "\r\n" && "XQUIT"[..5] == "XQUIT";
    BareVerbs("XQUIT", "");
    assert w + "" == w;
    SmtpSessions.VerbsAreDistinct("XQUIT", "");
  }

  lemma XquitText()
    ensures Render(Ok("XQUIT!")) == "250 XQUIT! Ok\n" && |Render(Ok("XQUIT!"))| == 14
  {
  }

  lemma AdminState(s: Conn)
    requires Inv(s) && s.status.Open? && s.current == Some(ReqAdmin)
    ensures (s.session.state == XFROM || s.session.state == XGET) && s.output == Queue("", 0)
  {
  }

  // ----- What the mailboxes hold

  lemma AddressesHaveNoCr(rcpts: seq<string>)
    requires rcpts != [] && forall r :: r in rcpts ==> CleanRecipient(r)
    ensures MailAddresses(rcpts) != [] && CR !in First(MailAddresses(rcpts))
  {
    hide LocalAddress;
    assert CleanRecipient(rcpts[0]);
    AcceptedAddress("TO:", rcpts[0]);
  }

  lemma AddressedIsPlain(from: string, rcpts: seq<string>)
    requires Addressed(from, rcpts)
    ensures MailAddresses(rcpts) != [] && Plain(ParseAddress("FROM:", from).mail, MailAddresses(rcpts))
  {
    hide LocalAddress, CleanRecipient;
    AddressesHaveNoCr(rcpts);
    AcceptedAddress("FROM:", from);
  }

  /** The first mail of a connection arrives: the mailbox of every recipient holds its header and its body. */
  lemma FirstMailArrives(env: Env, domain: string, from: string, rcpts: seq<string>, body: string)
      returns (es: seq<Event>)
    requires WellAnswered(env) && CleanArg(domain) && domain != "" && Addressed(from, rcpts) && Sendable(body)
    ensures BetweenMails(env, es)
    ensures var s := Connections.Run(env, es);
            var f, to := ParseAddress("FROM:", from).mail, MailAddresses(rcpts);
            && s.registered == DeliverTo(f, to)
            && (forall r :: r in to ==> Held(s.spool.inboxes, Mailbox(r)) == Header(f, to) + body)
            && s.spool == Mailed(EMPTY, f, to, body) && s.files == map[]
            && ((forall r :: r in to ==> r != "" && r[0] != '@') ==>
                  forall user: string :: user != "" ==>
                    Held(s.spool.inboxes, user) == if Names(to, user) then Header(f, to) + body else "")
  {
    hide BetweenMails, Connections.Run, Mailed, Mailbox, Header, ParseAddress, CleanRecipient, Plain;
    Start(env);
    AddressedIsPlain(from, rcpts);
    EmptyIsTidy();
    es := MailIsDelivered(env, [], domain, from, rcpts, body, 1, 2);
    var f, to := ParseAddress("FROM:", from).mail, MailAddresses(rcpts);
    forall r | r in to
      ensures Held(Mailed(EMPTY, f, to, body).inboxes, Mailbox(r)) == Header(f, to) + body
    {
      MailArrives(EMPTY, f, to, body, r);
    }
    if forall r :: r in to ==> r != "" && r[0] != '@' {
      forall user: string | user != ""
        ensures Held(Mailed(EMPTY, f, to, body).inboxes, user)
                == if Names(to, user) then Header(f, to) + body else ""
      {
        FirstMailToUser(f, to, body, user);
      }
    }
  }

  /** After the first mail a user's file holds the mail if the user is addressed, and is not there otherwise. */
  lemma FirstMailToUser(f: string, to: seq<string>, body: string, user: string)
    requires user != "" && forall r :: r in to ==> r != "" && r[0] != '@'
    ensures Held(Mailed(EMPTY, f, to, body).inboxes, user)
            == if Names(to, user) then Header(f, to) + body else ""
  {
    hide Overwrite, Mailbox, Header, Started, Written, Copied;
    FillContent(EMPTY, f, to, body);
    CopiedToUsers(Written(Started(EMPTY, f, to), body), to, user);
    OverwriteIsWhole("", Header(f, to) + body);
  }

  /** A second mail on the same connection is always registered, and arrives at a recipient exactly when the first
      recipients of both mails have the same mailbox, and the second mail is not shorter than the first. When the
      mailboxes differ its recipients get the first mail instead. */
  lemma SecondMailIsTheFirst(env: Env, domain: string, from: string, rcpts: seq<string>, body: string,
                             from': string, rcpts': seq<string>, body': string) returns (es: seq<Event>)
    requires WellAnswered(env) && CleanArg(domain) && domain != ""
    requires Addressed(from, rcpts) && Sendable(body) && Addressed(from', rcpts') && Sendable(body')
    ensures BetweenMails(env, es)
    ensures var s := Connections.Run(env, es);
            var f, to := ParseAddress("FROM:", from).mail, MailAddresses(rcpts);
            var f', to' := ParseAddress("FROM:", from').mail, MailAddresses(rcpts');
            var text, text' := Header(f, to) + body, Header(f', to') + body';
            var same := Mailbox(First(to)) == Mailbox(First(to'));
            && s.registered == DeliverTo(f, to) + DeliverTo(f', to')
            && (forall r :: r in to' ==>
                  (Held(s.spool.inboxes, Mailbox(r)) == text' <==> same && |text| <= |text'|))
            && (!same ==> forall r :: r in to' ==> Held(s.spool.inboxes, Mailbox(r)) == text)
  {
    hide BetweenMails, Connections.Run, Mailed, Mailbox, Header, ParseAddress, Overwrite, First, Sendable, CleanArg,
         Plain, CleanRecipient;
    var es1 := FirstMailArrives(env, domain, from, rcpts, body);
    es := MailIsDelivered(env, es1, domain, from', rcpts', body', 1, 2);
    AddressedIsPlain(from, rcpts);
    AddressedIsPlain(from', rcpts');
    var f, to := ParseAddress("FROM:", from).mail, MailAddresses(rcpts);
    var f', to' := ParseAddress("FROM:", from').mail, MailAddresses(rcpts');
    forall r | r in to'
      ensures var held := Held(Mailed(Mailed(EMPTY, f, to, body), f', to', body').inboxes, Mailbox(r));
              var text, text' := Header(f, to) + body, Header(f', to') + body';
              && (held == text' <==> Mailbox(First(to)) == Mailbox(First(to')) && |text| <= |text'|)
              && (Mailbox(First(to)) != Mailbox(First(to')) ==> held == text)
    {
      SecondInbox(f, to, body, f', to', body', r);
    }
  }

  /** The mailboxes after two mails on a new connection. */
  lemma SecondInbox(f: string, to: seq<string>, body: string, f': string, to': seq<string>, body': string, r: string)
    requires to != [] && r in to' && Plain(f, to) && Plain(f', to')
    ensures var held := Held(Mailed(Mailed(EMPTY, f, to, body), f', to', body').inboxes, Mailbox(r));
            var text, text' := Header(f, to) + body, Header(f', to') + body';
            && (held == text' <==> Mailbox(First(to)) == Mailbox(First(to')) && |text| <= |text'|)
            && (Mailbox(First(to)) != Mailbox(First(to')) ==> held == text)
  {
    hide Overwrite, Mailbox, Header, Started, Written, Copied, Plain, Tidy, First;
    var text, text' := Header(f, to) + body, Header(f', to') + body';
    var sp, sp1 := Mailed(EMPTY, f, to, body), Written(Started(EMPTY, f, to), body);
    EmptyIsTidy();
    MailedIsTidy(EMPTY, f, to, body);
    FillContent(EMPTY, f, to, body);
    CopiedInbox(sp1, to, Mailbox(r));
    OverwriteIsWhole("", text);
    OverwriteTwice("", text);
    MailArrives(sp, f', to', body', r);
    if Mailbox(First(to)) != Mailbox(First(to')) {
      LaterMailIsLost(sp, f', to', body', r);
    }
  }
}
