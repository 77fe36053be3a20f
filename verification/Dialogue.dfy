/** process.c as a transition system on values: one turn of the SMTP dialogue, and whole dialogues. */
module Dialogue {
  import opened CStrings
  import opened LineSyntax
  import opened Wrappers

  /** smtp_state of states.h */
  datatype SmtpState = EHLO | FROM | TO | DATA | BODY | DONE | XAUTH | XFROM | XGET | XTRAN | XQUIT | ERROR

  /** The part of smtp_data that the dialogue reads and writes. */
  datatype Session = Session(state: SmtpState, mailFrom: string, rcptTo: seq<string>, user: string)

  const START := Session(EHLO, "", [], "")

  /** What the rest of the process answers while one request is handled: is_user, the date check, the
      registry listing, and the text that an uninitialised reply array happens to hold. */
  datatype Answers = Answers(isUser: bool, validDate: bool, listing: string, leftover: string)

  const RESPONSE_SIZE := 1024

  predicate Fits(a: Answers) {
    |a.listing| < RESPONSE_SIZE && |a.leftover| < RESPONSE_SIZE
  }

  /** handlers_table has no entry for these states. */
  predicate HasHandler(s: SmtpState) {
    !s.DONE? && !s.XQUIT? && !s.ERROR?
  }

  // ----- Requests by meaning

  datatype Command =
    | Noop | Quit(arg: string) | Rset(arg: string) | Leave
    | Hello(arg: string) | Mail(arg: string) | Rcpt(arg: string) | Data
    | Auth(arg: string) | Inspect(arg: string) | Transform(arg: string) | Get(arg: string)
    | Unknown

  function Classify(verb: string, arg: string): Command {
    if SameIgnoringCase(verb, "NOOP") then Noop
    else if SameIgnoringCase(verb, "QUIT") then Quit(arg)
    else if SameIgnoringCase(verb, "RSET") then Rset(arg)
    else if SameIgnoringCase(verb, "XQUIT") then Leave
    else if SameIgnoringCase(verb, "HELO") || SameIgnoringCase(verb, "EHLO") then Hello(arg)
    else if SameIgnoringCase(verb, "MAIL") then Mail(arg)
    else if SameIgnoringCase(verb, "RCPT") then Rcpt(arg)
    else if SameIgnoringCase(verb, "DATA") then Data
    else if SameIgnoringCase(verb, "XAUTH") then Auth(arg)
    else if SameIgnoringCase(verb, "XFROM") then Inspect(arg)
    else if SameIgnoringCase(verb, "XTRAN") then Transform(arg)
    else if SameIgnoringCase(verb, "XGET") then Get(arg)
    else Unknown
  }

  /** extract_email: the text between the brackets, when the argument is a bracketed text. */
  function ExtractEmail(arg: string): (r: Option<string>)
    ensures r.Some? ==> arg == "<" + r.value + ">" && |r.value| < 255
    ensures r.None? ==> forall m: string :: arg == "<" + m + ">" ==> |m| >= 255
  {
    var start, end := StrChr(arg, '<'), StrRChr(arg, '>');
    if start != -1 && end != -1 && start == 0 && end == start + |arg| - 1 && end - start - 1 < 255
    then Some(arg[1..end])
    else
      assert forall m: string :: arg == "<" + m + ">" ==> arg[0] == '<' && arg[|arg| - 1] == '>' && |arg| == |m| + 2;
      None
  }

  /** An address this server takes: without a domain, or in the domain "local". */
  predicate LocalAddress(mail: string) {
    var at := StrChr(mail, '@');
    at == -1 || mail[at + 1..] == "local"
  }

  datatype Address = Malformed | Foreign(mail: string) | Local(mail: string)

  function ParseAddress(prefix: string, arg: string): (r: Address)
    ensures r.Local? ==> LocalAddress(r.mail)
    ensures !r.Malformed? ==> HasPrefixIgnoringCase(arg, prefix) && arg[|prefix|..] == "<" + r.mail + ">"
  {
    if !HasPrefixIgnoringCase(arg, prefix) then Malformed
    else match ExtractEmail(arg[|prefix|..])
      case None => Malformed
      case Some(mail) => if LocalAddress(mail) then Local(mail) else Foreign(mail)
  }

  // ----- Replies

  datatype Reply =
    | Ok(code: string) | BadSyntax(syntax: string) | MailFromUnknown(mail: string) | RcptToUnknown(mail: string)
    | BadSequence | BadCommand | BadPassword | BadUser | Authenticated | Welcome | OkData | OkBody
    | Text(text: string)

  /** The text that the sprintf calls produce. */
  function Render(r: Reply): string {
    match r
    case Ok(code) => "250 " + code + " Ok\n"
    case BadSyntax(syntax) => "501 5.5.4 Syntax: " + syntax + " \n"
    case MailFromUnknown(mail) =>
      "550 5.1.1 <" + mail + ">: Recipient address rejected: User unknown in local recipient table\n"
    case RcptToUnknown(mail) => "553 5.1.8 <" + mail + ">: Sender address rejected: Domain not allowed\n"
    case BadSequence => "503 5.5.1 Error: Bad Command Sequence \n"
    case BadCommand => "502 5.5.2 Error: Command Not Recognized\n"
    case BadPassword => "[CODE] Incorrect Password! \n"
    case BadUser => "XFROM: Bad User \n"
    case Authenticated => "ADMIN authenticated! \n"
    case Welcome => "250 EHLO recieved\n"
    case OkData => "354 End data with <CR><LF>.<CR><LF> \n"
    case OkBody => "250 2.0.0 Ok: (queued as ?) EMAIL SENT \n"
    case Text(text) => text
  }

  const PASSWORD := "password"

  // ----- One turn

  datatype Turn = Turn(session: Session, reply: Reply, quit: bool)

  function Say(s: Session, state: SmtpState, reply: Reply): Turn {
    Turn(s.(state := state), reply, false)
  }

  /** is_valid's reply to a verb that is not the expected one. */
  function OutOfSequence(c: Command): Reply {
    if c.Noop? || c.Quit? || c.Rset? || c.Unknown? then BadCommand else BadSequence
  }

  function AtEhlo(s: Session, c: Command): Turn {
    if c.Hello? && c.arg != "" then Say(s, FROM, Welcome) else Say(s, EHLO, BadCommand)
  }

  function AtAuth(s: Session, c: Command): Turn {
    if !c.Auth? then Say(s, FROM, OutOfSequence(c))
    else if c.arg == "" then Say(s, FROM, BadSyntax("AUTH <password>"))
    else if c.arg == PASSWORD then Say(s, XFROM, Authenticated)
    else Say(s, FROM, BadPassword)
  }

  function AtFrom(s: Session, c: Command): Turn {
    if c.Auth? then AtAuth(s, c)
    else if !c.Mail? then Say(s, FROM, OutOfSequence(c))
    else match ParseAddress("FROM:", c.arg)
      case Malformed => Say(s, FROM, BadSyntax("MAIL FROM:<address>"))
      case Foreign(m) => Say(s, FROM, MailFromUnknown(m))
      case Local(m) => Say(s.(mailFrom := m), TO, Ok("2.1.0"))
  }

  function AtTo(s: Session, c: Command): Turn {
    if !c.Rcpt? then Say(s, TO, OutOfSequence(c))
    else match ParseAddress("TO:", c.arg)
      case Malformed => Say(s, TO, BadSyntax("RCPT TO:<address>"))
      case Foreign(m) => Say(s, TO, RcptToUnknown(m))
      case Local(m) => Say(s.(rcptTo := s.rcptTo + [m]), DATA, Ok("2.1.0"))
  }

  function AtData(s: Session, c: Command): Turn {
    if c.Data? then Say(s, BODY, OkData)
    else if c.Rcpt? && ParseAddress("TO:", c.arg).Local? then AtTo(s, c)
    else Say(s, DATA, BadCommand)
  }

  function AtBody(s: Session): Turn {
    Say(s, EHLO, OkBody)
  }

  function AtXTran(s: Session, c: Command, leftover: string): Turn {
    if !c.Transform? then Say(s, XFROM, OutOfSequence(c))
    else if SameIgnoringCase(c.arg, "OFF") then Say(s, XFROM, Ok("XTRAN OFF"))
    else if SameIgnoringCase(c.arg, "ON") then Say(s, XFROM, Ok("XTRAN ON"))
    else Say(s, XFROM, Text(leftover))
  }

  function AtXFrom(s: Session, c: Command, a: Answers): Turn {
    if c.Transform? then AtXTran(s, c, a.leftover)
    else if !c.Inspect? then Say(s, XFROM, OutOfSequence(c))
    else if a.isUser then Say(s.(user := c.arg), XGET, Ok("XFROM!"))
    else Say(s, XFROM, BadUser)
  }

  function AtXGet(s: Session, c: Command, a: Answers): Turn {
    if c.Inspect? then AtXFrom(s, c, a)
    else if !c.Get? then Say(s, XGET, OutOfSequence(c))
    else if SameIgnoringCase(c.arg, "ALL") || a.validDate then Say(s.(user := ""), XGET, Text(a.listing))
    else Say(s, XGET, BadSyntax("XGET <date> | XGET ALL"))
  }

  /** The handler of the current state. */
  function InSequence(s: Session, c: Command, a: Answers): Turn
    requires HasHandler(s.state)
  {
    match s.state
    case EHLO => AtEhlo(s, c)
    case FROM => AtFrom(s, c)
    case TO => AtTo(s, c)
    case DATA => AtData(s, c)
    case BODY => AtBody(s)
    case XAUTH => AtAuth(s, c)
    case XFROM => AtXFrom(s, c, a)
    case XGET => AtXGet(s, c, a)
    case XTRAN => AtXTran(s, c, a.leftover)
  }

  /** request_process: the commands that are valid anywhere come first. QUIT ends the connection unanswered. */
  function Respond(s: Session, c: Command, a: Answers): Turn
    requires HasHandler(s.state)
  {
    match c
    case Noop => Say(s, s.state, Ok("2.0.0"))
    case Quit(arg) => Turn(s.(state := if arg == "" then FROM else s.state), Text(""), true)
    case Rset(arg) => if arg == "" then Say(s, FROM, Ok("2.0.0")) else Say(s, s.state, BadSyntax("RSET"))
    case Leave => if s.state.XFROM? || s.state.XGET? then Say(s, FROM, Ok("XQUIT!")) else InSequence(s, c, a)
    case _ => InSequence(s, c, a)
  }

  /** The commands that are answered with an array left unset. */
  predicate ShowsLeftover(s: Session, c: Command) {
    && (s.state.XFROM? || s.state.XTRAN?) && c.Transform?
    && !SameIgnoringCase(c.arg, "OFF") && !SameIgnoringCase(c.arg, "ON")
  }

  /** The commands that are answered with a listing of the registry. */
  predicate ShowsListing(s: Session, c: Command, a: Answers) {
    s.state.XGET? && c.Get? && (SameIgnoringCase(c.arg, "ALL") || a.validDate)
  }

  /** A reply fits the array of RESPONSE_SIZE characters it is written to, exactly when the listing does that is asked
      for, and the unset array does that a wrong XTRAN shows. */
  lemma ReplyFits(s: Session, c: Command, a: Answers)
    requires HasHandler(s.state)
    requires c.Mail? || c.Rcpt? ==> |c.arg| <= ARG_MAX
    ensures |Render(Respond(s, c, a).reply)| < RESPONSE_SIZE
            <==> && (ShowsLeftover(s, c) ==> |a.leftover| < RESPONSE_SIZE)
                 && (ShowsListing(s, c, a) ==> |a.listing| < RESPONSE_SIZE)
    ensures Fits(a) ==> |Render(Respond(s, c, a).reply)| < RESPONSE_SIZE
  {
    hide Render, Respond, ShowsLeftover, ShowsListing;
    WordsAreShort(s, c, a);
    RenderedLength(Respond(s, c, a).reply);
    TextsAreAnswers(s, c, a);
  }

  lemma WordsAreShort(s: Session, c: Command, a: Answers)
    requires HasHandler(s.state)
    requires c.Mail? || c.Rcpt? ==> |c.arg| <= ARG_MAX
    ensures match Respond(s, c, a).reply
      case Ok(code) => |code| <= 20
      case BadSyntax(syntax) => |syntax| <= 40
      case MailFromUnknown(mail) => |mail| <= ARG_MAX
      case RcptToUnknown(mail) => |mail| <= ARG_MAX
      case _ => true
  {
    hide HasPrefixIgnoringCase, LocalAddress, SameIgnoringCase;
  }

  lemma TextsAreAnswers(s: Session, c: Command, a: Answers)
    requires HasHandler(s.state)
    ensures Respond(s, c, a).reply
            == if ShowsLeftover(s, c) then Text(a.leftover)
               else if ShowsListing(s, c, a) then Text(a.listing)
               else if c.Quit? then Text("")
               else Respond(s, c, a).reply
    ensures ShowsLeftover(s, c) ==> !ShowsListing(s, c, a)
    ensures Respond(s, c, a).reply.Text? ==> ShowsLeftover(s, c) || ShowsListing(s, c, a) || c.Quit?
  {
    hide ParseAddress, SameIgnoringCase;
  }

  lemma RenderedLength(r: Reply)
    ensures match r
      case Ok(code) => |Render(r)| == |code| + 8
      case BadSyntax(syntax) => |Render(r)| == |syntax| + 20
      case MailFromUnknown(mail) => |Render(r)| <= |mail| + 100
      case RcptToUnknown(mail) => |Render(r)| <= |mail| + 100
      case Text(text) => |Render(r)| == |text|
      case _ => |Render(r)| <= 100
  {
  }

  lemma OnlyQuitEnds(s: Session, c: Command, a: Answers)
    requires HasHandler(s.state)
    ensures Respond(s, c, a).quit <==> c.Quit?
  {
  }

  // ----- Whole dialogues

  /** What a dialogue is made of: a parsed request, or the end of a message body. */
  datatype Input = Request(command: Command, answers: Answers) | BodyEnd(answers: Answers)

  datatype Delivery = Delivery(from: string, to: string)

  datatype Outcome = Outcome(session: Session, replies: seq<Reply>, deliveries: seq<Delivery>, quit: bool)

  function DeliverTo(from: string, rcpts: seq<string>): (ds: seq<Delivery>)
    ensures |ds| == |rcpts| && forall i :: 0 <= i < |ds| ==> ds[i] == Delivery(from, rcpts[i])
  {
    seq(|rcpts|, i requires 0 <= i < |rcpts| => Delivery(from, rcpts[i]))
  }

  /** clean_request */
  function Cleaned(s: Session): Session {
    s.(mailFrom := "", rcptTo := [])
  }

  function Step(o: Outcome, i: Input): Outcome
    requires HasHandler(o.session.state)
  {
    match i
    case Request(c, a) =>
      var t := Respond(o.session, c, a);
      o.(session := t.session, quit := t.quit, replies := if t.quit then o.replies else o.replies + [t.reply])
    case BodyEnd(a) =>
      // the request has been cleared, and an empty verb is unknown
      var t := Respond(Cleaned(o.session), Unknown, a);
      Outcome(t.session, o.replies + [t.reply], o.deliveries + DeliverTo(o.session.mailFrom, o.session.rcptTo), o.quit)
  }

  /** A body ends exactly when the dialogue stands in BODY, and nothing follows QUIT. */
  predicate Next(o: Outcome, i: Input) {
    !o.quit && HasHandler(o.session.state) && (i.BodyEnd? <==> o.session.state.BODY?)
  }

  const FRESH := Outcome(START, [], [], false)

  /** The dialogue after a list of inputs; an input that cannot come next is skipped. */
  function Run(h: seq<Input>): Outcome {
    if h == [] then FRESH
    else
      var o, i := Run(h[..|h| - 1]), h[|h| - 1];
      if Next(o, i) then Step(o, i) else o
  }

  predicate Possible(h: seq<Input>) {
    h == [] || (Possible(h[..|h| - 1]) && Next(Run(h[..|h| - 1]), h[|h| - 1]))
  }

  lemma RunSnoc(h: seq<Input>, i: Input)
    requires Next(Run(h), i)
    ensures Run(h + [i]) == Step(Run(h), i)
    ensures Possible(h + [i]) == Possible(h)
  {
    assert (h + [i])[..|h + [i]| - 1] == h;
  }

  // ----- What every dialogue keeps

  predicate Usable(s: SmtpState) {
    s.EHLO? || s.FROM? || s.TO? || s.DATA? || s.BODY? || s.XFROM? || s.XGET?
  }

  ghost predicate Good(s: Session) {
    && Usable(s.state)
    && (s.state.DATA? || s.state.BODY? ==> s.rcptTo != [])
    && LocalAddress(s.mailFrom)
    && (forall r :: r in s.rcptTo ==> LocalAddress(r))
  }

  lemma LocalEmpty()
    ensures LocalAddress("")
  {
  }

  lemma TurnKeepsGood(s: Session, c: Command, a: Answers)
    requires Good(s)
    ensures s.state.BODY? ==> Respond(Cleaned(s), Unknown, a) == Say(Cleaned(s), EHLO, OkBody)
    ensures Good(Respond(s, c, a).session)
  {
    hide LocalAddress, HasPrefixIgnoringCase;
    assert LocalAddress("") by { LocalEmpty(); }
    var t := Respond(s, c, a).session;
    if t.rcptTo != s.rcptTo {
      var m := ParseAddress("TO:", c.arg).mail;
      assert t.rcptTo == s.rcptTo + [m];
    }
  }

  /** No dialogue leaves the usable states, so every lookup in handlers_table finds a handler; DATA and BODY
      come after an accepted recipient; every address kept is local. */
  lemma {:induction false} ReachableSessionsAreGood(h: seq<Input>)
    ensures Good(Run(h).session)
  {
    hide Good;
    if h == [] {
      StartIsGood();
    } else {
      var g, i := h[..|h| - 1], h[|h| - 1];
      ReachableSessionsAreGood(g);
      if i.Request? {
        TurnKeepsGood(Run(g).session, i.command, i.answers);
      } else {
        TurnKeepsGood(Run(g).session, Unknown, i.answers);
        EndIsGood(Run(g).session);
      }
    }
  }

  lemma StartIsGood()
    ensures Good(START)
  {
    LocalEmpty();
  }

  lemma EndIsGood(s: Session)
    ensures Good(Cleaned(s).(state := EHLO))
  {
    LocalEmpty();
  }

  predicate Privileged(s: SmtpState) {
    s.XFROM? || s.XGET?
  }

  predicate LogsIn(i: Input) {
    i.Request? && i.command == Auth(PASSWORD)
  }

  /** The inputs that end a privilege. */
  predicate GivesUp(i: Input) {
    i.Request? && (i.command == Leave || i.command == Rset("") || i.command == Quit(""))
  }

  lemma PrivilegeTurn(s: Session, i: Input)
    requires Good(s)
    ensures i.Request? ==>
              (Privileged(Respond(s, i.command, i.answers).session.state)
               <==> if Privileged(s.state) then !GivesUp(i) else s.state == FROM && LogsIn(i))
    ensures i.BodyEnd? && s.state.BODY? ==> !Privileged(Respond(Cleaned(s), Unknown, i.answers).session.state)
  {
  }

  /** A dialogue stands in an administrative state only if, since it last stood anywhere else, it was in FROM and
      received the password, and nothing since then gave the privilege up. */
  lemma {:induction false} PrivilegeNeedsPassword(h: seq<Input>) returns (k: nat)
    requires Possible(h) && Privileged(Run(h).session.state)
    ensures k < |h| && LogsIn(h[k]) && Run(h[..k]).session.state == FROM
    ensures forall j :: k < j <= |h| ==> Privileged(Run(h[..j]).session.state)
    ensures forall j :: k < j < |h| ==> !GivesUp(h[j])
  {
    hide Respond;
    assert h[..|h|] == h;
    var g, i := h[..|h| - 1], h[|h| - 1];
    ReachableSessionsAreGood(g);
    PrivilegeTurn(Run(g).session, i);
    if Privileged(Run(g).session.state) {
      k := PrivilegeNeedsPassword(g);
      assert forall j :: 0 <= j <= |g| ==> g[..j] == h[..j];
    } else {
      k := |g|;
    }
  }

  /** The k-th input is the password, where it is asked for, and nothing behind it gives the privilege up. */
  predicate LoggedInSince(h: seq<Input>, k: nat) {
    && k < |h| && LogsIn(h[k]) && Run(h[..k]).session.state == FROM
    && forall j :: k < j < |h| ==> !GivesUp(h[j])
  }

  lemma {:induction false} PrivilegeLasts(h: seq<Input>, k: nat)
    requires Possible(h) && LoggedInSince(h, k)
    ensures Privileged(Run(h).session.state)
    decreases |h|
  {
    hide Respond;
    var g, i := h[..|h| - 1], h[|h| - 1];
    ReachableSessionsAreGood(g);
    PrivilegeTurn(Run(g).session, i);
    if k < |g| {
      assert g[..k] == h[..k];
      PrivilegeLasts(g, k);
      PrivilegedIsNoBody(Run(g).session.state);
    }
  }

  lemma PrivilegedIsNoBody(s: SmtpState)
    requires Privileged(s)
    ensures !s.BODY?
  {
  }

  /** A dialogue is privileged exactly when the password was received in FROM and neither XQUIT nor RSET nor QUIT
      followed. */
  lemma PrivilegeExactly(h: seq<Input>)
    requires Possible(h)
    ensures Privileged(Run(h).session.state) <==> exists k: nat :: LoggedInSince(h, k)
  {
    if Privileged(Run(h).session.state) {
      var k := PrivilegeNeedsPassword(h);
      assert LoggedInSince(h, k);
    }
    if k: nat :| LoggedInSince(h, k) {
      PrivilegeLasts(h, k);
    }
  }

  /** XQUIT leads back to the mail dialogue: from every administrative state to FROM, and nothing else changes. */
  lemma XquitGivesUp(h: seq<Input>, a: Answers)
    requires Possible(h) && !Run(h).quit && Privileged(Run(h).session.state)
    ensures var o, h' := Run(h), h + [Request(Leave, a)];
            && Possible(h') && !Run(h').quit
            && Run(h').session == o.session.(state := FROM)
            && Run(h').replies == o.replies + [Ok("XQUIT!")] && Run(h').deliveries == o.deliveries
  {
    hide InSequence;
    RunSnoc(h, Request(Leave, a));
  }

  // ----- Where the dialogue goes

  /** RSET, and QUIT, without an argument. */
  predicate Resets(c: Command) {
    c == Rset("") || c == Quit("")
  }

  /** Which states follow which, for every command in every reachable state outside a body. */
  lemma StateMoves(s: Session, c: Command, a: Answers)
    requires Good(s) && !s.state.BODY?
    ensures var t := Respond(s, c, a).session.state;
            && (Resets(c) ==> t == FROM)
            && (!Resets(c) && s.state == EHLO ==>
                  t == if c.Hello? && c.arg != "" then FROM else EHLO)
            && (!Resets(c) && s.state == FROM ==>
                  t == if c.Mail? && ParseAddress("FROM:", c.arg).Local? then TO
                       else if c == Auth("password") then XFROM else FROM)
            && (!Resets(c) && s.state == TO ==> t == if c.Rcpt? && ParseAddress("TO:", c.arg).Local? then DATA else TO)
            && (!Resets(c) && s.state == DATA ==> t == if c.Data? then BODY else DATA)
            && (!Resets(c) && s.state == XFROM ==>
                  t == if c.Leave? then FROM else if c.Inspect? && a.isUser then XGET else XFROM)
            && (!Resets(c) && s.state == XGET ==>
                  t == if c.Leave? then FROM else if c.Inspect? && !a.isUser then XFROM else XGET)
  {
    hide ParseAddress, SameIgnoringCase;
  }

  /** Whose mails are looked at: XFROM names a known user, and a listing ends that. */
  lemma UserMoves(s: Session, c: Command, a: Answers)
    requires Good(s) && !s.state.BODY?
    ensures Respond(s, c, a).session.user
            == if Privileged(s.state) && c.Inspect? && a.isUser then c.arg
               else if ShowsListing(s, c, a) then "" else s.user
  {
    hide ParseAddress, SameIgnoringCase;
  }

  /** A command that the state is there for. */
  predicate Expected(s: SmtpState, c: Command) {
    match s
    case FROM => c.Mail? || c.Auth?
    case TO => c.Rcpt?
    case XFROM => c.Inspect? || c.Transform?
    case XGET => c.Inspect? || c.Get?
    case _ => false
  }

  /** Which commands are refused for being out of place, and which for being unknown, in the states that tell the two
      apart: a known verb that is not expected, and any other one. */
  lemma Refusals(s: Session, c: Command, a: Answers)
    requires Good(s) && (s.state.FROM? || s.state.TO? || Privileged(s.state))
    ensures var r := Respond(s, c, a).reply;
            var anywhere := c.Noop? || c.Quit? || c.Rset? || (c.Leave? && Privileged(s.state));
            && (r == BadSequence <==> !anywhere && !Expected(s.state, c) && !c.Unknown?)
            && (r == BadCommand <==> c.Unknown?)
  {
    hide ParseAddress, SameIgnoringCase;
  }

  /** The other states have one refusal: whatever does not move the dialogue, or adds a recipient, is not recognised. */
  lemma FlatRefusals(s: Session, c: Command, a: Answers)
    requires Good(s) && (s.state.EHLO? || s.state.DATA?)
    ensures var r := Respond(s, c, a).reply;
            var anywhere := c.Noop? || c.Quit? || c.Rset?;
            && r != BadSequence
            && (s.state.EHLO? ==> (r == BadCommand <==> !anywhere && !(c.Hello? && c.arg != "")))
            && (s.state.DATA? ==>
                  (r == BadCommand <==> !anywhere && !c.Data? && !(c.Rcpt? && ParseAddress("TO:", c.arg).Local?)))
  {
    hide ParseAddress, SameIgnoringCase;
  }

  /** What an expected command is answered with. */
  lemma ExpectedReplies(s: Session, c: Command, a: Answers)
    requires Good(s)
    ensures var r := Respond(s, c, a).reply;
            && (c.Noop? || c == Rset("") ==> r == Ok("2.0.0"))
            && (c.Rset? && c.arg != "" ==> r == BadSyntax("RSET") && Respond(s, c, a).session == s)
            && (s.state.EHLO? && c.Hello? && c.arg != "" ==> r == Welcome)
            && (s.state.DATA? && c.Data? ==> r == OkData)
            && (s.state.FROM? && c.Auth? ==>
                  r == if c.arg == "" then BadSyntax("AUTH <password>")
                       else if c.arg == "password" then Authenticated else BadPassword)
            && (s.state.FROM? && c.Mail? ==> match ParseAddress("FROM:", c.arg)
                  case Malformed => r == BadSyntax("MAIL FROM:<address>")
                  case Foreign(m) => r == MailFromUnknown(m)
                  case Local(_) => r == Ok("2.1.0"))
            && (s.state.TO? && c.Rcpt? ==> match ParseAddress("TO:", c.arg)
                  case Malformed => r == BadSyntax("RCPT TO:<address>")
                  case Foreign(m) => r == RcptToUnknown(m)
                  case Local(_) => r == Ok("2.1.0"))
            && (Privileged(s.state) && c.Inspect? ==> r == if a.isUser then Ok("XFROM!") else BadUser)
            && (s.state.XFROM? && c.Transform? && SameIgnoringCase(c.arg, "ON") ==> r == Ok("XTRAN ON"))
            && (s.state.XFROM? && c.Transform? && SameIgnoringCase(c.arg, "OFF") ==> r == Ok("XTRAN OFF"))
            && (s.state.XGET? && c.Get? && !ShowsListing(s, c, a) ==> r == BadSyntax("XGET <date> | XGET ALL"))
  {
    hide ParseAddress;
    OnAndOff(c);
  }

  lemma OnAndOff(c: Command)
    ensures c.Transform? && SameIgnoringCase(c.arg, "ON") ==> !SameIgnoringCase(c.arg, "OFF")
  {
  }

  /** The codes of section 4.2 of RFC 5321 that the replies begin with. */
  function Code(r: Reply): string {
    match r
    case Ok(_) => "250 "
    case Welcome => "250 "
    case OkBody => "250 "
    case OkData => "354 "
    case BadSyntax(_) => "501 "
    case BadCommand => "502 "
    case BadSequence => "503 "
    case MailFromUnknown(_) => "550 "
    case RcptToUnknown(_) => "553 "
    case _ => ""
  }

  lemma ReplyCodes(r: Reply)
    ensures Code(r) <= Render(r)
  {
  }

  /** Every reply that is worded here is one line. */
  lemma RepliesAreLines(r: Reply)
    requires !r.Text?
    ensures Render(r) != "" && Render(r)[|Render(r)| - 1] == '\n'
  {
  }

  // ----- Accepted recipients, read off the transcript

  /** The address in the argument of an accepted MAIL or RCPT. */
  function Bracketed(arg: string, prefix: string): string {
    if |prefix| < |arg| - 1 then arg[|prefix| + 1..|arg| - 1] else ""
  }

  predicate AnsweredOk(i: Input, reply: Reply) {
    i.Request? && reply == Ok("2.1.0")
  }

  /** The recipients answered 250 since the last delivered message, in order. */
  function Recipients(h: seq<Input>, replies: seq<Reply>): seq<string>
    requires |h| == |replies|
  {
    if h == [] then []
    else
      var n := |h| - 1;
      var before := Recipients(h[..n], replies[..n]);
      if h[n].BodyEnd? then []
      else if h[n].command.Rcpt? && AnsweredOk(h[n], replies[n])
      then before + [Bracketed(h[n].command.arg, "TO:")]
      else before
  }

  /** The last sender answered 250 since the last delivered message. */
  function Sender(h: seq<Input>, replies: seq<Reply>): string
    requires |h| == |replies|
  {
    if h == [] then ""
    else
      var n := |h| - 1;
      if h[n].BodyEnd? then ""
      else if h[n].command.Mail? && AnsweredOk(h[n], replies[n]) then Bracketed(h[n].command.arg, "FROM:")
      else Sender(h[..n], replies[..n])
  }

  /** What the transcript promises to have been delivered. */
  function Promised(h: seq<Input>, replies: seq<Reply>): seq<Delivery>
    requires |h| == |replies|
  {
    if h == [] then []
    else
      var n := |h| - 1;
      var before := Promised(h[..n], replies[..n]);
      if h[n].BodyEnd? then before + DeliverTo(Sender(h[..n], replies[..n]), Recipients(h[..n], replies[..n]))
      else before
  }

  function AcceptedCount(h: seq<Input>, replies: seq<Reply>): nat
    requires |h| == |replies|
  {
    if h == [] then 0
    else
      var n := |h| - 1;
      AcceptedCount(h[..n], replies[..n])
      + if h[n].Request? && h[n].command.Rcpt? && AnsweredOk(h[n], replies[n]) then 1 else 0
  }

  lemma AcceptedAddress(prefix: string, arg: string)
    requires ParseAddress(prefix, arg).Local?
    ensures Bracketed(arg, prefix) == ParseAddress(prefix, arg).mail
  {
    var m := ParseAddress(prefix, arg).mail;
    assert arg[|prefix| + 1..|arg| - 1] == arg[|prefix|..][1..|m| + 1] == m;
  }

  lemma OtherTurn(s: Session, c: Command, a: Answers)
    requires HasHandler(s.state) && !c.Mail? && !c.Rcpt?
    ensures Respond(s, c, a).session.rcptTo == s.rcptTo && Respond(s, c, a).session.mailFrom == s.mailFrom
  {
  }

  lemma MailTurn(s: Session, c: Command, a: Answers)
    requires HasHandler(s.state) && c.Mail?
    ensures var t := Respond(s, c, a);
            && t.session.rcptTo == s.rcptTo
            && (t.reply == Ok("2.1.0") <==> s.state.FROM? && ParseAddress("FROM:", c.arg).Local?)
            && t.session.mailFrom == (if t.reply == Ok("2.1.0") then ParseAddress("FROM:", c.arg).mail else s.mailFrom)
  {
    hide ParseAddress;
  }

  lemma RcptTurn(s: Session, c: Command, a: Answers)
    requires HasHandler(s.state) && c.Rcpt?
    ensures var t := Respond(s, c, a);
            && t.session.mailFrom == s.mailFrom
            && (t.reply == Ok("2.1.0") <==> (s.state.TO? || s.state.DATA?) && ParseAddress("TO:", c.arg).Local?)
            && t.session.rcptTo == (if t.reply == Ok("2.1.0") then s.rcptTo + [ParseAddress("TO:", c.arg).mail]
               else s.rcptTo)
  {
    hide ParseAddress;
  }

  /** A turn changes sender or recipients exactly when it answers MAIL or RCPT with 250 2.1.0. */
  lemma TurnByReply(s: Session, i: Input)
    requires HasHandler(s.state) && i.Request?
    ensures var c := i.command;
            var t := Respond(s, c, i.answers);
            && t.session.rcptTo == (if c.Rcpt? && AnsweredOk(i, t.reply) then s.rcptTo + [Bracketed(c.arg, "TO:")]
               else s.rcptTo)
            && t.session.mailFrom == (if c.Mail? && AnsweredOk(i, t.reply) then Bracketed(c.arg, "FROM:")
               else s.mailFrom)
  {
    hide Respond, ParseAddress, Bracketed;
    var c := i.command;
    if c.Rcpt? {
      RcptTurn(s, c, i.answers);
      if ParseAddress("TO:", c.arg).Local? { AcceptedAddress("TO:", c.arg); }
    } else if c.Mail? {
      MailTurn(s, c, i.answers);
      if ParseAddress("FROM:", c.arg).Local? { AcceptedAddress("FROM:", c.arg); }
    } else {
      OtherTurn(s, c, i.answers);
    }
  }

  /** What a refused MAIL or RCPT is answered with. */
  lemma RefusalTurn(s: Session, c: Command, a: Answers)
    requires HasHandler(s.state) && !s.state.BODY? && (c.Mail? || c.Rcpt?)
    ensures var r := Respond(s, c, a).reply;
            r == Ok("2.1.0") || r.BadCommand? || r.BadSequence? || r.BadSyntax? || r.MailFromUnknown?
                || r.RcptToUnknown?
  {
    hide ParseAddress;
  }

  /** On the wire, an accepted MAIL or RCPT cannot be mistaken for a refused one. */
  lemma AcceptanceIsVisible(s: Session, c: Command, a: Answers)
    requires HasHandler(s.state) && !s.state.BODY? && (c.Mail? || c.Rcpt?)
    ensures Render(Respond(s, c, a).reply) == "250 2.1.0 Ok\n" <==> Respond(s, c, a).reply == Ok("2.1.0")
  {
    hide Respond;
    RefusalTurn(s, c, a);
    OkIsVisible(Respond(s, c, a).reply);
  }

  lemma OkIsVisible(r: Reply)
    requires r == Ok("2.1.0") || r.BadCommand? || r.BadSequence? || r.BadSyntax? || r.MailFromUnknown?
             || r.RcptToUnknown?
    ensures Render(r) == "250 2.1.0 Ok\n" <==> r == Ok("2.1.0")
  {
    assert Render(Ok("2.1.0")) == "250 2.1.0 Ok\n";
    assert r != Ok("2.1.0") ==> Render(r)[0] == '5';
  }

  lemma BodyEndTurn(s: Session, a: Answers)
    requires s.state.BODY?
    ensures Respond(Cleaned(s), Unknown, a) == Say(Cleaned(s), EHLO, OkBody)
  {
  }

  lemma {:induction false} AnswersSoFar(h: seq<Input>)
    requires Possible(h) && !Run(h).quit
    ensures |Run(h).replies| == |h|
    ensures Run(h).session.rcptTo == Recipients(h, Run(h).replies)
    ensures Run(h).session.mailFrom == Sender(h, Run(h).replies)
    ensures Run(h).deliveries == Promised(h, Run(h).replies)
    ensures |Run(h).deliveries| + |Run(h).session.rcptTo| == AcceptedCount(h, Run(h).replies)
  {
    hide Respond;
    if h != [] {
      var g, i := h[..|h| - 1], h[|h| - 1];
      AnswersSoFar(g);
      ReachableSessionsAreGood(g);
      var o := Run(h);
      assert o.replies[..|g|] == Run(g).replies;
      if i.Request? {
        TurnByReply(Run(g).session, i);
      } else {
        BodyEndTurn(Run(g).session, i.answers);
      }
    }
  }

  /** The server does for its recipients what its replies say, over every dialogue, finished or not: each input but a
      final QUIT has one reply, the pending recipients are those answered 250, and every message goes to all of them
      from the last accepted sender. */
  lemma DeliversWhatWasAnswered(h: seq<Input>)
    requires Possible(h)
    ensures var o := Run(h);
            var n := |o.replies|;
            && n == (if o.quit then |h| - 1 else |h|)
            && o.session.rcptTo == Recipients(h[..n], o.replies)
            && o.session.mailFrom == Sender(h[..n], o.replies)
            && o.deliveries == Promised(h[..n], o.replies)
            && |o.deliveries| + |o.session.rcptTo| == AcceptedCount(h[..n], o.replies)
  {
    hide Recipients, Sender, Promised, AcceptedCount;
    if Run(h).quit {
      var g := h[..|h| - 1];
      LastWasQuit(h);
      AnswersSoFar(g);
    } else {
      AnswersSoFar(h);
      assert h[..|h|] == h;
    }
  }

  /** QUIT ends a dialogue without any other effect. */
  lemma LastWasQuit(h: seq<Input>)
    requires Possible(h) && Run(h).quit
    ensures h != []
    ensures var g := h[..|h| - 1];
            && Possible(g) && !Run(g).quit && Run(h).replies == Run(g).replies && Run(h).deliveries == Run(g).deliveries
            && Run(h).session.rcptTo == Run(g).session.rcptTo && Run(h).session.mailFrom == Run(g).session.mailFrom
  {
    hide InSequence;
    var g, i := h[..|h| - 1], h[|h| - 1];
    var s := Run(g).session;
    OnlyQuitEnds(if i.BodyEnd? then Cleaned(s) else s, if i.BodyEnd? then Unknown else i.command, i.answers);
  }

  /** A message always has an accepted sender: in TO, DATA and BODY the sender is that of a MAIL answered 250 since the
      last message. In DATA and BODY it also has accepted recipients. */
  lemma {:induction false} MessagesHaveASender(h: seq<Input>) returns (k: nat)
    requires Possible(h) && !Run(h).quit && InMessage(Run(h).session.state)
    ensures k < |h| == |Run(h).replies| && h[k].Request? && h[k].command.Mail? && AnsweredOk(h[k], Run(h).replies[k])
    ensures Run(h).session.mailFrom == Bracketed(h[k].command.arg, "FROM:")
    ensures forall j :: k < j < |h| ==> !h[j].BodyEnd?
    ensures !Run(h).session.state.TO? ==> Run(h).session.rcptTo != []
    ensures Run(h).session.rcptTo == Recipients(h, Run(h).replies)
  {
    hide Respond, Bracketed, Promised, AcceptedCount, Sender, Recipients, Good, Run, Possible, Step;
    AnswersSoFar(h);
    ReachableSessionsAreGood(h);
    GoodMessage(Run(h).session);
    LastInput(h);
    var g, i := h[..|h| - 1], h[|h| - 1];
    var s := Run(g).session;
    ReachableSessionsAreGood(g);
    MessageTurn(s, i);
    TurnByReply(s, i);
    if i.command.Mail? && AnsweredOk(i, Respond(s, i.command, i.answers).reply) {
      k := |g|;
    } else {
      k := MessagesHaveASender(g);
    }
  }

  /** The last input of a dialogue that stands in a message is a request, and its reply is the last one. */
  lemma LastInput(h: seq<Input>)
    requires Possible(h) && !Run(h).quit && InMessage(Run(h).session.state)
    ensures h != []
    ensures var g, i := h[..|h| - 1], h[|h| - 1];
            && Possible(g) && !Run(g).quit && i.Request? && HasHandler(Run(g).session.state)
               && !Run(g).session.state.BODY?
            && Run(h).session == Respond(Run(g).session, i.command, i.answers).session
            && Run(h).replies == Run(g).replies + [Respond(Run(g).session, i.command, i.answers).reply]
  {
    hide Respond;
    ReachableSessionsAreGood(h[..|h| - 1]);
    var g, i := h[..|h| - 1], h[|h| - 1];
    if i.BodyEnd? {
      BodyEndTurn(Run(g).session, i.answers);
    }
  }

  lemma GoodMessage(s: Session)
    requires Good(s)
    ensures HasHandler(s.state) && (s.state.DATA? || s.state.BODY? ==> s.rcptTo != [])
  {
  }

  predicate InMessage(s: SmtpState) {
    s.TO? || s.DATA? || s.BODY?
  }

  /** Only an accepted MAIL starts a message. */
  lemma MessageTurn(s: Session, i: Input)
    requires Good(s) && (i.BodyEnd? <==> s.state.BODY?)
    ensures i.Request? && InMessage(Respond(s, i.command, i.answers).session.state) ==>
              InMessage(s.state) || (i.command.Mail? && AnsweredOk(i, Respond(s, i.command, i.answers).reply))
    ensures i.BodyEnd? ==> !InMessage(Respond(Cleaned(s), Unknown, i.answers).session.state)
  {
  }

  /** RSET and one message of one recipient. */
  function AnotherMessage(h: seq<Input>, from: string, to: string, a: Answers): seq<Input> {
    h + [Request(Rset(""), a)] + [Request(Mail(from), a)] + [Request(Rcpt(to), a)] + [Request(Data, a)] + [BodyEnd(a)]
  }

  /** RSET does not forget recipients, against section 4.1.1.5 of RFC 5321: wherever the dialogue stands, the message
      that follows a RSET goes also to the recipients that were waiting, so that it goes to its own recipient alone
      exactly when none was. */
  lemma RsetKeepsRecipients(h: seq<Input>, from: string, to: string, a: Answers)
    requires Possible(h) && !Run(h).quit && !Run(h).session.state.BODY?
    requires ParseAddress("FROM:", from).Local? && ParseAddress("TO:", to).Local?
    ensures var h' := AnotherMessage(h, from, to, a);
            var f, t := ParseAddress("FROM:", from).mail, ParseAddress("TO:", to).mail;
            && Possible(h')
            && Run(h').deliveries == Run(h).deliveries + DeliverTo(f, Run(h).session.rcptTo + [t])
            && (Run(h').deliveries == Run(h).deliveries + DeliverTo(f, [t]) <==> Run(h).session.rcptTo == [])
  {
    hide Respond, ParseAddress, Possible, Run;
    ReachableSessionsAreGood(h);
    var s, f, t := Run(h).session, ParseAddress("FROM:", from).mail, ParseAddress("TO:", to).mail;
    var s2 := s.(state := TO, mailFrom := f);
    var s3 := s2.(state := DATA, rcptTo := s.rcptTo + [t]);
    NextMessageTurns(s, from, to, a);
    var h1 := Extended(h, Request(Rset(""), a), s.(state := FROM));
    var h2 := Extended(h1, Request(Mail(from), a), s2);
    var h3 := Extended(h2, Request(Rcpt(to), a), s3);
    var h4 := Extended(h3, Request(Data, a), s3.(state := BODY));
    RunSnoc(h4, BodyEnd(a));
    if s.rcptTo == [] {
      assert s.rcptTo + [t] == [t];
    }
  }

  lemma NextMessageTurns(s: Session, from: string, to: string, a: Answers)
    requires HasHandler(s.state) && ParseAddress("FROM:", from).Local? && ParseAddress("TO:", to).Local?
    ensures var s2 := s.(state := TO, mailFrom := ParseAddress("FROM:", from).mail);
            var s3 := s2.(state := DATA, rcptTo := s.rcptTo + [ParseAddress("TO:", to).mail]);
            && Respond(s, Rset(""), a).session == s.(state := FROM)
            && Respond(s.(state := FROM), Mail(from), a).session == s2
            && Respond(s2, Rcpt(to), a).session == s3
            && Respond(s3, Data, a).session == s3.(state := BODY)
  {
    hide ParseAddress;
  }

  /** One more request, with the session it leads to. */
  lemma Extended(h: seq<Input>, i: Input, s: Session) returns (h': seq<Input>)
    requires Possible(h) && Next(Run(h), i) && i.Request? && !i.command.Quit?
    requires Respond(Run(h).session, i.command, i.answers).session == s
    ensures h' == h + [i] && Possible(h') && !Run(h').quit
    ensures Run(h').session == s && Run(h').deliveries == Run(h).deliveries
  {
    hide Respond;
    OnlyQuitEnds(Run(h).session, i.command, i.answers);
    RunSnoc(h, i);
    h' := h + [i];
  }

  /** An address is local without a domain, or in the domain "local". */
  lemma LocalDomains(user: string, domain: string)
    requires '@' !in user
    ensures LocalAddress(user)
    ensures LocalAddress(user + "@" + domain) <==> domain == "local"
  {
    var mail := user + "@" + domain;
    var at := StrChr(mail, '@');
    assert mail[|user|] == '@';
    assert at == |user| by {
      assert forall i :: 0 <= i < |user| ==> mail[i] == user[i];
    }
    assert mail[at + 1..] == domain;
  }

  /** ParseAddress recognises exactly the prefix, in any case, and a bracketed text of less than 255 characters. */
  lemma ParsesExactly(prefix: string, p: string, mail: string)
    requires SameIgnoringCase(p, prefix) && |mail| < 255
    ensures ParseAddress(prefix, p + "<" + mail + ">") == if LocalAddress(mail) then Local(mail) else Foreign(mail)
  {
    var arg := p + "<" + mail + ">";
    assert arg[..|prefix|] == p && arg[|prefix|..] == "<" + mail + ">";
    var r := ExtractEmail(arg[|prefix|..]);
    assert r.Some?;
    assert ("<" + mail + ">")[1..|mail| + 1] == mail;
    assert ("<" + r.value + ">")[1..|r.value| + 1] == r.value;
  }

  lemma MalformedExactly(prefix: string, arg: string)
    ensures ParseAddress(prefix, arg) == Malformed
            <==> forall p: string, mail: string :: SameIgnoringCase(p, prefix) && |mail| < 255 ==>
                 arg != p + "<" + mail + ">"
  {
    var r := ParseAddress(prefix, arg);
    if !r.Malformed? {
      var p := arg[..|prefix|];
      assert arg == p + arg[|prefix|..] == p + ("<" + r.mail + ">");
      assert p + ("<" + r.mail + ">") == p + "<" + r.mail + ">";
      assert |r.mail| < 255 by {
        var e := ExtractEmail(arg[|prefix|..]);
        assert ("<" + r.mail + ">")[1..|r.mail| + 1] == r.mail;
      }
    }
    if p: string, mail: string :| SameIgnoringCase(p, prefix) && |mail| < 255 && arg == p + "<" + mail + ">" {
      ParsesExactly(prefix, p, mail);
    }
  }

  lemma ParsesBracketed(prefix: string, mail: string)
    requires LocalAddress(mail) && |mail| < 255
    ensures ParseAddress(prefix, prefix + "<" + mail + ">") == Local(mail)
  {
    var arg := prefix + "<" + mail + ">";
    assert arg[..|prefix|] == prefix && arg[|prefix|..] == "<" + mail + ">";
    var r := ExtractEmail(arg[|prefix|..]);
    assert r.Some?;
    assert ("<" + mail + ">")[1..|mail| + 1] == mail;
    assert ("<" + r.value + ">")[1..|r.value| + 1] == r.value;
  }
}
