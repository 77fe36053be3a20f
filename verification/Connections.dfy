/** smtp.c: one client connection driven by the selector's events, as a transition system on values.
    The client socket and the spool file share one state machine. */
module Connections {
  import opened Buffers
  import opened CStrings
  import opened LineSyntax
  import opened RequestParsers
  import opened Dialogue
  import opened Spools
  import opened Wrappers
  import BodySyntax

  /** socket_state */
  datatype Socket = ReqRead | ReqWrite | ReqData | ReqAdmin | ReqDataWrite | ReqDone | ReqError

  /** Which states of states_handlers have on_read_ready. */
  predicate OnRead(s: Socket) {
    s.ReqRead? || s.ReqData? || s.ReqAdmin?
  }

  /** Which states of states_handlers have on_write_ready. */
  predicate OnWrite(s: Socket) {
    s.ReqWrite? || s.ReqDataWrite?
  }

  /** OP_NOOP, OP_READ, OP_WRITE */
  datatype Interest = Idle | Reading | Writing

  /** `Aborted` is a call of abort(); `Undefined` is a store outside an array. */
  datatype Status = Open | Closed | Aborted | Undefined

  /** What the parsers have taken in: bytes of the stream, and the ends of the fills of a message body. */
  datatype Token = Byte(c: char) | Flush

  /** The smtp_data of one client with the interests of its descriptors. The last fields are the history. */
  datatype Conn = Conn(
    status: Status,
    current: Option<Socket>,
    session: Session,
    parser: Parser,
    input: string,
    output: Queue,
    client: Interest,
    files: map<int, Interest>,
    outputFd: int,
    received: string,
    sent: string,
    log: seq<Token>,
    history: seq<Input>,
    registered: seq<Delivery>,
    spool: Spool)

  /** What select reports, with the results of the system calls made while handling it. `sent` is what send returns,
      `file` is the descriptor that a spool file would get, and `stale` is the value an uninitialised `ret` holds. */
  datatype Event =
    | ClientWritable(sent: int, stale: nat, file: int)
    | ClientReadable(bytes: string)
    | FileWritable(fd: int, ok: bool, file: int)

  /** The answers that the rest of the process gives to the k-th processed request. */
  type Env = nat -> Answers

  const BUFFER_SIZE := 4096
  const GREETING := "220 local ESMTP Postfix (Ubuntu)\n"

  /** smtp_passive_accept */
  const ACCEPTED :=
    Conn(Open, None, Dialogue.START, LineParser(INIT), "", Queue(GREETING, 0), Writing, map[], 0,
         "", "", [], [], [], EMPTY)

  function Bytes(s: string): seq<Token> {
    seq(|s|, i requires 0 <= i < |s| => Byte(s[i]))
  }

  /** smtp_done */
  function Finish(s: Conn): Conn {
    s.(status := Closed, client := Idle)
  }

  /** The range check of request_write_handler. */
  predicate IsAdmin(s: SmtpState) {
    s.XAUTH? || s.XFROM? || s.XGET? || s.XTRAN? || s.XQUIT?
  }

  /** Where a fully sent reply leads. */
  function AfterReply(s: SmtpState): Socket {
    if s.BODY? then ReqData else if IsAdmin(s) then ReqAdmin else ReqRead
  }

  /** jump with the on_arrival callback of the new state. */
  function Jump(s: Conn, next: Socket, file: int): Conn {
    var t := s.(current := Some(next));
    if s.current == Some(next) then s
    else match next
      case ReqRead => t.(parser := LineParser(INIT))
      case ReqAdmin => t.(parser := LineParser(INIT))
      case ReqData =>
        t.(parser := BodyParser(BodySyntax.START), outputFd := file, files := s.files[file := Idle],
           spool := Started(s.spool, s.session.mailFrom, s.session.rcptTo))
      case _ => t
  }

  /** request_process followed by the jump to the state it returns. The reply is copied into an array of its own and
      then behind the pending bytes without looking at the space. */
  function Settle(s: Conn, i: Input): Conn
    requires HasHandler(s.session.state)
  {
    var t := Respond(s.session, if i.Request? then i.command else Unknown, i.answers);
    var u := s.(session := t.session, history := s.history + [i]);
    if t.quit then Finish(u.(current := Some(ReqDone)))
    else if !HasRoom(s.output, Render(t.reply)) then u.(status := Undefined)
    else u.(output := s.output.(pending := s.output.pending + Render(t.reply)), current := Some(ReqWrite))
  }

  predicate HasRoom(output: Queue, reply: string) {
    |reply| < RESPONSE_SIZE && |reply| <= output.Space(BUFFER_SIZE)
  }

  function KindOf(s: Socket): Kind {
    if s.ReqAdmin? then Admin else Command
  }

  /** request_actual_read in REQUEST_READ and REQUEST_ADMIN */
  function ReadLine(env: Env, s: Conn): Conn
    requires s.current.Some? && s.parser.LineParser? && HasHandler(s.session.state)
  {
    var kind, p := KindOf(s.current.value), s.parser.parse;
    var n := ConsumeLength(kind, p, s.input);
    var q := FeedAll(kind, p, s.input[..n]);
    var t := s.(parser := LineParser(q), input := s.input[n..], log := s.log + Bytes(s.input[..n]));
    if IsDone(q.phase) then
      Settle(t.(client := Writing), Request(Classify(CStr(q.verb), CStr(q.arg)), env(|s.history|)))
    else t
  }

  /** request_actual_read in REQUEST_DATA: one fill of the body is to go to the spool file. */
  function ReadBody(s: Conn): Conn
    requires s.parser.BodyParser?
  {
    var n := BodySyntax.ConsumeLength(s.parser.body, s.input);
    var q := BodySyntax.FeedAll(s.parser.body, s.input[..n]);
    var t := s.(parser := BodyParser(q), input := s.input[n..], log := s.log + Bytes(s.input[..n]));
    if q.phase.Fault? then t.(status := Undefined)
    else t.(client := Idle, files := s.files[s.outputFd := Writing], current := Some(ReqDataWrite))
  }

  /** The parser of a reading state, and a handler for the dialogue's state. */
  predicate Prepared(s: Conn) {
    && s.current.Some? && HasHandler(s.session.state)
    && (s.current.value.ReqRead? || s.current.value.ReqAdmin? ==> s.parser.LineParser?)
    && (s.current.value.ReqData? ==> s.parser.BodyParser? && !IsDone(s.parser.Phase()))
  }

  /** read_handler: bytes left over from the last recv are parsed before more are received. */
  function ReadHandler(env: Env, s: Conn, bytes: string): Conn
    requires Prepared(s)
  {
    var current := s.current.value;
    if !OnRead(current) then s.(status := Aborted)
    else if s.input == "" && bytes == "" then Finish(s.(current := Some(ReqError)))
    else
      var t := if s.input == "" then s.(input := bytes, received := s.received + bytes) else s;
      if current.ReqData? then ReadBody(t) else ReadLine(env, t)
  }

  /** The number of a state in the table of states. */
  function Id(s: Socket): nat {
    match s
    case ReqRead => 0
    case ReqWrite => 1
    case ReqData => 2
    case ReqAdmin => 3
    case ReqDataWrite => 4
    case ReqDone => 5
    case ReqError => 6
  }

  /** The state with a number of the table. */
  function StateOf(id: nat): (s: Socket)
    requires id <= 6
    ensures Id(s) == id
  {
    if id == 0 then ReqRead else if id == 1 then ReqWrite else if id == 2 then ReqData else if id == 3 then ReqAdmin
    else if id == 4 then ReqDataWrite else if id == 5 then ReqDone else ReqError
  }

  /** The jump to what request_write_handler returned, and the rest of write_handler: an end state ends the connection,
      and bytes of the next request or body that are already there are read at once. */
  function Returned(env: Env, s: Conn, next: Socket, file: int): Conn
    requires HasHandler(s.session.state) && s.current == Some(ReqWrite)
  {
    var t := Jump(s, next, file);
    if next.ReqDone? || next.ReqError? then Finish(t)
    else if (next.ReqRead? || next.ReqData?) && t.input != "" then ReadHandler(env, t, "")
    else t
  }

  /** An incomplete send returns a `ret` that was never assigned. */
  function PartialSend(env: Env, s: Conn, stale: nat, file: int): Conn
    requires HasHandler(s.session.state) && s.current == Some(ReqWrite)
  {
    if stale > 6 then s.(status := Aborted) else Returned(env, s, StateOf(stale), file)
  }

  /** `k` bytes have been sent. */
  function Sent(s: Conn, k: nat): Conn
    requires k <= |s.output.pending|
  {
    s.(current := Some(ReqWrite), sent := s.sent + s.output.pending[..k], output := s.output.Without(k))
  }

  /** write_handler with the callbacks of the two writing states. In REQUEST_DATA_WRITE the callback meant for the
      spool file is called for the client's socket; what `write` then returns is taken from the event as well. */
  function WriteHandler(env: Env, s: Conn, k: int, stale: nat, file: int): Conn
    requires k <= |s.output.pending| && HasHandler(s.session.state)
  {
    if s.current.Some? && !OnWrite(s.current.value) then s.(status := Aborted)
    else if s.current == Some(ReqDataWrite) then
      if k < 0 then Finish(s.(current := Some(ReqError)))
      else
        var t := Spooled(env, s.(client := Idle), file);
        if t.current == Some(ReqError) then Finish(t)
        else if t.current == Some(ReqData) && t.input != "" then ReadHandler(env, t, "")
        else t
    else if k < 0 then Finish(s.(current := Some(ReqError)))
    else
      var t := Sent(s, k);
      if t.output.pending != "" then PartialSend(env, t, stale, file)
      else Returned(env, t.(client := Reading), AfterReply(s.session.state), file)
  }

  /** write_file_handler once the text has been written: a complete body is delivered, otherwise the next fill is
      awaited. */
  function Spooled(env: Env, s: Conn, file: int): Conn
    requires HasHandler(s.session.state) && s.current == Some(ReqDataWrite)
    ensures var t := Spooled(env, s, file); t.current == Some(ReqData) ==> Prepared(t)
  {
    var t := s.(log := s.log + [Flush],
                spool := if s.outputFd in s.files then Written(s.spool, s.parser.Text()) else s.spool);
    if s.parser.Phase() == Complete then Delivered(env, t) else Jump(t.(client := Reading), ReqData, file)
  }

  /** The end of a body: every recipient gets a copy and is registered, the request is cleared and answered. A spool
      file that is not registered ends this with an error. */
  function Delivered(env: Env, s: Conn): (t: Conn)
    requires HasHandler(s.session.state) && s.current == Some(ReqDataWrite)
    ensures t.current != Some(ReqData)
  {
    var t := s.(registered := s.registered + DeliverTo(s.session.mailFrom, s.session.rcptTo),
                spool := Copied(s.spool, s.session.rcptTo), client := Writing);
    if s.outputFd !in s.files then t.(current := Some(ReqError))
    else
      Settle(t.(files := s.files - {s.outputFd}, outputFd := 0, session := Cleaned(s.session),
                parser := s.parser.WithoutRequest()),
             BodyEnd(env(|s.history|)))
  }

  /** write_file: in REQUEST_WRITE the callback meant for the client's socket is called for a file, and send fails. The
      result is not looked at, so that an error leaves the machine in REQUEST_ERROR. */
  function FileHandler(env: Env, s: Conn, fd: int, ok: bool, file: int): Conn
    requires Prepared(s)
  {
    if !OnWrite(s.current.value) then s.(status := Aborted)
    else if s.current == Some(ReqWrite) || !ok then s.(current := Some(ReqError))
    else Spooled(env, s.(files := s.files[fd := Idle]), file)
  }

  // ----- Runs

  /** Events that the selector can deliver in a state: the descriptor is registered with that interest. */
  predicate Enabled(s: Conn, e: Event) {
    && s.status.Open?
    && match e
       case ClientWritable(k, _, file) => s.client == Writing && -1 <= k <= |s.output.pending| && file !in s.files
       case ClientReadable(bytes) => s.client == Reading && |bytes| <= BUFFER_SIZE
       case FileWritable(fd, _, file) => fd in s.files && s.files[fd] == Writing && file !in s.files
  }

  function Step(env: Env, s: Conn, e: Event): Conn
    requires Enabled(s, e) && HasHandler(s.session.state)
    requires !e.ClientWritable? ==> Prepared(s)
  {
    match e
    case ClientWritable(k, stale, file) => WriteHandler(env, s, k, stale, file)
    case ClientReadable(bytes) => ReadHandler(env, s, bytes)
    case FileWritable(fd, ok, file) => FileHandler(env, s, fd, ok, file)
  }

  /** What links the socket state, the dialogue, the interests and the buffers. */
  ghost predicate Inv(s: Conn) {
    && Good(s.session)
    && |s.input| <= BUFFER_SIZE && s.output.Fits(BUFFER_SIZE)
    && BoundedParser(s.parser)
    && match s.status
       case Open => Coupled(s)
       case Closed => s.client == Idle && AllIdle(s.files)
       case _ => false
  }

  predicate BoundedParser(p: Parser) {
    p.LineParser? ==> |p.parse.verb| <= VERB_MAX && |p.parse.arg| <= ARG_MAX
  }

  ghost predicate AllIdle(files: map<int, Interest>) {
    forall f :: f in files ==> files[f] == Idle
  }

  ghost predicate Coupled(s: Conn) {
    var dialogue := s.session.state;
    match s.current
    case None => s.client == Writing && AllIdle(s.files)
    case Some(ReqWrite) => s.client == Writing && AllIdle(s.files)
    case Some(ReqRead) =>
      && s.client == Reading && AllIdle(s.files) && s.output.pending == "" && AfterReply(dialogue) == ReqRead
      && s.parser.LineParser? && !IsDone(s.parser.Phase())
    case Some(ReqAdmin) =>
      && s.client == Reading && AllIdle(s.files) && s.output.pending == "" && AfterReply(dialogue) == ReqAdmin
      && s.parser.LineParser? && !IsDone(s.parser.Phase())
    case Some(ReqData) =>
      && s.client == Reading && AllIdle(s.files) && s.output.pending == "" && dialogue == BODY
      && s.parser == BodyParser(BodySyntax.START) && s.outputFd in s.files
    case Some(ReqDataWrite) =>
      && s.client == Idle && s.output.pending == "" && dialogue == BODY
      && s.parser.BodyParser? && s.outputFd in s.files && s.files[s.outputFd] == Writing
         && AllIdle(s.files - {s.outputFd})
    case _ => false
  }

  /** A send that leaves bytes behind. */
  predicate IsPartial(s: Conn, e: Event) {
    e.ClientWritable? && (s.current == None || s.current == Some(ReqWrite)) && 0 <= e.sent < |s.output.pending|
  }

  /** A complete request, or one that is refused, lies in the read buffer, and its reply fits behind the bytes that
      have not been sent. */
  predicate NextIsAnswered(env: Env, s: Conn)
    requires HasHandler(s.session.state)
  {
    var n := ConsumeLength(Command, INIT, s.input);
    var q := FeedAll(Command, INIT, s.input[..n]);
    var t := Respond(s.session, Classify(CStr(q.verb), CStr(q.arg)), env(|s.history|));
    IsDone(q.phase) && (t.quit || HasRoom(s.output, Render(t.reply)))
  }

  /** What an incomplete send may find in `ret`: REQUEST_WRITE or an end state, or REQUEST_READ when the next request
      is answered at once. */
  predicate Harmless(env: Env, s: Conn, e: Event) {
    IsPartial(s, e) ==>
      || e.stale == 1 || e.stale == 5 || e.stale == 6
      || (e.stale == 0 && HasHandler(s.session.state) && NextIsAnswered(env, Sent(s, e.sent)))
  }

  predicate FailedWrite(e: Event) {
    e.FileWritable? && !e.ok
  }

  /** The bytes that this event would hand to a fresh body parser. */
  function BodyFill(s: Conn, e: Event): string
    requires Enabled(s, e)
  {
    match e
    case ClientReadable(bytes) =>
      if s.current != Some(ReqData) then "" else if s.input != "" then s.input else bytes
    case ClientWritable(k, stale, _) =>
      if (k == |s.output.pending| && s.session.state == BODY) || (IsPartial(s, e) && stale == 2) then s.input else ""
    case FileWritable(_, _, _) => ""
  }

  /** An opening LF "." CR makes the body parser store outside its array. */
  predicate Underflows(s: Conn, e: Event)
    requires Enabled(s, e)
  {
    "\n.\r" <= BodyFill(s, e)
  }

  lemma InvIsPrepared(s: Conn)
    requires Inv(s)
    ensures HasHandler(s.session.state)
    ensures s.status.Open? && s.client == Reading ==> Prepared(s) && OnRead(s.current.value)
    ensures s.status.Open? && s.client == Writing && s.current.Some? ==> s.current == Some(ReqWrite)
    ensures s.status.Open? && !AllIdle(s.files) ==> Prepared(s) && s.current == Some(ReqDataWrite)
  {
  }

  ghost predicate WellAnswered(env: Env) {
    forall k :: Fits(env(k))
  }

  /** A processed request keeps the invariant exactly when it ends the connection or its reply has room. */
  lemma SettleRequest(s: Conn, i: Input)
    requires Good(s.session) && s.status.Open? && i.Request?
    requires |s.input| <= BUFFER_SIZE && BoundedParser(s.parser) && s.output.Fits(BUFFER_SIZE)
    requires AllIdle(s.files) && s.client == Writing
    ensures var t := Respond(s.session, i.command, i.answers);
            Inv(Settle(s, i)) <==> t.quit || HasRoom(s.output, Render(t.reply))
  {
    TurnKeepsGood(s.session, i.command, i.answers);
    hide Respond, Render, Good;
  }

  /** The address checks see at most the characters that the argument array holds. */
  lemma ClassifiedArg(verb: string, arg: string)
    ensures var c := Classify(verb, arg); c.Mail? || c.Rcpt? ==> c.arg == arg
  {
  }

  lemma {:induction false} FeedKeepsBounds(kind: Kind, p: Parse, s: string)
    requires BoundedParser(LineParser(p))
    ensures BoundedParser(LineParser(FeedAll(kind, p, s)))
    decreases |s|
  {
    if s != "" {
      FeedKeepsBounds(kind, Feed(kind, p, s[0]), s[1..]);
    }
  }

  lemma ReadLineKeepsInv(env: Env, s: Conn)
    requires Inv(s) && s.status.Open? && WellAnswered(env)
    requires s.current == Some(ReqRead) || s.current == Some(ReqAdmin)
    ensures Inv(ReadLine(env, s))
  {
    hide Respond, Render, Classify, Settle;
    var kind, p := KindOf(s.current.value), s.parser.parse;
    var n := ConsumeLength(kind, p, s.input);
    var q := FeedAll(kind, p, s.input[..n]);
    FeedKeepsBounds(kind, p, s.input[..n]);
    if IsDone(q.phase) {
      var t := s.(parser := LineParser(q), input := s.input[n..], log := s.log + Bytes(s.input[..n]),
          client := Writing);
      var c := Classify(CStr(q.verb), CStr(q.arg));
      ClassifiedArg(CStr(q.verb), CStr(q.arg));
      assert Fits(env(|s.history|));
      ReplyFits(s.session, c, env(|s.history|));
      SettleRequest(t, Request(c, env(|s.history|)));
    }
  }

  /** A fill of the body that opens with LF "." CR is the only one that is undefined. */
  lemma FillFaults(s: string)
    ensures var n := BodySyntax.ConsumeLength(BodySyntax.START, s);
            BodySyntax.FeedAll(BodySyntax.START, s[..n]).phase.Fault? <==> "\n.\r" <= s
  {
    var n := BodySyntax.ConsumeLength(BodySyntax.START, s);
    BodySyntax.FaultsExactlyOnInitialDotLine(s[..n]);
    BodySyntax.ConsumesInitialDotLine(s);
  }

  lemma ReadBodyKeepsInv(s: Conn)
    requires Inv(s) && s.status.Open? && s.current == Some(ReqData)
    ensures if "\n.\r" <= s.input then ReadBody(s).status.Undefined? else Inv(ReadBody(s))
  {
    FillFaults(s.input);
  }

  lemma ReadBodyStatus(s: Conn)
    requires s.parser.BodyParser? && s.status.Open?
    ensures ReadBody(s).status.Open? || ReadBody(s).status.Undefined?
  {
  }

  lemma ReadHandlerKeepsInv(env: Env, s: Conn, bytes: string)
    requires Inv(s) && s.status.Open? && s.client == Reading && WellAnswered(env) && |bytes| <= BUFFER_SIZE
    ensures Prepared(s)
    ensures var t := ReadHandler(env, s, bytes);
            if s.current == Some(ReqData) && "\n.\r" <= (if s.input != "" then s.input else bytes)
            then t.status.Undefined? else Inv(t)
  {
    if s.input != "" || bytes != "" {
      var t := if s.input == "" then s.(input := bytes, received := s.received + bytes) else s;
      if s.current == Some(ReqData) {
        ReadBodyKeepsInv(t);
      } else {
        ReadLineKeepsInv(env, t);
      }
    }
  }

  /** The jump after a complete send restores the invariant before any further request is read. */
  lemma ReplySentJumps(s: Conn, file: int)
    requires Good(s.session) && s.status.Open? && s.current == Some(ReqWrite) && s.output == Queue("", 0)
    requires |s.input| <= BUFFER_SIZE && AllIdle(s.files) && BoundedParser(s.parser) && s.client == Reading
    ensures Inv(Jump(s, AfterReply(s.session.state), file))
  {
  }

  lemma ReplySentKeepsInv(env: Env, s: Conn, file: int)
    requires Good(s.session) && s.status.Open? && s.current == Some(ReqWrite) && s.output == Queue("", 0)
    requires |s.input| <= BUFFER_SIZE && AllIdle(s.files) && BoundedParser(s.parser) && s.client == Reading
    requires WellAnswered(env)
    ensures var t := Returned(env, s, AfterReply(s.session.state), file);
            if s.session.state == BODY && "\n.\r" <= s.input then t.status.Undefined? else Inv(t)
  {
    hide ReadHandler, Inv, Good, Started;
    ReplySentJumps(s, file);
    ReadHandlerKeepsInv(env, Jump(s, AfterReply(s.session.state), file), "");
  }

  /** What the seven values of an unassigned `ret`, and all others, lead to: the invariant is kept exactly by
      REQUEST_WRITE, by the end states, and by REQUEST_READ when the next request is answered at once. */
  lemma PartialSendKeepsInv(env: Env, s: Conn, stale: nat, file: int)
    requires Good(s.session) && s.status.Open? && s.current == Some(ReqWrite) && s.client == Writing
    requires s.output.pending != "" && s.output.Fits(BUFFER_SIZE)
    requires |s.input| <= BUFFER_SIZE && AllIdle(s.files) && BoundedParser(s.parser)
    ensures Inv(PartialSend(env, s, stale, file))
            <==> stale == 1 || stale == 5 || stale == 6 || (stale == 0 && NextIsAnswered(env, s))
  {
    hide Respond, Render, Classify, Settle, Good, Started, FeedAll, ConsumeLength;
    GoodIsUsable(s.session);
    if stale == 0 {
      var n := ConsumeLength(Command, INIT, s.input);
      var q := FeedAll(Command, INIT, s.input[..n]);
      FeedKeepsBounds(Command, INIT, s.input[..n]);
      NothingIsIncomplete();
      if IsDone(q.phase) {
        var t := s.(current := Some(ReqRead), parser := LineParser(q), input := s.input[n..],
                    log := s.log + Bytes(s.input[..n]));
        SettleRequest(t, Request(Classify(CStr(q.verb), CStr(q.arg)), env(|s.history|)));
        assert PartialSend(env, s, stale, file)
            == Settle(t, Request(Classify(CStr(q.verb), CStr(q.arg)), env(|s.history|)));
      }
    }
  }

  lemma GoodIsUsable(s: Session)
    requires Good(s)
    ensures HasHandler(s.state)
  {
  }

  lemma NothingIsIncomplete()
    ensures FeedAll(Command, INIT, "") == INIT && ConsumeLength(Command, INIT, "") == 0
  {
  }

  lemma WriteHandlerKeepsInv(env: Env, s: Conn, e: Event)
    requires Inv(s) && e.ClientWritable? && Enabled(s, e) && WellAnswered(env)
    ensures var t := WriteHandler(env, s, e.sent, e.stale, e.file);
            && (Inv(t) <==> Harmless(env, s, e) && !Underflows(s, e))
            && (Harmless(env, s, e) && Underflows(s, e) ==> t.status.Undefined?)
  {
    hide Returned, PartialSend, NextIsAnswered, Good;
    InvIsPrepared(s);
    if e.sent == |s.output.pending| {
      ReplySentKeepsInv(env, Sent(s, e.sent).(client := Reading), e.file);
    } else if e.sent >= 0 {
      PartialSendKeepsInv(env, Sent(s, e.sent), e.stale, e.file);
    }
  }

  lemma DeliveredKeepsInv(env: Env, s: Conn)
    requires Good(s.session) && s.session.state == BODY && s.status.Open? && s.output == Queue("", 0)
    requires |s.input| <= BUFFER_SIZE && BoundedParser(s.parser) && AllIdle(s.files)
    requires s.current == Some(ReqDataWrite) && s.outputFd in s.files
    ensures Inv(Delivered(env, s))
  {
    hide Copied, Respond;
    var t := Cleaned(s.session);
    BodyEndTurn(s.session, env(|s.history|));
    RenderedLength(OkBody);
    LocalEmpty();
  }

  lemma FileHandlerKeepsInv(env: Env, s: Conn, e: Event)
    requires Inv(s) && e.FileWritable? && Enabled(s, e) && e.ok
    ensures Prepared(s) && Inv(FileHandler(env, s, e.fd, e.ok, e.file))
  {
    hide Delivered, Written, Started, Good;
    InvIsPrepared(s);
    assert e.fd == s.outputFd by {
      assert e.fd in s.files - {s.outputFd} || e.fd == s.outputFd;
    }
    var t := s.(files := s.files[e.fd := Idle], log := s.log + [Flush], spool := Written(s.spool, s.parser.Text()));
    assert AllIdle(t.files) by {
      assert forall f :: f in t.files && f != s.outputFd ==> f in s.files - {s.outputFd};
    }
    if s.parser.Phase() == Complete {
      DeliveredKeepsInv(env, t);
    }
  }

  /** What keeps the invariant: everything but a failed write to the spool file, an incomplete send that finds a
      harmful value in `ret`, and a fill that leaves the parser's array. */
  predicate Benign(env: Env, s: Conn, e: Event)
    requires Enabled(s, e)
  {
    Harmless(env, s, e) && !FailedWrite(e) && !Underflows(s, e)
  }

  /** An enabled event keeps the invariant exactly when it is benign. */
  lemma StepKeepsInv(env: Env, s: Conn, e: Event)
    requires Inv(s) && Enabled(s, e) && WellAnswered(env)
    ensures Ready(s, e) && (Inv(Step(env, s, e)) <==> Benign(env, s, e))
    ensures Harmless(env, s, e) && Underflows(s, e) ==> Step(env, s, e).status.Undefined?
    ensures FailedWrite(e) ==> Stuck(Step(env, s, e))
  {
    hide WriteHandler, ReadHandler, Harmless, Spooled;
    InvIsPrepared(s);
    match e
    case ClientWritable(_, _, _) => WriteHandlerKeepsInv(env, s, e);
    case ClientReadable(bytes) =>
      assert Harmless(env, s, e) by { OnlySendsHarm(env, s, e); }
      ReadHandlerKeepsInv(env, s, bytes);
    case FileWritable(_, ok, _) =>
      assert Harmless(env, s, e) by { OnlySendsHarm(env, s, e); }
      if ok { FileHandlerKeepsInv(env, s, e); }
  }

  lemma OnlySendsHarm(env: Env, s: Conn, e: Event)
    ensures !e.ClientWritable? ==> Harmless(env, s, e)
  {
  }

  /** Where a harmful incomplete send leads: the engine aborts at once, or by the next event whatever it is; or the
      reply is copied outside its array; or the callback of the spool file runs while a reply is half sent. */
  lemma HarmfulSend(env: Env, s: Conn, e: Event)
    requires Inv(s) && Enabled(s, e) && WellAnswered(env) && !Harmless(env, s, e)
    ensures Ready(s, e)
    ensures var t := Step(env, s, e);
            || t.status.Aborted? || t.status.Undefined? || DeadEnd(env, t)
            || (t.current == Some(ReqDataWrite) && t.output.pending != "" && (e.stale == 2 || e.stale == 4))
    ensures Step(env, s, e).status.Aborted? <==> e.stale > 6
  {
    hide Settle, Good, Started, FeedAll, ConsumeLength;
    InvIsPrepared(s);
    if e.stale == 0 {
      HarmfulRead(env, Sent(s, e.sent), e.file);
    }
  }

  lemma HarmfulRead(env: Env, s: Conn, file: int)
    requires HasHandler(s.session.state) && s.current == Some(ReqWrite) && s.client == Writing && s.status.Open?
    requires AllIdle(s.files) && !NextIsAnswered(env, s)
    ensures var t := PartialSend(env, s, 0, file); t.status.Undefined? || DeadEnd(env, t)
  {
    hide FeedAll, ConsumeLength, Respond, Render, Classify;
    NothingIsIncomplete();
  }

  /** Every event that can still come makes the engine abort. */
  ghost predicate DeadEnd(env: Env, s: Conn) {
    && s.status.Open? && s.client == Writing && s.current.Some? && !OnWrite(s.current.value)
    && forall e :: Enabled(s, e) ==> Ready(s, e) && Step(env, s, e).status.Aborted?
  }

  // ----- Whole runs

  /** What the handlers dereference without a check. */
  predicate Ready(s: Conn, e: Event) {
    HasHandler(s.session.state) && (!e.ClientWritable? ==> Prepared(s))
  }

  /** The connection after a list of events; one that cannot be delivered is skipped. */
  function Run(env: Env, es: seq<Event>): Conn {
    if es == [] then ACCEPTED
    else
      var s, e := Run(env, es[..|es| - 1]), es[|es| - 1];
      if Enabled(s, e) && Ready(s, e) then Step(env, s, e) else s
  }

  /** Each event was enabled when it came. */
  predicate Legal(env: Env, es: seq<Event>) {
    es == [] || (Legal(env, es[..|es| - 1]) && Enabled(Run(env, es[..|es| - 1]), es[|es| - 1]))
  }

  predicate AllHarmless(env: Env, es: seq<Event>) {
    forall i :: 0 <= i < |es| ==> Harmless(env, Run(env, es[..i]), es[i])
  }

  /** A write to the spool file failed, and something happened after that. */
  ghost predicate FailedWriteBeforeLast(es: seq<Event>) {
    exists i :: 0 <= i < |es| - 1 && FailedWrite(es[i])
  }

  predicate LastUnderflows(env: Env, es: seq<Event>) {
    es != [] && Enabled(Run(env, es[..|es| - 1]), es[|es| - 1]) && Underflows(Run(env, es[..|es| - 1]), es[|es| - 1])
  }

  predicate LastFailed(es: seq<Event>) {
    es != [] && FailedWrite(es[|es| - 1])
  }

  /** The machine in REQUEST_ERROR while the spool file still waits for writing. */
  ghost predicate Stuck(s: Conn) {
    s.status.Open? && s.current == Some(ReqError) && s.client == Idle && Good(s.session)
  }

  lemma AcceptedInv()
    ensures Inv(ACCEPTED)
  {
    assert |GREETING| == 33;
    assert LocalAddress("");
  }

  /** Over all runs in which no incomplete send finds a harmful value: the engine's abort() is reached exactly when
      events go on after a failed write to the spool file; the parser's array is left exactly by a body fill that opens
      with LF "." CR; in all other runs the invariant holds at the end. */
  lemma {:induction false} RunsAreSafe(env: Env, es: seq<Event>)
    requires WellAnswered(env) && Legal(env, es) && AllHarmless(env, es)
    ensures Run(env, es).status.Aborted? <==> FailedWriteBeforeLast(es)
    ensures Run(env, es).status.Undefined? <==> LastUnderflows(env, es) && !FailedWriteBeforeLast(es)
    ensures !FailedWriteBeforeLast(es) && !LastUnderflows(env, es) ==>
              if LastFailed(es) then Stuck(Run(env, es)) else Inv(Run(env, es))
    decreases |es|
  {
    hide Step, Inv, Stuck, Underflows, Ready, Harmless, Run, AllHarmless, Legal;
    if es == [] {
      NothingHappened(env);
      AcceptedInv();
    } else {
      var g, e := es[..|es| - 1], es[|es| - 1];
      var s := Run(env, g);
      LegalPrefix(env, es);
      HarmlessPrefix(env, es);
      RunsAreSafe(env, g);
      if LastFailed(g) {
        assert FailedWrite(es[|es| - 2]);
        StuckAborts(env, s, e);
        LastStep(env, es);
      } else {
        StepKeepsInv(env, s, e);
        LastStep(env, es);
        assert forall i :: 0 <= i < |es| - 1 ==> es[i] == g[i];
      }
      StatusOfInv(Run(env, es));
    }
  }

  lemma HarmlessPrefix(env: Env, es: seq<Event>)
    requires AllHarmless(env, es) && es != []
    ensures AllHarmless(env, es[..|es| - 1]) && Harmless(env, Run(env, es[..|es| - 1]), es[|es| - 1])
  {
    hide Harmless, Run;
    var g := es[..|es| - 1];
    assert forall i :: 0 <= i < |g| ==> g[..i] == es[..i];
  }

  lemma StatusOfInv(s: Conn)
    ensures Inv(s) || Stuck(s) ==> !s.status.Aborted? && !s.status.Undefined?
  {
  }

  lemma StuckAborts(env: Env, s: Conn, e: Event)
    requires Stuck(s) && Enabled(s, e)
    ensures Ready(s, e) && Step(env, s, e).status.Aborted? && !Underflows(s, e)
  {
  }

  /** Over all runs whatsoever: the invariant holds after every event exactly when every event was benign where it
      came. */
  lemma {:induction false} InvHoldsThroughout(env: Env, es: seq<Event>)
    requires WellAnswered(env) && Legal(env, es)
    ensures (forall n :: 0 <= n <= |es| ==> Inv(Run(env, es[..n])))
            <==> (forall n :: 0 <= n < |es| ==>
                    Enabled(Run(env, es[..n]), es[n]) && Benign(env, Run(env, es[..n]), es[n]))
    decreases |es|
  {
    hide Step, Inv, Ready, Benign, Run;
    if es == [] {
      NothingHappened(env);
      AcceptedInv();
      assert es[..0] == [];
    } else {
      var g, e := es[..|es| - 1], es[|es| - 1];
      LegalPrefix(env, es);
      InvHoldsThroughout(env, g);
      assert forall n :: 0 <= n <= |g| ==> g[..n] == es[..n];
      assert es[..|es|] == es && es[..|g|] == g;
      if Inv(Run(env, g)) {
        StepKeepsInv(env, Run(env, g), e);
        LastStep(env, es);
      }
    }
  }

  lemma LegalPrefix(env: Env, es: seq<Event>)
    requires Legal(env, es) && es != []
    ensures Legal(env, es[..|es| - 1]) && Enabled(Run(env, es[..|es| - 1]), es[|es| - 1])
  {
  }

  lemma LastStep(env: Env, es: seq<Event>)
    requires es != [] && Enabled(Run(env, es[..|es| - 1]), es[|es| - 1])
             && Ready(Run(env, es[..|es| - 1]), es[|es| - 1])
    ensures Run(env, es) == Step(env, Run(env, es[..|es| - 1]), es[|es| - 1])
  {
  }

  /** A run without an event after a failed write and without an underflowing fill. */
  ghost predicate Regular(env: Env, es: seq<Event>) {
    && WellAnswered(env) && Legal(env, es) && AllHarmless(env, es)
    && !FailedWriteBeforeLast(es) && !LastUnderflows(env, es)
  }

  lemma FailureIsLast(es: seq<Event>)
    requires es != [] && !FailedWriteBeforeLast(es)
    ensures !LastFailed(es[..|es| - 1])
  {
    assert forall i :: 0 <= i < |es| - 1 ==> !FailedWrite(es[i]);
  }

  lemma NothingHappened(env: Env)
    ensures Run(env, []) == ACCEPTED
  {
  }

  /** A regular run finds the invariant before each of its events. */
  lemma {:induction false} RegularSteps(env: Env, es: seq<Event>, n: nat)
    requires Regular(env, es) && n < |es|
    ensures var s := Run(env, es[..n]);
            && Inv(s) && s.status.Open? && Enabled(s, es[n]) && Harmless(env, s, es[n]) && !Underflows(s, es[n])
            && Ready(s, es[n]) && Run(env, es[..n + 1]) == Step(env, s, es[n])
    decreases |es|
  {
    hide Step, Inv, Stuck, Underflows, Ready, Harmless;
    var g, e := es[..|es| - 1], es[|es| - 1];
    HarmlessPrefix(env, es);
    RunsAreSafe(env, g);
    FailureIsLast(es);
    assert forall i :: 0 <= i < |es| - 1 ==> es[i] == g[i];
    if n == |es| - 1 {
      assert es[..n] == g && es[..n + 1] == es;
      StepKeepsInv(env, Run(env, g), e);
    } else {
      RegularSteps(env, g, n);
      assert g[..n] == es[..n] && g[..n + 1] == es[..n + 1];
    }
  }

  /** An incomplete send keeps the invariant exactly when the unassigned `ret` happens to hold REQUEST_WRITE or one of
      the two end states, or REQUEST_READ while the next request lies in the read buffer and its reply fits. */
  lemma PartialSendIsFragile(env: Env, s: Conn, e: Event)
    requires Inv(s) && Enabled(s, e) && IsPartial(s, e)
    ensures HasHandler(s.session.state)
    ensures Inv(WriteHandler(env, s, e.sent, e.stale, e.file))
            <==> e.stale == 1 || e.stale == 5 || e.stale == 6 || (e.stale == 0 && NextIsAnswered(env, Sent(s, e.sent)))
  {
    hide PartialSend, NextIsAnswered, Good;
    InvIsPrepared(s);
    PartialSendKeepsInv(env, Sent(s, e.sent), e.stale, e.file);
  }

  /** What select can report is always answered by a handler: the interests, the socket state and the dialogue
      never disagree, the write buffer is empty whenever a request can be processed, and a closed connection has
      no interest left that could reach its freed data. */
  lemma InterestsMatchStates(env: Env, es: seq<Event>, fd: int)
    requires Regular(env, es) && !LastFailed(es)
    ensures var s := Run(env, es);
            var dialogue := s.session.state;
            && !s.status.Aborted?
            && (s.client == Reading ==> s.current.Some? && OnRead(s.current.value) && s.output.pending == "")
            && (s.client == Writing ==> s.current == None || s.current == Some(ReqWrite))
            && (fd in s.files && s.files[fd] == Writing ==>
                  s.current == Some(ReqDataWrite) && fd == s.outputFd && s.output.pending == "")
            && (s.status.Closed? ==> s.client == Idle && AllIdle(s.files))
            && (s.status.Open? && s.current.Some? && !s.current.value.ReqWrite? ==>
                  && (s.current.value.ReqData? || s.current.value.ReqDataWrite? <==> dialogue == BODY)
                  && (s.current.value.ReqAdmin? <==> dialogue == XFROM || dialogue == XGET))
            && |s.input| <= BUFFER_SIZE && s.output.Fits(BUFFER_SIZE)
  {
    RunsAreSafe(env, es);
    var s := Run(env, es);
    if fd in s.files && fd != s.outputFd {
      assert fd in s.files - {s.outputFd};
    }
  }

  // ----- Sizes

  /** When a reply has room, in numbers: an array of 1024 characters with its NUL, and the rest of a buffer of 4096. */
  lemma RoomExactly(output: Queue, reply: string)
    ensures HasRoom(output, reply) <==> |reply| < 1024 && output.offset + |output.pending| + |reply| <= 4096
  {
  }

  lemma GreetingIsReady()
    ensures |GREETING| <= 4096 && GREETING[..4] == "220 " && GREETING[|GREETING| - 1] == '\n'
  {
  }

  // ----- When a connection ends

  /** The events that end a connection by themselves: the end of the client's bytes when none is left to parse, a
      failed send, and an incomplete send that finds an end state in `ret`. */
  predicate EndsBy(s: Conn, e: Event) {
    match e
    case ClientReadable(bytes) => bytes == "" && s.input == ""
    case ClientWritable(k, stale, _) => k < 0 || (k < |s.output.pending| && (stale == 5 || stale == 6))
    case FileWritable(_, _, _) => false
  }

  /** The last request that was processed is a QUIT. */
  predicate QuitHeard(h: seq<Input>) {
    h != [] && h[|h| - 1].Request? && h[|h| - 1].command.Quit?
  }

  /** A closed connection has no interest left; an open one goes on. */
  ghost predicate Ended(t: Conn, ends: bool) {
    (t.status.Closed? <==> ends) && (t.status.Closed? ==> t.client == Idle)
  }

  lemma SettleEnds(s: Conn, i: Input)
    requires HasHandler(s.session.state) && s.status.Open?
    ensures var t := Settle(s, i);
            t.history == s.history + [i] && Ended(t, i.Request? && i.command.Quit?)
  {
    hide Render;
    OnlyQuitEnds(s.session, if i.Request? then i.command else Unknown, i.answers);
  }

  lemma ReadLineEnds(env: Env, s: Conn)
    requires s.current.Some? && s.parser.LineParser? && HasHandler(s.session.state) && s.status.Open?
    requires !QuitHeard(s.history)
    ensures Ended(ReadLine(env, s), QuitHeard(ReadLine(env, s).history))
  {
    hide Settle, Classify, FeedAll, ConsumeLength;
    var kind, p := KindOf(s.current.value), s.parser.parse;
    var n := ConsumeLength(kind, p, s.input);
    var q := FeedAll(kind, p, s.input[..n]);
    if IsDone(q.phase) {
      var t := s.(parser := LineParser(q), input := s.input[n..], log := s.log + Bytes(s.input[..n]),
          client := Writing);
      SettleEnds(t, Request(Classify(CStr(q.verb), CStr(q.arg)), env(|s.history|)));
    }
  }

  lemma ReadHandlerEnds(env: Env, s: Conn, bytes: string)
    requires Prepared(s) && s.status.Open? && !QuitHeard(s.history) && OnRead(s.current.value)
    ensures var t := ReadHandler(env, s, bytes);
            Ended(t, (bytes == "" && s.input == "") || QuitHeard(t.history))
  {
    hide ReadLine;
    if s.input != "" || bytes != "" {
      var t := if s.input == "" then s.(input := bytes, received := s.received + bytes) else s;
      if s.current != Some(ReqData) {
        ReadLineEnds(env, t);
      }
    }
  }

  lemma ReturnedEnds(env: Env, s: Conn, next: Socket, file: int)
    requires HasHandler(s.session.state) && s.current == Some(ReqWrite) && s.status.Open? && !QuitHeard(s.history)
    ensures var t := Returned(env, s, next, file);
            Ended(t, next == ReqDone || next == ReqError || QuitHeard(t.history))
  {
    hide ReadHandler, Started;
    var t := Jump(s, next, file);
    if (next.ReqRead? || next.ReqData?) && t.input != "" {
      ReadHandlerEnds(env, t, "");
    }
  }

  lemma DeliveredEnds(env: Env, s: Conn)
    requires HasHandler(s.session.state) && s.current == Some(ReqDataWrite) && s.status.Open? && !QuitHeard(s.history)
    ensures Ended(Delivered(env, s), false) && !QuitHeard(Delivered(env, s).history)
  {
    hide Settle, Copied;
    var t := s.(registered := s.registered + DeliverTo(s.session.mailFrom, s.session.rcptTo),
                spool := Copied(s.spool, s.session.rcptTo), client := Writing);
    if s.outputFd in s.files {
      SettleEnds(t.(files := s.files - {s.outputFd}, outputFd := 0, session := Cleaned(s.session),
                    parser := s.parser.WithoutRequest()),
                 BodyEnd(env(|s.history|)));
    }
  }

  /** One event closes a connection exactly when it is one of those, or processed a QUIT. */
  lemma StepEnds(env: Env, s: Conn, e: Event)
    requires Inv(s) && Enabled(s, e) && Harmless(env, s, e) && !QuitHeard(s.history)
    ensures Ready(s, e)
    ensures var t := Step(env, s, e); Ended(t, EndsBy(s, e) || QuitHeard(t.history))
  {
    hide ReadHandler, Returned, Good, Started, Written, Delivered, NextIsAnswered;
    InvIsPrepared(s);
    match e
    case ClientReadable(bytes) => ReadHandlerEnds(env, s, bytes);
    case ClientWritable(k, stale, file) =>
      if k == |s.output.pending| {
        ReturnedEnds(env, Sent(s, k).(client := Reading), AfterReply(s.session.state), file);
      } else if k >= 0 && stale <= 6 {
        ReturnedEnds(env, Sent(s, k), StateOf(stale), file);
      }
    case FileWritable(fd, ok, file) =>
      if ok && s.parser.Phase() == Complete {
        DeliveredEnds(env, s.(files := s.files[fd := Idle], log := s.log + [Flush],
                              spool := if s.outputFd in s.files then Written(s.spool, s.parser.Text()) else s.spool));
      }
  }

  /** When connections end, over every regular run: a connection is closed exactly when its last event was the end of
      the client's bytes with nothing left to parse, a failed send or an incomplete one that found an end state, or when
      the last request was a QUIT; and then no interest is left. */
  lemma {:induction false} ClosedExactly(env: Env, es: seq<Event>)
    requires Regular(env, es)
    ensures var s := Run(env, es);
            Ended(s, (es != [] && EndsBy(Run(env, es[..|es| - 1]), es[|es| - 1])) || QuitHeard(s.history))
    decreases |es|
  {
    hide Inv, Step, Harmless, Underflows, Run, AllHarmless, Regular, EndsBy;
    if es == [] {
      NothingHappened(env);
    } else {
      var n := |es| - 1;
      RegularPrefix(env, es);
      ClosedExactly(env, es[..n]);
      RegularSteps(env, es, n);
      assert es[..n + 1] == es;
      StepEnds(env, Run(env, es[..n]), es[n]);
    }
  }

  /** When the client's bytes end, and nothing is left to parse, the connection is closed and has no interest left. */
  lemma EndOfInputCloses(env: Env, s: Conn)
    requires Inv(s) && s.status.Open? && s.client == Reading && s.input == ""
    ensures Ready(s, ClientReadable(""))
    ensures var t := Step(env, s, ClientReadable("")); t.status.Closed? && t.client == Idle && t.history == s.history
  {
    InvIsPrepared(s);
  }

  // ----- Every event gets on

  /** What a readable event does to a connection that stays open: it parses a byte at least, and all of them unless it
      hears a request or ends a fill. */
  lemma ReadingGetsOn(env: Env, s: Conn, bytes: string)
    requires Inv(s) && s.status.Open? && s.client == Reading && |bytes| <= BUFFER_SIZE && (bytes != "" || s.input != "")
    ensures Prepared(s)
    ensures var t := ReadHandler(env, s, bytes);
            && |t.log| > |s.log|
            && (t.input == "" || |t.history| == |s.history| + 1 || t.current == Some(ReqDataWrite)
               || t.status.Undefined?)
            && t.received == (if s.input == "" then s.received + bytes else s.received)
  {
    hide Respond, Render, Classify, Good;
    InvIsPrepared(s);
    var t := if s.input == "" then s.(input := bytes, received := s.received + bytes) else s;
    if s.current == Some(ReqData) {
      FillTakesBytes(t.input);
    } else {
      LineTakesBytes(KindOf(s.current.value), t.parser.parse, t.input);
    }
  }

  lemma FillTakesBytes(s: string)
    requires s != ""
    ensures BodySyntax.ConsumeLength(BodySyntax.START, s) > 0
  {
  }

  lemma LineTakesBytes(kind: Kind, p: Parse, s: string)
    requires s != "" && !IsDone(p.phase)
    ensures ConsumeLength(kind, p, s) > 0
  {
  }

  // ----- Bytes that wait

  /** Bytes left behind a fill lie behind its end or its failure. */
  predicate FillIsOver(s: Conn) {
    s.status.Open? && s.input != "" && s.current == Some(ReqDataWrite) ==>
      s.parser.Phase() == Complete || s.parser.Phase() == Failed
  }

  /** Received bytes wait for further ones only in REQUEST_ADMIN, or in REQUEST_DATA behind a fill that failed. */
  predicate Attended(s: Conn, fillFailed: bool) {
    s.status.Open? && s.client == Reading && s.input != "" ==>
      s.current == Some(ReqAdmin) || (fillFailed && s.current == Some(ReqData))
  }

  lemma ReadLineAttends(env: Env, s: Conn)
    requires s.current.Some? && s.parser.LineParser? && HasHandler(s.session.state)
    requires s.current == Some(ReqRead) || s.current == Some(ReqAdmin)
    ensures FillIsOver(ReadLine(env, s)) && Attended(ReadLine(env, s), false)
  {
    hide Respond, Render, Classify, FeedAll;
  }

  /** What fits the array of a fresh body parser is consumed up to its end or its failure. */
  lemma {:induction false} FittingFillIsRead(p: BodySyntax.Body, s: string)
    requires |p.stored| + |s| <= BodySyntax.DATA_MAX && !IsDone(p.phase)
    ensures var n := BodySyntax.ConsumeLength(p, s);
            n == |s| || IsDone(BodySyntax.FeedAll(p, s[..n]).phase)
    decreases |s|
  {
    if s != "" {
      var q := BodySyntax.Feed(p, s[0]);
      var n := BodySyntax.ConsumeLength(p, s);
      assert |q.stored| <= |p.stored| + 1;
      assert s[..n][0] == s[0] && s[..n][1..] == s[1..][..n - 1];
      if IsDone(q.phase) {
        assert s[..n][1..] == "" && BodySyntax.FeedAll(p, s[..n]) == BodySyntax.FeedAll(q, "");
      } else {
        FittingFillIsRead(q, s[1..]);
      }
    }
  }

  lemma ReadBodyAttends(s: Conn)
    requires s.parser == BodyParser(BodySyntax.START) && |s.input| <= BUFFER_SIZE
    ensures FillIsOver(ReadBody(s)) && Attended(ReadBody(s), false)
  {
    hide BodySyntax.FeedAll, BodySyntax.ConsumeLength;
    FittingFillIsRead(BodySyntax.START, s.input);
  }

  lemma ReadHandlerAttends(env: Env, s: Conn, bytes: string)
    requires Inv(s) && s.status.Open? && s.client == Reading && |bytes| <= BUFFER_SIZE
    ensures Prepared(s)
    ensures var t := ReadHandler(env, s, bytes); FillIsOver(t) && Attended(t, false)
  {
    hide ReadLine, ReadBody, Good;
    InvIsPrepared(s);
    if s.input != "" || bytes != "" {
      var t := if s.input == "" then s.(input := bytes, received := s.received + bytes) else s;
      if s.current == Some(ReqData) {
        ReadBodyAttends(t);
      } else {
        ReadLineAttends(env, t);
      }
    }
  }

  lemma ReturnedAttends(env: Env, s: Conn, file: int)
    requires Good(s.session) && s.status.Open? && s.current == Some(ReqWrite) && s.output == Queue("", 0)
    requires |s.input| <= BUFFER_SIZE && AllIdle(s.files) && BoundedParser(s.parser) && s.client == Reading
    ensures var t := Returned(env, s, AfterReply(s.session.state), file); FillIsOver(t) && Attended(t, false)
  {
    hide ReadHandler, Inv, Good, Started;
    ReplySentJumps(s, file);
    ReadHandlerAttends(env, Jump(s, AfterReply(s.session.state), file), "");
  }

  lemma PartialSendAttends(env: Env, s: Conn, stale: nat, file: int)
    requires HasHandler(s.session.state) && s.current == Some(ReqWrite) && s.client == Writing
    requires stale == 0 || stale == 1 || stale == 5 || stale == 6
    ensures var t := PartialSend(env, s, stale, file); FillIsOver(t) && Attended(t, false)
  {
    hide ReadLine;
    if stale == 0 {
      ReadLineAttends(env, Jump(s, ReqRead, file));
    }
  }

  /** One event: what is read from the client next is attended to at once, but for the two exceptions. */
  lemma StepAttends(env: Env, s: Conn, e: Event)
    requires Inv(s) && FillIsOver(s) && Enabled(s, e) && Harmless(env, s, e)
    ensures Ready(s, e)
    ensures var t := Step(env, s, e);
            FillIsOver(t) && Attended(t, e.FileWritable? && s.parser.Phase() == Failed)
  {
    hide ReadHandler, Returned, PartialSend, Good, Started, Written, Delivered, NextIsAnswered;
    InvIsPrepared(s);
    match e
    case ClientReadable(bytes) => ReadHandlerAttends(env, s, bytes);
    case ClientWritable(k, stale, file) =>
      if k == |s.output.pending| {
        ReturnedAttends(env, Sent(s, k).(client := Reading), file);
      } else if k >= 0 {
        PartialSendAttends(env, Sent(s, k), stale, file);
      }
    case FileWritable(fd, ok, file) =>
      if ok && s.parser.Phase() == Complete {
        DeliveredWrites(env, s.(files := s.files[fd := Idle], log := s.log + [Flush],
                                spool := if s.outputFd in s.files then Written(s.spool, s.parser.Text()) else s.spool));
      }
  }

  lemma DeliveredWrites(env: Env, s: Conn)
    requires HasHandler(s.session.state) && s.current == Some(ReqDataWrite) && s.outputFd in s.files
             && s.session.state == BODY
    ensures var t := Delivered(env, s);
            t.client != Reading && (t.current == Some(ReqDataWrite) ==> t.status.Undefined?)
  {
    hide Respond, Render, Copied;
    BodyEndTurn(s.session, env(|s.history|));
  }

  lemma RegularPrefix(env: Env, es: seq<Event>)
    requires Regular(env, es) && es != []
    ensures Regular(env, es[..|es| - 1]) && !LastFailed(es[..|es| - 1])
  {
    hide Inv, Stuck, Underflows, Harmless, Run, AllHarmless, Legal;
    var g := es[..|es| - 1];
    LegalPrefix(env, es);
    HarmlessPrefix(env, es);
    RunsAreSafe(env, g);
    FailureIsLast(es);
    assert forall i :: 0 <= i < |es| - 1 ==> es[i] == g[i];
  }

  /** When received bytes wait for further ones, over every regular run: never in front of a command of the mail
      dialogue; only in REQUEST_ADMIN, which write_handler does not go on to read, and in REQUEST_DATA directly after a
      fill that failed. */
  lemma {:induction false} WaitingBytes(env: Env, es: seq<Event>)
    requires Regular(env, es)
    ensures var s := Run(env, es);
            && FillIsOver(s)
            && (s.status.Open? && s.client == Reading && s.input != "" ==>
                  || s.current == Some(ReqAdmin)
                  || (s.current == Some(ReqData) && es != [] && es[|es| - 1].FileWritable?
                      && Run(env, es[..|es| - 1]).parser.Phase() == Failed))
    decreases |es|
  {
    hide Inv, Step, Harmless, Underflows, Run, AllHarmless, Regular;
    if es == [] {
      NothingHappened(env);
    } else {
      var n := |es| - 1;
      RegularPrefix(env, es);
      WaitingBytes(env, es[..n]);
      RegularSteps(env, es, n);
      assert es[..n + 1] == es;
      StepAttends(env, Run(env, es[..n]), es[n]);
    }
  }

  /** A harmful send is possible from the start: one byte of the greeting is taken, and `ret` happens to hold 4. */
  lemma HarmIsReachable(env: Env)
    ensures var e := ClientWritable(1, 4, 7);
            Legal(env, [e]) && !Harmless(env, ACCEPTED, e) && !Inv(Run(env, [e]))
  {
    hide Run, Inv, Harmless, WriteHandler;
    var e := ClientWritable(1, 4, 7);
    assert [e][..|[e]| - 1] == [] && Legal(env, []);
    NothingHappened(env);
    AcceptedInv();
    assert |GREETING| == 33;
    PartialSendIsFragile(env, ACCEPTED, e);
    FourIsHarmful(env, ACCEPTED, e);
    LastStep(env, [e]);
  }

  lemma FourIsHarmful(env: Env, s: Conn, e: Event)
    requires IsPartial(s, e) && e.stale == 4
    ensures !Harmless(env, s, e)
  {
  }

  // ----- Runs of any kind

  /** What even runs that have lost the invariant keep: the parsers and handlers that the callbacks use are there. */
  ghost predicate Sane(s: Conn) {
    s.status.Open? ==>
      && Usable(s.session.state) && |s.input| <= BUFFER_SIZE && s.output.Fits(BUFFER_SIZE)
      && (s.current == None ==> s.client == Writing && AllIdle(s.files))
      && (s.current.Some? ==> Prepared(s))
  }

  lemma UsableTurn(s: Session, c: Command, a: Answers)
    requires Usable(s.state)
    ensures Usable(Respond(s, c, a).session.state)
  {
    hide ParseAddress;
  }

  lemma SettleSane(s: Conn, i: Input)
    requires s.status.Open? && Usable(s.session.state) && |s.input| <= BUFFER_SIZE && s.output.Fits(BUFFER_SIZE)
    ensures Sane(Settle(s, i))
  {
    hide Respond, Render;
    UsableTurn(s.session, if i.Request? then i.command else Unknown, i.answers);
  }

  lemma ReadHandlerSane(env: Env, s: Conn, bytes: string)
    requires Sane(s) && s.status.Open? && s.current.Some? && |bytes| <= BUFFER_SIZE
    ensures Sane(ReadHandler(env, s, bytes))
  {
    hide Settle, Classify, FeedAll, ConsumeLength, BodySyntax.FeedAll, BodySyntax.ConsumeLength;
    if s.input != "" || bytes != "" {
      var t := if s.input == "" then s.(input := bytes, received := s.received + bytes) else s;
      if t.current == Some(ReqRead) || t.current == Some(ReqAdmin) {
        var kind, p := KindOf(t.current.value), t.parser.parse;
        var n := ConsumeLength(kind, p, t.input);
        var q := FeedAll(kind, p, t.input[..n]);
        var u := t.(parser := LineParser(q), input := t.input[n..], log := t.log + Bytes(t.input[..n]),
            client := Writing);
        SettleSane(u, Request(Classify(CStr(q.verb), CStr(q.arg)), env(|t.history|)));
      }
    }
  }

  lemma JumpSane(s: Conn, next: Socket, file: int)
    requires Sane(s) && s.status.Open? && s.current.Some?
    ensures Sane(Jump(s, next, file))
  {
    hide Started;
  }

  lemma ReturnedSane(env: Env, s: Conn, next: Socket, file: int)
    requires Sane(s) && s.status.Open? && s.current == Some(ReqWrite)
    ensures Sane(Returned(env, s, next, file))
  {
    hide ReadHandler, Jump;
    JumpSane(s, next, file);
    JumpLands(s, next, file);
    var t := Jump(s, next, file);
    if (next.ReqRead? || next.ReqData?) && t.input != "" {
      ReadHandlerSane(env, t, "");
    }
  }

  lemma JumpLands(s: Conn, next: Socket, file: int)
    ensures Jump(s, next, file).current == Some(next) && Jump(s, next, file).status == s.status
  {
  }

  lemma SpooledSane(env: Env, s: Conn, file: int)
    requires Sane(s) && s.status.Open? && s.current == Some(ReqDataWrite)
    ensures Sane(Spooled(env, s, file))
  {
    hide Settle, Written, Copied, Started;
    var t := s.(log := s.log + [Flush],
                spool := if s.outputFd in s.files then Written(s.spool, s.parser.Text()) else s.spool);
    if s.parser.Phase() == Complete && s.outputFd in s.files {
      SettleSane(t.(registered := t.registered + DeliverTo(s.session.mailFrom, s.session.rcptTo),
                    spool := Copied(t.spool, s.session.rcptTo), client := Writing, files := s.files - {s.outputFd},
                    outputFd := 0, session := Cleaned(s.session), parser := s.parser.WithoutRequest()),
                 BodyEnd(env(|s.history|)));
    }
  }

  lemma WriteHandlerSane(env: Env, s: Conn, k: int, stale: nat, file: int)
    requires Sane(s) && s.status.Open? && k <= |s.output.pending|
    ensures Sane(WriteHandler(env, s, k, stale, file))
  {
    hide Returned, Spooled, ReadHandler;
    if s.current == Some(ReqDataWrite) {
      if k >= 0 {
        var t := s.(client := Idle);
        SpooledSane(env, t, file);
        var u := Spooled(env, t, file);
        SpooledStatus(env, t, file);
        if u.current == Some(ReqData) && u.input != "" {
          ReadHandlerSane(env, u, "");
        }
      }
    } else if k >= 0 && (s.current == None || OnWrite(s.current.value)) {
      var t := Sent(s, k);
      if t.output.pending == "" {
        ReturnedSane(env, t.(client := Reading), AfterReply(s.session.state), file);
      } else if stale <= 6 {
        ReturnedSane(env, t, StateOf(stale), file);
      }
    }
  }

  lemma SpooledStatus(env: Env, s: Conn, file: int)
    requires HasHandler(s.session.state) && s.current == Some(ReqDataWrite) && s.status.Open?
    ensures Spooled(env, s, file).current == Some(ReqData) ==> Spooled(env, s, file).status.Open?
  {
    hide Settle, Written, Copied, Started;
  }

  /** Every event of every run finds the parser and the handler that its callback needs. */
  lemma StepSane(env: Env, s: Conn, e: Event)
    requires Sane(s) && Enabled(s, e)
    ensures Ready(s, e) && Sane(Step(env, s, e))
  {
    hide WriteHandler, ReadHandler, Spooled;
    match e
    case ClientWritable(k, stale, file) => WriteHandlerSane(env, s, k, stale, file);
    case ClientReadable(bytes) => ReadHandlerSane(env, s, bytes);
    case FileWritable(fd, ok, file) =>
      if ok && s.current == Some(ReqDataWrite) {
        SpooledSane(env, s.(files := s.files[fd := Idle]), file);
      }
  }

  lemma {:induction false} RunsAreSane(env: Env, es: seq<Event>)
    requires Legal(env, es)
    ensures Sane(Run(env, es))
    ensures forall n :: 0 <= n < |es| ==> Enabled(Run(env, es[..n]), es[n]) && Ready(Run(env, es[..n]), es[n])
    decreases |es|
  {
    hide Step, Sane, Ready, Enabled, Run;
    if es == [] {
      NothingHappened(env);
      AcceptedInv();
      AcceptedSane();
    } else {
      var g, e := es[..|es| - 1], es[|es| - 1];
      LegalPrefix(env, es);
      RunsAreSane(env, g);
      StepSane(env, Run(env, g), e);
      LastStep(env, es);
      assert forall n :: 0 <= n <= |g| ==> g[..n] == es[..n];
    }
  }

  lemma AcceptedSane()
    ensures Sane(ACCEPTED)
  {
    assert |GREETING| == 33;
  }

  /** An event asks the rest of the process at most once. */
  lemma OneAnswer(env: Env, s: Conn, e: Event)
    requires Enabled(s, e) && Ready(s, e)
    ensures Step(env, s, e) == Step(k => env(|s.history|), s, e)
  {
  }
}
