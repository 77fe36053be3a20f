/** A server without buffers, sockets or events: it lexes the consumed bytes and runs the dialogue. Every run of
    the event loop is shown to produce exactly its replies and deliveries. */
module ReferenceServer {
  import opened Buffers
  import opened CStrings
  import opened LineSyntax
  import opened RequestParsers
  import opened Dialogue
  import opened Spools
  import opened Wrappers
  import C = Connections
  import BodySyntax

  /** The requests heard, the parser at work, and the fills that were written. */
  datatype Server = Server(history: seq<Input>, parser: Parser, fills: seq<Fill>)

  const START := Server([], LineParser(INIT), [])

  function KindFor(s: SmtpState): Kind {
    if C.IsAdmin(s) then Admin else Command
  }

  /** The parser that a dialogue state starts with. */
  function ParserFor(s: SmtpState): Parser {
    if s.BODY? then BodyParser(BodySyntax.START) else LineParser(INIT)
  }

  function Hear(r: Server, i: Input): Server {
    r.(history := r.history + [i], parser := ParserFor(Dialogue.Run(r.history + [i]).session.state))
  }

  function RequestOf(q: Parse, a: Answers): Input {
    Request(Classify(CStr(q.verb), CStr(q.arg)), a)
  }

  function Take(env: C.Env, r: Server, t: C.Token): Server {
    match t
    case Byte(c) =>
      (match r.parser
       case LineParser(p) =>
         var q := Feed(KindFor(Dialogue.Run(r.history).session.state), p, c);
         if IsDone(q.phase) then Hear(r, RequestOf(q, env(|r.history|))) else r.(parser := LineParser(q))
       case BodyParser(b) => r.(parser := BodyParser(BodySyntax.Feed(b, c))))
    case Flush =>
      if r.parser.LineParser? then r
      else
        var s, done := Dialogue.Run(r.history).session, r.parser.Phase() == Complete;
        var t := r.(fills := r.fills + [Fill(s.mailFrom, s.rcptTo, r.parser.Text(), done)]);
        if done then Hear(t, BodyEnd(env(|r.history|))) else t.(parser := BodyParser(BodySyntax.START))
  }

  function TakeAll(env: C.Env, r: Server, ts: seq<C.Token>): Server
    decreases |ts|
  {
    if ts == [] then r else TakeAll(env, Take(env, r, ts[0]), ts[1..])
  }

  /** Everything a client could ever be sent for a history. */
  function Output(h: seq<Input>): string {
    C.GREETING + Concat(Rendered(Dialogue.Run(h).replies))
  }

  function Rendered(rs: seq<Reply>): seq<string> {
    seq(|rs|, i requires 0 <= i < |rs| => Render(rs[i]))
  }

  lemma {:induction false} TakeSplit(env: C.Env, r: Server, a: seq<C.Token>, b: seq<C.Token>)
    ensures TakeAll(env, r, a + b) == TakeAll(env, TakeAll(env, r, a), b)
    decreases |a|
  {
    if a == [] {
      assert a + b == b;
    } else {
      TakeSplit(env, Take(env, r, a[0]), a[1..], b);
      assert (a + b)[1..] == a[1..] + b;
    }
  }

  lemma TakeOne(env: C.Env, r: Server, t: C.Token)
    ensures TakeAll(env, r, [t]) == Take(env, r, t)
  {
    assert [t][1..] == [];
  }

  lemma BytesCons(s: string)
    requires s != ""
    ensures C.Bytes(s)[0] == C.Byte(s[0]) && C.Bytes(s)[1..] == C.Bytes(s[1..])
  {
  }

  /** Lexing what one request_consume call takes. */
  lemma {:induction false} TakeLine(env: C.Env, r: Server, s: string)
    requires r.parser.LineParser? && !IsDone(r.parser.Phase())
    ensures var kind := KindFor(Dialogue.Run(r.history).session.state);
            var n := ConsumeLength(kind, r.parser.parse, s);
            var q := FeedAll(kind, r.parser.parse, s[..n]);
            TakeAll(env, r, C.Bytes(s[..n]))
            == if IsDone(q.phase) then Hear(r, RequestOf(q, env(|r.history|))) else r.(parser := LineParser(q))
    decreases |s|
  {
    var kind := KindFor(Dialogue.Run(r.history).session.state);
    var n := ConsumeLength(kind, r.parser.parse, s);
    if s != "" {
      var q := Feed(kind, r.parser.parse, s[0]);
      assert s[..n][0] == s[0] && s[..n][1..] == s[1..][..n - 1];
      BytesCons(s[..n]);
      if IsDone(q.phase) {
        assert ConsumeLength(kind, q, s[1..]) == 0 && s[..n][1..] == "";
      } else {
        TakeLine(env, r.(parser := LineParser(q)), s[1..]);
      }
    }
  }

  /** Lexing any part of a body. */
  lemma {:induction false} TakeBody(env: C.Env, r: Server, s: string)
    requires r.parser.BodyParser?
    ensures TakeAll(env, r, C.Bytes(s)) == r.(parser := BodyParser(BodySyntax.FeedAll(r.parser.body, s)))
    decreases |s|
  {
    if s != "" {
      BytesCons(s);
      TakeBody(env, Take(env, r, C.Byte(s[0])), s[1..]);
    }
  }

  // ----- The simulation

  /** The bytes among the tokens. */
  function Text(ts: seq<C.Token>): string {
    if ts == [] then ""
    else Text(ts[..|ts| - 1]) + if ts[|ts| - 1].Byte? then [ts[|ts| - 1].c] else ""
  }

  lemma {:induction false} TextSplit(a: seq<C.Token>, s: string)
    ensures Text(a + C.Bytes(s)) == Text(a) + s
    decreases |s|
  {
    var b := C.Bytes(s);
    if s == "" {
      assert a + b == a;
    } else {
      var v := s[..|s| - 1];
      TextSplit(a, v);
      assert (a + b)[..|a + b| - 1] == a + C.Bytes(v);
      assert s == v + [s[|s| - 1]];
    }
  }

  lemma TextFlush(a: seq<C.Token>)
    ensures Text(a + [C.Flush]) == Text(a)
  {
    assert (a + [C.Flush])[..|a|] == a;
  }

  /** Bytes received are those consumed and those still buffered. */
  ghost predicate Balances(s: C.Conn) {
    Text(s.log) + s.input == s.received
  }

  /** Session, deliveries and output are those of the dialogue over the history. */
  ghost predicate Talks(s: C.Conn) {
    var o := Dialogue.Run(s.history);
    && Possible(s.history)
    && s.session == o.session
    && s.registered == o.deliveries
    && s.sent + s.output.pending == Output(s.history)
    && (s.status.Open? ==> !o.quit)
  }

  /** The deliveries of the fills that ended a body. */
  function Delivered(fills: seq<Fill>): seq<Delivery> {
    if fills == [] then []
    else
      var f := fills[|fills| - 1];
      Delivered(fills[..|fills| - 1]) + if f.last then DeliverTo(f.from, f.rcpts) else []
  }

  lemma DeliveredSnoc(fills: seq<Fill>, f: Fill)
    ensures Delivered(fills + [f]) == Delivered(fills) + if f.last then DeliverTo(f.from, f.rcpts) else []
  {
    assert (fills + [f])[..|fills|] == fills;
  }

  /** The files are those of the fills, with one more header while a body is read; and what was delivered is what the
      complete bodies were for. */
  ghost predicate Files(s: C.Conn, fills: seq<Fill>) {
    var closed := Stored(fills);
    var open := Started(closed, s.session.mailFrom, s.session.rcptTo);
    && s.registered == Delivered(fills)
    && (s.spool == closed || s.spool == open)
    && (s.status.Open? ==>
          && (s.current == Some(C.ReqData) || s.current == Some(C.ReqDataWrite) ==> s.spool == open)
          && (s.current == None || s.current.value in {C.ReqWrite, C.ReqRead, C.ReqAdmin} ==> s.spool == closed))
  }

  /** The history is the lexing of the consumed bytes, and so are the files. */
  ghost predicate Lexes(env: C.Env, s: C.Conn) {
    var r := TakeAll(env, START, s.log);
    && s.history == r.history && Files(s, r.fills)
    && (s.status.Open? ==>
          r.parser == if s.current == None || s.current == Some(C.ReqWrite) then ParserFor(s.session.state)
              else s.parser)
  }

  ghost predicate Simulates(env: C.Env, s: C.Conn) {
    Balances(s) && Talks(s) && Lexes(env, s)
  }

  lemma RenderedSnoc(rs: seq<Reply>, r: Reply)
    ensures Concat(Rendered(rs + [r])) == Concat(Rendered(rs)) + Render(r)
  {
    assert Rendered(rs + [r]) == Rendered(rs) + [Render(r)];
    ConcatSnoc(Rendered(rs), Render(r));
  }

  /** What a turn does to the dialogue's outcome. */
  lemma TurnOutcome(h: seq<Input>, i: Input, t: Turn)
    requires Next(Dialogue.Run(h), i)
    requires t == Respond(if i.BodyEnd? then Cleaned(Dialogue.Run(h).session) else Dialogue.Run(h).session,
                          if i.BodyEnd? then Unknown else i.command, i.answers)
    ensures var o, o' := Dialogue.Run(h), Dialogue.Run(h + [i]);
            && o'.session == t.session && o'.quit == t.quit
            && o'.replies == (if t.quit then o.replies else o.replies + [t.reply])
            && o'.deliveries == o.deliveries + (if i.BodyEnd? then DeliverTo(o.session.mailFrom, o.session.rcptTo)
               else [])
            && (Possible(h) ==> Possible(h + [i]))
  {
    hide Respond;
    RunSnoc(h, i);
    OnlyQuitEnds(if i.BodyEnd? then Cleaned(Dialogue.Run(h).session) else Dialogue.Run(h).session,
                 if i.BodyEnd? then Unknown else i.command, i.answers);
  }

  /** request_process extends the history by one input, and the output by its reply. */
  lemma SettleTalks(s: C.Conn, i: Input, o: Outcome)
    requires o == Dialogue.Run(s.history) && Possible(s.history) && Next(o, i) && s.status.Open?
    requires s.session == (if i.BodyEnd? then Cleaned(o.session) else o.session)
    requires s.sent + s.output.pending == Output(s.history)
    requires s.registered == o.deliveries + (if i.BodyEnd? then DeliverTo(o.session.mailFrom, o.session.rcptTo) else [])
    ensures HasHandler(s.session.state) && (C.Settle(s, i).status.Undefined? || Talks(C.Settle(s, i)))
  {
    hide Respond, Dialogue.Run, Possible, Step;
    var t := Respond(s.session, if i.Request? then i.command else Unknown, i.answers);
    TurnOutcome(s.history, i, t);
    if !t.quit {
      RenderedSnoc(o.replies, t.reply);
      Assoc(s.sent, s.output.pending, Render(t.reply));
      Assoc(C.GREETING, Concat(Rendered(o.replies)), Render(t.reply));
    }
  }

  lemma Assoc(a: string, b: string, c: string)
    ensures a + b + c == a + (b + c)
  {
  }

  /** What request_process leaves alone, and where it leads. */
  lemma SettleFrame(s: C.Conn, i: Input)
    requires HasHandler(s.session.state) && s.status.Open?
    ensures var t := C.Settle(s, i);
            && t.history == s.history + [i] && t.log == s.log && t.input == s.input && t.received == s.received
            && t.spool == s.spool && t.registered == s.registered
            && (t.status.Open? ==> t.current == Some(C.ReqWrite))
  {
    hide Respond;
  }

  lemma SplitInput(s: C.Conn, n: nat)
    requires Balances(s) && n <= |s.input|
    ensures Text(s.log + C.Bytes(s.input[..n])) + s.input[n..] == s.received
  {
    TextSplit(s.log, s.input[..n]);
    Assoc(Text(s.log), s.input[..n], s.input[n..]);
    assert s.input[..n] + s.input[n..] == s.input;
  }

  /** A state that reads the requests of its dialogue. */
  ghost predicate ReadsLines(s: C.Conn) {
    && s.status.Open? && Good(s.session) && !s.session.state.BODY?
    && (s.current == Some(C.ReqRead) || s.current == Some(C.ReqAdmin))
       && s.current.value == C.AfterReply(s.session.state)
    && s.parser.LineParser? && !IsDone(s.parser.Phase())
  }

  /** A consumed line, and the parser the server then starts with. */
  lemma ReadLineLexes(env: C.Env, s: C.Conn, t: C.Conn, q: Parse)
    requires Lexes(env, s) && Talks(s) && ReadsLines(s)
    requires var kind, p := C.KindOf(s.current.value), s.parser.parse;
             var n := ConsumeLength(kind, p, s.input);
             q == FeedAll(kind, p, s.input[..n]) && t.log == s.log + C.Bytes(s.input[..n])
    requires if IsDone(q.phase)
             then t.history == s.history + [RequestOf(q, env(|s.history|))] && Talks(t)
                  && (t.status.Open? ==> t.current == Some(C.ReqWrite))
             else t.history == s.history && t.parser == LineParser(q) && t.current == s.current
    requires IsDone(q.phase) || t.session == s.session
    requires t.spool == s.spool && t.registered == s.registered
    ensures Lexes(env, t)
  {
    hide Possible, Output, TakeAll, FeedAll, ConsumeLength, Classify, Stored, Started, Delivered;
    var r := TakeAll(env, START, s.log);
    TakeSplit(env, START, s.log, t.log[|s.log|..]);
    assert t.log == s.log + t.log[|s.log|..];
    TakeLine(env, r, s.input);
  }

  lemma ReadLineSimulates(env: C.Env, s: C.Conn)
    requires Simulates(env, s) && ReadsLines(s)
    ensures var t := C.ReadLine(env, s); t.status.Undefined? || Simulates(env, t)
  {
    hide Possible, Output, Dialogue.Run, Respond, C.Settle, TakeAll, Classify, FeedAll, ConsumeLength, Text;
    var kind, p := C.KindOf(s.current.value), s.parser.parse;
    var n := ConsumeLength(kind, p, s.input);
    var q := FeedAll(kind, p, s.input[..n]);
    SplitInput(s, n);
    if IsDone(q.phase) {
      var i := RequestOf(q, env(|s.history|));
      var t := s.(parser := LineParser(q), input := s.input[n..], log := s.log + C.Bytes(s.input[..n]),
          client := C.Writing);
      SettleTalks(t, i, Dialogue.Run(s.history));
      SettleFrame(t, i);
    }
    if !C.ReadLine(env, s).status.Undefined? {
      ReadLineLexes(env, s, C.ReadLine(env, s), q);
    }
  }

  lemma ReadBodySimulates(env: C.Env, s: C.Conn)
    requires Simulates(env, s) && C.Inv(s) && s.status.Open? && s.current == Some(C.ReqData)
    ensures C.ReadBody(s).status.Open? ==> Simulates(env, C.ReadBody(s))
  {
    hide Possible, Output, Dialogue.Run, Stored, Started, Delivered;
    var n := BodySyntax.ConsumeLength(s.parser.body, s.input);
    SplitInput(s, n);
    TakeSplit(env, START, s.log, C.Bytes(s.input[..n]));
    TakeBody(env, TakeAll(env, START, s.log), s.input[..n]);
  }

  lemma ReadHandlerSimulates(env: C.Env, s: C.Conn, bytes: string)
    requires Simulates(env, s) && C.Inv(s) && s.status.Open? && s.client == C.Reading && |bytes| <= C.BUFFER_SIZE
    ensures C.Prepared(s)
    ensures var t := C.ReadHandler(env, s, bytes); t.status.Undefined? || Simulates(env, t)
  {
    hide Possible, Output, Dialogue.Run, TakeAll, Text, C.ReadLine, C.ReadBody;
    C.InvIsPrepared(s);
    var t := if s.input == "" then s.(input := bytes, received := s.received + bytes) else s;
    if s.input != "" || bytes != "" {
      if s.input == "" {
        Assoc(Text(s.log), s.input, bytes);
      }
      if s.current == Some(C.ReqData) {
        ReadBodySimulates(env, t);
        C.ReadBodyStatus(t);
      } else {
        ReadLineSimulates(env, t);
      }
    }
  }

  lemma ReplySentSimulates(env: C.Env, s: C.Conn, file: int)
    requires Simulates(env, s) && s.status.Open? && s.current == Some(C.ReqWrite) && s.output == Queue("", 0)
    requires Good(s.session) && |s.input| <= C.BUFFER_SIZE && C.AllIdle(s.files) && C.BoundedParser(s.parser)
    requires s.client == C.Reading
    ensures var t := C.Returned(env, s, C.AfterReply(s.session.state), file); t.status.Undefined? || Simulates(env, t)
  {
    hide Possible, Output, Dialogue.Run, TakeAll, Text, C.ReadHandler, Started, Stored, Delivered, C.Inv;
    var t := C.Jump(s, C.AfterReply(s.session.state), file);
    C.ReplySentJumps(s, file);
    assert Simulates(env, t);
    ReadHandlerSimulates(env, t, "");
  }

  /** An incomplete send that finds REQUEST_READ, and the next request. */
  lemma EarlyReadSimulates(env: C.Env, s: C.Conn, file: int)
    requires Simulates(env, s) && s.status.Open? && s.current == Some(C.ReqWrite) && Good(s.session)
    requires C.AfterReply(s.session.state) == C.ReqRead && C.NextIsAnswered(env, s)
    ensures var t := C.Returned(env, s, C.ReqRead, file); t.status.Undefined? || Simulates(env, t)
  {
    hide Possible, Output, Dialogue.Run, TakeAll, Text, C.ReadLine, Good, FeedAll, ConsumeLength, Respond;
    C.NothingIsIncomplete();
    var t := C.Jump(s, C.ReqRead, file);
    assert Simulates(env, t);
    ReadLineSimulates(env, t);
  }

  lemma PartialSendSimulates(env: C.Env, s: C.Conn, stale: nat, file: int)
    requires Simulates(env, s) && s.status.Open? && s.current == Some(C.ReqWrite) && Good(s.session)
    requires stale == 1 || stale == 5 || stale == 6 ||
             (stale == 0 && C.NextIsAnswered(env, s) && C.AfterReply(s.session.state) == C.ReqRead)
    ensures var t := C.PartialSend(env, s, stale, file); t.status.Undefined? || Simulates(env, t)
  {
    hide Possible, Output, Dialogue.Run, TakeAll, Text, C.ReadHandler, C.NextIsAnswered;
    if stale == 0 {
      EarlyReadSimulates(env, s, file);
    }
  }

  /** The sent bytes move from one side of the balance to the other. */
  lemma SentSimulates(env: C.Env, s: C.Conn, k: nat)
    requires Simulates(env, s) && s.status.Open? && k <= |s.output.pending|
             && (s.current == None || s.current == Some(C.ReqWrite))
    ensures Simulates(env, C.Sent(s, k)) && Simulates(env, C.Sent(s, k).(client := C.Reading))
  {
    hide Possible, Output, Dialogue.Run, TakeAll, Text;
    assert s.output.pending == s.output.pending[..k] + s.output.pending[k..];
    assert C.Sent(s, k).output.pending == s.output.pending[k..];
    Assoc(s.sent, s.output.pending[..k], s.output.pending[k..]);
  }

  lemma WriteHandlerSimulates(env: C.Env, s: C.Conn, e: C.Event)
    requires Simulates(env, s) && C.Inv(s) && e.ClientWritable? && C.Enabled(s, e) && C.Harmless(env, s, e)
             && InLine(s, e)
    ensures HasHandler(s.session.state)
    ensures var t := C.WriteHandler(env, s, e.sent, e.stale, e.file); t.status.Undefined? || Simulates(env, t)
  {
    hide Possible, Output, Dialogue.Run, TakeAll, Text, C.Returned, C.PartialSend, C.NextIsAnswered;
    C.InvIsPrepared(s);
    if e.sent >= 0 {
      SentSimulates(env, s, e.sent);
      if e.sent == |s.output.pending| {
        ReplySentSimulates(env, C.Sent(s, e.sent).(client := C.Reading), e.file);
      } else {
        PartialSendSimulates(env, C.Sent(s, e.sent), e.stale, e.file);
      }
    }
  }

  lemma FileHandlerSimulates(env: C.Env, s: C.Conn, e: C.Event)
    requires Simulates(env, s) && C.Inv(s) && e.FileWritable? && C.Enabled(s, e)
    ensures C.Prepared(s)
    ensures var t := C.FileHandler(env, s, e.fd, e.ok, e.file); t.status.Undefined? || Simulates(env, t)
  {
    hide Possible, Output, Dialogue.Run, TakeAll, Text, C.Settle, Written, Copied, Started, Stored, Delivered;
    C.InvIsPrepared(s);
    if e.ok {
      var r := TakeAll(env, START, s.log);
      var f := Fill(s.session.mailFrom, s.session.rcptTo, s.parser.Text(), s.parser.Phase() == Complete);
      TakeSplit(env, START, s.log, [C.Flush]);
      TakeOne(env, r, C.Flush);
      TextFlush(s.log);
      StoredSnoc(r.fills, f);
      DeliveredSnoc(r.fills, f);
      if s.parser.Phase() == Complete {
        var t := s.(files := s.files[e.fd := C.Idle], log := s.log + [C.Flush],
                    spool := Written(s.spool, s.parser.Text()));
        var u := t.(registered := s.registered + DeliverTo(s.session.mailFrom, s.session.rcptTo),
                    spool := Copied(t.spool, s.session.rcptTo), client := C.Writing,
                    files := t.files - {s.outputFd}, outputFd := 0, session := Cleaned(s.session),
                    parser := s.parser.WithoutRequest());
        var i := BodyEnd(env(|s.history|));
        SettleTalks(u, i, Dialogue.Run(s.history));
        SettleFrame(u, i);
      }
    }
  }

  /** An incomplete send that goes on with the next command does so where a command is expected. */
  predicate InLine(s: C.Conn, e: C.Event) {
    C.IsPartial(s, e) && e.stale == 0 ==> C.AfterReply(s.session.state) == C.ReqRead
  }

  ghost predicate Orderly(env: C.Env, es: seq<C.Event>) {
    C.Regular(env, es) && forall i :: 0 <= i < |es| ==> InLine(C.Run(env, es[..i]), es[i])
  }

  lemma OrderlyPrefix(env: C.Env, es: seq<C.Event>)
    requires Orderly(env, es) && es != []
    ensures var g := es[..|es| - 1]; Orderly(env, g) && !C.LastFailed(g) && InLine(C.Run(env, g), es[|es| - 1])
  {
    hide C.Inv, C.Stuck, C.Underflows, C.Harmless, C.Run, C.AllHarmless, InLine, C.Legal;
    var g := es[..|es| - 1];
    C.LegalPrefix(env, es);
    C.HarmlessPrefix(env, es);
    C.RunsAreSafe(env, g);
    C.FailureIsLast(es);
    assert forall i :: 0 <= i < |es| - 1 ==> es[i] == g[i];
    assert forall i :: 0 <= i < |g| ==> g[..i] == es[..i];
  }

  /** Over every run, whatever the fragmentation of the input and the partial sends: the bytes sent and still
      buffered are the greeting and one reply per request of the lexed stream; session and deliveries are those
      of the dialogue over these requests. */
  lemma {:induction false} RunsSimulate(env: C.Env, es: seq<C.Event>)
    requires Orderly(env, es)
    ensures Simulates(env, C.Run(env, es))
    decreases |es|
  {
    hide Simulates, C.Inv, C.Underflows, C.Harmless, C.WriteHandler, C.ReadHandler, C.FileHandler, C.Run,
         C.AllHarmless, InLine;
    if es == [] {
      C.NothingHappened(env);
      AcceptedSimulates(env);
    } else {
      var g, e := es[..|es| - 1], es[|es| - 1];
      var s := C.Run(env, g);
      OrderlyPrefix(env, es);
      RunsSimulate(env, g);
      C.RegularSteps(env, es, |g|);
      C.RunsAreSafe(env, es);
      C.StatusOfInv(C.Run(env, es));
      assert es[..|g|] == g && es[..|g| + 1] == es;
      C.InvIsPrepared(s);
      match e
      case ClientWritable(_, _, _) => WriteHandlerSimulates(env, s, e);
      case ClientReadable(bytes) => ReadHandlerSimulates(env, s, bytes);
      case FileWritable(_, _, _) => FileHandlerSimulates(env, s, e);
    }
  }

  lemma AcceptedSimulates(env: C.Env)
    ensures Simulates(env, C.ACCEPTED)
  {
    assert Rendered([]) == [];
  }

  // ----- Consequences

  lemma {:induction false} LogOfBytes(ts: seq<C.Token>)
    requires C.Flush !in ts
    ensures ts == C.Bytes(Text(ts))
  {
    if ts != [] {
      var n := |ts| - 1;
      LogOfBytes(ts[..n]);
      assert ts[n] in ts && ts == ts[..n] + [ts[n]];
    }
  }

  /** How the network cuts the command stream, how much each send takes and when select reports what does not matter:
      two connections that received the same bytes, have consumed them and are outside message bodies have the same
      requests, session and deliveries, and owe the client the same bytes. */
  lemma FragmentationDoesNotMatter(env: C.Env, es1: seq<C.Event>, es2: seq<C.Event>)
    requires Orderly(env, es1) && Orderly(env, es2)
    requires var s1, s2 := C.Run(env, es1), C.Run(env, es2);
             && s1.received == s2.received && s1.input == "" && s2.input == ""
             && C.Flush !in s1.log && C.Flush !in s2.log
    ensures var s1, s2 := C.Run(env, es1), C.Run(env, es2);
            && s1.sent + s1.output.pending == s2.sent + s2.output.pending
            && s1.history == s2.history && s1.session == s2.session && s1.registered == s2.registered
  {
    hide C.Run, Output, Dialogue.Run, Possible;
    RunsSimulate(env, es1);
    RunsSimulate(env, es2);
    LogOfBytes(C.Run(env, es1).log);
    LogOfBytes(C.Run(env, es2).log);
    assert Text(C.Run(env, es1).log) + "" == Text(C.Run(env, es1).log);
    assert Text(C.Run(env, es2).log) + "" == Text(C.Run(env, es2).log);
  }

  /** On every connection, open or ended, each processed request but a final QUIT has exactly one reply, in order, and
      exactly those mails have been registered that the replies promised. */
  lemma RegistersWhatWasReplied(env: C.Env, es: seq<C.Event>)
    requires Orderly(env, es)
    ensures var s := C.Run(env, es);
            var o := Dialogue.Run(s.history);
            var n := |o.replies|;
            && n == (if o.quit then |s.history| - 1 else |s.history|)
            && s.sent + s.output.pending == C.GREETING + Concat(Rendered(o.replies))
            && s.registered == Promised(s.history[..n], o.replies)
            && s.session.rcptTo == Recipients(s.history[..n], o.replies)
            && (s.status.Open? ==> !o.quit)
  {
    hide C.Run, Dialogue.Run, Possible, Files, TakeAll, Promised, Recipients;
    RunsSimulate(env, es);
    DeliversWhatWasAnswered(C.Run(env, es).history);
  }

  /** Registered mails and waiting recipients together are the recipients answered 250. */
  lemma RepliesCount(env: C.Env, es: seq<C.Event>)
    requires Orderly(env, es)
    ensures var s := C.Run(env, es);
            var o := Dialogue.Run(s.history);
            && |o.replies| <= |s.history|
            && |s.registered| + |s.session.rcptTo| == AcceptedCount(s.history[..|o.replies|], o.replies)
  {
    hide C.Run, Dialogue.Run, Possible, Files, TakeAll, AcceptedCount;
    RunsSimulate(env, es);
    DeliversWhatWasAnswered(C.Run(env, es).history);
  }

  // ----- What the mailboxes hold

  predicate PlainSession(s: Session) {
    CR !in s.mailFrom && forall r :: r in s.rcptTo ==> CR !in r
  }

  /** What the reference server keeps: a body is read in BODY only, and no address holds CR. */
  ghost predicate Healthy(r: Server) {
    var s := Dialogue.Run(r.history).session;
    && PlainSession(s) && PlainFills(r.fills)
    && (r.parser.BodyParser? ==> s.state.BODY?)
    && (r.parser.LineParser? ==> CR !in r.parser.parse.arg)
  }

  lemma PlainTurn(s: Session, i: Input)
    requires PlainSession(s) && HasHandler(s.state) && i.Request?
    requires i.command.Mail? || i.command.Rcpt? ==> CR !in i.command.arg
    ensures PlainSession(Respond(s, i.command, i.answers).session)
  {
    hide Respond;
    TurnByReply(s, i);
  }

  lemma HearIsHealthy(r: Server, i: Input)
    requires PlainSession(Dialogue.Run(r.history).session) && PlainFills(r.fills)
    requires i.Request? && (i.command.Mail? || i.command.Rcpt?) ==> CR !in i.command.arg
    ensures Healthy(Hear(r, i))
  {
    hide Respond, PlainFills;
    var o := Dialogue.Run(r.history);
    assert (r.history + [i])[..|r.history|] == r.history;
    if Next(o, i) {
      if i.Request? {
        PlainTurn(o.session, i);
      } else {
        BodyEndTurn(o.session, i.answers);
      }
    }
  }

  lemma TakeIsHealthy(env: C.Env, r: Server, t: C.Token)
    requires Healthy(r)
    ensures Healthy(Take(env, r, t))
  {
    hide Dialogue.Run, Hear, Classify, PlainSession;
    ReachableSessionsAreGood(r.history);
    if t.Byte? {
      if r.parser.LineParser? {
        var q := Feed(KindFor(Dialogue.Run(r.history).session.state), r.parser.parse, t.c);
        C.ClassifiedArg(CStr(q.verb), CStr(q.arg));
        if IsDone(q.phase) {
          HearIsHealthy(r, RequestOf(q, env(|r.history|)));
        }
      }
    } else if r.parser.BodyParser? {
      var s := Dialogue.Run(r.history).session;
      PlainRecipients(s);
      var t := r.(fills := r.fills + [Fill(s.mailFrom, s.rcptTo, r.parser.Text(), r.parser.Phase() == Complete)]);
      if r.parser.Phase() == Complete {
        HearIsHealthy(t, BodyEnd(env(|r.history|)));
      }
    }
  }

  lemma PlainRecipients(s: Session)
    requires PlainSession(s)
    ensures s.rcptTo != [] ==> Plain(s.mailFrom, s.rcptTo)
  {
  }

  lemma {:induction false} ServerIsHealthy(env: C.Env, r: Server, ts: seq<C.Token>)
    requires Healthy(r)
    ensures Healthy(TakeAll(env, r, ts))
    decreases |ts|
  {
    hide Healthy, Take;
    if ts != [] {
      TakeIsHealthy(env, r, ts[0]);
      ServerIsHealthy(env, Take(env, r, ts[0]), ts[1..]);
    }
  }

  lemma StartIsHealthy()
    ensures Healthy(START)
  {
  }

  /** The fills of a run, read off the bytes that were parsed. */
  function FillsOf(env: C.Env, es: seq<C.Event>): seq<Fill> {
    TakeAll(env, START, C.Run(env, es).log).fills
  }

  /** What arrives, over every run, however the bytes were cut and the sends interrupted: registered are the recipients
      of the bodies that ended, and the mailboxes hold what the fills leave there. When the last fill was the whole of
      a body, each of its recipients has its header and its text exactly when its first recipient has the mailbox of the
      connection's first mail and no file was longer. */
  lemma MailsArrive(env: C.Env, es: seq<C.Event>, before: seq<Fill>, f: Fill, r: string)
    requires Orderly(env, es) && FillsOf(env, es) == before + [f] && f.last && r in f.rcpts
    ensures var s := C.Run(env, es);
            var sp, text, box := Stored(before), Header(f.from, f.rcpts) + f.text, Mailbox(First(f.rcpts));
            && s.registered == Delivered(before) + DeliverTo(f.from, f.rcpts)
            && s.spool.inboxes == Mailed(sp, f.from, f.rcpts, f.text).inboxes
            && (Held(s.spool.inboxes, Mailbox(r)) == text
                <==> && (sp.first == None || sp.first == Some(box))
                     && |Held(sp.temps, box)| <= |text| && |Held(sp.inboxes, Mailbox(r))| <= |text|)
  {
    hide C.Run, Dialogue.Run, Possible, TakeAll, Stored, Delivered, Mailbox, Header, Written, Started, Copied, Tidy,
         Plain;
    var s := C.Run(env, es);
    RunsSimulate(env, es);
    StartIsHealthy();
    ServerIsHealthy(env, START, s.log);
    assert (before + [f])[|before|] == f;
    assert PlainFills(before) by {
      assert forall k :: 0 <= k < |before| ==> (before + [f])[k] == before[k];
    }
    StoredIsTidy(before);
    StoredSnoc(before, f);
    DeliveredSnoc(before, f);
    StartedContent(Stored(before + [f]), s.session.mailFrom, s.session.rcptTo);
    MailArrives(Stored(before), f.from, f.rcpts, f.text, r);
  }
}
