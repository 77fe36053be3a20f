/** smtp.c as it is written: callbacks that move bytes between the socket's buffers, run the parsers and the
    dialogue handlers, and change interests in place. The callbacks refine the steps of `Connections`. */
module ConnectionObjects {
  import opened Buffers
  import opened CStrings
  import opened LineSyntax
  import opened RequestParsers
  import opened Dialogue
  import opened SmtpSessions
  import opened Spools
  import opened Wrappers
  import opened Connections
  import BodySyntax
  import Stm

  /** The state once a reading callback has returned `next` and the end states have been handled. */
  function Landed(s: Conn, next: Socket): Conn {
    if !s.status.Open? then s
    else if next.ReqDone? || next.ReqError? then Finish(s.(current := Some(next)))
    else s.(current := Some(next))
  }

  /** One answer for the request that an event may process. */
  function Always(a: Answers): Env {
    k => a
  }

  class Connection {
    const readBuffer: Buffer
    const writeBuffer: Buffer
    const parser: RequestParser
    const session: SmtpSession
    var status: Status
    var current: Option<Socket>
    var client: Interest
    var files: map<int, Interest>
    var outputFd: int
    ghost var received: string
    ghost var sent: string
    ghost var log: seq<Token>
    ghost var history: seq<Input>
    ghost var registered: seq<Delivery>
    ghost var spool: Spool

    ghost const Repr: set<object> :=
      {this, readBuffer, readBuffer.data, writeBuffer, writeBuffer.data, parser, parser.verb, parser.arg, parser.data,
          session}

    ghost predicate Valid()
      reads Repr
    {
      && readBuffer.Valid() && writeBuffer.Valid() && parser.Valid()
      && readBuffer.data.Length == BUFFER_SIZE && writeBuffer.data.Length == BUFFER_SIZE
      && readBuffer != writeBuffer && readBuffer.data != writeBuffer.data
      && readBuffer.data !in parser.Arrays && writeBuffer.data !in parser.Arrays
    }

    ghost function Abs(): Conn
      requires Valid()
      reads Repr
    {
      Conn(status, current, session.View(), parser.view, readBuffer.Contents(), writeBuffer.View(),
           client, files, outputFd, received, sent, log, history, registered, spool)
    }

    /** smtp_passive_accept */
    constructor ()
      ensures Valid() && fresh(Repr)
      ensures Abs() == ACCEPTED
    {
      readBuffer := new Buffer(BUFFER_SIZE);
      writeBuffer := new Buffer(BUFFER_SIZE);
      parser := new RequestParser();
      session := new SmtpSession();
      status, current, client, files, outputFd := Open, None, Writing, map[], 0;
      received, sent, log, history, registered, spool := "", "", [], [], [], EMPTY;
      new;
      hide Buffer.Valid, Buffer.Contents, Buffer.View, RequestParser.Valid;
      assert fresh(Repr);
      Greet();
    }

    /** memcpy of the greeting into the write buffer */
    method Greet()
      requires Valid() && writeBuffer.View() == Queue("", 0)
      modifies writeBuffer, writeBuffer.data
      ensures Valid() && Abs() == old(Abs()).(output := Queue(GREETING, 0))
    {
      hide Buffer.Valid, RequestParser.Valid;
      assert |GREETING| == 33;
      writeBuffer.Store(GREETING);
    }

    // ----- Jumps

    /** abort() */
    method Abort()
      requires Valid()
      modifies this`status
      ensures Valid() && Abs() == old(Abs()).(status := Aborted)
    {
      hide Buffer.Valid, Buffer.Contents, Buffer.View, RequestParser.Valid;
      status := Aborted;
    }

    /** smtp_done */
    method SmtpDone()
      requires Valid()
      modifies this`status, this`client
      ensures Valid() && Abs() == Finish(old(Abs()))
    {
      hide Buffer.Valid, Buffer.Contents, Buffer.View, RequestParser.Valid;
      status, client := Closed, Idle;
    }

    /** request_read_init and request_admin_init */
    method ReadInit()
      requires Valid()
      modifies parser, parser.verb, parser.arg, parser.data
      ensures Valid() && Abs() == old(Abs()).(parser := LineParser(INIT))
    {
      hide RequestParser.Valid, Buffer.Valid, Buffer.Contents, Buffer.View;
      parser.InitLine();
    }

    /** request_data_init; `file` is the descriptor of the spool file. */
    method DataInit(file: int)
      requires Valid()
      modifies this`files, this`outputFd, this`spool, parser, parser.verb, parser.arg, parser.data
      ensures Valid()
      ensures var s := old(Abs());
              Abs() == s.(parser := BodyParser(BodySyntax.START), outputFd := file, files := s.files[file := Idle],
                          spool := Started(s.spool, s.session.mailFrom, s.session.rcptTo))
    {
      hide RequestParser.Valid, Buffer.Valid, Buffer.Contents, Buffer.View, Started;
      parser.InitBody();
      outputFd := file;
      spool := Started(spool, session.mailFrom, session.rcptTo);
      files := files[file := Idle];
    }

    /** `current` moves to another state; on_arrival is not called here. */
    method Leave(next: Socket)
      requires Valid()
      modifies this`current
      ensures Valid() && Abs() == old(Abs()).(current := Some(next))
    {
      hide Buffer.Valid, Buffer.Contents, Buffer.View, RequestParser.Valid;
      current := Some(next);
    }

    /** jump; three states have an on_arrival callback. */
    method JumpTo(next: Socket, file: int)
      requires Valid()
      modifies this`current, this`files, this`outputFd, this`spool, parser, parser.verb, parser.arg, parser.data
      ensures Valid() && Abs() == Jump(old(Abs()), next, file)
    {
      hide RequestParser.Valid, Buffer.Valid, Buffer.Contents, Buffer.View, Started;
      if current != Some(next) {
        Leave(next);
        match next {
          case ReqRead => ReadInit();
          case ReqAdmin => ReadInit();
          case ReqData => DataInit(file);
          case _ =>
        }
      }
    }

    /** The jump out of a reading state, whose targets have no on_arrival callback, and the rest of read_handler. */
    method Land(next: Socket)
      requires Valid()
      modifies this`status, this`client, this`current
      ensures Valid() && Abs() == Landed(old(Abs()), next)
    {
      hide Buffer.Valid, Buffer.Contents, Buffer.View, RequestParser.Valid;
      if status == Open {
        Leave(next);
        if next == ReqDone || next == ReqError {
          SmtpDone();
        }
      }
    }

    // ----- Requests

    /** The request's verb, argument and body as C strings. */
    method Texts() returns (verb: string, arg: string, text: string)
      requires Valid()
      ensures verb == parser.view.Verb() && arg == parser.view.Arg() && text == parser.view.Text()
    {
      match parser.view {
        case LineParser(p) =>
          CStrOfPadded(parser.verb[..], p.verb);
          CStrOfPadded(parser.arg[..], p.arg);
          CStrOfPadded(parser.data[..], "");
        case BodyParser(b) =>
          CStrOfPadded(parser.verb[..], "");
          CStrOfPadded(parser.arg[..], "");
          CStrOfPadded(parser.data[..], b.stored);
      }
      verb, arg, text := CStr(parser.verb[..]), CStr(parser.arg[..]), CStr(parser.data[..]);
    }

    /** request_process. The handler of BODY copies request.data, which is empty here; the reply goes behind the pending
        bytes, and a reply without room is a store outside the array. */
    method RequestProcess(a: Answers, ghost i: Input) returns (next: Socket)
      requires Valid() && HasHandler(session.state) && status.Open? && parser.view.Text() == ""
      requires i == if i.Request? then Request(Classify(parser.view.Verb(), parser.view.Arg()), a) else BodyEnd(a)
      requires i.BodyEnd? ==> parser.view.Verb() == ""
      modifies session, writeBuffer, writeBuffer.data, this`history, this`status
      ensures Valid() && Landed(Abs(), next) == Settle(old(Abs()), i)
    {
      hide Respond, Render, Classify, HasRoom, Buffer.Valid, Buffer.Contents, Buffer.View, RequestParser.Valid, CStr;
      var verb, arg, text := Texts();
      EmptyVerb(arg);
      var quit, reply := session.Process(verb, arg, text, a);
      history := history + [i];
      next := ReqWrite;
      if quit {
        next := ReqDone;
      } else {
        PutReply(Render(reply));
      }
    }

    /** The reply in its array, and the memcpy behind the pending bytes */
    method PutReply(reply: string)
      requires Valid() && status.Open?
      modifies writeBuffer, writeBuffer.data, this`status
      ensures Valid()
      ensures var s := old(Abs());
              Abs() == if HasRoom(s.output, reply) then s.(output := s.output.(pending := s.output.pending + reply))
                       else s.(status := Undefined)
    {
      hide Buffer.Valid, Buffer.Contents, RequestParser.Valid;
      if |reply| >= RESPONSE_SIZE || |reply| > writeBuffer.Space() {
        status := Undefined;
      } else {
        writeBuffer.Store(reply);
      }
    }

    /** request_consume on the read buffer */
    method ParseInput(kind: Kind) returns (st: Phase)
      requires Valid() && parser.view.LineParser?
      modifies parser, parser.verb, parser.arg, readBuffer, readBuffer.data, this`log
      ensures Valid() && st == parser.view.Phase()
      ensures var s := old(Abs());
              var n := ConsumeLength(kind, s.parser.parse, s.input);
              Abs() == s.(parser := LineParser(FeedAll(kind, s.parser.parse, s.input[..n])),
                          input := s.input[n..], log := s.log + Bytes(s.input[..n]))
    {
      hide FeedAll, ConsumeLength, RequestParser.Valid, Buffer.Valid, Buffer.Contents, Buffer.View;
      ghost var s := readBuffer.Contents();
      ghost var n := ConsumeLength(kind, parser.view.parse, s);
      st := parser.ConsumeLine(kind, readBuffer);
      log := log + Bytes(s[..n]);
    }

    /** request_consume_data on the read buffer */
    method ParseFill() returns (st: Phase)
      requires Valid() && parser.view.BodyParser? && !IsDone(parser.view.Phase())
      modifies parser, parser.data, readBuffer, readBuffer.data, this`log
      ensures Valid() && st == parser.view.Phase()
      ensures var s := old(Abs());
              var n := BodySyntax.ConsumeLength(s.parser.body, s.input);
              Abs() == s.(parser := BodyParser(BodySyntax.FeedAll(s.parser.body, s.input[..n])),
                          input := s.input[n..], log := s.log + Bytes(s.input[..n]))
    {
      hide RequestParser.Valid, Buffer.Valid, Buffer.Contents, Buffer.View, BodySyntax.FeedAll,
           BodySyntax.ConsumeLength, Bytes;
      ghost var s := readBuffer.Contents();
      ghost var n := BodySyntax.ConsumeLength(parser.view.body, s);
      log := log + Bytes(s[..n]);
      st := parser.ConsumeBody(readBuffer);
    }

    /** request_actual_read in REQUEST_DATA */
    method ConsumeBodyFill() returns (next: Socket)
      requires Valid() && status.Open? && parser.view.BodyParser? && !IsDone(parser.view.Phase())
      modifies parser, parser.data, readBuffer, readBuffer.data, this`log, this`client, this`files, this`status
      ensures Valid() && Landed(Abs(), next) == ReadBody(old(Abs()))
    {
      hide RequestParser.Valid, Buffer.Valid, Buffer.Contents, Buffer.View, BodySyntax.FeedAll,
           BodySyntax.ConsumeLength;
      var st := ParseFill();
      next := ReqDataWrite;
      if st == Fault {
        status := Undefined;
      } else {
        client := Idle;
        files := files[outputFd := Writing];
      }
    }

    /** request_actual_read in REQUEST_READ and REQUEST_ADMIN */
    method ConsumeCommand(a: Answers) returns (next: Socket)
      requires Valid() && status.Open? && Prepared(Abs()) && OnRead(current.value) && parser.view.LineParser?
      modifies Repr
      ensures Valid() && Landed(Abs(), next) == ReadLine(Always(a), old(Abs()))
    {
      hide Respond, Render, Classify, Settle, Feed, FeedAll, ConsumeLength, Buffer.Valid, Buffer.Contents, Buffer.View,
           RequestParser.Valid, CStr;
      var st := ParseInput(KindOf(current.value));
      next := current.value;
      if IsDone(st) {
        client := Writing;
        next := RequestProcess(a, Request(Classify(parser.view.Verb(), parser.view.Arg()), a));
      } else {
        StaysOpen(Abs(), next);
      }
    }

    /** request_actual_read */
    method RequestActualRead(a: Answers) returns (next: Socket)
      requires Valid() && status.Open? && Prepared(Abs()) && OnRead(current.value)
      modifies Repr
      ensures Valid()
      ensures Landed(Abs(), next) ==
              if old(current) == Some(ReqData) then ReadBody(old(Abs())) else ReadLine(Always(a), old(Abs()))
    {
      hide ReadBody, ReadLine, Landed, Buffer.Valid, Buffer.Contents, Buffer.View, RequestParser.Valid;
      if current == Some(ReqData) {
        next := ConsumeBodyFill();
      } else {
        next := ConsumeCommand(a);
      }
    }

    /** read_handler, with stm_handler_read and request_read_handler; `bytes` is what recv yields. */
    method ReadHandler(a: Answers, bytes: string)
      requires Valid() && status.Open? && Prepared(Abs()) && |bytes| <= BUFFER_SIZE
      modifies Repr
      ensures Valid() && Abs() == Connections.ReadHandler(Always(a), old(Abs()), bytes)
    {
      hide ReadLine, ReadBody, Landed, RequestParser.Valid, Buffer.Valid;
      if !OnRead(current.value) {
        Abort();
        return;
      }
      var next := ReqError;
      if readBuffer.CanRead() {
        next := RequestActualRead(a);
      } else if bytes == "" {
        ErrorEnds(Abs());
      } else {
        Receive(bytes);
        next := RequestActualRead(a);
      }
      Land(next);
    }

    /** recv into the empty read buffer */
    method Receive(bytes: string)
      requires Valid() && |bytes| <= BUFFER_SIZE && readBuffer.Contents() == ""
      modifies this`received, readBuffer, readBuffer.data
      ensures Valid()
      ensures var s := old(Abs()); Abs() == s.(input := bytes, received := s.received + bytes)
    {
      hide RequestParser.Valid, Buffer.Valid;
      readBuffer.Store(bytes);
      received := received + bytes;
      assert "" + bytes == bytes;
    }

    // ----- Replies

    /** send takes the first `k` bytes of the write buffer. */
    method Send(k: nat)
      requires Valid() && k <= |writeBuffer.Contents()|
      modifies this`sent, writeBuffer, writeBuffer.data
      ensures Valid()
      ensures var s := old(Abs()); Abs() == s.(sent := s.sent + s.output.pending[..k], output := s.output.Without(k))
    {
      hide RequestParser.Valid, Buffer.Valid, Buffer.Contents;
      sent := sent + writeBuffer.View().pending[..k];
      writeBuffer.ReadAdv(k);
    }

    /** handle_first and request_write_handler. `k` is what send returns; after an incomplete send the value that is
        returned was never assigned. */
    method RequestWriteHandler(k: int, stale: nat) returns (next: nat)
      requires Valid() && (current == None || current == Some(ReqWrite)) && -1 <= k <= |writeBuffer.Contents()|
      modifies this`current, this`sent, this`client, writeBuffer, writeBuffer.data
      ensures Valid()
      ensures var s := old(Abs());
              if k < 0 then next == 6 && Abs() == s.(current := Some(ReqWrite))
              else
                var t := Sent(s, k);
                if t.output.pending != "" then next == stale && Abs() == t
                else next == Id(AfterReply(s.session.state)) && Abs() == t.(client := Reading)
    {
      hide RequestParser.Valid, Buffer.Valid, Buffer.Contents;
      if current == None {
        Leave(ReqWrite);
      }
      if k < 0 {
        return 6;
      }
      Send(k);
      if writeBuffer.CanRead() {
        return stale;
      }
      client := Reading;
      if session.state == BODY {
        return Id(ReqData);
      }
      if IsAdmin(session.state) {
        return Id(ReqAdmin);
      }
      return Id(ReqRead);
    }

    /** The jump to what request_write_handler returned, and the rest of write_handler. */
    method Return(a: Answers, next: Socket, file: int)
      requires Valid() && status.Open? && HasHandler(session.state) && current == Some(ReqWrite)
      modifies Repr
      ensures Valid() && Abs() == Returned(Always(a), old(Abs()), next, file)
    {
      hide Connections.ReadHandler, Jump, RequestParser.Valid, Buffer.Valid;
      JumpIsPrepared(Abs(), next, file);
      JumpTo(next, file);
      if next == ReqDone || next == ReqError {
        SmtpDone();
      } else if (next == ReqRead || next == ReqData) && readBuffer.CanRead() {
        ReadHandler(a, "");
      }
    }

    /** write_handler */
    method WriteHandler(a: Answers, k: int, stale: nat, file: int)
      requires Valid() && status.Open? && HasHandler(session.state) && -1 <= k <= |writeBuffer.Contents()|
      modifies Repr
      ensures Valid() && Abs() == Connections.WriteHandler(Always(a), old(Abs()), k, stale, file)
    {
      hide Connections.WriteHandler, Returned, Spooled, RequestParser.Valid, Buffer.Valid, Buffer.Contents;
      ghost var s := Abs();
      if current.Some? && !OnWrite(current.value) {
        WriteOutcomes(Always(a), s, k, stale, file);
        Abort();
      } else if current == Some(ReqDataWrite) {
        WriteText(a, k, file, stale);
      } else {
        WriteOutcomes(Always(a), s, k, stale, file);
        var next := RequestWriteHandler(k, stale);
        if next > 6 {
          Abort();
        } else {
          Return(a, StateOf(next), file);
        }
      }
    }

    /** write_handler in REQUEST_DATA_WRITE: write_file_handler runs for the client's socket. */
    method WriteText(a: Answers, k: int, file: int, ghost stale: nat)
      requires Valid() && status.Open? && HasHandler(session.state) && current == Some(ReqDataWrite)
      requires -1 <= k <= |writeBuffer.Contents()|
      modifies Repr
      ensures Valid() && Abs() == Connections.WriteHandler(Always(a), old(Abs()), k, stale, file)
    {
      hide Connections.ReadHandler, Spooled, RequestParser.Valid, Buffer.Valid;
      if k < 0 {
        Leave(ReqError);
        SmtpDone();
        return;
      }
      client := Idle;
      SpooledIsPrepared(Always(a), Abs(), file);
      Spool(a, file);
      if current == Some(ReqError) {
        SmtpDone();
      } else if current == Some(ReqData) && readBuffer.CanRead() {
        ReadHandler(a, "");
      }
    }

    // ----- The spool file

    /** write_file; `ok` tells whether write succeeded. */
    method WriteFile(a: Answers, fd: int, ok: bool, file: int)
      requires Valid() && status.Open? && Prepared(Abs())
      modifies Repr
      ensures Valid() && Abs() == FileHandler(Always(a), old(Abs()), fd, ok, file)
    {
      hide Spooled, RequestParser.Valid, Buffer.Valid, Buffer.Contents, Buffer.View;
      if !OnWrite(current.value) {
        Abort();
      } else if current == Some(ReqWrite) || !ok {
        Leave(ReqError);
      } else {
        SetIdle(fd);
        Spool(a, file);
      }
    }

    /** OP_NOOP for a file */
    method SetIdle(fd: int)
      requires Valid()
      modifies this`files
      ensures Valid() && Abs() == old(Abs()).(files := old(files)[fd := Idle])
    {
      hide RequestParser.Valid, Buffer.Valid, Buffer.Contents, Buffer.View;
      files := files[fd := Idle];
    }

    /** write_file_handler, once interests are off */
    method Spool(a: Answers, file: int)
      requires Valid() && status.Open? && HasHandler(session.state) && current == Some(ReqDataWrite)
      modifies Repr
      ensures Valid() && Abs() == Spooled(Always(a), old(Abs()), file)
    {
      hide Delivered, Jump, Written, Buffer.Valid, Buffer.Contents, Buffer.View, RequestParser.Valid;
      SpoolFill();
      if parser.state == Complete {
        Deliver(a);
      } else {
        client := Reading;
        JumpTo(ReqData, file);
      }
    }

    /** write(output_fd) of the stored text */
    method SpoolFill()
      requires Valid()
      modifies this`spool, this`log
      ensures Valid() && parser.state == parser.view.Phase()
      ensures var s := old(Abs());
              Abs() == s.(log := s.log + [Flush],
                          spool := if s.outputFd in s.files then Written(s.spool, s.parser.Text()) else s.spool)
    {
      hide Buffer.Valid, Buffer.Contents, Buffer.View, Written;
      var verb, arg, text := Texts();
      if outputFd in files {
        spool := Written(spool, text);
      }
      log := log + [Flush];
    }

    /** The end of a body in write_file_handler. */
    method Deliver(a: Answers)
      requires Valid() && status.Open? && HasHandler(session.state) && current == Some(ReqDataWrite)
      requires parser.state == Complete
      modifies Repr
      ensures Valid() && Abs() == Delivered(Always(a), old(Abs()))
    {
      hide Respond, Render, Buffer.Valid, Buffer.Contents, Buffer.View, Landed, Settle, Copied, DeliverTo, CStr;
      RegisterAll();
      if outputFd !in files {
        Leave(ReqError);
        return;
      }
      DropFile();
      CleanRequest();
      ghost var t := Abs();
      NothingRequested(parser.view);
      var next := RequestProcess(a, BodyEnd(a));
      SettledBody(t, BodyEnd(a), Abs(), next);
      if status == Open {
        Leave(next);
      }
    }

    /** A copy and a call of register_mail for every recipient, then the client's turn */
    method RegisterAll()
      requires Valid()
      modifies this`registered, this`spool, this`client
      ensures Valid()
      ensures var s := old(Abs());
              Abs() == s.(registered := s.registered + DeliverTo(s.session.mailFrom, s.session.rcptTo),
                          spool := Copied(s.spool, s.session.rcptTo), client := Writing)
    {
      hide Buffer.Valid, Buffer.Contents, Buffer.View, RequestParser.Valid, Copied;
      ghost var rcpts := session.rcptTo;
      for i := 0 to |session.rcptTo|
        invariant session.rcptTo == rcpts
        invariant registered == old(registered) + DeliverTo(session.mailFrom, rcpts)[..i]
        invariant Copied(spool, rcpts[i..]) == Copied(old(spool), rcpts)
      {
        CopyNext(spool, rcpts[i..]);
        spool := Copied(spool, [session.rcptTo[i]]);
        registered := registered + [Delivery(session.mailFrom, session.rcptTo[i])];
        assert rcpts[i..][1..] == rcpts[i + 1..];
      }
      NothingToCopy(spool);
      client := Writing;
    }

    /** The spool file is unregistered and closed. */
    method DropFile()
      requires Valid()
      modifies this`files, this`outputFd
      ensures Valid() && Abs() == old(Abs()).(files := old(files) - {old(outputFd)}, outputFd := 0)
    {
      hide Buffer.Valid, Buffer.Contents, Buffer.View, RequestParser.Valid;
      files := files - {outputFd};
      outputFd := 0;
    }

    /** clean_request */
    method CleanRequest()
      requires Valid() && parser.state == Complete
      modifies session, parser, parser.verb, parser.arg, parser.data
      ensures Valid()
      ensures var s := old(Abs());
              && s.parser.Phase() == Complete
              && Abs() == s.(session := Cleaned(s.session), parser := s.parser.WithoutRequest())
    {
      hide Buffer.Valid, Buffer.Contents, Buffer.View;
      parser.CleanRequest();
      hide RequestParser.Valid;
      session.mailFrom, session.rcptTo := "", [];
    }

    // ----- Events

    /** The callback that the selector enters for an event. */
    method Handle(e: Event, a: Answers)
      requires Valid() && Enabled(Abs(), e) && Ready(Abs(), e)
      modifies Repr
      ensures Valid() && Abs() == Connections.Step(Always(a), old(Abs()), e)
    {
      hide Connections.ReadHandler, Connections.WriteHandler, FileHandler, Buffer.Valid, Buffer.Contents,
           RequestParser.Valid;
      match e
      case ClientWritable(k, stale, file) => WriteHandler(a, k, stale, file);
      case ClientReadable(bytes) => ReadHandler(a, bytes);
      case FileWritable(fd, ok, file) => WriteFile(a, fd, ok, file);
    }

    /** A whole connection, whatever happens to it: the callbacks lead through exactly the states of the transition
        system. `answers` are those that the rest of the process has ready at each event. */
    method Serve(ghost env: Env, es: seq<Event>, answers: seq<Answers>)
      requires Valid() && Abs() == ACCEPTED && Legal(env, es) && |answers| == |es|
      requires forall i :: 0 <= i < |es| ==> answers[i] == env(|Connections.Run(env, es[..i]).history|)
      modifies Repr
      ensures Valid() && Abs() == Connections.Run(env, es)
    {
      hide Sane, Connections.Step, Connections.Run, Legal, Ready, Enabled;
      NothingHappened(env);
      RunsAreSane(env, es);
      assert es[..0] == [];
      for i := 0 to |es|
        invariant Valid() && Abs() == Connections.Run(env, es[..i])
      {
        assert es[..i + 1][..i] == es[..i];
        LastStep(env, es[..i + 1]);
        OneAnswer(env, Abs(), es[i]);
        Handle(es[i], answers[i]);
      }
      assert es[..|es|] == es;
    }
  }

  // ----- What the callbacks need to know about the steps

  lemma StaysOpen(s: Conn, next: Socket)
    requires s.status.Open? && s.current == Some(next) && OnRead(next)
    ensures Landed(s, next) == s
  {
  }

  lemma ErrorEnds(s: Conn)
    requires s.status.Open?
    ensures Landed(s, ReqError) == Finish(s.(current := Some(ReqError)))
  {
  }

  lemma JumpIsPrepared(s: Conn, next: Socket, file: int)
    requires HasHandler(s.session.state) && s.current == Some(ReqWrite)
    ensures var t := Jump(s, next, file);
            && t.current == Some(next) && t.status == s.status && t.input == s.input
            && (next.ReqRead? || next.ReqData? ==> Prepared(t))
  {
  }

  lemma SpooledIsPrepared(env: Env, s: Conn, file: int)
    requires HasHandler(s.session.state) && s.current == Some(ReqDataWrite) && s.status.Open?
    ensures var t := Spooled(env, s, file); t.current == Some(ReqData) ==> Prepared(t) && t.status.Open?
  {
    SpooledStatus(env, s, file);
  }

  /** What write_handler does with the value that request_write_handler returned. */
  lemma WriteOutcomes(env: Env, s: Conn, k: int, stale: nat, file: int)
    requires HasHandler(s.session.state) && -1 <= k <= |s.output.pending| && s.current != Some(ReqDataWrite)
    ensures var r := Connections.WriteHandler(env, s, k, stale, file);
            if s.current.Some? && !OnWrite(s.current.value) then r == s.(status := Aborted)
            else if k < 0 then r == Returned(env, s.(current := Some(ReqWrite)), ReqError, file)
            else
              var t := Sent(s, k);
              if t.output.pending == "" then
                r == Returned(env, t.(client := Reading), AfterReply(s.session.state), file)
              else if stale > 6 then r == t.(status := Aborted)
              else r == Returned(env, t, StateOf(stale), file)
    ensures forall next: Socket :: StateOf(Id(next)) == next
  {
    hide Connections.ReadHandler;
  }

  lemma NothingRequested(p: Parser)
    ensures p.WithoutRequest().Verb() == p.WithoutRequest().Text() == ""
    ensures p == p.WithoutRequest() ==> p.Verb() == p.Text() == ""
  {
  }

  lemma EmptyVerb(arg: string)
    ensures Classify("", arg) == Unknown
  {
  }

  lemma CopyNext(sp: Spool, rcpts: seq<string>)
    requires rcpts != []
    ensures Copied(sp, rcpts) == Copied(Copied(sp, [rcpts[0]]), rcpts[1..])
  {
    assert [rcpts[0]][1..] == [];
  }

  lemma NothingToCopy(sp: Spool)
    ensures Copied(sp, []) == sp
  {
  }

  lemma SettledBody(s: Conn, i: Input, u: Conn, next: Socket)
    requires i.BodyEnd? && HasHandler(s.session.state) && s.status.Open? && s.current == Some(ReqDataWrite)
    requires Landed(u, next) == Settle(s, i)
    ensures u.status.Open? ==> next != ReqDone && next != ReqError && u.(current := Some(next)) == Settle(s, i)
    ensures !u.status.Open? ==> u == Settle(s, i)
  {
    hide Respond, Render;
    OnlyQuitEnds(s.session, Unknown, i.answers);
  }

  // ----- The table of states

  /** states_handlers, with the callbacks that each state provides. */
  const STATES: seq<Stm.StateDefinition> := [
    Stm.StateDefinition(0, true, true, true, false),
    Stm.StateDefinition(1, false, false, false, true),
    Stm.StateDefinition(2, true, true, true, false),
    Stm.StateDefinition(3, true, true, true, false),
    Stm.StateDefinition(4, false, false, false, true),
    Stm.StateDefinition(5, false, false, false, false),
    Stm.StateDefinition(6, false, false, false, false)]

  /** The engine accepts the table, and the table agrees with the step relation: the same states react to the same
      events, a number is used by one state only, and a state without on_arrival is entered without any effect. */
  lemma TableMatches(s: Socket, t: Conn, file: int)
    ensures |STATES| == 7 && forall i :: 0 <= i < |STATES| ==> STATES[i].state == i
    ensures STATES[Id(s)].onReadReady == OnRead(s) && STATES[Id(s)].onWriteReady == OnWrite(s)
    ensures forall other :: Id(other) == Id(s) ==> other == s
    ensures !STATES[Id(s)].onArrival ==> Jump(t, s, file) == t.(current := Some(s))
  {
  }
}
