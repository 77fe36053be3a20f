/** process.c as it is written: handlers that compare verbs and update the session in place. Each is proved
    against the transition system of `Dialogue`. */
module SmtpSessions {
  import opened CStrings
  import opened LineSyntax
  import opened Dialogue

  const VALID_COMMANDS := ["HELO", "EHLO", "MAIL", "RCPT", "DATA", "XFROM", "XAUTH", "XGET", "XQUIT", "XTRAN"]

  predicate IsKnown(verb: string) {
    exists i :: 0 <= i < |VALID_COMMANDS| && SameIgnoringCase(verb, VALID_COMMANDS[i])
  }

  lemma KnownVerbs(verb: string, arg: string)
    ensures var c := Classify(verb, arg);
            !(c.Noop? || c.Quit? || c.Rset?) ==> (IsKnown(verb) <==> !c.Unknown?)
  {
    var c := Classify(verb, arg);
    if !(c.Noop? || c.Quit? || c.Rset? || c.Unknown?) {
      assert VALID_COMMANDS[0] == "HELO" && VALID_COMMANDS[1] == "EHLO" && VALID_COMMANDS[2] == "MAIL";
      assert VALID_COMMANDS[3] == "RCPT" && VALID_COMMANDS[4] == "DATA" && VALID_COMMANDS[5] == "XFROM";
      assert VALID_COMMANDS[6] == "XAUTH" && VALID_COMMANDS[7] == "XGET" && VALID_COMMANDS[8] == "XQUIT";
      assert VALID_COMMANDS[9] == "XTRAN";
    }
  }

  /** Different verbs are never confused, so the order of the comparisons does not matter. */
  lemma VerbsAreDistinct(verb: string, arg: string)
    ensures var c := Classify(verb, arg);
            && (c.Noop? <==> SameIgnoringCase(verb, "NOOP"))
            && (c.Quit? <==> SameIgnoringCase(verb, "QUIT"))
            && (c.Rset? <==> SameIgnoringCase(verb, "RSET"))
            && (c.Leave? <==> SameIgnoringCase(verb, "XQUIT"))
            && (c.Hello? <==> SameIgnoringCase(verb, "HELO") || SameIgnoringCase(verb, "EHLO"))
            && (c.Mail? <==> SameIgnoringCase(verb, "MAIL"))
            && (c.Rcpt? <==> SameIgnoringCase(verb, "RCPT"))
            && (c.Data? <==> SameIgnoringCase(verb, "DATA"))
            && (c.Auth? <==> SameIgnoringCase(verb, "XAUTH"))
            && (c.Inspect? <==> SameIgnoringCase(verb, "XFROM"))
            && (c.Transform? <==> SameIgnoringCase(verb, "XTRAN"))
            && (c.Get? <==> SameIgnoringCase(verb, "XGET"))
            && (!c.Noop? && !c.Leave? && !c.Data? && !c.Unknown? ==> c.arg == arg)
  {
    assert SameIgnoringCase(verb, "NOOP") ==> ToLower(verb[0]) == 'n';
    assert SameIgnoringCase(verb, "QUIT") ==> ToLower(verb[0]) == 'q';
    assert SameIgnoringCase(verb, "RSET") ==> ToLower(verb[0]) == 'r' && ToLower(verb[1]) == 's';
    assert SameIgnoringCase(verb, "HELO") ==> ToLower(verb[0]) == 'h';
    assert SameIgnoringCase(verb, "EHLO") ==> ToLower(verb[0]) == 'e';
    assert SameIgnoringCase(verb, "MAIL") ==> ToLower(verb[0]) == 'm';
    assert SameIgnoringCase(verb, "RCPT") ==> ToLower(verb[0]) == 'r' && ToLower(verb[1]) == 'c';
    assert SameIgnoringCase(verb, "DATA") ==> ToLower(verb[0]) == 'd';
    assert SameIgnoringCase(verb, "XGET") ==> ToLower(verb[0]) == 'x';
    assert SameIgnoringCase(verb, "XQUIT") ==> ToLower(verb[0]) == 'x' && ToLower(verb[1]) == 'q';
    assert SameIgnoringCase(verb, "XAUTH") ==> ToLower(verb[0]) == 'x' && ToLower(verb[1]) == 'a';
    assert SameIgnoringCase(verb, "XFROM") ==> ToLower(verb[0]) == 'x' && ToLower(verb[1]) == 'f';
    assert SameIgnoringCase(verb, "XTRAN") ==> ToLower(verb[0]) == 'x' && ToLower(verb[1]) == 't';
  }

  const BODY_SIZE := 1024

  class SmtpSession {
    var state: SmtpState
    var mailFrom: string
    var rcptTo: seq<string>
    var user: string
    var data: string // a C string in an array of BODY_SIZE characters

    ghost function View(): Session
      reads this
    {
      Session(state, mailFrom, rcptTo, user)
    }

    constructor ()
      ensures View() == START
    {
      state, mailFrom, rcptTo, user, data := EHLO, "", [], "", "";
    }

    /** is_valid */
    method IsValid(verb: string, expected: string, msg: Reply) returns (ok: bool, reply: Reply)
      ensures ok == SameIgnoringCase(verb, expected)
      ensures reply == if ok then msg else if IsKnown(verb) then BadSequence else BadCommand
    {
      reply := msg;
      ok := SameIgnoringCase(verb, expected);
      if !ok {
        for i := 0 to |VALID_COMMANDS|
          invariant forall j :: 0 <= j < i ==> !SameIgnoringCase(verb, VALID_COMMANDS[j])
        {
          if SameIgnoringCase(verb, VALID_COMMANDS[i]) {
            reply := BadSequence;
            return;
          }
        }
        reply := BadCommand;
      }
    }

    method HandleHelo(verb: string, arg: string) returns (next: SmtpState, reply: Reply)
      ensures Say(View(), next, reply) == AtEhlo(View(), Classify(verb, arg))
    {
      VerbsAreDistinct(verb, arg);
      if !SameIgnoringCase(verb, "HELO") && !SameIgnoringCase(verb, "EHLO") {
        return EHLO, BadCommand;
      }
      if arg == "" {
        return EHLO, BadCommand;
      }
      return FROM, Welcome;
    }

    method HandleFrom(verb: string, arg: string, msg: Reply) returns (next: SmtpState, reply: Reply)
      requires Sequential(verb, arg)
      modifies this`mailFrom
      ensures Say(View(), next, reply) == AtFrom(old(View()), Classify(verb, arg))
    {
      VerbsAreDistinct(verb, arg);
      KnownVerbs(verb, arg);
      if SameIgnoringCase(verb, "XAUTH") {
        next, reply := HandleXAuth(verb, arg, msg);
        return;
      }
      var ok, answer := IsValid(verb, "MAIL", msg);
      if !ok {
        return FROM, answer;
      }
      if !HasPrefixIgnoringCase(arg, "FROM:") {
        return FROM, BadSyntax("MAIL FROM:<address>");
      }
      var mail := ExtractEmail(arg[|"FROM:"|..]);
      if mail.None? {
        return FROM, BadSyntax("MAIL FROM:<address>");
      }
      var at := StrChr(mail.value, '@');
      if at != -1 {
        if mail.value[at + 1..] != "local" {
          return FROM, MailFromUnknown(mail.value);
        }
      }
      mailFrom := mail.value;
      return TO, Ok("2.1.0");
    }

    method HandleTo(verb: string, arg: string, msg: Reply) returns (next: SmtpState, reply: Reply)
      requires Sequential(verb, arg)
      modifies this`rcptTo
      ensures Say(View(), next, reply) == AtTo(old(View()), Classify(verb, arg))
    {
      VerbsAreDistinct(verb, arg);
      KnownVerbs(verb, arg);
      var ok, answer := IsValid(verb, "RCPT", msg);
      if !ok {
        return TO, answer;
      }
      if !HasPrefixIgnoringCase(arg, "TO:") {
        return TO, BadSyntax("RCPT TO:<address>");
      }
      var mail := ExtractEmail(arg[|"TO:"|..]);
      if mail.None? {
        return TO, BadSyntax("RCPT TO:<address>");
      }
      var at := StrChr(mail.value, '@');
      if at != -1 {
        if mail.value[at + 1..] != "local" {
          return TO, RcptToUnknown(mail.value);
        }
      }
      rcptTo := rcptTo + [mail.value];
      return DATA, Ok("2.1.0");
    }

    /** `text` is request.data; the copy has to fit. */
    method HandleBody(text: string) returns (next: SmtpState, reply: Reply)
      requires |text| < BODY_SIZE
      modifies this`state, this`data
      ensures Say(View(), next, reply) == AtBody(old(View())) && data == text
    {
      data := text;
      state := EHLO;
      return EHLO, OkBody;
    }

    method HandleData(verb: string, arg: string, msg: Reply) returns (next: SmtpState, reply: Reply)
      requires Sequential(verb, arg)
      modifies this`rcptTo
      ensures Say(View(), next, reply) == AtData(old(View()), Classify(verb, arg))
    {
      VerbsAreDistinct(verb, arg);
      if SameIgnoringCase(verb, "RCPT") {
        next, reply := HandleTo(verb, arg, msg);
        if next == DATA {
          return;
        }
      }
      if !SameIgnoringCase(verb, "DATA") {
        return DATA, BadCommand;
      }
      return BODY, OkData;
    }

    method HandleXAuth(verb: string, arg: string, msg: Reply) returns (next: SmtpState, reply: Reply)
      requires Sequential(verb, arg)
      ensures Say(View(), next, reply) == AtAuth(View(), Classify(verb, arg))
    {
      VerbsAreDistinct(verb, arg);
      KnownVerbs(verb, arg);
      var ok, answer := IsValid(verb, "XAUTH", msg);
      if !ok {
        return FROM, answer;
      }
      if arg == "" {
        // the value `true` is returned, which is FROM
        return FROM, BadSyntax("AUTH <password>");
      }
      if arg != PASSWORD {
        return FROM, BadPassword;
      }
      return XFROM, Authenticated;
    }

    method HandleXFrom(verb: string, arg: string, a: Answers) returns (next: SmtpState, reply: Reply)
      requires Sequential(verb, arg)
      modifies this`user
      ensures Say(View(), next, reply) == AtXFrom(old(View()), Classify(verb, arg), a)
    {
      VerbsAreDistinct(verb, arg);
      KnownVerbs(verb, arg);
      if SameIgnoringCase(verb, "XTRAN") {
        next, reply := HandleXTran(verb, arg, a);
        return;
      }
      var ok, answer := IsValid(verb, "XFROM", Text(a.leftover));
      if !ok {
        return XFROM, answer;
      }
      if !a.isUser {
        return XFROM, BadUser;
      }
      user := arg;
      return XGET, Ok("XFROM!");
    }

    method HandleXTran(verb: string, arg: string, a: Answers) returns (next: SmtpState, reply: Reply)
      requires Sequential(verb, arg)
      ensures Say(View(), next, reply) == AtXTran(View(), Classify(verb, arg), a.leftover)
    {
      VerbsAreDistinct(verb, arg);
      KnownVerbs(verb, arg);
      var ok, answer := IsValid(verb, "XTRAN", Text(a.leftover));
      if !ok {
        return XFROM, answer;
      }
      reply := Text(a.leftover);
      if SameIgnoringCase(arg, "OFF") {
        reply := Ok("XTRAN OFF");
      }
      if SameIgnoringCase(arg, "ON") {
        reply := Ok("XTRAN ON");
      }
      next := XFROM;
    }

    method HandleXGet(verb: string, arg: string, a: Answers) returns (next: SmtpState, reply: Reply)
      requires Sequential(verb, arg)
      modifies this`user
      ensures Say(View(), next, reply) == AtXGet(old(View()), Classify(verb, arg), a)
    {
      VerbsAreDistinct(verb, arg);
      KnownVerbs(verb, arg);
      if SameIgnoringCase(verb, "XFROM") {
        next, reply := HandleXFrom(verb, arg, a);
        return;
      }
      var ok, answer := IsValid(verb, "XGET", Text(a.leftover));
      if !ok {
        return XGET, answer;
      }
      if SameIgnoringCase(arg, "ALL") {
        reply := Text(a.listing);
      } else if a.validDate {
        reply := Text(a.listing);
      } else {
        return XGET, BadSyntax("XGET <date> | XGET ALL");
      }
      user := "";
      next := XGET;
    }

    /** A request that handle_noop, handle_quit and handle_reset have let pass. */
    static predicate Sequential(verb: string, arg: string) {
      var c := Classify(verb, arg);
      !c.Noop? && !c.Quit? && !c.Rset?
    }

    /** The entry of handlers_table for the current state. */
    method HandleSequential(verb: string, arg: string, text: string, a: Answers) returns (next: SmtpState, reply: Reply)
      requires Sequential(verb, arg) && HasHandler(state) && |text| < BODY_SIZE
      modifies this
      ensures Say(View(), next, reply) == InSequence(old(View()), Classify(verb, arg), a)
    {
      var msg := Text(a.leftover);
      match state {
        case EHLO => next, reply := HandleHelo(verb, arg);
        case FROM => next, reply := HandleFrom(verb, arg, msg);
        case TO => next, reply := HandleTo(verb, arg, msg);
        case DATA => next, reply := HandleData(verb, arg, msg);
        case BODY => next, reply := HandleBody(text);
        case XAUTH => next, reply := HandleXAuth(verb, arg, msg);
        case XFROM => next, reply := HandleXFrom(verb, arg, a);
        case XGET => next, reply := HandleXGet(verb, arg, a);
        case XTRAN => next, reply := HandleXTran(verb, arg, a);
      }
    }

    /** handle_noop, handle_quit, handle_reset and handle_xquit, then the handler of the state. */
    method Process(verb: string, arg: string, text: string, a: Answers) returns (quit: bool, reply: Reply)
      requires HasHandler(state) && |text| < BODY_SIZE
      modifies this
      ensures var t := Respond(old(View()), Classify(verb, arg), a);
              quit == t.quit && View() == t.session && (!quit ==> reply == t.reply)
    {
      VerbsAreDistinct(verb, arg);
      reply := Text(a.leftover);
      if SameIgnoringCase(verb, "NOOP") {
        return false, Ok("2.0.0");
      }
      if SameIgnoringCase(verb, "QUIT") {
        if arg == "" {
          state := FROM;
        }
        return true, reply;
      }
      if SameIgnoringCase(verb, "RSET") {
        if arg != "" {
          return false, BadSyntax("RSET");
        }
        state := FROM;
        return false, Ok("2.0.0");
      }
      if SameIgnoringCase(verb, "XQUIT") && (state == XFROM || state == XGET) {
        state := FROM;
        return false, Ok("XQUIT!");
      }
      var next, answer := HandleSequential(verb, arg, text, a);
      state := next;
      return false, answer;
    }
  }
}
