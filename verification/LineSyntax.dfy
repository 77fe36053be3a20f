/** request.c and request_admin.c: the byte-at-a-time parser of one command line, as a function on values. */
module LineSyntax {
  import opened CStrings

  /** enum request_state; `Fault` stands for a store outside the request's arrays. */
  datatype Phase = InVerb | InArg | InCr | InBody | Complete | Failed | Fault

  /** Which of the two nearly identical parsers is running. */
  datatype Kind = Command | Admin

  /** The parser state with the characters stored so far in request.verb and request.arg. */
  datatype Parse = Parse(phase: Phase, verb: string, arg: string)

  const VERB_MAX := 15 // sizeof(verb) - 1
  const ARG_MAX := 255 // sizeof(arg) - 1

  const INIT := Parse(InVerb, "", "")

  /** request_is_done */
  predicate IsDone(phase: Phase) {
    phase.Complete? || phase.Failed? || phase.Fault?
  }

  /** The verbs that may be followed by CR without an argument; only a prefix is compared. */
  predicate MayStandAlone(kind: Kind, verb: string) {
    var v := CStr(verb);
    match kind
    case Command =>
      HasPrefixIgnoringCase(v, "DATA") || HasPrefixIgnoringCase(v, "RSET")
      || HasPrefixIgnoringCase(v, "QUIT") || HasPrefixIgnoringCase(v, "NOOP")
    case Admin => HasPrefixIgnoringCase(v, "XQUIT")
  }

  /** request_parser_feed with verb() and arg(). */
  function Feed(kind: Kind, p: Parse, c: char): Parse {
    match p.phase
    case InVerb =>
      if c == ' ' then p.(phase := InArg)
      else if c == '\r' then p.(phase := if MayStandAlone(kind, p.verb) then InCr else Failed)
      else if |p.verb| < VERB_MAX then p.(verb := p.verb + [c])
      else p.(phase := Failed)
    case InArg =>
      if c == '\r' then p.(phase := InCr)
      else if |p.arg| < ARG_MAX then p.(arg := p.arg + [c])
      else p.(phase := Failed)
    case InCr => p.(phase := if c == '\n' then Complete else Failed)
    case _ => p.(phase := Failed)
  }

  function FeedAll(kind: Kind, p: Parse, s: string): Parse
    decreases |s|
  {
    if s == "" then p else FeedAll(kind, Feed(kind, p, s[0]), s[1..])
  }

  /** How many bytes of `s` request_consume takes: it stops as soon as the request is done. */
  function ConsumeLength(kind: Kind, p: Parse, s: string): (n: nat)
    ensures n <= |s|
    ensures IsDone(FeedAll(kind, p, s[..n]).phase) || n == |s|
    decreases |s|
  {
    if s == "" || IsDone(p.phase) then 0
    else
      var n := ConsumeLength(kind, Feed(kind, p, s[0]), s[1..]);
      assert s[..n + 1][1..] == s[1..][..n];
      n + 1
  }

  // ----- What a command line is, independently of the automaton

  predicate IsVerb(v: string) {
    |v| <= VERB_MAX && ' ' !in v && '\r' !in v
  }

  predicate IsArg(a: string) {
    |a| <= ARG_MAX && '\r' !in a
  }

  /** `VERB SP ARG CRLF`, or a bare verb that may stand alone. */
  predicate IsLine(kind: Kind, w: string, verb: string, arg: string) {
    && IsVerb(verb) && IsArg(arg)
    && (w == verb + " " + arg + "\r\n" || (arg == "" && MayStandAlone(kind, verb) && w == verb + "\r\n"))
  }

  /** The text a parser has seen when it stands in a phase it can still complete from. */
  predicate Explains(kind: Kind, p: Parse, w: string) {
    && IsVerb(p.verb) && IsArg(p.arg)
    && match p.phase
       case InVerb => p.arg == "" && w == p.verb
       case InArg => w == p.verb + " " + p.arg
       case InCr =>
         w == p.verb + " " + p.arg + "\r"
         || (p.arg == "" && MayStandAlone(kind, p.verb) && w == p.verb + "\r")
       case Complete => IsLine(kind, w, p.verb, p.arg)
       case _ => true
  }

  lemma {:induction false} FeedSplit(kind: Kind, p: Parse, x: string, y: string)
    ensures FeedAll(kind, p, x + y) == FeedAll(kind, FeedAll(kind, p, x), y)
    decreases |x|
  {
    if x == "" {
      assert x + y == y;
    } else {
      FeedSplit(kind, Feed(kind, p, x[0]), x[1..], y);
      assert (x + y)[1..] == x[1..] + y;
    }
  }

  lemma FeedSnoc(kind: Kind, p: Parse, w: string, c: char)
    ensures FeedAll(kind, p, w + [c]) == Feed(kind, FeedAll(kind, p, w), c)
  {
    FeedSplit(kind, p, w, [c]);
    assert FeedAll(kind, FeedAll(kind, p, w), [c]) == Feed(kind, FeedAll(kind, p, w), c);
  }

  lemma NothingFed(kind: Kind, p: Parse, s: string)
    ensures FeedAll(kind, p, s[..0]) == p
  {
  }

  /** The loop of request_consume, one byte further. */
  lemma FeedNext(kind: Kind, p: Parse, s: string, n: nat)
    requires n < |s|
    ensures FeedAll(kind, p, s[..n + 1]) == Feed(kind, FeedAll(kind, p, s[..n]), s[n])
  {
    assert s[..n + 1] == s[..n] + [s[n]];
    FeedSnoc(kind, p, s[..n], s[n]);
  }

  lemma {:induction false} PhaseExplainsText(kind: Kind, w: string)
    ensures Explains(kind, FeedAll(kind, INIT, w), w)
    decreases |w|
  {
    if w != "" {
      var v, c := w[..|w| - 1], w[|w| - 1];
      assert w == v + [c];
      PhaseExplainsText(kind, v);
      FeedSnoc(kind, INIT, v, c);
      FeedExplains(kind, FeedAll(kind, INIT, v), v, c);
    }
  }

  lemma FeedExplains(kind: Kind, p: Parse, v: string, c: char)
    requires Explains(kind, p, v)
    ensures Explains(kind, Feed(kind, p, c), v + [c])
  {
    var q := Feed(kind, p, c);
    match p.phase
    case InVerb =>
      assert c == ' ' ==> v + [c] == p.verb + " " + "";
    case InArg =>
      assert v + [c] == p.verb + " " + (p.arg + [c]);
    case InCr =>
      assert p.verb + " " + p.arg + "\r" + "\n" == p.verb + " " + p.arg + "\r\n";
      assert p.verb + "\r" + "\n" == p.verb + "\r\n";
    case _ =>
  }

  lemma {:induction false} FeedVerb(kind: Kind, p: Parse, v: string)
    requires p.phase.InVerb? && IsVerb(v) && |p.verb| + |v| <= VERB_MAX
    ensures FeedAll(kind, p, v) == p.(verb := p.verb + v)
    decreases |v|
  {
    if v == "" {
      assert p.verb + v == p.verb;
    } else {
      assert v[0] in v;
      FeedVerb(kind, Feed(kind, p, v[0]), v[1..]);
      assert p.verb + v == p.verb + [v[0]] + v[1..];
    }
  }

  lemma {:induction false} FeedArg(kind: Kind, p: Parse, a: string)
    requires p.phase.InArg? && IsArg(a) && |p.arg| + |a| <= ARG_MAX
    ensures FeedAll(kind, p, a) == p.(arg := p.arg + a)
    decreases |a|
  {
    if a == "" {
      assert p.arg + a == p.arg;
    } else {
      assert a[0] in a;
      FeedArg(kind, Feed(kind, p, a[0]), a[1..]);
      assert p.arg + a == p.arg + [a[0]] + a[1..];
    }
  }

  lemma FeedLine(kind: Kind, w: string, verb: string, arg: string)
    requires IsLine(kind, w, verb, arg)
    ensures FeedAll(kind, INIT, w) == Parse(Complete, verb, arg)
  {
    FeedVerb(kind, INIT, verb);
    assert "" + verb == verb;
    var p := Parse(InVerb, verb, "");
    if w == verb + " " + arg + "\r\n" {
      assert w == (verb + [' ']) + (arg + "\r\n");
      FeedSplit(kind, INIT, verb + [' '], arg + "\r\n");
      FeedSnoc(kind, INIT, verb, ' ');
      var q := Feed(kind, p, ' ');
      FeedSplit(kind, q, arg, "\r\n");
      FeedArg(kind, q, arg);
      assert "" + arg == arg;
      FeedCrLf(kind, q.(arg := arg));
    } else {
      FeedSplit(kind, INIT, verb, "\r\n");
      FeedCrLf(kind, p);
    }
  }

  lemma FeedCrLf(kind: Kind, p: Parse)
    requires p.phase.InArg? || (p.phase.InVerb? && MayStandAlone(kind, p.verb))
    ensures FeedAll(kind, p, "\r\n") == p.(phase := Complete)
  {
    var q := Feed(kind, p, '\r');
    assert "\r\n"[1..] == "\n" && "\n"[1..] == "";
    assert FeedAll(kind, p, "\r\n") == FeedAll(kind, q, "\n") == FeedAll(kind, Feed(kind, q, '\n'), "");
  }

  /** The parser completes on exactly the well-formed lines and returns their two parts. */
  lemma CompletesExactlyOnLines(kind: Kind, w: string, verb: string, arg: string)
    ensures FeedAll(kind, INIT, w) == Parse(Complete, verb, arg) <==> IsLine(kind, w, verb, arg)
  {
    PhaseExplainsText(kind, w);
    if IsLine(kind, w, verb, arg) {
      FeedLine(kind, w, verb, arg);
    }
  }

  /** A finished parser never leaves that state for the better: nothing after the line is accepted. */
  /** The bare verbs, without the automaton's own condition: a verb that is followed by CR LF at once completes exactly
      when it begins with DATA, RSET, QUIT or NOOP, or with XQUIT in the administrative parser. Exactly these bytes are
      consumed then, whatever follows. */
  lemma BareVerbs(v: string, rest: string)
    requires |v| <= 15 && ' ' !in v && '\r' !in v && NUL !in v
    ensures FeedAll(Command, INIT, v + "\r\n") == Parse(Complete, v, "")
            <==> |v| >= 4 && (exists p :: p in {"DATA", "RSET", "QUIT", "NOOP"} && SameIgnoringCase(v[..4], p))
    ensures FeedAll(Admin, INIT, v + "\r\n") == Parse(Complete, v, "")
            <==> |v| >= 5 && SameIgnoringCase(v[..5], "XQUIT")
    ensures forall kind :: FeedAll(kind, INIT, v + "\r\n") == Parse(Complete, v, "") ==>
              ConsumeLength(kind, INIT, v + "\r\n" + rest) == |v| + 2
  {
    hide SameIgnoringCase;
    CStrOfClean(v);
    forall kind: Kind
      ensures FeedAll(kind, INIT, v + "\r\n") == Parse(Complete, v, "") <==> MayStandAlone(kind, v)
      ensures MayStandAlone(kind, v) ==> ConsumeLength(kind, INIT, v + "\r\n" + rest) == |v| + 2
    {
      CompletesExactlyOnLines(kind, v + "\r\n", v, "");
      assert (v + "\r\n")[|v|] == '\r' && (v + " " + "" + "\r\n")[|v|] == ' ';
      if MayStandAlone(kind, v) {
        ConsumesWholeLine(kind, v + "\r\n", rest, v, "");
      }
    }
  }

  /** How long verbs and arguments may be. */
  lemma LongestLine(verb: string, arg: string)
    requires ' ' !in verb && '\r' !in verb && '\r' !in arg
    ensures FeedAll(Command, INIT, verb + " " + arg + "\r\n") == Parse(Complete, verb, arg)
            <==> |verb| <= 15 && |arg| <= 255
  {
    CompletesExactlyOnLines(Command, verb + " " + arg + "\r\n", verb, arg);
  }

  /** What completes a parser that has not failed. */
  function Completion(p: Parse): string {
    match p.phase
    case InVerb => " \r\n"
    case InArg => "\r\n"
    case InCr => "\n"
    case _ => ""
  }

  /** The parser fails as soon as, and only when, no bytes could complete the line any more. */
  lemma FailsExactlyWhenHopeless(kind: Kind, w: string)
    ensures FeedAll(kind, INIT, w).phase == Failed <==> forall x :: FeedAll(kind, INIT, w + x).phase != Complete
  {
    var p := FeedAll(kind, INIT, w);
    var x := Completion(p);
    FeedSplit(kind, INIT, w, x);
    PhaseExplainsText(kind, w);
    NeverFaults(kind, INIT, w);
    if p.phase != Failed {
      CompletionCompletes(kind, p);
    } else {
      forall y ensures FeedAll(kind, INIT, w + y).phase != Complete {
        FeedSplit(kind, INIT, w, y);
        DoneStaysDone(kind, p, y);
      }
    }
  }

  lemma {:induction false} NeverFaults(kind: Kind, p: Parse, w: string)
    requires p.phase != Fault && p.phase != InBody
    ensures FeedAll(kind, p, w).phase != Fault && FeedAll(kind, p, w).phase != InBody
    decreases |w|
  {
    if w != "" {
      NeverFaults(kind, Feed(kind, p, w[0]), w[1..]);
    }
  }

  lemma CompletionCompletes(kind: Kind, p: Parse)
    requires p.phase != Failed && p.phase != Fault && p.phase != InBody
    ensures FeedAll(kind, p, Completion(p)).phase == Complete
  {
    assert " \r\n"[1..] == "\r\n" && "\r\n"[1..] == "\n" && "\n"[1..] == "";
    if p.phase == InVerb {
      FeedCrLf(kind, p.(phase := InArg));
      assert FeedAll(kind, p, " \r\n") == FeedAll(kind, Feed(kind, p, ' '), "\r\n");
    } else if p.phase == InArg {
      FeedCrLf(kind, p);
    } else if p.phase == InCr {
      assert FeedAll(kind, p, "\n") == FeedAll(kind, Feed(kind, p, '\n'), "");
    }
  }

  lemma {:induction false} DoneStaysDone(kind: Kind, p: Parse, s: string)
    requires IsDone(p.phase)
    ensures FeedAll(kind, p, s) == if s == "" then p else p.(phase := Failed)
    decreases |s|
  {
    if s != "" {
      DoneStaysDone(kind, Feed(kind, p, s[0]), s[1..]);
    }
  }

  /** A complete line is consumed to its last byte, and no byte behind it is touched. */
  lemma ConsumesWholeLine(kind: Kind, w: string, rest: string, verb: string, arg: string)
    requires IsLine(kind, w, verb, arg)
    ensures ConsumeLength(kind, INIT, w + rest) == |w|
    ensures FeedAll(kind, INIT, (w + rest)[..|w|]) == Parse(Complete, verb, arg)
  {
    FeedLine(kind, w, verb, arg);
    assert (w + rest)[..|w|] == w;
    ConsumeIsFirstDone(kind, INIT, w + rest);
    var n := ConsumeLength(kind, INIT, w + rest);
    if n < |w| {
      assert w == (w + rest)[..n] + w[n..];
      FeedSplit(kind, INIT, (w + rest)[..n], w[n..]);
      DoneStaysDone(kind, FeedAll(kind, INIT, (w + rest)[..n]), w[n..]);
      assert false;
    }
  }

  /** No shorter prefix finishes the request. */
  lemma {:induction false} ConsumeIsFirstDone(kind: Kind, p: Parse, s: string)
    ensures forall m :: 0 <= m < ConsumeLength(kind, p, s) ==> !IsDone(FeedAll(kind, p, s[..m]).phase)
    decreases |s|
  {
    if s != "" && !IsDone(p.phase) {
      var q := Feed(kind, p, s[0]);
      ConsumeIsFirstDone(kind, q, s[1..]);
      forall m | 0 <= m < ConsumeLength(kind, p, s)
        ensures !IsDone(FeedAll(kind, p, s[..m]).phase)
      {
        if m > 0 {
          assert s[..m][1..] == s[1..][..m - 1];
        }
      }
    }
  }

  // ----- Streams of lines

  /** The requests in a byte stream, with a fresh parser after each, and the parser left at the end. */
  function Requests(kind: Kind, p: Parse, s: string): (seq<Parse>, Parse)
    decreases |s|
  {
    if s == "" then ([], p)
    else
      var q := Feed(kind, p, s[0]);
      if IsDone(q.phase) then
        var (rs, last) := Requests(kind, INIT, s[1..]);
        ([q] + rs, last)
      else Requests(kind, q, s[1..])
  }

  /** Splitting a stream changes nothing. */
  lemma {:induction false} RequestsSplit(kind: Kind, p: Parse, x: string, y: string)
    ensures var (rx, px) := Requests(kind, p, x);
            var (ry, py) := Requests(kind, px, y);
            Requests(kind, p, x + y) == (rx + ry, py)
    decreases |x|
  {
    if x == "" {
      assert x + y == y;
      assert [] + Requests(kind, p, y).0 == Requests(kind, p, y).0;
    } else {
      var q := Feed(kind, p, x[0]);
      assert (x + y)[0] == x[0] && (x + y)[1..] == x[1..] + y;
      if IsDone(q.phase) {
        RequestsSplit(kind, INIT, x[1..], y);
        var (rx, px) := Requests(kind, INIT, x[1..]);
        var (ry, py) := Requests(kind, px, y);
        assert [q] + (rx + ry) == ([q] + rx) + ry;
      } else {
        RequestsSplit(kind, q, x[1..], y);
      }
    }
  }

  /** One call of request_consume, seen from the stream. */
  lemma {:induction false} RequestsConsume(kind: Kind, p: Parse, s: string)
    requires !IsDone(p.phase)
    ensures var n := ConsumeLength(kind, p, s);
            var q := FeedAll(kind, p, s[..n]);
            && Requests(kind, p, s[..n]) == (if IsDone(q.phase) then ([q], INIT) else ([], q))
            && (s != "" ==> n > 0)
    decreases |s|
  {
    if s != "" {
      var q := Feed(kind, p, s[0]);
      var n := ConsumeLength(kind, p, s);
      assert s[..n][0] == s[0] && s[..n][1..] == s[1..][..n - 1];
      if IsDone(q.phase) {
        assert ConsumeLength(kind, q, s[1..]) == 0;
        assert s[..n][1..] == "";
        assert Requests(kind, INIT, "") == ([], INIT);
        assert [q] + [] == [q];
      } else {
        RequestsConsume(kind, q, s[1..]);
      }
    }
  }

  datatype CommandLine = CommandLine(verb: string, arg: string)

  predicate Printable(c: CommandLine) {
    IsVerb(c.verb) && IsArg(c.arg)
  }

  function Print(c: CommandLine): string {
    c.verb + " " + c.arg + "\r\n"
  }

  function Parsed(cs: seq<CommandLine>): seq<Parse> {
    if cs == [] then [] else [Parse(Complete, cs[0].verb, cs[0].arg)] + Parsed(cs[1..])
  }

  function PrintAll(cs: seq<CommandLine>): string {
    if cs == [] then "" else Print(cs[0]) + PrintAll(cs[1..])
  }

  /** Any list of lines, with an argument or bare, is parsed as the commands that they are. */
  lemma {:induction false} LinesThenParse(kind: Kind, lines: seq<string>, cs: seq<CommandLine>)
    requires |lines| == |cs| && forall k :: 0 <= k < |cs| ==> IsLine(kind, lines[k], cs[k].verb, cs[k].arg)
    ensures Requests(kind, INIT, Concat(lines)) == (Parsed(cs), INIT)
    decreases |cs|
  {
    hide IsLine;
    if cs != [] {
      var w, rest := lines[0], Concat(lines[1..]);
      assert forall k :: 0 <= k < |cs[1..]| ==> lines[1..][k] == lines[k + 1] && cs[1..][k] == cs[k + 1];
      LinesThenParse(kind, lines[1..], cs[1..]);
      ConsumesWholeLine(kind, w, rest, cs[0].verb, cs[0].arg);
      RequestsConsume(kind, INIT, w + rest);
      assert (w + rest)[..|w|] == w;
      RequestsSplit(kind, INIT, w, rest);
    }
  }

  /** Printing a list of commands and parsing the stream gives the list back. */
  lemma {:induction false} PrintThenParse(kind: Kind, cs: seq<CommandLine>)
    requires forall c :: c in cs ==> Printable(c)
    ensures Requests(kind, INIT, PrintAll(cs)) == (Parsed(cs), INIT)
  {
    if cs != [] {
      assert Printable(cs[0]);
      var w, rest := Print(cs[0]), PrintAll(cs[1..]);
      PrintThenParse(kind, cs[1..]);
      ConsumesWholeLine(kind, w, rest, cs[0].verb, cs[0].arg);
      RequestsConsume(kind, INIT, w + rest);
      assert (w + rest)[..|w|] == w;
      RequestsSplit(kind, INIT, w, rest);
    }
  }
}
