/** request.h: the request and its parser as mutable state, filled in place from a buffer. */
module RequestParsers {
  import opened Buffers
  import opened CStrings
  import opened LineSyntax
  import BodySyntax

  /** What a request_parser stands for: one of the line parsers, or the body parser. */
  datatype Parser = LineParser(parse: Parse) | BodyParser(body: BodySyntax.Body)
  {
    function Phase(): Phase {
      match this
      case LineParser(p) => p.phase
      case BodyParser(b) => b.phase
    }

    /** request.verb as a C string */
    function Verb(): string {
      if LineParser? then CStr(parse.verb) else ""
    }

    /** request.arg as a C string */
    function Arg(): string {
      if LineParser? then CStr(parse.arg) else ""
    }

    /** request.data as a C string */
    function Text(): string {
      if BodyParser? then BodySyntax.Text(body) else ""
    }

    /** memset(&data->request, 0, ...) */
    function WithoutRequest(): Parser {
      match this
      case LineParser(p) => LineParser(p.(verb := "", arg := ""))
      case BodyParser(b) => BodyParser(b.(stored := ""))
    }
  }

  /** An array of `n` characters starting with `s` and zeroed behind it. */
  ghost predicate Padded(a: seq<char>, s: string) {
    s <= a && |s| < |a| && forall i :: |s| <= i < |a| ==> a[i] == NUL
  }

  lemma {:induction false} CStrOfPadded(a: seq<char>, s: string)
    requires Padded(a, s)
    ensures CStr(a) == CStr(s)
  {
    assert a == s + a[|s|..];
    CStrStops(s, a[|s|..]);
  }

  lemma PaddedStandsAlone(kind: Kind, a: seq<char>, s: string)
    requires Padded(a, s)
    ensures MayStandAlone(kind, a) == MayStandAlone(kind, s)
  {
    CStrOfPadded(a, s);
  }

  class RequestParser {
    const verb: array<char>
    const arg: array<char>
    const data: array<char>
    var state: Phase
    var i: nat
    ghost var view: Parser

    ghost const Arrays: set<object> := {verb, arg, data}

    ghost predicate Valid()
      reads this, verb, arg, data
    {
      && verb.Length == VERB_MAX + 1 && arg.Length == ARG_MAX + 1 && data.Length == BodySyntax.DATA_MAX + 1
      && verb != arg && verb != data && arg != data
      && state == view.Phase()
      && match view
         case LineParser(p) =>
           && Padded(verb[..], p.verb) && Padded(arg[..], p.arg) && Padded(data[..], "")
           && (state.InVerb? ==> i == |p.verb| && p.arg == "")
           && (state.InArg? ==> i == |p.arg|)
         case BodyParser(b) =>
           && Padded(verb[..], "") && Padded(arg[..], "") && Padded(data[..], b.stored)
           && |b.stored| <= i < data.Length && (!IsDone(state) ==> i == |b.stored|)
    }

    constructor ()
      ensures Valid() && fresh(verb) && fresh(arg) && fresh(data)
      ensures view == LineParser(INIT)
    {
      verb := new char[VERB_MAX + 1](_ => NUL);
      arg := new char[ARG_MAX + 1](_ => NUL);
      data := new char[BodySyntax.DATA_MAX + 1](_ => NUL);
      state, i, view := InVerb, 0, LineParser(INIT);
    }

    /** request_parser_init and request_parser_admin_init */
    method InitLine()
      requires Valid()
      modifies this, verb, arg, data
      ensures Valid() && view == LineParser(INIT)
    {
      i, state, view := 0, InVerb, LineParser(INIT);
      ClearRequest();
    }

    /** request_parser_data_init */
    method InitBody()
      requires Valid()
      modifies this, verb, arg, data
      ensures Valid() && view == BodyParser(BodySyntax.START)
    {
      i, state, view := 0, InBody, BodyParser(BodySyntax.START);
      ClearRequest();
    }

    /** The memset of clean_request, which leaves the parser of a finished request as it is. */
    method CleanRequest()
      requires Valid() && IsDone(state)
      modifies this`view, verb, arg, data
      ensures Valid() && view == old(view).WithoutRequest()
    {
      view := view.WithoutRequest();
      ClearRequest();
    }

    /** memset(request, 0, sizeof(*request)) */
    method ClearRequest()
      modifies verb, arg, data
      ensures forall j :: 0 <= j < verb.Length ==> verb[j] == NUL
      ensures forall j :: 0 <= j < arg.Length ==> arg[j] == NUL
      ensures forall j :: 0 <= j < data.Length ==> data[j] == NUL
    {
      forall j | 0 <= j < verb.Length { verb[j] := NUL; }
      forall j | 0 <= j < arg.Length { arg[j] := NUL; }
      forall j | 0 <= j < data.Length { data[j] := NUL; }
    }

    /** request_parser_feed, with verb() and arg() */
    method FeedLine(kind: Kind, c: char)
      requires Valid() && view.LineParser?
      modifies this, verb, arg
      ensures Valid() && view == LineParser(Feed(kind, old(view).parse, c))
    {
      hide MayStandAlone, CStr;
      ghost var p := view.parse;
      match state {
        case InVerb =>
          if c == ' ' {
            arg[i] := NUL;
            i, state := 0, InArg;
          } else if c == '\r' {
            PaddedStandsAlone(kind, verb[..], p.verb);
            if MayStandAlone(kind, verb[..]) {
              verb[i] := NUL;
              i, state := 0, InCr;
            } else {
              state := Failed;
            }
          } else if i < verb.Length - 1 {
            verb[i] := c;
            i := i + 1;
          } else {
            state := Failed;
          }
        case InArg =>
          if c == '\r' {
            arg[i] := NUL;
            state := InCr;
          } else if i < arg.Length - 1 {
            arg[i] := c;
            i := i + 1;
          } else {
            state := Failed;
          }
        case InCr => state := if c == '\n' then Complete else Failed;
        case _ => state := Failed;
      }
      view := LineParser(Feed(kind, p, c));
    }

    /** request_consume and request_consume_admin */
    method ConsumeLine(kind: Kind, b: Buffer) returns (st: Phase)
      requires Valid() && view.LineParser? && b.Valid() && b.data !in Arrays
      modifies this, verb, arg, b, b.data
      ensures Valid() && b.Valid()
      ensures var s, n := old(b.Contents()), ConsumeLength(kind, old(view).parse, old(b.Contents()));
              && view == LineParser(FeedAll(kind, old(view).parse, s[..n]))
              && b.Contents() == s[n..]
      ensures st == view.Phase()
    {
      hide Padded, Feed, FeedAll, Buffer.Valid, Buffer.Contents, Buffer.View;
      ghost var s, p := b.Contents(), view.parse;
      ghost var n := 0;
      NothingFed(kind, p, s);
      while b.CanRead() && !IsDone(state)
        invariant Valid() && view.LineParser? && b.Valid()
        invariant 0 <= n <= |s| && b.Contents() == s[n..]
        invariant view.parse == FeedAll(kind, p, s[..n])
        invariant ConsumeLength(kind, p, s) == n + ConsumeLength(kind, view.parse, s[n..])
        decreases |s| - n
      {
        var c := b.Read();
        assert c == s[n] && s[n..][1..] == s[n + 1..];
        FeedNext(kind, p, s, n);
        FeedLine(kind, c);
        n := n + 1;
      }
      st := state;
    }

    /** request_parser_data_feed, with body(). A store outside the array is not carried out: the state is Fault. */
    method FeedBody(c: char)
      requires Valid() && view.BodyParser?
      modifies this, data
      ensures Valid() && view == BodyParser(BodySyntax.Feed(old(view).body, c))
    {
      ghost var p := view.body;
      match state {
        case InBody =>
          if c == '\r' && i > 1 && data[i - 1] == '.' && data[i - 2] == '\n' {
            if i == 2 {
              state := Fault;
            } else {
              data[i - 3] := NUL;
              state := InCr;
            }
          } else if i < data.Length - 1 {
            data[i] := c;
            i := i + 1;
          } else {
            data[i] := NUL;
          }
        case InCr => state := if c == '\n' then Complete else Failed;
        case _ => state := Failed;
      }
      view := BodyParser(BodySyntax.Feed(p, c));
    }

    /** request_consume_data */
    method ConsumeBody(b: Buffer) returns (st: Phase)
      requires Valid() && view.BodyParser? && !IsDone(view.Phase()) && b.Valid() && b.data !in Arrays
      modifies this, data, b, b.data
      ensures Valid() && b.Valid()
      ensures var s, n := old(b.Contents()), BodySyntax.ConsumeLength(old(view).body, old(b.Contents()));
              && view == BodyParser(BodySyntax.FeedAll(old(view).body, s[..n]))
              && b.Contents() == s[n..]
      ensures st == view.Phase()
    {
      hide Padded, BodySyntax.Feed, BodySyntax.FeedAll, Buffer.Valid, Buffer.Contents, Buffer.View;
      ghost var s, p := b.Contents(), view.body;
      assert BodySyntax.FeedAll(p, s[..0]) == p by { BodySyntax.NothingFed(p, s); }
      ghost var total := BodySyntax.ConsumeLength(p, s);
      ghost var n := 0;
      var done := false;
      while b.CanRead() && i < data.Length - 1 && !done
        invariant Valid() && view.BodyParser? && b.Valid()
        invariant done == IsDone(state)
        invariant 0 <= n <= total && b.Contents() == s[n..]
        invariant view.body == BodySyntax.FeedAll(p, s[..n])
        invariant total == n + if done then 0 else BodySyntax.ConsumeLength(view.body, s[n..])
        decreases |s| - n, !done
      {
        var c := b.Read();
        BodySyntax.ConsumeStep(p, s, n);
        FeedBody(c);
        n := n + 1;
        done := IsDone(state);
      }
      Terminate();
      st := state;
    }

    /** request->data[p->i] = '\0' */
    method Terminate()
      requires Valid() && view.BodyParser?
      modifies data
      ensures Valid()
    {
      data[i] := NUL;
    }
  }

  /** The requests of a stream as the C strings a handler sees. */
  function Texts(ps: seq<Parse>): seq<CommandLine> {
    if ps == [] then [] else [CommandLine(CStr(ps[0].verb), CStr(ps[0].arg))] + Texts(ps[1..])
  }

  lemma {:induction false} TextsSplit(ps: seq<Parse>, qs: seq<Parse>)
    ensures Texts(ps + qs) == Texts(ps) + Texts(qs)
  {
    if ps == [] {
      assert ps + qs == qs;
    } else {
      TextsSplit(ps[1..], qs);
      var head := [CommandLine(CStr(ps[0].verb), CStr(ps[0].arg))];
      assert (ps + qs)[1..] == ps[1..] + qs && (ps + qs)[0] == ps[0];
      assert head + (Texts(ps[1..]) + Texts(qs)) == (head + Texts(ps[1..])) + Texts(qs);
    }
  }

  /** One call of request_consume, and a fresh parser when the request is finished. */
  method NextRequest(kind: Kind, b: Buffer, p: RequestParser) returns (done: bool, r: CommandLine)
    requires b.Valid() && p.Valid() && p.view.LineParser? && b.data !in p.Arrays
    modifies p, p.verb, p.arg, p.data, b, b.data
    ensures b.Valid() && p.Valid()
    ensures var s, q := old(b.Contents()), old(p.view.parse);
            var n := ConsumeLength(kind, q, s);
            var q' := FeedAll(kind, q, s[..n]);
            && b.Contents() == s[n..]
            && done == IsDone(q'.phase)
            && p.view == LineParser(if done then INIT else q')
            && (done ==> r == CommandLine(CStr(q'.verb), CStr(q'.arg)))
  {
    var st := p.ConsumeLine(kind, b);
    done, r := IsDone(st), CommandLine("", "");
    if done {
      CStrOfPadded(p.verb[..], p.view.parse.verb);
      CStrOfPadded(p.arg[..], p.view.parse.arg);
      r := CommandLine(CStr(p.verb[..]), CStr(p.arg[..]));
      p.InitLine();
    }
  }

  /** One iteration of the drain loop, seen from the bytes still to come. */
  lemma DrainStep(kind: Kind, q: Parse, s: string)
    requires s != "" && !IsDone(q.phase)
    ensures var m := ConsumeLength(kind, q, s);
            var q' := FeedAll(kind, q, s[..m]);
            var more := if IsDone(q'.phase) then [CommandLine(CStr(q'.verb), CStr(q'.arg))] else [];
            var (rs, last) := Requests(kind, q, s);
            var (rs', last') := Requests(kind, if IsDone(q'.phase) then INIT else q', s[m..]);
            0 < m <= |s| && Texts(rs) == more + Texts(rs') && last == last'
  {
    var m := ConsumeLength(kind, q, s);
    var q' := FeedAll(kind, q, s[..m]);
    RequestsConsume(kind, q, s);
    RequestsSplit(kind, q, s[..m], s[m..]);
    assert s == s[..m] + s[m..];
    var (rs', last') := Requests(kind, if IsDone(q'.phase) then INIT else q', s[m..]);
    TextsSplit(if IsDone(q'.phase) then [q'] else [], rs');
  }

  /** Reads every request that is complete in the buffer. */
  method DrainRequests(kind: Kind, b: Buffer, p: RequestParser) returns (rs: seq<CommandLine>)
    requires b.Valid() && p.Valid() && p.view.LineParser? && !IsDone(p.view.Phase()) && b.data !in p.Arrays
    modifies p, p.verb, p.arg, p.data, b, b.data
    ensures b.Valid() && p.Valid() && b.Contents() == "" && p.view.LineParser? && !IsDone(p.view.Phase())
    ensures (Requests(kind, old(p.view.parse), old(b.Contents()))).1 == p.view.parse
    ensures rs == Texts(Requests(kind, old(p.view.parse), old(b.Contents())).0)
  {
    hide ConsumeLength, FeedAll, Requests, Texts, RequestParser.Valid, Buffer.Valid, Buffer.Contents;
    rs := [];
    ghost var (all, last) := Requests(kind, p.view.parse, b.Contents());
    while b.CanRead()
      invariant b.Valid() && p.Valid() && p.view.LineParser? && !IsDone(p.view.parse.phase)
      invariant Texts(all) == rs + Texts(Requests(kind, p.view.parse, b.Contents()).0)
      invariant last == Requests(kind, p.view.parse, b.Contents()).1
      decreases |b.Contents()|
    {
      DrainStep(kind, p.view.parse, b.Contents());
      var done, r := NextRequest(kind, b, p);
      ghost var rest := Texts(Requests(kind, p.view.parse, b.Contents()).0);
      assert rs + ([r] + rest) == (rs + [r]) + rest && rs + ([] + rest) == rs + rest;
      if done {
        rs := rs + [r];
      }
    }
    NothingLeft(kind, p.view.parse);
  }

  lemma NothingLeft(kind: Kind, q: Parse)
    requires !IsDone(q.phase)
    ensures Requests(kind, q, "") == ([], q) && Texts([]) == []
  {
  }

  /** A stream that arrives in pieces, each received into the empty buffer, yields its requests. */
  method ServeFragments(kind: Kind, fragments: seq<string>, capacity: nat) returns (rs: seq<CommandLine>)
    requires forall f :: f in fragments ==> |f| <= capacity
    ensures rs == Texts(Requests(kind, INIT, Concat(fragments)).0)
  {
    var b := new Buffer(capacity);
    var p := new RequestParser();
    rs := [];
    for k := 0 to |fragments|
      invariant b.Valid() && p.Valid() && p.view.LineParser? && fresh({b, b.data, p} + p.Arrays)
      invariant b.data !in p.Arrays && b.data.Length == capacity
      invariant b.Contents() == "" && !IsDone(p.view.parse.phase)
      invariant Requests(kind, INIT, Concat(fragments[..k])).1 == p.view.parse
      invariant rs == Texts(Requests(kind, INIT, Concat(fragments[..k])).0)
    {
      FragmentStep(kind, fragments, k);
      b.Store(fragments[k]);
      assert b.Contents() == fragments[k];
      var more := DrainRequests(kind, b, p);
      rs := rs + more;
    }
    assert fragments[..|fragments|] == fragments;
  }

  lemma FragmentStep(kind: Kind, fragments: seq<string>, k: nat)
    requires k < |fragments|
    ensures var (found, q) := Requests(kind, INIT, Concat(fragments[..k]));
            var (more, last) := Requests(kind, q, fragments[k]);
            && Requests(kind, INIT, Concat(fragments[..k + 1])).1 == last
            && Texts(Requests(kind, INIT, Concat(fragments[..k + 1])).0) == Texts(found) + Texts(more)
  {
    var (found, q) := Requests(kind, INIT, Concat(fragments[..k]));
    assert fragments[..k + 1] == fragments[..k] + [fragments[k]];
    ConcatSnoc(fragments[..k], fragments[k]);
    RequestsSplit(kind, INIT, Concat(fragments[..k]), fragments[k]);
    TextsSplit(found, Requests(kind, q, fragments[k]).0);
  }

  /** Commands without NUL bytes, printed and sent in any fragmentation, are read back one by one. */
  lemma {:induction false} PrintedTexts(kind: Kind, cs: seq<CommandLine>)
    requires forall c :: c in cs ==> Printable(c) && NUL !in c.verb && NUL !in c.arg
    ensures Texts(Requests(kind, INIT, PrintAll(cs)).0) == cs
  {
    PrintThenParse(kind, cs);
    TextsOfParsed(cs);
  }

  lemma {:induction false} TextsOfParsed(cs: seq<CommandLine>)
    requires forall c :: c in cs ==> NUL !in c.verb && NUL !in c.arg
    ensures Texts(Parsed(cs)) == cs
  {
    if cs != [] {
      assert cs[0] in cs;
      CStrOfClean(cs[0].verb);
      CStrOfClean(cs[0].arg);
      TextsOfParsed(cs[1..]);
    }
  }
}
