/** request_data.c: the parser of a message body, which ends at LF "." CR LF, as a function on values. */
module BodySyntax {
  import opened CStrings
  import opened LineSyntax

  /** `stored` is request.data[..i]; recognising the terminator overwrites one stored byte with NUL. */
  datatype Body = Body(phase: Phase, stored: string)

  const DATA_MAX := 4096 // sizeof(data) - 1

  const START := Body(InBody, "")

  /** What follows CR when the terminator has been seen. */
  predicate EndsWithLfDot(s: string) {
    |s| >= 2 && s[|s| - 2] == '\n' && s[|s| - 1] == '.'
  }

  /** request_parser_data_feed with body(). With only LF "." stored, the byte to overwrite lies outside the array: the
      index i - 3 wraps around. */
  function Feed(p: Body, c: char): Body {
    match p.phase
    case InBody =>
      if c == '\r' && EndsWithLfDot(p.stored) then
        if |p.stored| == 2 then p.(phase := Fault)
        else Body(InCr, p.stored[|p.stored| - 3 := NUL])
      else if |p.stored| < DATA_MAX then Body(InBody, p.stored + [c])
      else p
    case InCr => p.(phase := if c == '\n' then Complete else Failed)
    case _ => p.(phase := Failed)
  }

  function FeedAll(p: Body, s: string): Body
    decreases |s|
  {
    if s == "" then p else FeedAll(Feed(p, s[0]), s[1..])
  }

  /** How many bytes request_consume_data takes: it stops when the body is done or its array is full. */
  function ConsumeLength(p: Body, s: string): (n: nat)
    ensures n <= |s|
    decreases |s|
  {
    if s == "" || |p.stored| >= DATA_MAX then 0
    else
      var q := Feed(p, s[0]);
      if IsDone(q.phase) then 1 else 1 + ConsumeLength(q, s[1..])
  }

  /** The C string left in request.data. */
  function Text(p: Body): string {
    CStr(p.stored)
  }

  lemma {:induction false} FeedSplit(p: Body, x: string, y: string)
    ensures FeedAll(p, x + y) == FeedAll(FeedAll(p, x), y)
    decreases |x|
  {
    if x == "" {
      assert x + y == y;
    } else {
      FeedSplit(Feed(p, x[0]), x[1..], y);
      assert (x + y)[1..] == x[1..] + y;
    }
  }

  /** One parser instance does not see how its input is cut into pieces. */
  lemma {:induction false} ConsumeSplit(p: Body, x: string, y: string)
    ensures var n := ConsumeLength(p, x);
            var q := FeedAll(p, x[..n]);
            && (n < |x| || IsDone(q.phase) ==> ConsumeLength(p, x + y) == n || |x| == 0)
            && (n == |x| && !IsDone(q.phase) ==> ConsumeLength(p, x + y) == n + ConsumeLength(q, y))
    decreases |x|
  {
    var n := ConsumeLength(p, x);
    if x == "" {
      assert x + y == y;
    } else if |p.stored| < DATA_MAX {
      var q := Feed(p, x[0]);
      assert (x + y)[0] == x[0] && (x + y)[1..] == x[1..] + y;
      assert x[..n][0] == x[0] && x[..n][1..] == x[1..][..n - 1];
      if !IsDone(q.phase) {
        ConsumeSplit(q, x[1..], y);
        if x[1..] == "" {
          assert x[..n] == [x[0]] && FeedAll(p, x[..n]) == q;
        }
      } else {
        assert x[..n][1..] == "";
        assert FeedAll(p, x[..n]) == q;
      }
    }
  }

  lemma NothingFed(p: Body, s: string)
    ensures FeedAll(p, s[..0]) == p
  {
  }

  /** The loop of request_consume_data, one byte further. */
  lemma ConsumeStep(p: Body, s: string, n: nat)
    requires n < |s| && |FeedAll(p, s[..n]).stored| < DATA_MAX
    ensures var q := Feed(FeedAll(p, s[..n]), s[n]);
            && FeedAll(p, s[..n + 1]) == q
            && ConsumeLength(FeedAll(p, s[..n]), s[n..])
               == 1 + (if IsDone(q.phase) then 0 else ConsumeLength(q, s[n + 1..]))
  {
    assert s[..n + 1] == s[..n] + [s[n]] && s[n..][1..] == s[n + 1..];
    FeedSplit(p, s[..n], [s[n]]);
    assert FeedAll(FeedAll(p, s[..n]), [s[n]]) == FeedAll(Feed(FeedAll(p, s[..n]), s[n]), "");
  }

  // ----- Where the terminator is

  /** LF "." CR stands at position k. */
  predicate DotLineAt(s: string, k: int) {
    0 <= k && k + 3 <= |s| && s[k] == '\n' && s[k + 1] == '.' && s[k + 2] == '\r'
  }

  ghost predicate HasDotLine(s: string) {
    exists k :: DotLineAt(s, k)
  }

  /** While no terminator has been seen, every byte is consumed and stored. */
  lemma {:induction false} StoresPlainText(s: string, t: string)
    requires |s| <= DATA_MAX && !HasDotLine(s)
    ensures FeedAll(START, s) == Body(InBody, s)
    ensures ConsumeLength(START, s + t) == |s| + ConsumeLength(Body(InBody, s), t)
    decreases |s|
  {
    if s == "" {
      assert "" + t == t;
    } else {
      var v, c := s[..|s| - 1], s[|s| - 1];
      assert s == v + [c];
      NoDotLineBefore(s, |s| - 1);
      StoresPlainText(v, [c] + t);
      assert s + t == v + ([c] + t);
      FeedSplit(START, v, [c]);
      StoresOneByte(v, c, t);
    }
  }

  lemma StoresOneByte(v: string, c: char, t: string)
    requires |v| < DATA_MAX && !HasDotLine(v + [c])
    ensures FeedAll(Body(InBody, v), [c]) == Body(InBody, v + [c])
    ensures ConsumeLength(Body(InBody, v), [c] + t) == 1 + ConsumeLength(Body(InBody, v + [c]), t)
  {
    var p := Body(InBody, v);
    assert !DotLineAt(v + [c], |v| - 2);
    assert Feed(p, c) == Body(InBody, v + [c]);
    assert [c][1..] == "" && FeedAll(p, [c]) == FeedAll(Feed(p, c), "");
    assert ([c] + t)[0] == c && ([c] + t)[1..] == t;
  }

  lemma NoDotLineBefore(s: string, n: nat)
    requires n <= |s| && !HasDotLine(s)
    ensures !HasDotLine(s[..n])
  {
    assert forall k :: DotLineAt(s[..n], k) ==> DotLineAt(s, k);
  }

  /** The whole life of a parser fed `t` LF "." CR LF, where the terminator is the first dot line. */
  lemma CompletesAtTerminator(t: string, rest: string)
    requires 1 <= |t| && |t| + 2 < DATA_MAX && !HasDotLine(t + "\n.")
    ensures var w := t + "\n.\r\n";
            && ConsumeLength(START, w + rest) == |w|
            && FeedAll(START, w) == Body(Complete, (t + "\n.")[|t| - 1 := NUL])
  {
    var v := t + "\n.";
    var p := Body(InBody, v);
    var w := t + "\n.\r\n";
    StoresPlainText(v, "\r\n" + rest);
    assert w == v + "\r\n" && w + rest == v + ("\r\n" + rest);
    FeedSplit(START, v, "\r\n");
    var q := Feed(p, '\r');
    assert q == Body(InCr, v[|t| - 1 := NUL]);
    assert "\r\n"[1..] == "\n" && "\n"[1..] == "";
    assert FeedAll(p, "\r\n") == FeedAll(q, "\n") == FeedAll(Feed(q, '\n'), "");
    assert ("\r\n" + rest)[1..] == "\n" + rest;
    assert ConsumeLength(p, "\r\n" + rest) == 1 + ConsumeLength(q, "\n" + rest);
    assert ConsumeLength(q, "\n" + rest) == 1;
  }

  /** Section 4.1.1.4 of RFC 5321: what is sent after DATA for a body. */
  function Frame(body: string): string {
    body + "\r\n.\r\n"
  }

  /** The parser stops exactly at the end of the frame, and the stored C string is the body. */
  predicate Delivers(body: string, rest: string) {
    var w := Frame(body);
    && ConsumeLength(START, w + rest) == |w|
    && FeedAll(START, w).phase == Complete
    && Text(FeedAll(START, w)) == body
  }

  /** Framing is a round trip for exactly the short, NUL-free bodies without a dot line. */
  lemma FramingRoundTrip(body: string, rest: string)
    ensures Delivers(body, rest) <==> |body| <= 4092 && NUL !in body && !HasDotLine(body + "\r")
  {
    if HasDotLine(body + "\r") {
      EarlyDotLine(body, rest);
    } else {
      var t := body + "\r";
      assert Frame(body) == t + "\n.\r\n";
      assert !HasDotLine(t + "\n.") by {
        assert forall k :: DotLineAt(t + "\n.", k) ==> DotLineAt(t, k);
      }
      if |body| > DATA_MAX - 4 {
        LongBodyIsCutOff(t + "\n.", "\r\n" + rest);
        assert Frame(body) + rest == t + "\n." + ("\r\n" + rest);
      } else {
        CompletesAtTerminator(t, rest);
        var stored := (t + "\n.")[|body| := NUL];
        assert stored == body + ([NUL] + "\n.");
        CStrStops(body, [NUL] + "\n.");
        if NUL !in body {
          CStrOfClean(body);
        }
      }
    }
  }

  // ----- One parser and any fragmentation

  /** One parser that is given a body piece by piece: its state, and what it leaves unread. */
  function ConsumePieces(p: Body, pieces: seq<string>): (Body, string)
    decreases |pieces|
  {
    if pieces == [] then (p, "")
    else
      var n := ConsumeLength(p, pieces[0]);
      var q := FeedAll(p, pieces[0][..n]);
      if n < |pieces[0]| || IsDone(q.phase) then (q, pieces[0][n..] + Concat(pieces[1..]))
      else ConsumePieces(q, pieces[1..])
  }

  lemma {:induction false} PiecesDoNotMatter(p: Body, pieces: seq<string>)
    requires !IsDone(p.phase)
    ensures var s := Concat(pieces);
            var n := ConsumeLength(p, s);
            ConsumePieces(p, pieces) == (FeedAll(p, s[..n]), s[n..])
    decreases |pieces|
  {
    hide Feed, FeedAll, ConsumeLength;
    FedNothing(p);
    if pieces != [] {
      var x, y := pieces[0], Concat(pieces[1..]);
      var s, n := x + y, ConsumeLength(p, x);
      var q := FeedAll(p, x[..n]);
      ConsumeSplit(p, x, y);
      FeedSplit(p, x[..n], y[..ConsumeLength(q, y)]);
      if n < |x| || IsDone(q.phase) {
        DoneIsNotEmpty(p, x);
        assert s[..n] == x[..n] && s[n..] == x[n..] + y;
      } else {
        PiecesDoNotMatter(q, pieces[1..]);
        var m := ConsumeLength(q, y);
        assert x[..n] == x && s[..n + m] == x + y[..m] && s[n + m..] == y[m..];
      }
    }
  }

  lemma FedNothing(p: Body)
    ensures FeedAll(p, "") == p && ConsumeLength(p, "") == 0
  {
  }

  lemma DoneIsNotEmpty(p: Body, x: string)
    requires !IsDone(p.phase)
    ensures IsDone(FeedAll(p, x[..ConsumeLength(p, x)]).phase) ==> x != ""
  {
  }

  /** The round trip in any fragmentation: a framed body and the bytes that follow it, cut into any pieces for one
      parser, end at the final LF with exactly the body stored and exactly the rest unread, if and only if the body is
      short, free of NUL and free of dot lines. */
  lemma PiecewiseRoundTrip(body: string, rest: string, pieces: seq<string>)
    requires Concat(pieces) == Frame(body) + rest
    ensures var (p, unread) := ConsumePieces(START, pieces);
            p.phase == Complete && Text(p) == body && unread == rest
            <==> |body| <= DATA_MAX - 4 && NUL !in body && !HasDotLine(body + "\r")
  {
    hide FeedAll, ConsumeLength, ConsumePieces, HasDotLine, Frame;
    PiecesDoNotMatter(START, pieces);
    FramingRoundTrip(body, rest);
    var w := Frame(body);
    var s, n := w + rest, ConsumeLength(START, w + rest);
    assert n == |w| ==> s[..n] == w && s[n..] == rest;
    assert s[n..] == rest ==> |s| - n == |rest|;
  }

  /** A byte that finds the array full is dropped, unless it may end the body. */
  lemma FullArrayDrops(p: Body, c: char)
    requires p.phase == InBody && |p.stored| == 4096 && c != '\r'
    ensures Feed(p, c) == p
  {
  }

  /** A full array stops the parser. */
  lemma LongBodyIsCutOff(v: string, rest: string)
    requires |v| >= DATA_MAX && !HasDotLine(v)
    ensures ConsumeLength(START, v + rest) == DATA_MAX
  {
    var h := v[..DATA_MAX];
    NoDotLineBefore(v, DATA_MAX);
    StoresPlainText(h, v[DATA_MAX..] + rest);
    assert v + rest == h + (v[DATA_MAX..] + rest);
  }

  /** A dot line inside the body is taken for the end, or is an error. */
  lemma EarlyDotLine(body: string, rest: string)
    requires HasDotLine(body + "\r")
    ensures !Delivers(body, rest)
  {
    var w := Frame(body);
    var k := FirstDotLine(body + "\r");
    var b := body + "\r";
    var h := b[..k + 2];
    assert !HasDotLine(h) by {
      forall j | DotLineAt(h, j) ensures false {
        assert DotLineAt(b, j);
      }
    }
    assert w + rest == h + ((w + rest)[k + 2..]);
    if k + 2 > DATA_MAX - 1 {
      LongBodyIsCutOff(h, (w + rest)[k + 2..]);
    } else {
      StoresPlainText(h, (w + rest)[k + 2..]);
      var p, more := Body(InBody, h), (w + rest)[k + 2..];
      assert more[0] == '\r';
      StopsAfterDotLine(p, more);
    }
  }

  lemma StopsAfterDotLine(p: Body, more: string)
    requires p.phase.InBody? && EndsWithLfDot(p.stored) && |p.stored| < DATA_MAX && more != "" && more[0] == '\r'
    ensures ConsumeLength(p, more) <= 2
  {
  }

  /** The first dot line of a text that has one. */
  lemma FirstDotLine(s: string) returns (k: nat)
    requires HasDotLine(s)
    ensures DotLineAt(s, k) && forall j :: DotLineAt(s, j) ==> k <= j
  {
    k := 0;
    while !DotLineAt(s, k)
      invariant forall j :: DotLineAt(s, j) ==> k <= j
      decreases |s| - k
    {
      var j :| DotLineAt(s, j);
      k := k + 1;
    }
  }

  // ----- The one stream on which the parser stores outside its array

  lemma {:induction false} StoredIsInput(w: string)
    ensures var p := FeedAll(START, w);
            (p.phase.InBody? && |p.stored| < DATA_MAX ==> p.stored == w) && (p.phase.Fault? ==> w == "\n.\r")
    decreases |w|
  {
    if w != "" {
      var v, c := w[..|w| - 1], w[|w| - 1];
      assert w == v + [c];
      StoredIsInput(v);
      FeedSplit(START, v, [c]);
      var p := FeedAll(START, v);
      assert [c][1..] == "" && FeedAll(p, [c]) == FeedAll(Feed(p, c), "");
      if Feed(p, c).phase.Fault? {
        assert v == [v[0], v[1]] == "\n.";
      }
    }
  }

  /** The store outside the array happens exactly when the body opens with LF "." CR. */
  lemma FaultsExactlyOnInitialDotLine(w: string)
    ensures FeedAll(START, w).phase == Fault <==> w == "\n.\r"
  {
    StoredIsInput(w);
    if w == "\n.\r" {
      assert !HasDotLine("\n.");
      StoresPlainText("\n.", "");
      FeedSplit(START, "\n.", "\r");
      assert w == "\n." + "\r" && "\r"[1..] == "";
      assert FeedAll(Body(InBody, "\n."), "\r") == FeedAll(Feed(Body(InBody, "\n."), '\r'), "");
    }
  }

  /** ... and then the parser stops there. */
  lemma ConsumesInitialDotLine(s: string)
    ensures "\n.\r" <= s ==> ConsumeLength(START, s) == 3 && s[..3] == "\n.\r"
  {
    assert !HasDotLine("\n.");
    if "\n.\r" <= s {
      StoresPlainText("\n.", s[2..]);
      assert s == "\n." + s[2..] && s[2..][0] == '\r';
      assert Feed(Body(InBody, "\n."), '\r').phase == Fault;
    }
  }

  // ----- Bodies that arrive in several fills, each read by a fresh parser

  predicate EndsWith(s: string, t: string) {
    |t| <= |s| && s[|s| - |t|..] == t
  }

  /** A parser that stores everything completes only on a text that ends with LF "." CR LF. */
  lemma CompletesAtDotLine(s: string)
    requires |s| <= DATA_MAX + 1
    ensures FeedAll(START, s).phase == Complete ==> EndsWith(s, "\n.\r\n")
  {
    hide FeedAll;
    NothingFed(START, s);
    if FeedAll(START, s).phase == Complete {
      var s1 := Front(s);
      LastByte(s1, s[|s| - 1]);
      NothingFed(START, s1);
      var s2 := Front(s1);
      LastByte(s2, s1[|s1| - 1]);
      StoredIsInput(s2);
      StoresAtMost(s2);
      assert s[|s| - 4..] == "\n.\r\n";
    }
  }

  /** All but the last byte of a text on which the parser moved. */
  lemma Front(s: string) returns (t: string)
    requires FeedAll(START, s).phase != InBody
    ensures s != "" && t == s[..|s| - 1] && s == t + [s[|s| - 1]]
  {
    t := s[..|s| - 1];
  }

  /** What the last two phases of a body tell about the last byte and the phase before it. */
  lemma LastByte(t: string, c: char)
    ensures var p, phase := FeedAll(START, t), FeedAll(START, t + [c]).phase;
            && (phase == Complete ==> c == '\n' && p.phase == InCr)
            && (phase == InCr ==> c == '\r' && p.phase == InBody && EndsWithLfDot(p.stored))
  {
    hide FeedAll;
    FeedLast(t, c);
  }

  lemma FeedLast(s: string, c: char)
    ensures FeedAll(START, s + [c]) == Feed(FeedAll(START, s), c)
  {
    FeedSplit(START, s, [c]);
    assert FeedAll(FeedAll(START, s), [c]) == FeedAll(Feed(FeedAll(START, s), c), "");
  }

  lemma {:induction false} StoresAtMost(s: string)
    ensures |FeedAll(START, s).stored| <= |s|
    decreases |s|
  {
    if s != "" {
      var n := |s| - 1;
      assert s == s[..n] + [s[n]];
      StoresAtMost(s[..n]);
      FeedLast(s[..n], s[n]);
    }
  }

  /** No part of a frame that ends before the frame does looks like an end. */
  lemma InnerPartIsNoEnd(body: string, a: nat, b: nat)
    requires !HasDotLine(body + "\r") && a <= b < |Frame(body)| && b - a <= DATA_MAX + 1
    ensures FeedAll(START, Frame(body)[a..b]).phase != Complete
  {
    var w := Frame(body);
    var s := w[a..b];
    CompletesAtDotLine(s);
    if EndsWith(s, "\n.\r\n") {
      assert s[|s| - 4..] == w[b - 4..b];
    }
    EndInside(body, b);
  }

  /** A terminator in front of the end of a frame is a dot line of the body. */
  lemma EndInside(body: string, b: nat)
    requires b < |Frame(body)|
    ensures b >= 4 && Frame(body)[b - 4..b] == "\n.\r\n" ==> HasDotLine(body + "\r")
  {
    var w := Frame(body);
    if b >= 4 && w[b - 4..b] == "\n.\r\n" {
      var k := b - 4;
      assert w[k] == w[k..b][0] && w[k + 1] == w[k..b][1] && w[k + 2] == w[k..b][2];
      assert w[|body|] == '\r' && w[|body| + 1] == '\n';
      assert DotLineAt(body + "\r", k);
    }
  }

  /** The texts that the fills leave for the file. */
  function FillTexts(pieces: seq<string>): seq<string> {
    seq(|pieces|, i requires 0 <= i < |pieces| => Text(FeedAll(START, pieces[i])))
  }

  lemma {:induction false} PlainPieces(s: string, pieces: seq<string>)
    requires Concat(pieces) == s && NUL !in s && !HasDotLine(s) && forall p :: p in pieces ==> |p| <= DATA_MAX
    ensures Concat(FillTexts(pieces)) == s
    decreases |pieces|
  {
    hide FeedAll, HasDotLine;
    if pieces != [] {
      var n := |pieces| - 1;
      var front, last := pieces[..n], pieces[n];
      assert pieces == front + [last];
      ConcatSnoc(front, last);
      var m := |Concat(front)|;
      assert s[..m] == Concat(front) && s[m..] == last;
      NoDotLineBefore(s, m);
      NoDotLineBehind(s, m);
      PlainPieces(Concat(front), front);
      StoresPlainText(last, "");
      CStrOfClean(last);
      assert FillTexts(pieces) == FillTexts(front) + [last];
      ConcatSnoc(FillTexts(front), last);
    }
  }

  lemma NoDotLineBehind(s: string, n: nat)
    requires n <= |s| && !HasDotLine(s)
    ensures !HasDotLine(s[n..])
  {
    assert forall k :: DotLineAt(s[n..], k) ==> DotLineAt(s, n + k);
  }

  /** A framed body of any length, cut into any number of fills: no fill in front of the last one ends it, and the last
      one does exactly when it holds the whole terminator; then the texts of the fills join to the body. */
  lemma TerminatorMustArriveWhole(body: string, front: seq<string>, last: string)
    requires NUL !in body && !HasDotLine(body + "\r") && last != ""
    requires Concat(front) + last == Frame(body) && |last| <= DATA_MAX && forall p :: p in front ==> |p| <= DATA_MAX
    ensures forall p :: p in front ==> FeedAll(START, p).phase != Complete
    ensures FeedAll(START, last).phase == Complete <==> |last| >= 5
    ensures |last| >= 5 ==> Concat(FillTexts(front)) + Text(FeedAll(START, last)) == body
  {
    hide FeedAll, HasDotLine;
    var w, m := Frame(body), |Concat(front)|;
    assert w[..m] == Concat(front) && w[m..] == last;
    forall p | p in front
      ensures FeedAll(START, p).phase != Complete
    {
      var a := PieceAt(front, p);
      assert p == w[..m][a..a + |p|] == w[a..a + |p|];
      InnerPartIsNoEnd(body, a, a + |p|);
    }
    if |last| >= 5 {
      var v := body[m..];
      assert last == Frame(v) && Concat(front) == body[..m] && body == body[..m] + v;
      assert (body + "\r")[m..] == v + "\r" && (body + "\r")[..m] == body[..m];
      NoDotLineBehind(body + "\r", m);
      NoDotLineBefore(body + "\r", m);
      FramingRoundTrip(v, "");
      PlainPieces(body[..m], front);
    } else {
      TailIsNoFrame(last, 5 - |last|);
    }
  }

  /** Where a piece lies in the whole. */
  lemma {:induction false} PieceAt(pieces: seq<string>, p: string) returns (a: nat)
    requires p in pieces
    ensures a + |p| <= |Concat(pieces)| && Concat(pieces)[a..a + |p|] == p
  {
    if pieces[0] == p {
      a := 0;
    } else {
      a := PieceAt(pieces[1..], p);
      var x, y := pieces[0], Concat(pieces[1..]);
      assert (x + y)[|x| + a..|x| + a + |p|] == y[a..a + |p|];
      a := |x| + a;
    }
  }

  lemma TailIsNoFrame(y: string, n: nat)
    requires 0 < n < 5 && y == "\r\n.\r\n"[n..]
    ensures FeedAll(START, y).phase != Complete
  {
    if n == 1 {
      assert y == "\n." + "\r\n" && !HasDotLine("\n.");
      StoresPlainText("\n.", "");
      FeedSplit(START, "\n.", "\r\n");
      assert "\r\n"[1..] == "\n" && "\n"[1..] == "";
      var p := Body(InBody, "\n.");
      assert FeedAll(p, "\r\n") == FeedAll(Feed(p, '\r'), "\n") == FeedAll(Feed(Feed(p, '\r'), '\n'), "");
    } else {
      assert !HasDotLine(y);
      StoresPlainText(y, "");
    }
  }
}
