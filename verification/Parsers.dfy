/** parser.c: an interpreter of transition tables; parser_utils.c: a compiler from a string to the table that
    compares its input with the string, ignoring case. */
module Parsers {
  import opened CStrings
  import opened Wrappers

  newtype Int32 = x: int | -0x8000_0000 <= x < 0x8000_0000

  type Byte = x: int | 0 <= x < 256

  const ANY: Int32 := 512 // 1 << 9

  /** The type of an event, as the action functions set it. */
  datatype EventType = MayEq | Eq | Neq

  /** struct parser_event without the link to the second event. */
  datatype Event = Event(kind: EventType, n: nat, data: Byte)

  datatype Transition = Transition(when: Int32, dest: nat, act1: EventType, act2: Option<EventType>)

  /** struct parser_definition: states[i] is the index of the first of statesN[i] transitions. */
  datatype Definition =
    Definition(start: nat, count: nat, states: seq<nat>, statesN: seq<nat>, transitions: seq<Transition>)

  /** The transitions of a state. */
  function Row(d: Definition, state: nat): seq<Transition>
    requires state < |d.states| == |d.statesN| && d.states[state] + d.statesN[state] <= |d.transitions|
  {
    d.transitions[d.states[state]..d.states[state] + d.statesN[state]]
  }

  /** Every row lies in the table, and every destination is a state. */
  ghost predicate WellFormed(d: Definition) {
    && d.start < d.count && |d.states| == |d.statesN| == d.count
    && forall i :: 0 <= i < d.count ==>
         d.states[i] + d.statesN[i] <= |d.transitions| && forall t :: t in Row(d, i) ==> t.dest < d.count
  }

  lemma RowsAreInTable(d: Definition, state: nat)
    requires WellFormed(d) && state < d.count
    ensures state < |d.states| == |d.statesN| && d.states[state] + d.statesN[state] <= |d.transitions|
    ensures |Row(d, state)| == d.statesN[state]
    ensures forall i :: 0 <= i < |Row(d, state)| ==> Row(d, state)[i].dest < d.count
  {
  }

  lemma RowItem(d: Definition, state: nat, i: nat)
    requires state < |d.states| == |d.statesN| && d.states[state] + d.statesN[state] <= |d.transitions|
    requires i < d.statesN[state]
    ensures |Row(d, state)| == d.statesN[state] && Row(d, state)[i] == d.transitions[d.states[state] + i]
  {
  }

  predicate InClass(class_: bv32, when: Int32)
    requires when > 0xFF
  {
    class_ & (when as int as bv32) != 0
  }

  /** Whether a transition's condition holds for a character with these class bits. */
  predicate Matches(t: Transition, c: Byte, class_: bv32) {
    if t.when <= 0xFF then c == t.when as int
    else if t.when == ANY then true
    else InClass(class_, t.when)
  }

  /** The index of the first matching transition of a row from j on, or its length. */
  function FirstMatch(row: seq<Transition>, c: Byte, class_: bv32, j: nat): (k: nat)
    requires j <= |row|
    ensures j <= k <= |row|
    ensures forall i :: j <= i < k ==> !Matches(row[i], c, class_)
    ensures k < |row| ==> Matches(row[k], c, class_)
    decreases |row| - j
  {
    if j == |row| || Matches(row[j], c, class_) then j else FirstMatch(row, c, class_, j + 1)
  }

  /** A transition is for one character, for all characters, or for those with a bit in common with its class mask. */
  lemma MatchesExactly(t: Transition, c: Byte, class_: bv32)
    ensures t.when <= 0xFF ==> (Matches(t, c, class_) <==> c == t.when as int)
    ensures t.when == 512 ==> Matches(t, c, class_)
    ensures t.when > 0xFF && t.when != 512 ==> (Matches(t, c, class_) <==> class_ & (t.when as int as bv32) != 0)
  {
  }

  class Parser {
    const classes: seq<bv32> // 256 entries
    const def: Definition
    var state: nat
    var e1: Event
    var e2: Event
    var linked: bool // e1.next points to e2

    ghost predicate Valid()
      reads this
    {
      |classes| == 256 && WellFormed(def) && state < def.count
    }

    /** parser_init */
    constructor (classes: seq<bv32>, def: Definition)
      requires |classes| == 256 && WellFormed(def)
      ensures Valid() && this.classes == classes && this.def == def && state == def.start
    {
      this.classes, this.def := classes, def;
      state, linked := def.start, false;
      e1, e2 := Event(MayEq, 0, 0), Event(MayEq, 0, 0);
    }

    /** parser_reset */
    method Reset()
      requires Valid()
      modifies this`state
      ensures Valid() && state == def.start
    {
      state := def.start;
    }

    /** parser_feed: takes the first matching transition; without one, state and events stay as they are. */
    method Feed(c: Byte)
      requires Valid()
      modifies this
      ensures Valid()
      ensures var row := Row(def, old(state));
              var k := FirstMatch(row, c, classes[c], 0);
              if k == |row| then state == old(state) && e1 == old(e1) && e2 == old(e2) && !linked
              else
                && state == row[k].dest && e1 == Event(row[k].act1, 1, c)
                && linked == row[k].act2.Some? && e2 == (if row[k].act2.Some? then Event(row[k].act2.value, 1, c)
                   else old(e2))
    {
      RowsAreInTable(def, state);
      hide InClass, WellFormed, Row;
      var class_ := classes[c];
      linked := false;
      var first, n := def.states[state], def.statesN[state];
      ghost var row := Row(def, state);
      var matched := false;
      var i := 0;
      while i < n
        invariant i <= n && state == old(state) && e1 == old(e1) && e2 == old(e2) && !linked && !matched
        invariant |row| == n && FirstMatch(row, c, class_, 0) == FirstMatch(row, c, class_, i)
      {
        var t := def.transitions[first + i];
        assert t == row[i] by { RowItem(def, state, i); }
        if t.when <= 0xFF {
          matched := c == t.when as int;
        } else if t.when == ANY {
          matched := true;
        } else {
          matched := InClass(class_, t.when);
        }
        if matched {
          e1 := Event(t.act1, 1, c);
          if t.act2.Some? {
            linked := true;
            e2 := Event(t.act2.value, 1, c);
          }
          state := t.dest;
          break;
        }
        i := i + 1;
      }
    }
  }

  // ----- The comparison automaton

  predicate Ascii(s: string) {
    forall i :: 0 <= i < |s| ==> 0 < s[i] as int < 128
  }

  function On(when: char, dest: nat, act: EventType): Transition
    requires when as int < 128
  {
    Transition(when as int as Int32, dest, act, None)
  }

  function Otherwise(dest: nat): Transition {
    Transition(ANY, dest, Neq, None)
  }

  /** The row that waits for character i, or the row of a final state. */
  function RowFor(s: string, i: nat): seq<Transition>
    requires Ascii(s)
  {
    var n := |s|;
    if i < n then
      var act := if i + 1 == n then Eq else MayEq;
      [On(ToLower(s[i]), i + 1, act), On(ToUpper(s[i]), i + 1, act), Otherwise(n + 1)]
    else [Otherwise(n + 1)]
  }

  /** The rows of the first i characters. */
  function Rows(s: string, i: nat): seq<Transition>
    requires Ascii(s) && i <= |s|
  {
    if i == 0 then [] else Rows(s, i - 1) + RowFor(s, i - 1)
  }

  lemma {:induction false} RowsLength(s: string, n: nat)
    requires Ascii(s) && n <= |s|
    ensures |Rows(s, n)| == 3 * n
  {
    if n > 0 {
      RowsLength(s, n - 1);
    }
  }

  lemma {:induction false} RowsHoldRow(s: string, n: nat, i: nat)
    requires Ascii(s) && i < n <= |s|
    ensures |Rows(s, n)| == 3 * n && Rows(s, n)[3 * i..3 * i + 3] == RowFor(s, i)
  {
    RowsLength(s, n);
    RowsLength(s, n - 1);
    var before, row := Rows(s, n - 1), RowFor(s, n - 1);
    hide RowFor;
    assert Rows(s, n) == before + row;
    if i < n - 1 {
      RowsHoldRow(s, n - 1, i);
      assert (before + row)[3 * i..3 * i + 3] == before[3 * i..3 * i + 3];
    } else {
      assert (before + row)[3 * i..3 * i + 3] == row;
    }
  }

  /** State i < n waits for character i; state n is reached by the whole string, state n + 1 by anything else. */
  ghost predicate Compares(d: Definition, s: string)
    requires Ascii(s)
  {
    && d.start == 0 && d.count == |s| + 2
    && WellFormed(d)
    && forall i :: 0 <= i < d.count ==> Row(d, i) == RowFor(s, i)
  }

  lemma TableCompares(d: Definition, s: string)
    requires Ascii(s) && d.start == 0 && d.count == |s| + 2 && |d.states| == |d.statesN| == |s| + 2
             && |d.transitions| == 3 * (|s| + 2)
    requires forall i :: 0 <= i < |s| + 2 ==> d.states[i] == 3 * i && d.statesN[i] == if i < |s| then 3 else 1
    requires d.transitions[..3 * |s|] == Rows(s, |s|)
    requires d.transitions[3 * |s|] == Otherwise(|s| + 1) && d.transitions[3 * (|s| + 1)] == Otherwise(|s| + 1)
    ensures Compares(d, s)
  {
    hide Row, RowFor, Rows;
    forall i | 0 <= i < d.count
      ensures d.states[i] + d.statesN[i] <= |d.transitions| && Row(d, i) == RowFor(s, i)
      ensures forall t :: t in Row(d, i) ==> t.dest < d.count
    {
      TableRow(d, s, i);
    }
  }

  lemma TableRow(d: Definition, s: string, i: nat)
    requires Ascii(s) && i < |s| + 2 == |d.states| == |d.statesN| && |d.transitions| == 3 * (|s| + 2)
    requires d.states[i] == 3 * i && d.statesN[i] == if i < |s| then 3 else 1
    requires d.transitions[..3 * |s|] == Rows(s, |s|)
    requires d.transitions[3 * |s|] == Otherwise(|s| + 1) && d.transitions[3 * (|s| + 1)] == Otherwise(|s| + 1)
    ensures Row(d, i) == RowFor(s, i) && forall t :: t in Row(d, i) ==> t.dest < |s| + 2
  {
    hide Rows, RowFor, Otherwise;
    if i < |s| {
      RowsHoldRow(s, |s|, i);
      SliceOfPrefix(d.transitions, 3 * |s|, 3 * i, 3 * i + 3);
      assert Row(d, i) == d.transitions[3 * i..3 * i + 3];
    } else {
      FinalRow(s, i);
      assert i == |s| || i == |s| + 1;
      SingletonSlice(d.transitions, 3 * i);
      assert Row(d, i) == d.transitions[3 * i..3 * i + 1];
    }
    RowDestinations(s, i);
  }

  lemma FinalRow(s: string, i: nat)
    requires Ascii(s) && i >= |s|
    ensures RowFor(s, i) == [Otherwise(|s| + 1)]
  {
  }

  lemma SingletonSlice(t: seq<Transition>, i: nat)
    requires i < |t|
    ensures t[i..i + 1] == [t[i]]
  {
  }

  lemma SliceOfPrefix(t: seq<Transition>, n: nat, a: nat, b: nat)
    requires a <= b <= n <= |t|
    ensures t[..n][a..b] == t[a..b]
  {
  }

  lemma RowDestinations(s: string, i: nat)
    requires Ascii(s)
    ensures i <= |s| + 1 ==> forall t :: t in RowFor(s, i) ==> t.dest < |s| + 2
  {
  }

  lemma NoRows(s: string)
    requires Ascii(s)
    ensures Rows(s, 0) == []
  {
  }

  lemma NextRow(s: string, i: nat, before: seq<Transition>, after: seq<Transition>)
    requires Ascii(s) && i < |s| && before == Rows(s, i) && |after| == |before| + 3 && before == after[..|before|]
    requires after[|before|..] == RowFor(s, i)
    ensures after == Rows(s, i + 1)
  {
    assert after == before + RowFor(s, i);
  }

  /** The loop of parser_utils_strcmpi. */
  method WaitingRows(s: string, states: array<nat>, nstates: array<nat>, transitions: array<Transition>)
    requires Ascii(s) && states.Length == nstates.Length == |s| + 2 && transitions.Length == 3 * (|s| + 2)
    requires states != nstates
    modifies states, nstates, transitions
    ensures forall k :: 0 <= k < |s| ==> states[k] == 3 * k
    ensures forall k :: 0 <= k < |s| ==> nstates[k] == 3
    ensures transitions[..3 * |s|] == Rows(s, |s|)
  {
    hide ToLower, ToUpper, Rows, On;
    var n := |s|;
    assert Rows(s, 0) == [] by { NoRows(s); }
    for i := 0 to n
      invariant forall k :: 0 <= k < i ==> states[k] == 3 * k
      invariant forall k :: 0 <= k < i ==> nstates[k] == 3
      invariant transitions[..3 * i] == Rows(s, i)
    {
      var dest := if i + 1 == n then n else i + 1;
      var act := if i + 1 == n then Eq else MayEq;
      AsciiLetter(s[i]);
      transitions[i * 3 + 0] := On(ToLower(s[i]), dest, act);
      transitions[i * 3 + 1] := On(ToUpper(s[i]), dest, act);
      transitions[i * 3 + 2] := Otherwise(n + 1);
      NextRow(s, i, transitions[..3 * i], transitions[..3 * (i + 1)]);
      states[i] := i * 3;
      nstates[i] := 3;
    }
  }

  /** parser_utils_strcmpi */
  method StrCmpI(s: string) returns (d: Definition)
    requires Ascii(s)
    ensures Compares(d, s)
  {
    hide Rows;
    var n := |s|;
    var states := new nat[n + 2](_ => 0);
    var nstates := new nat[n + 2](_ => 0);
    var transitions := new Transition[3 * (n + 2)](_ => Transition(0, 0, MayEq, None));
    var stEq, stNeq := n, n + 1;
    WaitingRows(s, states, nstates, transitions);
    transitions[stEq * 3] := Otherwise(stNeq);
    states[stEq] := stEq * 3;
    nstates[stEq] := 1;
    transitions[stNeq * 3] := Otherwise(stNeq);
    states[stNeq] := stNeq * 3;
    nstates[stNeq] := 1;
    d := Definition(0, n + 2, states[..], nstates[..], transitions[..]);
    assert d.transitions[..3 * n] == transitions[..3 * n];
    TableCompares(d, s);
  }

  lemma AsciiLetter(c: char)
    requires 0 < c as int < 128
    ensures ToLower(c) as int < 128 && ToUpper(c) as int < 128
  {
  }

  // ----- What the automaton decides

  /** The case-insensitive comparison that the automaton is meant to decide, for a non-empty input. */
  function Verdict(s: string, w: string): EventType {
    if SameIgnoringCase(w, s) then Eq
    else if |w| < |s| && SameIgnoringCase(w, s[..|w|]) then MayEq
    else Neq
  }

  /** The state after an input: its length while it agrees with the string, the sink otherwise. */
  function StateFor(s: string, w: string): nat {
    if |w| <= |s| && SameIgnoringCase(w, s[..|w|]) then |w| else |s| + 1
  }

  lemma SameLetter(a: char, b: char)
    requires b as int < 128
    ensures ToLower(a) == ToLower(b) <==> a == ToLower(b) || a == ToUpper(b)
  {
  }

  /** One step of the compiled table, for any class table: the state and the event are those of the comparison. */
  lemma StepDecides(d: Definition, s: string, class_: bv32, w: string, c: char)
    requires Ascii(s) && Compares(d, s) && c as int < 256
    ensures var row := Row(d, StateFor(s, w));
            var k := FirstMatch(row, c as int, class_, 0);
            k < |row| && row[k].dest == StateFor(s, w + [c]) && row[k].act1 == Verdict(s, w + [c])
  {
    hide Verdict, StateFor, ToLower, ToUpper, InClass;
    var state := StateFor(s, w);
    StateBound(s, w);
    var row := RowFor(s, state);
    assert Row(d, state) == row;
    if state < |s| { AsciiLetter(s[state]); }
    FirstOfRow(row, c as int, class_);
    if state < |s| {
      SameLetter(c, s[state]);
      ExtendsAgreement(s, w, c);
    } else {
      LosesAgreement(s, w, c);
    }
  }

  lemma StateBound(s: string, w: string)
    ensures StateFor(s, w) < |s| + 2
  {
  }

  /** The matching transition of a row with two letters and a default, or with the default alone. */
  lemma FirstOfRow(row: seq<Transition>, c: Byte, class_: bv32)
    requires |row| == 1 || |row| == 3
    requires row[|row| - 1].when == ANY
    requires |row| == 3 ==> row[0].when <= 0xFF && row[1].when <= 0xFF
    ensures var k := FirstMatch(row, c, class_, 0);
            k == if |row| == 3 && row[0].when as int == c then 0 else if |row| == 3 && row[1].when as int == c then 1
                else |row| - 1
  {
    var k := FirstMatch(row, c, class_, 0);
    assert Matches(row[|row| - 1], c, class_);
  }

  lemma ExtendsAgreement(s: string, w: string, c: char)
    requires StateFor(s, w) < |s|
    ensures StateFor(s, w) == |w|
    ensures var same := ToLower(c) == ToLower(s[|w|]);
            && StateFor(s, w + [c]) == (if same then |w| + 1 else |s| + 1)
            && Verdict(s, w + [c]) == (if !same then Neq else if |w| + 1 == |s| then Eq else MayEq)
  {
    hide ToLower;
    var v := w + [c];
    assert forall i :: 0 <= i < |w| ==> v[i] == w[i] && s[..|w| + 1][i] == s[..|w|][i];
    assert v[|w|] == c && s[..|w| + 1][|w|] == s[|w|];
    assert |w| + 1 == |s| ==> s[..|w| + 1] == s;
  }

  lemma LosesAgreement(s: string, w: string, c: char)
    requires StateFor(s, w) >= |s|
    ensures StateFor(s, w + [c]) == |s| + 1 && Verdict(s, w + [c]) == Neq
  {
    var v := w + [c];
    if |v| <= |s| && SameIgnoringCase(v, s[..|v|]) {
      assert forall i :: 0 <= i < |w| ==> w[i] == v[i] && s[..|w|][i] == s[..|v|][i];
      assert SameIgnoringCase(w, s[..|w|]);
    }
    assert |v| == |s| ==> s[..|v|] == s;
  }

  /** Compiles `s`, feeds the bytes of `w` one by one and reports the type of the last event: EQ exactly when w equals
      s ignoring case, MAYEQ exactly when it is a proper prefix, NEQ otherwise. No index leaves the tables. */
  method Compare(s: string, w: string, classes: seq<bv32>) returns (last: Event)
    requires Ascii(s) && |classes| == 256 && w != "" && forall i :: 0 <= i < |w| ==> w[i] as int < 256
    ensures last == Event(Verdict(s, w), 1, w[|w| - 1] as int)
  {
    var d := StrCmpI(s);
    assert WellFormed(d) && d.start == 0;
    var p := new Parser(classes, d);
    hide Verdict, FirstMatch, Compares;
    assert StateFor(s, "") == 0;
    for i := 0 to |w|
      invariant p.Valid() && p.classes == classes && p.def == d && fresh(p)
      invariant p.state == StateFor(s, w[..i])
      invariant i > 0 ==> p.e1 == Event(Verdict(s, w[..i]), 1, w[i - 1] as int)
    {
      StepDecides(d, s, classes[w[i] as int], w[..i], w[i]);
      assert w[..i + 1] == w[..i] + [w[i]];
      p.Feed(w[i] as int);
    }
    assert w[..|w|] == w;
    last := p.e1;
  }

  /** NEQ is absorbing: once the input cannot be the string any more, no continuation is. */
  lemma {:induction false} NeqIsAbsorbing(s: string, w: string, x: string)
    requires w != "" && Verdict(s, w) == Neq
    ensures Verdict(s, w + x) == Neq
  {
    var v := w + x;
    assert forall i :: 0 <= i < |w| ==> w[i] == v[i];
    assert |w| == |s| ==> s[..|w|] == s;
  }
}
