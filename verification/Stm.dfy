/** stm.c: the state machine engine whose events are those of the selector. */
module Stm {
  import opened Wrappers

  /** struct state_definition, by the callbacks it provides. */
  datatype StateDefinition =
    StateDefinition(state: nat, onArrival: bool, onDeparture: bool, onReadReady: bool, onWriteReady: bool)

  /** A call of one of the callbacks of a state. */
  datatype Call = Arrival(state: nat) | Departure(state: nat) | Ready(state: nat, read: bool)

  /** What happened to an event: the callback's result, or abort(). */
  datatype Result = Returned(next: nat) | Aborted

  datatype Event = Read(result: nat) | Write(result: nat)

  /** The calls that a table with every callback would see, restricted to the callbacks that exist. */
  function Existing(states: seq<StateDefinition>, c: Call): seq<Call> {
    if c.state >= |states| then []
    else match c
      case Arrival(s) => if states[s].onArrival then [c] else []
      case Departure(s) => if states[s].onDeparture then [c] else []
      case Ready(_, _) => [c]
  }

  function Project(states: seq<StateDefinition>, cs: seq<Call>): seq<Call> {
    if cs == [] then [] else Project(states, cs[..|cs| - 1]) + Existing(states, cs[|cs| - 1])
  }

  lemma ProjectSnoc(states: seq<StateDefinition>, cs: seq<Call>, c: Call)
    ensures Project(states, cs + [c]) == Project(states, cs) + Existing(states, c)
  {
    assert (cs + [c])[..|cs|] == cs;
  }

  /** The state a bracketed list of calls leaves open: arrivals and departures alternate, every callback runs in the
      state that was last arrived at and not yet departed from, and a state is never left for itself. */
  predicate Bracketed(cs: seq<Call>, open: Option<nat>) {
    if cs == [] then open == None
    else
      var before, c := cs[..|cs| - 1], cs[|cs| - 1];
      match c
      case Arrival(s) =>
        && open == Some(s) && Bracketed(before, None)
        && (before != [] ==> before[|before| - 1].Departure? && before[|before| - 1].state != s)
      case Ready(s, _) => open == Some(s) && Bracketed(before, open)
      case Departure(s) => open == None && Bracketed(before, Some(s))
  }

  /** What an event does: the calls it leads to, the state after it, and whether the engine aborts. */
  datatype Reaction = Reaction(calls: seq<Call>, current: Option<nat>, aborted: bool)

  /** One event. The first one enters the initial state; a missing callback and a result outside the table abort; a
      result that names another state leaves the present one and enters the other. */
  function React(states: seq<StateDefinition>, initial: nat, current: Option<nat>, e: Event): Reaction
    requires initial < |states| && (current.Some? ==> current.value < |states|)
  {
    var s := if current == None then initial else current.value;
    var first := if current == None then [Arrival(initial)] else [];
    if !(if e.Read? then states[s].onReadReady else states[s].onWriteReady) then Reaction(first, Some(s), true)
    else if e.result >= |states| then Reaction(first + [Ready(s, e.Read?)], Some(s), true)
    else Reaction(first + [Ready(s, e.Read?)] + (if e.result == s then [] else [Departure(s), Arrival(e.result)]),
        Some(e.result), false)
  }

  /** Events in order, up to an abort. */
  function ReactAll(states: seq<StateDefinition>, initial: nat, events: seq<Event>): (r: Reaction)
    requires initial < |states|
    ensures r.current.Some? ==> r.current.value < |states|
  {
    if events == [] then Reaction([], None, false)
    else
      var before := ReactAll(states, initial, events[..|events| - 1]);
      if before.aborted then before
      else
        var r := React(states, initial, before.current, events[|events| - 1]);
        r.(calls := before.calls + r.calls)
  }

  /** The calls of ready callbacks in a list of calls. */
  function Readies(cs: seq<Call>): seq<Call> {
    if cs == [] then [] else Readies(cs[..|cs| - 1]) + if cs[|cs| - 1].Ready? then [cs[|cs| - 1]] else []
  }

  lemma {:induction false} ReadiesSplit(a: seq<Call>, b: seq<Call>)
    ensures Readies(a + b) == Readies(a) + Readies(b)
    decreases |b|
  {
    if b == [] {
      assert a + b == a;
    } else {
      var n := |b| - 1;
      ReadiesSplit(a, b[..n]);
      assert (a + b)[..|a + b| - 1] == a + b[..n];
      var last := if b[n].Ready? then [b[n]] else [];
      assert Readies(a) + (Readies(b[..n]) + last) == (Readies(a) + Readies(b[..n])) + last;
    }
  }

  /** The state that the k-th event finds, as long as nothing aborted: where the callback before it led. */
  function StateBefore(initial: nat, events: seq<Event>, k: nat): nat
    requires k <= |events|
  {
    if k == 0 then initial else events[k - 1].result
  }

  /** An event in a state without the callback for it, or one whose callback returns no state of the table. */
  predicate Offends(states: seq<StateDefinition>, s: nat, e: Event) {
    || s >= |states| || e.result >= |states|
    || (e.Read? && !states[s].onReadReady) || (e.Write? && !states[s].onWriteReady)
  }

  lemma ReactCalls(states: seq<StateDefinition>, initial: nat, current: Option<nat>, e: Event)
    requires initial < |states| && (current.Some? ==> current.value < |states|)
    ensures var s := if current == None then initial else current.value;
            var r := React(states, initial, current, e);
            && (r.aborted <==> Offends(states, s, e))
            && (!r.aborted ==> r.current == Some(e.result) && Readies(r.calls) == [Ready(s, e.Read?)])
            && Readies(r.calls) == (if HasCallback(states, s, e.Read?) then [Ready(s, e.Read?)] else [])
            && forall c :: c in r.calls && c.Ready? ==> c == Ready(s, e.Read?) && HasCallback(states, s, e.Read?)
  {
    hide Readies, Offends;
    var s := if current == None then initial else current.value;
    var first := if current == None then [Arrival(initial)] else [];
    var rest := if e.result == s then [] else [Departure(s), Arrival(e.result)];
    Quiet(first);
    Quiet(rest);
    NoReadies();
    OneCall(Ready(s, e.Read?));
    ReadiesSplit(first, [Ready(s, e.Read?)]);
    ReadiesSplit(first + [Ready(s, e.Read?)], rest);
    OffendsMeans(states, s, e);
  }

  lemma {:induction false} Quiet(cs: seq<Call>)
    requires forall c :: c in cs ==> !c.Ready?
    ensures Readies(cs) == []
  {
    if cs != [] {
      assert cs[|cs| - 1] in cs;
      Quiet(cs[..|cs| - 1]);
    }
  }

  lemma OffendsMeans(states: seq<StateDefinition>, s: nat, e: Event)
    requires s < |states|
    ensures Offends(states, s, e)
            <==> !(if e.Read? then states[s].onReadReady else states[s].onWriteReady) || e.result >= |states|
  {
  }

  lemma OneCall(c: Call)
    ensures Readies([c]) == if c.Ready? then [c] else []
  {
    assert [c][..0] == [];
  }

  /** The first k events do not offend. */
  predicate Behave(states: seq<StateDefinition>, initial: nat, events: seq<Event>) {
    forall k :: 0 <= k < |events| ==> !Offends(states, StateBefore(initial, events, k), events[k])
  }

  lemma BehaveSnoc(states: seq<StateDefinition>, initial: nat, g: seq<Event>, e: Event)
    ensures Behave(states, initial, g + [e])
            <==> Behave(states, initial, g) && !Offends(states, StateBefore(initial, g, |g|), e)
  {
    hide Offends;
    var events := g + [e];
    assert forall k :: 0 <= k <= |g| ==> StateBefore(initial, g, k) == StateBefore(initial, events, k);
    assert forall k :: 0 <= k < |g| ==> g[k] == events[k];
    assert events[|g|] == e;
  }

  lemma ReactAllSnoc(states: seq<StateDefinition>, initial: nat, g: seq<Event>, e: Event)
    requires initial < |states|
    ensures var before := ReactAll(states, initial, g);
            ReactAll(states, initial, g + [e])
            == if before.aborted then before
               else
                 var r := React(states, initial, before.current, e);
                 r.(calls := before.calls + r.calls)
  {
    assert (g + [e])[..|g|] == g;
  }

  /** What the engine's calls have to do with the events. */
  ghost predicate Explained(states: seq<StateDefinition>, initial: nat, events: seq<Event>, r: Reaction) {
    && (r.aborted <==> !Behave(states, initial, events))
    && (!r.aborted ==>
          && |Readies(r.calls)| == |events|
          && r.current == (if events == [] then None else Some(StateBefore(initial, events, |events|)))
          && forall k :: 0 <= k < |events| ==>
               Readies(r.calls)[k] == Ready(StateBefore(initial, events, k), events[k].Read?))
    && forall c :: c in r.calls && c.Ready? ==> HasCallback(states, c.state, c.read)
  }

  predicate HasCallback(states: seq<StateDefinition>, s: nat, read: bool) {
    s < |states| && if read then states[s].onReadReady else states[s].onWriteReady
  }

  /** Over every list of events: the engine aborts exactly when some event offends the state that it finds; until then
      each event has run its own callback in the state that the one before it returned; and no callback runs that the
      table does not have. */
  lemma {:induction false} EventsRunTheirCallbacks(states: seq<StateDefinition>, initial: nat, events: seq<Event>)
    requires initial < |states|
    ensures Explained(states, initial, events, ReactAll(states, initial, events))
  {
    hide Offends, React, ReactAll, Readies, Behave, HasCallback;
    if events == [] {
      NothingReacted(states, initial);
    } else {
      var n := |events| - 1;
      var g, e := events[..n], events[n];
      assert events == g + [e];
      EventsRunTheirCallbacks(states, initial, g);
      BehaveSnoc(states, initial, g, e);
      ReactAllSnoc(states, initial, g, e);
      var before := ReactAll(states, initial, g);
      if !before.aborted {
        ReactCalls(states, initial, before.current, e);
        ReadiesSplit(before.calls, React(states, initial, before.current, e).calls);
        assert forall k :: 0 <= k <= n ==> StateBefore(initial, g, k) == StateBefore(initial, events, k);
      }
    }
  }

  lemma NothingReacted(states: seq<StateDefinition>, initial: nat)
    requires initial < |states|
    ensures Explained(states, initial, [], ReactAll(states, initial, []))
  {
  }

  lemma NoReadies()
    ensures Readies([]) == []
  {
  }

  class StateMachine {
    const initial: nat
    const maxState: nat
    const states: seq<StateDefinition>
    var current: Option<nat> // an index into states
    ghost var calls: seq<Call> // as if every callback existed
    ghost var trace: seq<Call> // the calls really made

    ghost predicate Valid()
      reads this
    {
      && |states| == maxState + 1 && initial < maxState
      && (forall i :: 0 <= i <= maxState ==> states[i].state == i)
      && (current.Some? ==> current.value <= maxState)
      && Bracketed(calls, current) && trace == Project(states, calls)
    }

    /** A machine before stm_init; `maxState` is the last valid id. */
    constructor (initial: nat, states: seq<StateDefinition>)
      requires states != []
      ensures this.initial == initial && this.states == states && maxState == |states| - 1
      ensures current == None && calls == [] && trace == []
    {
      this.initial, this.states, this.maxState := initial, states, |states| - 1;
      current, calls, trace := None, [], [];
    }

    /** stm_init: false stands for abort(). */
    method Init() returns (ok: bool)
      requires |states| == maxState + 1 && calls == [] && trace == []
      modifies this`current
      ensures ok <==> initial < maxState && forall i :: 0 <= i <= maxState ==> states[i].state == i
      ensures ok ==> Valid() && current == None
    {
      for i := 0 to maxState + 1
        invariant forall j :: 0 <= j < i ==> states[j].state == j
      {
        if i != states[i].state {
          return false;
        }
      }
      if initial < maxState {
        current := None;
        return true;
      }
      return false;
    }

    ghost method Log(c: Call)
      requires trace == Project(states, calls)
      modifies this`calls, this`trace
      ensures calls == old(calls) + [c] && trace == Project(states, calls)
    {
      ProjectSnoc(states, calls, c);
      calls, trace := calls + [c], trace + Existing(states, c);
    }

    ghost method LogReady(s: nat, read: bool)
      requires trace == Project(states, calls) && Bracketed(calls, Some(s))
      modifies this`calls, this`trace
      ensures calls == old(calls) + [Ready(s, read)] && trace == Project(states, calls) && Bracketed(calls, Some(s))
    {
      Log(Ready(s, read));
      assert calls[..|calls| - 1] == old(calls);
    }

    /** handle_first */
    method HandleFirst()
      requires Valid() && (current == None ==> calls == [])
      modifies this
      ensures Valid() && current == (if old(current) == None then Some(initial) else old(current))
      ensures calls == old(calls) + (if old(current) == None then [Arrival(initial)] else [])
    {
      if current == None {
        current := Some(initial);
        Log(Arrival(initial));
        assert calls[..|calls| - 1] == [];
      }
    }

    /** jump: false stands for abort(). */
    method Jump(next: nat) returns (ok: bool)
      requires Valid() && current.Some?
      modifies this
      ensures Valid() && (ok <==> next <= maxState)
      ensures if ok then current == Some(next) else current == old(current)
      ensures calls == old(calls) + (if ok && next != old(current.value)
              then [Departure(old(current.value)), Arrival(next)] else [])
    {
      if next > maxState {
        return false;
      }
      if current.value != next {
        ghost var before := calls;
        Log(Departure(current.value));
        assert calls[..|calls| - 1] == before;
        ghost var between := calls;
        current := Some(next);
        Log(Arrival(next));
        assert calls[..|calls| - 1] == between;
      }
      return true;
    }

    /** stm_handler_read and stm_handler_write; `e` carries what the state's callback returns. */
    method Handle(e: Event) returns (r: Result)
      requires Valid() && (current == None ==> calls == [])
      modifies this
      ensures Valid() && current.Some?
      ensures var reaction := React(states, initial, old(current), e);
              && calls == old(calls) + reaction.calls && current == reaction.current
              && r == if reaction.aborted then Aborted else Returned(e.result)
    {
      hide Bracketed, Project;
      HandleFirst();
      var s := current.value;
      if !(if e.Read? then states[s].onReadReady else states[s].onWriteReady) {
        return Aborted;
      }
      LogReady(s, e.Read?);
      var ok := Jump(e.result);
      return if ok then Returned(e.result) else Aborted;
    }

    /** stm_handler_close */
    method Close()
      requires Valid()
      modifies this`calls, this`trace
      ensures trace == Project(states, calls) && Bracketed(calls, None)
      ensures calls == old(calls) + (if current.Some? then [Departure(current.value)] else [])
    {
      if current.Some? {
        ghost var before := calls;
        Log(Departure(current.value));
        assert calls[..|calls| - 1] == before;
      }
    }

    /** A whole connection: events until one aborts, then the close. The calls are bracketed to the end, and as long as
        nothing aborted `current` is the state that the last callback returned. */
    method Run(events: seq<Event>) returns (aborted: bool)
      requires Valid() && current == None && calls == []
      modifies this
      ensures trace == Project(states, calls) && Bracketed(calls, None)
      ensures var r := ReactAll(states, initial, events);
              && aborted == r.aborted && current == r.current
              && calls == r.calls + (if r.current.Some? then [Departure(r.current.value)] else [])
      ensures !aborted && events != [] ==> current == Some(events[|events| - 1].result)
    {
      aborted := false;
      for i := 0 to |events|
        invariant Valid() && (current == None ==> calls == [])
        invariant Reaction(calls, current, aborted) == ReactAll(states, initial, events[..i])
        invariant !aborted && i > 0 ==> current == Some(events[i - 1].result)
      {
        assert events[..i + 1][..i] == events[..i];
        if !aborted {
          var r := Handle(events[i]);
          aborted := r == Aborted;
        }
      }
      assert events[..|events|] == events;
      Close();
    }
  }
}
