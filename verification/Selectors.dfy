/** selector.c: the growable jump table of descriptors, its derived select sets, and the dispatch loop whose
    callbacks change the table while it is being scanned. */
module Selectors {
  import opened Wrappers

  const FD_SETSIZE := 1024
  const FD_UNUSED := -1

  /** fd_interest as its two bits */
  datatype Interest = Interest(read: bool, write: bool)

  const OP_NOOP := Interest(false, false)

  /** An fd_handler, by the callbacks it provides. */
  datatype Handler = Handler(onRead: bool, onWrite: bool, onClose: bool)

  datatype Status = Success | MaxFd | IArgs | FdInUse

  datatype Item = Item(fd: int, interest: Interest, handler: Handler, data: int)

  const UNUSED := Item(FD_UNUSED, OP_NOOP, Handler(false, false, false), 0)

  // ----- Capacity

  function Pow2(k: nat): nat {
    if k == 0 then 1 else 2 * Pow2(k - 1)
  }

  /** One more than the largest exponent needed for n. */
  function Bits(n: nat): nat {
    if n == 0 then 0 else 1 + Bits(n / 2)
  }

  function Capacity(n: nat): nat {
    1 + if Pow2(Bits(n)) > FD_SETSIZE then FD_SETSIZE else Pow2(Bits(n))
  }

  /** Pow2(Bits(n)) is the least power of two above n. */
  lemma {:induction false} BitsAreLeast(n: nat)
    ensures n < Pow2(Bits(n)) && (n > 0 ==> Pow2(Bits(n) - 1) <= n)
  {
    if n > 1 {
      BitsAreLeast(n / 2);
    }
  }

  lemma {:induction false} Pow2Monotone(j: nat, k: nat)
    requires j <= k
    ensures Pow2(j) <= Pow2(k)
    ensures j < k ==> 2 * Pow2(j) <= Pow2(k)
  {
    if j < k {
      Pow2Monotone(j, k - 1);
    }
  }

  lemma SmallPowers()
    ensures Pow2(9) == 512 && Pow2(10) == 1024 && Pow2(11) == 2048
  {
    assert Pow2(4) == 16;
    assert Pow2(8) == 256;
  }

  /** next_capacity */
  method NextCapacity(n: nat) returns (r: nat)
    requires n <= FD_SETSIZE
    ensures r == Capacity(n) && n < r
  {
    var bits, tmp := 0, n;
    var power := 1; // 1UL << bits
    while tmp != 0
      invariant Bits(n) == bits + Bits(tmp) && power == Pow2(bits)
    {
      tmp := tmp / 2;
      bits := bits + 1;
      power := 2 * power;
    }
    BitsAreLeast(n);
    assert power >= n;
    if power > FD_SETSIZE {
      power := FD_SETSIZE;
    }
    r := power + 1;
  }

  /** The capacity is a power of two plus one, above n, and no smaller power would do; it is capped. */
  lemma CapacityIsLeast(n: nat) returns (k: nat)
    requires n <= FD_SETSIZE
    ensures Capacity(n) == Pow2(k) + 1 && k <= 10 && n <= Pow2(k)
    ensures n < FD_SETSIZE ==> n < Pow2(k) && (k > 0 ==> Pow2(k - 1) <= n)
  {
    BitsAreLeast(n);
    SmallPowers();
    if Bits(n) > 10 {
      Pow2Monotone(11, Bits(n));
      Pow2Monotone(10, Bits(n) - 1);
      k := 10;
    } else {
      k := Bits(n);
      Pow2Monotone(k, 10);
    }
  }

  /** The table size after the guard of selector_register, which compares with > where the size needs >=. */
  function SizeForRegister(size: nat, fd: nat): nat {
    if fd > size && fd >= size then Capacity(fd) else size
  }

  /** The slot that selector_register touches lies in the table exactly when fd differs from the size. */
  lemma RegisterStaysInTable(size: nat, fd: nat)
    requires fd < FD_SETSIZE
    ensures fd < SizeForRegister(size, fd) <==> fd != size
  {
    BitsAreLeast(fd);
  }

  /** A selector made for n elements never has a size that is also a valid descriptor, exactly when n >= 512. */
  lemma InitialSizesWithoutGap(n: nat)
    requires n <= FD_SETSIZE
    ensures InvalidFd(Capacity(n)) <==> n >= 512
  {
    SmallPowers();
    var k := CapacityIsLeast(n);
    if k < 10 {
      Pow2Monotone(k, 9);
    }
  }

  // ----- The abstract table

  type Table = map<int, Item>

  predicate InvalidFd(fd: int) {
    fd < 0 || fd >= FD_SETSIZE
  }

  datatype Command =
    | Register(fd: int, handler: Option<Handler>, interest: Interest, data: int)
    | Unregister(fd: int)
    | SetInterest(fd: int, interest: Interest)

  datatype Kind = ReadCall | WriteCall

  /** What can be observed: callbacks with the attachment they get, and the results of table operations. */
  datatype Entry =
    | Called(kind: Kind, fd: int, data: int)
    | MissingCallback(kind: Kind, fd: int)
    | CloseCalled(fd: int, data: int)
    | Did(command: Command, status: Status)

  /** `failed` tells that an assertion has stopped the program. */
  datatype World = World(table: Table, trace: seq<Entry>, calls: nat, failed: bool)

  function StatusOf(t: Table, c: Command): Status {
    match c
    case Register(fd, handler, _, _) => if InvalidFd(fd) || handler.None? then IArgs else if fd in t then FdInUse
        else Success
    case Unregister(fd) => if InvalidFd(fd) || fd !in t then IArgs else Success
    case SetInterest(fd, _) => if InvalidFd(fd) || fd !in t then IArgs else Success
  }

  function TableAfter(t: Table, c: Command): Table {
    if StatusOf(t, c) != Success then t
    else match c
      case Register(fd, handler, interest, data) => t[fd := Item(fd, interest, handler.value, data)]
      case Unregister(fd) => t - {fd}
      case SetInterest(fd, interest) => t[fd := t[fd].(interest := interest)]
  }

  function ClosingCalls(t: Table, c: Command): seq<Entry> {
    if c.Unregister? && StatusOf(t, c) == Success && t[c.fd].handler.onClose then [CloseCalled(c.fd, t[c.fd].data)]
        else []
  }

  // ----- What a pass over the table does

  /** What the k-th callback does to the selector. */
  type Scripts = nat -> seq<Command>

  function Perform(w: World, c: Command): World {
    w.(table := TableAfter(w.table, c), trace := w.trace + ClosingCalls(w.table, c) + [Did(c, StatusOf(w.table, c))])
  }

  function PerformAll(w: World, cs: seq<Command>): World
    decreases |cs|
  {
    if cs == [] then w else PerformAll(Perform(w, cs[0]), cs[1..])
  }

  function Call(w: World, kind: Kind, fd: int, data: int, scripts: Scripts): World {
    PerformAll(w.(trace := w.trace + [Called(kind, fd, data)], calls := w.calls + 1), scripts(w.calls))
  }

  /** An assertion that the callback is there fails, and the program ends. */
  function Fail(w: World, kind: Kind, fd: int): World {
    w.(trace := w.trace + [MissingCallback(kind, fd)], failed := true)
  }

  /** The read half of a slot. */
  function VisitRead(w: World, i: int, slaveR: set<int>, scripts: Scripts): World {
    if i !in w.table || i !in slaveR || !w.table[i].interest.read then w
    else if w.table[i].handler.onRead then Call(w, ReadCall, i, w.table[i].data, scripts)
    else Fail(w, ReadCall, i)
  }

  /** The write half, with the attachment that was read before the read callback ran. */
  function VisitWrite(w: World, i: int, data: int, slaveW: set<int>, scripts: Scripts): World {
    if w.failed || i !in w.table || i !in slaveW || !w.table[i].interest.write then w
    else if w.table[i].handler.onWrite then Call(w, WriteCall, i, data, scripts)
    else Fail(w, WriteCall, i)
  }

  function Visit(w: World, i: int, slaveR: set<int>, slaveW: set<int>, scripts: Scripts): World {
    if w.failed || i !in w.table then w
    else VisitWrite(VisitRead(w, i, slaveR, scripts), i, w.table[i].data, slaveW, scripts)
  }

  function Pass(w: World, i: int, n: int, slaveR: set<int>, slaveW: set<int>, scripts: Scripts): World
    decreases n - i
  {
    if i > n then w else Pass(Visit(w, i, slaveR, slaveW, scripts), i + 1, n, slaveR, slaveW, scripts)
  }

  /** The table after the operations in a trace. */
  function Replay(t: Table, trace: seq<Entry>): Table {
    if trace == [] then t
    else
      var before, e := Replay(t, trace[..|trace| - 1]), trace[|trace| - 1];
      if e.Did? then TableAfter(before, e.command) else before
  }

  /** What must be true when a callback is entered: select reported the descriptor, and it is registered now,
      with that interest and that callback; a read callback gets its present attachment. */
  predicate Justified(t: Table, e: Entry, slaveR: set<int>, slaveW: set<int>) {
    match e
    case Called(ReadCall, fd, data) =>
      fd in slaveR && fd in t && t[fd].interest.read && t[fd].handler.onRead && t[fd].data == data
    case Called(WriteCall, fd, _) =>
      fd in slaveW && fd in t && t[fd].interest.write && t[fd].handler.onWrite
    case MissingCallback(ReadCall, fd) => fd in slaveR && fd in t && t[fd].interest.read && !t[fd].handler.onRead
    case MissingCallback(WriteCall, fd) => fd in slaveW && fd in t && t[fd].interest.write && !t[fd].handler.onWrite
    case _ => true
  }

  /** Slots are visited in order, and within a slot reading comes before writing. */
  predicate Before(e: Entry, f: Entry) {
    e.Called? && f.Called? ==> e.fd < f.fd || (e.fd == f.fd && e.kind.ReadCall? && f.kind.WriteCall?)
  }

  /** A missing callback is the end of everything. */
  ghost predicate EndsWithFailure(trace: seq<Entry>, failed: bool) {
    && (failed ==> trace != [] && trace[|trace| - 1].MissingCallback?)
    && forall k :: 0 <= k < |trace| && trace[k].MissingCallback? ==> failed && k == |trace| - 1
  }

  /** A trace that explains its table, with every callback justified when it was entered and called once. */
  ghost predicate Sound(t0: Table, w: World, slaveR: set<int>, slaveW: set<int>) {
    && Replay(t0, w.trace) == w.table && EndsWithFailure(w.trace, w.failed)
    && (forall k :: 0 <= k < |w.trace| ==> Justified(Replay(t0, w.trace[..k]), w.trace[k], slaveR, slaveW))
    && (forall j, k :: 0 <= j < k < |w.trace| ==> Before(w.trace[j], w.trace[k]))
  }

  /** All callbacks so far belong to slots in front of i, or to the read half of slot i. */
  predicate UpTo(trace: seq<Entry>, i: int, readDone: bool) {
    forall k :: 0 <= k < |trace| && trace[k].Called? ==>
        trace[k].fd < i || (readDone && trace[k].fd == i && trace[k].kind.ReadCall?)
  }

  lemma ReplaySnoc(t: Table, trace: seq<Entry>, e: Entry)
    ensures Replay(t, trace + [e]) == if e.Did? then TableAfter(Replay(t, trace), e.command) else Replay(t, trace)
  {
    assert (trace + [e])[..|trace|] == trace;
  }

  /** One more entry that is justified. */
  function After(w: World, e: Entry): World {
    w.(trace := w.trace + [e], table := if e.Did? then TableAfter(w.table, e.command) else w.table,
       failed := e.MissingCallback?)
  }

  lemma SoundSnoc(t0: Table, w: World, e: Entry, slaveR: set<int>, slaveW: set<int>)
    requires Sound(t0, w, slaveR, slaveW) && Justified(w.table, e, slaveR, slaveW) && !w.failed
    requires forall k :: 0 <= k < |w.trace| ==> Before(w.trace[k], e)
    ensures Sound(t0, After(w, e), slaveR, slaveW)
  {
    hide Justified, Before, TableAfter, Replay;
    var tr := w.trace + [e];
    ReplaySnoc(t0, w.trace, e);
    forall k | 0 <= k < |tr|
      ensures Justified(Replay(t0, tr[..k]), tr[k], slaveR, slaveW)
    {
      if k < |w.trace| {
        assert tr[..k] == w.trace[..k] && tr[k] == w.trace[k];
      } else {
        assert tr[..k] == w.trace;
      }
    }
  }

  /** Table operations and close callbacks put no obligation on the trace. */
  lemma QuietEntry(t0: Table, w: World, e: Entry, slaveR: set<int>, slaveW: set<int>, i: int, readDone: bool)
    requires Sound(t0, w, slaveR, slaveW) && UpTo(w.trace, i, readDone) && (e.Did? || e.CloseCalled?) && !w.failed
    ensures Sound(t0, After(w, e), slaveR, slaveW) && UpTo(After(w, e).trace, i, readDone) && !After(w, e).failed
  {
    hide Sound, TableAfter;
    SoundSnoc(t0, w, e, slaveR, slaveW);
  }

  lemma PerformKeepsSound(t0: Table, w: World, c: Command, slaveR: set<int>, slaveW: set<int>, i: int, readDone: bool)
    requires Sound(t0, w, slaveR, slaveW) && UpTo(w.trace, i, readDone) && !w.failed
    ensures Sound(t0, Perform(w, c), slaveR, slaveW) && UpTo(Perform(w, c).trace, i, readDone) && !Perform(w, c).failed
  {
    hide Sound, UpTo, TableAfter, StatusOf;
    var closing := ClosingCalls(w.table, c);
    var v := w.(trace := w.trace + closing);
    if closing == [] {
      assert v == w;
    } else {
      QuietEntry(t0, w, closing[0], slaveR, slaveW, i, readDone);
      assert v == After(w, closing[0]);
    }
    QuietEntry(t0, v, Did(c, StatusOf(w.table, c)), slaveR, slaveW, i, readDone);
  }

  lemma {:induction false} ScriptKeepsSound(t0: Table, w: World, cs: seq<Command>, slaveR: set<int>, slaveW: set<int>,
                                            i: int, readDone: bool)
    requires Sound(t0, w, slaveR, slaveW) && UpTo(w.trace, i, readDone) && !w.failed
    ensures var v := PerformAll(w, cs); Sound(t0, v, slaveR, slaveW) && UpTo(v.trace, i, readDone) && !v.failed
    decreases |cs|
  {
    hide Sound, UpTo, Perform;
    if cs != [] {
      PerformKeepsSound(t0, w, cs[0], slaveR, slaveW, i, readDone);
      ScriptKeepsSound(t0, Perform(w, cs[0]), cs[1..], slaveR, slaveW, i, readDone);
    }
  }

  /** The callback of the slot, after all callbacks of earlier slots. */
  lemma EnterCall(t0: Table, w: World, e: Entry, slaveR: set<int>, slaveW: set<int>)
    requires e.Called? && Sound(t0, w, slaveR, slaveW) && UpTo(w.trace, e.fd, e.kind.WriteCall?) && !w.failed
    requires Justified(w.table, e, slaveR, slaveW)
    ensures var v := w.(trace := w.trace + [e]);
            Sound(t0, v, slaveR, slaveW) && UpTo(v.trace, if e.kind.ReadCall? then e.fd else e.fd + 1, e.kind.ReadCall?)
  {
    hide Sound;
    SoundSnoc(t0, w, e, slaveR, slaveW);
    assert w.(trace := w.trace + [e]) == After(w, e);
  }

  lemma CallsDoNotMatter(t0: Table, w: World, calls: nat, slaveR: set<int>, slaveW: set<int>)
    ensures Sound(t0, w, slaveR, slaveW) == Sound(t0, w.(calls := calls), slaveR, slaveW)
  {
  }

  lemma CallKeepsSound(t0: Table, w: World, kind: Kind, i: int, data: int, slaveR: set<int>, slaveW: set<int>,
                       scripts: Scripts)
    requires Sound(t0, w, slaveR, slaveW) && UpTo(w.trace, i, kind.WriteCall?) && !w.failed
    requires Justified(w.table, Called(kind, i, data), slaveR, slaveW)
    ensures var v := Call(w, kind, i, data, scripts);
            && Sound(t0, v, slaveR, slaveW) && !v.failed
            && UpTo(v.trace, if kind.ReadCall? then i else i + 1, kind.ReadCall?)
  {
    hide Sound, UpTo;
    EnterCall(t0, w, Called(kind, i, data), slaveR, slaveW);
    var v := w.(trace := w.trace + [Called(kind, i, data)]);
    CallsDoNotMatter(t0, v, w.calls + 1, slaveR, slaveW);
    ScriptKeepsSound(t0, v.(calls := w.calls + 1), scripts(w.calls), slaveR, slaveW,
                     if kind.ReadCall? then i else i + 1, kind.ReadCall?);
  }

  lemma FailKeepsSound(t0: Table, w: World, kind: Kind, i: int, slaveR: set<int>, slaveW: set<int>, j: int)
    requires Sound(t0, w, slaveR, slaveW) && !w.failed && Justified(w.table, MissingCallback(kind, i), slaveR, slaveW)
    requires UpTo(w.trace, j, kind.WriteCall?)
    ensures Sound(t0, Fail(w, kind, i), slaveR, slaveW) && UpTo(Fail(w, kind, i).trace, j, kind.WriteCall?)
  {
    hide Sound;
    SoundSnoc(t0, w, MissingCallback(kind, i), slaveR, slaveW);
    assert Fail(w, kind, i) == After(w, MissingCallback(kind, i));
  }

  lemma VisitKeepsSound(t0: Table, w: World, i: int, slaveR: set<int>, slaveW: set<int>, scripts: Scripts)
    requires Sound(t0, w, slaveR, slaveW) && UpTo(w.trace, i, false)
    ensures Sound(t0, Visit(w, i, slaveR, slaveW, scripts), slaveR, slaveW)
    ensures UpTo(Visit(w, i, slaveR, slaveW, scripts).trace, i + 1, false)
  {
    hide Call, Sound, Fail;
    if !w.failed && i in w.table {
      var v := VisitRead(w, i, slaveR, scripts);
      if i in slaveR && w.table[i].interest.read {
        if w.table[i].handler.onRead {
          CallKeepsSound(t0, w, ReadCall, i, w.table[i].data, slaveR, slaveW, scripts);
        } else {
          FailKeepsSound(t0, w, ReadCall, i, slaveR, slaveW, i);
        }
      }
      if !v.failed && i in v.table && i in slaveW && v.table[i].interest.write {
        if v.table[i].handler.onWrite {
          CallKeepsSound(t0, v, WriteCall, i, w.table[i].data, slaveR, slaveW, scripts);
        } else {
          FailKeepsSound(t0, v, WriteCall, i, slaveR, slaveW, i);
        }
      }
    }
  }

  /** Whatever the callbacks register, unregister or re-interest during a pass: each callback is entered only for a
      descriptor that select reported and that is registered with that interest at that very moment, each descriptor
      gets at most one read and one write call, in this order, and nothing follows a missing callback. */
  lemma {:induction false} PassIsSound(t0: Table, w: World, i: int, n: int, slaveR: set<int>, slaveW: set<int>,
                                       scripts: Scripts)
    requires Sound(t0, w, slaveR, slaveW) && UpTo(w.trace, i, false)
    ensures Sound(t0, Pass(w, i, n, slaveR, slaveW, scripts), slaveR, slaveW)
    ensures UpTo(Pass(w, i, n, slaveR, slaveW, scripts).trace, if i <= n then n + 1 else i, false)
    decreases n - i
  {
    hide Sound, Visit;
    if i <= n {
      VisitKeepsSound(t0, w, i, slaveR, slaveW, scripts);
      PassIsSound(t0, Visit(w, i, slaveR, slaveW, scripts), i + 1, n, slaveR, slaveW, scripts);
    }
  }

  /** A pass starts with an empty trace. */
  lemma FreshPassIsSound(w: World, n: int, slaveR: set<int>, slaveW: set<int>, scripts: Scripts)
    requires w.trace == [] && !w.failed
    ensures Sound(w.table, Pass(w, 0, n, slaveR, slaveW, scripts), slaveR, slaveW)
  {
    PassIsSound(w.table, w, 0, n, slaveR, slaveW, scripts);
  }

  // ----- Who must be called

  /** The table operation is about this descriptor. */
  predicate About(c: Command, fd: int) {
    c.fd == fd
  }

  predicate Mentions(cs: seq<Command>, fd: int) {
    exists k :: 0 <= k < |cs| && About(cs[k], fd)
  }

  /** How many callbacks a trace holds, and so which script comes next. */
  function Calls(trace: seq<Entry>): nat {
    if trace == [] then 0 else Calls(trace[..|trace| - 1]) + if trace[|trace| - 1].Called? then 1 else 0
  }

  lemma {:induction false} CallsSplit(a: seq<Entry>, b: seq<Entry>)
    ensures Calls(a + b) == Calls(a) + Calls(b)
    decreases |b|
  {
    if b == [] {
      assert a + b == a;
    } else {
      var n := |b| - 1;
      assert (a + b)[..|a + b| - 1] == a + b[..n];
      CallsSplit(a, b[..n]);
    }
  }

  /** One world comes out of another: its trace goes on, and its calls are counted there. */
  ghost predicate Continues(w: World, v: World) {
    w.trace <= v.trace && v.calls - w.calls == Calls(v.trace) - Calls(w.trace) && (w.failed ==> v.failed)
  }

  lemma ContinuesTrans(u: World, v: World, w: World)
    requires Continues(u, v) && Continues(v, w)
    ensures Continues(u, w)
  {
  }

  /** The same registration, or none, as far as this descriptor is concerned. */
  predicate SameSlot(w: World, v: World, fd: int) {
    (fd in w.table <==> fd in v.table) && (fd in w.table ==> v.table[fd] == w.table[fd])
  }

  lemma PerformContinues(w: World, c: Command, fd: int)
    ensures Continues(w, Perform(w, c)) && Perform(w, c).failed == w.failed && Perform(w, c).calls == w.calls
    ensures !About(c, fd) ==> SameSlot(w, Perform(w, c), fd)
  {
    if !About(c, fd) {
      OtherSlot(w.table, c, fd);
    }
    hide TableAfter, StatusOf, ClosingCalls, Calls;
    var closing, e := ClosingCalls(w.table, c), Did(c, StatusOf(w.table, c));
    assert Perform(w, c).trace == w.trace + (closing + [e]);
    CallsSplit(w.trace, closing + [e]);
    ClosingIsQuiet(w.table, c);
    NoCalls(closing + [e]);
  }

  lemma OtherSlot(t: Table, c: Command, fd: int)
    requires !About(c, fd)
    ensures var after := TableAfter(t, c); (fd in after <==> fd in t) && (fd in t ==> after[fd] == t[fd])
  {
  }

  lemma ClosingIsQuiet(t: Table, c: Command)
    ensures forall k :: 0 <= k < |ClosingCalls(t, c)| ==> !ClosingCalls(t, c)[k].Called?
  {
  }

  lemma {:induction false} NoCalls(trace: seq<Entry>)
    requires forall k :: 0 <= k < |trace| ==> !trace[k].Called?
    ensures Calls(trace) == 0
  {
    if trace != [] {
      NoCalls(trace[..|trace| - 1]);
    }
  }

  lemma {:induction false} PerformAllContinues(w: World, cs: seq<Command>, fd: int)
    ensures Continues(w, PerformAll(w, cs)) && PerformAll(w, cs).failed == w.failed
            && PerformAll(w, cs).calls == w.calls
    ensures !Mentions(cs, fd) ==> SameSlot(w, PerformAll(w, cs), fd)
    decreases |cs|
  {
    hide Perform, SameSlot, Continues;
    if cs == [] {
      Unmoved(w, fd);
    } else {
      var v := Perform(w, cs[0]);
      PerformContinues(w, cs[0], fd);
      PerformAllContinues(v, cs[1..], fd);
      ContinuesTrans(w, v, PerformAll(v, cs[1..]));
      if !Mentions(cs, fd) {
        assert !About(cs[0], fd);
        assert !Mentions(cs[1..], fd) by {
          assert forall k :: 0 <= k < |cs[1..]| ==> cs[1..][k] == cs[k + 1];
        }
        SameSlotTrans(w, v, PerformAll(v, cs[1..]), fd);
      }
    }
  }

  lemma Unmoved(w: World, fd: int)
    ensures Continues(w, w) && SameSlot(w, w, fd)
  {
  }

  lemma SameSlotTrans(u: World, v: World, w: World, fd: int)
    requires SameSlot(u, v, fd) && SameSlot(v, w, fd)
    ensures SameSlot(u, w, fd)
  {
  }

  /** A callback is one more call, and its entry stays in the trace. */
  lemma CallContinues(w: World, kind: Kind, i: int, data: int, scripts: Scripts, fd: int)
    ensures var v := Call(w, kind, i, data, scripts);
            && Continues(w, v) && v.failed == w.failed && v.calls > w.calls
            && |v.trace| > |w.trace| && v.trace[|w.trace|] == Called(kind, i, data)
            && (!Mentions(scripts(w.calls), fd) ==> SameSlot(w, v, fd))
  {
    hide PerformAll, Mentions;
    var e := Called(kind, i, data);
    var u := w.(trace := w.trace + [e], calls := w.calls + 1);
    PerformAllContinues(u, scripts(w.calls), fd);
    CallsSplit(w.trace, [e]);
    assert Calls([e]) == 1 by { assert [e][..0] == []; }
  }

  /** Nothing that a callback does between these two call counts mentions the descriptor. */
  predicate LeftAlone(scripts: Scripts, from: nat, to: nat, fd: int) {
    forall k :: from <= k < to ==> !Mentions(scripts(k), fd)
  }

  lemma FailContinues(w: World, kind: Kind, i: int, fd: int)
    ensures Continues(w, Fail(w, kind, i)) && SameSlot(w, Fail(w, kind, i), fd) && Fail(w, kind, i).calls == w.calls
  {
    var e := MissingCallback(kind, i);
    CallsSplit(w.trace, [e]);
    NoCalls([e]);
  }

  lemma VisitReadContinues(w: World, i: int, slaveR: set<int>, scripts: Scripts, fd: int)
    ensures var v := VisitRead(w, i, slaveR, scripts);
            Continues(w, v) && v.calls >= w.calls && (LeftAlone(scripts, w.calls, v.calls, fd) ==> SameSlot(w, v, fd))
  {
    hide Call, Fail, Continues, SameSlot;
    Unmoved(w, fd);
    FailContinues(w, ReadCall, i, fd);
    if i in w.table && i in slaveR && w.table[i].interest.read && w.table[i].handler.onRead {
      CallContinues(w, ReadCall, i, w.table[i].data, scripts, fd);
    }
  }

  lemma VisitWriteContinues(w: World, i: int, data: int, slaveW: set<int>, scripts: Scripts, fd: int)
    ensures var v := VisitWrite(w, i, data, slaveW, scripts);
            Continues(w, v) && v.calls >= w.calls && (LeftAlone(scripts, w.calls, v.calls, fd) ==> SameSlot(w, v, fd))
  {
    hide Call, Fail, Continues, SameSlot;
    Unmoved(w, fd);
    FailContinues(w, WriteCall, i, fd);
    if !w.failed && i in w.table && i in slaveW && w.table[i].interest.write && w.table[i].handler.onWrite {
      CallContinues(w, WriteCall, i, data, scripts, fd);
    }
  }

  lemma VisitContinues(w: World, i: int, slaveR: set<int>, slaveW: set<int>, scripts: Scripts, fd: int)
    ensures var v := Visit(w, i, slaveR, slaveW, scripts);
            Continues(w, v) && v.calls >= w.calls && (LeftAlone(scripts, w.calls, v.calls, fd) ==> SameSlot(w, v, fd))
  {
    hide VisitRead, VisitWrite, Continues, SameSlot;
    Unmoved(w, fd);
    if !w.failed && i in w.table {
      var u := VisitRead(w, i, slaveR, scripts);
      VisitReadContinues(w, i, slaveR, scripts, fd);
      VisitWriteContinues(u, i, w.table[i].data, slaveW, scripts, fd);
      var v := VisitWrite(u, i, w.table[i].data, slaveW, scripts);
      ContinuesTrans(w, u, v);
      if LeftAlone(scripts, w.calls, v.calls, fd) {
        SameSlotTrans(w, u, v, fd);
      }
    }
  }

  lemma {:induction false} PassContinues(w: World, i: int, n: int, slaveR: set<int>, slaveW: set<int>, scripts: Scripts,
                                         fd: int)
    ensures var v := Pass(w, i, n, slaveR, slaveW, scripts);
            Continues(w, v) && v.calls >= w.calls && (LeftAlone(scripts, w.calls, v.calls, fd) ==> SameSlot(w, v, fd))
    decreases n - i
  {
    hide Visit, Continues, SameSlot;
    Unmoved(w, fd);
    if i <= n {
      var u, v := Visit(w, i, slaveR, slaveW, scripts), Pass(w, i, n, slaveR, slaveW, scripts);
      VisitContinues(w, i, slaveR, slaveW, scripts, fd);
      PassContinues(u, i + 1, n, slaveR, slaveW, scripts, fd);
      ContinuesTrans(w, u, v);
      if LeftAlone(scripts, w.calls, v.calls, fd) {
        SameSlotTrans(w, u, v, fd);
      }
    }
  }

  /** A pass is a pass up to some slot, that slot, and the rest. */
  lemma {:induction false} PassSplit(w: World, i: int, n: int, slaveR: set<int>, slaveW: set<int>, scripts: Scripts,
                                     m: int)
    requires i <= m <= n
    ensures var u := Visit(Pass(w, i, m - 1, slaveR, slaveW, scripts), m, slaveR, slaveW, scripts);
            Pass(w, i, n, slaveR, slaveW, scripts) == Pass(u, m + 1, n, slaveR, slaveW, scripts)
    decreases n - i
  {
    hide Visit;
    if i < m {
      PassSplit(Visit(w, i, slaveR, slaveW, scripts), i + 1, n, slaveR, slaveW, scripts, m);
    }
  }

  /** Callbacks of the slots in front, and for the write half the read callback of the slot itself. */
  predicate Earlier(e: Entry, kind: Kind, fd: int) {
    e.Called? && (e.fd < fd || (kind.WriteCall? && e.fd == fd && e.kind.ReadCall?))
  }

  /** No earlier callback of the pass touches the descriptor; the calls are counted along the trace. */
  ghost predicate Untouched(trace: seq<Entry>, calls: nat, scripts: Scripts, kind: Kind, fd: int) {
    forall p :: 0 <= p < |trace| && Earlier(trace[p], kind, fd) ==> !Mentions(scripts(calls + Calls(trace[..p])), fd)
  }

  /** What select reported, and what the descriptor was registered for. */
  predicate Wanted(t: Table, kind: Kind, fd: int, slaveR: set<int>, slaveW: set<int>) {
    fd in t && match kind
      case ReadCall => fd in slaveR && t[fd].interest.read && t[fd].handler.onRead
      case WriteCall => fd in slaveW && t[fd].interest.write && t[fd].handler.onWrite
  }

  lemma {:induction false} CallAt(trace: seq<Entry>, k: nat) returns (p: nat)
    requires k < Calls(trace)
    ensures p < |trace| && trace[p].Called? && Calls(trace[..p]) == k
    decreases |trace|
  {
    var n := |trace| - 1;
    if k < Calls(trace[..n]) {
      p := CallAt(trace[..n], k);
      assert trace[..n][..p] == trace[..p];
    } else {
      p := n;
    }
  }

  /** The calls counted in a part of the trace are those of entries that are earlier. */
  lemma EarlierCalls(w: World, u: World, v: World, scripts: Scripts, kind: Kind, fd: int)
    requires w.trace == [] && Continues(w, u) && u.trace <= v.trace
    requires forall p :: 0 <= p < |u.trace| && u.trace[p].Called? ==> Earlier(u.trace[p], kind, fd)
    requires Untouched(v.trace, w.calls, scripts, kind, fd)
    ensures LeftAlone(scripts, w.calls, u.calls, fd)
  {
    hide Mentions, Earlier;
    forall k | w.calls <= k < u.calls
      ensures !Mentions(scripts(k), fd)
    {
      var p := CallAt(u.trace, k - w.calls);
      assert u.trace[p] == v.trace[p] && u.trace[..p] == v.trace[..p];
    }
  }

  lemma EmptyIsSound(w: World, slaveR: set<int>, slaveW: set<int>, i: int)
    requires w.trace == [] && !w.failed
    ensures Sound(w.table, w, slaveR, slaveW) && UpTo(w.trace, i, false)
  {
  }

  lemma VisitReadUpTo(t0: Table, w: World, i: int, slaveR: set<int>, slaveW: set<int>, scripts: Scripts)
    requires Sound(t0, w, slaveR, slaveW) && UpTo(w.trace, i, false) && !w.failed
    ensures UpTo(VisitRead(w, i, slaveR, scripts).trace, i, true)
  {
    hide Call, Sound, Fail;
    if i in w.table && i in slaveR && w.table[i].interest.read {
      if w.table[i].handler.onRead {
        CallKeepsSound(t0, w, ReadCall, i, w.table[i].data, slaveR, slaveW, scripts);
      } else {
        FailKeepsSound(t0, w, ReadCall, i, slaveR, slaveW, i);
      }
    }
  }

  /** Up to a slot no earlier callback touched, that slot is as it was, and the pass has not failed. */
  lemma ReachesSlot(w: World, n: int, slaveR: set<int>, slaveW: set<int>, scripts: Scripts, fd: int, kind: Kind)
      returns (u: World)
    requires w.trace == [] && !w.failed && 0 <= fd <= n
    requires var v := Pass(w, 0, n, slaveR, slaveW, scripts);
             !v.failed && Untouched(v.trace, w.calls, scripts, kind, fd)
    ensures u == Pass(w, 0, fd - 1, slaveR, slaveW, scripts)
    ensures !u.failed && SameSlot(w, u, fd) && Continues(w, u)
    ensures Sound(w.table, u, slaveR, slaveW) && UpTo(u.trace, fd, false)
    ensures var x := Visit(u, fd, slaveR, slaveW, scripts);
            !x.failed && x.trace <= Pass(w, 0, n, slaveR, slaveW, scripts).trace && u.trace <= x.trace
  {
    hide Pass, Visit, Untouched, LeftAlone, Sound, SameSlot, UpTo;
    u := Pass(w, 0, fd - 1, slaveR, slaveW, scripts);
    var x, v := Visit(u, fd, slaveR, slaveW, scripts), Pass(w, 0, n, slaveR, slaveW, scripts);
    PassSplit(w, 0, n, slaveR, slaveW, scripts, fd);
    PassContinues(w, 0, fd - 1, slaveR, slaveW, scripts, fd);
    VisitContinues(u, fd, slaveR, slaveW, scripts, fd);
    PassContinues(x, fd + 1, n, slaveR, slaveW, scripts, fd);
    EmptyIsSound(w, slaveR, slaveW, 0);
    PassIsSound(w.table, w, 0, fd - 1, slaveR, slaveW, scripts);
    AllEarlier(u.trace, fd, false, kind);
    EarlierCalls(w, u, v, scripts, kind, fd);
  }

  lemma AllEarlier(trace: seq<Entry>, fd: int, readDone: bool, kind: Kind)
    requires UpTo(trace, fd, readDone) && (readDone ==> kind.WriteCall?)
    ensures forall p :: 0 <= p < |trace| && trace[p].Called? ==> Earlier(trace[p], kind, fd)
  {
  }

  /** Every descriptor that select reported, and that is registered for it, is served in the same pass: if the pass does
      not fail, and no earlier callback touches the descriptor, its callback is called with its attachment. */
  lemma PassServes(w: World, n: int, slaveR: set<int>, slaveW: set<int>, scripts: Scripts, kind: Kind, fd: int)
    requires w.trace == [] && !w.failed && 0 <= fd <= n && Wanted(w.table, kind, fd, slaveR, slaveW)
    requires var v := Pass(w, 0, n, slaveR, slaveW, scripts);
             !v.failed && Untouched(v.trace, w.calls, scripts, kind, fd)
    ensures Called(kind, fd, w.table[fd].data) in Pass(w, 0, n, slaveR, slaveW, scripts).trace
  {
    hide Pass, Call, Untouched, LeftAlone, Mentions, Sound, Fail, UpTo;
    var u := ReachesSlot(w, n, slaveR, slaveW, scripts, fd, kind);
    var v := Pass(w, 0, n, slaveR, slaveW, scripts);
    var data, y, x := w.table[fd].data, VisitRead(u, fd, slaveR, scripts), Visit(u, fd, slaveR, slaveW, scripts);
    VisitReadContinues(u, fd, slaveR, scripts, fd);
    VisitWriteContinues(y, fd, data, slaveW, scripts, fd);
    CallContinues(u, ReadCall, fd, data, scripts, fd);
    if kind.ReadCall? {
      assert y.trace[|u.trace|] == x.trace[|u.trace|] == v.trace[|u.trace|] == Called(kind, fd, data);
    } else {
      VisitReadUpTo(w.table, u, fd, slaveR, slaveW, scripts);
      AllEarlier(y.trace, fd, true, kind);
      ContinuesTrans(w, u, y);
      EarlierCalls(w, y, v, scripts, kind, fd);
      LaterPart(scripts, w.calls, u.calls, y.calls, fd);
      CallContinues(y, WriteCall, fd, data, scripts, fd);
      assert x.trace[|y.trace|] == v.trace[|y.trace|] == Called(kind, fd, data);
    }
  }

  lemma LaterPart(scripts: Scripts, from: nat, mid: nat, to: nat, fd: int)
    requires LeftAlone(scripts, from, to, fd) && from <= mid
    ensures LeftAlone(scripts, mid, to, fd)
  {
  }

  lemma {:induction false} QuietTrace(w: World, i: int, n: int, slaveR: set<int>, slaveW: set<int>, scripts: Scripts)
    requires (forall k :: scripts(k) == []) && forall e :: e in w.trace ==> !e.Did?
    ensures forall e :: e in Pass(w, i, n, slaveR, slaveW, scripts).trace ==> !e.Did?
    decreases n - i
  {
    if i <= n {
      QuietTrace(Visit(w, i, slaveR, slaveW, scripts), i + 1, n, slaveR, slaveW, scripts);
    }
  }

  lemma {:induction false} NothingReplayed(t: Table, trace: seq<Entry>)
    requires forall e :: e in trace ==> !e.Did?
    ensures Replay(t, trace) == t
  {
    if trace != [] {
      assert trace[|trace| - 1] in trace;
      NothingReplayed(t, trace[..|trace| - 1]);
    }
  }

  /** When callbacks leave the selector alone, a pass calls exactly the callbacks that are wanted, each with the
      attachment of its descriptor. */
  lemma QuietPass(w: World, n: int, slaveR: set<int>, slaveW: set<int>, scripts: Scripts, kind: Kind, fd: int,
                  data: int)
    requires w.trace == [] && !w.failed && forall k :: scripts(k) == []
    requires forall f :: f in w.table ==> 0 <= f <= n
    requires !Pass(w, 0, n, slaveR, slaveW, scripts).failed
    ensures Called(kind, fd, data) in Pass(w, 0, n, slaveR, slaveW, scripts).trace
            <==> Wanted(w.table, kind, fd, slaveR, slaveW) && data == w.table[fd].data
  {
    hide Pass;
    var v := Pass(w, 0, n, slaveR, slaveW, scripts);
    if Wanted(w.table, kind, fd, slaveR, slaveW) {
      PassServes(w, n, slaveR, slaveW, scripts, kind, fd);
    }
    if Called(kind, fd, data) in v.trace {
      var p :| 0 <= p < |v.trace| && v.trace[p] == Called(kind, fd, data);
      QuietTrace(w, 0, n, slaveR, slaveW, scripts);
      assert forall e :: e in v.trace[..p] ==> e in v.trace;
      NothingReplayed(w.table, v.trace[..p]);
      FreshPassIsSound(w, n, slaveR, slaveW, scripts);
      var q :| 0 <= q < |v.trace| && v.trace[q] == Called(kind, fd, w.table[fd].data);
      assert p < q ==> Before(v.trace[p], v.trace[q]);
      assert q < p ==> Before(v.trace[q], v.trace[p]);
    }
  }

  // ----- What the table operations do, slot by slot

  /** When each operation succeeds, and how it fails. */
  lemma StatusExactly(t: Table, c: Command)
    ensures InvalidFd(c.fd) <==> !(0 <= c.fd < 1024)
    ensures StatusOf(t, c) == IArgs
            <==> || !(0 <= c.fd < 1024)
                 || (if c.Register? then c.handler == None else c.fd !in t)
    ensures StatusOf(t, c) == FdInUse <==> c.Register? && 0 <= c.fd < 1024 && c.handler.Some? && c.fd in t
    ensures StatusOf(t, c) != MaxFd
  {
  }

  /** What each operation leaves: only the slot that it names changes, and only when it succeeds; a registration is as
      it was ordered, a change of interest keeps handler and attachment, and unregistering frees the slot. */
  lemma SlotsAfter(t: Table, c: Command, i: int)
    ensures var after := TableAfter(t, c);
            && (i != c.fd || StatusOf(t, c) != Success ==>
                  (i in after <==> i in t) && (i in t ==> after[i] == t[i]))
            && (StatusOf(t, c) == Success ==> match c
                  case Register(fd, handler, interest, data) =>
                    && fd in after && after[fd].fd == fd && after[fd].data == data
                    && after[fd].interest == interest && Some(after[fd].handler) == handler
                  case Unregister(fd) => fd !in after
                  case SetInterest(fd, interest) =>
                    && fd in after && after[fd].interest == interest
                    && after[fd].handler == t[fd].handler && after[fd].data == t[fd].data && after[fd].fd == t[fd].fd)
  {
  }

  /** The close callback is called exactly by a successful Unregister of a descriptor that has one. */
  lemma ClosesExactly(t: Table, c: Command)
    ensures |ClosingCalls(t, c)| <= 1
    ensures forall e :: (e in ClosingCalls(t, c)
                         <==> && c.Unregister? && 0 <= c.fd < 1024 && c.fd in t && t[c.fd].handler.onClose
                              && e == CloseCalled(c.fd, t[c.fd].data))
  {
  }

  // ----- The attachment that the write half of a slot sees

  function AttachmentOf(t: Table, i: int): Option<int> {
    if i in t then Some(t[i].data) else None
  }

  predicate Registers(c: Command, i: int) {
    c.Register? && c.fd == i && c.handler.Some?
  }

  predicate Unregisters(c: Command, i: int) {
    c == Unregister(i)
  }

  /** u is the last command of a script that unregisters i. */
  predicate LastUnregister(cs: seq<Command>, i: int, u: nat) {
    u < |cs| && Unregisters(cs[u], i) && forall j :: u < j < |cs| ==> !Unregisters(cs[j], i)
  }

  /** r is the first command behind u that registers i. */
  predicate FirstRegister(cs: seq<Command>, i: int, u: nat, r: nat) {
    u < r < |cs| && Registers(cs[r], i) && forall j :: u < j < r ==> !Registers(cs[j], i)
  }

  lemma {:induction false} PerformAllSnoc(w: World, cs: seq<Command>, c: Command)
    ensures PerformAll(w, cs + [c]) == Perform(PerformAll(w, cs), c)
    decreases |cs|
  {
    hide Perform;
    if cs == [] {
      assert ([] + [c])[1..] == [];
    } else {
      PerformAllSnoc(Perform(w, cs[0]), cs[1..], c);
      assert (cs + [c])[1..] == cs[1..] + [c];
    }
  }

  lemma PerformAttachment(w: World, c: Command, i: int)
    requires !InvalidFd(i)
    ensures var before, after := AttachmentOf(w.table, i), AttachmentOf(Perform(w, c).table, i);
            after == if Unregisters(c, i) then None
                     else if Registers(c, i) && before == None then Some(c.data)
                     else before
  {
  }

  /** A script decides on the attachment of a registered descriptor by its last Unregister and the first Register
      behind that. */
  lemma {:induction false} ScriptAttachment(w: World, cs: seq<Command>, i: int)
    requires !InvalidFd(i) && i in w.table
    ensures var after := AttachmentOf(PerformAll(w, cs).table, i);
            && ((forall u :: 0 <= u < |cs| ==> !Unregisters(cs[u], i)) ==> after == AttachmentOf(w.table, i))
            && (forall u: nat, r: nat :: LastUnregister(cs, i, u) && FirstRegister(cs, i, u, r) ==>
               after == Some(cs[r].data))
            && (forall u: nat :: LastUnregister(cs, i, u) && (forall r :: u < r < |cs| ==> !Registers(cs[r], i)) ==>
                  after == None)
    decreases |cs|
  {
    if cs != [] {
      hide Perform, AttachmentOf, InvalidFd;
      var n := |cs| - 1;
      var ds, c := cs[..n], cs[n];
      assert cs == ds + [c];
      PerformAllSnoc(w, ds, c);
      ScriptAttachment(w, ds, i);
      PerformAttachment(PerformAll(w, ds), c, i);
      ScriptAttachmentSnoc(ds, c, i);
    }
  }

  /** How the last Unregister and the first Register move when a script grows. */
  lemma ScriptAttachmentSnoc(ds: seq<Command>, c: Command, i: int)
    ensures var cs := ds + [c];
            && (Unregisters(c, i) ==> forall u: nat :: LastUnregister(cs, i, u) ==> u == |ds|)
            && (!Unregisters(c, i) ==> forall u: nat :: LastUnregister(cs, i, u) ==> LastUnregister(ds, i, u))
            && forall u: nat, r: nat :: FirstRegister(cs, i, u, r) ==>
                 || FirstRegister(ds, i, u, r)
                 || (r == |ds| && Registers(c, i) && forall j :: u < j < |ds| ==> !Registers(ds[j], i))
  {
    var cs := ds + [c];
    assert forall j :: 0 <= j < |ds| ==> cs[j] == ds[j];
    assert cs[|ds|] == c;
  }

  lemma {:induction false} FindLastUnregister(cs: seq<Command>, i: int) returns (u: nat)
    requires exists j :: 0 <= j < |cs| && Unregisters(cs[j], i)
    ensures LastUnregister(cs, i, u)
  {
    u := |cs| - 1;
    while !Unregisters(cs[u], i)
      invariant u < |cs| && forall j :: u < j < |cs| ==> !Unregisters(cs[j], i)
      decreases u
    {
      u := u - 1;
    }
  }

  lemma {:induction false} FindFirstRegister(cs: seq<Command>, i: int, u: nat) returns (r: nat)
    requires exists j :: u < j < |cs| && Registers(cs[j], i)
    ensures FirstRegister(cs, i, u, r)
  {
    r := u + 1;
    while !Registers(cs[r], i)
      invariant u < r < |cs| && forall j :: u < j < r ==> !Registers(cs[j], i)
      decreases |cs| - r
    {
      r := r + 1;
    }
  }

  /** The write half of a slot gets an attachment other than the present one exactly when the read callback ran, its
      script unregisters the descriptor, and the first registration behind the last such command brings another
      attachment. The write callback is entered with that attachment all the same. */
  lemma WriteAttachment(w: World, i: int, slaveR: set<int>, slaveW: set<int>, scripts: Scripts)
    requires !InvalidFd(i) && i in w.table
    ensures var v, cs := VisitRead(w, i, slaveR, scripts), scripts(w.calls);
            i in v.table && v.table[i].data != w.table[i].data
            <==> && i in slaveR && w.table[i].interest.read && w.table[i].handler.onRead
                 && exists u: nat, r: nat ::
                      LastUnregister(cs, i, u) && FirstRegister(cs, i, u, r) && cs[r].data != w.table[i].data
    ensures var v := VisitRead(w, i, slaveR, scripts);
            !w.failed && !v.failed && i in v.table && i in slaveW && v.table[i].interest.write
            && v.table[i].handler.onWrite ==>
              Visit(w, i, slaveR, slaveW, scripts) == Call(v, WriteCall, i, w.table[i].data, scripts)
  {
    var v, cs := VisitRead(w, i, slaveR, scripts), scripts(w.calls);
    if i in slaveR && w.table[i].interest.read && w.table[i].handler.onRead {
      ScriptAttachment(w.(trace := w.trace + [Called(ReadCall, i, w.table[i].data)], calls := w.calls + 1), cs, i);
      if i in v.table && v.table[i].data != w.table[i].data {
        var u := FindLastUnregister(cs, i);
        var r := FindFirstRegister(cs, i, u);
      }
    }
  }

  /** The close callbacks of the items from position i on. */
  function CloseAll(s: seq<Item>, i: nat): seq<Entry>
    decreases |s| - i
  {
    if i >= |s| then []
    else
      var close := if s[i].fd != FD_UNUSED && s[i].handler.onClose then [CloseCalled(s[i].fd, s[i].data)] else [];
      close + CloseAll(s, i + 1)
  }

  /** Every registered descriptor with a close callback is closed, with its own attachment, exactly once. */
  lemma {:induction false} ClosesEachOnce(s: seq<Item>, i: nat)
    requires WellPlaced(s)
    ensures forall fd, data :: CloseCalled(fd, data) in CloseAll(s, i) <==>
              i <= fd && InUse(s, fd) && s[fd].handler.onClose && s[fd].data == data
    ensures forall j, k :: 0 <= j < k < |CloseAll(s, i)| ==> CloseAll(s, i)[j] != CloseAll(s, i)[k]
    decreases |s| - i
  {
    if i < |s| {
      ClosesEachOnce(s, i + 1);
      var rest := CloseAll(s, i + 1);
      if s[i].fd != FD_UNUSED && s[i].handler.onClose {
        var e := CloseCalled(s[i].fd, s[i].data);
        assert CloseAll(s, i) == [e] + rest;
        assert e !in rest;
      } else {
        assert CloseAll(s, i) == rest;
      }
    }
  }

  // ----- The jump table as a sequence of items

  predicate InUse(s: seq<Item>, i: int) {
    0 <= i < |s| && s[i].fd != FD_UNUSED
  }

  /** A used slot holds its own index, and only descriptors the platform can select are used. */
  ghost predicate WellPlaced(s: seq<Item>) {
    forall i :: 0 <= i < |s| ==> s[i] == UNUSED || (s[i].fd == i && i < FD_SETSIZE)
  }

  ghost function TableOf(s: seq<Item>): Table {
    map i | 0 <= i < |s| && InUse(s, i) :: s[i]
  }

  ghost function ReadSet(s: seq<Item>): set<int> {
    set i | 0 <= i < |s| && InUse(s, i) && s[i].interest.read
  }

  ghost function WriteSet(s: seq<Item>): set<int> {
    set i | 0 <= i < |s| && InUse(s, i) && s[i].interest.write
  }

  /** The greatest descriptor in use, or 0. */
  ghost predicate IsMaxFd(s: seq<Item>, max: int) {
    && 0 <= max
    && (max == 0 || InUse(s, max))
    && forall i :: InUse(s, i) ==> i <= max
  }

  /** The items from position i on. */
  ghost function RestOf(s: seq<Item>, i: nat): Table {
    map j | i <= j < |s| && InUse(s, j) :: s[j]
  }

  lemma EmptyTable(s: seq<Item>, max: int)
    requires TableOf(s) == map[] && IsMaxFd(s, max)
    ensures ReadSet(s) == {} && WriteSet(s) == {} && max == 0
  {
    assert forall i :: InUse(s, i) ==> i in TableOf(s);
  }

  lemma MaxIsSmall(s: seq<Item>, n: int)
    requires WellPlaced(s) && |s| > FD_SETSIZE
    ensures IsMaxFd(s, n) ==> n < FD_SETSIZE
  {
  }

  lemma SetItem(s: seq<Item>, fd: int, item: Item)
    requires WellPlaced(s) && 0 <= fd < |s| && fd < FD_SETSIZE && item.fd == fd
    ensures WellPlaced(s[fd := item]) && TableOf(s[fd := item]) == TableOf(s)[fd := item]
    ensures ReadSet(s[fd := item]) == ReadSet(s) - {fd} + (if item.interest.read then {fd} else {})
    ensures WriteSet(s[fd := item]) == WriteSet(s) - {fd} + (if item.interest.write then {fd} else {})
    ensures forall m :: IsMaxFd(s, m) ==> IsMaxFd(s[fd := item], if fd > m then fd else m)
  {
    var t := s[fd := item];
    assert forall i :: i != fd ==> (InUse(t, i) <==> InUse(s, i));
    assert InUse(t, fd);
  }

  lemma ClearItem(s: seq<Item>, fd: int)
    requires WellPlaced(s) && InUse(s, fd)
    ensures WellPlaced(s[fd := UNUSED]) && TableOf(s[fd := UNUSED]) == TableOf(s) - {fd}
    ensures ReadSet(s[fd := UNUSED]) == ReadSet(s) - {fd} && WriteSet(s[fd := UNUSED]) == WriteSet(s) - {fd}
    ensures forall i :: InUse(s[fd := UNUSED], i) ==> InUse(s, i)
  {
    var t := s[fd := UNUSED];
    assert forall i :: i != fd ==> (InUse(t, i) <==> InUse(s, i));
    assert !InUse(t, fd);
  }

  lemma GrowItems(s: seq<Item>, t: seq<Item>)
    requires WellPlaced(s) && s <= t && forall j :: |s| <= j < |t| ==> t[j] == UNUSED
    ensures WellPlaced(t) && TableOf(t) == TableOf(s) && ReadSet(t) == ReadSet(s) && WriteSet(t) == WriteSet(s)
    ensures forall m :: IsMaxFd(s, m) ==> IsMaxFd(t, m)
  {
    assert forall i :: InUse(t, i) <==> InUse(s, i);
  }

  /** The sizes a table goes through: 2^k + 1, at least doubled each time, so 11 allocations at most. */
  ghost predicate Grown(size: nat, level: nat, allocations: nat) {
    if size == 0 then allocations == 0 else size == Pow2(level) + 1 && level <= 10 && allocations <= level + 1
  }

  lemma NextSize(size: nat, level: nat, allocations: nat, n: nat) returns (k: nat)
    requires Grown(size, level, allocations) && size <= n <= FD_SETSIZE
    ensures Grown(Capacity(n), k, allocations + 1) && Capacity(n) > size && allocations + 1 <= 11
    ensures size > 0 ==> Capacity(n) - 1 >= 2 * (size - 1)
  {
    k := CapacityIsLeast(n);
    if size > 0 {
      if k <= level {
        Pow2Monotone(k, level);
      }
      Pow2Monotone(level, k);
    }
  }

  class Selector {
    var fds: array<Item>
    var maxFd: int
    var masterR: set<int>
    var masterW: set<int>
    ghost var level: nat
    ghost var allocations: nat
    ghost var trace: seq<Entry> // of the current pass
    var calls: nat
    var failed: bool

    ghost predicate Valid()
      reads this, fds
    {
      && WellPlaced(fds[..]) && IsMaxFd(fds[..], maxFd)
      && masterR == ReadSet(fds[..]) && masterW == WriteSet(fds[..])
      && Grown(fds.Length, level, allocations)
    }

    /** The descriptors in use, each with its item. */
    ghost function View(): World
      reads this, fds
    {
      World(TableOf(fds[..]), trace, calls, failed)
    }

    ghost function Table(): Table
      reads this, fds
    {
      TableOf(fds[..])
    }

    /** The table that main.c starts with: no valid descriptor equals its size, and every one has a slot. */
    ghost predicate Roomy()
      reads this
    {
      fds.Length > FD_SETSIZE
    }

    /** Unregistering and changing interests do not check the size of the table. */
    predicate HasSlot(fd: int)
      reads this
    {
      InvalidFd(fd) || fd < fds.Length
    }

    /** selector_new, for an element count that the platform supports. */
    constructor (initial: nat)
      requires initial <= FD_SETSIZE
      ensures Valid() && fresh(fds) && View() == World(map[], [], 0, false)
      ensures fds.Length == Capacity(initial) && (initial >= 512 ==> Roomy())
    {
      fds := new Item[0];
      maxFd, masterR, masterW := 0, {}, {};
      level, allocations, trace, calls, failed := 0, 0, [], 0, false;
      new;
      var st := EnsureCapacity(initial);
      InitialSizesWithoutGap(initial);
    }

    /** ensure_capacity, with allocations that succeed: old items are kept and new ones unused. */
    method EnsureCapacity(n: nat) returns (st: Status)
      requires Valid()
      modifies this`fds, this`level, this`allocations
      ensures Valid() && View() == old(View()) && (fds == old(fds) || fresh(fds))
      ensures st == if n < old(fds.Length) || n <= FD_SETSIZE then Success else MaxFd
      ensures fds.Length == if n < old(fds.Length) || n > FD_SETSIZE then old(fds.Length) else Capacity(n)
      ensures fds.Length >= old(fds.Length) && (st == Success ==> n < fds.Length)
      ensures 0 < old(fds.Length) != fds.Length ==> fds.Length - 1 >= 2 * (old(fds.Length) - 1)
      ensures allocations == old(allocations) + (if fds == old(fds) then 0 else 1) <= 11
    {
      hide WellPlaced, TableOf, ReadSet, WriteSet, IsMaxFd, Capacity;
      if n < fds.Length {
        return Success;
      } else if n > FD_SETSIZE {
        return MaxFd;
      }
      var size := NextCapacity(n);
      ghost var k := NextSize(fds.Length, level, allocations, n);
      ghost var s := fds[..];
      var grown := new Item[size](_ => UNUSED);
      forall i | 0 <= i < fds.Length {
        grown[i] := fds[i];
      }
      assert fds[..] == s;
      GrowItems(s, grown[..]);
      fds, level, allocations := grown, k, allocations + 1;
      return Success;
    }

    /** items_max_fd: the greatest descriptor in use up to the old maximum, or 0. */
    method ItemsMaxFd() returns (max: int)
      requires 0 <= maxFd < fds.Length && WellPlaced(fds[..]) && forall i :: InUse(fds[..], i) ==> i <= maxFd
      ensures IsMaxFd(fds[..], max)
    {
      max := 0;
      for i := 0 to maxFd + 1
        invariant 0 <= max && (max == 0 || InUse(fds[..], max))
        invariant forall j :: InUse(fds[..], j) && j < i ==> j <= max
      {
        if fds[i].fd != FD_UNUSED {
          if fds[i].fd > max {
            max := fds[i].fd;
          }
        }
      }
    }

    /** items_update_fdset_for_fd */
    method UpdateFdSets(item: Item)
      modifies this`masterR, this`masterW
      ensures masterR == old(masterR) - {item.fd} + (if item.fd != FD_UNUSED && item.interest.read then {item.fd}
              else {})
      ensures masterW == old(masterW) - {item.fd} + (if item.fd != FD_UNUSED && item.interest.write then {item.fd}
              else {})
    {
      masterR, masterW := masterR - {item.fd}, masterW - {item.fd};
      if item.fd != FD_UNUSED {
        if item.interest.read {
          masterR := masterR + {item.fd};
        }
        if item.interest.write {
          masterW := masterW + {item.fd};
        }
      }
    }

    /** selector_register; the table must not be exactly as large as the descriptor (see RegisterStaysInTable). */
    method Register(fd: int, handler: Option<Handler>, interest: Interest, data: int) returns (st: Status)
      requires Valid() && (InvalidFd(fd) || fd != fds.Length)
      modifies this, fds
      ensures Valid() && (fds == old(fds) || fresh(fds)) && fds.Length >= old(fds.Length)
      ensures var c := Command.Register(fd, handler, interest, data);
              st == StatusOf(old(Table()), c) && View() == old(View()).(table := TableAfter(old(Table()), c))
    {
      hide WellPlaced, ReadSet, WriteSet, IsMaxFd, Capacity, Grown;
      if InvalidFd(fd) || handler.None? {
        return IArgs;
      }
      if fd > fds.Length {
        st := EnsureCapacity(fd);
        if st != Success {
          return;
        }
      }
      if fds[fd].fd != FD_UNUSED {
        return FdInUse;
      }
      SetItem(fds[..], fd, Item(fd, interest, handler.value, data));
      ghost var s := fds[..];
      fds[fd] := Item(fd, interest, handler.value, data);
      assert fds[..] == s[fd := fds[fd]];
      if fd > maxFd {
        maxFd := fd;
      }
      UpdateFdSets(fds[fd]);
      return Success;
    }

    /** selector_set_interest and selector_set_interest_key */
    method SetInterest(fd: int, interest: Interest) returns (st: Status)
      requires Valid() && HasSlot(fd)
      modifies this`masterR, this`masterW, fds
      ensures Valid()
      ensures var c := Command.SetInterest(fd, interest);
              st == StatusOf(old(Table()), c) && View() == old(View()).(table := TableAfter(old(Table()), c))
    {
      hide ReadSet, WriteSet, Grown;
      if InvalidFd(fd) || fds[fd].fd == FD_UNUSED {
        return IArgs;
      }
      SetItem(fds[..], fd, fds[fd].(interest := interest));
      assert InUse(fds[..], fd);
      ghost var s := fds[..];
      fds[fd] := fds[fd].(interest := interest);
      assert fds[..] == s[fd := fds[fd]];
      UpdateFdSets(fds[fd]);
      return Success;
    }

    /** selector_unregister_fd; the close callback does not touch the selector. */
    method Unregister(fd: int) returns (st: Status)
      requires Valid() && HasSlot(fd)
      modifies this`masterR, this`masterW, this`maxFd, this`trace, fds
      ensures Valid()
      ensures var c := Command.Unregister(fd);
              && st == StatusOf(old(Table()), c)
              && View() == old(View()).(table := TableAfter(old(Table()), c),
                 trace := old(trace) + ClosingCalls(old(Table()), c))
    {
      hide ReadSet, WriteSet, Grown;
      if InvalidFd(fd) || fds[fd].fd == FD_UNUSED {
        return IArgs;
      }
      ghost var s := fds[..];
      assert InUse(s, fd) && TableOf(s)[fd] == fds[fd];
      ClearItem(s, fd);
      if fds[fd].handler.onClose {
        trace := trace + [CloseCalled(fds[fd].fd, fds[fd].data)];
      }
      fds[fd] := fds[fd].(interest := OP_NOOP);
      UpdateFdSets(fds[fd]);
      fds[fd] := UNUSED;
      assert fds[..] == s[fd := UNUSED];
      assert forall i :: InUse(fds[..], i) ==> InUse(s, i);
      maxFd := ItemsMaxFd();
      return Success;
    }

    // ----- The dispatch loop

    /** One table operation of a callback, and its result in the trace. */
    method Execute(c: Command)
      requires Valid() && Roomy()
      modifies this, fds
      ensures Valid() && Roomy() && (fds == old(fds) || fresh(fds))
      ensures View() == Perform(old(View()), c)
    {
      hide WellPlaced, ReadSet, WriteSet, IsMaxFd, Grown, TableOf, TableAfter, StatusOf;
      assert trace + [] == trace;
      var st: Status;
      match c {
        case Register(fd, handler, interest, data) => st := Register(fd, handler, interest, data);
        case Unregister(fd) => st := Unregister(fd);
        case SetInterest(fd, interest) => st := SetInterest(fd, interest);
      }
      trace := trace + [Did(c, st)];
    }

    /** A callback: it is entered in the trace, and then does whatever its script says. */
    method CallBack(kind: Kind, fd: int, data: int, scripts: Scripts)
      requires Valid() && Roomy()
      modifies this, fds
      ensures Valid() && Roomy() && (fds == old(fds) || fresh(fds))
      ensures View() == Call(old(View()), kind, fd, data, scripts)
    {
      hide WellPlaced, ReadSet, WriteSet, IsMaxFd, Grown, TableOf, Perform;
      var script := scripts(calls);
      ghost var w := View();
      trace, calls := trace + [Called(kind, fd, data)], calls + 1;
      ghost var w1 := View();
      for k := 0 to |script|
        invariant Valid() && Roomy() && (fds == old(fds) || fresh(fds))
        invariant PerformAll(w1, script) == PerformAll(View(), script[k..])
      {
        Execute(script[k]);
        assert script[k..][1..] == script[k + 1..];
      }
    }

    /** The body of the loop of handle_iteration. */
    method VisitSlot(i: int, slaveR: set<int>, slaveW: set<int>, scripts: Scripts)
      requires Valid() && Roomy() && 0 <= i < fds.Length
      modifies this, fds
      ensures Valid() && Roomy() && (fds == old(fds) || fresh(fds))
      ensures View() == Visit(old(View()), i, slaveR, slaveW, scripts)
    {
      hide Grown, ReadSet, WriteSet, IsMaxFd, Call;
      if !failed && fds[i].fd != FD_UNUSED {
        assert InUse(fds[..], i);
        var data := fds[i].data;
        VisitReading(i, slaveR, scripts);
        VisitWriting(i, data, slaveW, scripts);
      }
    }

    method VisitReading(i: int, slaveR: set<int>, scripts: Scripts)
      requires Valid() && Roomy() && InUse(fds[..], i)
      modifies this, fds
      ensures Valid() && Roomy() && (fds == old(fds) || fresh(fds))
      ensures View() == VisitRead(old(View()), i, slaveR, scripts)
    {
      hide Grown, ReadSet, WriteSet, IsMaxFd, Call;
      if i in slaveR {
        if fds[i].interest.read {
          if fds[i].handler.onRead {
            CallBack(ReadCall, i, fds[i].data, scripts);
          } else {
            trace, failed := trace + [MissingCallback(ReadCall, i)], true;
          }
        }
      }
    }

    method VisitWriting(i: int, data: int, slaveW: set<int>, scripts: Scripts)
      requires Valid() && Roomy() && 0 <= i < FD_SETSIZE
      modifies this, fds
      ensures Valid() && Roomy() && (fds == old(fds) || fresh(fds))
      ensures View() == VisitWrite(old(View()), i, data, slaveW, scripts)
    {
      hide Grown, ReadSet, WriteSet, IsMaxFd, Call;
      assert i in TableOf(fds[..]) <==> InUse(fds[..], i);
      if !failed && i in slaveW {
        if fds[i].interest.write {
          if fds[i].handler.onWrite {
            CallBack(WriteCall, i, data, scripts);
          } else {
            trace, failed := trace + [MissingCallback(WriteCall, i)], true;
          }
        }
      }
    }

    /** handle_iteration over the descriptors that select reported. */
    method HandleIteration(slaveR: set<int>, slaveW: set<int>, scripts: Scripts)
      requires Valid() && Roomy()
      modifies this, fds
      ensures Valid() && Roomy()
      ensures View() == Pass(old(View()).(trace := []), 0, old(maxFd), slaveR, slaveW, scripts)
    {
      hide Grown, ReadSet, WriteSet, Visit;
      var n := maxFd;
      trace := [];
      ghost var w := View();
      MaxIsSmall(fds[..], n);
      for i := 0 to n + 1
        invariant Valid() && Roomy() && (fds == old(fds) || fresh(fds))
        invariant Pass(w, 0, n, slaveR, slaveW, scripts) == Pass(View(), i, n, slaveR, slaveW, scripts)
      {
        VisitSlot(i, slaveR, slaveW, scripts);
      }
    }

    /** selector_destroy: every registered descriptor is unregistered, once and in order. */
    method Destroy()
      requires Valid()
      modifies this`masterR, this`masterW, this`maxFd, this`trace, fds
      ensures Valid() && Table() == map[] && masterR == {} && masterW == {} && maxFd == 0
      ensures trace == old(trace) + CloseAll(old(fds[..]), 0)
    {
      hide Grown, ReadSet, WriteSet, IsMaxFd;
      ghost var s := fds[..];
      assert Table() == RestOf(s, 0);
      for i := 0 to fds.Length
        invariant Valid() && |s| == fds.Length && Table() == RestOf(s, i)
        invariant trace + CloseAll(s, i) == old(trace) + CloseAll(s, 0)
      {
        assert InUse(fds[..], i) <==> i in Table();
        assert InUse(s, i) <==> i in RestOf(s, i);
        assert RestOf(s, i) - {i} == RestOf(s, i + 1);
        if fds[i].fd != FD_UNUSED {
          assert Table()[i] == fds[i] == s[i];
          var st := Unregister(i);
        } else {
          assert RestOf(s, i) - {i} == RestOf(s, i);
        }
      }
      EmptyTable(fds[..], maxFd);
    }
  }
}
