/** buffer.c: a byte buffer with direct access, a read pointer and a write pointer. */
module Buffers {
  import opened CStrings

  /** One operation of a client of the buffer. */
  datatype Op = Store(bytes: string) | Consume(count: nat) | ReadByte | WriteByte(c: char) | Compact | Reset

  /** What a buffer of a given capacity stands for: the pending bytes, and how far they lie from the start. */
  datatype Queue = Queue(pending: string, offset: nat)
  {
    /** An empty queue lies at the start, so it offers the whole capacity. */
    predicate Fits(capacity: nat) {
      offset + |pending| <= capacity && (pending == "" ==> offset == 0)
    }

    function Space(capacity: nat): int {
      capacity - offset - |pending|
    }

    /** The queue without its first n bytes. */
    function Without(n: nat): Queue
      requires n <= |pending|
    {
      if n == |pending| then Queue("", 0) else Queue(pending[n..], offset + n)
    }
  }

  /** One operation on the queue, skipped when its caller's obligation fails: the queue after it, the bytes that left
      it, read or discarded by a reset, and the bytes that were stored. */
  function Apply(q: Queue, capacity: nat, op: Op): (Queue, string, string)
    requires q.Fits(capacity)
  {
    match op
    case Store(s) => if |s| <= q.Space(capacity) then (q.(pending := q.pending + s), "", s) else (q, "", "")
    case Consume(n) => if n <= |q.pending| then (q.Without(n), q.pending[..n], "") else (q, "", "")
    case ReadByte => if q.pending != "" then (q.Without(1), q.pending[..1], "") else (q, "", "")
    case WriteByte(c) => if q.Space(capacity) > 0 then (q.(pending := q.pending + [c]), "", [c]) else (q, "", "")
    case Compact => (q.(offset := 0), "", "")
    case Reset => (Queue("", 0), q.pending, "")
  }

  function ApplyAll(q: Queue, capacity: nat, ops: seq<Op>): (r: (Queue, string, string))
    requires q.Fits(capacity)
    ensures r.0.Fits(capacity)
  {
    if ops == [] then (q, "", "")
    else
      var (before, left, accepted) := ApplyAll(q, capacity, ops[..|ops| - 1]);
      var (after, l, a) := Apply(before, capacity, ops[|ops| - 1]);
      (after, left + l, accepted + a)
  }

  /** First in, first out, over a whole run: what left and what is pending is what was pending and what was stored. */
  lemma {:induction false} FirstInFirstOut(q: Queue, capacity: nat, ops: seq<Op>)
    requires q.Fits(capacity)
    ensures var (after, left, accepted) := ApplyAll(q, capacity, ops);
            && left + after.pending == q.pending + accepted
            && (after.pending == "" ==> after.Space(capacity) == capacity)
  {
    hide Apply;
    if ops != [] {
      var (before, left, accepted) := ApplyAll(q, capacity, ops[..|ops| - 1]);
      FirstInFirstOut(q, capacity, ops[..|ops| - 1]);
      var (after, l, a) := Apply(before, capacity, ops[|ops| - 1]);
      Conserves(before, capacity, ops[|ops| - 1]);
      Shift(left, l, after.pending, before.pending, a, q.pending, accepted);
    }
  }

  /** What each operation takes in and hands out: a store or a byte that has room goes in whole, and readers get the
      oldest bytes they ask for. */
  lemma OperationsDoTheirWork(q: Queue, capacity: nat, op: Op)
    requires q.Fits(capacity)
    ensures var (after, left, accepted) := Apply(q, capacity, op);
            && q.offset + |q.pending| + q.Space(capacity) == capacity
            && (op.Store? ==> left == "" && accepted == if q.offset + |q.pending| + |op.bytes| <= capacity
               then op.bytes else "")
            && (op.WriteByte? ==> left == "" && accepted == if q.offset + |q.pending| < capacity then [op.c] else "")
            && (op.Consume? ==> accepted == "" && left == if op.count <= |q.pending| then q.pending[..op.count] else "")
            && (op.ReadByte? ==> accepted == "" && left == if q.pending == "" then "" else [q.pending[0]])
            && (op.Compact? ==> after.pending == q.pending && after.Space(capacity) == capacity - |q.pending|)
            && (op.Reset? ==> after.pending == "" && left == q.pending && after.Space(capacity) == capacity)
  {
  }

  lemma Conserves(q: Queue, capacity: nat, op: Op)
    requires q.Fits(capacity)
    ensures var (after, left, accepted) := Apply(q, capacity, op); left + after.pending == q.pending + accepted
  {
  }

  lemma Shift(left: string, l: string, after: string, before: string, a: string, first: string, accepted: string)
    requires left + before == first + accepted && l + after == before + a
    ensures left + l + after == first + (accepted + a)
  {
    assert left + l + after == left + (l + after) == left + (before + a) == (left + before) + a;
    assert (first + accepted) + a == first + (accepted + a);
  }

  class Buffer {
    const data: array<char>
    var read: nat
    var write: nat

    /** R <= W <= limit */
    ghost predicate Ordered()
      reads this
    {
      read <= write <= data.Length
    }

    /** Between calls an empty buffer has both pointers at the start. */
    ghost predicate Valid()
      reads this
      ensures Valid() ==> Ordered()
    {
      Ordered() && (read == write ==> read == 0)
    }

    /** The bytes waiting to be read. */
    ghost function Contents(): (s: string)
      requires Ordered()
      reads this, data
      ensures |s| == write - read
    {
      data[read..write]
    }

    ghost function View(): (q: Queue)
      requires Valid()
      reads this, data
      ensures q.Fits(data.Length) && q.Space(data.Length) == Space()
    {
      Queue(Contents(), read)
    }

    constructor (n: nat)
      ensures Valid() && fresh(data) && data.Length == n
      ensures Contents() == ""
    {
      data := new char[n](_ => NUL);
      read, write := 0, 0;
    }

    method Reset()
      modifies this
      ensures Valid() && Contents() == "" && write == 0
    {
      read, write := 0, 0;
    }

    predicate CanWrite()
      reads this
    {
      write < data.Length
    }

    predicate CanRead()
      reads this
    {
      read < write
    }

    /** The size reported by buffer_write_ptr. An empty buffer offers its whole capacity. */
    function Space(): (n: nat)
      requires Valid()
      reads this
      ensures !CanRead() ==> n == data.Length
    {
      data.Length - write
    }

    /** Tells that `bytes` bytes were stored at the write pointer; an error code of -1 is ignored. */
    method WriteAdv(bytes: int)
      requires Valid()
      requires bytes > -1 ==> write + bytes <= data.Length
      modifies this
      ensures Valid()
      ensures read == old(read) && write == old(write) + (if bytes > -1 then bytes else 0)
      ensures Contents() == old(Contents()) + data[old(write)..write]
    {
      if bytes > -1 {
        write := write + bytes;
      }
    }

    /** Tells that `bytes` bytes were taken at the read pointer; an error code of -1 is ignored. */
    method ReadAdv(bytes: int)
      requires Valid()
      requires bytes > -1 ==> read + bytes <= write
      modifies this, data
      ensures Valid()
      ensures Contents() == if bytes > -1 then old(Contents())[bytes..] else old(Contents())
      ensures View() == if bytes > -1 then old(View()).Without(bytes) else old(View())
    {
      if bytes > -1 {
        read := read + bytes;
        if read == write {
          Compact();
        }
      }
    }

    method Read() returns (c: char)
      requires Valid()
      modifies this, data
      ensures Valid() && View() == if old(CanRead()) then old(View()).Without(1) else old(View())
      ensures old(Contents()) == "" ==> c == NUL && Contents() == ""
      ensures old(Contents()) != "" ==> [c] + Contents() == old(Contents())
    {
      if CanRead() {
        c := data[read];
        ReadAdv(1);
      } else {
        c := NUL;
      }
    }

    method Write(c: char)
      requires Valid()
      modifies this, data
      ensures Valid() && read == old(read)
      ensures Contents() == if old(CanWrite()) then old(Contents()) + [c] else old(Contents())
    {
      if CanWrite() {
        data[write] := c;
        WriteAdv(1);
      }
    }

    /** Moves the pending bytes to the start; source and destination may overlap. */
    method Compact()
      requires Ordered()
      modifies this, data
      ensures Valid() && read == 0
      ensures old(read) == old(write) ==> data[..] == old(data[..])
      ensures Contents() == old(Contents())
    {
      if read == 0 {
        return;
      } else if read == write {
        read, write := 0, 0;
      } else {
        var n := write - read;
        for i := 0 to n
          invariant read == old(read) && write == old(write)
          invariant forall j :: 0 <= j < i ==> data[j] == old(data[read + j])
          invariant forall j :: i <= j < data.Length ==> data[j] == old(data[j])
        {
          data[i] := data[read + i];
        }
        read, write := 0, n;
      }
    }

    /** memcpy or recv into the write pointer, then buffer_write_adv. */
    method Store(s: string)
      requires Valid() && |s| <= Space()
      modifies this, data
      ensures Valid() && read == old(read) && Contents() == old(Contents()) + s
    {
      for i := 0 to |s|
        invariant read == old(read) && write == old(write)
        invariant data[..write] == old(data[..write])
        invariant data[write..write + i] == s[..i]
      {
        data[write + i] := s[i];
      }
      assert data[write..write + |s|] == s;
      assert data[read..write] == data[..write][read..] == old(Contents());
      WriteAdv(|s|);
    }

    /** The bytes that a direct reader takes, then buffer_read_adv. */
    method Take(n: nat) returns (s: string)
      requires Valid() && n <= |Contents()|
      modifies this, data
      ensures Valid() && s == old(Contents())[..n] && View() == old(View()).Without(n)
    {
      s := data[read..read + n];
      assert s == Contents()[..n];
      ReadAdv(n);
    }

    /** One operation on the buffer; its caller's obligation is checked first. */
    method Perform(op: Op) returns (left: string, accepted: string)
      requires Valid()
      modifies this, data
      ensures Valid()
      ensures (View(), left, accepted) == Apply(old(View()), data.Length, op)
    {
      left, accepted := "", "";
      match op {
        case Store(s) =>
          if |s| <= Space() {
            Store(s);
            accepted := s;
          }
        case Consume(n) =>
          if n <= write - read {
            left := Take(n);
          }
        case ReadByte =>
          if CanRead() {
            var c := Read();
            left := [c];
            assert left == old(Contents())[..1];
          }
        case WriteByte(c) =>
          if CanWrite() {
            Write(c);
            accepted := [c];
          }
        case Compact => Compact();
        case Reset =>
          left := data[read..write];
          Reset();
      }
    }

    /** A whole run of operations refines the queue, which is first in, first out. */
    method Run(ops: seq<Op>) returns (left: string, accepted: string)
      requires Valid()
      modifies this, data
      ensures Valid()
      ensures (View(), left, accepted) == ApplyAll(old(View()), data.Length, ops)
      ensures left + Contents() == old(Contents()) + accepted
    {
      left, accepted := "", "";
      for i := 0 to |ops|
        invariant Valid()
        invariant (View(), left, accepted) == ApplyAll(old(View()), data.Length, ops[..i])
      {
        assert ops[..i + 1][..i] == ops[..i];
        var l, a := Perform(ops[i]);
        left, accepted := left + l, accepted + a;
      }
      assert ops[..|ops|] == ops;
      FirstInFirstOut(old(View()), data.Length, ops);
    }
  }
}
