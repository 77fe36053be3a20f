/** logger.c: log messages queue in one growing buffer until the log file takes them. */
module Logger {
  import opened CStrings

  const MIN_CAPACITY := 0x1000
  const MAX_CAPACITY := 0x400000
  const GRANULARITY := 0x1000
  const MAX_PRINT := 0x200

  /** The next multiple of the granularity, capped. */
  function NewCapacity(n: nat): nat {
    var c := (n + GRANULARITY - 1) / GRANULARITY * GRANULARITY;
    if c > MAX_CAPACITY then MAX_CAPACITY else c
  }

  /** The new capacity is the least multiple of 4 KB that is enough, but never more than 4 MB. */
  lemma NewCapacityIsLeast(n: nat, c: nat)
    requires c % 0x1000 == 0 && c >= n
    ensures NewCapacity(n) % 0x1000 == 0 && NewCapacity(n) <= 0x400000
    ensures n <= 0x400000 ==> n <= NewCapacity(n)
    ensures NewCapacity(n) <= c
  {
  }

  /** Print hands over a message; `mallocOk` and `written` are what malloc and write yield. */
  datatype Job = Print(message: string, mallocOk: bool, written: int) | Flush(written: int)
  {
    function Text(): string {
      if Print? then message else ""
    }
  }

  lemma SplitPending(file: string, s: string, n: nat)
    requires n <= |s|
    ensures file + s[..n] + s[n..] == file + s
  {
    assert s == s[..n] + s[n..];
  }

  lemma Slice(s: string, i: nat, n: nat, k: nat)
    requires k <= n && i + n <= |s|
    ensures s[i..i + n][..k] == s[i..i + k] && s[i..i + n][k..] == s[i + k..i + n]
  {
  }

  class Log {
    var buffer: array<char>
    var start: nat
    var length: nat
    var wantsWrite: bool // OP_WRITE on the log file's descriptor
    ghost var file: string

    ghost predicate Valid()
      reads this, buffer
    {
      && start + length <= buffer.Length
      && MIN_CAPACITY <= buffer.Length <= MAX_CAPACITY && buffer.Length % GRANULARITY == 0
      && start < buffer.Length
    }

    /** The bytes that the file has not taken yet. */
    ghost function Pending(): string
      requires Valid()
      reads this, buffer
    {
      buffer[start..start + length]
    }

    /** Everything that was accepted so far. */
    ghost function Accepted(): string
      requires Valid()
      reads this, buffer
    {
      file + Pending()
    }

    function Free(): int
      reads this
    {
      buffer.Length - length - start
    }

    /** The free bytes that make_buffer_space leaves. */
    function Room(len: nat, mallocOk: bool): int
      reads this
    {
      if Free() >= len then Free()
      else if buffer.Length <= len then buffer.Length - length
      else if buffer.Length < MAX_CAPACITY then (if mallocOk then NewCapacity(length + len) else buffer.Length) - length
      else Free()
    }

    /** The two situations in which a print finds no free byte: a full buffer that cannot grow or is not moved. */
    predicate Exhausted(mallocOk: bool)
      reads this
    {
      if buffer.Length == MAX_CAPACITY then start + length == MAX_CAPACITY else !mallocOk && length == buffer.Length
    }

    /** logger_init with a log file */
    constructor ()
      ensures Valid() && fresh(buffer) && Accepted() == "" && buffer.Length == 0x1000
    {
      buffer := new char[MIN_CAPACITY](_ => '\0');
      start, length, wantsWrite, file := 0, 0, false, "";
    }

    /** make_buffer_space */
    method MakeBufferSpace(len: nat, mallocOk: bool)
      requires Valid() && len > 0
      modifies this`buffer, this`start, buffer
      ensures Valid() && Pending() == old(Pending()) && (buffer == old(buffer) || fresh(buffer))
      ensures Free() == old(Room(len, mallocOk)) && start <= old(start)
      ensures mallocOk && len < old(buffer.Length) < MAX_CAPACITY && length + len <= MAX_CAPACITY ==> Free() >= len
    {
      if length + start + len > buffer.Length {
        if buffer.Length <= len {
          Compact();
        } else if buffer.Length < MAX_CAPACITY {
          if !mallocOk {
            Compact();
          } else {
            ghost var pending := Pending();
            var newBuffer := new char[NewCapacity(length + len)](_ => '\0');
            forall i | 0 <= i < length {
              newBuffer[i] := buffer[start + i];
            }
            assert newBuffer[..length] == pending;
            buffer := newBuffer;
            start := 0;
          }
        }
      }
    }

    /** memmove to the start of the buffer */
    method Compact()
      requires Valid()
      modifies this`start, buffer
      ensures Valid() && start == 0 && Pending() == old(Pending())
    {
      ghost var pending := Pending();
      forall i | 0 <= i < length {
        buffer[i] := buffer[start + i];
      }
      start := 0;
      assert buffer[..length] == pending;
    }

    /** try_flush_buffer_to_file, with what write returns */
    method TryFlush(written: int)
      requires Valid() && written <= length
      modifies this`start, this`length, this`wantsWrite, this`file
      ensures Valid() && Accepted() == old(Accepted())
      ensures length == old(length) - (if written > 0 then written else 0)
      ensures (wantsWrite <==> length > 0) && start + length <= old(start + length)
    {
      if written > 0 {
        ghost var s := Pending();
        SplitPending(file, s, written);
        Slice(buffer[..], start, length, written);
        assert s[..written] == buffer[start..start + written]
               && s[written..] == buffer[start + written..start + length];
        file := file + buffer[start..start + written];
        length := length - written;
        start := if length == 0 then 0 else start + written;
      }
      wantsWrite := length > 0;
    }

    /** logf: pre_print, snprintf into the free space, post_print; write takes at most `most` bytes. What fits is
        accepted, and conserved exactly when the log was not exhausted; without a free byte the last pending byte is
        lost. */
    method LogF(message: string, mallocOk: bool, most: int) returns (accepted: string)
      requires Valid()
      modifies this, buffer
      ensures Valid() && (buffer == old(buffer) || fresh(buffer)) && (wantsWrite <==> length > 0)
      ensures var room := old(Room(MAX_PRINT, mallocOk));
              accepted == if room == 0 then "" else message[..if |message| < room then |message| else room - 1]
      ensures Accepted() == old(Accepted()) + accepted <==> !old(Exhausted(mallocOk))
      ensures old(Exhausted(mallocOk)) ==> accepted == "" && |Accepted()| == old(|Accepted()|) - 1
      ensures start + length <= old(start + length) + |accepted|
    {
      ghost var all := Accepted();
      MakeBufferSpace(MAX_PRINT, mallocOk);
      var maxLen := buffer.Length - length - start;
      if maxLen > 0 {
        accepted := message[..if |message| >= maxLen then maxLen - 1 else |message|];
        Append(accepted);
      } else {
        accepted := "";
        LoseByte();
      }
      TryFlush(if most <= length then most else length);
    }

    /** With no free byte, post_print computes a length of -1 for the text. */
    method LoseByte()
      requires Valid() && Free() == 0
      modifies this`length
      ensures Valid() && length == old(length) - 1 && |Accepted()| == old(|Accepted()|) - 1
    {
      length := length - 1;
    }

    /** The characters and the NUL that snprintf stores, then buffer_length += written. */
    method Append(s: string)
      requires Valid() && |s| < Free()
      modifies this`length, buffer
      ensures Valid() && Pending() == old(Pending()) + s && length == old(length) + |s|
    {
      var end := start + length;
      ghost var before := Pending();
      forall i | 0 <= i < |s| {
        buffer[end + i] := s[i];
      }
      buffer[end + |s|] := '\0';
      length := length + |s|;
      assert buffer[start..end] == before && buffer[end..end + |s|] == s;
      assert buffer[start..end + |s|] == buffer[start..end] + buffer[end..end + |s|];
    }

    /** A whole run of prints and selector callbacks. Every print contributes a prefix of its message, and apart from
        the bytes that exhausted prints lose, the file and the pending bytes are these prefixes in order. While malloc
        succeeds, messages are short and the queue could hold all of them, every message is kept whole. */
    method Run(jobs: seq<Job>) returns (accepted: seq<string>, lost: nat)
      requires Valid()
      modifies this, buffer
      ensures Valid()
      ensures |accepted| == |jobs| && forall k :: 0 <= k < |jobs| ==> accepted[k] <= jobs[k].Text()
      ensures |Accepted()| + lost == |old(Accepted())| + |Concat(accepted)|
      ensures Accepted() == old(Accepted()) + Concat(accepted) <==> lost == 0
      ensures Modest(jobs) && old(start + length) + |Concat(Texts(jobs))| + 512 <= 0x400000 ==>
                lost == 0 && accepted == Texts(jobs)
    {
      hide Accepted, Pending, Concat, Texts;
      accepted, lost := [], 0;
      ghost var modest := Modest(jobs) && start + length + |Concat(Texts(jobs))| + MAX_PRINT <= MAX_CAPACITY;
      NothingAccepted(Accepted());
      for k := 0 to |jobs|
        invariant Valid() && (buffer == old(buffer) || fresh(buffer))
        invariant |accepted| == k && forall j :: 0 <= j < k ==> accepted[j] <= jobs[j].Text()
        invariant |Accepted()| + lost == |old(Accepted())| + |Concat(accepted)|
        invariant lost == 0 ==> Accepted() == old(Accepted()) + Concat(accepted)
        invariant modest ==> lost == 0 && accepted == Texts(jobs[..k])
        invariant modest ==> start + length <= old(start + length) + |Concat(accepted)|
      {
        TextsStep(jobs, k);
        assert jobs[k] in jobs;
        var text, bytes := Handle(jobs[k]);
        ConcatSnoc(accepted, text);
        assert old(Accepted()) + Concat(accepted) + text == old(Accepted()) + (Concat(accepted) + text);
        accepted, lost := accepted + [text], lost + bytes;
      }
      assert jobs[..|jobs|] == jobs;
    }

    /** One job: a prefix of its message is added, and an exhausted print loses a byte. */
    method Handle(job: Job) returns (text: string, lost: nat)
      requires Valid()
      modifies this, buffer
      ensures Valid() && (buffer == old(buffer) || fresh(buffer))
      ensures text <= job.Text() && |Accepted()| + lost == |old(Accepted())| + |text|
      ensures lost == 0 ==> Accepted() == old(Accepted()) + text
      ensures start + length <= old(start + length) + |text|
      ensures (job.Print? ==> job.mallocOk && |job.message| < MAX_PRINT)
              && old(start + length) + MAX_PRINT <= MAX_CAPACITY ==>
                lost == 0 && text == job.Text()
    {
      hide Accepted, Pending;
      match job {
        case Print(message, mallocOk, written) =>
          lost := if Exhausted(mallocOk) then 1 else 0;
          text := LogF(message, mallocOk, written);
        case Flush(written) =>
          text, lost := "", 0;
          TryFlush(if written <= length then written else length);
          assert Accepted() + "" == Accepted();
      }
    }
  }

  /** What each job would add if nothing were cut off. */
  function Texts(jobs: seq<Job>): seq<string> {
    seq(|jobs|, i requires 0 <= i < |jobs| => jobs[i].Text())
  }

  /** malloc always succeeds, and every message is shorter than the space that a print asks for. */
  predicate Modest(jobs: seq<Job>) {
    forall j :: j in jobs && j.Print? ==> j.mallocOk && |j.message| < 512
  }

  lemma NothingAccepted(s: string)
    ensures Concat([]) == "" && s + "" == s && Texts([]) == []
  {
  }

  lemma TextsStep(jobs: seq<Job>, k: nat)
    requires k < |jobs|
    ensures Texts(jobs[..k + 1]) == Texts(jobs[..k]) + [jobs[k].Text()]
    ensures |Concat(Texts(jobs[..k]))| + |jobs[k].Text()| <= |Concat(Texts(jobs))|
  {
    var done, next := Texts(jobs[..k]), Texts(jobs[..k + 1]);
    assert next == done + [jobs[k].Text()];
    ConcatSnoc(done, jobs[k].Text());
    assert Texts(jobs) == next + Texts(jobs[k + 1..]);
    ConcatSplit(next, Texts(jobs[k + 1..]));
  }
}
