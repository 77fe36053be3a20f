/** access_registry.c: mails on the heap, threaded at once on a list in registration order and a list in time
    order, and the list of known users. */
module Registry {

  /** The decimal text of %ld. */
  function Decimal(n: int): (s: string)
    ensures s != ""
    decreases if n < 0 then 1 else 0, if n < 0 then -n else n
  {
    if n < 0 then "-" + Decimal(-n)
    else if n < 10 then [Digit(n)]
    else Decimal(n / 10) + [Digit(n % 10)]
  }

  function Digit(n: int): char
    requires 0 <= n < 10
  {
    (n + 48) as char
  }

  class Mail {
    const from: string
    const to: string
    const path: string
    const time: int
    ghost const serial: nat // the number of mails registered before
    var nextByName: Mail?
    var nextByTime: Mail?

    constructor (from: string, to: string, path: string, time: int, ghost serial: nat)
      ensures this.from == from && this.to == to && this.path == path && this.time == time && this.serial == serial
      ensures nextByName == null && nextByTime == null
    {
      this.from, this.to, this.path, this.time, this.serial := from, to, path, time, serial;
      nextByName, nextByTime := null, null;
    }

    /** The text that snprintf renders for this mail. */
    function Rendered(): (s: string)
      ensures s != ""
    {
      "From: " + from + "\nTo: " + to + "\nPath: " + path + "\nTime: " + Decimal(time) + "\n\n"
    }
  }

  class User {
    const user: string
    const next: User?

    constructor (user: string, next: User?)
      ensures this.user == user && this.next == next
    {
      this.user, this.next := user, next;
    }
  }

  /** Earlier time first; among equal times the mail registered last comes first. */
  ghost predicate Sooner(m: Mail, n: Mail) {
    m.time < n.time || (m.time == n.time && m.serial > n.serial)
  }

  ghost predicate Distinct(s: seq<Mail>) {
    forall i, j :: 0 <= i < j < |s| ==> s[i] != s[j]
  }

  /** The mail behind position i. */
  function Succ(s: seq<Mail>, i: nat): Mail? {
    if i + 1 < |s| then s[i + 1] else null
  }

  /** The mails of a list in the order of the links of the registration list. */
  ghost predicate LinkedByName(s: seq<Mail>)
    reads s
  {
    forall i {:trigger s[i].nextByName} {:trigger Succ(s, i)} :: 0 <= i < |s| ==> s[i].nextByName == Succ(s, i)
  }

  ghost predicate LinkedByTime(s: seq<Mail>)
    reads s
  {
    forall i {:trigger s[i].nextByTime} {:trigger Succ(s, i)} :: 0 <= i < |s| ==> s[i].nextByTime == Succ(s, i)
  }

  ghost predicate InTimeOrder(s: seq<Mail>) {
    forall i, j :: 0 <= i < j < |s| ==> Sooner(s[i], s[j])
  }

  ghost predicate SameMails(s: seq<Mail>, t: seq<Mail>) {
    |s| == |t| && (forall m :: m in s ==> m in t) && (forall m :: m in t ==> m in s)
  }

  /** The users of the list that starts at u. */
  ghost predicate UserList(u: User?, names: seq<string>)
    decreases |names|
  {
    if u == null then names == []
    else names != [] && names[0] == u.user && UserList(u.next, names[1..])
  }

  function First(s: seq<Mail>): Mail? {
    if s == [] then null else s[0]
  }

  function Last(s: seq<Mail>): Mail? {
    if s == [] then null else s[|s| - 1]
  }

  /** The mails with start <= time <= end, in order. */
  function InRange(s: seq<Mail>, start: int, end: int): seq<Mail> {
    if s == [] then []
    else (if start <= s[0].time <= end then [s[0]] else []) + InRange(s[1..], start, end)
  }

  /** The mails sent by a user, in order. */
  function SentBy(s: seq<Mail>, user: string): seq<Mail> {
    if s == [] then []
    else (if s[0].from == user then [s[0]] else []) + SentBy(s[1..], user)
  }

  function Text(s: seq<Mail>): string {
    if s == [] then "" else Text(s[..|s| - 1]) + s[|s| - 1].Rendered()
  }

  lemma {:induction false} InRangeIsFilter(s: seq<Mail>, start: int, end: int)
    ensures forall m :: m in InRange(s, start, end) ==> m in s && start <= m.time <= end
    ensures forall m :: m in s && start <= m.time <= end ==> m in InRange(s, start, end)
  {
    if s != [] {
      InRangeIsFilter(s[1..], start, end);
      assert forall m :: m in s ==> m == s[0] || m in s[1..];
    }
  }

  lemma {:induction false} InRangeSplit(s: seq<Mail>, t: seq<Mail>, start: int, end: int)
    ensures InRange(s + t, start, end) == InRange(s, start, end) + InRange(t, start, end)
  {
    if s == [] {
      assert s + t == t;
    } else {
      InRangeSplit(s[1..], t, start, end);
      var head := if start <= s[0].time <= end then [s[0]] else [];
      assert (s + t)[1..] == s[1..] + t && (s + t)[0] == s[0];
      assert head + (InRange(s[1..], start, end) + InRange(t, start, end))
          == (head + InRange(s[1..], start, end)) + InRange(t, start, end);
    }
  }

  lemma {:induction false} NoneInRange(s: seq<Mail>, start: int, end: int)
    requires forall m :: m in s ==> m.time < start || m.time > end
    ensures InRange(s, start, end) == []
  {
    if s != [] {
      assert s[0] in s;
      NoneInRange(s[1..], start, end);
    }
  }

  lemma {:induction false} AllInRange(s: seq<Mail>, start: int, end: int)
    requires forall m :: m in s ==> start <= m.time <= end
    ensures InRange(s, start, end) == s
  {
    if s != [] {
      assert s[0] in s;
      AllInRange(s[1..], start, end);
    }
  }

  lemma {:induction false} SentBySnoc(s: seq<Mail>, m: Mail, user: string)
    ensures SentBy(s + [m], user) == SentBy(s, user) + (if m.from == user then [m] else [])
  {
    if s == [] {
      assert s + [m] == [m] && [m][1..] == [];
    } else {
      SentBySnoc(s[1..], m, user);
      assert (s + [m])[1..] == s[1..] + [m];
    }
  }

  lemma {:induction false} SentByPrefix(s: seq<Mail>, n: nat, user: string)
    requires n <= |s|
    ensures SentBy(s[..n], user) <= SentBy(s, user)
  {
    if n > 0 {
      SentByPrefix(s[1..], n - 1, user);
      assert s[..n][1..] == s[1..][..n - 1];
    }
  }

  /** A set of mails has only one time order. */
  lemma {:induction false} TimeOrderIsUnique(s: seq<Mail>, t: seq<Mail>)
    requires InTimeOrder(s) && InTimeOrder(t) && SameMails(s, t)
    ensures s == t
  {
    if s != [] {
      assert s[0] in t && t[0] in s;
      assert s[0] == t[0];
      assert SameMails(s[1..], t[1..]) by {
        forall m | m in s[1..] ensures m in t[1..] {
          assert m in s && m in t;
          assert Sooner(s[0], m);
        }
        forall m | m in t[1..] ensures m in s[1..] {
          assert m in t && m in s;
          assert Sooner(t[0], m);
        }
      }
      TimeOrderIsUnique(s[1..], t[1..]);
    }
  }

  // ----- One insertion, on the sequences of nodes

  /** Where the scan of register_mail stops: behind all earlier mails. */
  ghost predicate InsertionPoint(s: seq<Mail>, time: int, p: nat) {
    && p <= |s|
    && (forall j :: 0 <= j < p ==> s[j].time < time)
    && (p < |s| ==> s[p].time >= time)
  }

  lemma InsertKeepsOrder(s: seq<Mail>, p: nat, m: Mail)
    requires InTimeOrder(s) && InsertionPoint(s, m.time, p)
    requires forall n :: n in s ==> n.serial < m.serial
    ensures InTimeOrder(s[..p] + [m] + s[p..])
  {
    var t := s[..p] + [m] + s[p..];
    forall i, j | 0 <= i < j < |t| ensures Sooner(t[i], t[j]) {
      if i == p {
        assert t[j] == s[j - 1] && s[j - 1] in s;
        assert j - 1 == p || Sooner(s[p], s[j - 1]);
      } else if j == p {
        assert t[i] == s[i];
      }
    }
  }

  lemma CountWraps(n: nat)
    ensures (n % 0x1_0000_0000 + 1) % 0x1_0000_0000 == (n + 1) % 0x1_0000_0000
  {
  }

  lemma InsertKeepsMails(byName: seq<Mail>, byTime: seq<Mail>, p: nat, m: Mail)
    requires SameMails(byName, byTime) && p <= |byTime| && Distinct(byTime) && m !in byTime
    ensures SameMails(byName + [m], byTime[..p] + [m] + byTime[p..])
    ensures Distinct(byTime[..p] + [m] + byTime[p..])
  {
    var t := byTime[..p] + [m] + byTime[p..];
    assert forall n :: n in byTime ==> n in byTime[..p] || n in byTime[p..];
  }

  lemma SerialsAreSmall(byName: seq<Mail>, byTime: seq<Mail>)
    requires SameMails(byName, byTime) && forall k :: 0 <= k < |byName| ==> byName[k].serial == k
    ensures forall n :: n in byTime ==> n.serial < |byName|
  {
  }

  lemma MailsAgree(byName: seq<Mail>, byTime: seq<Mail>)
    requires SameMails(byName, byTime)
    ensures forall n :: n in byTime ==> n in byName
  {
  }

  function People(ms: seq<Mail>): set<string> {
    (set m | m in ms :: m.from) + (set m | m in ms :: m.to)
  }

  function NameSet(names: seq<string>): set<string> {
    set n | n in names
  }

  // ----- Reading a listing back

  function DigitValue(c: char): int {
    c as int - 48
  }

  /** What a decimal text means. */
  function ValueOf(s: string): int
    requires s != ""
  {
    if s[0] == '-' && |s| > 1 then -Unsigned(s[1..]) else Unsigned(s)
  }

  function Unsigned(s: string): int {
    if s == "" then 0 else 10 * Unsigned(s[..|s| - 1]) + DigitValue(s[|s| - 1])
  }

  lemma {:induction false} DecimalMeans(n: int)
    ensures ValueOf(Decimal(n)) == n && '\n' !in Decimal(n)
    ensures n >= 0 ==> Unsigned(Decimal(n)) == n && Decimal(n)[0] != '-'
    decreases if n < 0 then 1 else 0, if n < 0 then -n else n
  {
    if n < 0 {
      DecimalMeans(-n);
      assert Decimal(n)[1..] == Decimal(-n);
    } else if n < 10 {
      var s := Decimal(n);
      assert s[..|s| - 1] == "" && Unsigned("") == 0;
      assert Unsigned(s) == DigitValue(s[0]) == n && ValueOf(s) == Unsigned(s);
    } else {
      DecimalMeans(n / 10);
      var s := Decimal(n / 10);
      assert (s + [Digit(n % 10)])[..|s|] == s;
    }
  }

  /** The text up to the first LF, and what follows it. */
  function Line(s: string): (string, string) {
    if s == "" then ("", "")
    else if s[0] == '\n' then ("", s[1..])
    else
      var (line, rest) := Line(s[1..]);
      ([s[0]] + line, rest)
  }

  lemma {:induction false} LineOf(line: string, rest: string)
    requires '\n' !in line
    ensures Line(line + "\n" + rest) == (line, rest)
  {
    var s := line + "\n" + rest;
    if line == "" {
      assert s[1..] == rest;
    } else {
      LineOf(line[1..], rest);
      assert s[1..] == line[1..] + "\n" + rest && [line[0]] + line[1..] == line;
    }
  }

  /** The text behind a tag. */
  function Behind(tag: string, line: string): string {
    if tag <= line then line[|tag|..] else ""
  }

  /** One entry of a listing as its reader takes it apart: sender, recipient, path, time, and what follows. */
  function ReadEntry(s: string): (string, string, string, int, string) {
    var (a, s1) := Line(s);
    var (b, s2) := Line(s1);
    var (c, s3) := Line(s2);
    var (d, s4) := Line(s3);
    var (_, s5) := Line(s4);
    var time := Behind("Time: ", d);
    (Behind("From: ", a), Behind("To: ", b), Behind("Path: ", c), if time == "" then 0 else ValueOf(time), s5)
  }

  lemma BehindTag(tag: string, text: string)
    ensures Behind(tag, tag + text) == text
  {
  }

  /** A rendered mail without line feeds in its fields can be read back, whatever follows it. */
  lemma RenderedReadsBack(m: Mail, rest: string)
    requires '\n' !in m.from && '\n' !in m.to && '\n' !in m.path
    ensures ReadEntry(m.Rendered() + rest) == (m.from, m.to, m.path, m.time, rest)
  {
    hide Behind, ValueOf, Decimal, Line;
    var t := Decimal(m.time);
    DecimalMeans(m.time);
    var d := "Time: " + t;
    var r4 := "\n" + rest;
    var r3 := d + "\n" + r4;
    var c, b, a := "Path: " + m.path, "To: " + m.to, "From: " + m.from;
    var r2 := c + "\n" + r3;
    var r1 := b + "\n" + r2;
    assert m.Rendered() + rest == a + "\n" + r1;
    LineOf(a, r1);
    LineOf(b, r2);
    LineOf(c, r3);
    LineOf(d, r4);
    LineOf("", rest);
    assert "" + "\n" + rest == r4;
    BehindTag("From: ", m.from);
    BehindTag("To: ", m.to);
    BehindTag("Path: ", m.path);
    BehindTag("Time: ", t);
  }

  /** The entries of a listing. */
  function ReadListing(s: string, n: nat): seq<(string, string, string, int)>
    decreases n
  {
    if n == 0 then []
    else
      var (from, to, path, time, rest) := ReadEntry(s);
      [(from, to, path, time)] + ReadListing(rest, n - 1)
  }

  lemma TextSnoc(s: seq<Mail>, m: Mail)
    ensures Text(s + [m]) == Text(s) + m.Rendered()
  {
    assert (s + [m])[..|s|] == s;
  }

  lemma {:induction false} TextCons(m: Mail, s: seq<Mail>)
    ensures Text([m] + s) == m.Rendered() + Text(s)
    decreases |s|
  {
    hide Text, Mail.Rendered;
    if s == [] {
      assert [] + [m] == [m] + s;
      TextSnoc([], m);
      NoText();
      assert "" + m.Rendered() == m.Rendered() + "";
    } else {
      var front, last := s[..|s| - 1], s[|s| - 1];
      assert s == front + [last] && [m] + s == ([m] + front) + [last];
      TextCons(m, front);
      TextSnoc([m] + front, last);
      TextSnoc(front, last);
      assert m.Rendered() + Text(front) + last.Rendered() == m.Rendered() + (Text(front) + last.Rendered());
    }
  }

  lemma NoText()
    ensures Text([]) == ""
  {
  }

  /** A listing of mails without line feeds in their fields tells all of them, in order. */
  lemma {:induction false} ListingReadsBack(s: seq<Mail>)
    requires forall m :: m in s ==> '\n' !in m.from && '\n' !in m.to && '\n' !in m.path
    ensures ReadListing(Text(s), |s|) == seq(|s|, i requires 0 <= i < |s| => (s[i].from, s[i].to, s[i].path, s[i].time))
  {
    hide ReadEntry, Text;
    if s == [] {
      NoText();
    } else {
      assert s == [s[0]] + s[1..];
      TextCons(s[0], s[1..]);
      RenderedReadsBack(s[0], Text(s[1..]));
      ListingReadsBack(s[1..]);
    }
  }

  /** The mails of a user are those that the user sent, in the order of the list. */
  lemma {:induction false} SentByIsFilter(s: seq<Mail>, user: string)
    ensures forall m :: m in SentBy(s, user) <==> m in s && m.from == user
    ensures forall i, j :: 0 <= i < j < |s| && s[i].from == user && s[j].from == user && s[i] != s[j] ==>
              exists p, q :: 0 <= p < q < |SentBy(s, user)| && SentBy(s, user)[p] == s[i] && SentBy(s, user)[q] == s[j]
  {
    if s != [] {
      SentByIsFilter(s[1..], user);
      var t, head := SentBy(s[1..], user), if s[0].from == user then [s[0]] else [];
      assert SentBy(s, user) == head + t;
      forall i, j | 0 <= i < j < |s| && s[i].from == user && s[j].from == user && s[i] != s[j]
        ensures exists p, q :: 0 <= p < q < |head + t| && (head + t)[p] == s[i] && (head + t)[q] == s[j]
      {
        assert s[j] == s[1..][j - 1] && s[j] in t;
        if i == 0 {
          var q :| 0 <= q < |t| && t[q] == s[j];
          assert (head + t)[0] == s[i] && (head + t)[q + 1] == s[j];
        } else {
          assert s[1..][i - 1] == s[i];
          var p, q :| 0 <= p < q < |t| && t[p] == s[i] && t[q] == s[j];
          assert (head + t)[|head| + p] == s[i] && (head + t)[|head| + q] == s[j];
        }
      }
    }
  }

  /** Every sender and recipient once, and nobody else. */
  ghost predicate KnowsUsers(names: seq<string>, byName: seq<Mail>) {
    && (forall i, j :: 0 <= i < j < |names| ==> names[i] != names[j])
    && NameSet(names) == People(byName)
  }

  /** The effect of add_user. */
  function WithUser(names: seq<string>, user: string): (r: seq<string>)
    ensures NameSet(r) == NameSet(names) + {user}
    ensures user in names ==> r == names
    ensures user !in names ==> r == [user] + names
  {
    if user in names then names else [user] + names
  }

  lemma PeopleSnoc(ms: seq<Mail>, m: Mail)
    ensures People(ms + [m]) == People(ms) + {m.from, m.to}
  {
    assert forall n :: n in ms + [m] <==> n in ms || n == m;
    assert m in ms + [m];
  }

  lemma OneMoreMail(names: seq<string>, byName: seq<Mail>, m: Mail)
    requires KnowsUsers(names, byName)
    ensures KnowsUsers(WithUser(WithUser(names, m.from), m.to), byName + [m])
  {
    hide People, NameSet;
    PeopleSnoc(byName, m);
  }

  class MailRegistry {
    var mailsCount: nat
    var users: User?
    var firstByName: Mail?
    var lastByName: Mail?
    var firstByTime: Mail?
    var lastByTime: Mail? // set by the first registration only
    ghost var byName: seq<Mail>
    ghost var byTime: seq<Mail>
    ghost var names: seq<string>

    ghost predicate Valid()
      reads this, byName, byTime
    {
      Threaded() && UserList(users, names) && KnowsUsers(names, byName)
    }

    /** Both lists hold the same nodes: in registration order, and in time order. */
    ghost predicate Threaded()
      reads this, byName, byTime
    {
      && Distinct(byName) && Distinct(byTime) && SameMails(byName, byTime)
      && LinkedByName(byName) && firstByName == First(byName) && lastByName == Last(byName)
      && LinkedByTime(byTime) && firstByTime == First(byTime)
      && (forall k :: 0 <= k < |byName| ==> byName[k].serial == k)
      && InTimeOrder(byTime)
      && mailsCount == |byName| % 0x1_0000_0000
    }

    lemma SameNodes()
      requires Valid()
      ensures forall i :: 0 <= i < |byTime| ==> byTime[i] in byName
      ensures mailsCount == |byName| % 0x1_0000_0000
    {
    }

    /** init_access_registry, without the mock mails */
    constructor ()
      ensures Valid() && byName == []
    {
      mailsCount, users, firstByName, lastByName, firstByTime, lastByTime := 0, null, null, null, null, null;
      byName, byTime, names := [], [], [];
    }

    /** is_user_present and is_user */
    method IsUserPresent(user: string) returns (present: bool)
      requires UserList(users, names)
      ensures present <==> user in names
    {
      var current := users;
      ghost var k := 0;
      while current != null
        invariant k <= |names| && UserList(current, names[k..]) && user !in names[..k]
        decreases |names| - k
      {
        assert names[k..][0] == names[k] && names[k..][1..] == names[k + 1..];
        if current.user == user {
          return true;
        }
        assert names[..k + 1] == names[..k] + [names[k]];
        current := current.next;
        k := k + 1;
      }
      assert names[..k] == names;
      return false;
    }

    /** add_user */
    method AddUser(user: string)
      requires UserList(users, names)
      modifies this`users, this`names
      ensures UserList(users, names) && names == WithUser(old(names), user)
    {
      var present := IsUserPresent(user);
      if !present {
        users := new User(user, users);
        names := [user] + names;
      }
    }

    /** register_mail */
    method RegisterMail(from: string, to: string, path: string, time: int) returns (ghost m: Mail, ghost p: nat)
      requires Valid()
      modifies this, byName, byTime
      ensures Valid() && fresh(m)
      ensures m.from == from && m.to == to && m.path == path && m.time == time
      ensures byName == old(byName) + [m]
      ensures InsertionPoint(old(byTime), time, p) && byTime == old(byTime)[..p] + [m] + old(byTime)[p..]
      ensures names == WithUser(WithUser(old(names), from), to)
    {
      hide UserList, KnowsUsers;
      var newMail := new Mail(from, to, path, time, |byName|);
      m := newMail;
      OneMoreMail(names, byName, m);
      AddUser(from);
      AddUser(to);
      p := Thread(newMail);
    }

    method Thread(m: Mail) returns (ghost p: nat)
      requires Threaded() && m !in byName && m.nextByName == null && m.nextByTime == null && m.serial == |byName|
      modifies this`mailsCount, this`firstByName, this`lastByName, this`firstByTime, this`lastByTime, this`byName,
               this`byTime
      modifies byName, byTime, m
      ensures Threaded() && byName == old(byName) + [m]
      ensures InsertionPoint(old(byTime), m.time, p) && byTime == old(byTime)[..p] + [m] + old(byTime)[p..]
    {
      hide InTimeOrder, SameMails, InsertionPoint, LinkedByName, LinkedByTime, Distinct;
      ghost var s, t := byName, byTime;
      SerialsAreSmall(s, t);
      MailsAgree(s, t);
      AppendByName(m);
      p := InsertByTime(m);
      mailsCount := (mailsCount + 1) % 0x1_0000_0000;
      InsertKeepsOrder(t, p, m);
      InsertKeepsMails(s, t, p, m);
      CountWraps(|s|);
    }

    method AppendByName(m: Mail)
      requires Distinct(byName) && LinkedByName(byName) && firstByName == First(byName) && lastByName == Last(byName)
      requires m !in byName && m.nextByName == null && LinkedByTime(byTime)
      modifies this`firstByName, this`lastByName, this`byName, byName`nextByName
      ensures byName == old(byName) + [m] && Distinct(byName)
      ensures LinkedByName(byName) && firstByName == First(byName) && lastByName == Last(byName) && LinkedByTime(byTime)
    {
      if firstByName == null {
        firstByName, lastByName := m, m;
      } else {
        lastByName.nextByName := m;
        lastByName := m;
      }
      byName := byName + [m];
    }

    /** The search loop of register_mail: the first node by time that is not older than `time`, and the one before. */
    method FindPlace(time: int) returns (current: Mail?, previous: Mail?, ghost p: nat)
      requires LinkedByTime(byTime) && firstByTime == First(byTime)
      ensures InsertionPoint(byTime, time, p)
      ensures current == (if p < |byTime| then byTime[p] else null)
      ensures previous == (if p > 0 then byTime[p - 1] else null)
    {
      p := 0;
      current, previous := firstByTime, null;
      while current != null && current.time < time
        invariant p <= |byTime|
        invariant current == (if p < |byTime| then byTime[p] else null)
        invariant previous == (if p > 0 then byTime[p - 1] else null)
        invariant forall j :: 0 <= j < p ==> byTime[j].time < time
        decreases |byTime| - p
      {
        assert byTime[p].nextByTime == Succ(byTime, p);
        previous := current;
        current := current.nextByTime;
        p := p + 1;
      }
    }

    method InsertByTime(m: Mail) returns (ghost p: nat)
      requires LinkedByTime(byTime) && Distinct(byTime) && firstByTime == First(byTime)
      requires m !in byTime && m.nextByTime == null && LinkedByName(byName)
      modifies this`firstByTime, this`lastByTime, this`byTime, byTime`nextByTime, m`nextByTime
      ensures InsertionPoint(old(byTime), m.time, p) && byTime == old(byTime)[..p] + [m] + old(byTime)[p..]
      ensures LinkedByTime(byTime) && firstByTime == First(byTime) && LinkedByName(byName)
    {
      p := 0;
      ghost var s := byTime;
      assert forall i {:trigger s[i].nextByTime} {:trigger Succ(s, i)} :: 0 <= i < |s| ==>
             s[i].nextByTime == Succ(s, i);
      if firstByTime == null {
        firstByTime, lastByTime := m, m;
      } else {
        var current: Mail?, previous: Mail?;
        current, previous, p := FindPlace(m.time);
        if previous == null {
          m.nextByTime := firstByTime;
          firstByTime := m;
        } else {
          previous.nextByTime := m;
          m.nextByTime := current;
        }
      }
      byTime := s[..p] + [m] + s[p..];
      forall i | 0 <= i < |byTime|
        ensures byTime[i].nextByTime == Succ(byTime, i)
      {
        if i != p {
          ghost var j := if i < p then i else i - 1;
          assert byTime[i] == s[j] && old(s[j].nextByTime) == Succ(s, j);
        }
      }
    }

    /** The scan of print_mails_by_time: skip the mails before the range, stop at the first one behind it. */
    method MailsByTime(start: int, end: int) returns (visited: seq<Mail>)
      requires Valid()
      ensures visited == InRange(byTime, start, end)
      ensures InTimeOrder(visited)
      ensures forall m :: m in byName ==> (m in visited <==> start <= m.time <= end)
    {
      visited := [];
      var current := firstByTime;
      ghost var p := 0;
      while current != null && current.time < start
        invariant p <= |byTime| && current == (if p < |byTime| then byTime[p] else null)
        invariant forall j :: 0 <= j < p ==> byTime[j].time < start
        decreases |byTime| - p
      {
        current := current.nextByTime;
        p := p + 1;
      }
      ghost var q := p;
      while current != null && current.time <= end
        invariant p <= q <= |byTime| && current == (if q < |byTime| then byTime[q] else null)
        invariant visited == byTime[p..q] && forall j :: p <= j < q ==> byTime[j].time <= end
        decreases |byTime| - q
      {
        visited := visited + [current];
        current := current.nextByTime;
        q := q + 1;
      }
      RangeIsSlice(byTime, p, q, start, end);
      InRangeIsFilter(byTime, start, end);
    }

    /** print_mails: whole entries of the user's mails, as long as the text stays below 1024 characters; `k` is how
        many fit, and the text is cut to the caller's buffer. */
    method PrintMails(bufSize: nat, user: string) returns (buf: string, ghost k: nat)
      requires Valid() && bufSize >= 1
      ensures var mails := SentBy(byName, user);
              && k <= |mails| && |Text(mails[..k])| < 1024
              && (k < |mails| ==> |Text(mails[..k + 1])| >= 1024)
              && buf == (if |Text(mails[..k])| < bufSize then Text(mails[..k]) else Text(mails[..k])[..bufSize - 1])
    {
      hide SentBy, Text, InTimeOrder, SameMails, LinkedByTime;
      var tempBuf := "";
      var current := firstByName;
      ghost var n, mails := 0, SentBy(byName, user);
      k := 0;
      SentByStart(byName, user);
      while current != null
        invariant n <= |byName| && current == (if n < |byName| then byName[n] else null)
        invariant k <= |mails| && SentBy(byName[..n], user) == mails[..k]
        invariant tempBuf == Text(mails[..k]) && |tempBuf| < 1024
        decreases |byName| - n
      {
        SentByStep(byName, n, user, k);
        if current.from == user {
          var entry := current.Rendered();
          TextStep(mails, k);
          if |tempBuf| + |entry| >= 1024 {
            break;
          }
          tempBuf := tempBuf + entry;
          k := k + 1;
        }
        current := current.nextByName;
        n := n + 1;
      }
      assert current == null ==> byName[..n] == byName;
      buf := if |tempBuf| >= bufSize then tempBuf[..bufSize - 1] else tempBuf;
    }

    /** free_access_registry: every node is freed once, its successor being read before. */
    method Free() returns (freed: seq<Mail>, freedUsers: seq<string>)
      requires Valid()
      ensures freed == byName && Distinct(freed) && freedUsers == names
    {
      freed, freedUsers := [], [];
      var currentMail := firstByName;
      while currentMail != null
        invariant |freed| <= |byName| && freed == byName[..|freed|]
        invariant currentMail == (if |freed| < |byName| then byName[|freed|] else null)
        decreases |byName| - |freed|
      {
        var nextMail := currentMail.nextByName;
        freed := freed + [currentMail];
        currentMail := nextMail;
      }
      var currentUser := users;
      while currentUser != null
        invariant |freedUsers| <= |names| && freedUsers == names[..|freedUsers|]
        invariant UserList(currentUser, names[|freedUsers|..])
        decreases |names| - |freedUsers|
      {
        var nextUser := currentUser.next;
        assert names[|freedUsers|..][0] == names[|freedUsers|];
        assert names[|freedUsers|..][1..] == names[|freedUsers| + 1..];
        freedUsers := freedUsers + [currentUser.user];
        currentUser := nextUser;
      }
    }
  }

  /** In time order the mails of a range form a slice. */
  lemma RangeIsSlice(s: seq<Mail>, p: nat, q: nat, start: int, end: int)
    requires InTimeOrder(s) && p <= q <= |s|
    requires (forall j :: 0 <= j < p ==> s[j].time < start) && (p < |s| ==> s[p].time >= start)
    requires (forall j :: p <= j < q ==> s[j].time <= end) && (q < |s| ==> s[q].time > end)
    ensures InRange(s, start, end) == s[p..q]
    ensures InTimeOrder(s[p..q])
  {
    hide InRange;
    LaterMails(s, p);
    LaterMails(s, q);
    RangeOfThree(s[..p], s[p..q], s[q..], start, end);
    assert s == s[..p] + s[p..q] + s[q..];
  }

  lemma RangeOfThree(a: seq<Mail>, b: seq<Mail>, c: seq<Mail>, start: int, end: int)
    requires (forall m :: m in a ==> m.time < start) && (forall m :: m in b ==> start <= m.time <= end)
             && (forall m :: m in c ==> m.time > end)
    ensures InRange(a + b + c, start, end) == b
  {
    hide InRange;
    NoneInRange(a, start, end);
    AllInRange(b, start, end);
    NoneInRange(c, start, end);
    InRangeSplit(a, b, start, end);
    InRangeSplit(a + b, c, start, end);
  }

  lemma LaterMails(s: seq<Mail>, p: nat)
    requires InTimeOrder(s)
    ensures forall j :: p <= j < |s| ==> s[p].time <= s[j].time
  {
    assert forall j :: p < j < |s| ==> Sooner(s[p], s[j]);
  }

  /** The next mail of the scan, seen from the list of the user's mails. */
  lemma SentByStep(s: seq<Mail>, n: nat, user: string, k: nat)
    requires n < |s| && k <= |SentBy(s, user)| && SentBy(s[..n], user) == SentBy(s, user)[..k]
    ensures s[n].from == user ==> k < |SentBy(s, user)| && SentBy(s, user)[k] == s[n]
    ensures SentBy(s[..n + 1], user) == SentBy(s, user)[..if s[n].from == user then k + 1 else k]
  {
    SentBySnoc(s[..n], s[n], user);
    assert s[..n + 1] == s[..n] + [s[n]];
    SentByPrefix(s, n + 1, user);
  }

  lemma SentByStart(s: seq<Mail>, user: string)
    ensures SentBy(s[..0], user) == SentBy(s, user)[..0] && Text(SentBy(s, user)[..0]) == ""
  {
  }

  lemma TextStep(s: seq<Mail>, k: nat)
    requires k < |s|
    ensures Text(s[..k + 1]) == Text(s[..k]) + s[k].Rendered()
  {
    assert s[..k + 1][..k] == s[..k];
  }
}
