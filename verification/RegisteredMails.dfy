/** smtp.c and access_registry.c together: the mails that a connection delivers are those that the registry lists. */
module RegisteredMails {
  import opened Dialogue
  import opened Registry
  import C = Connections
  import ReferenceServer

  /** Sender and recipient of the registered mails. */
  ghost function Entries(ms: seq<Mail>): (ds: seq<Delivery>)
    ensures |ds| == |ms| && forall k :: 0 <= k < |ds| ==> ds[k] == Delivery(ms[k].from, ms[k].to)
  {
    seq(|ms|, k requires 0 <= k < |ms| => Delivery(ms[k].from, ms[k].to))
  }

  lemma EntriesSnoc(ms: seq<Mail>, m: Mail)
    ensures Entries(ms + [m]) == Entries(ms) + [Delivery(m.from, m.to)]
  {
  }

  /** One call of register_mail */
  method RegisterOne(r: MailRegistry, d: Delivery, path: string, time: int) returns (ghost m: Mail)
    requires r.Valid()
    modifies r, r.byName, r.byTime
    ensures r.Valid() && fresh(m) && m.time == time
    ensures r.byName == old(r.byName) + [m] && Entries(r.byName) == Entries(old(r.byName)) + [d]
    ensures forall i :: 0 <= i < |r.byTime| ==> r.byTime[i] in r.byName
  {
    hide MailRegistry.Valid, Entries, InsertionPoint;
    ghost var p;
    m, p := r.RegisterMail(d.from, d.to, path, time);
    EntriesSnoc(old(r.byName), m);
    r.SameNodes();
  }

  /** The calls of register_mail for these deliveries; `times[k]` is the time of the k-th. */
  method Register(r: MailRegistry, ds: seq<Delivery>, path: string, times: seq<int>)
    requires r.Valid() && |times| == |ds|
    modifies r, r.byName, r.byTime
    ensures r.Valid() && old(r.byName) <= r.byName
    ensures Entries(r.byName) == Entries(old(r.byName)) + ds
    ensures forall k :: 0 <= k < |ds| ==> r.byName[|old(r.byName)| + k].time == times[k]
    ensures r.mailsCount == (|old(r.byName)| + |ds|) % 0x1_0000_0000
  {
    hide MailRegistry.Valid, Entries;
    ghost var before := r.byName;
    r.SameNodes();
    for k := 0 to |ds|
      invariant r.Valid() && |r.byName| == |before| + k && before <= r.byName
      invariant Entries(r.byName) == Entries(before) + ds[..k]
      invariant forall j :: 0 <= j < k ==> r.byName[|before| + j].time == times[j]
      invariant forall i :: 0 <= i < |r.byName| ==> r.byName[i] in before || fresh(r.byName[i])
      invariant forall i :: 0 <= i < |r.byTime| ==> r.byTime[i] in before || fresh(r.byTime[i])
    {
      var m := RegisterOne(r, ds[k], path, times[k]);
      assert Entries(before) + ds[..k] + [ds[k]] == Entries(before) + ds[..k + 1];
    }
    r.SameNodes();
    assert ds[..|ds|] == ds;
  }

  /** The mails that the replies of a connection promised, and how many there are. */
  lemma PromisedMails(env: C.Env, es: seq<C.Event>) returns (ds: seq<Delivery>, accepted: nat)
    requires ReferenceServer.Orderly(env, es)
    ensures var s := C.Run(env, es);
            var replies := Dialogue.Run(s.history).replies;
            && |replies| <= |s.history| && ds == Promised(s.history[..|replies|], replies) == s.registered
            && accepted == AcceptedCount(s.history[..|replies|], replies) == |ds| + |s.session.rcptTo|
  {
    hide C.Run, Dialogue.Run, ReferenceServer.Orderly, Promised, AcceptedCount;
    ReferenceServer.RegistersWhatWasReplied(env, es);
    ReferenceServer.RepliesCount(env, es);
    ds, accepted := C.Run(env, es).registered, |C.Run(env, es).registered| + |C.Run(env, es).session.rcptTo|;
  }

  /** The registry after the deliveries of a connection, open or ended, starting empty: it lists, in registration order,
      exactly the mails that the replies of the connection promised, and counts them. */
  method RegisterRun(ghost env: C.Env, ghost es: seq<C.Event>, ds: seq<Delivery>, path: string, times: seq<int>)
      returns (r: MailRegistry)
    requires ReferenceServer.Orderly(env, es) && ds == C.Run(env, es).registered && |times| == |ds|
    ensures fresh(r) && r.Valid()
    ensures var s := C.Run(env, es);
            var replies := Dialogue.Run(s.history).replies;
            && |replies| <= |s.history| && Entries(r.byName) == Promised(s.history[..|replies|], replies)
            && r.mailsCount
               == (AcceptedCount(s.history[..|replies|], replies) - |s.session.rcptTo|) % 0x1_0000_0000
  {
    hide C.Run, Dialogue.Run, ReferenceServer.Orderly, Promised, AcceptedCount, MailRegistry.Valid;
    r := new MailRegistry();
    r.SameNodes();
    Register(r, ds, path, times);
    assert Entries([]) + ds == ds;
    ghost var promised, accepted := PromisedMails(env, es);
  }
}
