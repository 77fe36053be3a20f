/** maildir.c: the temporary file of a connection and the copies of its mails, by mailbox. All files of one connection
    have the same name, and none is ever truncated. */
module Spools {
  import opened CStrings
  import opened Wrappers

  /** Files by mailbox: those in tmp/ and those in new/. `first` is the mailbox of temp_full_path, which is set once;
      `box` and `at` are the file behind output_fd and its position. */
  datatype Spool =
    Spool(temps: map<string, string>, inboxes: map<string, string>, first: Option<string>, box: string, at: nat)

  const EMPTY := Spool(map[], map[], None, "", 0)

  function Held(files: map<string, string>, box: string): string {
    if box in files then files[box] else ""
  }

  function WithoutAts(email: string): string {
    if email != "" && email[0] == '@' then WithoutAts(email[1..]) else email
  }

  /** The first token of strtok(email, "@"), as the name of a directory; a null pointer is printed as "(null)". */
  function Mailbox(email: string): string {
    var rest := WithoutAts(email);
    var at := StrChr(rest, '@');
    if rest == "" then "(null)" else if at == -1 then rest else rest[..at]
  }

  function First(rcpts: seq<string>): string {
    if rcpts == [] then "" else rcpts[0]
  }

  function RcptLines(rcpts: seq<string>): string {
    if rcpts == [] then "" else "RCPT TO: <" + rcpts[0] + ">\r\n" + RcptLines(rcpts[1..])
  }

  /** What request_data_init writes in front of each fill. */
  function Header(from: string, rcpts: seq<string>): string {
    "MAIL FROM: <" + from + ">\r\n" + RcptLines(rcpts) + "DATA\r\n"
  }

  /** write at a position of a file: what is there is replaced, and a gap is filled with NUL bytes. */
  function Overwrite(was: string, at: nat, text: string): string {
    var front := if at <= |was| then was[..at] else was + seq(at - |was|, _ => NUL);
    front + text + if at + |text| < |was| then was[at + |text|..] else ""
  }

  /** create_temp_mail_file: the file is opened at its start, as it is. */
  function Opened(sp: Spool, box: string): Spool {
    sp.(temps := sp.temps[box := Held(sp.temps, box)], first := if sp.first == None then Some(box) else sp.first,
        box := box, at := 0)
  }

  function Written(sp: Spool, text: string): Spool {
    sp.(temps := sp.temps[sp.box := Overwrite(Held(sp.temps, sp.box), sp.at, text)], at := sp.at + |text|)
  }

  /** Opening the file, and its first lines. */
  function Started(sp: Spool, from: string, rcpts: seq<string>): Spool {
    Written(Opened(sp, Mailbox(First(rcpts))), Header(from, rcpts))
  }

  /** The file that is copied. */
  function Source(sp: Spool): string {
    if sp.first == None then "" else Held(sp.temps, sp.first.value)
  }

  /** copy_temp_to_new_single for every recipient. */
  function Copied(sp: Spool, rcpts: seq<string>): Spool
    decreases |rcpts|
  {
    if rcpts == [] then sp
    else
      var box := Mailbox(rcpts[0]);
      Copied(sp.(inboxes := sp.inboxes[box := Overwrite(Held(sp.inboxes, box), 0, Source(sp))]), rcpts[1..])
  }

  /** A message whose body comes in one fill. */
  function Mailed(sp: Spool, from: string, rcpts: seq<string>, body: string): Spool {
    Copied(Written(Started(sp, from, rcpts), body), rcpts)
  }

  /** One write of a body to its file: for whom, which text, and whether the body ended with it. */
  datatype Fill = Fill(from: string, rcpts: seq<string>, text: string, last: bool)

  /** What the files of a connection hold after these fills. */
  function Stored(fills: seq<Fill>): Spool {
    if fills == [] then EMPTY
    else
      var f := fills[|fills| - 1];
      var sp := Written(Started(Stored(fills[..|fills| - 1]), f.from, f.rcpts), f.text);
      if f.last then Copied(sp, f.rcpts) else sp
  }

  lemma StoredSnoc(fills: seq<Fill>, f: Fill)
    ensures var sp := Written(Started(Stored(fills), f.from, f.rcpts), f.text);
            Stored(fills + [f]) == if f.last then Copied(sp, f.rcpts) else sp
  {
    assert (fills + [f])[..|fills|] == fills;
  }

  // ----- Writing

  lemma OverwriteIsWhole(was: string, text: string)
    ensures |Overwrite(was, 0, text)| == if |was| <= |text| then |text| else |was|
    ensures Overwrite(was, 0, text) == text <==> |was| <= |text|
    ensures text <= Overwrite(was, 0, text)
  {
    assert was[..0] == "";
  }

  lemma OverwriteTwice(was: string, text: string)
    ensures Overwrite(Overwrite(was, 0, text), 0, text) == Overwrite(was, 0, text)
  {
    var once := Overwrite(was, 0, text);
    OverwriteIsWhole(was, text);
    OverwriteIsWhole(once, text);
    assert once == text + once[|text|..];
  }

  lemma OverwriteOn(was: string, a: string, b: string)
    ensures Overwrite(Overwrite(was, 0, a), |a|, b) == Overwrite(was, 0, a + b)
  {
    var once := Overwrite(was, 0, a);
    OverwriteIsWhole(was, a);
    assert once[..|a|] == a;
    assert |a| + |b| < |was| ==> once[|a| + |b|..] == was[|a| + |b|..];
  }

  /** Header and text of a fill are one write over what the file held. */
  lemma FillContent(sp: Spool, from: string, rcpts: seq<string>, text: string)
    ensures var box := Mailbox(First(rcpts));
            var sp' := Written(Started(sp, from, rcpts), text);
            && sp'.temps == sp.temps[box := Overwrite(Held(sp.temps, box), 0, Header(from, rcpts) + text)]
            && sp'.inboxes == sp.inboxes && sp'.first == (if sp.first == None then Some(box) else sp.first)
  {
    hide Overwrite, Header, Mailbox;
    var box := Mailbox(First(rcpts));
    OverwriteOn(Held(sp.temps, box), Header(from, rcpts), text);
  }

  /** A body that comes in several fills: each opens the file anew. */
  function Filled(sp: Spool, from: string, rcpts: seq<string>, texts: seq<string>): Spool {
    if texts == [] then sp
    else
      var n := |texts| - 1;
      Written(Started(Filled(sp, from, rcpts, texts[..n]), from, rcpts), texts[n])
  }

  function Longest(texts: seq<string>): nat {
    if texts == [] then 0
    else
      var n := |texts| - 1;
      var m := Longest(texts[..n]);
      if m < |texts[n]| then |texts[n]| else m
  }

  lemma FilledStep(sp: Spool, from: string, rcpts: seq<string>, texts: seq<string>, text: string)
    ensures Filled(sp, from, rcpts, texts + [text])
            == Written(Started(Filled(sp, from, rcpts, texts), from, rcpts), text)
    ensures Longest(texts + [text]) == if Longest(texts) < |text| then |text| else Longest(texts)
  {
    assert (texts + [text])[..|texts|] == texts;
  }

  /** At most one fill has any text. */
  predicate OneText(texts: seq<string>) {
    forall i, j :: 0 <= i < j < |texts| ==> texts[i] == "" || texts[j] == ""
  }

  lemma {:induction false} OneTextIsWhole(texts: seq<string>)
    ensures Longest(texts) <= |Concat(texts)|
    ensures Longest(texts) == |Concat(texts)| <==> OneText(texts)
    ensures Longest(texts) == 0 <==> forall i :: 0 <= i < |texts| ==> texts[i] == ""
  {
    if texts != [] {
      var n := |texts| - 1;
      var before := texts[..n];
      OneTextIsWhole(before);
      assert texts == before + [texts[n]];
      ConcatSnoc(before, texts[n]);
      if OneText(texts) && texts[n] != "" {
        assert forall i :: 0 <= i < n ==> before[i] == texts[i] == "";
      }
      if Longest(before) == 0 {
        assert forall i :: 0 <= i < n ==> texts[i] == before[i] == "";
      }
      if !OneText(before) {
        var i, j :| 0 <= i < j < n && before[i] != "" && before[j] != "";
        assert texts[i] != "" && texts[j] != "";
      }
      if OneText(before) && (texts[n] == "" || Longest(before) == 0) {
        assert OneText(texts);
      }
    }
  }

  /** What a new file holds after the fills. */
  lemma {:induction false} FilledContent(sp: Spool, from: string, rcpts: seq<string>, texts: seq<string>)
    requires Held(sp.temps, Mailbox(First(rcpts))) == "" && texts != []
    ensures var text := Held(Filled(sp, from, rcpts, texts).temps, Mailbox(First(rcpts)));
            && |text| == |Header(from, rcpts)| + Longest(texts)
            && (OneText(texts) ==> text == Header(from, rcpts) + Concat(texts))
  {
    hide Overwrite, Header, Mailbox, Started, Written;
    var h, n := Header(from, rcpts), |texts| - 1;
    var before, last := texts[..n], texts[n];
    assert texts == before + [last];
    FilledStep(sp, from, rcpts, before, last);
    FillContent(Filled(sp, from, rcpts, before), from, rcpts, last);
    ConcatSnoc(before, last);
    assert h + (Concat(before) + last) == h + Concat(before) + last;
    if before == [] {
      OverwriteIsWhole("", h + last);
      assert Concat(before) + last == last;
      assert Longest(texts) == |last|;
    } else {
      FilledContent(sp, from, rcpts, before);
      var held := Held(Filled(sp, from, rcpts, before).temps, Mailbox(First(rcpts)));
      OverwriteIsWhole(held, h + last);
      if OneText(texts) {
        OneTextIsWhole(before);
        assert OneText(before);
        if last == "" {
          OverwriteKeepsPrefix(h, Concat(before));
          assert Concat(before) + last == Concat(before);
        } else {
          assert forall i :: 0 <= i < n ==> before[i] == texts[i] == "";
          assert Concat(before) == "" && Concat(before) + last == last;
        }
      }
    }
  }

  /** A new file holds the header and all texts exactly when at most one fill has any text: each fill is written over
      the one before. */
  lemma FillsKeepTheBody(sp: Spool, from: string, rcpts: seq<string>, texts: seq<string>)
    requires Held(sp.temps, Mailbox(First(rcpts))) == "" && texts != []
    ensures Held(Filled(sp, from, rcpts, texts).temps, Mailbox(First(rcpts))) == Header(from, rcpts) + Concat(texts)
            <==> OneText(texts)
  {
    hide Overwrite, Header, Mailbox, Filled;
    FilledContent(sp, from, rcpts, texts);
    OneTextIsWhole(texts);
  }

  lemma OverwriteKeepsPrefix(h: string, x: string)
    ensures Overwrite(h + x, 0, h + "") == h + x
  {
  }

  // ----- Copying

  lemma {:induction false} CopiedInbox(sp: Spool, rcpts: seq<string>, box: string)
    ensures var sp' := Copied(sp, rcpts);
            && sp'.temps == sp.temps && sp'.first == sp.first
            && Held(sp'.inboxes, box) == (if exists r :: r in rcpts && Mailbox(r) == box
                                         then Overwrite(Held(sp.inboxes, box), 0, Source(sp))
                                         else Held(sp.inboxes, box))
    decreases |rcpts|
  {
    hide Overwrite, Mailbox;
    if rcpts != [] {
      var b, src := Mailbox(rcpts[0]), Source(sp);
      var sp1 := sp.(inboxes := sp.inboxes[b := Overwrite(Held(sp.inboxes, b), 0, src)]);
      CopiedInbox(sp1, rcpts[1..], box);
      OverwriteTwice(Held(sp.inboxes, b), src);
      if b == box {
        assert rcpts[0] in rcpts;
      } else {
        assert forall r :: r in rcpts && Mailbox(r) == box ==> r in rcpts[1..];
      }
    }
  }

  // ----- Whose mailbox

  /** The text in front of the first '@'. */
  function LocalPart(email: string): string {
    if email == "" || email[0] == '@' then "" else [email[0]] + LocalPart(email[1..])
  }

  lemma {:induction false} LocalPartEnds(email: string)
    ensures LocalPart(email) <= email && '@' !in LocalPart(email)
    ensures |LocalPart(email)| < |email| ==> email[|LocalPart(email)|] == '@'
  {
    if email != "" && email[0] != '@' {
      LocalPartEnds(email[1..]);
    }
  }

  /** The mailbox of a user is the user's name, with any domain or none. */
  lemma MailboxOfUser(user: string, domain: string)
    requires user != "" && '@' !in user
    ensures Mailbox(user) == user && Mailbox(user + "@" + domain) == user
  {
    hide StrChr;
    var mail := user + "@" + domain;
    assert mail[0] == user[0] && mail[|user|] == '@' && mail[..|user|] == user;
    assert StrChr(mail, '@') == |user| by {
      assert forall i :: 0 <= i < |user| ==> mail[i] == user[i];
    }
  }

  /** An address that does not begin with '@' belongs to the mailbox of its local part. */
  lemma MailboxIsLocalPart(email: string)
    requires email != "" && email[0] != '@'
    ensures Mailbox(email) == LocalPart(email) && LocalPart(email) != ""
  {
    LocalPartEnds(email);
    LocalPartIsNotEmpty(email);
    hide LocalPart, Mailbox;
    var user := LocalPart(email);
    if |user| < |email| {
      CutAt(email, |user|);
      MailboxOfUser(user, email[|user| + 1..]);
    } else {
      assert email == user;
      MailboxOfUser(user, "");
    }
  }

  lemma LocalPartIsNotEmpty(email: string)
    requires email != "" && email[0] != '@'
    ensures LocalPart(email) != ""
  {
  }

  lemma CutAt(s: string, k: nat)
    requires k < |s|
    ensures s == s[..k] + [s[k]] + s[k + 1..]
  {
  }

  /** Leading '@' characters are skipped, and an address without any other character has no name. */
  lemma LeadingAtsAreSkipped(email: string)
    ensures Mailbox("@" + email) == Mailbox(email)
    ensures Mailbox("") == "(null)"
  {
    assert ("@" + email)[1..] == email;
  }

  /** Two such addresses share a mailbox exactly when they have the same local part. */
  lemma SameMailbox(a: string, b: string)
    requires a != "" && a[0] != '@' && b != "" && b[0] != '@'
    ensures Mailbox(a) == Mailbox(b) <==> LocalPart(a) == LocalPart(b)
  {
    MailboxIsLocalPart(a);
    MailboxIsLocalPart(b);
  }

  /** A user is among the recipients, with any domain or none. */
  predicate Names(rcpts: seq<string>, user: string) {
    exists r :: r in rcpts && LocalPart(r) == user
  }

  /** Copies reach exactly the users that are addressed: their files get the copied one written over them, and the files
      of all others stay as they are. */
  lemma CopiedToUsers(sp: Spool, rcpts: seq<string>, user: string)
    requires user != "" && forall r :: r in rcpts ==> r != "" && r[0] != '@'
    ensures Held(Copied(sp, rcpts).inboxes, user)
            == if Names(rcpts, user) then Overwrite(Held(sp.inboxes, user), 0, Source(sp)) else Held(sp.inboxes, user)
  {
    hide Mailbox, Overwrite, Copied;
    CopiedInbox(sp, rcpts, user);
    forall r | r in rcpts
      ensures Mailbox(r) == LocalPart(r)
    {
      MailboxIsLocalPart(r);
    }
  }

  // ----- What arrives

  /** Addresses that a parsed argument can hold. */
  predicate Plain(from: string, rcpts: seq<string>) {
    CR !in from && CR !in First(rcpts)
  }

  const CR: char := '\r'

  lemma SplitAtCr(a: string, b: string, x: string, y: string)
    requires CR !in a && CR !in b && a + [CR] + x == b + [CR] + y
    ensures a == b && x == y
  {
    var s := a + [CR] + x;
    assert s[|a|] == CR && s[|b|] == CR;
    assert |a| == |b|;
    assert s[..|a|] == a && s[..|b|] == b && s[|a| + 1..] == x && s[|b| + 1..] == y;
  }

  /** The header line by line. */
  lemma HeaderLines(from: string, rcpts: seq<string>, body: string)
    ensures var rest := if rcpts == [] then "DATA\r\n" + body
                        else ("RCPT TO: <" + rcpts[0] + ">") + "\r\n" + (RcptLines(rcpts[1..]) + "DATA\r\n" + body);
            Header(from, rcpts) + body == ("MAIL FROM: <" + from + ">") + [CR] + ("\n" + rest)
  {
    if rcpts == [] {
      assert Header(from, rcpts) + body == ("MAIL FROM: <" + from + ">") + [CR] + ("\n" + ("DATA\r\n" + body));
    } else {
      var more := RcptLines(rcpts[1..]);
      assert RcptLines(rcpts) == "RCPT TO: <" + rcpts[0] + ">\r\n" + more;
      assert Header(from, rcpts) + body
          == ("MAIL FROM: <" + from + ">") + [CR]
             + ("\n" + (("RCPT TO: <" + rcpts[0] + ">") + "\r\n" + (more + "DATA\r\n" + body)));
    }
  }

  /** Header and body tell the first recipient: texts that begin alike have the same one. */
  lemma HeadersTell(f: string, to: seq<string>, body: string, f': string, to': seq<string>, body': string)
    requires Plain(f, to) && Plain(f', to') && to != [] && to' != []
    requires Header(f, to) + body == Header(f', to') + body'
    ensures f == f' && to[0] == to'[0]
  {
    hide Header, RcptLines;
    HeaderLines(f, to, body);
    HeaderLines(f', to', body');
    var a, a' := "MAIL FROM: <" + f + ">", "MAIL FROM: <" + f' + ">";
    var b, b' := "RCPT TO: <" + to[0] + ">", "RCPT TO: <" + to'[0] + ">";
    var x, x' := RcptLines(to[1..]) + "DATA\r\n" + body, RcptLines(to'[1..]) + "DATA\r\n" + body';
    SplitAtCr(a, a', "\n" + (b + "\r\n" + x), "\n" + (b' + "\r\n" + x'));
    assert ("\n" + (b + "\r\n" + x))[1..] == b + [CR] + ("\n" + x);
    assert ("\n" + (b' + "\r\n" + x'))[1..] == b' + [CR] + ("\n" + x');
    SplitAtCr(b, b', "\n" + x, "\n" + x');
    assert a[12..|a| - 1] == f && a'[12..|a'| - 1] == f';
    assert b[10..|b| - 1] == to[0] && b'[10..|b'| - 1] == to'[0];
  }

  /** A file that begins with the header of a message whose first recipient has this mailbox. */
  ghost predicate Labelled(text: string, box: string) {
    exists f, to :: Plain(f, to) && to != [] && Mailbox(First(to)) == box && Header(f, to) <= text
  }

  /** Temporary files begin with a header of their mailbox, and the one that is copied is there. */
  ghost predicate Tidy(sp: Spool) {
    && (sp.first.Some? ==> sp.first.value in sp.temps)
    && forall box :: box in sp.temps ==> Labelled(sp.temps[box], box)
  }

  lemma WrittenIsTidy(sp: Spool, from: string, rcpts: seq<string>, text: string)
    requires Tidy(sp) && Plain(from, rcpts) && rcpts != []
    ensures Tidy(Written(Started(sp, from, rcpts), text)) && Tidy(Started(sp, from, rcpts))
  {
    hide Overwrite, Header, Mailbox, Started, Written;
    var box := Mailbox(First(rcpts));
    FillContent(sp, from, rcpts, text);
    OverwriteIsWhole(Held(sp.temps, box), Header(from, rcpts) + text);
    assert Labelled(Overwrite(Held(sp.temps, box), 0, Header(from, rcpts) + text), box) by {
      assert Header(from, rcpts) <= Header(from, rcpts) + text;
    }
    StartedContent(sp, from, rcpts);
    OverwriteIsWhole(Held(sp.temps, box), Header(from, rcpts));
    assert Labelled(Overwrite(Held(sp.temps, box), 0, Header(from, rcpts)), box);
  }

  lemma StartedContent(sp: Spool, from: string, rcpts: seq<string>)
    ensures var box := Mailbox(First(rcpts));
            var sp' := Started(sp, from, rcpts);
            && sp'.temps == sp.temps[box := Overwrite(Held(sp.temps, box), 0, Header(from, rcpts))]
            && sp'.inboxes == sp.inboxes && sp'.first == (if sp.first == None then Some(box) else sp.first)
  {
    hide Overwrite, Header, Mailbox;
  }

  lemma CopiedIsTidy(sp: Spool, rcpts: seq<string>)
    requires Tidy(sp)
    ensures Tidy(Copied(sp, rcpts))
  {
    CopiedInbox(sp, rcpts, "");
  }

  lemma MailedIsTidy(sp: Spool, from: string, rcpts: seq<string>, body: string)
    requires Tidy(sp) && Plain(from, rcpts) && rcpts != []
    ensures Tidy(Mailed(sp, from, rcpts, body))
  {
    hide Tidy, Written, Started, Copied;
    WrittenIsTidy(sp, from, rcpts, body);
    CopiedIsTidy(Written(Started(sp, from, rcpts), body), rcpts);
  }

  /** Fills of messages with recipients, as parsed arguments name them. */
  predicate PlainFills(fills: seq<Fill>) {
    forall k :: 0 <= k < |fills| ==> fills[k].rcpts != [] && Plain(fills[k].from, fills[k].rcpts)
  }

  lemma {:induction false} StoredIsTidy(fills: seq<Fill>)
    requires PlainFills(fills)
    ensures Tidy(Stored(fills))
  {
    hide Tidy, Written, Started, Copied, Plain;
    if fills == [] {
      EmptyIsTidy();
    } else {
      var f := fills[|fills| - 1];
      StoredIsTidy(fills[..|fills| - 1]);
      WrittenIsTidy(Stored(fills[..|fills| - 1]), f.from, f.rcpts, f.text);
      CopiedIsTidy(Written(Started(Stored(fills[..|fills| - 1]), f.from, f.rcpts), f.text), f.rcpts);
    }
  }

  lemma EmptyIsTidy()
    ensures Tidy(EMPTY)
  {
  }

  /** A text labelled for one mailbox is no message for another, and nothing that is written over with it is. */
  lemma WrongLabel(text: string, box: string, was: string, from: string, rcpts: seq<string>, body: string)
    requires Labelled(text, box) && Plain(from, rcpts) && rcpts != [] && Mailbox(First(rcpts)) != box
    ensures Overwrite(was, 0, text) != Header(from, rcpts) + body
  {
    hide Header, Mailbox, Overwrite;
    OverwriteIsWhole(was, text);
    var f, to :| Plain(f, to) && to != [] && Mailbox(First(to)) == box && Header(f, to) <= text;
    var all := Overwrite(was, 0, text);
    if all == Header(from, rcpts) + body {
      var rest := all[|Header(f, to)|..];
      assert all == Header(f, to) + rest;
      HeadersTell(f, to, rest, from, rcpts, body);
    }
  }

  /** What a recipient gets: the file of the connection's first mailbox, over what was there. */
  lemma MailedInbox(sp: Spool, from: string, rcpts: seq<string>, body: string, r: string)
    requires r in rcpts
    ensures var text, box := Header(from, rcpts) + body, Mailbox(First(rcpts));
            var source := if sp.first == None || sp.first == Some(box) then Overwrite(Held(sp.temps, box), 0, text)
                          else Held(sp.temps, sp.first.value);
            Held(Mailed(sp, from, rcpts, body).inboxes, Mailbox(r))
                == Overwrite(Held(sp.inboxes, Mailbox(r)), 0, source)
  {
    hide Overwrite, Header, Mailbox, Copied, Started, Written;
    FillContent(sp, from, rcpts, body);
    CopiedInbox(Written(Started(sp, from, rcpts), body), rcpts, Mailbox(r));
  }

  /** A mail arrives at a recipient as its header and its body exactly when its first recipient has the mailbox of the
      connection's first mail, and neither the temporary file nor the recipient's file was longer. */
  lemma MailArrives(sp: Spool, from: string, rcpts: seq<string>, body: string, r: string)
    requires r in rcpts && Tidy(sp) && Plain(from, rcpts)
    ensures var text, box := Header(from, rcpts) + body, Mailbox(First(rcpts));
            Held(Mailed(sp, from, rcpts, body).inboxes, Mailbox(r)) == text
            <==> && (sp.first == None || sp.first == Some(box))
                 && |Held(sp.temps, box)| <= |text| && |Held(sp.inboxes, Mailbox(r))| <= |text|
  {
    hide Overwrite, Header, Mailbox, Mailed;
    var text, box := Header(from, rcpts) + body, Mailbox(First(rcpts));
    MailedInbox(sp, from, rcpts, body, r);
    if sp.first == None || sp.first == Some(box) {
      OverwriteIsWhole(Held(sp.temps, box), text);
      OverwriteIsWhole(Held(sp.inboxes, Mailbox(r)), Overwrite(Held(sp.temps, box), 0, text));
    } else {
      WrongLabel(sp.temps[sp.first.value], sp.first.value, Held(sp.inboxes, Mailbox(r)), from, rcpts, body);
    }
  }

  /** Any other later mail is lost: what its recipients get is the file of the first message's mailbox, whatever was
      sent. */
  lemma LaterMailIsLost(sp: Spool, from: string, rcpts: seq<string>, body: string, r: string)
    requires r in rcpts && sp.first.Some? && sp.first != Some(Mailbox(First(rcpts)))
    ensures Held(Mailed(sp, from, rcpts, body).inboxes, Mailbox(r))
            == Overwrite(Held(sp.inboxes, Mailbox(r)), 0, Held(sp.temps, sp.first.value))
    ensures Tidy(sp) && Plain(from, rcpts) ==>
              Held(Mailed(sp, from, rcpts, body).inboxes, Mailbox(r)) != Header(from, rcpts) + body
  {
    hide Overwrite, Header, Mailbox, Mailed;
    MailedInbox(sp, from, rcpts, body, r);
    if Tidy(sp) && Plain(from, rcpts) {
      MailArrives(sp, from, rcpts, body, r);
    }
  }
}
