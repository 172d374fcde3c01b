/**
 * The notification listener's contact table: the process-wide list of
 * contacts kept in the service's companion object, and how a posted
 * notification is folded into it.
 */
module Service {
  import opened Wrappers
  import opened ContactItems
  import JavaString

  /** The contact id of a sender: the decimal text of the Java hash code of
      the name. */
  function ContactId(name: string): (id: string)
    ensures |id| >= 1
    ensures id[0] == '-' <==> JavaString.HashCode(name) < 0
  {
    JavaString.IntToString(JavaString.HashCode(name))
  }

  /** Two names share a contact exactly when their hash codes are equal. */
  lemma ContactIdSameIffHashSame(a: string, b: string)
    ensures ContactId(a) == ContactId(b) <==> JavaString.HashCode(a) == JavaString.HashCode(b)
  {
    JavaString.IntToStringInjective(JavaString.HashCode(a), JavaString.HashCode(b));
  }

  /** Distinct names can share an id: "Aa" and "BB" (both hash to 2112). */
  lemma ContactIdCollides()
    ensures "Aa" != "BB" && ContactId("Aa") == ContactId("BB")
  {
    JavaString.HashCodeCollides();
  }

  /** `k` is the first position in `cs` holding a contact with id `id`. */
  ghost predicate IsFirstWithId(cs: seq<Contact>, k: int, id: string)
  {
    0 <= k < |cs| && cs[k].id == id && forall i :: 0 <= i < k ==> cs[i].id != id
  }

  /** Kotlin's `indexOfFirst { it.id == id }`: the first matching position,
      or -1 when no contact has that id. */
  function IndexOfFirst(cs: seq<Contact>, id: string): (k: int)
    ensures k == -1 || IsFirstWithId(cs, k, id)
    ensures k == -1 <==> forall i :: 0 <= i < |cs| ==> cs[i].id != id
  {
    if cs == [] then -1
    else if cs[0].id == id then 0
    else
      var k := IndexOfFirst(cs[1..], id);
      if k == -1 then -1 else k + 1
  }

  /** The title a posted notification is grouped under; a missing title is "". */
  function TitleOf(sbn: StatusBarNotification): (title: string)
    ensures sbn.title.Some? ==> title == sbn.title.value
    ensures sbn.title.None? ==> title == ""
  {
    OrEmpty(sbn.title)
  }

  /** The message recorded for a posted notification: its key, its text
      ("" when missing), its post time and the formatted time. */
  function MessageOf(sbn: StatusBarNotification): (m: Message)
    ensures m.id == sbn.key && m.timestamp == sbn.postTime && m.timeString == sbn.formattedTime
    ensures m.content == if sbn.text.Some? then sbn.text.value else ""
  {
    Message(sbn.key, OrEmpty(sbn.text), sbn.postTime, sbn.formattedTime)
  }

  /** The table after a notification titled `name` carrying `m` is posted:
      `m` is appended to the first contact with the name's id, or, when there
      is none, a new one-message contact is appended at the end. */
  function Ingest(cs: seq<Contact>, name: string, m: Message): (r: seq<Contact>)
    ensures |cs| <= |r| <= |cs| + 1
  {
    var id := ContactId(name);
    var k := IndexOfFirst(cs, id);
    if k == -1 then cs + [Contact(id, name, [m])]
    else cs[k := cs[k].(messages := cs[k].messages + [m])]
  }

  /** A post under a name whose id is unseen appends exactly one contact and
      keeps the earlier ones in place; a post under a known id changes only
      the first contact with that id, appending the message and keeping its
      id and name, even when the title merely collides in hash. */
  lemma IngestChangesOnlyOneContact(cs: seq<Contact>, name: string, m: Message)
    ensures (forall i :: 0 <= i < |cs| ==> cs[i].id != ContactId(name)) ==>
              Ingest(cs, name, m) == cs + [Contact(ContactId(name), name, [m])]
    ensures forall k | IsFirstWithId(cs, k, ContactId(name)) ::
              var r := Ingest(cs, name, m);
              && |r| == |cs|
              && r[k] == Contact(cs[k].id, cs[k].name, cs[k].messages + [m])
              && forall j :: 0 <= j < |cs| && j != k ==> r[j] == cs[j]
  {
    forall k | IsFirstWithId(cs, k, ContactId(name))
      ensures IndexOfFirst(cs, ContactId(name)) == k
    {
      var f := IndexOfFirst(cs, ContactId(name));
      assert f != -1;
      assert !(f < k) && !(k < f);
    }
  }

  ghost predicate UniqueIds(cs: seq<Contact>)
  {
    forall i, j :: 0 <= i < j < |cs| ==> cs[i].id != cs[j].id
  }

  ghost predicate NonEmptyMessages(cs: seq<Contact>)
  {
    forall i :: 0 <= i < |cs| ==> cs[i].messages != []
  }

  ghost predicate IdsDerivedFromNames(cs: seq<Contact>)
  {
    forall i :: 0 <= i < |cs| ==> cs[i].id == ContactId(cs[i].name)
  }

  /** What holds of the table at rest: no two contacts share an id, no
      contact is empty, and every id is the one derived from its name. */
  ghost predicate WellFormed(cs: seq<Contact>)
  {
    UniqueIds(cs) && NonEmptyMessages(cs) && IdsDerivedFromNames(cs)
  }

  lemma IngestPreservesWellFormed(cs: seq<Contact>, name: string, m: Message)
    requires WellFormed(cs)
    ensures WellFormed(Ingest(cs, name, m))
  {
    var id := ContactId(name);
    var r := Ingest(cs, name, m);
    var k := IndexOfFirst(cs, id);
    if k == -1 {
      var c := Contact(id, name, [m]);
      assert r == cs + [c];
      forall i, j | 0 <= i < j < |r| ensures r[i].id != r[j].id {
        if j == |cs| {
          assert r[i] == cs[i] && r[j] == c;
        } else {
          assert r[i] == cs[i] && r[j] == cs[j];
        }
      }
      forall i | 0 <= i < |r| ensures r[i].messages != [] && r[i].id == ContactId(r[i].name) {
        if i < |cs| {
          assert r[i] == cs[i];
        }
      }
    } else {
      AppendPreservesWellFormed(cs, k, m);
    }
  }

  /** Appending a message to one contact keeps the table well formed. */
  lemma AppendPreservesWellFormed(cs: seq<Contact>, k: nat, m: Message)
    requires WellFormed(cs) && k < |cs|
    ensures WellFormed(cs[k := cs[k].(messages := cs[k].messages + [m])])
  {
    var r := cs[k := cs[k].(messages := cs[k].messages + [m])];
    assert forall j :: 0 <= j < |cs| ==> r[j].id == cs[j].id && r[j].name == cs[j].name && r[j].messages != [];
  }

  /** Every message of the table, contact by contact. */
  function AllMessages(cs: seq<Contact>): seq<Message>
  {
    if cs == [] then [] else cs[0].messages + AllMessages(cs[1..])
  }

  lemma {:induction false} AllMessagesConcat(a: seq<Contact>, b: seq<Contact>)
    ensures AllMessages(a + b) == AllMessages(a) + AllMessages(b)
  {
    if a == [] {
      assert a + b == b;
    } else {
      assert (a + b)[1..] == a[1..] + b;
      AllMessagesConcat(a[1..], b);
    }
  }

  lemma AllMessagesAround(before: seq<Contact>, c: Contact, after: seq<Contact>)
    ensures AllMessages(before + [c] + after) == AllMessages(before) + c.messages + AllMessages(after)
  {
    AllMessagesConcat(before + [c], after);
    AllMessagesConcat(before, [c]);
    AllMessagesSingleton(c);
  }

  lemma AllMessagesSingleton(c: Contact)
    ensures AllMessages([c]) == c.messages
  {
    assert [c][1..] == [];
  }

  /** Posting adds exactly one occurrence of the message to the table, even
      when an equal message is already there: nothing is de-duplicated. */
  lemma IngestAddsExactlyOneMessage(cs: seq<Contact>, name: string, m: Message)
    ensures multiset(AllMessages(Ingest(cs, name, m))) == multiset(AllMessages(cs)) + multiset{m}
    ensures |AllMessages(Ingest(cs, name, m))| == |AllMessages(cs)| + 1
  {
    var k := IndexOfFirst(cs, ContactId(name));
    if k == -1 {
      var c := Contact(ContactId(name), name, [m]);
      assert Ingest(cs, name, m) == cs + [c];
      AllMessagesConcat(cs, [c]);
      AllMessagesSingleton(c);
    } else {
      var c := cs[k].(messages := cs[k].messages + [m]);
      var before, after := cs[..k], cs[k + 1..];
      assert cs == before + [cs[k]] + after;
      assert Ingest(cs, name, m) == before + [c] + after;
      AllMessagesAround(before, cs[k], after);
      AllMessagesAround(before, c, after);
      AppendInMiddle(AllMessages(before), cs[k].messages, AllMessages(after), m);
    }
  }

  lemma AppendInMiddle(x: seq<Message>, y: seq<Message>, z: seq<Message>, m: Message)
    ensures multiset(x + (y + [m]) + z) == multiset(x + y + z) + multiset{m}
    ensures |x + (y + [m]) + z| == |x + y + z| + 1
  {
  }

  /** The messages of the contact the table holds under `id` ([] if none). */
  function MessagesOf(cs: seq<Contact>, id: string): (ms: seq<Message>)
    ensures ms != [] ==> exists k :: IsFirstWithId(cs, k, id) && ms == cs[k].messages
  {
    var k := IndexOfFirst(cs, id);
    if k == -1 then [] else cs[k].messages
  }

  /** Posting under `name` appends to that sender's messages and leaves the
      messages under every other id as they were. */
  lemma IngestMessagesOf(cs: seq<Contact>, name: string, m: Message, id: string)
    ensures MessagesOf(Ingest(cs, name, m), id)
         == if id == ContactId(name) then MessagesOf(cs, id) + [m] else MessagesOf(cs, id)
  {
    var r := Ingest(cs, name, m);
    var k := IndexOfFirst(cs, ContactId(name));
    var kr := IndexOfFirst(r, id);
    var ko := IndexOfFirst(cs, id);
    if k == -1 {
      if id == ContactId(name) {
        assert IsFirstWithId(r, |cs|, id);
      } else if ko != -1 {
        assert IsFirstWithId(r, ko, id);
      }
    } else {
      assert forall j :: 0 <= j < |cs| ==> r[j].id == cs[j].id;
      if ko != -1 {
        assert IsFirstWithId(r, ko, id);
      }
    }
  }

  /** After a post under `name` the table holds a contact with the name's id;
      it has grown by one contact exactly when there was none before. */
  lemma IngestRegistersSender(cs: seq<Contact>, name: string, m: Message)
    ensures |Ingest(cs, name, m)| == |cs| + if IndexOfFirst(cs, ContactId(name)) == -1 then 1 else 0
    ensures IndexOfFirst(Ingest(cs, name, m), ContactId(name)) != -1
  {
    var id := ContactId(name);
    var r := Ingest(cs, name, m);
    var k := IndexOfFirst(cs, id);
    if k == -1 {
      assert r[|cs|].id == id;
    } else {
      assert r[k].id == id;
    }
  }

  /** The ids the table holds. */
  ghost function Ids(cs: seq<Contact>): set<string>
  {
    set i | 0 <= i < |cs| :: cs[i].id
  }

  /** A post adds its sender's id to the ids held and no other. */
  lemma IngestIds(cs: seq<Contact>, name: string, m: Message)
    ensures Ids(Ingest(cs, name, m)) == Ids(cs) + {ContactId(name)}
  {
    var id := ContactId(name);
    var k := IndexOfFirst(cs, id);
    if k == -1 {
      IdsSnoc(cs, Contact(id, name, [m]));
    } else {
      var r := cs[k := cs[k].(messages := cs[k].messages + [m])];
      IdsOfSameIds(cs, r);
      assert cs[k].id == id;
    }
  }

  lemma IdsSnoc(cs: seq<Contact>, c: Contact)
    ensures Ids(cs + [c]) == Ids(cs) + {c.id}
  {
    var r := cs + [c];
    assert r[|cs|] == c;
    forall id | id in Ids(r) ensures id in Ids(cs) + {c.id} {
      var i :| 0 <= i < |r| && r[i].id == id;
      if i < |cs| {
        assert r[i] == cs[i];
      }
    }
    forall id | id in Ids(cs) ensures id in Ids(r) {
      var i :| 0 <= i < |cs| && cs[i].id == id;
      assert r[i] == cs[i];
    }
  }

  lemma IdsOfSameIds(a: seq<Contact>, b: seq<Contact>)
    requires |a| == |b| && forall i :: 0 <= i < |a| ==> a[i].id == b[i].id
    ensures Ids(a) == Ids(b)
  {
    forall id | id in Ids(a) ensures id in Ids(b) {
      var i :| 0 <= i < |a| && a[i].id == id;
    }
    forall id | id in Ids(b) ensures id in Ids(a) {
      var i :| 0 <= i < |b| && b[i].id == id;
    }
  }

  /** With unique ids the table holds exactly one contact per id. */
  lemma {:induction false} UniqueIdsOneContactPerId(cs: seq<Contact>)
    requires UniqueIds(cs)
    ensures |Ids(cs)| == |cs|
  {
    if cs != [] {
      var rest := cs[1..];
      assert UniqueIds(rest) by {
        forall i, j | 0 <= i < j < |rest| ensures rest[i].id != rest[j].id {
          assert rest[i] == cs[i + 1] && rest[j] == cs[j + 1];
        }
      }
      UniqueIdsOneContactPerId(rest);
      assert Ids(cs) == {cs[0].id} + Ids(rest) by {
        forall id | id in Ids(cs) ensures id in {cs[0].id} + Ids(rest) {
          var i :| 0 <= i < |cs| && cs[i].id == id;
          if i > 0 {
            assert rest[i - 1] == cs[i];
          }
        }
        forall id | id in Ids(rest) ensures id in Ids(cs) {
          var i :| 0 <= i < |rest| && rest[i].id == id;
          assert cs[i + 1] == rest[i];
        }
      }
      assert cs[0].id !in Ids(rest) by {
        forall i | 0 <= i < |rest| ensures rest[i].id != cs[0].id {
          assert rest[i] == cs[i + 1];
        }
      }
    }
  }

  /** The notifications `sbns` posted in order, each under its own title. */
  function IngestNotifications(cs: seq<Contact>, sbns: seq<StatusBarNotification>): seq<Contact>
    decreases |sbns|
  {
    if sbns == [] then cs
    else IngestNotifications(Ingest(cs, TitleOf(sbns[0]), MessageOf(sbns[0])), sbns[1..])
  }

  /** The ids of the senders of `sbns`. */
  ghost function PostedIds(sbns: seq<StatusBarNotification>): set<string>
  {
    set i | 0 <= i < |sbns| :: ContactId(TitleOf(sbns[i]))
  }

  lemma PostedIdsCons(sbns: seq<StatusBarNotification>)
    requires sbns != []
    ensures PostedIds(sbns) == {ContactId(TitleOf(sbns[0]))} + PostedIds(sbns[1..])
  {
    var rest := sbns[1..];
    forall id | id in PostedIds(sbns) ensures id in {ContactId(TitleOf(sbns[0]))} + PostedIds(rest) {
      var i :| 0 <= i < |sbns| && ContactId(TitleOf(sbns[i])) == id;
      if i > 0 {
        assert rest[i - 1] == sbns[i];
      }
    }
    forall id | id in PostedIds(rest) ensures id in PostedIds(sbns) {
      var i :| 0 <= i < |rest| && ContactId(TitleOf(rest[i])) == id;
      assert sbns[i + 1] == rest[i];
    }
  }

  /** A run of posts from any senders keeps the table well formed. */
  lemma {:induction false} IngestNotificationsPreservesWellFormed(cs: seq<Contact>, sbns: seq<StatusBarNotification>)
    requires WellFormed(cs)
    ensures WellFormed(IngestNotifications(cs, sbns))
    decreases |sbns|
  {
    if sbns != [] {
      var title, m := TitleOf(sbns[0]), MessageOf(sbns[0]);
      IngestPreservesWellFormed(cs, title, m);
      IngestNotificationsPreservesWellFormed(Ingest(cs, title, m), sbns[1..]);
    }
  }

  /** After a run of posts the table holds the old ids plus the id of every
      sender, and no other. */
  lemma {:induction false} IngestNotificationsIds(cs: seq<Contact>, sbns: seq<StatusBarNotification>)
    ensures Ids(IngestNotifications(cs, sbns)) == Ids(cs) + PostedIds(sbns)
    decreases |sbns|
  {
    if sbns == [] {
      assert PostedIds(sbns) == {};
    } else {
      var title, m := TitleOf(sbns[0]), MessageOf(sbns[0]);
      IngestIds(cs, title, m);
      IngestNotificationsIds(Ingest(cs, title, m), sbns[1..]);
      PostedIdsCons(sbns);
    }
  }

  /** So a run of posts ends with one contact per distinct sender id: the
      table's length is the number of distinct ids, old and posted. */
  lemma IngestNotificationsOneContactPerSender(cs: seq<Contact>, sbns: seq<StatusBarNotification>)
    requires WellFormed(cs)
    ensures |IngestNotifications(cs, sbns)| == |Ids(cs) + PostedIds(sbns)|
  {
    IngestNotificationsPreservesWellFormed(cs, sbns);
    IngestNotificationsIds(cs, sbns);
    UniqueIdsOneContactPerId(IngestNotifications(cs, sbns));
  }

  /** Posting the messages `ms`, in order, all under one title. */
  function IngestAll(cs: seq<Contact>, name: string, ms: seq<Message>): seq<Contact>
    decreases |ms|
  {
    if ms == [] then cs else IngestAll(Ingest(cs, name, ms[0]), name, ms[1..])
  }

  /** Posts sharing one title end up, in arrival order, in that sender's
      contact. */
  lemma {:induction false} RepeatedPostsFromOneSender(cs: seq<Contact>, name: string, ms: seq<Message>)
    ensures MessagesOf(IngestAll(cs, name, ms), ContactId(name)) == MessagesOf(cs, ContactId(name)) + ms
    decreases |ms|
  {
    if ms != [] {
      var id := ContactId(name);
      var next := Ingest(cs, name, ms[0]);
      IngestMessagesOf(cs, name, ms[0], id);
      RepeatedPostsFromOneSender(next, name, ms[1..]);
      assert IngestAll(cs, name, ms) == IngestAll(next, name, ms[1..]);
      assert MessagesOf(cs, id) + [ms[0]] + ms[1..] == MessagesOf(cs, id) + ms;
    }
  }

  /** However many posts share one title, the table grows by at most one
      contact, and by one exactly when that sender was not yet in it. */
  lemma {:induction false} RepeatedPostsAddAtMostOneContact(cs: seq<Contact>, name: string, ms: seq<Message>)
    ensures |IngestAll(cs, name, ms)|
         == |cs| + if ms != [] && IndexOfFirst(cs, ContactId(name)) == -1 then 1 else 0
    decreases |ms|
  {
    if ms != [] {
      var next := Ingest(cs, name, ms[0]);
      IngestRegistersSender(cs, name, ms[0]);
      RepeatedPostsAddAtMostOneContact(next, name, ms[1..]);
      assert IngestAll(cs, name, ms) == IngestAll(next, name, ms[1..]);
    }
  }

  /** Notifications without a title (or with an empty one) all go to the
      single contact whose id is "0", the id of the empty name. */
  lemma UntitledNotificationsShareOneContact(cs: seq<Contact>, sbn: StatusBarNotification)
    requires sbn.title.None? || sbn.title == Some("")
    ensures TitleOf(sbn) == "" && ContactId(TitleOf(sbn)) == "0"
    ensures MessagesOf(Ingest(cs, TitleOf(sbn), MessageOf(sbn)), "0")
         == MessagesOf(cs, "0") + [MessageOf(sbn)]
  {
    JavaString.HashCodeOfEmpty();
    JavaString.IntToStringOfZero();
    IngestMessagesOf(cs, "", MessageOf(sbn), "0");
  }

  /** A title that merely collides in hash with an earlier one joins the
      earlier sender's contact, whose name stays the earlier title (as for
      "Aa" then "BB"). */
  lemma CollidingTitleJoinsEarlierContact(earlier: string, later: string, m1: Message, m2: Message)
    requires ContactId(earlier) == ContactId(later)
    ensures Ingest(Ingest([], earlier, m1), later, m2) == [Contact(ContactId(earlier), earlier, [m1, m2])]
  {
    var id := ContactId(earlier);
    var first := Ingest([], earlier, m1);
    assert first == [Contact(id, earlier, [m1])];
    assert IsFirstWithId(first, 0, id);
    var second := Ingest(first, later, m2);
    assert |second| == 1 && second[0] == Contact(id, earlier, [m1, m2]);
  }

  lemma {:induction false} IngestAllIntoOwnContact(name: string, earlier: seq<Message>, ms: seq<Message>)
    ensures IngestAll([Contact(ContactId(name), name, earlier)], name, ms)
         == [Contact(ContactId(name), name, earlier + ms)]
    decreases |ms|
  {
    if ms != [] {
      var id := ContactId(name);
      var table := [Contact(id, name, earlier)];
      assert IsFirstWithId(table, 0, id);
      assert Ingest(table, name, ms[0]) == [Contact(id, name, earlier + [ms[0]])];
      IngestAllIntoOwnContact(name, earlier + [ms[0]], ms[1..]);
      assert earlier + [ms[0]] + ms[1..] == earlier + ms;
    } else {
      assert earlier + ms == earlier;
    }
  }

  /** Posts under one title into an empty table give a single contact named
      by that title, holding the messages in arrival order. */
  lemma PostsFromOneSenderIntoEmptyTable(name: string, ms: seq<Message>)
    requires ms != []
    ensures IngestAll([], name, ms) == [Contact(ContactId(name), name, ms)]
  {
    assert Ingest([], name, ms[0]) == [Contact(ContactId(name), name, [ms[0]])];
    IngestAllIntoOwnContact(name, [ms[0]], ms[1..]);
    assert [ms[0]] + ms[1..] == ms;
  }

  /**
   * The listener service. Its `contacts` field stands for the companion
   * object's `_contacts` cell; the model holds one instance per process,
   * and the constructor stands for the cell's initialisation when the
   * process starts, not for a re-creation of the service. Each update
   * replaces the whole list.
   */
  class NotificationService {
    var contacts: seq<Contact>

    ghost predicate Valid()
      reads this
    {
      WellFormed(contacts)
    }

    /** The table starts empty. */
    constructor ()
      ensures Valid() && contacts == []
    {
      contacts := [];
    }

    /** `clearNotifications`: the table becomes empty, whatever it held. */
    method ClearNotifications()
      modifies this
      ensures Valid() && contacts == []
    {
      contacts := [];
    }

    /** A removal by the system is ignored: the table is kept as it was. */
    method OnNotificationRemoved(sbn: StatusBarNotification)
      ensures contacts == old(contacts)
    {
    }

    /** A posted notification is recorded in the table. */
    method OnNotificationPosted(sbn: StatusBarNotification)
      requires Valid()
      modifies this
      ensures Valid()
      ensures contacts == Ingest(old(contacts), TitleOf(sbn), MessageOf(sbn))
    {
      AddNotification(sbn);
      IngestPreservesWellFormed(old(contacts), TitleOf(sbn), MessageOf(sbn));
    }

    /** `addNotification`: build the message, then append it to the
        sender's contact if one exists, or create the contact. */
    method AddNotification(sbn: StatusBarNotification)
      modifies this
      ensures contacts == Ingest(old(contacts), TitleOf(sbn), MessageOf(sbn))
    {
      var title := TitleOf(sbn);
      var messageItem := MessageOf(sbn);
      if ContactExists(title) {
        AddMessageToContact(title, messageItem);
      } else {
        AddContact(title, messageItem);
      }
    }

    /** `addContact`: appends a new one-message contact at the end, without
        looking at what the table already holds. */
    method AddContact(contactName: string, messageItem: Message)
      modifies this
      ensures contacts == old(contacts) + [Contact(ContactId(contactName), contactName, [messageItem])]
    {
      var contactId := ContactId(contactName);
      var newContact := Contact(contactId, contactName, [messageItem]);
      contacts := contacts + [newContact];
    }

    /** `contactExists`: some contact has the id of `contactName`; this is
        exactly when `addMessageToContact` finds a position to update. */
    function ContactExists(contactName: string): (r: bool)
      reads this
      ensures r <==> IndexOfFirst(contacts, ContactId(contactName)) != -1
    {
      exists i | 0 <= i < |contacts| :: contacts[i].id == ContactId(contactName)
    }

    /** `addMessageToContact`: appends the message to the first contact with
        the id of `contactName`; does nothing when there is none. */
    method AddMessageToContact(contactName: string, messageItem: Message)
      modifies this
      ensures var k := IndexOfFirst(old(contacts), ContactId(contactName));
              && |contacts| == |old(contacts)|
              && (k == -1 ==> contacts == old(contacts))
              && (k != -1 ==> contacts == old(contacts)[k := Contact(old(contacts)[k].id, old(contacts)[k].name,
                                                                       old(contacts)[k].messages + [messageItem])])
    {
      var contactId := ContactId(contactName);
      var contactIndex := IndexOfFirst(contacts, contactId);
      if contactIndex != -1 {
        var contact := contacts[contactIndex];
        var updatedMessages := contact.messages + [messageItem];
        var updatedContact := contact.(messages := updatedMessages);
        contacts := contacts[contactIndex := updatedContact];
      }
    }
  }
}
