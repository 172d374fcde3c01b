/**
 * The chat screen for one contact: it looks the contact up by id in the
 * current table and shows its messages ordered by timestamp.
 */
module MessageScreen {
  import opened Wrappers
  import opened ContactItems
  import Service

  /** Kotlin's `contacts.find { it.id == contactId }`. */
  function FindContact(cs: seq<Contact>, contactId: string): (r: Option<Contact>)
    ensures r.None? <==> forall i :: 0 <= i < |cs| ==> cs[i].id != contactId
    ensures r.Some? ==> exists k :: Service.IsFirstWithId(cs, k, contactId) && r.value == cs[k]
  {
    var k := Service.IndexOfFirst(cs, contactId);
    if k == -1 then None else Some(cs[k])
  }

  ghost predicate SortedByTimestamp(ms: seq<Message>)
  {
    forall i, j :: 0 <= i < j < |ms| ==> ms[i].timestamp <= ms[j].timestamp
  }

  /** The messages of `ms` posted at time `t`, in their order in `ms`. */
  function WithTimestamp(ms: seq<Message>, t: int): seq<Message>
  {
    if ms == [] then []
    else (if ms[0].timestamp == t then [ms[0]] else []) + WithTimestamp(ms[1..], t)
  }

  /** `out` is what a stable sort by timestamp makes of `ms`: ordered by
      timestamp, and for every timestamp the messages carrying it appear in
      the same order as in `ms`. */
  ghost predicate IsStableSortOf(out: seq<Message>, ms: seq<Message>)
  {
    SortedByTimestamp(out) && forall t :: WithTimestamp(out, t) == WithTimestamp(ms, t)
  }

  /** Places `m` before the first element whose timestamp is not smaller. */
  function InsertByTimestamp(m: Message, sorted: seq<Message>): (r: seq<Message>)
    ensures |r| == |sorted| + 1
  {
    if sorted == [] || m.timestamp <= sorted[0].timestamp then [m] + sorted
    else [sorted[0]] + InsertByTimestamp(m, sorted[1..])
  }

  /** Kotlin's `messages.sortedBy { it.timestamp }`. */
  function SortByTimestamp(ms: seq<Message>): (sorted: seq<Message>)
    ensures |sorted| == |ms|
  {
    if ms == [] then [] else InsertByTimestamp(ms[0], SortByTimestamp(ms[1..]))
  }

  lemma {:induction false} InsertByTimestampPermutes(m: Message, sorted: seq<Message>)
    ensures multiset(InsertByTimestamp(m, sorted)) == multiset(sorted) + multiset{m}
    ensures |InsertByTimestamp(m, sorted)| == |sorted| + 1
  {
    if sorted != [] && m.timestamp > sorted[0].timestamp {
      var rest := sorted[1..];
      assert sorted == [sorted[0]] + rest;
      InsertByTimestampPermutes(m, rest);
    }
  }

  /** Prepending a message no later than the head keeps a list ordered. */
  lemma PrependSorted(x: Message, s: seq<Message>)
    requires SortedByTimestamp(s)
    requires s != [] ==> x.timestamp <= s[0].timestamp
    ensures SortedByTimestamp([x] + s)
  {
    var r := [x] + s;
    forall i, j | 0 <= i < j < |r| ensures r[i].timestamp <= r[j].timestamp {
      if i == 0 {
        assert r[j] == s[j - 1];
        assert s[0].timestamp <= s[j - 1].timestamp;
      } else {
        assert r[i] == s[i - 1] && r[j] == s[j - 1];
      }
    }
  }

  lemma {:induction false} InsertByTimestampSorted(m: Message, sorted: seq<Message>)
    requires SortedByTimestamp(sorted)
    ensures SortedByTimestamp(InsertByTimestamp(m, sorted))
    ensures InsertByTimestamp(m, sorted)[0].timestamp
         == if sorted == [] || m.timestamp <= sorted[0].timestamp then m.timestamp else sorted[0].timestamp
  {
    if sorted == [] || m.timestamp <= sorted[0].timestamp {
      PrependSorted(m, sorted);
    } else {
      var rest := sorted[1..];
      assert SortedByTimestamp(rest);
      InsertByTimestampSorted(m, rest);
      var inserted := InsertByTimestamp(m, rest);
      assert rest != [] ==> sorted[0].timestamp <= rest[0].timestamp;
      PrependSorted(sorted[0], inserted);
    }
  }

  lemma {:induction false} InsertByTimestampWithTimestamp(m: Message, sorted: seq<Message>, t: int)
    ensures WithTimestamp(InsertByTimestamp(m, sorted), t)
         == (if m.timestamp == t then [m] else []) + WithTimestamp(sorted, t)
  {
    var r := InsertByTimestamp(m, sorted);
    if sorted == [] || m.timestamp <= sorted[0].timestamp {
      assert r == [m] + sorted;
      assert r[0] == m && r[1..] == sorted;
    } else {
      var head, rest := sorted[0], sorted[1..];
      var inserted := InsertByTimestamp(m, rest);
      assert r == [head] + inserted;
      assert r[0] == head && r[1..] == inserted;
      InsertByTimestampWithTimestamp(m, rest, t);
      var h := if head.timestamp == t then [head] else [];
      var p := if m.timestamp == t then [m] else [];
      assert WithTimestamp(r, t) == h + (p + WithTimestamp(rest, t));
      assert WithTimestamp(sorted, t) == h + WithTimestamp(rest, t);
      assert h == [] || p == [];
    }
  }

  /** The displayed order is ordered by timestamp and a permutation of the
      contact's messages. */
  lemma {:induction false} SortByTimestampSortedPermutation(ms: seq<Message>)
    ensures SortedByTimestamp(SortByTimestamp(ms))
    ensures multiset(SortByTimestamp(ms)) == multiset(ms)
    ensures |SortByTimestamp(ms)| == |ms|
  {
    if ms != [] {
      var tail := SortByTimestamp(ms[1..]);
      SortByTimestampSortedPermutation(ms[1..]);
      InsertByTimestampSorted(ms[0], tail);
      InsertByTimestampPermutes(ms[0], tail);
      assert SortByTimestamp(ms) == InsertByTimestamp(ms[0], tail);
      assert ms == [ms[0]] + ms[1..];
      assert multiset(ms) == multiset(ms[1..]) + multiset{ms[0]};
    }
  }

  /** Messages with equal timestamps keep their arrival order. */
  lemma {:induction false} SortByTimestampStable(ms: seq<Message>, t: int)
    ensures WithTimestamp(SortByTimestamp(ms), t) == WithTimestamp(ms, t)
  {
    if ms != [] {
      SortByTimestampStable(ms[1..], t);
      InsertByTimestampWithTimestamp(ms[0], SortByTimestamp(ms[1..]), t);
    }
  }

  lemma SortByTimestampIsStableSort(ms: seq<Message>)
    ensures IsStableSortOf(SortByTimestamp(ms), ms)
  {
    SortByTimestampSortedPermutation(ms);
    forall t ensures WithTimestamp(SortByTimestamp(ms), t) == WithTimestamp(ms, t) {
      SortByTimestampStable(ms, t);
    }
  }

  lemma {:induction false} WithTimestampNonEmpty(ms: seq<Message>, t: int)
    requires WithTimestamp(ms, t) != []
    ensures exists j :: 0 <= j < |ms| && ms[j].timestamp == t
  {
    if ms[0].timestamp != t {
      WithTimestampNonEmpty(ms[1..], t);
      var j :| 0 <= j < |ms[1..]| && ms[1..][j].timestamp == t;
      assert ms[j + 1].timestamp == t;
    }
  }

  /** The last bubble is one of the messages and none is newer. */
  lemma SortedLastIsLatest(ms: seq<Message>)
    requires ms != []
    ensures var sorted := SortByTimestamp(ms);
            && |sorted| == |ms|
            && sorted[|sorted| - 1] in ms
            && forall m :: m in ms ==> m.timestamp <= sorted[|sorted| - 1].timestamp
  {
    var sorted := SortByTimestamp(ms);
    SortByTimestampSortedPermutation(ms);
    var last := sorted[|sorted| - 1];
    assert last in multiset(sorted);
    forall m | m in ms ensures m.timestamp <= last.timestamp {
      assert m in multiset(ms);
      assert m in sorted;
    }
  }

  lemma HeadTimestampClassNonEmpty(ms: seq<Message>)
    requires ms != []
    ensures WithTimestamp(ms, ms[0].timestamp) != []
  {
  }

  /** Two sequences ordered by timestamp that agree on the messages of every
      timestamp are equal. */
  lemma {:induction false} SortedWithSameTimestampClassesEqual(a: seq<Message>, b: seq<Message>)
    requires SortedByTimestamp(a) && SortedByTimestamp(b)
    requires forall t :: WithTimestamp(a, t) == WithTimestamp(b, t)
    ensures a == b
    decreases |a| + |b|
  {
    if a == [] && b == [] {
    } else if a == [] {
      HeadTimestampClassNonEmpty(b);
      assert false;
    } else if b == [] {
      HeadTimestampClassNonEmpty(a);
      assert false;
    } else {
      var ta, tb := a[0].timestamp, b[0].timestamp;
      assert WithTimestamp(a, ta) != [];
      WithTimestampNonEmpty(b, ta);
      assert WithTimestamp(b, tb) != [];
      WithTimestampNonEmpty(a, tb);
      assert ta == tb;
      assert WithTimestamp(a, ta) == [a[0]] + WithTimestamp(a[1..], ta);
      assert WithTimestamp(b, ta) == [b[0]] + WithTimestamp(b[1..], ta);
      assert WithTimestamp(a, ta) == WithTimestamp(b, ta);
      assert a[0] == WithTimestamp(a, ta)[0] == WithTimestamp(b, ta)[0] == b[0];
      forall t ensures WithTimestamp(a[1..], t) == WithTimestamp(b[1..], t) {
        var pre := if ta == t then [a[0]] else [];
        assert WithTimestamp(a, t) == pre + WithTimestamp(a[1..], t);
        assert WithTimestamp(b, t) == pre + WithTimestamp(b[1..], t);
        assert WithTimestamp(a, t) == WithTimestamp(b, t);
        assert WithTimestamp(a[1..], t) == WithTimestamp(a, t)[|pre|..];
        assert WithTimestamp(b[1..], t) == WithTimestamp(b, t)[|pre|..];
      }
      SortedWithSameTimestampClassesEqual(a[1..], b[1..]);
      assert a == [a[0]] + a[1..] && b == [b[0]] + b[1..];
    }
  }

  /** A stable sort by timestamp has exactly one possible result, so the
      order the screen shows is fully determined by `sortedBy` being stable. */
  lemma StableSortIsUnique(out: seq<Message>, ms: seq<Message>)
    requires IsStableSortOf(out, ms)
    ensures out == SortByTimestamp(ms)
  {
    SortByTimestampIsStableSort(ms);
    SortedWithSameTimestampClassesEqual(out, SortByTimestamp(ms));
  }

  /** What the chat screen shows. */
  datatype ChatView =
    | ContactNotFound
    | NoMessages(contactName: string)
    | MessageBubbles(contactName: string, bubbles: seq<Message>)

  /** `MessageList`: the contact's messages sorted by timestamp, or the
      "No messages" text when the sorted list is empty. */
  function MessageListContent(c: Contact): (view: ChatView)
    ensures !view.ContactNotFound? && view.contactName == c.name
    ensures view.NoMessages? <==> c.messages == []
  {
    var sortedMessages := SortByTimestamp(c.messages);
    if |sortedMessages| == 0 then NoMessages(c.name) else MessageBubbles(c.name, sortedMessages)
  }

  /** `MessageScreen`: "Contact not found" when no contact has the id,
      otherwise that contact's message list. */
  function MessageScreenContent(cs: seq<Contact>, contactId: string): (view: ChatView)
    ensures view.ContactNotFound? <==> forall i :: 0 <= i < |cs| ==> cs[i].id != contactId
    ensures !view.ContactNotFound? ==> exists k :: Service.IsFirstWithId(cs, k, contactId) && view == MessageListContent(cs[k])
  {
    match FindContact(cs, contactId)
    case None => ContactNotFound
    case Some(contact) => MessageListContent(contact)
  }

  /** The "No messages" branch is taken exactly for a contact without
      messages; otherwise every message is shown once, stably ordered by
      timestamp. */
  lemma MessageListShowsEveryMessage(c: Contact)
    ensures MessageListContent(c).NoMessages? <==> c.messages == []
    ensures MessageListContent(c).MessageBubbles? ==>
              && IsStableSortOf(MessageListContent(c).bubbles, c.messages)
              && multiset(MessageListContent(c).bubbles) == multiset(c.messages)
  {
    SortByTimestampSortedPermutation(c.messages);
    SortByTimestampIsStableSort(c.messages);
  }

  /** On a well-formed table the "No messages" branch is never reached. */
  lemma WellFormedTableNeverShowsNoMessages(cs: seq<Contact>, contactId: string)
    requires Service.WellFormed(cs)
    ensures !MessageScreenContent(cs, contactId).NoMessages?
  {
    var found := FindContact(cs, contactId);
    if found.Some? {
      MessageListShowsEveryMessage(found.value);
    }
  }

  /** A chat screen composed on the table after a post, for the sender's
      id, shows the new message. */
  lemma PostedMessageIsDisplayed(cs: seq<Contact>, name: string, m: Message)
    ensures MessageScreenContent(Service.Ingest(cs, name, m), Service.ContactId(name)).MessageBubbles?
    ensures m in MessageScreenContent(Service.Ingest(cs, name, m), Service.ContactId(name)).bubbles
  {
    var id := Service.ContactId(name);
    var r := Service.Ingest(cs, name, m);
    Service.IngestMessagesOf(cs, name, m, id);
    var found := FindContact(r, id);
    assert Service.MessagesOf(r, id) == Service.MessagesOf(cs, id) + [m];
    assert found.Some? && found.value.messages == Service.MessagesOf(r, id);
    MessageListShowsEveryMessage(found.value);
    assert m in multiset(found.value.messages);
  }

  /** Two notifications from one new sender: the chat shows them in
      timestamp order, which is their arrival order only when the second is
      not older than the first. */
  lemma TwoPostsFromOneSenderDisplayed(name: string, m1: Message, m2: Message)
    ensures MessageScreenContent(Service.IngestAll([], name, [m1, m2]), Service.ContactId(name))
         == MessageBubbles(name, if m1.timestamp <= m2.timestamp then [m1, m2] else [m2, m1])
  {
    var id := Service.ContactId(name);
    Service.PostsFromOneSenderIntoEmptyTable(name, [m1, m2]);
    var table := [Contact(id, name, [m1, m2])];
    assert Service.IsFirstWithId(table, 0, id);
    assert FindContact(table, id) == Some(table[0]);
    assert [m1, m2][1..] == [m2];
    assert SortByTimestamp([m2]) == [m2] by {
      assert [m2][1..] == [];
    }
    assert [m2][1..] == [];
    assert SortByTimestamp([m1, m2]) == InsertByTimestamp(m1, [m2]);
    assert InsertByTimestamp(m1, [m2]) == if m1.timestamp <= m2.timestamp then [m1, m2] else [m2, m1];
  }
}
