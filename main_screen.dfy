/**
 * The contacts list: a placeholder when the table is empty, otherwise one
 * card per contact showing its name, its message count and a preview of
 * its latest message.
 */
module MainScreen {
  import opened Wrappers
  import opened ContactItems
  import Service
  import MessageScreen

  /** `k` is where `maxByOrNull { it.timestamp }` stops: a message with the
      largest timestamp, and no earlier message has that timestamp. */
  ghost predicate IsFirstLatest(ms: seq<Message>, k: int)
  {
    && 0 <= k < |ms|
    && (forall i :: 0 <= i < |ms| ==> ms[i].timestamp <= ms[k].timestamp)
    && (forall i :: 0 <= i < k ==> ms[i].timestamp < ms[k].timestamp)
  }

  /** The position `maxByOrNull` picks: it scans in order and replaces its
      candidate only on a strictly larger timestamp. */
  function MaxByTimestampIndex(ms: seq<Message>): (k: nat)
    requires ms != []
    ensures IsFirstLatest(ms, k)
  {
    if |ms| == 1 then 0
    else
      var best := MaxByTimestampIndex(ms[..|ms| - 1]);
      if ms[best].timestamp < ms[|ms| - 1].timestamp then |ms| - 1 else best
  }

  /** Kotlin's `messages.maxByOrNull { it.timestamp }`. */
  function LatestMessage(ms: seq<Message>): (r: Option<Message>)
    ensures r.None? <==> ms == []
    ensures r.Some? ==> exists k :: IsFirstLatest(ms, k) && r.value == ms[k]
  {
    if ms == [] then None else Some(ms[MaxByTimestampIndex(ms)])
  }

  /** What one contact card shows. */
  datatype ContactCard = ContactCard(name: string, messageCount: nat, preview: Option<Message>)

  /** What the contacts list shows. */
  datatype ContactsListView = EmptyPlaceholder | ContactCards(cards: seq<ContactCard>)

  /** `ContactCard`: the name, `messages.size`, and the latest message when
      the list is not empty. */
  function CardOf(contact: Contact): (card: ContactCard)
    ensures card.name == contact.name && card.messageCount == |contact.messages|
    ensures card.preview.Some? <==> contact.messages != []
  {
    ContactCard(
      contact.name,
      |contact.messages|,
      if |contact.messages| != 0 then LatestMessage(contact.messages) else None)
  }

  /** `ContactsListScreen`: the placeholder text for an empty list, otherwise
      a card per contact, in table order. */
  function ContactsListContent(contacts: seq<Contact>): (view: ContactsListView)
    ensures view.EmptyPlaceholder? <==> contacts == []
    ensures view.ContactCards? ==>
              |view.cards| == |contacts| && forall i :: 0 <= i < |contacts| ==> view.cards[i] == CardOf(contacts[i])
  {
    if |contacts| == 0 then EmptyPlaceholder
    else ContactCards(seq(|contacts|, i requires 0 <= i < |contacts| => CardOf(contacts[i])))
  }

  /** On a well-formed table the placeholder is shown exactly when no
      notification is held at all. */
  lemma PlaceholderIffNoMessages(cs: seq<Contact>)
    requires Service.WellFormed(cs)
    ensures ContactsListContent(cs).EmptyPlaceholder? <==> Service.AllMessages(cs) == []
  {
    if cs != [] {
      assert cs[0].messages != [];
      assert Service.AllMessages(cs) == cs[0].messages + Service.AllMessages(cs[1..]);
    }
  }

  /** After any post the placeholder is gone. */
  lemma NoPlaceholderAfterPost(cs: seq<Contact>, name: string, m: Message)
    ensures ContactsListContent(Service.Ingest(cs, name, m)).ContactCards?
  {
    Service.IngestRegistersSender(cs, name, m);
  }

  /** A card's count is the number of bubbles its chat screen shows, and a
      card has a preview exactly when that chat has bubbles. */
  lemma CardMatchesChat(c: Contact)
    ensures CardOf(c).messageCount == |MessageScreen.SortByTimestamp(c.messages)|
    ensures CardOf(c).preview.Some? <==> MessageScreen.MessageListContent(c).MessageBubbles?
  {
    MessageScreen.SortByTimestampSortedPermutation(c.messages);
  }

  /** The preview is an element of the contact's messages with the largest
      timestamp, and no earlier message carries that timestamp. */
  lemma PreviewIsFirstLatest(c: Contact)
    requires c.messages != []
    ensures var ms, preview := c.messages, CardOf(c).preview;
            && preview.Some?
            && exists k ::
                 && 0 <= k < |ms| && ms[k] == preview.value
                 && (forall i :: 0 <= i < |ms| ==> ms[i].timestamp <= preview.value.timestamp)
                 && (forall i :: 0 <= i < k ==> ms[i].timestamp < preview.value.timestamp)
  {
    var k := MaxByTimestampIndex(c.messages);
    assert CardOf(c).preview.value == c.messages[k];
    assert IsFirstLatest(c.messages, k);
  }

  /** The preview carries the timestamp of the last bubble of the chat
      screen. When several messages share that timestamp the preview is the
      first of them while the last bubble is the last of them. */
  lemma PreviewHasNewestBubbleTimestamp(c: Contact)
    requires c.messages != []
    ensures var bubbles := MessageScreen.SortByTimestamp(c.messages);
            |bubbles| == |c.messages| && CardOf(c).preview.value.timestamp == bubbles[|bubbles| - 1].timestamp
  {
    var ms := c.messages;
    var bubbles := MessageScreen.SortByTimestamp(ms);
    MessageScreen.SortedLastIsLatest(ms);
    var k := MaxByTimestampIndex(ms);
    assert CardOf(c).preview.value == ms[k];
    assert IsFirstLatest(ms, k);
  }

  /** After a first run of posts under one title into an empty table, the
      list shows one card with that title and one count per post. */
  lemma CardAfterPostsFromOneSender(name: string, ms: seq<Message>)
    requires ms != []
    ensures var view := ContactsListContent(Service.IngestAll([], name, ms));
            && view.ContactCards? && |view.cards| == 1
            && view.cards[0].name == name && view.cards[0].messageCount == |ms|
  {
    Service.PostsFromOneSenderIntoEmptyTable(name, ms);
  }
}
