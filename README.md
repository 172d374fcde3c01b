# Notification-to-contact aggregation, modelled in Dafny

This project models the logic core of a small Android notification reader.
The listener service receives every posted status-bar notification. It turns
each one into a message and groups the messages by sender into "contacts",
held in one process-wide list. Two screens read that list. The contacts list
shows one card per contact: name, message count, latest message. The chat
screen shows one contact's messages ordered by time.

What is modelled:

- `JavaString`: the contact id of a sender, which is `title.hashCode().toString()`.
  `String.hashCode` is modelled concretely. It runs over UTF-16 code units
  and wraps to a 32-bit two's-complement `int` at every step. `Int.toString`
  is modelled as decimal digits with a leading `-`. The model proves three
  things. The step-by-step hash equals the closed form from the Java API
  documentation, wrapped to 32 bits. `toString` is injective. The hash is
  not: "Aa" and "BB" collide.
- `ContactItems`: `Message` (id, content, timestamp, formatted time),
  `Contact` (id, name, messages) and the fields of a posted notification.
- `Service`: the contact table as pure functions (`Ingest`, `IndexOfFirst`),
  its invariants and lemmas. The class `NotificationService` has a
  `contacts` field standing for the companion object's `_contacts` cell. It
  has one method per source operation, and each method's contract gives the
  new table. `AddNotification` is proved to have exactly the effect of
  `Ingest`.
- `MessageScreen`: the lookup by id (`find`) and the stable sort by timestamp
  (`sortedBy`). The model proves the sort is ordered, is a permutation, is
  stable, and is the only result a stable sort can give.
- `MainScreen`: the empty-list placeholder, the card count and the preview
  chosen by `maxByOrNull` (the first message with the largest timestamp).

Points where the code behaves differently from what its names suggest:

- The code has no message or contact deletion. MainScreen.kt calls
  `deleteNotification` and `deleteContact`, but the service does not define
  them. `deleteNotification` is called only from `NotificationCard`, which no
  screen renders. `ContactCard` calls only `deleteContact`.
- A contact carries no app name or package. `addContact` builds the contact
  from the id, the name and the messages only.
- Ids are not guaranteed unique per sender name. A title whose hash collides
  with an earlier title joins the earlier contact, and the contact keeps the
  earlier name.
- `addContact` computes `existingContactIndex` but never uses it. It always
  appends, and only the guard in `addNotification` keeps ids unique.

## Model

| member | source | states |
|---|---|---|
| JavaString.HashCode | app/src/main/java/com/example/notifss/service/NotificationService.kt:82 | `hashCode` of a title is a 32-bit int; its closed form is proved in HashCodeIsWrappedPolynomial and its collisions in HashCodeCollides |
| JavaString.IntToString | app/src/main/java/com/example/notifss/service/NotificationService.kt:82 | `toString` of an int is non-empty and starts with `-` exactly for a negative int; injectivity is proved in IntToStringInjective |
| Service.ContactId | app/src/main/java/com/example/notifss/service/NotificationService.kt:82 | the id of a title is the decimal form of its hash code: non-empty, with a leading `-` exactly when the hash is negative; ContactIdSameIffHashSame and ContactIdCollides state when two titles share it |
| Service.TitleOf | app/src/main/java/com/example/notifss/service/NotificationService.kt:49 | a title that `getString` cannot read as a String (missing, or styled text) becomes ""; a plain String title is kept as it is |
| Service.MessageOf | app/src/main/java/com/example/notifss/service/NotificationService.kt:50-64 | the message takes its id from the notification key, its timestamp from the post time, its time string from the formatted time, and its content from the text or "" when there is none |
| Service.Ingest | app/src/main/java/com/example/notifss/service/NotificationService.kt:66-70 | a post adds at most one contact; its full effect (append for an unseen id, extend the first holder otherwise, over lines 78-97 and 114-124) is proved in IngestChangesOnlyOneContact, IngestMessagesOf and IngestPreservesWellFormed |
| JavaString.HashCodeIsWrappedPolynomial | app/src/main/java/com/example/notifss/service/NotificationService.kt:82 | the `h = 31*h + unit` hash over UTF-16 units equals s[0]*31^(n-1)+...+s[n-1] wrapped to a 32-bit int |
| JavaString.HashCodeCollides | app/src/main/java/com/example/notifss/service/NotificationService.kt:82 | two distinct titles ("Aa", "BB") have the same hash code, 2112 |
| JavaString.IntToStringInjective | app/src/main/java/com/example/notifss/service/NotificationService.kt:82 | two ints print to the same decimal string exactly when they are equal |
| JavaString.NatToDecimalInjective | app/src/main/java/com/example/notifss/service/NotificationService.kt:82 | equal digit strings come from equal naturals |
| Service.ContactIdSameIffHashSame | app/src/main/java/com/example/notifss/service/NotificationService.kt:82 | two names get the same contact id exactly when their hash codes are equal |
| Service.ContactIdCollides | app/src/main/java/com/example/notifss/service/NotificationService.kt:82 | distinct names can share a contact id |
| Service.IndexOfFirst | app/src/main/java/com/example/notifss/service/NotificationService.kt:117 | returns -1 exactly when no contact has the id, otherwise the first position holding it |
| Service.IngestChangesOnlyOneContact | app/src/main/java/com/example/notifss/service/NotificationService.kt:66-70 | unseen id: exactly one contact {id, title, [msg]} is appended and all earlier ones stay in order; known id: the length is unchanged and only the first contact with that id changes, its messages becoming old + [msg] and its id and name unchanged |
| Service.IngestPreservesWellFormed | app/src/main/java/com/example/notifss/service/NotificationService.kt:66-70 | a post keeps ids unique, message lists non-empty and each id the one derived from the contact's name |
| Service.AppendPreservesWellFormed | app/src/main/java/com/example/notifss/service/NotificationService.kt:119-123 | appending a message to one contact keeps the table well formed |
| Service.IngestAddsExactlyOneMessage | app/src/main/java/com/example/notifss/service/NotificationService.kt:120 | the multiset of all messages grows by exactly one copy of the posted message, duplicates included, so the total count grows by one |
| Service.IngestMessagesOf | app/src/main/java/com/example/notifss/service/NotificationService.kt:114-125 | the sender's message list gains the new message at the end; the list under every other id is unchanged |
| Service.IngestRegistersSender | app/src/main/java/com/example/notifss/service/NotificationService.kt:78-97 | after a post the sender's id is in the table, and the table grew by one contact exactly when the id was absent |
| Service.IngestIds | app/src/main/java/com/example/notifss/service/NotificationService.kt:66-70 | a post adds the sender's id to the set of ids held and no other id |
| Service.UniqueIdsOneContactPerId | app/src/main/java/com/example/notifss/service/NotificationService.kt:66-70 | a table with unique ids holds exactly as many contacts as distinct ids |
| Service.IngestNotificationsPreservesWellFormed | app/src/main/java/com/example/notifss/service/NotificationService.kt:34-37 | any run of posts, from any senders, keeps the table well formed |
| Service.IngestNotificationsIds | app/src/main/java/com/example/notifss/service/NotificationService.kt:34-37 | after any run of posts the ids held are the old ids plus the id of every sender posted, and no other |
| Service.IngestNotificationsOneContactPerSender | app/src/main/java/com/example/notifss/service/NotificationService.kt:34-37 | after any run of posts on a well-formed table there is one contact per distinct id, old or posted |
| Service.RepeatedPostsFromOneSender | app/src/main/java/com/example/notifss/service/NotificationService.kt:66-70 | posts under one title all land, in arrival order, after that sender's earlier messages |
| Service.RepeatedPostsAddAtMostOneContact | app/src/main/java/com/example/notifss/service/NotificationService.kt:66-70 | any number of posts under one title add at most one contact, and add one exactly when the sender was absent |
| Service.IngestAllIntoOwnContact | app/src/main/java/com/example/notifss/service/NotificationService.kt:114-125 | posts under the name of the only contact extend that contact's messages in order |
| Service.PostsFromOneSenderIntoEmptyTable | app/src/main/java/com/example/notifss/service/NotificationService.kt:78-97 | posts under one title into an empty table give exactly one contact with that title and all the messages in arrival order |
| Service.UntitledNotificationsShareOneContact | app/src/main/java/com/example/notifss/service/NotificationService.kt:49-50 | a title that is missing, not a plain String, or empty becomes "", whose id is "0", so every such message lands in the contact with id "0" |
| Service.CollidingTitleJoinsEarlierContact | app/src/main/java/com/example/notifss/service/NotificationService.kt:114-124 | a later title that only collides in id joins the earlier contact, which keeps the earlier name |
| Service.NotificationService.constructor | app/src/main/java/com/example/notifss/service/NotificationService.kt:20 | the table starts empty |
| Service.NotificationService.ClearNotifications | app/src/main/java/com/example/notifss/service/NotificationService.kt:23-25 | the table is empty afterwards, whatever it held |
| Service.NotificationService.OnNotificationRemoved | app/src/main/java/com/example/notifss/service/NotificationService.kt:39-44 | a system removal leaves the table unchanged |
| Service.NotificationService.OnNotificationPosted | app/src/main/java/com/example/notifss/service/NotificationService.kt:34-37 | the table becomes Ingest(old table, title, message) and stays well formed |
| Service.NotificationService.AddNotification | app/src/main/java/com/example/notifss/service/NotificationService.kt:46-72 | the contactExists / addMessageToContact / addContact dispatch has exactly the effect of Ingest |
| Service.NotificationService.AddContact | app/src/main/java/com/example/notifss/service/NotificationService.kt:78-97 | appends {id of name, name, [msg]} at the end without consulting the table |
| Service.NotificationService.ContactExists | app/src/main/java/com/example/notifss/service/NotificationService.kt:100-104 | holds exactly when the same id lookup in addMessageToContact finds a position |
| Service.NotificationService.AddMessageToContact | app/src/main/java/com/example/notifss/service/NotificationService.kt:114-126 | replaces only the first contact with the id by the same contact with the message appended; no change when none has it |
| MessageScreen.FindContact | app/src/main/java/com/example/notifss/ui/MessageScreen.kt:36-37 | none exactly when no contact has the id, otherwise the first contact in table order with that id |
| MessageScreen.SortByTimestamp | app/src/main/java/com/example/notifss/ui/MessageScreen.kt:96 | the sorted list has as many messages as the contact; that it is ordered, a permutation and stable is proved in the lemmas below |
| MessageScreen.SortByTimestampSortedPermutation | app/src/main/java/com/example/notifss/ui/MessageScreen.kt:96 | the displayed list is non-decreasing by timestamp, a permutation of the contact's messages and of the same length |
| MessageScreen.SortByTimestampStable | app/src/main/java/com/example/notifss/ui/MessageScreen.kt:96 | for each timestamp, the messages carrying it appear in arrival order |
| MessageScreen.SortByTimestampIsStableSort | app/src/main/java/com/example/notifss/ui/MessageScreen.kt:96 | the displayed list is a stable sort by timestamp of the messages |
| MessageScreen.SortedWithSameTimestampClassesEqual | app/src/main/java/com/example/notifss/ui/MessageScreen.kt:96 | two timestamp-ordered lists agreeing on every timestamp's messages are equal |
| MessageScreen.StableSortIsUnique | app/src/main/java/com/example/notifss/ui/MessageScreen.kt:96 | any stable sort by timestamp of the messages equals the modelled one |
| MessageScreen.SortedLastIsLatest | app/src/main/java/com/example/notifss/ui/MessageScreen.kt:96 | the last displayed message is one of the messages and none is newer |
| MessageScreen.MessageListContent | app/src/main/java/com/example/notifss/ui/MessageScreen.kt:94-118 | takes the "No messages" branch exactly when the contact has no messages; MessageListShowsEveryMessage states what the bubbles are. The view also carries the contact's name, which the screen's top bar shows (MessageScreen.kt:56) |
| MessageScreen.MessageScreenContent | app/src/main/java/com/example/notifss/ui/MessageScreen.kt:34-88 | "Contact not found" exactly when no contact has the id, otherwise exactly the message list of the first contact holding the id (`find`, then `MessageList(contact)`); PostedMessageIsDisplayed ties it to a post |
| MessageScreen.MessageListShowsEveryMessage | app/src/main/java/com/example/notifss/ui/MessageScreen.kt:94-118 | "No messages" is shown exactly when the contact has no messages; otherwise every message is shown, stably ordered by timestamp |
| MessageScreen.WellFormedTableNeverShowsNoMessages | app/src/main/java/com/example/notifss/ui/MessageScreen.kt:98-106 | on a well-formed table the "No messages" branch is never reached |
| MessageScreen.PostedMessageIsDisplayed | app/src/main/java/com/example/notifss/ui/MessageScreen.kt:34-88 | a chat screen opened on the sender's id after a post shows bubbles, and the new message is among them |
| MessageScreen.TwoPostsFromOneSenderDisplayed | app/src/main/java/com/example/notifss/ui/MessageScreen.kt:96 | two posts from a new sender are shown in timestamp order, which differs from arrival order when the second is older |
| MainScreen.MaxByTimestampIndex | app/src/main/java/com/example/notifss/ui/MainScreen.kt:265 | the picked position holds a largest timestamp and every earlier message is strictly older |
| MainScreen.LatestMessage | app/src/main/java/com/example/notifss/ui/MainScreen.kt:265 | null exactly for an empty list, otherwise the first message with the largest timestamp |
| MainScreen.CardOf | app/src/main/java/com/example/notifss/ui/MainScreen.kt:256-266 | a card shows the contact's name and its number of messages, and has a preview exactly when the contact has a message |
| MainScreen.ContactsListContent | app/src/main/java/com/example/notifss/ui/MainScreen.kt:134-150 | the placeholder is shown exactly for an empty list, otherwise one card per contact in table order |
| MainScreen.PlaceholderIffNoMessages | app/src/main/java/com/example/notifss/ui/MainScreen.kt:134-141 | on a well-formed table the placeholder is shown exactly when no message is held at all |
| MainScreen.NoPlaceholderAfterPost | app/src/main/java/com/example/notifss/ui/MainScreen.kt:134 | after any post the list shows cards |
| MainScreen.CardMatchesChat | app/src/main/java/com/example/notifss/ui/MainScreen.kt:256 | the count on a card equals the number of bubbles in that contact's chat screen, and the preview is present exactly when there are bubbles |
| MainScreen.PreviewIsFirstLatest | app/src/main/java/com/example/notifss/ui/MainScreen.kt:264-266 | the preview is one of the contact's messages, none is newer, and none before it has its timestamp |
| MainScreen.PreviewHasNewestBubbleTimestamp | app/src/main/java/com/example/notifss/ui/MainScreen.kt:265 | the preview carries the timestamp of the chat screen's last bubble |
| MainScreen.CardAfterPostsFromOneSender | app/src/main/java/com/example/notifss/ui/MainScreen.kt:256 | after n posts under one title into an empty table the list shows one card with that title and count n |

## Left out

- LiveData's `postValue` is asynchronous. The model treats every update as a synchronous assignment of `contacts`. In the app, a read of `_contacts.value` right after a post may be stale, so two quick notifications could lose one update. That is a threading effect and is not modelled.
- The Android service lifecycle (`onListenerConnected`, `onBind`) and the observers of the LiveData are not modelled.
- The chat screen reads the table once, when it is composed, and does not observe it. An open chat screen is therefore not redrawn by a later post and keeps showing the old messages. The model does not capture this one-time snapshot. Its chat view is a function of the table it is given, so its lemmas are about a chat screen opened after the post.
- Service.TitleOf: the model does not tell a styled title from a missing one. `getString` returns null for a title stored as styled text (a `CharSequence` that is not a `String`), so such a title reads as `None` and becomes "", exactly like a missing title.
- Formatting the post time with `SimpleDateFormat` and the default locale is not modelled. The formatted string is an input field of the notification (`formattedTime`).
- `packageName` is read from the notification but never used, so it appears only as an input field.
- Timestamps are Kotlin `Long` values. Here they are unbounded integers, which is exact because they are only compared.
- Java strings can hold unpaired surrogates. Dafny strings hold only Unicode scalar values, so those titles are outside the model. Every other title is hashed over its exact UTF-16 code units.
- Deleting a message or a contact: MainScreen.kt calls `NotificationService.deleteNotification` (from the unrendered `NotificationCard`) and `deleteContact` (from `ContactCard`), but neither exists in the service, so there is nothing to model.
- Compose layout, navigation, icons, drawables and colours are not modelled. The screens are reduced to which branch they take and which messages they show. The card's count label text (the number followed by a fixed suffix) is reduced to the number.
- MainActivity.kt, PermissionManager.kt, NotificationManager.kt, UIComponentManager.kt and NotificationItem.kt are not part of this model. They are platform wrappers and UI glue with no table logic.
- The declared `ContactItem` has no `messages` field and has app fields that the service never fills. The model follows the shape the service and the screens use: id, name, messages.
