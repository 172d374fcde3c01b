/**
 * The values the notification listener and the screens pass around:
 * a message per observed notification, a contact grouping the messages of
 * one sender, and the fields of a posted status-bar notification the
 * listener reads.
 */
module ContactItems {
  import opened Wrappers

  /** One observed notification. `timestamp` is the post time in
      milliseconds; `timeString` is its formatted clock time, taken as given. */
  datatype Message = Message(id: string, content: string, timestamp: int, timeString: string)

  /** A sender bucket: the id derived from the name, the name (the first
      title seen for that id) and the messages in arrival order. */
  datatype Contact = Contact(id: string, name: string, messages: seq<Message>)

  /** The parts of a posted notification the listener reads. `title` is
      what `getString` returns for the title extra: `None` when the title
      is missing or is not a plain `String` (styled text included). `text`
      is the text extra read as a `CharSequence` and converted to a string,
      `None` when missing. `formattedTime` is what the time formatter
      returns for `postTime`. */
  datatype StatusBarNotification = StatusBarNotification(
    key: string,
    title: Option<string>,
    text: Option<string>,
    packageName: string,
    postTime: int,
    formattedTime: string)

  /** Kotlin's `x ?: ""` on a nullable string. */
  function OrEmpty(s: Option<string>): string
  {
    match s
    case Some(v) => v
    case None => ""
  }
}
