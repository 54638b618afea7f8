/** The records the dashboard works on: conversations with their messages,
    and automation sequences with their delivery counters. All of them are
    values supplied whole by the data source; nothing here mutates them. */
module Records {
  import opened Options

  datatype MessageStatus = Delivered | Read | Scheduled | Failed

  datatype Sender = Agent | Contact

  datatype Message = Message(
    id: string,
    sender: Sender,
    content: string,
    timestamp: string,
    status: Option<MessageStatus>,
    followUp: Option<string>)

  datatype Sentiment = Positive | Neutral | Negative

  datatype Priority = High | Medium | Low

  datatype Channel = WhatsApp | Instagram | SMS

  /** A conversation; `messages` is in chronological order. */
  datatype Chat = Chat(
    id: string,
    contactName: string,
    phone: string,
    tags: seq<string>,
    lastInteraction: string,
    unread: nat,
    sentiment: Sentiment,
    priority: Priority,
    messages: seq<Message>,
    channel: Channel)

  datatype SequenceType = Broadcast | Drip | FollowUp

  /** Campaign counters; the source types them as numbers and only ever
      holds non-negative whole counts in them. */
  datatype Performance = Performance(delivered: nat, read: nat, replies: nat)

  datatype Sequence = Sequence(
    id: string,
    title: string,
    kind: SequenceType,
    performance: Performance,
    nextRun: Option<string>)
}
