/**
  The dispatch half of `exec`: which pub/sub backend operation a parsed
  command is forwarded to, and with which arguments. The backend operations
  themselves, and the errors they return, belong to the backend client and
  are not part of this model.
 */
module BackendCalls {
  import opened CommandParser

  /** One call on the backend: publish on the shared client, or one of the
      four subscription changes on the connection's subscription context. */
  datatype Call =
    | PublishCall(channel: seq<char>, payload: seq<char>)
    | SubscribeCall(channels: seq<seq<char>>)
    | PSubscribeCall(patterns: seq<seq<char>>)
    | UnsubscribeCall(channels: seq<seq<char>>)
    | PUnsubscribeCall(patterns: seq<seq<char>>)

  /** `exec`: publish sends the payload to the first channel; every other
      kind passes its whole name list on. Reading the first channel of a
      publish command with no channel would panic, hence the precondition.
      A subscribe-family call carries the kind and every name (a payload is
      not passed on); a publish call drops every channel after the first. */
  function Exec(c: Command): (call: Call)
    requires c.kind == Publish ==> c.channels != []
    ensures c.kind != Publish ==> CommandOf(call) == c.(payload := [])
    ensures c.kind == Publish ==> CommandOf(call) == Command(Publish, c.channels[..1], c.payload)
  {
    match c.kind
    case Publish => PublishCall(c.channels[0], c.payload)
    case Subscribe => SubscribeCall(c.channels)
    case PSubscribe => PSubscribeCall(c.channels)
    case Unsubscribe => UnsubscribeCall(c.channels)
    case PUnsubscribe => PUnsubscribeCall(c.channels)
  }

  /** The command a backend call stands for. */
  function CommandOf(call: Call): Command {
    match call
    case PublishCall(channel, payload) => Command(Publish, [channel], payload)
    case SubscribeCall(names) => Command(Subscribe, names, [])
    case PSubscribeCall(names) => Command(PSubscribe, names, [])
    case UnsubscribeCall(names) => Command(Unsubscribe, names, [])
    case PUnsubscribeCall(names) => Command(PUnsubscribe, names, [])
  }

  /** `exec` loses nothing of a command a frame can carry: the command is
      recovered from the call it becomes. */
  lemma ExecRoundTrip(c: Command)
    requires Sendable(c)
    ensures CommandOf(Exec(c)) == c
  {
    if c.kind == Publish {
      assert c.channels == [c.channels[0]];
    }
  }

  /** Every command the parser accepts can be executed (publish has its
      channel), and `exec` loses nothing of it. */
  lemma ParsedCommandsExecute(message: seq<char>)
    requires Parse(message).Ok?
    ensures var c := Parse(message).value;
      (c.kind == Publish ==> c.channels != []) && CommandOf(Exec(c)) == c
  {
    ParseSound(message);
    ExecRoundTrip(Parse(message).value);
  }

  /** Distinct accepted commands lead to distinct backend calls. */
  lemma ExecInjective(c: Command, d: Command)
    requires Sendable(c) && Sendable(d)
    requires Exec(c) == Exec(d)
    ensures c == d
  {
    ExecRoundTrip(c);
    ExecRoundTrip(d);
  }
}
