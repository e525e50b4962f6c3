/**
  The text command protocol of the WebSocket pub/sub bridge: one client frame
  is parsed into a `Command` (publish, or one of the four subscribe-family
  operations) or rejected with the single error "invalid command".
 */
module CommandParser {
  import opened GoStrings

  /** `commandType`: the five operations a client can ask for. */
  datatype CommandKind = Publish | Subscribe | PSubscribe | Unsubscribe | PUnsubscribe

  /** `command`: the operation, its channel (or pattern) names, and for
      `Publish` the message to send. */
  datatype Command = Command(kind: CommandKind, channels: seq<seq<char>>, payload: seq<char>)

  datatype Result<T> = Ok(value: T) | Err(error: seq<char>)

  /** The one error text `parseCommand` ever returns. */
  const InvalidCommand: seq<char> := "invalid command"

  /** The verb that names each kind on the wire, in lower case. */
  function VerbName(k: CommandKind): (v: seq<char>)
    ensures v != []
    ensures forall i :: 0 <= i < |v| ==> 'a' <= v[i] <= 'z'
  {
    match k
    case Publish => "publish"
    case Subscribe => "subscribe"
    case PSubscribe => "psubscribe"
    case Unsubscribe => "unsubscribe"
    case PUnsubscribe => "punsubscribe"
  }

  /** The frame after every newline became a blank and the white space at
      both ends was trimmed. */
  function Normalize(message: seq<char>): (line: seq<char>)
    ensures '\n' !in line
    ensures Trimmed(line)
  {
    var replaced := ReplaceAll(message, '\n', ' ');
    var line := TrimSpace(replaced);
    assert '\n' !in replaced;
    line
  }

  /** The subscribe-family branches: the rest of the line, cut at every blank.
      `strings.Split` never returns an empty list, so the rejection branch
      cannot be taken: the names always join back to the rest. */
  function ParseNames(kind: CommandKind, rest: seq<char>): (r: Result<Command>)
    ensures r.Ok? && r.value.kind == kind && r.value.payload == []
    ensures Join(r.value.channels, ' ') == rest
    ensures forall i :: 0 <= i < |r.value.channels| ==> ' ' !in r.value.channels[i]
  {
    var channels := Split(rest, ' ');
    if |channels| == 0 then Err(InvalidCommand)
    else Ok(Command(kind, channels, []))
  }

  /** The `switch` of `parseCommand` on the lower-cased verb, given the rest
      of the line after the first blank. */
  function Dispatch(verb: seq<char>, rest: seq<char>): (r: Result<Command>)
    ensures r.Err? ==> r.error == InvalidCommand
  {
    if verb == "publish" then
      var args := SplitOnce(rest, ' ');
      if |args| < 2 then Err(InvalidCommand)
      else Ok(Command(Publish, [args[0]], args[1]))
    else if verb == "subscribe" then ParseNames(Subscribe, rest)
    else if verb == "psubscribe" then ParseNames(PSubscribe, rest)
    else if verb == "unsubscribe" then ParseNames(Unsubscribe, rest)
    else if verb == "punsubscribe" then ParseNames(PUnsubscribe, rest)
    else Err(InvalidCommand)
  }

  /** `parseCommand`: normalise the frame, cut it at its first blank into the
      verb and the rest, and dispatch on the lower-cased verb. */
  function Parse(message: seq<char>): (r: Result<Command>)
    ensures r.Err? ==> r.error == InvalidCommand
  {
    var strs := SplitOnce(Normalize(message), ' ');
    if |strs| != 2 then Err(InvalidCommand)
    else Dispatch(ToLower(strs[0]), strs[1])
  }

  /** Once the frame is known to normalise to `verb + " " + rest` with no
      blank in `verb`, parsing is dispatching on the lower-cased verb. */
  lemma ParseIsDispatch(message: seq<char>, verb: seq<char>, rest: seq<char>)
    requires Normalize(message) == verb + " " + rest && ' ' !in verb
    ensures Parse(message) == Dispatch(ToLower(verb), rest)
  {
    SplitOnceAt(verb, rest, ' ');
  }

  /** The argument text of a command as the wire protocol writes it:
      `<channel> <payload...>` for publish, the names joined by blanks for
      the subscribe family. */
  function Args(c: Command): seq<char>
    requires c.channels != []
  {
    if c.kind == Publish then c.channels[0] + " " + c.payload else Join(c.channels, ' ')
  }

  /** The line that carries a command: `<verb> <args>`. */
  function Format(c: Command): seq<char>
    requires c.channels != []
  {
    VerbName(c.kind) + " " + Args(c)
  }

  /** The commands a frame can carry: at least one name, no blank and no
      newline in any name, no newline in the payload, exactly one channel
      for publish and no payload otherwise, and an argument text that does
      not end in white space (the frame is trimmed before it is parsed). */
  predicate Sendable(c: Command) {
    && c.channels != []
    && (forall i :: 0 <= i < |c.channels| ==> ' ' !in c.channels[i] && '\n' !in c.channels[i])
    && '\n' !in c.payload
    && (c.kind == Publish ==> |c.channels| == 1)
    && (c.kind != Publish ==> c.payload == [])
    && var args := Args(c); args != [] && !IsSpace(args[|args| - 1])
  }

  /** A publish line cut after its channel gives that channel and the
      remainder as the payload. */
  lemma DispatchPublishAt(channel: seq<char>, payload: seq<char>)
    requires ' ' !in channel
    ensures Dispatch("publish", channel + " " + payload) == Ok(Command(Publish, [channel], payload))
  {
    SplitOnceAt(channel, payload, ' ');
  }

  /** A subscribe-family line whose rest is names joined by blanks gives
      back exactly those names. */
  lemma DispatchNamesAt(k: CommandKind, names: seq<seq<char>>)
    requires k != Publish && |names| >= 1
    requires forall i :: 0 <= i < |names| ==> ' ' !in names[i]
    ensures Dispatch(VerbName(k), Join(names, ' ')) == Ok(Command(k, names, []))
  {
    DispatchNames(k, Join(names, ' '));
    SplitUnique(names, ' ');
  }

  /** publish: with a blank in the rest, the channel is the text up to the
      first blank and the payload is everything after it, blanks included;
      with no blank, the line is rejected. */
  lemma DispatchPublish(rest: seq<char>)
    ensures Dispatch("publish", rest).Ok? <==> ' ' in rest
    ensures Dispatch("publish", rest).Ok? ==>
      var c := Dispatch("publish", rest).value;
      && c.kind == Publish && |c.channels| == 1 && c.channels[0] + " " + c.payload == rest
      && ' ' !in c.channels[0]
  {
  }

  /** The subscribe family: the kind named by the verb, the rest cut at
      every blank, no payload. */
  lemma DispatchNames(k: CommandKind, rest: seq<char>)
    requires k != Publish
    ensures Dispatch(VerbName(k), rest) == Ok(Command(k, Split(rest, ' '), []))
  {
  }

  /** Any verb that is none of the five is rejected. */
  lemma DispatchUnknown(verb: seq<char>, rest: seq<char>)
    requires forall k :: verb != VerbName(k)
    ensures Dispatch(verb, rest) == Err(InvalidCommand)
  {
    assert verb != VerbName(Publish) && verb != VerbName(Subscribe) && verb != VerbName(PSubscribe);
    assert verb != VerbName(Unsubscribe) && verb != VerbName(PUnsubscribe);
  }

  /** A line that, once normalised, has no blank is rejected: this covers the
      empty frame and a verb on its own such as "subscribe". */
  lemma ParseRejectsWithoutBlank(message: seq<char>)
    requires ' ' !in Normalize(message)
    ensures Parse(message) == Err(InvalidCommand)
  {
  }

  /** Whether a line parses is decided by its verb (matched through `ToLower`)
      and, for publish, by whether a second blank follows the channel. */
  lemma ParseAccepts(message: seq<char>, verb: seq<char>, rest: seq<char>)
    requires Normalize(message) == verb + " " + rest && ' ' !in verb
    ensures Parse(message).Ok? <==>
      (exists k :: ToLower(verb) == VerbName(k)) && (ToLower(verb) == "publish" ==> ' ' in rest)
  {
    ParseIsDispatch(message, verb, rest);
    var lower := ToLower(verb);
    if exists k :: lower == VerbName(k) {
      var k :| lower == VerbName(k);
      if k == Publish { DispatchPublish(rest); } else { DispatchNames(k, rest); }
    } else {
      DispatchUnknown(lower, rest);
    }
  }

  /** A verb that is none of the five known ones is rejected, whatever follows
      it ("frobnicate x" is an error). */
  lemma ParseRejectsUnknownVerb(message: seq<char>, verb: seq<char>, rest: seq<char>)
    requires Normalize(message) == verb + " " + rest && ' ' !in verb
    requires forall k :: ToLower(verb) != VerbName(k)
    ensures Parse(message) == Err(InvalidCommand)
  {
    ParseIsDispatch(message, verb, rest);
    DispatchUnknown(ToLower(verb), rest);
  }

  /** publish: the channel is the text up to the next blank and the payload is
      the whole remainder, blanks included; with no blank after the channel
      ("publish foo") the line is rejected. */
  lemma ParsePublish(message: seq<char>, verb: seq<char>, rest: seq<char>)
    requires Normalize(message) == verb + " " + rest && ' ' !in verb
    requires ToLower(verb) == "publish"
    ensures Parse(message).Ok? <==> ' ' in rest
    ensures Parse(message).Ok? ==>
      var c := Parse(message).value;
      && c.kind == Publish && |c.channels| == 1 && c.channels[0] + " " + c.payload == rest
      && ' ' !in c.channels[0]
  {
    ParseIsDispatch(message, verb, rest);
    DispatchPublish(rest);
  }

  /** subscribe, psubscribe, unsubscribe, punsubscribe: the kind named by the
      verb, the rest of the line cut at every blank (empty names kept), and
      no payload. Joining the names with blanks gives the rest back. */
  lemma ParseNamesCommand(message: seq<char>, verb: seq<char>, rest: seq<char>, k: CommandKind)
    requires Normalize(message) == verb + " " + rest && ' ' !in verb
    requires k != Publish && ToLower(verb) == VerbName(k)
    ensures Parse(message).Ok?
    ensures
      var c := Parse(message).value;
      && c.kind == k && c.payload == [] && Join(c.channels, ' ') == rest
      && forall i :: 0 <= i < |c.channels| ==> ' ' !in c.channels[i]
  {
    ParseIsDispatch(message, verb, rest);
    DispatchNames(k, rest);
  }

  /** Parsing is sound with respect to the wire grammar: an accepted frame
      normalises to its verb (in any case) followed by a blank and the
      argument text of the command, and the command is one a frame can carry.
      In particular the channel list is never empty, so the
      `len(channels) == 0` branches of `parseCommand` cannot be taken, and
      no name and no payload holds a newline. */
  lemma ParseSound(message: seq<char>)
    requires Parse(message).Ok?
    ensures
      var c := Parse(message).value;
      var strs := SplitOnce(Normalize(message), ' ');
      && Sendable(c)
      && |strs| == 2 && ToLower(strs[0]) == VerbName(c.kind) && strs[1] == Args(c)
  {
    var line := Normalize(message);
    var strs := SplitOnce(line, ' ');
    LineParts(line, strs[0], strs[1]);
    ParseIsDispatch(message, strs[0], strs[1]);
    DispatchSound(ToLower(strs[0]), strs[1]);
  }

  /** The rest of a normal line after its first blank is non-empty, holds no
      newline and does not end in white space. */
  lemma LineParts(line: seq<char>, verb: seq<char>, rest: seq<char>)
    requires line == verb + [' '] + rest && '\n' !in line && Trimmed(line)
    ensures rest != [] && '\n' !in rest && !IsSpace(rest[|rest| - 1])
  {
    assert line[|verb|] == ' ';
    assert forall i :: 0 <= i < |rest| ==> rest[i] == line[|verb| + 1 + i];
  }

  /** `Dispatch` accepts a rest that holds no newline and does not end in
      white space only as the argument text of a command a frame can carry. */
  lemma DispatchSound(verb: seq<char>, rest: seq<char>)
    requires '\n' !in rest && rest != [] && !IsSpace(rest[|rest| - 1])
    requires Dispatch(verb, rest).Ok?
    ensures
      var c := Dispatch(verb, rest).value;
      && Sendable(c) && verb == VerbName(c.kind) && rest == Args(c)
  {
    if verb == VerbName(Publish) {
      DispatchPublish(rest);
    } else {
      var k :| verb == VerbName(k) by {
        if forall k :: verb != VerbName(k) {
          DispatchUnknown(verb, rest);
        }
      }
      DispatchNames(k, rest);
      NamesSound(k, rest);
    }
  }

  /** The names cut from a rest that holds no newline and does not end in
      white space make a subscribe-family command a frame can carry, whose
      argument text is that rest. */
  lemma NamesSound(k: CommandKind, rest: seq<char>)
    requires k != Publish
    requires '\n' !in rest && rest != [] && !IsSpace(rest[|rest| - 1])
    ensures Sendable(Command(k, Split(rest, ' '), [])) && Args(Command(k, Split(rest, ' '), [])) == rest
  {
    var names := Split(rest, ' ');
    forall i | 0 <= i < |names| ensures '\n' !in names[i] {
      if '\n' in names[i] {
        JoinContains(names, ' ', i, '\n');
      }
    }
  }

  /** Since the frame is trimmed, the last name of an accepted
      subscribe-family command is never empty. */
  lemma ParseLastNameNonEmpty(message: seq<char>)
    requires Parse(message).Ok?
    ensures var c := Parse(message).value;
      c.kind != Publish ==> c.channels != [] && c.channels[|c.channels| - 1] != []
  {
    ParseSound(message);
    var c := Parse(message).value;
    if c.kind != Publish {
      SendableLastName(c);
    }
  }

  /** The last name of a subscribe-family command a frame can carry is not
      empty: its argument text does not end in white space. */
  lemma SendableLastName(c: Command)
    requires Sendable(c) && c.kind != Publish
    ensures c.channels[|c.channels| - 1] != []
  {
    JoinLastNonEmpty(c.channels, ' ');
  }



  /** Every command a frame can carry is parsed back from its argument text
      after any spelling of its verb that lower-cases to the verb's name
      ("PUBLISH", "Publish" and "publish" all name publish). */
  lemma ParseFormatted(verb: seq<char>, c: Command)
    requires Sendable(c) && ToLower(verb) == VerbName(c.kind)
    ensures Parse(verb + " " + Args(c)) == Ok(c)
  {
    var args := Args(c);
    VerbSpelling(verb, VerbName(c.kind));
    ArgsNoNewline(c);
    LineIsNormal(verb, args);
    ParseNormalLine(verb, args);
    DispatchArgs(c);
  }

  /** The argument text of a command a frame can carry, dispatched on the
      command's verb, gives the command back. */
  lemma DispatchArgs(c: Command)
    requires Sendable(c)
    ensures Dispatch(VerbName(c.kind), Args(c)) == Ok(c)
  {
    if c.kind == Publish {
      assert c == Command(Publish, [c.channels[0]], c.payload);
      DispatchPublishAt(c.channels[0], c.payload);
    } else {
      DispatchNamesAt(c.kind, c.channels);
    }
  }

  /** Parsing is complete with respect to the wire grammar: every command a
      frame can carry is parsed back from its formatted line. */
  lemma ParseFormat(c: Command)
    requires Sendable(c)
    ensures Parse(Format(c)) == Ok(c)
  {
    LowerOfLower(VerbName(c.kind));
    ParseFormatted(VerbName(c.kind), c);
  }

  /** A spelling whose lower case is a word of lower-case ASCII letters is
      itself a word: non-empty, with no white space in it. */
  lemma VerbSpelling(verb: seq<char>, w: seq<char>)
    requires ToLower(verb) == w && w != []
    requires forall i :: 0 <= i < |w| ==> 'a' <= w[i] <= 'z'
    ensures verb != [] && ' ' !in verb && '\n' !in verb && !IsSpace(verb[0])
  {
    forall i | 0 <= i < |verb| ensures !IsSpace(verb[i]) {
      assert LowerChar(verb[i]) == w[i];
    }
  }

  /** The argument text of a command a frame can carry holds no newline. */
  lemma ArgsNoNewline(c: Command)
    requires Sendable(c)
    ensures '\n' !in Args(c)
  {
    if c.kind != Publish {
      JoinExcludes(c.channels, ' ', '\n');
    }
  }

  /** A verb and a rest, neither holding a newline, with no white space at
      the outer ends, make a normal line. */
  lemma LineIsNormal(verb: seq<char>, rest: seq<char>)
    requires verb != [] && !IsSpace(verb[0]) && '\n' !in verb
    requires rest != [] && !IsSpace(rest[|rest| - 1]) && '\n' !in rest
    ensures '\n' !in verb + " " + rest && Trimmed(verb + " " + rest)
  {
    var line := verb + " " + rest;
    assert line[0] == verb[0] && line[|line| - 1] == rest[|rest| - 1];
  }

  /** A word of lower-case ASCII letters is its own lower case. */
  lemma LowerOfLower(w: seq<char>)
    requires forall i :: 0 <= i < |w| ==> 'a' <= w[i] <= 'z'
    ensures ToLower(w) == w
  {
    LowerMatches(w, w);
  }

  /** White space around the frame does not matter: for any white space
      `before` and `after`, `before + message + after` parses like `message`. */
  lemma ParseIgnoresSurroundingSpace(before: seq<char>, message: seq<char>, after: seq<char>)
    requires AllSpace(before) && AllSpace(after)
    ensures Parse(before + message + after) == Parse(message)
  {
    NormalizeIgnoresSurroundingSpace(before, message, after);
  }

  /** Normalisation removes the white space around the frame. */
  lemma NormalizeIgnoresSurroundingSpace(before: seq<char>, message: seq<char>, after: seq<char>)
    requires AllSpace(before) && AllSpace(after)
    ensures Normalize(before + message + after) == Normalize(message)
  {
    var p, s, q := ReplaceAll(before, '\n', ' '), ReplaceAll(message, '\n', ' '), ReplaceAll(after, '\n', ' ');
    ReplaceAllConcat(before + message, after, '\n', ' ');
    ReplaceAllConcat(before, message, '\n', ' ');
    ReplaceNewlineKeepsSpace(before);
    ReplaceNewlineKeepsSpace(after);
    TrimSpaceAbsorbs(p, s, q);
  }

  /** The verb is matched without regard to case: two frames that differ only
      in the case of the verb parse alike. */
  lemma ParseVerbCaseInsensitive(message: seq<char>, message': seq<char>, verb: seq<char>, verb': seq<char>, rest: seq<char>)
    requires Normalize(message) == verb + " " + rest && ' ' !in verb
    requires Normalize(message') == verb' + " " + rest && ' ' !in verb'
    requires ToLower(verb) == ToLower(verb')
    ensures Parse(message) == Parse(message')
  {
    ParseIsDispatch(message, verb, rest);
    ParseIsDispatch(message', verb', rest);
  }

  /** A line with no newline is its own replacement. */
  lemma NoNewlineReplaceIdentity(s: seq<char>)
    requires '\n' !in s
    ensures ReplaceAll(s, '\n', ' ') == s
  {
    var r := ReplaceAll(s, '\n', ' ');
    forall i | 0 <= i < |s| ensures r[i] == s[i] {
      assert s[i] != '\n';
    }
  }

  /** A line with no newline and no white space at its ends is already normal. */
  lemma NormalLine(line: seq<char>)
    requires '\n' !in line && Trimmed(line)
    ensures Normalize(line) == line
  {
    NoNewlineReplaceIdentity(line);
    TrimSpaceUnique([], line, []);
    assert [] + line + [] == line;
  }

  /** A frame that is already a normal line `verb + " " + rest` is
      dispatched on its lower-cased verb. */
  lemma ParseNormalLine(verb: seq<char>, rest: seq<char>)
    requires ' ' !in verb && '\n' !in verb + " " + rest && Trimmed(verb + " " + rest)
    ensures Parse(verb + " " + rest) == Dispatch(ToLower(verb), rest)
  {
    NormalLine(verb + " " + rest);
    ParseIsDispatch(verb + " " + rest, verb, rest);
  }

  /** "publish <channel>" with no payload is rejected. */
  lemma PublishWithoutPayload(channel: seq<char>)
    requires channel != [] && ' ' !in channel && '\n' !in channel && !IsSpace(channel[|channel| - 1])
    ensures Parse("publish" + " " + channel) == Err(InvalidCommand)
  {
    var verb := VerbName(Publish);
    LowerOfLower(verb);
    VerbSpelling(verb, verb);
    LineIsNormal(verb, channel);
    ParseNormalLine(verb, channel);
    DispatchPublish(channel);
  }

  /** A normal line whose verb is none of the five is rejected. */
  lemma UnknownVerbLine(verb: seq<char>, rest: seq<char>)
    requires verb != [] && !IsSpace(verb[0]) && ' ' !in verb && '\n' !in verb
    requires rest != [] && !IsSpace(rest[|rest| - 1]) && '\n' !in rest
    requires forall k :: ToLower(verb) != VerbName(k)
    ensures Parse(verb + " " + rest) == Err(InvalidCommand)
  {
    LineIsNormal(verb, rest);
    ParseNormalLine(verb, rest);
    DispatchUnknown(ToLower(verb), rest);
  }

  /** A verb whose first letter does not lower-case to 'p', 's' or 'u' is
      none of the five. */
  lemma UnknownInitial(verb: seq<char>)
    requires verb != []
    requires LowerChar(verb[0]) != 'p' && LowerChar(verb[0]) != 's' && LowerChar(verb[0]) != 'u'
    ensures forall k :: ToLower(verb) != VerbName(k)
  {
    var l := ToLower(verb);
    forall k ensures l != VerbName(k) {
      assert l[0] == LowerChar(verb[0]);
      assert VerbName(k)[0] in "psu";
    }
  }

  /** A single word, already normal, is rejected. */
  lemma ParseRejectsWord(word: seq<char>)
    requires ' ' !in word && '\n' !in word && Trimmed(word)
    ensures Parse(word) == Err(InvalidCommand)
  {
    NormalLine(word);
    ParseRejectsWithoutBlank(word);
  }

  /** "PUBLISH foo hello world" publishes "hello world" to "foo". */
  lemma ExamplePublish()
    ensures Parse("PUBLISH foo hello world") == Ok(Command(Publish, ["foo"], "hello world"))
  {
    var c := Command(Publish, ["foo"], "hello world");
    SendablePublish("foo", "hello world");
    PublishExampleLine();
    UpperPublish();
    ParseFormatted("PUBLISH", c);
  }

  /** A publish command with one channel (no blank, no newline) and a
      payload (no newline, not ending in white space) can be carried by a
      frame, as `<channel> <payload>`. */
  lemma SendablePublish(channel: seq<char>, payload: seq<char>)
    requires channel != [] && ' ' !in channel && '\n' !in channel
    requires payload != [] && '\n' !in payload && !IsSpace(payload[|payload| - 1])
    ensures Sendable(Command(Publish, [channel], payload))
    ensures Args(Command(Publish, [channel], payload)) == channel + " " + payload
  {
    var args := channel + " " + payload;
    assert args[|args| - 1] == payload[|payload| - 1];
  }




  /** "PUBLISH foo hello world" is the verb, a blank, the channel, a blank
      and the payload. */
  lemma PublishExampleLine()
    ensures "PUBLISH" + " " + ("foo" + " " + "hello world") == "PUBLISH foo hello world"
  {
  }

  /** "PUBLISH" lower-cases to "publish": each capital folds to its letter. */
  lemma UpperPublish()
    ensures ToLower("PUBLISH") == "publish"
  {
    LowerMatches("PUBLISH", "publish");
  }

  /** "subscribe a b c" subscribes to "a", "b" and "c". */
  lemma ExampleSubscribe()
    ensures Parse("subscribe a b c") == Ok(Command(Subscribe, ["a", "b", "c"], []))
  {
    var c := Command(Subscribe, ["a", "b", "c"], []);
    assert Join(["a", "b", "c"], ' ') == "a b c";
    assert Format(c) == "subscribe a b c";
    ParseFormat(c);
  }

  /** "subscribe  a" (two blanks) keeps the empty name in front of "a". */
  lemma ExampleEmptyName()
    ensures Parse("subscribe  a") == Ok(Command(Subscribe, ["", "a"], []))
  {
    var c := Command(Subscribe, ["", "a"], []);
    assert Join(["", "a"], ' ') == " a";
    assert Format(c) == "subscribe  a";
    ParseFormat(c);
  }

  /** "publish foo" has no payload and is rejected. */
  lemma ExamplePublishWithoutPayload()
    ensures Parse("publish foo") == Err(InvalidCommand)
  {
    assert !IsSpace('o');
    PublishWithoutPayload("foo");
    assert "publish" + " " + "foo" == "publish foo";
  }


  /** "frobnicate x" has an unknown verb and is rejected. */
  lemma ExampleUnknownVerb()
    ensures Parse("frobnicate x") == Err(InvalidCommand)
  {
    assert LowerChar('f') == 'f' && !IsSpace('f') && !IsSpace('x');
    UnknownInitial("frobnicate");
    UnknownVerbLine("frobnicate", "x");
    assert "frobnicate" + " " + "x" == "frobnicate x";
  }


  /** A bare "subscribe" has no blank and is rejected. */
  lemma ExampleBareSubscribe()
    ensures Parse("subscribe") == Err(InvalidCommand)
  {
    ParseRejectsWord("subscribe");
  }
}
