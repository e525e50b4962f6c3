# WebSocket pub/sub command parser, in Dafny

This project models the text command protocol of a WebSocket-to-Redis pub/sub
bridge. Each text frame a client sends holds one command:

- `publish <channel> <payload...>`
- `subscribe <channel...>`
- `psubscribe <pattern...>`
- `unsubscribe <channel...>`
- `punsubscribe <pattern...>`

The verb may be written in any case. `parseCommand` does four things:

1. It turns every newline of the frame into a blank.
2. It trims white space at both ends.
3. It cuts the line at its first blank into a verb and a rest.
4. It dispatches on the lower-cased verb.

Publish takes the text up to the next blank as the channel and everything
after that as the payload. The subscribe family cuts the rest at every
blank. Every rejection is the same error, `invalid command`. The model also
covers the dispatch half of `exec`, which forwards a parsed command to one
backend call.

The model is written in pure functions, as the parser is, over `seq<char>`:

- `GoStrings.dfy` holds the Go library functions the parser calls:
  - `bytes.Replace` of one character;
  - `bytes.TrimSpace`, with Go's exact `unicode.IsSpace` set;
  - `strings.SplitN(·, " ", 2)`;
  - `strings.Split`;
  - `strings.ToLower`, as far as it can produce an ASCII letter.
- `CommandParser.dfy` holds `commandType`, `command` and `parseCommand`,
  together with the properties proved about them.
- `BackendCalls.dfy` holds the `switch` of `exec`.

The main results:

- **Soundness (`ParseSound`).** An accepted frame normalises to its verb, in
  some case, followed by a blank and the command's argument text. The
  command always has a name, and no name and no payload holds a newline.
  So the `len(channels) == 0` branches can never be taken.
- **Completeness (`ParseFormat`, `ParseFormatted`).** Every command a frame
  can carry is parsed back from its line, under any spelling of the verb
  that lower-cases to the verb's name.
- **Exact acceptance condition (`ParseAccepts`).** A line whose normalised
  form holds a blank is accepted exactly when its lower-cased verb is one of
  the five and, for publish, a blank follows the channel. A line whose
  normalised form holds no blank is always rejected
  (`ParseRejectsWithoutBlank`).
- White space around a frame is ignored.
- The verb is matched without regard to case.
- The two splits are inverted by joining.
- `exec` loses nothing of a parsed command.

Details of the parser's behaviour (`command.go`):

- Every rejection is the same error value, `invalid command`, whatever the
  cause: no blank in the line, an unknown verb, or a publish line with
  nothing after its channel.
- A bare `subscribe` is rejected at command.go:34, because the normalised
  line holds no blank. The `len(channels) == 0` checks can never reject,
  because `strings.Split` always returns at least one piece.
- Empty names are kept: `subscribe  a` (two blanks) gives the names `""` and
  `"a"`. The last name is never empty, because the frame is trimmed.
- `strings.ToLower` maps U+0130 (capital I with dot above) to `i` and U+212A
  (the Kelvin sign) to `k`, so a verb written `PUBL` + U+0130 + `SH` is
  matched as publish. `GoStrings.LowerMatches` states exactly which
  characters match each letter of a verb.

## Model

| member | source | states |
|---|---|---|
| GoStrings.IsSpace | command.go:31 | `unicode.IsSpace`, which `bytes.TrimSpace` uses: the blank and the newline are white space, and no visible ASCII character and not U+FFFD is |
| GoStrings.ReplaceAll | command.go:31 | every newline becomes a blank and every other character keeps its place, so no newline is left |
| GoStrings.ReplaceAllConcat | command.go:31 | replacing newlines distributes over concatenation |
| GoStrings.TrimSpace | command.go:31 | the result has no white space at either end and is never longer than the input |
| GoStrings.TrimSpaceDecompose | command.go:31 | the input is white space, then its trimmed text, then white space |
| GoStrings.TrimSpaceUnique | command.go:31 | trimming a text with no white space at its ends, wrapped in white space, gives that text back |
| GoStrings.TrimSpaceAbsorbs | command.go:31 | extra white space on either side does not change the trimmed text |
| GoStrings.SplitOnce | command.go:33 | `SplitN(s, sep, 2)` gives two parts exactly when `sep` occurs, and then `s` is the first part, `sep`, then the second, with no `sep` in the first; otherwise one part, `s` itself |
| GoStrings.SplitOnceAt | command.go:33 | a text with no separator, a separator and any remainder is cut into exactly those two parts |
| GoStrings.Split | command.go:49 | `Split` never gives an empty list, joining its pieces with the separator gives the input back, no piece holds the separator, and the last piece is empty exactly when the input is empty or ends in the separator |
| GoStrings.JoinLast | command.go:49 | names whose last one is empty join into a text that is empty or ends in the separator |
| GoStrings.JoinLastNonEmpty | command.go:49 | names joined by a white-space separator into a text that does not end in white space end with a non-empty name |
| GoStrings.SplitUnique | command.go:49 | splitting names joined by the separator gives back exactly those names (when no name holds it) |
| GoStrings.JoinExcludes | command.go:49 | a character in no name and unequal to the separator is not in the joined text |
| GoStrings.LowerChar | command.go:37 | `unicode.ToLower` of one character gives a lower-case ASCII letter exactly for the ASCII letters, U+0130 and U+212A, and leaves every white-space character unchanged |
| GoStrings.ToLower | command.go:37 | lower-casing keeps the length and maps each character by itself |
| GoStrings.LowerMatches | command.go:37 | a word lower-cases to an ASCII word exactly when it has the same length and each character is the letter, its capital, or (for `i` and `k`) U+0130 or U+212A |
| CommandParser.VerbName | command.go:38-75 | each verb the switch matches is made of lower-case ASCII letters |
| CommandParser.Normalize | command.go:31 | the normalised frame holds no newline and has no white space at either end |
| CommandParser.ParseNames | command.go:48-83 | each subscribe-family branch always accepts (the empty-list check never rejects), with the given kind, no payload, and blank-free names that join back to the rest |
| CommandParser.Dispatch | command.go:37-86 | every rejection by the switch is the error `invalid command` |
| CommandParser.Parse | command.go:30-87 | every rejection is the single error `invalid command` |
| CommandParser.ParseIsDispatch | command.go:33-37 | a frame that normalises to `verb + " " + rest`, with no blank in the verb, is dispatched on the lower-cased verb with that rest |
| CommandParser.DispatchPublish | command.go:38-47 | publish accepts exactly a rest holding a blank, giving one channel with no blank, with `channel + " " + payload == rest` |
| CommandParser.DispatchPublishAt | command.go:38-47 | `channel + " " + payload` dispatched as publish gives that channel and that payload |
| CommandParser.DispatchNames | command.go:48-83 | each subscribe-family verb gives its own kind, the rest cut at every blank, and no payload |
| CommandParser.DispatchNamesAt | command.go:48-83 | names joined by blanks, dispatched on a subscribe-family verb, give back exactly those names |
| CommandParser.DispatchUnknown | command.go:84-85 | a verb that is none of the five is rejected |
| CommandParser.ParseRejectsWithoutBlank | command.go:33-36 | a frame whose normalised line has no blank is rejected |
| CommandParser.ParseAccepts | command.go:30-87 | a frame whose normalised line holds a blank is accepted if and only if its lower-cased verb is one of the five and, for publish, the rest after the verb holds a blank |
| CommandParser.ParseRejectsUnknownVerb | command.go:84-85 | a frame whose lower-cased verb is none of the five is rejected, whatever follows |
| CommandParser.ParsePublish | command.go:38-47 | a publish frame is accepted exactly when a blank follows the channel; then there is one channel, with no blank, and `channel + " " + payload` is the rest |
| CommandParser.ParseNamesCommand | command.go:48-83 | a subscribe-family frame is always accepted, with the verb's kind, no payload, no blank in any name, and the names joined by blanks equal to the rest |
| CommandParser.ParseSound | command.go:30-87 | an accepted frame is its verb (in some case), a blank and the command's argument text, and the command has a name, no newline in any name or in the payload, one channel for publish and no payload otherwise |
| CommandParser.ParseLastNameNonEmpty | command.go:31-83 | the last name of an accepted subscribe-family command is not empty |
| CommandParser.SendableLastName | command.go:49-56 | the last name of a subscribe-family command a frame can carry is not empty |
| CommandParser.DispatchSound | command.go:37-86 | what the switch accepts from a newline-free rest is a command a frame can carry, whose argument text is that rest |
| CommandParser.NamesSound | command.go:49-56 | the names cut from a newline-free rest hold no blank and no newline and join back to the rest |
| CommandParser.ParseFormatted | command.go:30-87 | any spelling of a verb that lower-cases to the command's verb, a blank and the argument text parse back to the command |
| CommandParser.ParseFormat | command.go:30-87 | every command a frame can carry is parsed back from its formatted line |
| CommandParser.DispatchArgs | command.go:37-86 | the argument text of a command, dispatched on its verb, gives the command back |
| CommandParser.ParseIgnoresSurroundingSpace | command.go:31 | white space before and after a frame does not change how it parses |
| CommandParser.NormalizeIgnoresSurroundingSpace | command.go:31 | white space before and after a frame does not change its normalised line |
| CommandParser.NormalLine | command.go:31 | a line with no newline and no white space at its ends is left unchanged by normalisation |
| CommandParser.ParseVerbCaseInsensitive | command.go:37 | two frames with the same rest and verbs equal up to case parse alike |
| CommandParser.ParseNormalLine | command.go:31-37 | an already normal `verb + " " + rest` is dispatched on the lower-cased verb |
| CommandParser.PublishWithoutPayload | command.go:39-42 | `publish <channel>` with nothing after the channel is rejected |
| CommandParser.UnknownVerbLine | command.go:84-85 | a normal line whose verb is none of the five is rejected |
| CommandParser.UnknownInitial | command.go:37-38 | a verb whose first character does not lower-case to `p`, `s` or `u` is none of the five |
| CommandParser.ParseRejectsWord | command.go:33-36 | a single normal word is rejected |
| CommandParser.SendablePublish | command.go:43-47 | a channel with no blank or newline and a payload that does not end in white space make a publish command a frame can carry |
| CommandParser.ExamplePublish | command.go:38-47 | `PUBLISH foo hello world` publishes `hello world` to `foo` |
| CommandParser.ExampleSubscribe | command.go:48-56 | `subscribe a b c` subscribes to `a`, `b` and `c` |
| CommandParser.ExampleEmptyName | command.go:49-56 | `subscribe  a` keeps the empty name before `a` |
| CommandParser.ExamplePublishWithoutPayload | command.go:39-42 | `publish foo` is rejected |
| CommandParser.ExampleUnknownVerb | command.go:84-85 | `frobnicate x` is rejected |
| CommandParser.ExampleBareSubscribe | command.go:33-36 | a bare `subscribe` is rejected |
| BackendCalls.Exec | wspubsub.go:170-195 | a subscribe-family call carries the command's kind and every name (the payload is not passed on), and a publish call carries the first channel and the payload |
| BackendCalls.ExecRoundTrip | wspubsub.go:170-195 | the command is recovered from the backend call `exec` makes of it |
| BackendCalls.ParsedCommandsExecute | wspubsub.go:170-195 | every accepted command can be executed (a publish command has the channel `exec` reads) and its call loses nothing of it |
| BackendCalls.ExecInjective | wspubsub.go:170-195 | distinct commands a frame can carry lead to distinct backend calls |

## Left out

- The connection lifecycle is not part of this model. That covers the WebSocket read and write loops, the ping ticker, deadlines, `tryStop`, the shutdown signal and the health check. They are concurrent and I/O-bound.
- JSON delivery of messages to the client is not part of this model. It is serialisation of backend data, not command logic.
- The example server (`example/main.go`) is not part of this model.
- The backend calls themselves, and the errors they return, are not modelled. `exec` is modelled only as the choice of call and its arguments.
- Frames are modelled as sequences of Unicode characters, so bytes that are not valid UTF-8 are not modelled. Go counts such a byte as non-space and keeps it unchanged in names and payloads. Only `strings.ToLower` replaces it, with U+FFFD, and only in the lower-cased verb, which then matches none of the five.
- GoStrings.ToLower: keeps every non-ASCII character other than U+0130 and U+212A, where Go maps it to its own lower case. Such a lower case is never an ASCII letter, so comparing against the five verbs decides exactly as Go does. The lower-cased verb is used for nothing else.
- The logging of a rejected command is not modelled. The connection stays open after a rejection, and that is not modelled either.
