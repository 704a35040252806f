# ChatServer in Dafny

A model of the server half of a small TCP chat system (`ChatServer.java`
and its inner class `OpenSocket`). Clients speak a framed protocol: every
frame is a three-letter opcode, a content and a `'\0'` terminator. A new
client sends `NCR` with a user name (and, after a `'\3'` separator, a
password); once accepted it may send `SND` (relayed to everyone else as
`MSG`), `DSC` (leave) and, when it has admin rights, `ADM` with a console
command. The console commands (`ADMIN`, `PSWD`, `KICK`, `NOTIFY`, `TELL`,
`QUIT`, `LIST`, `HELP`) are run by `processCommand`, which resolves user
selectors with `getUsers`.

The model is in nine modules:

- `Wrappers`: `Option`.
- `JavaText`: the parts of `Scanner` and `String` the console relies on,
  character by character (`next`, `nextLine`, `trim`, `split(",")`, joining
  with `'\n'`, padding as `String.format` does).
- `Patterns`: the regular expressions of the source as predicates, exactly
  as written (the user selector `((\w{1,10}|(\w{1,10},\w{1,10})*)|\*)` and
  the whole-line patterns of `ADMIN`, `KICK`, `NOTIFY`, `TELL`).
- `Framing`: frames, the byte narrowing of the read loop, the growth of
  the buffer and the split of a buffer into opcode and content.
- `Handshake`: the credentials of `NCR` and the server's verdict on them.
- `Commands`: classification of a console line, resolution of selectors,
  and the texts the commands answer with.
- `Wire`: what the server writes, as a log of (recipient, text) records:
  broadcast, disconnect, and `ArrayList.remove`.
- `Console`: `processCommand` as a function `Command` of the line, the
  registry and the password, returning every effect it has.
- `Chat`: the two classes. `Server` holds `allConnections` (`registry`),
  the password, the log of writes (`wire`) and an `exited` flag that stands
  for `System.exit`. `Session` holds the per-connection state (`buf`,
  `bufSize`, `bufItems`, `willDisconnect`, `userName`, `isAdmin`, the
  unread input and whether the socket is closed) and its methods update it
  in place. `Server.ProcessCommand` is proved to have exactly the effect of
  `Console.Command`; `Session.HandleMessage` is proved against the
  two-state predicate `Handled`, and `Session.ReadMessage` against
  `FrameRead`.

Behaviour of the code that the model reproduces on purpose:

- user names are `\w{1,10}`, so digits and `_` are allowed;
- the selector pattern accepts one name, a list of comma-separated *pairs*
  written back to back, the empty string, or `*`; so `ab,cd` and `a,bc,d`
  are accepted and `a,b,c` is refused; since the empty selector matches,
  `KICK  bob x` (two spaces) is a KICK, and the scanner then takes `bob` as
  the selector;
- a name listed twice in a selector selects its session twice;
- the `ADMIN` reply lists the names last first, since each is prepended;
- `nextLine()` keeps the space that follows the selector or the keyword;
- `PSWD`, `QUIT`, `LIST` and `HELP` compare only the first token, so
  `LIST foo` is `LIST`, while `KICK bob` without a reason is no command;
- `NCR` is handled in any state: a named session that sends it again is
  judged and, when accepted, renamed and registered a second time;
- `SND` and `DSC` before a handshake print the name as `null`;
- `buf[bufItems++] = '\0'` counts the terminator before it is stored, so a
  frame that exactly fills the buffer makes the store fail and the
  connection close, with `bufItems` one past the buffer size;
- `run()` handles the buffer after every read, even when the read closed
  the connection (see Findings).

`handleMessage` has no state guard on `NCR`, `SND` or `DSC`
(ChatServer.java:466-553): a frame is handled whatever the session's
connection state and whether or not it has a name. The model keeps that.
Registered names stay distinct when each handshake comes from a session that
is not registered yet (`Chat.Session.JoinKeepsNamesDistinct`), and the
Findings below show a closed connection being registered.

Inputs and outputs are values: a session's input is the sequence of
character codes its client will send (`read()` returns `-1` once it is
empty), and every write to a client is appended to the server's `wire`.

## Model

| member | source | states |
|---|---|---|
| Framing.JavaByte | ChatServer.java:601 | `(byte)character` keeps the low eight bits as a value in -128..127 |
| Framing.ByteCharOfJavaByte | ChatServer.java:474-475 | a stored byte decodes back to the character it came from when that character is below 256 |
| Framing.FrameEnd | ChatServer.java:592 | the number of codes the read loop stores: every code before it is positive, the one at it (if any) is not |
| Framing.FrameEndAt | ChatServer.java:592 | the loop stops at k exactly when the codes before k are positive and the one at k, if any, is not |
| Framing.Stored | ChatServer.java:601-602 | the stored bytes are the narrowed codes, one per code |
| Framing.StoredSnoc | ChatServer.java:601-602 | storing one more code appends its byte |
| Framing.Capacity | ChatServer.java:593-600 | the buffer size after n stores holds all n bytes, and is below 2n unless it is still the initial size |
| Framing.CapacityStep | ChatServer.java:593-594 | one more byte doubles the buffer exactly when it was full |
| Framing.Decode | ChatServer.java:474-475 | one character per byte, read back from the byte |
| Framing.SplitFrame | ChatServer.java:468-475 | a frame of 3 or fewer counted slots is short; otherwise a 3-character opcode and a content of bufItems-4 characters, which together are the first bufItems-1 bytes |
| Framing.EncodeParts | ChatServer.java:524 | a frame as written is opcode, content, terminator, and gives them back |
| Framing.EncodedFrameEnd | ChatServer.java:592 | the read loop stops exactly at the terminator of a frame whose text holds no `'\0'` |
| Framing.FrameRoundTrip | ChatServer.java:466-475 | a frame written by a client with one-byte characters, read by the loop into any buffer, splits back into the same opcode and content |
| Framing.TruncatedSplit | ChatServer.java:474-475 | a frame cut off by the end of the stream splits with its last character taken for the terminator |
| Wire.Fanout | ChatServer.java:572-582 | a broadcast writes at most one record per registration |
| Wire.FanoutReaches | ChatServer.java:572-582 | a broadcast writes to s if and only if s is registered and is not the sender, and the text is the message |
| Wire.FanoutFromOutside | ChatServer.java:572-582 | a sender that is not registered reaches every registration, in registry order |
| Wire.ToEach | ChatServer.java:267-268 | the message written to each listed user in turn |
| Wire.Chosen | ChatServer.java:324-331 | the sessions at the picked positions, in the order of the picks |
| Wire.RemoveFirst | ChatServer.java:661 | removing an unregistered session changes nothing, and removal adds no session |
| Wire.RemoveFirstCuts | ChatServer.java:661 | removal cuts out exactly the first position holding the session and keeps the rest in order |
| Wire.RemoveFirstCounts | ChatServer.java:661 | removal takes one registration of the session away and changes the count of no other session |
| Wire.DisconnectEndsWithDsc | ChatServer.java:633-649 | a disconnect's writes end with the DSC frame to the session itself, and every earlier write is the notice to another registered session |
| Wire.DisconnectSendsOf | ChatServer.java:633-649 | a disconnect writes DSC to the session itself and, exactly when the notice is not empty, the notice to every other registered session, and nothing else; with an empty notice DSC is the only write |
| Wire.DisconnectReachesRegistered | ChatServer.java:633-649 | a disconnect of a registered session writes only to registered sessions |
| JavaText.Find | ChatServer.java:479 | `indexOf`: the first occurrence at or after the start, or the length when there is none |
| JavaText.NextToken | ChatServer.java:226 | `Scanner.next()`: a non-empty token that ends after the scanning position |
| JavaText.NextTokenSpec | ChatServer.java:226-229 | there is no token exactly when only delimiters are left; a token is the maximal run of non-whitespace after the delimiters |
| JavaText.NextLine | ChatServer.java:258 | `nextLine()` fails exactly when nothing is left |
| JavaText.NextLineSpec | ChatServer.java:258 | the line is the text up to the first line terminator, which is not part of it |
| JavaText.TrimSpec | ChatServer.java:250 | the trimmed text starts and ends above U+0020 and only characters at or below U+0020 were cut |
| JavaText.TrimUnique | ChatServer.java:318 | any slice that cuts only characters at or below U+0020 and keeps ends above it is the trimmed text |
| JavaText.TrimIdempotent | ChatServer.java:318 | trimming twice is trimming once |
| JavaText.TrimIgnoresLeadingSpace | ChatServer.java:250 | the space `nextLine()` keeps is removed by `trim()` |
| JavaText.Pieces | ChatServer.java:318 | splitting gives at least one piece and no piece holds the delimiter |
| JavaText.JoinPieces | ChatServer.java:318 | nothing is lost in splitting: the pieces joined with the delimiter give the text back |
| JavaText.DropTrailingEmpty | ChatServer.java:318 | `split` drops exactly the trailing empty pieces |
| JavaText.JavaSplit | ChatServer.java:318 | a text without the delimiter splits into itself; otherwise into the pieces less exactly the trailing empty ones: a prefix of the pieces that is empty or ends in a non-empty piece, every piece cut off being empty |
| JavaText.PiecesOfJoin | ChatServer.java:296-298 | joining pieces free of the delimiter and splitting again gives the pieces back |
| JavaText.Spaces | ChatServer.java:296 | the padding of `%-10s`/`%10s`: spaces up to the width |
| Patterns.TwoNamesSelect | ChatServer.java:227 | two names joined by one comma are a selector |
| Patterns.InnerNamesSplitAcrossPairs | ChatServer.java:227 | `a,bc,d` is a selector: the pairs `a,b` and `c,d` written back to back |
| Patterns.ThreeShortNamesRejected | ChatServer.java:227 | `a,b,c` is not a selector |
| Handshake.Credentials | ChatServer.java:479-484 | without a separator the content is the name and there is no password; with one, the name holds no separator and name, separator and password make up the content |
| Handshake.Judge | ChatServer.java:486-512 | each verdict holds exactly when its check is the first to fail: a wrong or missing password when one is set, then a name that is not `\w{1,10}`, then a name already registered; otherwise the name is accepted |
| Handshake.PasswordIgnoredWhenUnset | ChatServer.java:486-494 | with no server password, what follows the separator does not change the verdict |
| Commands.Classify | ChatServer.java:221-307 | a line with no token is blank; a line matching the ADMIN pattern is ADMIN; an unknown line matches none of the four whole-line patterns |
| Commands.PatternsFixFirstWord | ChatServer.java:227-270 | a line matching the ADMIN, KICK, NOTIFY or TELL pattern has that keyword as its first token |
| Commands.ClassifyByKeyword | ChatServer.java:221-307 | each branch is taken exactly by the lines of its pattern (ADMIN, KICK, NOTIFY, TELL) or of its first token (PSWD, QUIT, LIST, HELP), so the order of the if-chain decides nothing |
| Commands.NoKeywordPattern | ChatServer.java:227-270 | a line whose first letter starts no keyword matches none of the whole-line patterns |
| Commands.ListIgnoresTrailingTokens | ChatServer.java:289 | `LIST` followed by anything is LIST |
| Commands.HelpIgnoresTrailingTokens | ChatServer.java:302 | `HELP` followed by anything is HELP |
| Commands.KickWithoutReasonUnknown | ChatServer.java:256 | `KICK` with a selector and no reason is no command |
| Commands.NewPassword | ChatServer.java:248-255 | the password becomes empty when no token follows PSWD |
| Commands.PswdStoresTrimmedRemainder | ChatServer.java:249-253 | `PSWD s` stores `s` trimmed, or clears the password when `s` is blank |
| Commands.QuitMessage | ChatServer.java:280-283 | QUIT's message is empty at the end of the line, otherwise the one-line rest of the line after the keyword |
| Commands.FirstIndexOf | ChatServer.java:325-330 | absent exactly when no session has the name; otherwise a position with the name and none before it |
| Commands.Picks | ChatServer.java:324-331 | at most one pick per listed name, each a registry position |
| Commands.PicksInListOrder | ChatServer.java:324-331 | one pick per listed name that is registered, in list order with repeats, each the first session with that name |
| Commands.Range | ChatServer.java:319-320 | every position, in order |
| Commands.Select | ChatServer.java:316-334 | a resolved selector picks only registry positions |
| Commands.SelectOneName | ChatServer.java:316-334 | a single name selects the first session registered under it, or no one |
| Commands.SelectAll | ChatServer.java:319-321 | `*` selects every session in registry order |
| Commands.TrimKeepsNames | ChatServer.java:318 | `trim()` leaves two comma-joined names alone |
| Commands.SplitTwoNames | ChatServer.java:318 | `split(",")` gives the two names back |
| Commands.RepeatedNameResolvedTwice | ChatServer.java:324-331 | `bo,bo` selects bo's session twice |
| Commands.PrependedIsReversed | ChatServer.java:242-247 | the ADMIN reply's list is the names in reverse order, each followed by a space |
| Commands.ListBuiltJoins | ChatServer.java:294-299 | after i entries the builder holds them joined with newlines, plus a newline while more follow |
| Commands.ListBuiltAll | ChatServer.java:290-301 | the builder ends as the LIST reply |
| Commands.ListEntryIsOneLine | ChatServer.java:296 | an entry of a one-line name and address is one line |
| Commands.ListHasOneLinePerEntry | ChatServer.java:289-301 | LIST answers one line per registration, each the entry |
| Commands.ReadAdminReply | ChatServer.java:537-542 | the reply frames to ADM tell the outcomes apart: reading them back gives the outcome |
| Console.AdminArgs | ChatServer.java:228-229 | when ADMIN's arguments scan, the flag token is non-empty and the picks are registry positions |
| Console.TargetArgs | ChatServer.java:257-258 | when KICK's or TELL's arguments scan, the picks are registry positions |
| Console.AdminCommand | ChatServer.java:227-247 | ADMIN writes nothing, keeps the password, disconnects no one, flags only registered sessions, and flags none when it fails |
| Console.KickCommand | ChatServer.java:256-264 | KICK keeps the password, flags no one, writes only to and disconnects only registered sessions, and does neither when it fails |
| Console.NotifyCommand | ChatServer.java:265-269 | NOTIFY writes only to registered sessions and changes nothing else |
| Console.TellCommand | ChatServer.java:270-278 | TELL writes only to registered sessions and changes nothing else |
| Console.AdminCommandSpec | ChatServer.java:227-247 | ADMIN fails when its arguments do not scan; a flag not starting with y, Y, n or N answers the bad-argument text and flags no one; otherwise exactly the resolved users are flagged, on for y or Y, with the reply listing their names, and an empty resolution answers that no user matched |
| Console.KickCommandSpec | ChatServer.java:256-264 | KICK fails when its arguments do not scan; otherwise it disconnects exactly the resolved users, answering "" or, for an empty resolution, that no user matched |
| Console.NotifyCommandSpec | ChatServer.java:265-269 | NOTIFY fails at the end of the line; otherwise every registration, in registry order, is told the announcement with the rest of the line |
| Console.TellCommandSpec | ChatServer.java:270-278 | TELL fails when its arguments do not scan; otherwise exactly the resolved users, in selector order, are told the message, and an empty resolution answers that no user matched and writes nothing |
| Console.KickSendsOf | ChatServer.java:262-263 | a write of KICK is a write of the disconnect of one of the selected users, and each of those is written |
| Console.KickWrites | ChatServer.java:256-264 | the writes of a KICK are exactly: DSC with the reason to each resolved user, and that user's kick notice to every other registered session |
| Console.QuitCommand | ChatServer.java:279-288 | QUIT ends the process, disconnects every registration and writes only to registered sessions |
| Console.OnlyQuitExits | ChatServer.java:279-288 | a command ends the process if and only if it is QUIT |
| Console.FailedChangesNothing | ChatServer.java:309-312 | a command that answers null writes nothing and changes nothing |
| Console.PasswordOnlyThroughPswd | ChatServer.java:248-255 | only PSWD changes the password, to the trimmed rest of the line or to none |
| Console.ListHelpPswdOnlyAnswer | ChatServer.java:248-303 | LIST, HELP and PSWD answer with text and write to no client |
| Console.QuitDropsEveryone | ChatServer.java:279-288 | QUIT sends DSC with the message to every registration in registry order, disconnects them all and exits |
| Console.KickSendsRegistered | ChatServer.java:262-263 | every write of a KICK goes to a registered session |
| Console.CommandStaysInRegistry | ChatServer.java:218-314 | every write, flag and disconnect of any command reaches only registered sessions |
| Console.ChosenAll | ChatServer.java:319-321 | selecting every position selects the registry itself |
| Console.CommandIsKick | ChatServer.java:256-264 | a line classified as KICK runs KICK on what follows its keyword |
| Console.KickStarMatches | ChatServer.java:256 | `KICK * reason` matches the KICK pattern |
| Console.KickStarTokens | ChatServer.java:257-258 | the scanner reads `KICK`, then `*`, then the reason with the space before it |
| Console.KickStarScans | ChatServer.java:256-258 | `KICK * reason` is KICK, with every position selected and the space and reason as its message |
| Console.KickEveryone | ChatServer.java:256-264 | `KICK * reason` disconnects every registered session, tells each DSC with the reason and every other session its kick notice; with nobody registered it answers that no user matched |
| Console.EmptySelectorMatches | ChatServer.java:256 | `KICK  name reason` matches the KICK pattern with the empty selector |
| Console.EmptySelectorTokens | ChatServer.java:257-258 | the scanner skips both spaces: `KICK`, then the name, then the reason with the space before it |
| Console.EmptySelectorScans | ChatServer.java:256-258 | the empty string is a selector, and `KICK  name reason` is KICK selecting the first session named `name` (or no one) |
| Console.EmptySelectorKick | ChatServer.java:256-264 | `KICK  name reason` disconnects the first session registered as `name` and tells it DSC with the reason |
| Chat.Server.constructor | ChatServer.java:166-168 | the server starts with an empty registry, no password and nothing written |
| Chat.Server.GetUsers | ChatServer.java:316-334 | the result is the selector's resolution against the registry: none where `users[0]` fails, else the chosen sessions |
| Chat.Server.FirstNamed | ChatServer.java:325-330 | the inner loop finds the first session with the name, or none |
| Chat.Server.ScanAdmin | ChatServer.java:228-229 | the scan succeeds exactly when ADMIN's arguments do, with their picks and flag |
| Chat.Server.ScanTargets | ChatServer.java:257-258 | the scan succeeds exactly when KICK's or TELL's arguments do, with their picks and message |
| Chat.Server.SetAdmin | ChatServer.java:227-247 | ADMIN's answer, writes, admin flags and unchanged state are those of `AdminCommand` |
| Chat.Server.SetAdminUsers | ChatServer.java:242-247 | the resolved users' flags are set and the answer lists their names |
| Chat.Server.SetFlags | ChatServer.java:242-246 | the loop sets every listed user's flag, touches no other session and builds the names last first |
| Chat.Server.Kick | ChatServer.java:256-264 | KICK's answer, writes and disconnects are those of `KickCommand` |
| Chat.Server.KickUsers | ChatServer.java:262-264 | the resolved users are disconnected with the kick notice |
| Chat.Server.DisconnectEach | ChatServer.java:262-263 | each user disconnected in turn, each with the notice naming it; other sessions unchanged |
| Chat.Server.Notify | ChatServer.java:265-269 | NOTIFY's answer and writes are those of `NotifyCommand` |
| Chat.Server.Tell | ChatServer.java:270-278 | TELL's answer and writes are those of `TellCommand` |
| Chat.Server.TellUsers | ChatServer.java:276-277 | the message is written to each resolved user |
| Chat.Server.SendToEach | ChatServer.java:267-268 | one write per listed user, in order |
| Chat.Server.Quit | ChatServer.java:279-288 | QUIT's writes and disconnects are those of `QuitCommand`, and the process ends |
| Chat.Server.DisconnectAll | ChatServer.java:284-287 | every registration disconnected with no notice to others; DSC with the message to each |
| Chat.Server.ListUsers | ChatServer.java:289-301 | the LIST answer is one entry per registration joined by newlines, or the fixed text when there is none |
| Chat.Server.ProcessCommand | ChatServer.java:218-314 | the answer, writes, password, exit, flags and disconnects of any line are those of `Command` |
| Chat.Server.Respond | ChatServer.java:248-307 | PSWD, LIST, HELP and an unknown line have the effect of an answer only: the outcome `Command` gives, its password, no write, no flag and no disconnect |
| Chat.Session.HandledSettles | ChatServer.java:466-553 | handling registers no other session, keeps or drops all unread input, reopens no connection, and names no session it closes |
| Chat.Session.ReadToEnd | ChatServer.java:605-616 | a read that meets the end of the stream stores all the input, counts no terminator, closes and unregisters |
| Chat.Session.HandledJoin | ChatServer.java:514-521 | an accepted NCR names and registers the session whatever its connection state |
| Chat.Session.JoinKeepsNamesDistinct | ChatServer.java:486-521 | the handshake of a session not yet registered keeps the registered names pairwise distinct |
| Chat.Session.constructor | ChatServer.java:446-463 | a connection starts with a 1024-byte empty buffer, no name, no admin rights, open and not leaving |
| Chat.Session.Read | ChatServer.java:592 | `read()` takes the next code, or -1 once the stream has ended |
| Chat.Session.SendMessageToSelf | ChatServer.java:559-566 | one write to this client |
| Chat.Session.SendMessageToOthers | ChatServer.java:572-582 | the writes of the broadcast, in registry order, skipping this session |
| Chat.Session.Disconnect | ChatServer.java:633-649 | marks the end as intended, shuts the input, and writes the notice to the others (unless empty) then DSC to the client |
| Chat.Session.CloseSocket | ChatServer.java:654-665 | closes and unregisters the session, with the lost-connection notice to the others unless the end was intended |
| Chat.Session.Refuse | ChatServer.java:486-512 | a refused handshake answers NCN with the reason and closes the connection as intended |
| Chat.Session.Connect | ChatServer.java:477-521 | the state after NCR is `Handled` for it: the handshake the verdict on the content calls for |
| Chat.Session.Admit | ChatServer.java:479-512 | the checks, in order, produce the verdict `Judge` gives |
| Chat.Session.Join | ChatServer.java:514-521 | an accepted name is taken, CON is written, the others are told and the session is registered |
| Chat.Session.Grow | ChatServer.java:593-600 | the buffer doubles, keeping the stored bytes first |
| Chat.Session.Store | ChatServer.java:593-602 | one pass: doubled when full, then the byte appended |
| Chat.Session.Advance | ChatServer.java:592-602 | one pass keeps the read loop's invariant |
| Chat.Session.Fill | ChatServer.java:592-603 | the loop stores the positive codes before the first that is not, in a buffer grown as needed, and consumes the stopping code |
| Chat.Session.ReadMessage | ChatServer.java:589-624 | the state after a read is `FrameRead`: bytes, buffer size, count, terminator, closing and its notice |
| Chat.Session.Finish | ChatServer.java:605-618 | end of stream closes; otherwise the terminator is counted, stored when it fits, and closes the connection when it does not |
| Chat.Session.Admin | ChatServer.java:533-546 | ADM from an admin runs the command and answers it; from anyone else, ERC and nothing more |
| Chat.Session.HandledAdmin | ChatServer.java:533-546 | the admin console's effect is the ADM case of `Handled` |
| Chat.Session.Reply | ChatServer.java:538-542 | ERC for a failed command, RSP with a non-empty answer, nothing for an empty one |
| Chat.Session.HandleMessage | ChatServer.java:466-553 | the state after handling is `Handled` for the frame in the buffer |
| Chat.Session.BadCommand | ChatServer.java:468-472 | a short frame is answered with ERC and changes nothing else |
| Chat.Session.Relay | ChatServer.java:523-526 | SND is relayed as MSG with the sender's name to every other registered session, and nothing else changes |
| Chat.Session.Leave | ChatServer.java:529-531 | DSC is a disconnect with the leave notice to the others |
| Chat.Session.ReadStep | ChatServer.java:670 | a read consumes input or closes at the end of the stream, and registers no session |
| Chat.Session.HandleStep | ChatServer.java:672 | handling registers only this session, reopens nothing, and names no session it closes |
| Chat.Session.Step | ChatServer.java:669-674 | one pass of the loop as written: the buffer is emptied, input consumed or the connection closed |
| Chat.Session.StepChecked | ChatServer.java:669-674 | the pass with handling skipped after a closing read: a pass that closes the connection leaves the name as it was |
| Chat.Session.Run | ChatServer.java:667-676 | the loop ends, with the connection closed or the process ended |
| Chat.TruncatedRead | ChatServer.java:605-616 | `NCRbob` then the end of the stream: six bytes stored and counted, connection closed |
| Chat.TruncatedHandshake | ChatServer.java:667-676 | the same client as written: a closed connection registered as `bo` |
| Chat.TruncatedHandshakeChecked | ChatServer.java:667-676 | the same client with the check: closed and nameless |

## Left out

- The graphical console (`ServerUI.java`), the console's input loop, the pause of output and the log file: they only move text to and from the operator.
- Startup: the listening socket, the accept loop and the thread per connection. A session is created with the input its client will send.
- Threads and the `wait`/`notifyAll` pair between `disconnect` and `readMessage` (ChatServer.java:608-613, 646-648): every method is one atomic step, and any interleaving of them is a run of the model.
- Delivery of writes: each `print` to a client is a record in `wire`; whether a shut-down or closed socket delivers it is not modelled.
- The character set: a byte is read back as the character with the same code (one byte per character); multi-byte decoding is not modelled.
- `Chat.Session.Grow`: `bufSize *= 2` is unbounded, so the 32-bit overflow of a buffer past 2^30 bytes is not modelled.
- I/O exceptions and `printStackTrace`: the writes never fail. The one exception whose effect the model needs, the failed store of the terminator in a full buffer, is modelled in `Chat.Session.Finish`.
- `System.exit(0)` after QUIT is the `exited` flag; `Chat.Session.Run` stops when it is set.
- LIST prints `getInetAddress().toString().substring(1)`; the model takes that text as the session's `address`.
- `ERS` and unknown opcodes only log; the model changes nothing for them.
- `print` and `printE` (logging) throughout.
- `Chat.Session.Step` and `Chat.Session.Run` state progress and the registry bound, not the full state after a pass; the full state of each half is `FrameRead` and `Handled`.

## Findings

| source | as written | input that shows it | evidently intended | confidence | as-written member | corrected member |
|---|---|---|---|---|---|---|
| ChatServer.java:667-676 | `run()` calls `handleMessage()` after `readMessage()` has closed the socket at the end of the stream; the stored bytes count as a frame whose last byte is taken for the terminator | a client sends `NCRbob` and ends its stream without a terminator: the closed connection is registered under the name `bo`, and stays registered | skip the handling once the read has closed the connection, so a closed connection is never registered | not executed | Chat.TruncatedHandshake | Chat.Session.StepChecked |
