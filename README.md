# CommandPrompter: command pre-processing and chat prompts

CommandPrompter is a server plugin that lets a player type a command
containing `<...>` placeholders and then asks for each placeholder's value in
chat. This project models two pieces of it in Dafny and proves properties of
them.

- **Command pre-processing** (`CommandListener.onCommand`). When a player is
  about to run a command line, the listener does one of three things. If the
  player already has a prompt session, it suppresses the command and sends
  them the "still trying to complete a command" notice. Otherwise, if the line
  holds placeholders, it suppresses the command and registers one new session.
  The session carries the player, the ordered placeholder list and the
  untouched command line. Any other line passes through.
  The model is a `Listener` class over two further classes. `Plugin` holds the
  set of players in a command process, the log of registered sessions, the
  outbox of sent messages and the configured prompt prefix. `CommandEvent`
  holds the player, the message and the cancelled flag.
- **Placeholder scan** (module `Placeholders`). This is the find-all loop of
  the Java regular expression `<.*?>`, modelled from Java's regex semantics.
  Each `find` starts where the previous match ended and takes the leftmost
  position where a match starts. A match runs from a `<` to the first `>`
  after it. There must be no line terminator between them: `\n`, `\r`,
  U+0085, U+2028 or U+2029, the characters `.` refuses without DOTALL.
  The scan is a recursive function, `Scan`. It is proved equal to an
  independent description of a leftmost, non-overlapping find-all
  (`IsLeftmostScan`), and that description is proved to have one solution only.
  The regex helper class that runs the loop is not part of this model. Its
  result list is taken to hold the matched substrings in match order.
- **Chat prompt rendering** (`ChatPrompt.sendPrompt`, module `ChatPrompt`).
  The prompt text is split on the literal `{br}` the way Java's `String.split`
  does it with limit 0. Each piece is trimmed as Java's `String.trim` does,
  the prompt prefix is put in front, and one message is sent per piece, in
  order. `Render` returns that message sequence.

Java `split` details that the model keeps:
- The pattern `\{br}` is longer than one character, so `split` goes through
  `Pattern.split`.
- With no occurrence at all, the input comes back unchanged as the only
  piece, even when it is empty.
- Otherwise the trailing empty pieces are dropped, so `"{br}"` yields no
  message at all.
- Trimming happens after splitting, so a trailing piece made only of blanks
  is not dropped. It becomes a prefix-only message.

Strings are Dafny `seq<char>`, whose characters are Unicode scalar values.
Java works on UTF-16 code units instead. The characters matched here are all
in the Basic Multilingual Plane, so this makes no difference.

Registry behaviour. How `registerPrompt` and `inCommandProcess` work is not
part of this model. The model only assumes the registry is what decides
whether a player is mid-prompt. `RegisterPrompt` therefore appends the session
to the log and adds its player to the in-process set. Nothing in this model
removes a player from the set.

The placeholder scan does not simply ignore an unbalanced `<`. The same
characters with that delimiter removed can scan differently: `"<<a>"` yields
the single placeholder `"<<a>"`, not `"<a>"` (`UnbalancedOpenIsSwallowed`).
The model follows the regular expression the code uses.

## Model

| member | source | states |
|---|---|---|
| `Placeholders.FindClose` | src/main/java/com/cyr1en/cp/listener/CommandListener.java:31 | the lazy `.*?>` ends at offset e exactly when s[e] is `>` and nothing from j up to e is a `>` or a line terminator |
| `Placeholders.MatchAt` | src/main/java/com/cyr1en/cp/listener/CommandListener.java:31 | `<.*?>` matches at a with end b exactly when s[a..b] opens with `<`, closes with the first `>`, and has no line terminator; the end is unique, so each match is the shortest run |
| `Placeholders.Scan` | src/main/java/com/cyr1en/cp/listener/CommandListener.java:31-32 | every span found is a match starting at or after the scan start, and spans are ordered and non-overlapping |
| `Placeholders.Extract` | src/main/java/com/cyr1en/cp/listener/CommandListener.java:30-32 | the list has one entry per span, each the substring of the message at that span, and each starts with `<`, ends with `>`, and has no `>` or line terminator in between |
| `Placeholders.ScanIsLeftmost` | src/main/java/com/cyr1en/cp/listener/CommandListener.java:31-32 | the scan's spans are all matches, and no match begins before the first span, between two spans or after the last span |
| `Placeholders.LeftmostIsScan` | src/main/java/com/cyr1en/cp/listener/CommandListener.java:31-32 | any list of spans with the leftmost, non-overlapping property equals the scan, which makes the scan's result unique |
| `Placeholders.ExtractEmptyIff` | src/main/java/com/cyr1en/cp/listener/CommandListener.java:31-33 | the placeholder list is empty exactly when the message holds no match anywhere |
| `Placeholders.NoOpenBracketNoPlaceholder` | src/main/java/com/cyr1en/cp/listener/CommandListener.java:31-33 | a message with no `<` yields an empty list, not an error |
| `Placeholders.NoCloseOnLineNoPlaceholder` | src/main/java/com/cyr1en/cp/listener/CommandListener.java:31-33 | a message where every `<` is cut off from every later `>` by a line terminator yields an empty list |
| `Placeholders.UnbalancedOpenIsSwallowed` | src/main/java/com/cyr1en/cp/listener/CommandListener.java:31 | `"<<a>"` yields the one placeholder `"<<a>"`: an unbalanced `<` is absorbed into the match that follows it |
| `CommandListener.Plugin.InCommandProcess` | src/main/java/com/cyr1en/cp/listener/CommandListener.java:23 | a player is mid-prompt exactly when the registry's in-process set holds them |
| `CommandListener.Plugin.SendMessage` | src/main/java/com/cyr1en/cp/listener/CommandListener.java:26-27 | the message is appended to the outbox, addressed to the player, and nothing else changes |
| `CommandListener.Plugin.RegisterPrompt` | src/main/java/com/cyr1en/cp/listener/CommandListener.java:35 | the session is appended to the registry log and its player joins the in-process set |
| `CommandListener.CommandEvent.SetCancelled` | src/main/java/com/cyr1en/cp/listener/CommandListener.java:28 | the event's cancelled flag takes the given value |
| `CommandListener.Listener.constructor` | src/main/java/com/cyr1en/cp/listener/CommandListener.java:17-19 | the listener keeps the plugin it is given |
| `CommandListener.Listener.OnCommand` | src/main/java/com/cyr1en/cp/listener/CommandListener.java:22-38 | busy player: the event is cancelled, exactly one message (prefix then busy notice) is sent, no session is registered. Otherwise, with placeholders: the event is cancelled and exactly one session (player, the full `Extract` list of the message, the message unchanged) is registered, with no message sent. Otherwise: the flag and all plugin state stay as they were |
| `ChatPrompt.FindBr` | src/main/java/com/cyr1en/commandprompter/prompt/prompts/ChatPrompt.java:42 | the result is the leftmost occurrence of `{br}` at or after the start offset, and there is none when no occurrence exists |
| `ChatPrompt.Pieces` | src/main/java/com/cyr1en/commandprompter/prompt/prompts/ChatPrompt.java:42 | the pieces between occurrences of `{br}` number at least one and none of them contains `{br}` |
| `ChatPrompt.DropTrailingEmpty` | src/main/java/com/cyr1en/commandprompter/prompt/prompts/ChatPrompt.java:42 | the result is a prefix of the list, everything dropped is empty, and the last piece kept is nonempty |
| `ChatPrompt.Lead` | src/main/java/com/cyr1en/commandprompter/prompt/prompts/ChatPrompt.java:42 | the count covers exactly the leading characters up to U+0020 |
| `ChatPrompt.TrimEnd` | src/main/java/com/cyr1en/commandprompter/prompt/prompts/ChatPrompt.java:42 | the result is a prefix of the input whose removed suffix is all characters up to U+0020, and its last character is above U+0020 |
| `ChatPrompt.Trim` | src/main/java/com/cyr1en/commandprompter/prompt/prompts/ChatPrompt.java:42 | the result is the substring between the blank prefix and blank suffix, and neither of its ends is a character up to U+0020 |
| `ChatPrompt.PiecesJoin` | src/main/java/com/cyr1en/commandprompter/prompt/prompts/ChatPrompt.java:42 | splitting pieces free of `{br}` after joining them with `{br}` gives back those pieces, so the pieces are the only such decomposition of the prompt |
| `ChatPrompt.JoinPieces` | src/main/java/com/cyr1en/commandprompter/prompt/prompts/ChatPrompt.java:42 | splitting loses nothing: joining the pieces with `{br}` gives back the prompt |
| `ChatPrompt.Split` | src/main/java/com/cyr1en/commandprompter/prompt/prompts/ChatPrompt.java:42 | with no `{br}` the result is the prompt itself; otherwise it is the pieces up to the last nonempty one, with leading and interior empties kept and only empties dropped; no piece contains `{br}` |
| `ChatPrompt.RenderPiece` | src/main/java/com/cyr1en/commandprompter/prompt/prompts/ChatPrompt.java:43-44 | the text after the prefix is the trimmed piece, free of `{br}` and with no blank at either end |
| `ChatPrompt.Render` | src/main/java/com/cyr1en/commandprompter/prompt/prompts/ChatPrompt.java:41-45 | one message per split piece, in order; message i is the prefix followed by the trimmed piece i, and holds no `{br}` and no blank at either end after the prefix |
| `ChatPrompt.SingleLine` | src/main/java/com/cyr1en/commandprompter/prompt/prompts/ChatPrompt.java:42 | a prompt without `{br}` yields exactly one message, the prefix plus the trimmed prompt |
| `ChatPrompt.FindBrAfter` | src/main/java/com/cyr1en/commandprompter/prompt/prompts/ChatPrompt.java:42 | in text free of `{br}` followed by `{br}`, the first occurrence is that appended one: no occurrence can straddle the join |
| `ChatPrompt.PiecesAfter` | src/main/java/com/cyr1en/commandprompter/prompt/prompts/ChatPrompt.java:42 | splitting such text followed by `{br}` and a rest gives that text, then the pieces of the rest |
| `ChatPrompt.OneBreak` | src/main/java/com/cyr1en/commandprompter/prompt/prompts/ChatPrompt.java:42 | a piece, `{br}`, a piece (both free of `{br}`): two messages when the second piece is nonempty, including a prefix-only first one when the first piece is empty; one message when only the second is empty (so `"a{br}"` gives one message); no message when both are empty (`"{br}"` alone) |
| `ChatPrompt.InteriorEmptyKept` | src/main/java/com/cyr1en/commandprompter/prompt/prompts/ChatPrompt.java:42 | text, `{br}{br}`, nonempty text: a prefix-only message sits between the two trimmed pieces |
| `ChatPrompt.InteriorSplit` | src/main/java/com/cyr1en/commandprompter/prompt/prompts/ChatPrompt.java:42 | text, `{br}{br}`, nonempty text splits into the first text, an empty piece, and the second text |

`Extract` takes only the message as its argument. So the same message always
yields the same list, whatever the plugin state.

## Left out

- Colour-code translation (`ChatColor.translateAlternateColorCodes`, `color(...)`): a library call. Messages stop at prefix plus text.
- Message delivery (`sendMessage`) and the debug line printed to standard output are I/O. Sent messages are recorded in an outbox only.
- Reading "Prompt-Prefix" from the configuration: the value is a constant field of `Plugin`.
- The registry's internals, the prompt queue, answer collection and substitution, cancellation and session removal are not shown in the modelled files. The registry is an abstract set plus a log.
- `CommandListener.Plugin.RegisterPrompt`: joining the in-process set on registration is an assumption. It follows from the registry deciding whether a player is mid-prompt; the registry's code is not part of this model.
- Plugin lifecycle and host wiring (metrics, configuration loading, localisation, update checks, command registration, the delayed reflective command-map swap, reload): host glue, not part of this model. `Prompt.java` is an interface without behaviour. `PvtFieldMutationException.java` is only an exception message.
- Java strings are UTF-16. The model's characters are Unicode scalar values, and a surrogate pair counts as one character.
