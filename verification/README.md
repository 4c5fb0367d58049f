# A verified model of the glirc IRC client

This Dafny project models the hard, self-contained algorithms and protocol loops of the glirc IRC client and of its two
libraries, `irc-core` (directory `lib`) and `hookup`, and proves what each of them promises. There is one module for
each component; `Text.dfy` holds the two text scanners they share.

| file | component | main result |
|---|---|---|
| `RawIrcMsg.dfy`, `UserInfo.dfy` | the IRC wire format: parser and printer | printing then parsing is the identity exactly on the well-formed messages; every parse is well formed, with one family of exceptions; spacing and optional colons do not change what is parsed |
| `Concurrent.dfy` | the happy-eyeballs connector | in every interleaving: conservation of attempts, pacing of starts, one error for each attempt, nothing but the winner is kept, termination |
| `Recognizer.dfy` | the command trie | union of tries is union of maps, with the exact winner of every conflict; `recognize` and `keys` describe exactly the key set |
| `Mask.dfy`, `Glob.dfy`, `MaskReading.dfy`, `QuestionMark.dfy`, `MaskPromise.dfy` | hostmask globs compiled to a regular expression | the regular expression accepts a text exactly when some mask matches it as a glob; exactly for which masks and users this is what is documented |
| `LineReader.dfy` | the buffered line reader | the lines returned are those of the stream, however the network cuts the bytes; whether a line that is not yet in the buffer is returned or rejected depends on the chunks exactly when it has n to 2n-2 bytes |
| `LineWrap.dfy`, `ContextFilter.dfy`, `ServerMap.dfy`, `Modes.dfy`, `Cycles.dfy`, `WindowNames.dfy`, `Addresses.dfy` | algorithms of the client | each equals a declarative specification |
| `RateLimit.dfy`, `Scram.dfy`, `Socks5.dfy`, `Timers.dfy` | flood limiter, SCRAM, SOCKS5, extension timers | flood bound, completeness against a server written from the RFC, self-delimiting messages, timer safety |
| `Identifier.dfy` | case folding and order of identifiers | folding bytes is folding characters; the order is total |

The model takes the form of the source. Code made of expressions and recursion is written as functions with lemmas about
them. Code that changes state is written as classes and loops: the line reader's buffer, the SOCKS5 socket, the rate
limiter's stamp, the timer fields of the OTR extension, the array filled by case folding. The connector and the window
commands, which thread a record, are transition systems whose runs are sequences of steps.

The environment appears as follows. A chunk from the network is any nonempty prefix of at most the requested size of
what the peer has still to send, or an exception. Clock readings are parameters. A thread of the connector may finish
either way at any step. The order in which a hash map lists its keys is any order that lists each once. Digest, HMAC and
base64 are function parameters with the laws in `Scram.Lawful`.

## Where the code and its documentation disagree

The model follows the code. Each difference is stated as a theorem, with the exact condition under which the documented
promise holds, and most with a lemma about a concrete input that breaks it.

- The trie union is documented as biased to the left. The two calls of `insertWith` pass combiners that are applied to
  the new branch first, so a value of the right operand wins a conflict exactly when the operands have changed places an
  odd number of times on the way to the key (`Recognizers.BothLookup`, `Recognizers.LeftBias`), that is, when an odd
  number of the key's prefixes are forks of just one of the two key sets (`Recognizers.SwappedIsOdd`,
  `Recognizers.EndIsFork`). `fromCommands` and `addCommand` inherit this (`EarliestWins`, `EarliestFails`,
  `AddCommandOverrides`, `OverrideFails`). The functions take a flag, `fixed`: with it the two combiners are exchanged,
  and the documented bias is proved for all inputs.
- A mask's `?` is documented as one arbitrary character, and the regular expression has `.?`. `QuestionMarkExactly` says
  for which masks no user can tell, `QuestionMarkExample` has the nickname `a` and the mask `a?`.
- Case folding turns every bar of a mask into a backslash before the mask is read. `\|` still matches a bar, but a bar
  that is not escaped can escape the next character. `MaskReading` says for which masks the reading is the documented
  one, and `BarExample` has the nickname `a||`. `ExactlyAsDocumented` is about both differences at once: for which masks
  the hostmask of every user is matched as documented.
- Missing parts of a mask are documented to be wildcards (src/Client/Mask.hs:27-28); nicknames alone and `nick@host` are
  among the documented forms (src/Client/Commands/Window.hs:177-190), and the configuration has a list of nicknames to
  ignore (README.md:182). But the mask is completed with delimiters, and the hostmask of a user without a user name or
  host lacks one. Such a user, which a prefix may well describe (src/Client/State.hs:486-490), is matched by no mask, not
  even by `*`, unless the host has delimiters of its own. `Matchable` says which users masks can match at all,
  `PlainNickname` when a nickname works as a mask, and `IncompleteExample` has the prefixes `a` and `a@h` with the masks
  `a`, `*` and `a@h`.
- `filterContext` keeps too much when more context is asked for than there are inputs (`ContextFilters.TooMuchContext`);
  `ContextFilters.FilterContextMeans` has the exact condition.
- A hostmask token of only delimiters parses to an empty prefix, which prints as something that does not parse
  (`RawIrcMsgs.ParsePrintParse`, `RawIrcMsgs.UnprintablePrefixTokens`); one such message is `:! X`
  (`RawIrcMsgs.UnprintableExample`).
- The maximum line length of `recvLine` is no maximum: a line of n to 2n-2 bytes is returned for some chunks and rejected
  for others (`LineReader.CanReturn`, `LineReader.CanReject`); `LineReader.ChunksMatter` says that no other is.
- The SCRAM client writes the authorization identity without the `a=` of section 7 of RFC 5802, so a server reads it back
  exactly when it is empty (`Scram.AuthzidRead`, `Scram.ClientFirstBack`); with `b` the first message is refused
  (`Scram.AuthzidRefused`). A user name that is empty or has a NUL is not covered by the standard either.
- A SCRAM iteration count below one is accepted from the server and leaves an undefined key (`Scram.OfferRefused`).
- `buildPlainAuthentication` truncates the length of long credentials to a byte (`Socks5.PlainAuthenticationReads`); the
  handshake checks the length before it is called.
- `/setname` without a letter unsets the window's letter so that it becomes available, but chooses the next one from the
  state before: it fails when the window's own letter is the only one left (`WindowNames.OwnLetterUnavailable`,
  `WindowNames.OwnLetterExample`).

## Model

| member | source | states |
|---|---|---|
| RawIrcMsgs.RoundTrip | lib/src/Irc/RawIrcMsg.hs:132-267 | Rendering a message and parsing it without its CR LF gives the message back if and only if it is well formed: space-free nonempty command, at most 15 parameters of which all but the last are nonempty, space-free and do not start with a colon, tag keys free of `=`, `;` and space, and a splittable prefix that is not all empty |
| RawIrcMsgs.ParsePrintParse | lib/src/Irc/RawIrcMsg.hs:97-103 | For every text that parses, parsing the rendered result gives the same message, except that an all-empty prefix renders to something that does not parse |
| RawIrcMsgs.UnprintablePrefixTokens | lib/src/Irc/RawIrcMsg.hs:202-206 | The exception happens exactly for the prefix tokens `!`, `@` and `!@` |
| RawIrcMsgs.UnprintableExample | lib/src/Irc/RawIrcMsg.hs:202-206 | The text `:! X` is parsed, and what is printed for it is not |
| RawIrcMsgs.ParseShape | lib/src/Irc/RawIrcMsg.hs:132-176 | Every parse result, for any middle-parameter limit, has the shape the printer needs |
| RawIrcMsgs.SpellParse | lib/src/Irc/RawIrcMsg.hs:61-64 | The parser is permissive about spaces: from every spelling of a message, with any number of spaces in every gap and a colon before the last parameter or not, it reads exactly that message |
| RawIrcMsgs.WireIsSpelling | lib/src/Irc/RawIrcMsg.hs:220-267 | What the printer writes is one of those spellings |
| RawIrcMsgs.BuildIsSpelling | lib/src/Irc/RawIrcMsg.hs:260-267 | The printed parameter list is a spelling, the colon exactly where the printer decides to put it |
| RawIrcMsgs.ParamsShape | lib/src/Irc/RawIrcMsg.hs:147-168 | After skipped spaces the parameter parser never fails, and yields at most one parameter more than the limit, the others being middle parameters |
| RawIrcMsgs.ParamsBack | lib/src/Irc/RawIrcMsg.hs:147-168 | Every spelling of a parameter list parses to that list, at every middle-parameter limit |
| RawIrcMsgs.TagListBack | lib/src/Irc/RawIrcMsg.hs:170-178 | Every nonempty tag list is read back from its rendering, up to the space that follows |
| RawIrcMsgs.PrefixBack | lib/src/Irc/RawIrcMsg.hs:202-206 | A rendered prefix is read back, unless it is all empty: then parsing fails |
| RawIrcMsgs.UnescapeEscape | lib/src/Irc/RawIrcMsg.hs:181-200 | Unescaping undoes escaping for every tag value |
| RawIrcMsgs.Escape | lib/src/Irc/RawIrcMsg.hs:192-200 | An escaped value has no semicolon, space, CR or LF, and is empty only for the empty value |
| RawIrcMsgs.EscapesRead | lib/src/Irc/RawIrcMsg.hs:181-190 | On literal text: `\:`, `\s`, `\\`, `\r` and `\n` stand for semicolon, space, backslash, CR and LF; a backslash before anything else or at the end stays, and so does any other character |
| RawIrcMsgs.PlainValue | lib/src/Irc/RawIrcMsg.hs:181-190 | A value without backslashes is read unchanged |
| RawIrcMsgs.EscapesWritten | lib/src/Irc/RawIrcMsg.hs:192-200 | Values are escaped character by character, the five characters to those five escapes, and all others to themselves |
| RawIrcMsgs.TaggedCommand | lib/src/Irc/RawIrcMsg.hs:170-190 | A text with one tag and a command parses to the tag with the unescaped value, for every key, value and command |
| RawIrcMsgs.TaggedExample | lib/src/Irc/RawIrcMsg.hs:181-190 | The tag value `a\sb` is received as `a b` |
| RawIrcMsgs.LastParameter | lib/src/Irc/RawIrcMsg.hs:260-264 | The last parameter gets a colon exactly when it is empty, has a space or starts with a colon |
| RawIrcMsgs.TagWritten | lib/src/Irc/RawIrcMsg.hs:237-250 | A tag is printed with an equals sign exactly when it has a value |
| RawIrcMsgs.EmptyParameters | lib/src/Irc/RawIrcMsg.hs:260-267 | A message with empty parameters before the last one arrives with `*` in their places |
| UserInfos.UserInfoRoundTrip | lib/src/Irc/UserInfo.hs:56-74 | Splitting a rendered hostmask gives it back if and only if the nickname has no `!` or `@` and the username no `@` |
| UserInfos.EmptyHostmasks | lib/src/Irc/UserInfo.hs:63-74 | Exactly the empty token, `!`, `@` and `!@` split into three empty fields |
| UserInfos.ParseUserInfo | lib/src/Irc/UserInfo.hs:63-74 | The result is always in the domain where rendering can be undone |
| UserInfos.HostmaskText | lib/src/Irc/UserInfo.hs:57-74 | On literal text, for every hostmask with or without user name and host: the nickname ends at the first delimiter, the user name is what follows `!` up to the first `@`, the host what follows that |
| ConcurrentAttempts.Conservation | hookup/src/Hookup/Concurrent.hs:45-62 | In every run attempts start in list order, and until there is an answer each attempt is in exactly one place: watched, failed or not started; the counts add up to the total |
| ConcurrentAttempts.StartPacing | hookup/src/Hookup/Concurrent.hs:50-89 | An attempt is started only by the event loop, is the next in the list, and is started only when all earlier ones have failed or, with no watched attempt finished, the delay has passed since the last start |
| ConcurrentAttempts.DelayedStart | hookup/src/Hookup/Concurrent.hs:84-95 | While attempts are left and the delay has passed, the timer has fired or can fire, and then the loop starts the next attempt unless a watched one has finished |
| ConcurrentAttempts.LeftMeansAllFailed | hookup/src/Hookup/Concurrent.hs:50-55 | Errors are returned only when every attempt has failed, with exactly one error for each attempt, its own |
| ConcurrentAttempts.OnlyTheWinnerIsKept | hookup/src/Hookup/Concurrent.hs:77-104 | After a win the winner is never released, only successes are released and none twice; once the cleanup worker is done nothing is running and every other success has been released exactly once |
| ConcurrentAttempts.LoopTerminates | hookup/src/Hookup/Concurrent.hs:45-89 | The event loop makes fewer than 2n transactions in every run; twice the unstarted plus the watched attempts pays for each |
| ConcurrentAttempts.NeverStuck | hookup/src/Hookup/Concurrent.hs:64-104 | While waiting, the loop can step or some watched thread is running; after a win, the worker can step or is done or waits for a running thread |
| ConcurrentAttempts.TakesFirst | hookup/src/Hookup/Concurrent.hs:65-90 | In every run a transaction takes the first finished thread of the list: a success is the answer, an error is put in front of the earlier ones, and without a finished thread no error is added |
| ConcurrentAttempts.OnlyTheLoopReports | hookup/src/Hookup/Concurrent.hs:64-89 | No other step adds an error or answers |
| ConcurrentAttempts.StartDated | hookup/src/Hookup/Concurrent.hs:58-62 | A start records the time and sets its thread running, and nothing else changes the record |
| ConcurrentAttempts.Environment | hookup/src/Hookup/Concurrent.hs:56-96 | A running thread may succeed or fail at any moment, time passes, and the timer fires once its deadline has come |
| ConcurrentAttempts.RunInv | hookup/src/Hookup/Concurrent.hs:25-104 | The invariant of loop, worker, threads and histories holds in every reachable state |
| ConcurrentAttempts.ApplyInv | hookup/src/Hookup/Concurrent.hs:45-104 | Every single step keeps the invariant |
| ConcurrentAttempts.FinishKeeps | hookup/src/Hookup/Concurrent.hs:71-89 | The transaction of the loop keeps the invariant wherever in the thread list it finds the finished thread |
| Recognizers.BothLookup | src/Client/Commands/Recognizer.hs:75-97 | What the union of two tries associates with a key: the left value first, except that the right value wins exactly when the operands have changed places an odd number of times |
| Recognizers.UnionOfKeys | src/Client/Commands/Recognizer.hs:75-97 | The keys of the union are the keys of both operands, and each value comes from an operand that binds the key |
| Recognizers.LeftBias | src/Client/Commands/Recognizer.hs:75-97 | At a conflict the documented left bias holds if and only if the operands are not swapped there, and always with the combiners exchanged |
| Recognizers.FromCommandsMeans | src/Client/Commands/Recognizer.hs:99-111 | A trie built by pairwise merging binds exactly the listed keys; for pairwise distinct keys it is exactly the association list, and with the combiners exchanged it is the first-wins map of every list |
| Recognizers.EarliestWins | src/Client/Commands/Recognizer.hs:108-111 | The earliest of several values for a key is used if and only if, joining the command list two by two into larger blocks, its block never meets another one with the key where an odd number of the key's prefixes are forks of just one of the two |
| Recognizers.SwappedIsOdd | src/Client/Commands/Recognizer.hs:82-97 | Where both tries bind a key, the operands end up swapped if and only if an odd number of the key's proper prefixes are branch ends of just one of them |
| Recognizers.EndIsFork | src/Client/Commands/Recognizer.hs:32-36 | The branch ends of a radix tree are determined by its keys: exactly the keys and the texts where two keys part |
| Recognizers.BothRadix | src/Client/Commands/Recognizer.hs:77-97 | The union of radix trees is one: every branch holds a value or parts in two |
| Recognizers.EarliestFails | src/Client/Commands/Recognizer.hs:108-111 | A list of three commands for which the later value is found |
| Recognizers.AddCommandOverrides | src/Client/Commands/Recognizer.hs:113-116 | Adding a command overrides the present value exactly when the branch of the key is at an even depth; other keys are never touched |
| Recognizers.OverrideFails | src/Client/Commands/Recognizer.hs:113-116 | A trie of two commands to which a third is added without overriding |
| Recognizers.PairsLookup | src/Client/Commands/Recognizer.hs:99-106 | One round of pairwise merging keeps the bound keys, and the first binding unless several tries bind the key |
| Recognizers.AllLookup | src/Client/Commands/Recognizer.hs:99-106 | Merging any number of tries binds exactly the keys of some trie, to the first value when at most one binds it |
| Recognizers.SwappedSingle | src/Client/Commands/Recognizer.hs:82-97 | For a single new key the operands end up swapped exactly when its branch is at an odd depth |
| Recognizers.RecognizeCommands | src/Client/Commands/Recognizer.hs:56-69 | For every list of distinct commands and every text: exact with v if and only if the text maps to v; a prefix answer lists each missing suffix once and no other; invalid if and only if no command extends the text, except that the empty list calls the empty text a prefix |
| Recognizers.RecognizeDescribes | src/Client/Commands/Recognizer.hs:56-69 | The same for every trie, in terms of what the trie associates with the extensions of the text |
| Recognizers.KeysExact | src/Client/Commands/Recognizer.hs:118-126 | `keys` lists exactly the keys of the trie, each once, for every listing order of the hash maps |
| Recognizers.BothProper | src/Client/Commands/Recognizer.hs:77-97 | The union never creates a branch that leads to no key |
| Masks.MaskMeaning | src/Client/Mask.hs:29-82 | The compiled text, read as an anchored extended regular expression, accepts a text if and only if some folded and completed mask matches it as a glob, for all masks and metacharacters; the empty list accepts only the empty text |
| Masks.BuildMaskParses | src/Client/Mask.hs:61-82 | The emitted text is always a readable regular expression whose branches are the translated masks, one each |
| Masks.LexTranslate | src/Client/Mask.hs:73-82 | The tokens of a translated mask are those of its glob: every metacharacter is escaped and no escape is broken |
| Masks.PiecesMatch | src/Client/Mask.hs:78-82 | Matching the emitted pieces with backtracking is matching the glob |
| Masks.MissingComponents | src/Client/Mask.hs:45-59 | For every mask: a component with its delimiter is kept, even an empty one, and a missing one becomes `*` |
| Masks.EveryMask | src/Client/Mask.hs:48-51 | Every text is such a mask: nickname up to the first delimiter, user up to the first `@`, host |
| MaskPromises.ExactlyAsDocumented | src/Client/Mask.hs:18-79 | For every mask: it matches the hostmasks of all users as documented, with `?` and escapes taken together, if and only if its bars pair up and it has no `?` that anybody notices, or it matches nobody in either reading |
| MaskPromises.BarsMatter | src/Client/Mask.hs:25-33 | For every mask whose bars do not pair up there is a user it treats differently than documented, unless it matches nobody in either reading |
| MaskPromises.Matchable | src/Client/Mask.hs:36-57 | No list of masks matches a user that `*` does not match, and `*` matches exactly the users with both a user name and a host, and those without a user name whose host has a `!` and then an `@` |
| MaskPromises.AsDocumented | src/Client/Mask.hs:18-42 | For every list of masks whose bars pair up and that has no `?` wildcard: hostmasks are matched as documented; a user with a user name and a host is matched as documented; of the others, unless the host has a `!` and then an `@`, none is matched, whatever is documented |
| MaskPromises.PlainNickname | src/Client/Mask.hs:25-42 | A nickname used as a mask is documented to match whoever has it; it does if and only if no two of its bars stand together and the user has a user name and a host |
| MaskPromises.IncompleteExample | src/Client/State.hs:486-490 | The prefixes `a` and `a@h` are ignored by none of the masks `a`, `*` and `a@h`, though documented to be |
| MaskPromises.BarExample | src/Client/Mask.hs:25-42 | The mask of a letter and two bars does not match the nickname it spells, though documented to |
| QuestionMarks.QuestionMarkExactly | src/Client/Mask.hs:23-79 | For every mask: it means what is documented about `?` for every user a hostmask can describe if and only if it has no `?`, or only such as no user can notice; with a user and a host part, a single one in either of nothing but wildcards, and with an empty one, some that stand with the wildcards that have to run past an `@`, under the stated conditions on the other parts |
| QuestionMarks.QuestionMarkMatters | src/Client/Mask.hs:23-79 | For every mask with another `?` there is a user that is matched, but not as documented |
| QuestionMarks.QuestionMarkExample | src/Client/Mask.hs:23-79 | The mask `a?` matches the nickname `a` |
| MaskReadings.MaskReading | src/Client/Mask.hs:25-33 | A mask is read as documented if and only if its bars pair up: each run of bars and backslashes, with every backslash paired to the character after it, leaves at most one character over, and a bar left over is not followed by a wildcard |
| MaskReadings.BarReading | src/Client/Mask.hs:67-82 | The same for every part of a mask |
| MaskReadings.TwoReadings | src/Client/Mask.hs:67-82 | When bars do not pair up, the reading of the code has fewer of the characters that escapes are about, backslashes counted twice |
| MaskReadings.FoldComponents | src/Client/Mask.hs:33-59 | Completing a mask and folding it can be done in either order |
| LineReader.Connection.RecvLine | hookup/src/Hookup.hs:483-535 | One call against its specification: a line is the bytes before the first newline less one trailing byte 0x0D, with the rest left; end, truncation and the length limit each in exactly their case; an exception restores the buffer; the outcome is that of some way to cut the incoming bytes into chunks |
| LineReader.ChunksMatter | hookup/src/Hookup.hs:494-518 | The outcome of a call is the same for all chunks if and only if the buffer decides already, no line ends, or the first line has fewer than n or more than 2n-2 bytes |
| LineReader.CanReturn | hookup/src/Hookup.hs:506-518 | A line of n to 2n-2 bytes is returned for some chunks |
| LineReader.CanReject | hookup/src/Hookup.hs:506-518 | The same line is rejected for others |
| LineReader.Connection.Recv | hookup/src/Hookup.hs:465-481 | The returned chunk and what is left are the bytes there were; nothing is returned only at the end of the stream |
| LineReader.Connection.PutBuf | hookup/src/Hookup.hs:520-529 | Bytes pushed back are the next to be read |
| LineReader.RunDelivers | hookup/src/Hookup.hs:494-535 | Whatever the chunks, successive calls return the lines of the stream in order with at most one CR removed and leave exactly the rest; from a buffer below the limit no line exceeds 2n-2 bytes and the buffer stays below n |
| LineReader.LineEndings | hookup/src/Hookup.hs:483-535 | A call that returns a line returns exactly the bytes before 0x0D 0x0A, or before a lone 0x0A, and leaves those after it, for every body, rest and buffer |
| LineReader.RunReadsSent | hookup/src/Hookup.hs:483-535 | In every run over lines sent with either ending, mixed in any way, the calls return the bodies in order and leave the following lines |
| LineReader.RunConserves | hookup/src/Hookup.hs:498-518 | Delivered lines with their newlines and the bytes left are exactly the bytes received |
| LineReader.RunEnds | hookup/src/Hookup.hs:485-518 | End of stream is reported only when every line was delivered and nothing is left, truncation only with an unterminated rest, and a line is rejected only when it has at least n bytes |
| LineReader.ShortLineAccepted | hookup/src/Hookup.hs:494-518 | A line shorter than the limit is never rejected |
| LineWrap.WrapLayout | src/Client/Image/LineWrap.hs:65-116 | Every line is a piece of the text of width at most w, in order; only spaces are lost; later lines never start with a space; every break is the specified greedy one and cuts only words of at least w characters |
| LineWrap.WidthBest | src/Client/Image/LineWrap.hs:84-107 | The scan over running word widths chooses the last space that fits, or the full width when there is none or the next word would overflow a line of its own |
| LineWrap.OptionsAreEnds | src/Client/Image/LineWrap.hs:99-107 | The break options are exactly the positive positions where a word can end |
| LineWrap.LongWord | src/Client/Image/LineWrap.hs:88-96 | When a break falls inside a word, the word has at least w characters |
| ContextFilters.FilterContextMeans | src/ContextFilter.hs:26-52 | The one-pass window equals the specification, keep what is near a match, if and only if the context before is no longer than the input, or nothing matches, or the last match is within the context after of the end |
| ContextFilters.TooMuchContext | src/ContextFilter.hs:51-52 | An input of two elements where the code keeps one too many |
| ContextFilters.GoKeeps | src/ContextFilter.hs:39-52 | At every position the pending window and the lagging list yield the rest of the specified answer |
| ServerMaps.BuildServerMapMeans | src/Client/Configuration.hs:490-512 | With distinct own names the map has exactly the names that lead back to the root through what they extend, each with the changes along that path applied to the defaults |
| ServerMaps.OrphansAreAbsent | src/Client/Configuration.hs:502-512 | No member of a group that only extends itself, in a circle or through a missing name, is in the map |
| ServerMaps.ChainUnique | src/Client/Configuration.hs:500-504 | There is at most one inheritance path to an entry |
| ServerMaps.ChainShort | src/Client/Configuration.hs:502-512 | No path visits an entry twice, which is why the recursion terminates |
| Modes.Accepted | lib/src/Irc/Modes.hs:100-125 | A mode change is accepted if and only if every letter is known under its sign and there are no more arguments than letters that take one |
| Modes.SplitMeans | lib/src/Irc/Modes.hs:100-125 | Every letter becomes one change, in order, with the last sign before it; letters of the list, always-argument and prefix modes, and of the set-argument modes under a plus, take the next argument while there is one, and no other letter does |
| Modes.Kinds | lib/src/Irc/Modes.hs:110-121 | The letters with and without argument under each sign, in terms of the five fields |
| Modes.SetArgExample | lib/src/Irc/Modes.hs:110-121 | With the default types `-lo bob` unsets the limit without an argument and takes operator status from `bob` |
| Modes.RoundTrip | lib/src/Irc/Modes.hs:86-140 | Reading what was written for a list of changes gives it back if and only if a message can carry the list |
| Modes.FlagsShortest | lib/src/Irc/Modes.hs:127-140 | Among all texts that mean these changes, the one that is written is no longer than any other |
| Modes.SplitRoundTrip | lib/src/Irc/Modes.hs:86-140 | Every accepted change with nonempty arguments survives writing and reading, and its arguments are those given, in order |
| Modes.ChunkedRoundTrip | src/Client/Commands/Channel.hs:212 | Changes cut into messages of any positive size, written and read one by one, are the whole change |
| Modes.SplitThenChunk | src/Client/Commands/Channel.hs:212 | The same for whatever a user types that is accepted |
| Cycles.TabCycle | src/Client/Commands/WordCompletion.hs:151-169 | Completion fails only without matches, is otherwise the cyclic successor, visits all matches once and returns, in both directions, and the reversed search undoes it |
| Cycles.TabSearchMeans | src/Client/Commands/WordCompletion.hs:151-169 | For every previous result and both directions: nothing exactly when no possibility has the prefix, otherwise the least one beyond the previous result, or the first of all when there is none beyond |
| Cycles.FocusCycle | src/Client/State.hs:1136-1178 | Advancing through the visible windows visits each once and returns, and so does retreating; retreating undoes advancing |
| Cycles.StepFocusIsNext | src/Client/State.hs:1165-1178 | Splitting the windows around the current one and taking an end is the cyclic successor, in both directions |
| Cycles.StepFocusMeans | src/Client/State.hs:1165-1178 | From any window, hidden ones included, the focus goes to the nearest other visible window in the direction, or to the far end, and stays where there is no other |
| Cycles.FlipUndoes | src/Client/State.hs:1138-1148 | The successor in the reversed order is the inverse of the successor |
| Cycles.IdentifierOrder | lib/src/Irc/Identifier.hs:61-67 | The order of identifiers meets what cycling needs |
| RateLimits.FloodBound | lib/src/Irc/RateLimit.hs:51-63 | Between any two ticks the elapsed time plus the threshold pays the penalty of every event after the first |
| RateLimits.SleepBound | lib/src/Irc/RateLimit.hs:55-63 | No call asks for more than the penalty rounded up to a microsecond |
| RateLimits.LeastSleep | lib/src/Irc/RateLimit.hs:55-61 | The sleep asked for is the least number of microseconds after which the stamp is at most the threshold ahead |
| RateLimits.Burst | lib/src/Irc/RateLimit.hs:55-63 | An idle client sends without sleeping exactly as many events as the threshold pays for |
| RateLimits.NotTooFarAhead | lib/src/Irc/RateLimit.hs:55-63 | When a call returns the stamp is at most the threshold ahead of the clock |
| RateLimits.RateLimit.Tick | lib/src/Irc/RateLimit.hs:51-63 | One tick sets the stamp to the penalty after the later of stamp and clock, and asks for the least sleep that meets the threshold |
| RateLimits.RateLimit.constructor | lib/src/Irc/RateLimit.hs:36-49 | A new limiter clamps both settings at zero and starts at the present |
| Scram.ExchangeSucceeds | src/Client/Authentication/Scram.hs:54-124 | Without an authorization identity, for every nonempty user name without NUL, every password, salt and positive count: a server that follows RFC 5802 reads the first message, finds its header as channel binding, recovers a key that hashes to the stored one, and the client accepts its signature and no other |
| Scram.AuthzidRead | src/Client/Authentication/Scram.hs:72-74 | What such a server makes of any authorization identity: only the empty one is read back; the others are refused, or taken for a different one when their encoding begins with `a=` |
| Scram.AuthzidRefused | src/Client/Authentication/Scram.hs:72-74 | With the identity `b` the first message is refused |
| Scram.ClientFirstBack | src/Client/Authentication/Scram.hs:63-74 | The server reads back names, nonce and header of the first message if and only if the authorization identity is empty, the user name nonempty and free of NUL, and the nonce printable; the client keeps that header as its channel binding |
| Scram.ClientAnswers | src/Client/Authentication/Scram.hs:87-113 | The answer to an honest server, byte for byte: `c=`, `,r=` and `,p=` with the channel binding, the nonce and the proof of RFC 5802, and the expected signature |
| Scram.ServerAccepts | src/Client/Authentication/Scram.hs:152-170 | The proof passes the server's check, which answers the signature the client expects, exactly when the channel binding decodes to the header the server was sent |
| Scram.OnlyThisSignature | src/Client/Authentication/Scram.hs:115-124 | The final message is accepted if and only if it has the expected signature |
| Scram.OfferRefused | src/Client/Authentication/Scram.hs:89-107 | A first message of nonce, salt and count, whatever extensions follow, is refused exactly when the nonce does not properly extend the client's, the salt is not base64 or the count is not a number, and is undefined exactly for an accepted count below one |
| Scram.OnlyOffersAnswered | src/Client/Authentication/Scram.hs:89-97 | Every first message that is not refused has that form |
| Scram.HiIsSpec | src/Client/Authentication/Scram.hs:133-143 | Folding the list of iterates is the key derivation of section 2.2 of RFC 5802 |
| Scram.XorIsCombine | src/Client/Authentication/Scram.hs:130-131 | Combining bytes is the exclusive or of the standard, written out with and, or and not |
| Scram.XorBits | src/Client/Authentication/Scram.hs:130-131 | A bit of the result is set exactly when it is set in one operand and not in the other; the result is as long as the shorter operand |
| Scram.StepIsStandard | src/Client/Authentication/Scram.hs:152-170 | Proof and signature are those of section 3 of RFC 5802, with the key names as text |
| Scram.ClientFirstText | src/Client/Authentication/Scram.hs:63-74 | The first message and the channel binding as text |
| Scram.UsernameRoundTrip | src/Client/Authentication/Scram.hs:178-184 | The username encoding can be undone for every name |
| Scram.EncodedText | src/Client/Authentication/Scram.hs:178-184 | Names are encoded byte by byte, a comma as `=2C`, an equals sign as `=3D`, everything else as itself |
| Scram.ReadDecimal | src/Client/Authentication/Scram.hs:92 | A decimal count is read back whole |
| Scram.NumeralRead | src/Client/Authentication/Scram.hs:92 | An optional sign and decimal digits are read with their value, up to the first byte that is not a digit |
| Scram.OnlyNumeralsRead | src/Client/Authentication/Scram.hs:92 | Nothing else is read as a count |
| Scram.Parse3 | src/Client/Authentication/Scram.hs:145-150 | Three attributes joined by commas are read as those three pairs, equals signs in the values included |
| Socks5.ResponseReads | hookup/src/Hookup/Socks5.hs:373-387 | A built response followed by anything parses to the response and the rest, and no proper prefix parses, whatever the reserved byte |
| Socks5.RequestReads | hookup/src/Hookup/Socks5.hs:355-369 | The same for requests |
| Socks5.ClientHelloReads | hookup/src/Hookup/Socks5.hs:327-337 | The same for the client's greeting |
| Socks5.ServerHelloReads | hookup/src/Hookup/Socks5.hs:341-351 | The same for the server's choice |
| Socks5.PlainAuthenticationReads | hookup/src/Hookup/Socks5.hs:391-411 | Credentials are self-delimiting and read back if and only if both are shorter than 256 bytes |
| Socks5.PlainAuthenticationReplyReads | hookup/src/Hookup/Socks5.hs:415-425 | The same for the reply to the credentials |
| Socks5.FramedExact | hookup/src/Hookup/Socks5.hs:363-387 | Whatever parses as a request or reply is the built form of the result, up to the reserved byte, followed by the rest |
| Socks5.AddressExact | hookup/src/Hookup/Socks5.hs:200-221 | Whatever parses as an address is the built form of the result followed by the rest |
| Socks5.AddressBack | hookup/src/Hookup/Socks5.hs:200-221 | A built address followed by anything parses to the address and the rest |
| Socks5.WordsBack | hookup/src/Hookup/Socks5.hs:244-253 | Words are read back |
| Socks5.AddressBytes | hookup/src/Hookup/Socks5.hs:200-274 | A built address is exactly the bytes of the standard: tag 1, 3 or 4, the address, and the port, all words with the high byte first |
| Socks5.ReplyBytes | hookup/src/Hookup/Socks5.hs:200-221 | The bytes read as a reply are exactly those with version 5 and the length their tag asks for, and the code is the second byte |
| Socks5.RequestBytes | hookup/src/Hookup/Socks5.hs:355-369 | The request to connect, byte for byte |
| Socks5.Socket.NetParse | hookup/src/Hookup.hs:242-253 | Reading byte by byte succeeds with exactly the bytes of one message taken, and always does when the server's bytes begin with a message |
| Socks5.Socket.Greet | hookup/src/Hookup.hs:258-264 | Sends 5, 1 and the method, and fails exactly when the answer is not 5 and that method |
| Socks5.Socket.SendCredentials | hookup/src/Hookup.hs:277-282 | Sends 1 and the two names, each after its length, and fails exactly when the answer is not 1 and 0 |
| Socks5.Socket.Authenticate | hookup/src/Hookup.hs:257-282 | Overlong credentials are rejected before anything is sent; otherwise success takes exactly the welcome from the socket |
| Socks5.Socket.RequestConnection | hookup/src/Hookup.hs:288-296 | Sends 5, 1, 0, 3, the length and bytes of the name and the two bytes of the port, high byte first; connects exactly when the reply has the form of one and code 0 |
| Socks5.Socket.SocksConnect | hookup/src/Hookup.hs:255-296 | On success exactly the handshake replies have been taken and exactly the bytes of the handshake sent, given byte for byte; against a server that lets the client go on it succeeds |
| Socks5.GrantedExactly | hookup/src/Hookup/Socks5.hs:381-387 | The bytes taken as a granting reply are exactly a success message of the standard with any reserved byte |
| Timers.TimerSafety | src/Client/CApi.hs:90-123 | In every run ids are issued once, each timer fires or is cancelled at most once and never both, and an issued one is live, fired or cancelled |
| Timers.RunAccounted | src/Client/CApi.hs:90-123 | In every run the issued timers are exactly the live, the fired and the cancelled ones |
| Timers.PopPossible | src/Client/CApi.hs:90-100 | A live extension with timers can take an earliest one; otherwise nothing is taken |
| Timers.Client.SetTimer | src/Client/CApi/Exports.hs:745-752 | A new timer gets an id never used before and is due after the delay |
| Timers.Client.Cancel | src/Client/CApi/Exports.hs:762-774 | Cancelling removes that timer if it is live and changes nothing otherwise |
| Timers.Client.Take | src/Client/State/Extensions.hs:185-197 | The timer taken is an earliest one and was neither fired nor cancelled before |
| Timers.OpData.ScheduleTimer | otr-extension/glirc-otr.cpp:176-184 | Afterwards the client holds exactly the timer of the fields, new, for the interval, or none; a previous one is cancelled |
| Timers.OpData.TimerControl | otr-extension/glirc-otr.cpp:190-193 | The interval is the new one and the timer is rescheduled |
| Timers.OpData.MessagePoll | otr-extension/glirc-otr.cpp:455 | Any number of timer controls during a poll keep fields and client in agreement |
| Timers.OpData.TimerEntrypoint | otr-extension/glirc-otr.cpp:447-458 | From a timer just taken, the callback ends with one timer for the interval asked for last, or none |
| Timers.OpData.FireTimer | src/Client/State/Extensions.hs:185-197 | Only the extension's active timer can fire, it was never cancelled and never will be, and afterwards the agreement holds again |
| WindowNames.LettersStayDistinct | src/Client/State.hs:598-655 | In every run of lines, nick changes, renames, hides, shows, focus changes and clears no two windows carry the same letter |
| WindowNames.ApplyDistinct | src/Client/Commands/Window.hs:258-295 | Every single step keeps the letters distinct |
| WindowNames.NextIsFree | src/Client/State.hs:598-611 | The chosen letter is not in use, and none is chosen exactly when every letter is in use or reserved and the hinted one is in use |
| WindowNames.NextIsFirst | src/Client/State.hs:598-611 | The hinted letter is chosen if no window has it, otherwise the first configured letter neither reserved nor in use |
| WindowNames.SetNameMeans | src/Client/Commands/Window.hs:258-280 | A configured letter asked for, or else the next one, goes to the current window and is taken from any other; nothing else changes |
| WindowNames.LineMeans | src/Client/State.hs:623-650 | A line creates at most its own window, with the next letter, and changes no other |
| WindowNames.HideAndShow | src/Client/Commands/Window.hs:282-295 | Hiding frees the letter of the window and no other, and showing does not give it back |
| WindowNames.NothingToHide | src/Client/Commands/Window.hs:282-295 | Both fail exactly without a current window |
| WindowNames.ClearMeans | src/Client/Commands/Window.hs:446-486 | Clearing deletes at most that window and moves the focus only away from it |
| WindowNames.DistinctNeeded | src/Client/State.hs:601-607 | List difference never offers a letter in use if and only if the available letters have no repetition |
| WindowNames.NamingExchanges | src/Client/Commands/Window.hs:275-280 | Naming a window exchanges its old letter for the new one among the letters in use, and naming it back restores everything when no other window had the new letter |
| WindowNames.OwnLetterUnavailable | src/Client/Commands/Window.hs:258-274 | The command without a letter fails, though it would not after unsetting the window's letter first, if and only if no letter is left and the window's own is an assignable or the hinted one |
| WindowNames.OwnLetterExample | src/Client/Commands/Window.hs:258-274 | It fails for a single window that has the single letter |
| WindowNames.RenameKeepsLetter | src/Client/State.hs:989-1014 | A nick change moves the window with its letter, and the focus with it; the letters in use stay the same, and changing the nickname back restores everything if and only if the focus was not already on the new name |
| Addresses.FamiliesAlternate | hookup/src/Hookup.hs:347-356 | Ordering addresses loses none, keeps the order within each family, puts IPv6 first and alternates while both last |
| Addresses.SixesFirst | hookup/src/Hookup.hs:347-356 | The result is a permutation, with IPv6 addresses in the even and others in the odd positions while both last |
| Addresses.MatchBindExactly | hookup/src/Hookup.hs:330-342 | A destination is tried exactly when some bind address has its family, from the first such address; without bind addresses every one is tried |
| Addresses.FirstOfMeans | hookup/src/Hookup.hs:334-342 | The bind address is that of the first entry of the family |
| Addresses.DestinationOrder | hookup/src/Hookup.hs:334-342 | The destinations tried are those with a bind address of their family, in the given order |
| Identifiers.FoldCommutes | lib/src/Irc/Identifier.hs:78-119 | Folding the UTF-8 bytes of a text gives the UTF-8 bytes of the text with its characters folded |
| Identifiers.SameIdentifier | lib/src/Irc/Identifier.hs:45-80 | Identifiers are equal exactly when their texts are equal after folding each character |
| Identifiers.Utf8 | lib/src/Irc/Identifier.hs:78-80 | The bytes of a character are those of the table of RFC 3629 |
| Identifiers.IrcFoldCase | lib/src/Irc/Identifier.hs:105-113 | The loop fills the array with the folded bytes |
| Identifiers.CaseTable | lib/src/Irc/Identifier.hs:103-119 | The case table, for bytes and for characters: the thirty codes from `a` on become the capitals and brackets of the table, nothing else changes |
| Identifiers.CompareTotal | lib/src/Irc/Identifier.hs:46-67 | Comparison says equal exactly for equal folded bytes and is antisymmetric |
| Identifiers.CompareMeans | lib/src/Irc/Identifier.hs:60-67 | Less means less at the first difference, or a proper beginning |
| Identifiers.LeqTransitive | lib/src/Irc/Identifier.hs:61-67 | Comparison is transitive |
| Identifiers.PrefixIsLeq | lib/src/Irc/Identifier.hs:98-103 | A prefix is never greater than what it is a prefix of |

## Left out

- LineReader.RunDelivers: speaks of runs of successful calls; an exception restores the old buffer and loses the chunks
  pulled in that call, so nothing is promised about the stream after one.
- ServerMaps.BuildServerMapMeans: requires that each entry sets its own, distinct name. An entry that extends `a` and
  sets no name of its own keeps the name `a`, so that it extends itself, and the source recurses forever once `a` is
  reached.
- LineWrap.WrapLayout: characters one column wide and a positive width; wide characters, the prefix of continuation
  lines and widths below one are not modelled. With such a width the source does not terminate on a text with any
  character other than a space.
- RateLimits.FloodBound: the clock does not go back between calls and sleeps last at least as long as asked; time is real,
  not in the picoseconds of the source.
- Scram.ExchangeSucceeds: the machine width of the iteration count is not modelled, the honest server sends no extension
  attributes, and names are byte strings whose UTF-8 is not checked.
- Modes.SplitRoundTrip: for nonempty arguments, the only ones the wire can carry apart from an empty last one.
- The wire format is modelled on characters; encoding what is printed as UTF-8, and decoding with the fall-back to
  CP1252, are not part of it.
- Asynchronous exceptions that reach the connector from outside, and release actions that raise one.
- The general regular expression engine: only the subset the mask compiler emits is given a meaning.
- Sockets, TLS and name resolution, beyond the byte streams and address lists above.
- The order of hash maps and the choice among timers due at the same time: any order, any earliest one.
- The text of windows, activity filters, subfocus, network-only focus steps and the editing box around tab completion.
- The event loop's waiting until a timer is due, and stopping of extensions.
- Marshalling of the C API, Lua, the other extensions, libotr, rendering, configuration files and reply-code tables:
  thin wrappers, effects on libraries that are not visible, or finite data.
