# A verified model of the Minecraft panel's backend

The backend is an Actix web service for a Minecraft community. Most of it is SQL
and HTTP plumbing; this project models the parts that hold real state, parse by
hand or interleave, and proves what they promise.

| part | files | what is modelled |
|---|---|---|
| live console | `Lines`, `LogHub`, `Delivery`, `Sse`, `Replay`, `Attribution`, `Tail`, `TailRuns`, `TailTicks` | a polled, rotating log file cut into lines, handed to a hub with a replay buffer and a broadcast channel, and sent to browsers as server-sent events |
| colours | `Ansi`, `Escapes`, `Panel`, `Terminal`, `AnsiMeaning`, `AnsiLooks`, `AnsiStrip` | terminal escapes rewritten as Minecraft section codes, what the admin panel shows of them against what a terminal shows, and both ways of stripping |
| item data | `Snbt`, `SnbtParser`, `SnbtScalars`, `SnbtGrammar`, `SnbtReads`, `SnbtSound`, `SnbtPrinter`, `Numbers`, `Utf8` | the recursive-descent SNBT reader, against a grammar, in both directions |
| RCON | `RconWire`, `RconClient`, `RconRuns`, `RconCalls` | packet framing, and the held connection with its one retry |
| polls | `PollClock`, `PollRequests`, `Ballots`, `Votes`, `Tallies` | closing times under concurrent compare-and-set, ballots under concurrent votes, and the counts and percentages |
| textures | `ModIndex`, `ModLookup`, `ModFinds`, `Models`, `ParentChains`, `Locations`, `PickTexture` | the namespace index over mod jars, the parent walk of item models and the slot that is drawn |
| small machines | `RateLimit`, `PowerJobs`, `PowerRuns`, `PowerAnswers`, `Base64` | the sliding window, the life of a power action, the base64 encoder |

`Common` holds result types and facts about sequences.

Code that works by changing things is imperative here too: `LineSplitter`,
`Hub`, `Receiver`, `Tailer`, `Parser`, `RconConnection`, `PollTable`,
`VoteTable`, `Indexer`, `RateLimiter` and `JobTable` are classes whose methods
are proved equal to a function of the old state, and the loops over text are
methods with invariants. The theorems are about those functions. Where several
tasks run at once, the model is a state machine whose steps are the single
atomic actions of the code, and a theorem holds of every sequence of steps; the
hub's two operations are there split into their steps, and with no other step
between them they do what the methods ensure (`Delivery.UninterruptedPush`,
`Delivery.UninterruptedSubscribe`).

Where a property of the code, or of its comments, holds only under a condition,
the condition is stated, and proved to be exactly the right one unless it is
called sufficient. The ones worth knowing:

- A line is cut when more than `MAX_CARRY` bytes of it are pending at the end of
  a chunk, and only then (`Lines.ChunkingIsInvisible`).
- A cold start in the middle of a line that reads a chunk without a newline
  forgets that it was skipping: `continue` at `console/tail.rs:117` keeps the
  advanced cursor, and the next tick takes the rest of that fragment for a line,
  which the comment at `console/tail.rs:65-66` means to avoid
  (`TailRuns.ColdStartMayShowAFragment`). A restart whose read fails drops the
  carry and keeps the old cursor, so a file that then reappears under its old
  identity goes on in the middle of a line (`TailRuns.RotationMayShowAFragment`).
  What is shown is the last lines of the file exactly when the tick that began
  the present stretch was neither of these two and no line overran `MAX_CARRY`
  (`TailRuns.ShownLinesEndTheFile`).
- The comment at `routes/polls.rs:781-784` says a poll cannot run out between
  the read and the write of an extension. It can: the statement compares the old
  closing time with the clock value taken at the read
  (`PollClock.LandsLateWhenTheClockPassed`, `PollClock.ExtensionMayLandLate`).
- The comment at `polls.rs:160-162` says that on a single-answer poll votes and
  voters are the same number and the bars sum to 100. The two are counted by two
  statements, so the numbers are the same exactly when as many voters have gone
  in between as have newly voted (`Tallies.ApartReadsAddUp`). The bars sum to
  the earlier voters' share of the later ones, within 0.05 for each option
  (`Tallies.SingleAnswerBars`): to 100 within that margin when the numbers are
  the same, surely not when they are far apart, and by the luck of rounding in
  between (`Tallies.BarsSumWhenNobodyIsNew`, `Tallies.NewVoterBetweenReads`). An
  option has more votes than voters exactly when more of its choosers have gone
  than there are later voters who had not chosen it
  (`Tallies.WithinLaterVotersExactly`, `Tallies.RemovalBetweenReads`).
- `MAX_REFERENCE_DEPTH` is 8 turns of a loop whose last turn must find a
  location, so seven `#` hops are followed, not the eight its comment names
  (`Models.ResolvesWithinSevenHops`, `Models.NineSlotsCanBeTooMany`).
- The parent walk reads twelve models, so a slot that only a thirteenth defines is
  missed (`ParentChains.ThirteenModelsCanBeTooMany`). With at most twelve models
  to read, circular parents or not, it finds what the unbounded chain defines
  (`ParentChains.BoundIsEnoughForTwelveModels`).
- The comment at `console/snbt.rs:241-242` says an escaped character is passed
  through as written. It is one byte, taken as a Latin-1 character, so that is
  so exactly for characters of one byte, wherever in the string; a backslash
  before any other breaks the character up (`SnbtReads.EscapedAsWritten`).
- `MAX_NESTING` is 2, but the other half of the same condition stops at the
  first bundled jar (`ModIndex.Indexer.IndexSource`).
- A final phase is left at exactly one step, when the worker of a start notes a
  request whose verdict a poll has already stored; a stop or restart never
  leaves one (`PowerRuns.OnlyAStartGoesBack`, `PowerRuns.AStartCanGoBack`).
- For the rate limit it is sufficient that the readings of the clock do not go
  back; one that comes late can break it (`RateLimit.OutOfOrderBreaksTheLimit`).
  When none is more than some time late, the limit still holds for every interval
  that much shorter than the window (`RateLimit.NeverMoreThanMax`).
- The panel (`private/rdadmin.html:3116-3166`) shows the text of a console line
  exactly when every section sign the server itself wrote is left standing, before
  a character that begins no code (`AnsiMeaning.PanelShowsTheText`), and its look exactly when the panel's and a
  terminal's agree at every character (`AnsiMeaning.TranslationKeepsTheLook`).
  They need not: a colour clears bold, italic, underline and strike in the panel
  (`AnsiLooks.BoldIsLostToAColour`), and the translation has nothing for the
  codes that switch a style or the colour off (`AnsiLooks.OffCodeIsMissed`).
  Without those codes and indexed colours, the styles must have been given again
  since the last colour (`AnsiLooks.OrdinaryLinesKeepTheirLook`).
- The comments at `console/mod.rs:482-484` and `routes/console.rs:35-38` say that
  nothing in a payload moves a frame to another event name. A carriage return
  does: a field after it is a field of the frame, so a log line can be read as an
  attribution (`Attribution.MovedToAnotherName`, `Attribution.ALineCanBeRenamed`).
  The listener for attribution hears the attribution lines and no others exactly
  when no log line, read alone, is such a one (`Attribution.AttributionIsHeard`).
- A carriage return inside a line and a NUL or an over-long RCON body are exactly
  what the event stream and the framing do not carry faithfully
  (`Sse.FramesReadBack`, `RconWire.PacketsReadBack`).

## Model

| member | source | states |
|---|---|---|
| Lines.LinesRebuildTheText | src/src/console/mod.rs:201-222 | the complete lines, each with its newline, and the unfinished rest put together are the text |
| Lines.LinesAreUnique | src/src/console/mod.rs:201-222 | no other division into newline-free lines and rest rebuilds the text |
| Lines.SplitResumes | src/src/console/mod.rs:183-186 | splitting may stop anywhere and go on from the unfinished rest |
| Lines.FeedingAgreesOrOverruns | src/src/console/mod.rs:192-222 | a sequence of pushes gives the lines of the whole text while no more than `MAX_CARRY` bytes stay pending, and too many lines once more do |
| Lines.ChunkingIsInvisible | src/src/console/mod.rs:192-222 | the lines and the carry do not depend on how the bytes are cut into chunks, if and only if no chunk boundary finds more than `MAX_CARRY` bytes pending |
| Lines.OverlongLineIsCut | src/src/console/mod.rs:192-194 | one byte more, and a line comes out in two |
| Lines.LineSplitter.Push | src/src/console/mod.rs:203-222 | hands out exactly the decoded lines a chunk completes and keeps the rest, the overflow rule included |
| Lines.LineSplitter.Reset | src/src/console/mod.rs:224-226 | drops the partial line |
| LogHub.Hub.constructor | src/src/console/mod.rs:139-146 | an empty hub; a capacity of zero becomes one |
| LogHub.Hub.Push | src/src/console/mod.rs:149-166 | sends one line with the next arrival number; the replay buffer stays the last `capacity` lines sent, in increasing order |
| LogHub.Hub.Subscribe | src/src/console/mod.rs:169-173 | the snapshot is the last `capacity` lines sent, and the receiver begins exactly where the snapshot ends |
| LogHub.Receiver.Recv | src/src/console/mod.rs:125-128 | moves past exactly what it returned or reported as lost |
| Delivery.StepKeepsInv | src/src/console/mod.rs:149-173 | each single step of a push or a subscription, on either hub, keeps the replay buffer, the numbering and every subscriber's place |
| Delivery.RunKeepsInv | src/src/console/mod.rs:149-173 | so does every interleaving of any number of pushes and subscriptions |
| Delivery.UninterruptedPush | src/src/console/mod.rs:149-166 | the steps of one push with none between them append and send one numbered line and leave the lock free |
| Delivery.UninterruptedSubscribe | src/src/console/mod.rs:169-173 | those of one subscription give the buffer's snapshot and a receiver at its end, and leave the hub as it was |
| Delivery.EveryLineExactlyOnce | src/src/console/mod.rs:161-173 | in every interleaving a snapshot followed by what was received is the last `capacity` lines before subscribing and every later line, in order and once; with losses, their number is exactly the number reported |
| Delivery.MissesOnlyWhenOverrun | src/src/console/mod.rs:125-128 | in every run a subscriber has lost lines if and only if it once stood more than 1024 lines behind at a `recv` |
| Delivery.RecvTakesTheNext | src/src/console/mod.rs:125-128 | a `recv` takes the next line while no more than 1024 are waiting, and otherwise skips to the oldest of the last 1024 and counts the rest as lost |
| Delivery.CapacityIsAsAsked | src/src/console/mod.rs:139-146 | a replay buffer keeps as many lines as it was made for, and one when it was made for none |
| Sse.SseFrame | src/src/console/mod.rs:468-477 | one `data:` line for every physical line, then a blank line |
| Sse.SseEvent | src/src/console/mod.rs:491-498 | the same under an event name |
| Sse.BodyFillsData | src/src/console/mod.rs:463-477 | the reader's data buffer ends up holding the payload, embedded newlines included |
| Sse.FramesArrive | src/src/console/mod.rs:463-498 | reading any sequence of unnamed, named and comment frames dispatches their payloads under their own names, in order (section 9.2.6 of the WHATWG HTML standard) |
| Sse.FramesReadBack | src/src/console/mod.rs:463-498 | the same from a fresh reader, if and only if no payload holds a carriage return |
| Replay.OpeningFrame | src/src/routes/console.rs:66-80 | the opening frame is the frames of both buffers merged by arrival number |
| Replay.MergeKeepsBoth | src/src/routes/console.rs:55-76 | the merge is strictly increasing in arrival number and leaves each hub's own buffer whole |
| Replay.OpeningFrameInArrivalOrder | src/src/routes/console.rs:55-80 | so in every interleaving, for every pair of snapshots the two hubs can give |
| Replay.LiveShowsWhatWasReceived | src/src/routes/console.rs:82-117 | in every interleaving the live frames show exactly the lines the two receivers gave, each source under its own name; lag notices and pings show nothing |
| Replay.TurnIsSent | src/src/routes/console.rs:82-117 | each `recv` sends the line as a frame of its source, or how many lines were lost, or, when the log is silent, a ping |
| Replay.ViewerHearsEveryLine | src/src/routes/console.rs:41-142 | from hub to browser, in every interleaving: the listeners of the stream hear snapshot and received lines of their hub, if and only if none holds a carriage return; when nothing was lost that is one unbroken stretch of what the hub sent |
| Attribution.FramesStayApart | src/src/console/mod.rs:463-498 | whatever the payloads hold, carriage returns included, a stream is read as the events of each frame read alone |
| Attribution.OrdinaryLineKeepsItsName | src/src/console/mod.rs:463-490 | a log line without a carriage return is never heard under the attribution's name |
| Attribution.AttributionIsHeard | src/src/routes/console.rs:35-142 | in every interleaving, losses included, the attribution listener hears exactly the attribution lines it was sent, which have no carriage return, if and only if no log line sent beside them, read alone, is an event of that name |
| Attribution.MovedToAnotherName | src/src/console/mod.rs:463-490 | a log line with an `event` and a `data` field after carriage returns is read as a line and an event under that name |
| Attribution.ALineCanBeRenamed | src/src/routes/console.rs:35-39 | so also under the attribution's |
| Tail.Tailer.OneTick | src/src/console/tail.rs:44-125 | one turn of the loop moves cursor and carry, and pushes notices and lines, as the tick function says, for every state of the file |
| Tail.Tailer.Consume | src/src/console/tail.rs:89-125 | the reading half of a turn: nothing new, a failed or empty read, a skipped fragment, or lines |
| TailTicks.ShortLogIsReplayed | src/src/console/tail.rs:67-71 | on first attach a log of up to 65536 bytes is shown from its beginning |
| TailTicks.LongLogIsReplayed | src/src/console/tail.rs:67-122 | of a longer one the last 65536 bytes are read and every line after the first newline among them is shown |
| TailTicks.LongLineIsPassedOver | src/src/console/tail.rs:114-117 | and nothing when there is no newline among them |
| TailTicks.NewFileIsReadFromItsBeginning | src/src/console/tail.rs:72-87 | another file, or one cut short, is said to be so and read from its beginning, a mebibyte at most |
| TailTicks.SameFileIsReadOn | src/src/console/tail.rs:86-124 | the same file is read on where the last read ended, after what was pending, a mebibyte at most |
| TailTicks.NothingReadNothingMoves | src/src/console/tail.rs:94-107 | a read that fails or is empty leaves the cursor, and the carry unless the file is another |
| TailTicks.GoneIsSaidOnce | src/src/console/tail.rs:49-60 | a file that is gone is forgotten and said to be closed once |
| TailRuns.ObserveKeepsInv | src/src/console/tail.rs:44-125 | a tick keeps the shown lines and the carry equal to what the bytes read since the stretch began give |
| TailRuns.RunKeepsInv | src/src/console/tail.rs:35-127 | so does every schedule of ticks over a file that grows, rotates, shrinks or disappears |
| TailRuns.ShownLinesAreTheFilesLines | src/src/console/tail.rs:94-125 | after any schedule the lines shown are the complete lines of the stretch of bytes consumed, wherever it began, and the carry its unfinished rest, if and only if no line overran `MAX_CARRY` |
| TailRuns.ScheduleIsInvisible | src/src/console/tail.rs:94-125 | two schedules that consumed the same stretch of a file have shown the same lines, while no line overran `MAX_CARRY` |
| TailRuns.CursorStaysInTheFile | src/src/console/tail.rs:67-112 | after a tick the cursor stands in the file looked at and not past its end, if and only if the tick did not start over and read nothing |
| TailRuns.StretchBeginsAtALine | src/src/console/tail.rs:65-118 | a tick leaves the stretch beginning at a line, if and only if it restarted without losing the skip or dropping a carry mid-line, or did not restart and it began at one before |
| TailRuns.RunBeginsAtALine | src/src/console/tail.rs:35-127 | after any schedule the stretch begins at a line start of the file, if and only if the tick that began it did neither |
| TailRuns.UndisturbedRunBeginsAtALine | src/src/console/tail.rs:35-127 | in particular when no tick did |
| TailRuns.ShownLinesEndTheFile | src/src/console/tail.rs:35-127 | after any schedule the lines shown are the last complete lines of the bytes consumed and the carry their unfinished rest, if and only if the stretch began at a line and no line overran `MAX_CARRY` |
| TailRuns.RestartForgets | src/src/console/tail.rs:49-87 | rotation, shrinkage and disappearance begin again with an empty carry |
| TailRuns.CatchesUp | src/src/console/tail.rs:89-112 | `n` successful reads reach the end of the file or `n` times `MAX_CHUNK` further |
| TailRuns.ColdStartMayShowAFragment | src/src/console/tail.rs:114-117 | a log first seen in a line longer than the cold-start window: at the next tick what was added to that line is shown as a line of its own |
| TailRuns.RotationMayShowAFragment | src/src/console/tail.rs:75-107 | a log rotated to a file that cannot be read and then back: the end of the line it stood in is shown as a line |
| Ansi.AnsiToSection | src/src/console/mod.rs:277-322 | every SGR escape becomes the codes of its effects, every other escape goes, truncated ones included |
| Ansi.PushSgr | src/src/console/mod.rs:329-381 | appends the codes of the effects that the parameters mean to a terminal, in order |
| Ansi.PushExtended | src/src/console/mod.rs:352-371 | `38` and `48` take four, two, one or no further parameters by what follows, and write the 24-bit foreground colour or nothing |
| Ansi.PushHex | src/src/console/mod.rs:388-396 | the seven coded characters of a 24-bit colour |
| Ansi.FindColour | src/src/console/mod.rs:241-258 | the table gives each of the sixteen colours the section code that lights the same lamps, and nothing to any other number |
| Ansi.StripAnsi | src/src/console/mod.rs:403-439 | the text without its escapes |
| Ansi.StripFormatting | src/src/console/mod.rs:448-461 | the text without its section codes, a trailing lone sign included |
| Escapes.EscapeEndsExactly | src/src/console/mod.rs:287-318 | a control sequence ends with its first character from `@` to `~`, a command with BEL or the character after an escape, any of them with the text, and other escapes after two characters |
| Escapes.OnlyGraphicsHaveEffects | src/src/console/mod.rs:290-304 | only a control sequence that ends with `m` has an effect, by its parameters |
| Escapes.OtherNumbersArePassedOver | src/src/console/mod.rs:329-381 | any other number, the off-codes among them, is passed over |
| Escapes.IndexedColourIsPassedOver | src/src/console/mod.rs:352-371 | so is an indexed colour, with its index |
| Escapes.ChannelsDefaultToZero | src/src/console/mod.rs:356-364 | a colour channel that is missing, empty or over 255 counts as zero |
| Panel.LiteralContinues | src/private/rdadmin.html:3116-3152 | in the panel a sign that begins no code is shown with the text up to the next sign, in no colour or style, and the next code changes the look from before it |
| Panel.HexContinues | src/private/rdadmin.html:3101-3139 | the panel reads a sign with `x` and six signs with hex digits as one 24-bit colour that clears the styles, and shows none of the seven |
| Panel.KnownCodes | src/private/rdadmin.html:3123-3149 | the panel knows the sixteen colours, `k` to `o`, `r` and `x`, in either case, and nothing else; `k` changes nothing and `r` everything |
| AnsiMeaning.CodesAreTaken | src/src/console/mod.rs:329-396 | the panel takes the codes written for any effects as those effects, and goes on with the text after them |
| AnsiMeaning.PanelShowsTheText | src/src/console/mod.rs:259-322 | the panel shows the text of a translated line, in full and without its escapes, if and only if every section sign in it is left standing there, before a character that begins no code; the look of each character is then that of the effects before it |
| AnsiMeaning.TranslationKeepsTheLook | src/src/console/mod.rs:259-322 | the panel shows a translated line as a terminal shows the line, text and look, if and only if its section signs are left standing and the two looks agree at every character |
| AnsiMeaning.DisplayText | src/src/console/mod.rs:398-439 | stripping escapes leaves the text a terminal shows |
| AnsiLooks.EscapesAgree | src/src/console/mod.rs:329-381 | the translation takes an SGR sequence as a terminal does, unless it has an off-code, double underline, an indexed colour or a colour channel missing or over 255 |
| Escapes.OrdinaryParametersAreSupported | src/src/console/mod.rs:329-381 | so it does any list of other numbers |
| Escapes.TrueColoursAreSupported | src/src/console/mod.rs:352-367 | and any whole 24-bit colour, foreground or background |
| AnsiLooks.SameLook | src/private/rdadmin.html:3127-3147 | after any effects, the panel and a terminal have the same look if and only if each style on in the terminal has been given again since the last colour |
| AnsiLooks.OrdinaryLinesKeepTheirLook | src/src/console/mod.rs:259-322 | a line of such sequences is shown by the panel as by a terminal if and only if its section signs are left standing and that holds of the effects before each character |
| AnsiLooks.BoldIsLostToAColour | src/private/rdadmin.html:3141-3144 | bold and then red is not bold in the panel |
| AnsiLooks.OffCodeIsMissed | src/src/console/mod.rs:329-381 | bold switched off by 22 stays on in the panel |
| AnsiStrip.TranslatingThenStripping | src/src/console/mod.rs:277-461 | translating and then stripping section codes equals stripping the escapes, if and only if that leaves no section sign |
| AnsiStrip.WithoutASignAllIsKept | src/src/console/mod.rs:277-461 | for every input without a section sign both give the text the panel shows |
| AnsiStrip.OnceIsEnough | src/src/console/mod.rs:272-322 | no escape survives, so translating or stripping again changes nothing |
| AnsiStrip.PlainIsThePanelsText | src/src/console/mod.rs:442-461 | when every sign begins a code of the panel, stripping section codes leaves the text it shows |
| AnsiStrip.UnknownCodeIsShown | src/src/console/mod.rs:442-461 | a sign before an unknown code is shown by the panel and stripped with that character here |
| SnbtParser.ParseInput | src/src/console/snbt.rs:62-77 | total: returns the specified value or the specified error and position for every byte string |
| SnbtParser.Parser.Value | src/src/console/snbt.rs:112-124 | one value, or the depth refusal before anything is looked at; the cursor never moves back or leaves the input |
| SnbtParser.Parser.Compound | src/src/console/snbt.rs:126-162 | the members up to the closing brace, the last of a repeated key winning |
| SnbtParser.Parser.Member | src/src/console/snbt.rs:137-153 | key, colon and value, one level deeper |
| SnbtParser.Parser.ListOrArray | src/src/console/snbt.rs:166-222 | a list, or a typed array whose elements are all whole numbers, narrowed to its width |
| SnbtParser.Parser.Elements | src/src/console/snbt.rs:177-193 | the elements up to the closing bracket |
| SnbtParser.Parser.QuotedString | src/src/console/snbt.rs:224-258 | text up to the closing quote, with escapes and whole UTF-8 characters |
| SnbtParser.Parser.BareToken | src/src/console/snbt.rs:266-276 | the longest run of token bytes |
| SnbtParser.Parser.BareValue | src/src/console/snbt.rs:280-286 | the scalar a token spells, as `SnbtScalars.ReadsExactlyTheScalars` says |
| SnbtScalars.ScalarIsRead | src/src/console/snbt.rs:304-359 | every spelling of a truth value, a whole number in its range or a floating-point number, with or without type letter and in either case, is read as what it means |
| SnbtScalars.ReadsExactlyTheScalars | src/src/console/snbt.rs:297-359 | a token is read as a value if and only if it spells a scalar of that value, or spells none and the value is its text |
| SnbtReads.DocumentIsRead | src/src/console/snbt.rs:112-286 | every spelling of a document, whatever follows it, is read as its meaning and exactly to its end when it fits under the depth limit, and refused for its depth when not |
| SnbtReads.SpellingsParse | src/src/console/snbt.rs:31-77 | a whole input with whitespace anywhere the parser skips it parses to its meaning, or is refused for its depth, exactly by its height |
| SnbtReads.EscapedAsWritten | src/src/console/snbt.rs:235-243 | before any further string content, a backslash passes the character after it through as written if and only if it is a character of one byte |
| SnbtReads.EscapedBeforeTheQuote | src/src/console/snbt.rs:235-243 | right before the closing quote also whatever bytes come after; at the end of an input any longer character is refused |
| SnbtReads.TypedArrayIsAnnounced | src/src/console/snbt.rs:166-175 | a list is a typed array if and only if it begins with `B;`, `I;` or `L;` |
| SnbtSound.AcceptsExactlyTheGrammar | src/src/console/snbt.rs:62-359 | the parser accepts an input with a value if and only if the input spells a document of at most 64 levels with that meaning |
| SnbtPrinter.DescriptionSays | src/src/console/snbt.rs:112-359 | the printer's description of a value is well formed and means that value |
| SnbtPrinter.DescriptionNests | src/src/console/snbt.rs:31 | a description is as deep as the value |
| SnbtPrinter.EveryValueRoundTrips | src/src/console/snbt.rs:62-359 | parsing the printed form of any value (numbers of their width, text that is UTF-8) within the depth limit returns it, and of any deeper one is refused for its depth |
| SnbtPrinter.ArrayKeepsTheLowBits | src/src/console/snbt.rs:197-221 | a number too wide for its typed array keeps its low 8, 32 or 64 bits, as a signed number |
| Numbers.ParseReadsDecimal | src/src/console/snbt.rs:304-359 | the decimal spelling of a number in range parses back to it |
| Utf8.LossyKeepsValid | src/src/console/snbt.rs:244-254 | lossy decoding leaves valid UTF-8 as it is |
| Utf8.LossyIsValid | src/src/console/snbt.rs:253 | lossy decoding gives valid UTF-8 for every byte string |
| Utf8.FittingIsLongest | src/src/console/snbt.rs:253 | what is replaced as one is the longest beginning of a code point there is |
| Utf8.Latin1IsTheCodePoint | src/src/console/snbt.rs:235-243 | an escaped byte becomes the code point of its number, in UTF-8 |
| RconWire.EncodePacket | src/src/rcon.rs:102-114 | length, id, type, body and two zero bytes |
| RconWire.LittleEndianReadsBack | src/src/rcon.rs:102-136 | four little-endian bytes read back as the same 32-bit number |
| RconWire.FittingReadsBack | src/src/rcon.rs:117-136 | a packet whose body has no NUL and at most 8182 bytes is read back, leaving exactly what follows it |
| RconWire.ReadBackFits | src/src/rcon.rs:316-333 | and no other packet is |
| RconWire.PacketsReadBack | src/src/rcon.rs:102-333 | any packets written one after another read back as themselves with nothing left over, if and only if every one fits |
| RconWire.DocumentedLayout | src/src/rcon.rs:102-114 | the layout byte by byte on one command, lowest byte first |
| RconWire.AnyFrameIsRead | src/src/rcon.rs:117-136 | a frame with anything in its body: the text goes to the first NUL, and the last byte is never text |
| RconWire.MalformedFrameIsRefused | src/src/rcon.rs:315-333 | a length outside 10 to 8192 is out of range, and a frame that does not arrive whole is closed early |
| RconClient.RconConnection.RunOn | src/src/rcon.rs:259-301 | skips, finds and drains as the specification says, for everything a peer may send |
| RconClient.RconConnection.ExecuteWithin | src/src/rcon.rs:190-228 | answer, held connection and next id after at most two attempts |
| RconRuns.RunIsInOrder | src/src/rcon.rs:190-228 | over any calls, every attempt uses the next id and every answer is the bodies of packets with its own id |
| RconRuns.IdsRepeatOnlyOnWrap | src/src/rcon.rs:212-213 | two attempts share an id if and only if a multiple of 2^32 attempts lies between them |
| RconRuns.AnswersAreTheirOwn | src/src/rcon.rs:259-301 | until the id comes round, no packet's body answers two attempts |
| RconRuns.OneRetryAtMost | src/src/rcon.rs:176-228 | at most two attempts, none after a failed connection or authentication; a connection is held after success and dropped after failure |
| RconRuns.StaleIsSkipped | src/src/rcon.rs:267-284 | packets of other requests are passed over up to sixteen, and one more is an error |
| RconRuns.SplitReplyIsWhole | src/src/rcon.rs:286-300 | a reply in several packets comes back whole, if and only if at most sixteen stale ones precede it and its first is long enough to have been split |
| RconRuns.DeadConnectionIsReplaced | src/src/rcon.rs:146-148 | when a held connection turns out dead the caller gets the answer of a new one |
| RconCalls.LoggedInExactly | src/src/rcon.rs:231-257 | a login succeeds if and only if the first packet of type 2 arrives and its id is not -1 |
| RconCalls.RefusedLoginEndsTheCall | src/src/rcon.rs:197-208 | a refused password ends the call with that error: no attempt, no retry, the client as it was |
| RconCalls.UnreachedServerEndsTheCall | src/src/rcon.rs:190-208 | so does a refused connection or a login that breaks; without a password nothing is dialled |
| RconCalls.ShortReplyIsTheAnswer | src/src/rcon.rs:259-289 | a reply under 4000 bytes behind up to sixteen stale packets is the answer, and what follows it stays unread |
| RconCalls.LongReplyIsDrained | src/src/rcon.rs:286-300 | a longer one is drained up to the first thing that is not part of it, which is read and dropped |
| RconCalls.NoReply | src/src/rcon.rs:267-284 | without a reply an attempt fails as the connection did, or as a protocol error at the seventeenth stale packet |
| RconCalls.HeldConnectionAnswers | src/src/rcon.rs:197-216 | a held connection that answers is used and kept |
| RconCalls.NewConnectionAnswers | src/src/rcon.rs:197-216 | a client that holds none dials one, logs in, and keeps it |
| RconCalls.RetryAnswers | src/src/rcon.rs:181-228 | a held connection that fails is replaced once, under the next id, and the caller gets the new one's answer |
| RconCalls.RetryRefused | src/src/rcon.rs:181-228 | or its refusal of the password |
| PollClock.PollTable.Extend | src/src/routes/polls.rs:785-794 | the compare-and-set: changes the row and reports it, exactly under its conditions |
| PollClock.PollTable.End | src/src/routes/polls.rs:1150-1184 | ends a poll once |
| PollClock.RunKeepsInv | src/src/routes/polls.rs:746-817 | every interleaving of extend and end requests keeps row, clock and pending writes consistent |
| PollClock.ClosingTimeIsAccountedFor | src/src/routes/polls.rs:746-817 | the closing time is creation plus duration plus the spans of exactly the extensions that reported success |
| PollClock.NoTwoExtendTheSameTime | src/src/routes/polls.rs:778-800 | no two successful extensions were added to the same closing time |
| PollClock.ExtendedMeansLanded | src/src/routes/polls.rs:1234-1244 | the `extended` flag is set if and only if an extension succeeded |
| PollClock.EndedIsFrozen | src/src/routes/polls.rs:1150-1184 | once a poll is ended neither of its times changes |
| PollClock.LandsOnTheLoadedRow | src/src/routes/polls.rs:775-800 | an extension succeeds if and only if the row is unended and closes when it did at the read |
| PollClock.LandsLateWhenTheClockPassed | src/src/routes/polls.rs:781-794 | it lands on a poll that has run out if and only if the clock passed the closing time in between |
| PollClock.ExtensionMayLandLate | src/src/routes/polls.rs:781-794 | and that happens |
| PollRequests.GrantedExactly | src/src/routes/polls.rs:1284-1303 | an extension is granted if and only if the poll is live and closes when the admin thinks it does, by the hours asked for; each refusal has its own condition |
| PollRequests.OpenUntil | src/src/polls.rs:56-70 | a poll is live for one, three or seven days from its creation, and a permanent one until it is ended |
| PollRequests.ExtendedExactly | src/src/routes/polls.rs:1234-1244 | the `extended` flag means more than a second past the natural closing time |
| PollRequests.GrantedExtensionLands | src/src/routes/polls.rs:775-800 | whatever comes in between, a granted extension adds its hours exactly when the poll has been neither ended nor extended by its write |
| PollRequests.EndingEnds | src/src/routes/polls.rs:1150-1184 | whatever comes in between, ending a live poll ends it at the moment of the write unless it has been ended before |
| Ballots.NormaliseChoice | src/src/routes/polls.rs:1053-1073 | repeated ids fold to their first occurrence, in order; the three refusals |
| Ballots.AcceptedBallots | src/src/routes/polls.rs:1053-1073 | a choice is accepted if and only if it is not empty, names one option where one is allowed, and at most ten |
| Votes.AnswerToAChoice | src/src/routes/polls.rs:1053-1073 | each refusal has its own condition on the distinct ids, and what is accepted is those ids |
| Votes.InTheOrderGiven | src/src/routes/polls.rs:1053-1073 | in the order of their first occurrence |
| Ballots.VoteTable.Replace | src/src/routes/polls.rs:1111-1136 | the transaction leaves the caller's new ballot in place of the old |
| Ballots.OnlyTheCallersBallot | src/src/routes/polls.rs:1111-1136 | and every other ballot as it was |
| Ballots.BallotsAreValid | src/src/routes/polls.rs:1076-1147 | in every interleaving of creations, checks, commits and removals a ballot is a non-empty set of its poll's own options, one on a single-answer poll |
| Votes.VoteIsCast | src/src/routes/polls.rs:1076-1147 | whatever comes in between, a vote that is taken becomes the voter's whole ballot at its commit and leaves every other ballot alone |
| Votes.OtherVoteChangesNothing | src/src/routes/polls.rs:1076-1107 | a vote that is not admitted, or not for options of that poll, changes nothing |
| Votes.PollIsCreated | src/src/routes/polls.rs:588-690 | a poll has two to ten options of its own, or is not created |
| Tallies.TallyWithinVoters | src/src/routes/polls.rs:174-198 | no option has more votes than there are voters |
| Tallies.SingleAnswerVotesAreTheVoters | src/src/polls.rs:157-162 | on a single-answer poll the votes add up to the voters, in every reachable state |
| Tallies.TallyWithinLaterVoters | src/src/routes/polls.rs:174-198 | with voters counted after votes, it is sufficient for no option to outpoll them that no account is removed in between |
| Tallies.WithinLaterVotersExactly | src/src/routes/polls.rs:174-198 | whatever happens in between, an option stays within the voters if and only if no more of its choosers have gone than there are later voters who had not chosen it |
| Tallies.ApartReadsAddUp | src/src/routes/polls.rs:174-198 | the votes of a single-answer poll add up to the voters if and only if as many have gone in between as have newly voted; without removals, if and only if nobody new voted |
| Tallies.RemovalBetweenReads | src/src/routes/polls.rs:174-198 | a poll, its one vote and then the removal of the voter between the two reads: one vote and no voter |
| Tallies.PercentIsNearest | src/src/polls.rs:167-173 | a percentage is the nearest tenth |
| Tallies.PercentInRange | src/src/polls.rs:158-173 | and lies between 0 and 100 |
| Tallies.BarsSumToAHundred | src/src/polls.rs:158-173 | when votes are voters the bars sum to 100 within 0.05 for each option |
| Tallies.PercentOverflowsExactly | src/src/polls.rs:167-173 | a share is over 100 if and only if the votes exceed the voters by a 2000th of them |
| Tallies.SharesAreInRange | src/src/routes/polls.rs:174-256 | as served, tallies read first and voters later, every share is between 0 and 100 while no account is removed |
| Tallies.SingleAnswerBars | src/src/routes/polls.rs:174-256 | as served, whatever happens between the reads, the bars of a single-answer poll sum to the earlier voters' share of the later ones within 0.05 for each option |
| Tallies.BarsSumWhenNobodyIsNew | src/src/polls.rs:160-162 | so they sum to 100 within that margin when the two counts of voters agree, and do not when those are further apart than a 1000th of the later one for each option |
| Tallies.NewVoterBetweenReads | src/src/polls.rs:160-162 | one vote, and another before the voters are counted: the bars sum to 50 |
| Tallies.Bars | src/src/routes/polls.rs:248-270 | the options in order with their votes and shares; `leading` marks exactly the non-zero maxima |
| ModIndex.Indexer.Record | src/src/console/mod_assets.rs:317-324 | a source is pushed under each namespace it declares, whatever order they come in |
| ModIndex.Indexer.IndexSource | src/src/console/mod_assets.rs:308-344 | a jar and then what it bundles, one level down; an unreadable one records nothing |
| ModIndex.Indexer.BuildIndex | src/src/console/mod_assets.rs:272-304 | the index of the first 2000 files of the directory whose extension is `jar`, in discovery order |
| ModLookup.EntryIsTheProviders | src/src/console/mod_assets.rs:308-344 | an index entry is the sources that declare the namespace, in discovery order |
| ModLookup.FindBestMatch | src/src/console/mod_assets.rs:357-391 | the scan keeps the best entry so far |
| ModLookup.ScanFindsTheFirstBest | src/src/console/mod_assets.rs:357-391 | after any number of names that entry is no worse than all and better than all before it |
| ModLookup.BestMatchIsFirstBest | src/src/console/mod_assets.rs:346-391 | it returns the first best of the folder, and nothing exactly when no stem is the name or begins with the name and an underscore |
| ModLookup.Get | src/src/console/mod_assets.rs:180-207 | the first indexed source that answers, as `ModFinds.FirstAnswerExactly` and `ModFinds.ReadsTheChosen` say |
| ModFinds.FirstAnswerExactly | src/src/console/mod_assets.rs:196-203 | the answer is that of the first source with one |
| ModFinds.ReadsTheChosen | src/src/console/mod_assets.rs:408-437 | a jar answers with the bytes of its chosen entry, from 1 to 262144 of them, and with nothing if and only if it does not open, no entry is chosen, or that entry is unreadable, empty or larger |
| ModFinds.FindsTheChosen | src/src/console/mod_assets.rs:346-426 | the chosen entry is the first candidate path the jar lists, and the preferred picture called after the item when it lists none |
| ModFinds.ExactPathWins | src/src/console/mod_assets.rs:419-426 | a candidate path that is listed answers, or nothing does, whatever else the jar lists |
| ModFinds.DeclaresExactly | src/src/console/mod_assets.rs:248-269 | an entry counts for an allowed namespace if and only if it is a `.png` in its texture folder or a `.json` in its model folder |
| ModFinds.AllowedExactly | src/src/console/mod_assets.rs:262-267 | a namespace is allowed if and only if it is not empty, of lower-case letters, digits, `_`, `-` and `.`, and without two dots in a row |
| ModFinds.DiscoveredExactly | src/src/console/mod_assets.rs:272-344 | the sources looked into are the first 2000 jar files of the directory and the jars each bundles in `META-INF/jarjar/` |
| ModFinds.JarFilesExactly | src/src/console/mod_assets.rs:288-291 | a jar file is one whose name ends in `.jar` and is not just that |
| ModLookup.TextureDeclaresNamespace | src/src/console/mod_assets.rs:248-269 | any `.png` under a namespace's texture folder declares that namespace |
| ModLookup.FoundIsDeclared | src/src/console/mod_assets.rs:408-437 | whatever a jar finds, it is indexed under the namespace asked for |
| ModLookup.IndexMissesNothing | src/src/console/mod_assets.rs:180-344 | looking through the index equals trying every jar and bundled jar in discovery order |
| ModLookup.DisallowedIsNeverFound | src/src/console/mod_assets.rs:248-269 | a namespace outside the allowlist is never answered |
| Models.MergeTextures | src/src/console/models.rs:109-113 | the union, the child's value winning, whatever order the slots come in |
| Models.Walk | src/src/console/textures.rs:244-276 | the walk accumulates the merged textures of the chain of at most twelve models |
| Models.MergedIsNearest | src/src/console/models.rs:109-113 | merging any list of models, nearest first, gives each slot the value of the first that defines it |
| ParentChains.MergedWithinTwelve | src/src/console/textures.rs:239-276 | a slot of the merged map has some value if and only if fewer than twelve parents up stands the first model with that slot, and gives it that value |
| ParentChains.DefinedNearby | src/src/console/textures.rs:239-276 | in any library, circular or not, a slot is defined fewer parents up than there are models |
| ParentChains.BoundIsEnoughForTwelveModels | src/src/console/models.rs:37-39 | with at most twelve models the bounded walk and the unbounded chain agree on every slot |
| ParentChains.ThirteenModelsCanBeTooMany | src/src/console/models.rs:37-39 | with thirteen they need not |
| Locations.LocationExactly | src/src/console/models.rs:71-76 | a location is a namespace in lower case and a path, `minecraft` when no namespace is written |
| Locations.FilesExactly | src/src/console/models.rs:79-103 | the model file and the texture it names, and when it is one of the game's own |
| Locations.ParentIsFollowed | src/src/console/textures.rs:268-275 | the walk goes on to a parent unless that is one of the game's own |
| Models.Resolve | src/src/console/models.rs:142-157 | the loop follows references as specified |
| Models.ResolvesWithinSevenHops | src/src/console/models.rs:142-157 | a slot resolves to a location if and only if its reference chain ends there within seven hops |
| Models.ChainsAreShort | src/src/console/models.rs:142-157 | a chain that ends has fewer hops than the map has slots, so cyclic chains never end |
| Models.BoundIsEnoughForEightSlots | src/src/console/models.rs:41-42 | with at most eight slots the bounded and the unbounded reading agree |
| Models.NineSlotsCanBeTooMany | src/src/console/models.rs:41-42 | with nine they need not |
| PickTexture.AscendingIsUnique | src/src/console/models.rs:120-132 | a set of slot names has one sorted enumeration |
| Locations.OrderExactly | src/src/console/models.rs:120-132 | slot names are compared by the first character in which they differ, a name before its extensions |
| PickTexture.OrderIgnoresEnumeration | src/src/console/models.rs:116-132 | the order slots are tried in does not depend on the hash map's enumeration |
| PickTexture.Pick | src/src/console/models.rs:116-139 | the first slot in that order that resolves |
| PickTexture.PickedIsTheFirstThatEnds | src/src/console/models.rs:116-157 | the choice is the end of the first chain, by priority and then alphabet, that ends within seven hops, and nothing when none does |
| PickTexture.ResolveViaModel | src/src/console/textures.rs:244-281 | walk, merge, pick: the same answer for every enumeration |
| RateLimit.RateLimiter.Check | src/src/middleware/rate_limit.rs:23-47 | prunes, decides and records for one address, and leaves every other alone |
| RateLimit.PrunedIsTheWindow | src/src/middleware/rate_limit.rs:29-37 | for clock readings that do not go back, the pruned deque is exactly the accepted requests of the last closed window |
| RateLimit.RefusedExactlyWhenFull | src/src/middleware/rate_limit.rs:29-43 | for such readings a request is refused if and only if `max_requests` were accepted in that window |
| RateLimit.NeverMoreThanMax | src/src/middleware/rate_limit.rs:23-47 | when no reading is more than some time below an earlier one, no closed interval that much shorter than the window holds more accepted requests than the maximum in the whole history; for readings that do not go back that is the window itself |
| RateLimit.OutOfOrderBreaksTheLimit | src/src/middleware/rate_limit.rs:24-37 | a clock reading that comes late lets one too many through |
| RateLimit.AddressesAreIndependent | src/src/middleware/rate_limit.rs:27-28 | each address's deque is that of its own readings alone |
| PowerJobs.JobTable.Open | src/src/console/control.rs:210-226 | adds the new job in its first phase and drops expired ones |
| PowerJobs.FoundAfterwards | src/src/console/control.rs:210-240 | whatever calls come after a job is opened, what is found under its id is the job in its first phase with its own changes in order, and nothing if and only if another was opened once its retention was over |
| PowerJobs.JobTable.Update | src/src/console/control.rs:232-240 | changes that job only, and nothing once it has expired |
| PowerRuns.RunKeepsInv | src/src/routes/console.rs:237-388 | every interleaving of workers, pollers, sidecar and clock keeps table, spool, verdicts and copies consistent |
| PowerRuns.SpooledAfterSaving | src/src/routes/console.rs:278-299 | a stop or restart is spooled only after its save attempt has returned |
| PowerRuns.DoneMeansZero | src/src/routes/console.rs:351-375 | a poll reports `done` only when the sidecar's verdict for that job is zero |
| PowerAnswers.VerdictIsReported | src/src/routes/console.rs:351-375 | in every run a poll that copied a queued job and finds a verdict answers with it, `done` exactly for zero and `failed` otherwise, with the sidecar's output; and stores phase, error and output if the job is still retained |
| PowerAnswers.PollSettlesTheJob | src/src/routes/console.rs:346-375 | one poll is enough to settle a queued job that has a verdict |
| PowerAnswers.AnswersAreTheSidecars | src/src/routes/console.rs:339-388 | in every run `done` comes with the sidecar's output and no error, and `failed` with the error of a verdict other than zero or that the sidecar could not be reached |
| PowerAnswers.FailedSaveIsNoted | src/src/routes/console.rs:278-288 | a failed save is noted on its job, and the action goes on |
| PowerAnswers.RequestIsNoted | src/src/routes/console.rs:290-312 | what cannot be spooled has failed and says so, what can is queued |
| PowerAnswers.JobsExpire | src/src/console/control.rs:210-226 | a job goes when another is opened half an hour after it or later, and not before |
| PowerRuns.PhasesOnlyMoveForward | src/src/routes/console.rs:271-375 | a stop or restart moves from saving to queued or failed and from queued to done or failed, and nowhere else, while it is retained |
| PowerRuns.FinalAnswersStand | src/src/routes/console.rs:346-388 | what one poll has answered for good a later one finds |
| PowerRuns.OnlyAStartGoesBack | src/src/routes/console.rs:301-312 | in every reachable state a step moves a job out of a final phase if and only if its worker, having spooled it, notes that now; the job is then a start, and queued again |
| PowerRuns.AStartCanGoBack | src/src/routes/console.rs:301-312 | and that happens |
| Base64.EncodeChunk | src/src/routes/auth/common.rs:143-160 | the shifted and masked triple gives the letters of the bytes' six-bit pieces, and padding |
| Base64.Encode | src/src/routes/auth/common.rs:140-162 | the encoding of section 4 of RFC 4648, group by group |
| Base64.DecodesExactlyTheEncoding | src/src/routes/auth/common.rs:140-162 | a text decodes to some bytes if and only if it is their encoding |
| Base64.LengthAndPadding | src/src/routes/auth/common.rs:143-160 | four characters for every three bytes or part of three; padding stands at the end, for what the last group lacks, and nowhere else |

## Left out

- Sockets, timeouts, file reads, zip and gzip decoding, HTTP, SQL, JWT, bcrypt and OAuth: foreign libraries; only what they do to the modelled state appears, as steps or parameters.
- Delivery.EveryLineExactlyOnce: Tokio's broadcast channel is taken as a bounded queue that reports how many entries a slow receiver lost; when lines were lost, their number is stated and not which ones.
- Replay.ViewerHearsEveryLine: the order between the two channels is promised inside the opening frame only, because they are subscribed one after the other.
- Sse: the byte order mark, the UTF-8 layer and the `id` and `retry` fields of the event stream.
- Tail: `stat` and read are one step, a file with the same identity only grows or is seen shorter than the cursor, and the poll interval is not modelled.
- Lines.LineSplitter.Push: `decode_line` (lossy UTF-8, trimmed carriage returns, colour translation) is an arbitrary function on whole lines.
- AnsiMeaning.TranslationKeepsTheLook: a look is the foreground colour and the four styles the panel knows, so backgrounds, faint, inverse and blinking are outside it; a terminal ends an escape where the code does, sub-parameters with colons mean nothing to it, and each of the sixteen named colours counts as the same shade in both.
- Snbt: floats and doubles are kept as the token they were spelled with; the wording of error messages is a constructor for each.
- Snbt: `strip_reply_prefix`, which cuts prose off before parsing.
- RconRuns.SplitReplyIsWhole: packets arrive whole, so a drain window that ends in the middle of one is not modelled.
- RconClient.RconConnection.ExecuteWithin: what the peer will send on a connection is given with the connection; the mutex that serialises commands is the order of the calls.
- PollClock: times are milliseconds and compared as such; the RFC 3339 spelling of the seen closing time is not modelled.
- Ballots: each transaction and each single statement is atomic; eligibility and liveness are one flag of the check, and no claim is made that no vote lands after closing, because they are checked before the transaction.
- Tallies.PercentIsNearest: exact tenths instead of 64-bit floats.
- ModLookup.Get: on a built index; the once-only building of it and file permissions are left out.
- ModIndex: entry names are byte strings, and a bundled jar over the size cap is one that does not open.
- Models: JSON decoding; the library is the models that can be read and parsed.
- PickTexture: the order of `candidate_paths`, the texture cache, its miss markers and its in-flight locks.
- RateLimit: one check at a time for each address, which the map's entry lock gives.
- PowerJobs: job ids are numbers that are never handed out twice; the audit records beside a power action are left out.
- `build_roster` and the rest of `players.rs`, `presence.rs`, `stats.rs`, `inventory.rs`, `audit.rs` and the other routes: a merge, enum spellings and one-branch checks that would only add easy members.
