# RazionOS utilities in Dafny

A model of the algorithmic programs of RazionOS and of its window server, with proofs for all
inputs, all runs and all reachable states. `dafny verify dfyconfig.toml` checks everything.

Code that updates things step by step is kept that way: cursors, rings, buffers, stacks and tables
are methods and classes. Each such method is proved equal to a function on values, or to a
definition that does not mention the algorithm, and the properties are proved about that.

| files | program | main results |
|---|---|---|
| `GrepChars`, `GrepLang`, `GrepMatch`, `GrepGroups`, `GrepTextbook`, `GrepPossessive`, `GrepWritten` | grep's backtracking matcher | for every legal pattern text the matcher succeeds exactly when there is a match in which each group takes the longest stretch it can, and it reports the longest such match; every match it reports is in the textbook language; if only closing parentheses follow a group that holds a quantifier, it decides the textbook language and reports the longest match |
| `GrepLines`, `GrepContext` | line selection, -x, -v, -A/-B/-C | which lines are selected, in terms of the language; the streaming ring prints exactly the lines, and separators, that a definition on the whole file asks for |
| `Crc32`, `Crc32Calc` | crc32 and cksum | the table engine is polynomial division, under every setting; plain crc32 is the CRC of RFC 1952 and `-P` is POSIX cksum; bursts of four bytes are detected exactly for odd polynomials |
| `Compositor`, `CompositorRun`, `CompositorOrder`, `CompositorLeaving`, `CompositorEffects`, `CompositorServer` | the window server | stacking, focus, buffer ids and client lists stay in order in every run; what each message and each frame does to the picture, the focus, the lists, the fields and the buffers, to the last field; `top_at` is the last window drawn |
| `Esh`, `EshCommands`, `EshTokenizer` | the shell's tokenizer | a line of words, put together from bare text, quotes, variables, escapes, stars and tildes, and of operators, with or without spaces, becomes its arguments |
| `Msk` | package manager | install order is topological and exact; the resolver ends if and only if no cycle is reachable from a request; the merged manifest holds the newest versions |
| `Hexify`, `HexifyDump`, `HexifyTool` | hexify | when decoding a dump gives back the bytes, as an if-and-only-if; what a dump shows, character by character; what the decoder makes of broken lines |
| `Julia` | progressive image | what every pixel holds after each pass and at the end; which rows are drawn |
| `LsColors`, `LsParser`, `LsGrid` | ls, and the completion grid of esh | LS_COLORS is parsed within its buffer into the tables it describes; the grid prints each entry once and fits |
| `Common` | | what several of them share |

## Reading notes

* **Properties that are false of the code** are stated as found, with the exact condition under
  which they hold. A WINDOW_STACK message for a minimised window breaks the stacking invariant
  (`Compositor.StackKeepsIff`), and a legal run leads to such a window
  (`CompositorEffects.RestackBreaks`). hexify's own output is not decoded past the first line for odd
  widths (`Hexify.RoundTripIff`), and whole lines of even width are decoded in full but reported as
  a failure (`Hexify.StatusIff`). For an odd height julia draws a row above the image and never the
  last one (`Julia.RowsOnceIff`, `Julia.Window.Render`). A polynomial with a clear low bit misses
  bursts (`Crc32Calc.DetectsBurstsIff`). grep's groups are possessive, so it misses `(a*)a` on the
  line `aa` (`GrepGroups.Misses`); what it does find is `GrepPossessive.Decides`. msk does not end on
  a request from which a dependency cycle can be reached (`Msk.World.FinishesIff`). A variable name
  of a hundred characters makes esh write one byte past its array (`EshTokenizer.ReadName`).
* **Characters and integers.** Whether C's `char` is signed is a parameter of grep's matcher.
  Registers of crc32 are sequences of 32 bits, lowest first. Counters and sizes are unbounded.
* **Buffers with indeterminate contents** (hexify's decoder) are a parameter, so results about it
  hold whatever they held.
* **Pointers to windows** are ids; a window keeps its id for ever, so a use after it is closed would
  show as an id that is not live.
* grep prints separators only when a context was asked for, so `GrepContext.Output` has none when both
  sizes are zero.

## Model

| member | source | states |
|---|---|---|
| `GrepChars.ScanEnd` | apps/grep.c:166-177 | the bracket scan finds a `]` or the end, and never stops behind a backslash |
| `GrepChars.MatchSquares` | apps/grep.c:89-118 | the cursor stops exactly at the bracket end the scan found, in bounds, and the answer is membership in the listed ranges, negated by `^` |
| `GrepChars.ReadSetChar` | apps/grep.c:96-101 | one possibly escaped set character and the position behind it |
| `GrepChars.SameIff` | apps/grep.c:65-77 | two characters are the same exactly when they are equal, or with -i when they are the two cases of one letter |
| `GrepChars.PrecedesIff` | apps/grep.c:65-77 | the order that ranges go by, signed `char` and -i included; for ASCII without -i it is that of the codes |
| `GrepLang.Text.Sound` | apps/grep.c:132-230 | whatever the search can return, for any pattern with groups, is in the declarative language |
| `GrepLang.Text.RunBounded` | apps/grep.c:210-214 | the forward run of a star is the longest one |
| `GrepMatch.RegexMatches` | apps/grep.c:132-230 | terminates in bounds for every pattern on which the matcher never comes to a stray backslash, and reports exactly the first hit of the priority list of the line's characters: its length, or failure; the byte past the line has no influence |
| `GrepMatch.ReadAtom` | apps/grep.c:156-188 | the atom at the cursor, malformed ones included |
| `GrepMatch.MatchItem` | apps/grep.c:156-227 | one quantified atom: either the search is over with the first hit, or the loop goes on with the same hits left |
| `GrepMatch.TryTaken` | apps/grep.c:189-199 | the first alternative of an optional atom |
| `GrepMatch.MatchRepeat` | apps/grep.c:200-223 | star and plus report the first hit in greedy order |
| `GrepMatch.RunForward` | apps/grep.c:210-214 | how far the forward run goes, one past the line included |
| `GrepMatch.BackOff` | apps/grep.c:215-223 | the continuations are tried downwards and the first success wins |
| `GrepMatch.EvenLegal` | apps/grep.c:160-165 | every pattern that ends in an even number of backslashes is legal |
| `GrepGroups.Exit` | apps/grep.c:136-147 | whatever matches inside a group ends at the parenthesis that closes it, and outside at the end of the pattern |
| `GrepGroups.Unique` | apps/grep.c:178-185 | a group without a quantifier can match in one way at most, so entering it once loses nothing |
| `GrepGroups.Found` | apps/grep.c:132-230 | when only closing parentheses follow a group that holds a quantifier, the search finds a match wherever the language has one |
| `GrepGroups.Complete` | apps/grep.c:132-230 | when no group holds a quantifier, every match in the language is one the search can return |
| `GrepGroups.NoParenthesis` | apps/grep.c:132-230 | a pattern text without an opening parenthesis is such a pattern |
| `GrepGroups.Decision` | apps/grep.c:132-230 | the verdict on a pattern text: always sound, exact under the first condition, and under the second the hits are the language |
| `GrepGroups.MissedTree` | apps/grep.c:178-185 | the text `(a*)a` is legal and is read as a group around a star |
| `GrepGroups.Misses` | apps/grep.c:178-185 | the matcher fails on the line `aa`, though the language has a match of its whole length |
| `GrepTextbook.ToPath` | apps/grep.c:132-230 | what is in the language of a pattern text is in the concatenation of its pieces, groups included |
| `GrepTextbook.FromPath` | apps/grep.c:132-230 | and the other way round, for every pattern text |
| `GrepTextbook.LangDenotes` | apps/grep.c:132-230 | the language of a pattern text is its textbook language of strings, anchors included |
| `GrepTextbook.Crossing` | apps/grep.c:200-223 | two matches that cross can change ends |
| `GrepTextbook.Longest` | apps/grep.c:132-230 | so the preferred match is the longest one, for every pattern in which only closing parentheses follow a group that holds a quantifier |
| `GrepTextbook.Decided` | apps/grep.c:132-230 | the search on a pattern text reports a member of the textbook language; under the same condition none from there is longer and none is missed |
| `GrepTextbook.Decides` | apps/grep.c:132-230 | for every legal pattern text, line and start: what the matcher reports is in the textbook language; if only closing parentheses follow a group that holds a quantifier, it succeeds exactly when some stretch is in the language and its length is that of the longest |
| `GrepPossessive.RouteCrossing` | apps/grep.c:178-185 | the same for matches in which groups take the longest stretch they can: a group never takes less from further on |
| `GrepPossessive.SearchFinds` | apps/grep.c:132-230 | for every pattern text, nested groups included, the search finds something exactly when there is such a match, and its preferred hit is the longest of them |
| `GrepPossessive.GreedyDenotes` | apps/grep.c:132-230 | every such match is in the textbook language |
| `GrepPossessive.Decides` | apps/grep.c:132-230 | the matcher on every legal pattern text, line and start: it succeeds exactly when there is a match in which each group takes as much as it can, and reports the longest of those |
| `GrepWritten.ReadBack` | apps/grep.c:132-230 | every pattern put together from characters, escapes, sets, anchors, quantifiers and nested groups is legal as text and is read as what it stands for |
| `GrepWritten.ReadEntries` | apps/grep.c:89-118 | entries of a set, escaped or not, single or spans, are read up to the bracket that closes it, also when the set breaks off behind a dash |
| `GrepWritten.SignMeans` | apps/grep.c:79-123 | what a dot, a letter, a set and a negated set accept, told by equality, case and order of characters only |
| `GrepWritten.Malformed` | apps/grep.c:160-177 | a backslash in front of any other character is itself, and a bracket that is never closed matches nothing |
| `GrepLines.Search.Matches` | apps/grep.c:237-246 | literal and regular search report the first hit at a position |
| `GrepLines.Search.LiteralIs` | apps/grep.c:237-246 | a fixed needle matches where it stands itself, or with -i its letters in either case |
| `GrepLines.Search.SelectsGranted` | apps/grep.c:533-607 | scanning the starts, or under -x testing the preferred match for the whole line, selects exactly the lines with such a match |
| `GrepLines.Search.SelectsWanted` | apps/grep.c:533-607 | what is selected is in the language, and for exact needles the other way round: under -x a line is selected if and only if the whole line is in the language |
| `GrepLines.Search.Rejects` | apps/grep.c:640-649 | for every needle the -v scan answers yes exactly for the lines with a match in which each group takes as much as it can, with -x one of the whole line; those lines are all in the language, and for a fixed needle or one in which only closing parentheses follow a group with a quantifier they are exactly the lines in the language |
| `GrepLines.Search.PrintSelected` | apps/grep.c:533-607 | a line is printed exactly under the same condition, and the pieces printed are together the line |
| `GrepContext.OutputExact` | apps/grep.c:505-531 | every line is put out once if it is within reach of a selected line, else never |
| `GrepContext.StepSelected` | apps/grep.c:546-551 | what a selected line adds to the output: a separator when a gap precedes, the lines in reach, itself |
| `GrepContext.StepUnselected` | apps/grep.c:612-627 | an unselected line is put out exactly when it is still owed |
| `GrepContext.RingPushed` | apps/grep.c:505-531 | with the current line in it the ring holds what a selected line would put out, and its overflow mark says whether a gap precedes |
| `GrepContext.Afresh` | apps/grep.c:612-627 | after a printed line the bookkeeping starts anew |
| `GrepContext.Joins` | apps/grep.c:505-531 | an unprinted line joins the ring and moves nothing else |
| `GrepContext.Printer.DumpContext` | apps/grep.c:285-302 | all of the ring but its newest line is printed, and the ring emptied |
| `GrepContext.Printer.PushContext` | apps/grep.c:505-531 | the line joins the ring; the oldest leaves when it is full |
| `GrepContext.Printer.Announce` | apps/grep.c:546-551 | in front of a selected line: the separator if a gap precedes, and the lines above it that are in reach |
| `GrepContext.Printer.PutSelected` | apps/grep.c:546-551 | the printer's state stays the one the lines so far call for |
| `GrepContext.Printer.PutOther` | apps/grep.c:651-676 | likewise for a line that is not selected |
| `GrepContext.Printer.Run` | apps/grep.c:505-676 | for every file, selection and context sizes the streamed output is the output defined on the whole file |
| `Crc32.StepXor` | apps/crc32.c:151-153 | a division step is linear |
| `Crc32.FeedWord` | apps/crc32.c:57-63 | up to a register of bits may be added at once before the steps |
| `Crc32.EntrySum` | apps/crc32.c:152-156 | a table entry is the sum of two earlier ones |
| `Crc32.FillOdd` | apps/crc32.c:154-156 | one pass of the inner loop fills the odd multiples of its stride |
| `Crc32.BuildTable` | apps/crc32.c:144-157 | for every polynomial entry n is eight division steps of n |
| `Crc32.TableUpdate` | apps/crc32.c:60-61 | the table update equals eight bit-at-a-time steps |
| `Crc32.Update` | apps/crc32.c:57-63 | one byte through the table is that byte through the divider |
| `Crc32Calc.ReflectN` | apps/crc32.c:34-41 | reverses the low n bits and clears the others |
| `Crc32Calc.Tool.constructor` | apps/crc32.c:144-157 | the table is ready for the reversed polynomial |
| `Crc32Calc.Tool.AddChunk` | apps/crc32.c:57-63 | a buffer runs through the divider bit by bit |
| `Crc32Calc.Tool.AddLength` | apps/crc32.c:65-74 | the octets of the length, lowest first and none for zero |
| `Crc32Calc.LengthBytesValue` | apps/crc32.c:65-74 | the octets of the length are the shortest that stand for it |
| `Crc32Calc.Tool.Calculate` | apps/crc32.c:47-85 | however the file is chunked the result is the checksum of its contents, and a read error is reported |
| `Crc32Calc.FeedInjective` | apps/crc32.c:57-63 | the same bits keep different registers apart when the polynomial is odd |
| `Crc32Calc.BurstDetected` | apps/crc32.c:57-63 | equal-length messages that differ within four consecutive bytes have different checksums, for every odd polynomial and setting |
| `Crc32Calc.BurstMissed` | apps/crc32.c:57-63 | with an even polynomial there are such messages with equal checksums, at every place |
| `Crc32Calc.DetectsBurstsIff` | apps/crc32.c:47-85 | all such bursts are detected if and only if the polynomial's low bit is set |
| `Crc32Calc.DivideIsDivision` | apps/crc32.c:131-138 | schoolbook division: dividend is quotient times divisor plus remainder, over GF(2) |
| `Crc32Calc.Mirror` | apps/crc32.c:57-76 | the reflected engine is the mirror image of the one that shifts up |
| `Crc32Calc.DivideAugmented` | apps/crc32.c:57-76 | running the register is dividing the message followed by zeros |
| `Crc32Calc.FeedUpInitial` | apps/crc32.c:53-63 | an initial register value is added to the leading coefficients of the message |
| `Crc32Calc.FlatAt` | apps/crc32.c:58-61 | the order in which bits are divided: octets in order, each from its low bit or with -r from its high bit |
| `Crc32Calc.ChecksumIsRemainder` | apps/crc32.c:47-85 | for every polynomial, setting and message the checksum is the remainder of the message, its bits in the chosen order, times x^32 plus the initial value in front, with the final value added, the one or the other reversed |
| `Crc32Calc.PlainMode` | apps/crc32.c:22-25 | without options, and with -c, the program computes the CRC of section 8 of RFC 1952 for its polynomial |
| `Crc32Calc.CksumMode` | apps/crc32.c:131-138 | in particular the -P mode computes the POSIX cksum of every file |
| `Compositor.UnorderMoves` | apps/compositor.c:279-297 | takes a window, and only it, off its stack |
| `Compositor.MakeTopMoves` | apps/compositor.c:337-347 | raising moves no window to another stack |
| `Compositor.FocusMoves` | apps/compositor.c:356-386 | focusing a window that is not minimised changes the focus only |
| `Compositor.UnminimizeMoves` | apps/compositor.c:1818-1833 | a minimised window comes back to the middle stack, once |
| `Compositor.HeirIsGood` | apps/compositor.c:1637-1648 | the window that inherits the focus is live and visible |
| `Compositor.CloseKeeps` | apps/compositor.c:1616-1664 | closing keeps the stacking and focus invariant and releases exactly the window's buffer |
| `Compositor.MinimizeKeeps` | apps/compositor.c:1590-1611 | so does minimising |
| `Compositor.FocusKeeps` | apps/compositor.c:356-386 | so does focusing any live window or none |
| `Compositor.StackKeeps` | apps/compositor.c:302-332 | so does restacking a window that is not minimised, evictions included |
| `Compositor.StackBreaks` | apps/compositor.c:302-332 | restacking a minimised one always breaks it |
| `Compositor.StackKeepsIff` | apps/compositor.c:2971-2979 | a restack keeps the invariant if and only if its window is not minimised |
| `Compositor.StackedMeans` | apps/compositor.c:262-386 | the invariant spelled out: one place at most, only live windows, z agrees with the place, the minimised mark with the list, the focus is live and not minimised |
| `CompositorRun.CreateKeeps` | apps/compositor.c:417-464 | a new window keeps all invariants and releases nothing |
| `CompositorRun.CloseWindowKeeps` | apps/compositor.c:2961-2969 | a close message keeps all invariants |
| `CompositorRun.DisconnectKeeps` | apps/compositor.c:2809-2835 | so does the loss of a client |
| `CompositorRun.ResizeKeeps` | apps/compositor.c:491-508 | a resize takes an id no window holds, and none when one is pending |
| `CompositorRun.ResizeFinishKeeps` | apps/compositor.c:516-569 | finishing a resize releases exactly the id it replaces |
| `CompositorRun.CloseBufs` | apps/compositor.c:1616-1664 | closing releases an id that was not released before |
| `CompositorRun.QueueOnce` | apps/compositor.c:1448-1472 | a frame queues a window once at most, never both for closing and for minimising, and only live ones |
| `CompositorRun.FrameStepKeeps` | apps/compositor.c:1448-1472 | draining the queues of a frame keeps all invariants |
| `CompositorRun.StepKeeps` | apps/compositor.c:2844-3089 | every legal step keeps all invariants |
| `CompositorRun.RunKeeps` | apps/compositor.c:2844-3089 | so does every legal run: stacking, focus, distinct current and pending buffer ids, no id released twice or while in use |
| `CompositorRun.StartGood` | apps/compositor.c:2632-2641 | the state the server starts in is in order |
| `CompositorOrder.SameOrder` | apps/compositor.c:1000-1018 | when the other windows keep their places they are drawn in the order they were drawn in before |
| `CompositorOrder.RaiseEffect` | apps/compositor.c:337-347 | the window becomes the last of its stack; all others keep their order |
| `CompositorOrder.FocusEffect` | apps/compositor.c:356-386 | the window has the focus, is not minimised and is in front of its stack; all others keep their order |
| `CompositorOrder.HeirStays` | apps/compositor.c:1637-1648 | the window that inherits the focus is in front already, so nothing moves |
| `CompositorOrder.CloseEffect` | apps/compositor.c:1616-1664 | the picture is the old one without the window; the focus goes to the last menu window, else the last ordinary one, else the bottom |
| `CompositorOrder.MinimizeEffect` | apps/compositor.c:1590-1611 | the same, and the window is the last of the minimised list |
| `CompositorOrder.StackEffect` | apps/compositor.c:302-318 | restacked to a list, the window has its new order, is the last there, and all others keep theirs |
| `CompositorOrder.FreeSlotEffect` | apps/compositor.c:320-332 | a free end slot is taken; all other windows keep their order |
| `CompositorOrder.SlotEffect` | apps/compositor.c:320-332 | an end slot changes hands: the old holder is drawn no more, all others keep their order |
| `CompositorLeaving.LeftTwice` | apps/compositor.c:1637-1648 | when windows leave one after the other the stacks keep all others in order, and the focus ends at the heir of what is left if its window is among them |
| `CompositorLeaving.CloseAllLeaves` | apps/compositor.c:1460-1464 | draining the queue of windows to remove: stacks, focus, lists, fields and released buffers, all told |
| `CompositorLeaving.MinimizeAllLeaves` | apps/compositor.c:1466-1471 | draining the queue of windows to minimise: likewise, and they join the minimised list in the order they are popped |
| `CompositorEffects.RaiseDoes` | apps/compositor.c:337-347 | raising keeps all invariants, puts the window in front of its stack unless it is off the stacks, and changes nothing else |
| `CompositorEffects.FocusDoes` | apps/compositor.c:356-386 | focusing keeps all invariants; the window has the focus, is not minimised and is in front; no window means the bottom one; nothing else changes |
| `CompositorEffects.CloseDoes` | apps/compositor.c:1616-1664 | closing: picture, lists, live windows, focus, fields and released buffers, all told |
| `CompositorEffects.MinimizeDoes` | apps/compositor.c:1590-1611 | minimising: picture, focus, fields and minimised list, all told |
| `CompositorEffects.StackDoes` | apps/compositor.c:302-332 | restacking keeps all invariants if and only if the window is not minimised, and then has its effect, eviction from an end slot included |
| `CompositorEffects.CreateDoes` | apps/compositor.c:417-464 | a new window has an id and a buffer nothing has held, is hidden, in front of the middle stack and on its client's list; nothing else changes |
| `CompositorEffects.NewDoes` | apps/compositor.c:2858-2880 | giving the focus to a new window moves nothing |
| `CompositorEffects.RevealDoes` | apps/compositor.c:1810-1816 | the first flip makes the window drawn and changes nothing else |
| `CompositorEffects.ResizeDoes` | apps/compositor.c:491-569 | a resize offers a buffer nothing has held, and its end releases exactly the replaced one |
| `CompositorEffects.MarkDoes` | apps/compositor.c:1567-1575 | a hidden or minimised window is closed at once, any other begins to close |
| `CompositorEffects.CloseWindowDoes` | apps/compositor.c:2961-2969 | after a close message a window that can be seen is closing, another is closed, nobody owns it, and nothing else has changed |
| `CompositorEffects.DisconnectDoes` | apps/compositor.c:2809-2835 | after the loss of a client its windows that can be seen are closing, its others are closed in order, and nothing else has changed |
| `CompositorEffects.FrameDoes` | apps/compositor.c:1448-1472 | a frame closes exactly the windows whose closing has run its time or that stand nowhere, minimises exactly those whose minimising has, ends other animations that have run their time, and leaves every other field, the order and the focus alone |
| `CompositorEffects.StepDoes` | apps/compositor.c:2844-3089 | every legal event keeps all invariants and does what it is for, to the last field |
| `CompositorEffects.RestackBreaks` | apps/compositor.c:2971-2979 | a legal run from the start leads to a minimised window, and restacking it breaks the invariants |
| `CompositorEffects.HeirIs` | apps/compositor.c:1637-1648 | the heir of the focus is the last window drawn of those that are neither an overlay nor the top |
| `CompositorEffects.DrawnByRank` | apps/compositor.c:1000-1018 | the picture goes from the bottom over ordinary windows, overlays and menus to the top, and shows live windows only |
| `CompositorServer.Server.constructor` | apps/compositor.c:2632-2641 | a new server is in that state |
| `CompositorServer.Server.UnorderWindow` | apps/compositor.c:279-297 | the window leaves its stack; all others keep their order |
| `CompositorServer.Server.ReorderWindow` | apps/compositor.c:302-332 | keeps the invariants if and only if the window is not minimised; then it is in front at its new place, an end slot changes hands, and the others keep their order |
| `CompositorServer.Server.RaiseWindow` | apps/compositor.c:337-347 | keeps the invariants; the window is in front of its stack and the others keep their order |
| `CompositorServer.Server.SetFocusedWindow` | apps/compositor.c:356-386 | keeps the invariants; the window has the focus, is not minimised and is in front; a null pointer means the bottom window; nothing else changes |
| `CompositorServer.Server.CreateWindow` | apps/compositor.c:417-464 | keeps the invariants; the new window has a fresh id and buffer, is hidden and in front of the middle stack |
| `CompositorServer.Server.ResizeWindow` | apps/compositor.c:491-508 | keeps the invariants; returns the pending buffer, one that nothing has held |
| `CompositorServer.Server.ResizeFinishWindow` | apps/compositor.c:516-569 | keeps the invariants; the pending buffer takes over and exactly the replaced one is released |
| `CompositorServer.Server.Refocus` | apps/compositor.c:1637-1648 | the focus goes to the last menu window, else the last ordinary one, else the bottom |
| `CompositorServer.Server.FinishMinimizeWindow` | apps/compositor.c:1590-1611 | keeps the stacks in order; the window leaves the picture for the end of the minimised list and the focus is inherited |
| `CompositorServer.Server.ActuallyCloseWindow` | apps/compositor.c:1616-1664 | keeps the stacks in order; the window is gone from picture, live windows and focus, and its buffer is released |
| `CompositorServer.Server.MarkForCloseWindow` | apps/compositor.c:1567-1575 | a hidden or minimised window is closed at once, any other begins to close |
| `CompositorServer.Server.UnminimizeWindow` | apps/compositor.c:1818-1833 | the window is not minimised and the others keep their order |
| `CompositorServer.Server.RevealWindow` | apps/compositor.c:1810-1816 | keeps the invariants; the window is drawn and nothing else changes |
| `CompositorServer.Server.CloseMessage` | apps/compositor.c:2961-2969 | keeps the invariants; the window is closing or closed, nobody owns it, nothing else has changed |
| `CompositorServer.Server.NewMessage` | apps/compositor.c:2858-2880 | keeps the invariants; a window is created, and has the focus if asked for |
| `CompositorServer.Server.DisconnectClient` | apps/compositor.c:2809-2835 | keeps the invariants; all windows of the client are closing or closed and nothing else has changed |
| `CompositorServer.Server.Blit` | apps/compositor.c:787-822 | drawing queues the visible windows whose closing or minimising has run its time, in drawing order |
| `CompositorServer.Server.RedrawWindows` | apps/compositor.c:1448-1472 | keeps the invariants; exactly the windows queued are closed or minimised, animations that have run their time end, and nothing else changes |
| `CompositorServer.Server.Handle` | apps/compositor.c:2844-3089 | one legal event follows the state machine, keeps the invariants and does what it is for |
| `CompositorServer.Server.Serve` | apps/compositor.c:2844-3089 | any legal run of events follows the state machine and ends in a state in order |
| `CompositorServer.Server.ScanDown` | apps/compositor.c:678-694 | the last hit of one stack |
| `CompositorServer.Server.TopAt` | apps/compositor.c:678-694 | the last window in drawing order that is visible and solid at the point, none if there is none |
| `CompositorServer.LastHitMeans` | apps/compositor.c:657-694 | what "the last one" means: it is solid, and nothing drawn after it is |
| `Esh.InnerBack` | apps/esh.c:1331-1342 | inside single quotes every character is itself, and a quoted quote comes back |
| `Esh.WordBack` | apps/esh.c:1234-1488 | a quoted text joins the word that is being collected |
| `Esh.ShowBack` | apps/esh.c:1234-1529 | any list of words, printed with single quotes and joined by spaces, is tokenized into exactly that list, empty words and metacharacters included |
| `Esh.SpreadFields` | apps/esh.c:1293-1307 | an unquoted value that is spread and ended is its fields, empty ones dropped |
| `Esh.SpreadSpace` | apps/esh.c:1295-1301 | a space in an unquoted value ends the word that is being collected, also one that is only a pair of quotes |
| `Esh.FieldsBack` | apps/esh.c:1293-1307 | words without spaces, written with spaces between them, are the fields of what is written |
| `Esh.SpreadSolid` | apps/esh.c:1293-1307 | a quoted value, or one without spaces, enters the word whole |
| `Esh.NameBack` | apps/esh.c:1243-1267 | plain, braced and special names are read up to their end |
| `Esh.Expansion` | apps/esh.c:1240-1309 | a variable, in double quotes or outside quotes and whatever surrounds it: its value enters the word, and one that is not set leaves no trace |
| `EshCommands.LineBack` | apps/esh.c:1234-1488 | a line of words put together from bare text, quotes, variables, escapes, stars and tildes, of operators and of variables to be split, with or without spaces, becomes its arguments, and what follows is read on from there |
| `EshCommands.CommandBack` | apps/esh.c:1356-1397 | such a line ends at its end, at a newline, at a comment, or at a semicolon with the rest left over |
| `EshCommands.LettersBack` | apps/esh.c:1470-1475 | ordinary characters outside quotes join the word |
| `EshCommands.InnersBack` | apps/esh.c:1240-1330 | inside double quotes text is itself, variables are expanded and a backslash escapes |
| `EshCommands.SlashBack` | apps/esh.c:1349-1352 | a backslash makes special characters ordinary and stays in front of others |
| `EshCommands.StarBack` | apps/esh.c:1343-1348 | the first star of a word leaves its marker, any other is itself |
| `EshCommands.TildeBack` | apps/esh.c:1310-1318 | a tilde at the start of a word is the home directory if that is set and the word ends or a slash follows; any other is itself |
| `EshCommands.PartsBack` | apps/esh.c:1234-1488 | parts that adjoin are one word |
| `EshCommands.WordEnds` | apps/esh.c:1353-1397 | a word ends at a space, a newline, a semicolon, a comment or an operator |
| `EshCommands.TwoBack` | apps/esh.c:1371-1377 | a word that reads `2`, in quotes or not, is the error stream when `>` follows |
| `EshCommands.Adjoining` | apps/esh.c:1234-1529 | in particular bare, double-quoted and single-quoted text side by side are one argument, an operator needs no spaces, and words with spaces between them are themselves |
| `EshCommands.Unfinished` | apps/esh.c:1490-1529 | an open quote and a backslash at the end of a line ask for more input, and a backquote for another command |
| `EshTokenizer.ArgBuilder.PushChar` | apps/esh.c:1165-1172 | the buffer grows as needed and gains one character |
| `EshTokenizer.ArgBuilder.Push` | apps/esh.c:1174-1189 | the buffer gains a string |
| `EshTokenizer.ArgBuilder.Discard` | apps/esh.c:1191-1196 | the buffer is empty again |
| `EshTokenizer.Tokenizer.AddArgument` | apps/esh.c:1198-1204 | the word joins the arguments and a new one begins |
| `EshTokenizer.Tokenizer.StartArg` | apps/esh.c:1478-1486 | a word ends if anything was collected or a quote forces it |
| `EshTokenizer.Tokenizer.AddOperator` | apps/esh.c:1359-1385 | an operator is a word of its own |
| `EshTokenizer.Tokenizer.QuoteChar` | apps/esh.c:1319-1342 | a quote opens, closes, or is an ordinary character |
| `EshTokenizer.Tokenizer.Redirect` | apps/esh.c:1369-1385 | `2>` is the error redirection, `>` the plain one |
| `EshTokenizer.Tokenizer.SpreadValue` | apps/esh.c:1293-1307 | the loop over a value |
| `EshTokenizer.Tokenizer.Expand` | apps/esh.c:1240-1309 | the dollar branch: name, lookup, spread |
| `EshTokenizer.Tokenizer.Character` | apps/esh.c:1239-1477 | one round of the loop does what one move of the machine does |
| `EshTokenizer.ReadName` | apps/esh.c:1243-1267 | braced, special and plain names, at most a hundred characters; the byte behind the array is overwritten if and only if the name has a hundred |
| `EshTokenizer.Tokenize` | apps/esh.c:1234-1529 | for every line the loop produces what the machine on values produces |
| `EshTokenizer.End` | apps/esh.c:1490-1529 | at the end an open quote or backslash asks for more input, else the last word is added |
| `Msk.World.WalkFits` | apps/msk.c:291-302 | a chain of dependencies that repeats nothing is no longer than the manifest |
| `Msk.World.OrderedAppend` | apps/msk.c:304-306 | a package whose dependencies are listed may be appended |
| `Msk.World.OrderedMeans` | apps/msk.c:278-307 | an ordered list holds known packages that are not installed, and every dependency that is neither installed nor unknown stands in front of its dependent |
| `Msk.World.OrderedClosed` | apps/msk.c:278-307 | an ordered list holds whatever its members can reach |
| `Msk.World.OrderedTame` | apps/msk.c:278-307 | nothing in an ordered list can reach a cycle |
| `Msk.World.RunDone` | apps/msk.c:270-307 | a finished run keeps the list ordered, adds the package and only what it can reach |
| `Msk.World.Cyclic` | apps/msk.c:291-302 | a package that depends on itself, however indirectly, is never finished |
| `Msk.World.FinishesIff` | apps/msk.c:270-307 | with the depth of the recursion bounded, some bound suffices if and only if no cycle among wanted packages is reachable from the name |
| `Msk.Resolver.Process` | apps/msk.c:270-307 | when it ends: the list stays free of duplicates with every dependency in front, holds the package and only adds what it can reach; fails exactly for an empty or unknown name |
| `Msk.Resolver.Resolve` | apps/msk.c:444-451 | when no cycle is reachable from the requests up to the first refused one: fails exactly when some request is empty or unknown; otherwise the list is exactly the known uninstalled packages reachable from the requests, each once, dependencies first |
| `Msk.CompareIsOrder` | apps/msk.c:63-85 | version comparison is the lexicographic strict total order on triples |
| `Msk.MergeRemote` | apps/msk.c:232-253 | one more remote, its keys in any order |
| `Msk.Merge` | apps/msk.c:202-259 | each package has the newest version over all remotes that list it, from the earliest remote that has it |
| `Msk.MergedUnique` | apps/msk.c:232-253 | that determines the merged manifest |
| `Msk.OrderIrrelevant` | apps/msk.c:232-253 | the versions kept do not depend on the order of the remotes |
| `Hexify.HexPadBack` | apps/hexify.c:50-67 | a printed offset is read back as its value |
| `Hexify.CellsBack` | apps/hexify.c:178-202 | the columns of a line give back its bytes up to the first blank |
| `Hexify.LineBack` | apps/hexify.c:147-222 | one line is decoded to its bytes; an odd width then eats one character of the next line |
| `Hexify.EndBack` | apps/hexify.c:147-159 | past the last line nothing is emitted, whatever the buffers held, and the exit status is 1 |
| `Hexify.EvenBack` | apps/hexify.c:121-222 | an even width: everything comes back while offsets have eight digits |
| `Hexify.OddBack` | apps/hexify.c:121-222 | an odd width: the first line comes back and nothing else |
| `Hexify.RoundTrip` | apps/hexify.c:121-222 | every byte string shorter than 2^32 survives at every even width up to 256 |
| `Hexify.RoundTripIff` | apps/hexify.c:121-222 | bytes survive if and only if they fit one line, or the width is even and the last offset is below 2^32 |
| `Hexify.StatusIff` | apps/hexify.c:143-225 | exit status 0 if and only if the bytes came back and the last line was not a whole line of even width |
| `HexifyDump.DigitsAre` | apps/hexify.c:50-67 | the digits that are read, of both cases, and those that are written |
| `HexifyDump.DumpShows` | apps/hexify.c:18-48 | every line of a dump: the offset in small digits, the bytes in hexadecimal in pairs, the text, printable characters only, and one newline at its end |
| `HexifyDump.DumpAt` | apps/hexify.c:18-48 | every byte stands on its line at its two places, in hexadecimal and as itself if it is printable, else as a dot |
| `HexifyDump.BrokenLine` | apps/hexify.c:178-202 | a line that breaks off at two blanks ends with status 0, at a pair that is no number with status 1, and the bytes in front are written |
| `HexifyDump.BadHead` | apps/hexify.c:149-175 | a wrong offset or a missing colon ends with status 1 |
| `HexifyDump.AnyText` | apps/hexify.c:204-218 | the text behind a full row of bytes is passed over whatever it is |
| `HexifyTool.Stream.Read` | apps/hexify.c:128-128 | a short read leaves the rest of the buffer alone and raises the end-of-file mark |
| `HexifyTool.HexColumns` | apps/hexify.c:20-34 | the hexadecimal columns, the odd width included |
| `HexifyTool.AsciiColumns` | apps/hexify.c:36-46 | one character to a byte, printable or a dot |
| `HexifyTool.PrintLine` | apps/hexify.c:18-48 | the line of a dump |
| `HexifyTool.Encode` | apps/hexify.c:121-141 | the whole file is read and dumped line by line |
| `HexifyTool.Stoih` | apps/hexify.c:50-67 | the value of a string of digits, or failure with zero |
| `HexifyTool.ReadHead` | apps/hexify.c:149-175 | the offset must be the expected one and the colon follow |
| `HexifyTool.DecodeRow` | apps/hexify.c:178-202 | the loop over the bytes, blanks, errors and stale buffers included |
| `HexifyTool.Decode` | apps/hexify.c:143-225 | for any input and any initial buffers: exactly the bytes and exit status of the specification |
| `Julia.RowWhen` | apps/julia.c:365-371 | the order of the rows has an inverse |
| `Julia.Outwards` | apps/julia.c:365-371 | the lines go from the middle of the image outwards |
| `Julia.RowDrawn` | apps/julia.c:365-371 | the rows drawn: all of them for an even height; for an odd one all but the last, and the one above the image |
| `Julia.RowsOnceIff` | apps/julia.c:365-371 | the line phase draws each row of the image once and no other if and only if the height is even |
| `Julia.Window.AlreadySampled` | apps/julia.c:352-353 | a skipped block holds the right sample because the last pass took it |
| `Julia.Window.FillBlock` | apps/julia.c:356-360 | the block, clipped to the image, and nothing else |
| `Julia.Window.PaintRow` | apps/julia.c:351-364 | a row of blocks holds the samples at their corners, skipped ones included |
| `Julia.Window.NextPass` | apps/julia.c:331-339 | the next pass begins where every pixel is at the last resolution |
| `Julia.Window.DoLine` | apps/julia.c:247-254 | one row becomes exact and nothing else changes |
| `Julia.Window.CoarseStep` | apps/julia.c:351-364 | keeps the invariant of a coarse pass |
| `Julia.Window.FineStep` | apps/julia.c:365-371 | keeps the invariant of the line phase |
| `Julia.Window.StepOnce` | apps/julia.c:330-372 | goes from one invariant to the next until the image is finished, always with progress |
| `Julia.Window.StartProcessing` | apps/julia.c:266-288 | the first step starts the first pass |
| `Julia.Window.Render` | apps/julia.c:330-372 | ends; the final image is direct sampling in every row, but for the last row of an odd height |
| `LsColors.Escaped` | apps/ls.c:551-613 | no more is written than was read, and reading stops at a delimiter |
| `LsColors.HeadAt` | apps/ls.c:616-646 | a name with its terminator is no longer than what was read, and every call makes progress |
| `LsColors.ValueAt` | apps/ls.c:648-665 | a value without its terminator is no longer than what was read |
| `LsColors.RoundTrip` | apps/ls.c:551-694 | a variable written from a list of entries is parsed into that list |
| `LsColors.MarkBack` | apps/ls.c:555-609 | every way to write a character: as itself, with any letter behind a backslash, as octal or hexadecimal number of any length in either case, with a caret |
| `LsColors.MarksBack` | apps/ls.c:551-613 | a text of such characters is read as what they stand for |
| `LsColors.LoneBackslash` | apps/ls.c:561-562 | a backslash at the very end stands for nothing |
| `LsColors.NoEntry` | apps/ls.c:634-646 | a stretch without an equals sign is passed over |
| `LsColors.CStringIs` | apps/ls.c:679-693 | a name or colour counts up to its first NUL |
| `LsColors.BaseIs` | apps/ls.c:679-685 | a base colour is that of the last entry for its name, or the default |
| `LsColors.MatchesAre` | apps/ls.c:686-693 | the wildcards are kept with the last one in front |
| `LsParser.ReadOne` | apps/ls.c:555-609 | one turn of the escape loop |
| `LsParser.ParseEscaped` | apps/ls.c:551-613 | the text of the specification lands in the buffer, within bounds, and nothing in front of it changes |
| `LsParser.ParseColorType` | apps/ls.c:616-646 | the name and its terminator land in the buffer, or nothing is kept |
| `LsParser.ParseColorVal` | apps/ls.c:648-665 | the value and its terminator land in the buffer, or nothing is kept |
| `LsParser.ParseEntry` | apps/ls.c:674-677 | output never gets ahead of input by more than one pending terminator |
| `LsParser.StringStable` | apps/ls.c:667-694 | a string in the buffer is never overwritten |
| `LsParser.Record` | apps/ls.c:679-693 | an entry takes effect in the tables |
| `LsParser.SetupColors` | apps/ls.c:667-695 | for every LS_COLORS the loop ends, all writes fit a buffer of one more than its length, and the strings the tables point to are those the entries say |
| `LsGrid.Grid.EachOnce` | apps/ls.c:468-479 | every entry is printed exactly once, in row x % rows and column x / rows |
| `LsGrid.LineFitsIff` | apps/ls.c:462-465 | every line fits the terminal if and only if one entry does |
| `LsGrid.NoWider` | apps/ls.c:462-465 | one column more would not fit |
| `LsGrid.RowsEnough` | apps/ls.c:469-470 | the rows hold all entries, and one row fewer would not |
| `LsGrid.PrintLine` | apps/ls.c:472-477 | a line goes on to the last column or the last entry |
| `LsGrid.PrintGrid` | apps/ls.c:462-479 | the grid as printed; the completion grid of esh is the case of spacing one |

## Left out

- GrepGroups.Found: one way only; a quantifier inside a group followed by something else can be harmless for every line, and no condition on the pattern alone is given that is also necessary. `GrepPossessive.Decides` is exact for every pattern and line.
- GrepMatch.RegexMatches: a pattern on which the matcher comes to a stray backslash at its end is excluded, because the cursor then runs past the end of the pattern string.
- GrepWritten.ReadBack: a set that ends in a backslash, and one that is not negated and begins with `^`, cannot be written; `^` right behind `\?` is left out; the theorems about the matcher are over all pattern texts and do not need it.
- GrepLines.Search.PrintSelected: colour escapes, -o, binary detection, counting and file name prefixes.
- Crc32Calc.Tool.Calculate: 64-bit overflow of the size counter; printing.
- Compositor: geometry, drawing, rotation, tiling, snapping, key bindings and the exit when the last client leaves.
- CompositorRun.RunKeeps: assumes that a client says hello before it makes a window and does not restack a minimised window; `Compositor.StackKeepsIff` shows that the second is needed.
- CompositorServer: message transport and shared memory are abstract steps; windows are ids and not aliased pointers.
- EshTokenizer.Tokenize: history expansion and the running of a backquoted command; the latter ends the model as its own outcome. A dollar sign with no name behind it looks up the empty name. An open quote ends the model with its own outcome; reading the continuation line is not modelled.
- EshCommands.LineBack: a variable whose value has spaces is an item of its own; inside a word `Esh.Expansion` says where its value goes.
- esh otherwise: globbing, process control, prompts and completion candidates.
- Msk.Resolver.Process: demands that the recursion ends, which `Msk.World.FinishesIff` makes a condition on the manifest; a dependency string of spaces only is not modelled.
- Msk.Merge: reading version strings and files, downloads, the lock file and installation itself; a remote that cannot be loaded is left out of the list beforehand.
- Hexify: messages to the error stream, and the option parser that limits the width to 256.
- Julia.Window: the colour function and what the label makes of a pixel are parameters; copying to the screen is not modelled.
- LsParser.ParseEscaped: overflow of the number in a very long octal or hexadecimal escape; the low byte of the unbounded value is stored.
- LsGrid: the row-major listing and the long listing, which would only add easy members.
- Network clients, graphical applications, the archive and language tools of the repository.
