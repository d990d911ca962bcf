# Verified model of the compiler's embedded algorithms

A Dafny model of the self-contained algorithms of the repository: the parent-link pass over the block
arena, the constant-expression checker, the duplicate-definition pass over generated C, the Socket.IO
codec, the decimal printers and arm64 emitters, the JSON debug printer, the selection loops of code
generation and type checking, and four smaller imperative cores. `dafny verify dfyconfig.toml` checks it.

Where the source changes things step by step the model does too: methods with loops over arrays, classes
for the block arena, the code buffer and the output stream, and a step relation for threads. Each such
method is tied to a specification (a function, or a property that determines the result), and the
promises are proved about that. What a null pointer is in C is `None`, or a nullable array or object.

| files | subject |
|---|---|
| `BlockGraph.dfy`, `BlockLinks.dfy` | the explicit-stack pass that writes parent links, its stack bound and its recursive meaning |
| `ConstExpr.dfy`, `ConstExact.dfy`, `ConstPrune.dfy`, `ConstOrder.dfy` | the constant-expression checker, with arbitrary operators and arbitrary runtime state; what exactly it accepts; initialisers without what literals rule out; when declaration order is the meaning of a block |
| `CallScan.dfy`, `DedupText.dfy`, `DedupBraces.dfy`, `DedupSource.dfy` | the count of calls, the brace scanner and index filter, where a definition ends, the text around them |
| `DedupLaws.dfy`, `DedupResults.dfy`, `DedupTwice.dfy`, `DedupSample.dfy` | the text as chunks; what the filter promises; exactly when it is idempotent, and texts on which it is not |
| `Append.dfy`, `SocketIo.dfy`, `EventDecoder.dfy`, `EventReading.dfy`, `NamespaceComma.dfy`, `EventJson.dfy`, `HttpWrap.dfy` | buffer helpers, packet and event encoders, event decoder, what it understands, namespaces with commas, the arguments as JSON, HTTP wrapper |
| `Decimal.dfy`, `Arm64.dfy` | decimal printing; little-endian words and the two MOVZ/MOVK emitters |
| `JsonFmt.dfy` | the JSON debug printers with a reader |
| `StructOwner.dfy`, `CallName.dfy`, `TailExpr.dfy` | struct owner, call link name, implicit tail expression |
| `Comments.dfy`, `QuickSort.dfy`, `Matcher.dfy`, `PatternText.dfy`, `MutexCounter.dfy` | comment stripping, Lomuto quicksort, backtracking matcher and how its patterns are written, mutex-protected counter |
| `Bytes.dfy`, `Options.dfy` | shared vocabulary |

Some things one might expect of the code do not hold; there the model keeps the code and proves exactly
when it does what is expected.

- The block pass has no visited set and drops pushes on a full stack. It ends with every push kept exactly
  on graphs that have no cycle and fit 256 entries (`EndsWithoutDropIff`); a block that is its own body
  never ends it (`SelfLoopNeverEnds`).
- The event decoder reads an escaped byte twice, so a packet survives exactly when its strings need no
  escapes, but for a single quote at the very end of the data; and it ends a namespace at its first comma,
  so under a namespace with a comma it survives exactly when the namespace itself spells the event and the
  data (`RoundTripIff`).
- The encoders escape quotes and backslashes only, so an event is JSON exactly when its strings are UTF-8
  without control bytes (`ArgumentsAreJsonIff`).
- The namespace encoder stores two bytes past its check: it aborts for namespaces of 510 and 511 bytes.
- The surface copy of the arm64 emitter loads a constant exactly when its upper half is zero.
- The debug printer writes other control bytes as `\xNN`, which JSON does not know, and copies bytes that
  are no UTF-8 (`LegalJsonIff`).
- The matcher does not rewind its cursors. It is right on every text exactly for patterns in which no
  starred atom comes before a needed atom for another byte (`RightOnEveryTextIff`).
- The duplicate-definition pass is not idempotent. On texts whose definitions close their braces, whose
  extern lines are whole declarations without braces and whose lines are otherwise shaped as the two regular
  expressions demand, it is exactly when no repeated extern line stands between a name and an opening
  parenthesis in a copy that is kept beside another (`TwiceIsOnceIffUnbridged`, and `SourceTwiceIsOnceIff`
  for the text with its newlines); otherwise the second pass takes a definition that the first has kept
  (`LostIffBridged`).
- An exported struct without fields is written by nobody even when another dependency knows its fields
  (`StructIsEmittedIff`).
- A constant that hides a module constant after it has been used is accepted. Declaration order is the one
  meaning of a block, whatever operators and module constants mean, exactly when no initialiser mentions, in
  a part that is evaluated, a constant declared at or after it; the necessary half is for branches that
  literals decide (`OrderIsTheMeaningIff`).
- A let that hides a module constant is accepted by its name, although its value is known at run time only
  (`HidingLetIsAccepted`, `ConstantButIff`).
- Stripping block comments twice is stripping them once exactly when no comment stands between a slash and
  a star (`TwiceIsOnceIff`).

## Model

| member | source | states |
|---|---|---|
| BlockLinks.Arena.PatchParentLinks | compiler/ast_gen2.c:546-625 | on every graph without a cycle below the block, the two fixed stacks and the guarded pushes leave exactly the parents of the abstract run, change no other field of any block, and never index outside the 256 slots |
| BlockLinks.Arena.PatchForTrips | compiler/ast_gen2.c:546-625 | on every graph, cyclic or not, the loop cut off after any number of trips has the stack height and the parents of that many abstract steps, and no other field has changed |
| BlockLinks.TripsAreSound | compiler/ast_gen2.c:546-625 | whenever the loop is cut off, on any graph, each parent that changed was unset and is now the caller's for the root or a block that contains the child |
| BlockLinks.Arena.Iterate | compiler/ast_gen2.c:564-624 | one trip round the loop is one abstract step: pop, write the parent only when one is given and none is set, push the positive bodies that still fit |
| BlockLinks.Arena.Visit | compiler/ast_gen2.c:568-623 | a popped block in range: its parent is linked and its positive bodies are pushed in order, as many as fit, and nothing else in the arena changes |
| BlockLinks.Arena.Drain | compiler/ast_gen2.c:564-624 | the loop, started in any state of the two stack arrays from which the abstract run ends, leaves the parents of its end and no other change |
| BlockGraph.PassIsWalkIff | compiler/ast_gen2.c:560-624 | a push is dropped if and only if the block does not fit the 256 entries; whenever none is, the loop ends with exactly the parents of the recursive walk |
| BlockGraph.SmallGraphFits | compiler/ast_gen2.c:547-548 | height h with at most k bodies a block fits when (k - 1) * h + 1 <= 256 |
| BlockGraph.StepLightens | compiler/ast_gen2.c:564-624 | every trip round the loop, with dropped pushes or not, lowers the summed weight of the stack when there is no cycle |
| BlockGraph.PassEnds | compiler/ast_gen2.c:564-624 | so the loop is finished after as many trips as the stack weighs |
| BlockGraph.EndsWithoutDropIff | compiler/ast_gen2.c:546-625 | for any graph: the pass ends with every push kept if and only if there is no cycle below the block and it fits |
| BlockGraph.SelfLoopNeverEnds | compiler/ast_gen2.c:564-624 | in any graph, a block whose one body is itself keeps the pass running however many trips are made: there is no visited set |
| BlockGraph.EndlessNeverEnds | compiler/ast_gen2.c:564-624 | more generally, pushes dropped or not: once a block is on the stack from which one can go on to first bodies for ever, the pass never ends, since there is always room for the first body of the block just popped |
| BlockLinks.EveryRunIsSound | compiler/ast_gen2.c:564-624 | after any number of trips on any graph, cyclic or overflowing: the stack holds at most 256 justified entries, no parent that was set is overwritten, and each written parent is the caller's for the root or a block that contains the child |
| BlockLinks.PassSetsOwedParents | compiler/ast_gen2.c:546-625 | without a cycle and with room, every reachable block whose parent was unset gets a containing block (the only one on a tree), the root the caller's parent, and nothing else changes |
| BlockLinks.PassOwesParents | compiler/ast_gen2.c:546-625 | the same said of the block records: each block below the given one whose parent was unset ends with a block that has it as a while, for, then, else or region body and is below the given one too |
| BlockLinks.KidsAreBodies | compiler/ast_gen2.c:582-623 | a block is followed to every positive while, for, then, else and region body of its record, and to nothing else |
| BlockLinks.BodiesInOrder | compiler/ast_gen2.c:582-623 | the bodies are looked at in this order, those of one kind as they are listed, then before else |
| BlockGraph.FlatFitsIff | compiler/ast_gen2.c:547-624 | the stacks have 256 entries: a block of childless bodies fits exactly up to that many |
| ConstExpr.AcceptedIsConstant | compiler/scripts/post_E_fixup.py:160-288 | an accepted expression changes no state and has the same value, or traps alike, in any two states that agree on the trusted names and the imported constants, whatever the operators but the two logical ones mean |
| ConstExpr.RefsDecide | compiler/scripts/post_E_fixup.py:160-288 | more exactly, only the names and imported constants that an accepted expression refers to decide its value |
| ConstExpr.PureLiteralNeedsNoState | compiler/scripts/post_E_fixup.py:556-684 | the checker, when called without a name list, accepts only expressions whose value no state can change |
| ConstExpr.MoreNamesAcceptMore | compiler/scripts/post_E_fixup.py:160-288 | a longer list of constant names never rejects an expression that a shorter one accepts |
| ConstExpr.CollectNames | compiler/scripts/post_E_fixup.py:371-387 | the loop lists the earlier constants of the block, at most 64, leaving out names of unusual length |
| ConstExpr.CheckInit | compiler/scripts/post_E_fixup.py:371-393 | a constant passes if and only if it has no initialiser or its initialiser is constant given the constants before it |
| ConstExpr.InOrderSolves | compiler/scripts/post_E_fixup.py:371-393 | when every initialiser of a block is accepted and none mentions a constant that the block declares at or after it, evaluation in declaration order satisfies all the definitions at once |
| ConstExpr.UniqueSolution | compiler/scripts/post_E_fixup.py:371-393 | and it is their only solution |
| ConstExact.AcceptedIffAllListed | compiler/scripts/post_E_fixup.py:160-288 | an expression is accepted if and only if each of its parts, however deep, is of a listed kind: a name is trusted, a field is a variant or an imported constant, a block is one expression and nothing else |
| ConstExact.AcceptedIffOneValue | compiler/scripts/post_E_fixup.py:160-288 | where nothing is chosen or cut short the checker is exact: an expression is accepted if and only if, whatever the operators mean, it changes nothing and the trusted names and imported constants fix its value |
| ConstExact.ListedNameIff | compiler/scripts/post_E_fixup.py:371-387 | a name is in the list if and only if an earlier constant of the block has it, it is of 1 to 63 bytes, and fewer than 64 such names come before that constant |
| ConstExact.PassesIff | compiler/scripts/post_E_fixup.py:371-393 | a constant passes if and only if it has no initialiser or all parts of it are so, names counting when they are of a module constant or listed |
| ConstOrder.FreeValueDetermines | compiler/scripts/post_E_fixup.py:160-288 | an accepted expression without branches can depend on all it refers to: with operators that keep their operands its value is the same in two states if and only if they agree on every name and imported constant in it |
| ConstPrune.LiveMentionsSuffice | compiler/scripts/post_E_fixup.py:371-393 | for every accepted block: evaluation in order is the one solution when no initialiser mentions, where no literal rules it out, a constant that the block declares at or after it |
| ConstOrder.OrderIsTheMeaningIff | compiler/scripts/post_E_fixup.py:371-393 | for accepted blocks in which literals decide every branch and short circuit: evaluation in order is the one solution under all operators and all module constants if and only if no initialiser mentions, in a part that is evaluated, a constant that the block declares at or after it |
| ConstOrder.DeadMentionIsHarmless | compiler/scripts/post_E_fixup.py:371-393 | for instance it is for a late mention in a branch never taken, which the condition on all mentions would reject |
| ConstOrder.ConstantButIff | compiler/scripts/post_E_fixup.py:171-187 | the checker takes a let that hides a module constant for it; with branches decided by literals, an accepted initialiser is constant whatever some lets hold if and only if no part of it that is evaluated refers to one of them |
| ConstOrder.HidingLetIsAccepted | compiler/scripts/post_E_fixup.py:171-187 | an accepted initialiser that is no constant: a name that is a module constant and a let |
| ConstOrder.SelfCopyIsSolved | compiler/scripts/post_E_fixup.py:371-393 | the condition is not necessary for being a solution alone: a constant that copies the module constant it hides is solved by evaluation in order, among other values |
| ConstExpr.HidingAGlobalIsAccepted | compiler/scripts/post_E_fixup.py:371-393 | an input on which it fails: the checker accepts a block that hides a module constant after using it, and evaluation in order is no solution |
| DedupText.FindFuncDefRanges | compiler/scripts/post_E_fixup.py:808-837 | the scanner's loops compute the recursive range list, brace depth by brace depth |
| DedupText.RangesAreOrdered | compiler/scripts/post_E_fixup.py:808-837 | on every text the ranges are disjoint and in order |
| DedupText.RangesStartDefs | compiler/scripts/post_E_fixup.py:808-837 | every range starts at a matched line, bears its name and ends where the depth first returns to zero, or at its start |
| DedupText.RangesCoverDefs | compiler/scripts/post_E_fixup.py:808-837 | every matched line lies in a range |
| DedupBraces.RangesEndWhereBracesClose | compiler/scripts/post_E_fixup.py:822-836 | by plain counts of braces: a range ends on the line of the first closing brace at which its text has as many closing as opening ones, provided no line before ends so; otherwise it ends where it starts |
| DedupText.MarkDropped | compiler/scripts/post_E_fixup.py:855-871 | grouping by name and marking line numbers drops exactly the lines of the definitions that have a namesake and call themselves |
| DedupText.DedupCollidingDefinitions | compiler/scripts/post_E_fixup.py:850-890 | on the lines of a text, the two marking phases and the index filter keep exactly those that are neither in a dropped definition nor a repeated extern |
| DedupSource.DedupSourceText | compiler/scripts/post_E_fixup.py:840-896 | on the text itself: split at newlines, filter, join, and restore the last newline |
| DedupSource.JoinOfSplit | compiler/scripts/post_E_fixup.py:850-893 | splitting loses nothing |
| DedupSource.LinesOfResult | compiler/scripts/post_E_fixup.py:887-896 | the text of the result holds exactly the lines kept, except that one of which only the empty line behind the last newline is kept gains an empty line |
| DedupSource.NothingRemoved | compiler/scripts/post_E_fixup.py:887-888 | a text from which nothing is removed comes out as it is |
| CallScan.CallsAreLineCalls | compiler/scripts/post_E_fixup.py:861-868 | counting the calls of a name in the joined lines is counting them in each line and adding those that reach from the end of a line over blank lines to a parenthesis |
| CallScan.CallAtIff | compiler/scripts/post_E_fixup.py:865-867 | a call is the name, not behind a letter, digit or underscore, then whitespace of any kind and a parenthesis |
| CallScan.CallsAreCounted | compiler/scripts/post_E_fixup.py:865-867 | each place at which there is one counts once |
| DedupLaws.ParseIsText | compiler/scripts/post_E_fixup.py:808-837 | cutting the text at the ranges loses nothing |
| DedupLaws.RangesAreChunks | compiler/scripts/post_E_fixup.py:808-837 | the ranges are the positions of the definitions in the cut text |
| DedupLaws.DedupedIsPass | compiler/scripts/post_E_fixup.py:840-896 | on every text the filter by line numbers equals the pass over whole definitions and single lines |
| DedupResults.OutputIsSubsequence | compiler/scripts/post_E_fixup.py:887-896 | lines are only removed, never moved or changed |
| DedupResults.ExternSurvivesIff | compiler/scripts/post_E_fixup.py:876-890 | an extern survives if and only if its first declaration is outside the dropped definitions: removed lines still count as seen |
| DedupResults.ExternsOccurOnce | compiler/scripts/post_E_fixup.py:876-890 | after the pass no extern name is declared twice |
| DedupResults.OutputChunks | compiler/scripts/post_E_fixup.py:840-896 | when definitions close and extern lines hold no braces, the output is cut into exactly the definitions and lines that were left, and its definitions close again |
| DedupResults.DefinitionsThatRemain | compiler/scripts/post_E_fixup.py:855-871 | a name defined once keeps its definition; of a repeated name exactly the copies that do not call themselves remain, so one such copy is enough |
| DedupTwice.TwiceIsOnceIffSettled | compiler/scripts/post_E_fixup.py:840-896 | when definitions close and the extern lines of the text hold no braces, twice is once if and only if no kept copy of a name that keeps two reaches two calls once its already-seen extern lines are out |
| DedupTwice.TwiceIsOnceIffUnbridged | compiler/scripts/post_E_fixup.py:840-896 | with lines shaped as the two expressions demand: if and only if in no such copy an already-seen extern line stands between the name, at the end of a line, and an opening parenthesis |
| DedupTwice.TwiceIsOnceIffNoneIsLost | compiler/scripts/post_E_fixup.py:840-896 | when definitions close and the extern lines hold no braces: a second pass changes the text if and only if some name is defined less often after it |
| DedupTwice.LostIffBridged | compiler/scripts/post_E_fixup.py:840-896 | with lines shaped as the two expressions demand, on every such text: the second pass loses a definition that the first has kept if and only if an already-seen extern line bridges a kept copy in that way |
| DedupSource.SourceTwiceIsOnceIff | compiler/scripts/post_E_fixup.py:840-896 | the text as a whole comes out of a second pass unchanged if and only if the lines kept by the first do, the last newline included |
| DedupSample.BridgeDropsMore | compiler/scripts/post_E_fixup.py:861-890 | on every text of one form, a declaration, a definition with that declaration between its name and a parenthesis and a second definition: both are kept by one pass and fewer than two by another |
| DedupSample.TwiceMayDropMore | compiler/scripts/post_E_fixup.py:861-890 | for instance seven lines of C, a comment between them that ends with the name, however the expressions read any other line |
| SocketIo.EncodePacket | scripts/repair_socketio.x.py:134-164 | the packet is the type digit and the payload, and -1 is returned exactly for a bad type, null pointer or missing room, with the buffer untouched |
| SocketIo.DecodePacket | scripts/repair_socketio.x.py:166-198 | writes the type, the payload and its length for exactly the well-formed packets that fit, and touches nothing otherwise |
| SocketIo.PacketRoundTrip | scripts/repair_socketio.x.py:134-198 | packet encoding and decoding are mutual inverses for all ten types |
| Append.AppendJsonString | scripts/repair_socketio.x.py:200-240 | writes the string between quotes with every quote and backslash escaped, or fails without touching anything outside the range from the offset to the capacity |
| Append.EscapedLength | scripts/repair_socketio.x.py:217-236 | quotes and backslashes gain one byte each and nothing else does |
| SocketIo.EncodeEvent | scripts/repair_socketio.x.py:242-291 | produces the Engine.IO message of the event text, or -1 exactly when an argument is invalid or the text does not fit the 512-byte scratch array or the output |
| SocketIo.EncodeEventNs | scripts/repair_socketio.x.py:293-360 | the same with a namespace, except that it aborts on an index outside the scratch array exactly for namespaces of 510 or 511 bytes |
| SocketIo.EncodeEventAck | scripts/repair_socketio.x.py:362-415 | the same with an acknowledgement id |
| EventDecoder.DecodeEvent | scripts/repair_socketio.x.py:451-555 | the two scan loops compute the functional reading of the packet for every input, capacities and null pointers included; whatever fails, nothing beyond the two capacities is touched and the length is left alone |
| EventReading.DecodedIffReading | scripts/repair_socketio.x.py:451-555 | on any packet whatever: it is decoded to an event and its data if and only if it is the digit 2, digits, perhaps a slash up to the first comma, a bracket, the event up to its first quote, one byte, and the start of null or a string up to its first quote, heard and fitting as said |
| EventDecoder.ScanExact | scripts/repair_socketio.x.py:481-508 | scanning a quoted string gives it back if and only if it is free of quotes and backslashes or ends in its only quote: the escape branch reads the escaped byte again |
| EventDecoder.EventRoundTripIff | scripts/repair_socketio.x.py:242-555 | for the heads the encoders write, but for namespaces with a comma, and for any payload, decoding returns the event and data if and only if the event is clean and shorter than its capacity and the data is clean, or clean but for a last quote, and fits |
| EventDecoder.AckIdReadsBack | scripts/repair_socketio.x.py:362-415 | the acknowledgement id can be read from the packet |
| NamespaceComma.DecodesBehindFirstComma | scripts/repair_socketio.x.py:463-477 | under any slash namespace, with or without commas in it, the arguments are looked for just behind the first comma of the packet |
| NamespaceComma.OtherwiseNotDecoded | scripts/repair_socketio.x.py:463-481 | a packet of a namespace with a comma is not decoded at all unless the namespace goes on with an opening bracket and a quote behind its first comma |
| NamespaceComma.CommaRoundTripIff | scripts/repair_socketio.x.py:293-555 | such an event is decoded as it was sent if and only if the namespace itself goes on so, and what follows there is heard as the event and the data; the condition speaks of the namespace, the event and the data only |
| NamespaceComma.SomeAreDecoded | scripts/repair_socketio.x.py:293-555 | any namespace that itself spells out, behind its first comma, an event and data without quotes gives back what these are heard as |
| NamespaceComma.RoundTripIff | scripts/repair_socketio.x.py:242-555 | for every head of the three encoders, any event and any data: the exact condition under which decoding gives both back |
| NamespaceComma.EncodedEventSurvivesIff | scripts/repair_socketio.x.py:134-555 | the same on the bytes an encoder produced: whenever encoding succeeds, the packet is a message and decoding it after its first byte gives back event and data under exactly that condition |
| EventJson.ArgumentsAreJsonIff | scripts/repair_socketio.x.py:259-291 | a strict reader of JSON (sections 3, 5 and 7 of RFC 8259) finds one array of the event and the data, or null in four letters for none, if and only if both are UTF-8 without control bytes |
| EventJson.WireFormat | scripts/repair_socketio.x.py:134-415 | what an encoder has written is the digits 4 and 2, the head, and arguments that such a reader understands exactly under that condition |
| Append.AppendU32Dec | tools/c2x_socketio.py:213-232 | digits into a scratch array, reversed in place and appended, are the canonical numeral, and the status says whether it fitted |
| HttpWrap.WrapHttpBody | tools/c2x_socketio.py:234-245 | writes the response for the body and returns its length, or -1 for null pointers, a non-positive length or a buffer too small |
| HttpWrap.BodyRecovered | tools/c2x_socketio.py:234-245 | a client that reads the Content-Length digits (section 8.6 of RFC 9110) gets the body back and is left with the bytes after it |
| HttpWrap.ResponseLines | tools/c2x_socketio.py:236-243 | read line by line (section 2.1 of RFC 9112) the response is the status line, the three headers in full, an empty line and the body |
| Decimal.FormatU32 | compiler/seeds/asm_backend_compat_stubs.from_x.c:56-80 | writes the numeral at the offset and nothing else, or returns -1 if and only if the buffer is null or the numeral is longer than `max` |
| Decimal.FormatI32 | compiler/seeds/asm_backend_compat_stubs.from_x.c:87-113 | the same for signed values, the most negative one included; when the digits do not fit, only the sign position may have changed |
| Decimal.DigitsBackwards | compiler/seeds/asm_backend_compat_stubs_surface.from_x.c:21-44 | the digit loop common to both copies of the printer, never more than ten digits |
| Decimal.NumeralReadsBack | compiler/seeds/asm_backend_compat_stubs.from_x.c:64-79 | a numeral is canonical and reads back as its number |
| Decimal.CanonicalIsNumeral | compiler/seeds/asm_backend_compat_stubs.from_x.c:64-79 | every canonical digit string is the numeral of its value |
| Decimal.NumeralLength | compiler/seeds/asm_backend_compat_stubs.from_x.c:64-73 | k digits suffice exactly for the numbers below ten to the k |
| Decimal.TenDigitsSuffice | compiler/seeds/asm_backend_compat_stubs.from_x.c:58-64 | ten digits suffice for every 32-bit value |
| Decimal.SignedNumeralReadsBack | compiler/seeds/asm_backend_compat_stubs.from_x.c:87-113 | signed numerals read back, for every value |
| Arm64.AppendU32Le | compiler/seeds/asm_backend_compat_stubs.from_x.c:221-230 | four bytes are appended, least significant first, or none when there is no buffer or no room |
| Arm64.ReadU32Le | compiler/seeds/asm_backend_compat_stubs.from_x.c:153-163 | reads the word at a position; without a buffer, or at a negative position, it reads as zero |
| Arm64.DisjointFields | compiler/seeds/asm_backend_compat_stubs.from_x.c:246-249 | fields that share no bit are joined by the bitwise or of the emitters as by a sum |
| Arm64.MovImm32ToW0 | compiler/seeds/asm_backend_compat_stubs.from_x.c:241-252 | appends the one or two words of the load; when the second does not fit the first stays and -1 is returned |
| Arm64.SurfaceMovImm32ToW0 | compiler/seeds/asm_backend_compat_stubs_surface.from_x.c:58-71 | the same with the opcodes of the surface copy |
| Arm64.WordsReadBack | compiler/seeds/asm_backend_compat_stubs.from_x.c:153-230 | any sequence of appended words reads back word for word |
| Arm64.MovLoadsImmediate | compiler/seeds/asm_backend_compat_stubs.from_x.c:241-252 | the emitted bytes, read back as words and executed as MOVZ and MOVK (section C6.2 of DDI 0487) after any code, leave every 32-bit immediate in w0 and touch no other register; they are four bytes when its upper half is zero and eight otherwise |
| Arm64.SurfaceMovLoadsImmediateIff | compiler/seeds/asm_backend_compat_stubs_surface.from_x.c:58-71 | the surface copy leaves the immediate if and only if its upper half is zero, and otherwise just that half |
| Arm64.SurfaceAgreesIff | compiler/seeds/asm_backend_compat_stubs_surface.from_x.c:58-71 | the two copies emit the same words for exactly those immediates |
| JsonFmt.Putc | compiler/include/runtime_fmt_any.h:16-32 | appends the escape of one byte |
| JsonFmt.BytesAsString | compiler/include/runtime_fmt_any.h:47-56 | appends the quoted escapes of all bytes, or an empty string for a null pointer |
| JsonFmt.IntSeq | compiler/include/runtime_fmt_any.h:86-131 | appends the bracketed list of decimal numerals |
| JsonFmt.U8Seq | compiler/include/runtime_fmt_any.h:158-179 | the classifying scan picks the string form exactly when no unprintable byte comes before the first NUL |
| JsonFmt.StringReadsBack | compiler/include/runtime_fmt_any.h:16-56 | a reader recovers the bytes of a printed string and whatever was printed after it |
| JsonFmt.StringsAreUnique | compiler/include/runtime_fmt_any.h:16-56 | no two byte strings, whatever follows them, print alike |
| JsonFmt.ListReadsBack | compiler/include/runtime_fmt_any.h:86-131 | printed integer lists are self-delimiting and lose nothing |
| JsonFmt.U8ReadsBack | compiler/include/runtime_fmt_any.h:158-179 | a byte sequence reads back in full from its list form and up to its first NUL from its string form |
| JsonFmt.LegalJsonIff | compiler/include/runtime_fmt_any.h:16-56 | a byte string prints as legal JSON (sections 7 and 8.1 of RFC 8259) if and only if its control bytes are newline, return and tab only and it is well-formed UTF-8 (section 4 of RFC 3629) |
| JsonFmt.U8StringIsLegalIff | compiler/include/runtime_fmt_any.h:158-172 | so the string form of a byte sequence is legal if and only if the bytes before its first NUL are well-formed UTF-8 |
| JsonFmt.U8FormIff | compiler/include/runtime_fmt_any.h:158-179 | the string form is printed if and only if each control byte but tab, newline and return comes behind a NUL |
| StructOwner.DepStructOwnerIndex | compiler/scripts/patch_codegen_owner_prefix.py:42-98 | the nested scan returns the preferred holder, exported first, then the current dependency, then the lowest index, and -1 exactly when nobody holds the struct or the name is null or empty |
| StructOwner.OwnerIsUnique | compiler/scripts/patch_codegen_owner_prefix.py:83-93 | that preference determines the owner |
| StructOwner.OwnerRule | compiler/scripts/patch_codegen_owner_prefix.py:83-93 | the owner is the current dependency if it is a candidate, an exporter or any holder when nobody exports, and else the candidate of lowest index |
| StructOwner.ExportsIff | compiler/scripts/patch_codegen_owner_prefix.py:58-83 | of several layouts of one name in a dependency the first decides whether it exports the struct |
| StructOwner.SameNameIs | compiler/scripts/patch_codegen_owner_prefix.py:63-75 | names are the same if and only if they have one length and agree on their first 64 bytes |
| StructOwner.EmitStructDefinitions | compiler/scripts/patch_codegen_owner_prefix.py:179-204 | the emission loop writes exactly the layouts with fields and a name that pass the owner check and are not skipped, in order |
| StructOwner.PassesIff | compiler/scripts/patch_codegen_owner_prefix.py:197-201 | a dependency passes the check for a struct it holds if and only if it exports it or no dependency does |
| StructOwner.EmittersAre | compiler/scripts/patch_codegen_owner_prefix.py:179-204 | over the generation of all dependencies, a struct is written by its exporters, or by every holder when nobody exports it |
| StructOwner.SoleExporterIsSoleEmitter | compiler/scripts/patch_codegen_owner_prefix.py:179-204 | a sole exporter is the sole emitter |
| StructOwner.StructIsEmittedIff | compiler/scripts/patch_codegen_owner_prefix.py:179-204 | a struct known with fields is written by somebody if and only if nobody exports it or some exporter knows its fields |
| StructOwner.FieldlessExporterSilences | compiler/scripts/patch_codegen_owner_prefix.py:191-201 | an exporter without fields keeps another dependency from writing the struct |
| CallName.EmitCallFuncName | compiler/scripts/patch_emit_call_func_name.py:6-146 | an already resolved call links to its index in the module and arena found for it; any other one to the outcome of the search, or the bare name |
| CallName.Resolve | compiler/scripts/patch_emit_call_func_name.py:51-143 | the two counting loops find the only exact overload, else the only extern or unmangled function of that arity, else the only one of that arity, else nothing; never a function of another name or arity |
| CallName.ResolutionIsUnique | compiler/scripts/patch_emit_call_func_name.py:51-143 | that outcome is unique |
| CallName.TierOrder | compiler/scripts/patch_emit_call_func_name.py:107-143 | the only exact overload wins, without one the only bound function, without both the only one of that arity |
| CallName.TiersAre | compiler/scripts/patch_emit_call_func_name.py:60-130 | an exact overload has the name, the number of arguments and each type by its suffix, an unresolved cast counting as its target; a bound one the first two and is extern or not mangled |
| CallName.LookedUpWhere | compiler/scripts/patch_emit_call_func_name.py:11-50 | the module and arena of the dependency the call was resolved to, else the current module with the arena of the first dependency that is it; a second look is made when that is the arena of the call |
| CallName.UnrelatedFunctionsDoNotMatter | compiler/scripts/patch_emit_call_func_name.py:51-143 | adding a function of another name or arity to the module changes no outcome |
| CallName.SecondLookIsForRepeats | compiler/scripts/patch_emit_call_func_name.py:11-50 | the second binding of the arena has an effect only for a module listed twice among the dependencies |
| TailExpr.OutermostJumpDecides | compiler/scripts/patch_typeck_gen_lang007.py:645-691 | of the blocks reached by peeling trailing unsafe regions the outermost that ends in a return, panic, break or continue decides; without one the innermost block does |
| TailExpr.PeelingIs | compiler/scripts/patch_typeck_gen_lang007.py:659-672 | those blocks are the one sequence in which each is the trailing unsafe region of the one before it and the last has none |
| TailExpr.ReturnsATail | compiler/scripts/patch_typeck_gen_lang007.py:645-691 | only an expression in tail position, seen through unsafe regions alone, is returned |
| TailExpr.NullIff | compiler/scripts/patch_typeck_gen_lang007.py:645-691 | null is returned if and only if no peeled block ends in a jump and nothing is in tail position in the innermost |
| Comments.StripBlockComments | bin/audit-std-extern-unsafe.ts:45-72 | the index loop on one line computes the character automaton and its flag |
| Comments.StripAll | bin/audit-std-extern-unsafe.ts:83-94 | every line is stripped with the flag carried over from the line before |
| Comments.LinewiseIsWhole | bin/audit-std-extern-unsafe.ts:45-93 | for every text and starting state, stripping line by line equals stripping the whole text at once |
| Comments.LinesAreKept | bin/audit-std-extern-unsafe.ts:83-94 | every newline is kept, so reported line numbers are right |
| Comments.CommentIsRemoved | bin/audit-std-extern-unsafe.ts:45-72 | the text before a comment is copied, of the comment its newlines only, and what follows is stripped as if it stood alone |
| Comments.OpenCommentIsRemoved | bin/audit-std-extern-unsafe.ts:45-72 | a comment that is never closed takes all that follows but the newlines, and the flag says so |
| Comments.UnchangedIff | bin/audit-std-extern-unsafe.ts:45-72 | a text is left as it is if and only if no comment starts in it |
| Comments.TwiceIsOnceIff | bin/audit-std-extern-unsafe.ts:45-93 | stripping a text twice is stripping it once if and only if no copied star follows a copied slash with nothing but comments between them |
| Comments.TwiceMayRemoveMore | bin/audit-std-extern-unsafe.ts:45-72 | for instance it is not when removing a comment makes another |
| QuickSort.Partition | bench/r06_sort.c:14-27 | the last element ends at the returned index, with nothing above it before and only larger elements after, the range permuted and the rest untouched |
| QuickSort.Quicksort | bench/r06_sort.c:29-35 | the range ends sorted, a permutation of what it was, the rest untouched; ranges of at most one element are left alone |
| QuickSort.RangeIsPermuted | bench/r06_sort.c:29-35 | a shuffle of the array that leaves the outside alone permutes the range itself |
| QuickSort.SortedIsUnique | bench/r06_sort.c:29-35 | there is only one sorted arrangement, so the two properties say exactly what is in the array |
| QuickSort.SortAndAddEnds | bench/r06_sort.c:45-49 | the benchmark returns the least plus the greatest of its data, and leaves them sorted |
| Matcher.MatchHere | bench/r08_regex_match_naive_stub.c:36-55 | on every pattern and text the recursive matcher ends, its cursors only move forward and stay in bounds, and it agrees with the run on parsed atoms |
| Matcher.TakeStar | bench/r08_regex_match_naive_stub.c:42-50 | the loop of a starred atom goes on from where the failed attempt left both cursors |
| Matcher.SearchSlow | bench/r08_regex_match_naive_stub.c:58-69 | 0 if and only if the pattern is well formed and some offset is accepted, -1 otherwise |
| PatternText.ParsedIffWritten | bench/r08_regex_match_naive_stub.c:7-33 | a pattern stands for some atoms if and only if it is their spellings one after the other: a byte, behind a backslash if it is a backslash, star or question mark and perhaps otherwise, with a star behind it when starred |
| PatternText.RenderedIsParsed | bench/r08_regex_match_naive_stub.c:7-33 | any atoms at all, so written, are read back |
| PatternText.QuotedIsFoundIff | bench/r08_regex_match_naive_stub.c:7-69 | any bytes at all, written with backslashes before their backslashes, stars and question marks, are found in exactly the texts of which they are a contiguous piece |
| Matcher.RightOnEveryTextIff | bench/r08_regex_match_naive_stub.c:36-69 | the matcher finds a pattern in exactly the texts where it occurs if and only if no starred atom comes before a needed atom for another byte |
| Matcher.SafeIsExact | bench/r08_regex_match_naive_stub.c:36-55 | for such patterns it is right at every offset of every text |
| Matcher.UnsafeIsWrong | bench/r08_regex_match_naive_stub.c:42-50 | for every other pattern there is a text in which it is found without occurring |
| Matcher.LiteralSearch | bench/r08_regex_match_naive_stub.c:58-69 | with stars on the last atoms only, the search looks for the needed bytes as a contiguous piece of the text |
| Matcher.MissesAnOccurrence | bench/r08_regex_match_naive_stub.c:42-50 | occurrences can be missed too: `xa*bc` in `xabc` |
| MutexCounter.RunKeeps | bench/cc02_mutex_contention.c:23-62 | along every schedule of any number of threads the lock, the workers and the counter stay consistent, and each step takes exactly one off the steps still to come |
| MutexCounter.MutualExclusion | bench/cc02_mutex_contention.c:27-29 | no two workers are between lock and unlock |
| MutexCounter.CounterIsExact | bench/cc02_mutex_contention.c:26-30 | the counter is always the number of completed increments and never more than the iterations asked for |
| MutexCounter.NoDeadlock | bench/cc02_mutex_contention.c:23-62 | some thread can move until the main thread has joined every worker |
| MutexCounter.FinalCounter | bench/cc02_mutex_contention.c:55-66 | after the last join the counter is the sum of all iterations |
| MutexCounter.EveryScheduleFinishes | bench/cc02_mutex_contention.c:23-62 | no run is longer than four steps an increment, three a worker and two; a run stops if and only if it is that long, with the full count |

## Left out

- BlockLinks.Arena.PatchParentLinks: is stated for graphs without a cycle below the block, because on the others the loop need not end; `PatchForTrips` is the same loop cut off after a number of trips, on all graphs.
- ConstExpr.UniqueSolution: supposes that the constants of the block have different names.
- ConstOrder.OrderIsTheMeaningIff: the necessary half is for blocks in which each constant has an initialiser and literals decide every conditional and short circuit; an undecided condition can rule out a mention without a literal, as `c` does when it is asked again in its own else branch.
- ConstExpr.AcceptedIsConstant: the names trusted are taken to denote one thing in both states, which a let that hides a module constant does not; `ConstantButIff` says when that matters. Expressions are trees here; an arena in which an expression refers to itself is not modelled, and the C recursion would not end on it. The logical operators yield 0 or 1 as in compiler/src/runtime_pipeline_abi.x:23652-23855.
- BlockGraph.EndlessNeverEnds: whether the pass ends when pushes are dropped and only a later body leads into a cycle is not characterised; it depends on how full the stack is each time that body is met.
- SocketIo.EncodeEvent: the capacity handed on for the scratch array is its size, 512; the cited code writes it as a cast of the array itself.
- DedupTwice.TwiceIsOnceIffUnbridged: supposes of the lines of the text what the two regular expressions demand of the lines they match, a declaration that starts with a word and ends in a semicolon, and a name with its parenthesis; the expressions themselves are arbitrary functions of a line.
- CallScan.CallsAreLineCalls: letters and whitespace are those of ASCII.
- EventJson.ArgumentsAreJsonIff: the reader refuses the escapes with four hexadecimal digits that JSON allows, which the encoders never write.
- Decimal.FormatI32: `0 - val` at the lowest value is an overflow that C leaves undefined and is modelled as wrapping around, as the test behind it expects.
- Arm64.MovLoadsImmediate: only the 32-bit MOVZ and MOVK are executed; any other word is no instruction of this model.
- Arm64.AppendU32Le: the byte append that it calls is modelled after compiler/src/runtime_pipeline_abi.x, all or nothing against a capacity.
- JsonFmt.IntSeq: one list printer stands for the four integer widths; floats, pointers and booleans are not printed.
- StructOwner.EmitStructDefinitions: returns which layouts are written; the text of a definition and the check for names the runtime declares are not part of it, the latter being a parameter.
- CallName.EmitCallFuncName: the mangling suffix of a type is a parameter, names are compared whole, and writing the link name is not part of it.
- TailExpr.ReturnsATail: blocks are trees here, so the recursion ends; the arena could hold a region that contains itself.
- MutexCounter.RunKeeps: thread creation and joining always succeed, memory is sequentially consistent, and the counter is unbounded; `CounterIsExact` bounds it by the iterations asked for.
- Matcher.MatchHere: cursors are indices into one pattern and one text.
- Matcher.MissesAnOccurrence: which patterns never miss an occurrence, though they may be found where they do not occur, is not characterised; `RightOnEveryTextIff` covers both directions together.
- Session-id extraction and the acknowledgement packet of the codec: plain scans and copies beside the event codec.
- The assembler line writer, the hexadecimal printer and the stack-slot load text: fixed-format text that would only add easy members.
- The struct prefix writer: cuts a type name at its last dot and copies the owner's import path.
- The best-candidate loop for method calls on free functions: a score comparison much like the struct owner's.
- Forward-declaration injection and type-checker body appending: regular-expression text assembly.
- The asynchronous scheduler, the network and file benchmarks, and platform shims: declared but not defined in the files modelled here, or plain I/O.
- The driver programs of the benchmarks, their timing and their random data.
