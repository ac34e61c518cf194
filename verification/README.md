# Verified models of the POWERarm cores

POWERarm is a FEX fork that runs x86 and AArch64 guests on little-endian POWER.
This project models the parts of it whose correctness is an argument rather than
a table, and proves that argument for all inputs, all runs and all reachable
states:

- **the PPC64LE emitter**: forward branches kept as per-label linked lists of
  fixups, and the constant loader, executed on a model of the POWER registers;
- **the A64 decode table generator**: an index with submask enumeration,
  frequency reordering and flattening, against "who wins" stated without any
  order or index;
- **tiny-json**: the in-place, non-recursive parser, against a recursive-descent
  reading, down to the node links and the terminated text of every leaf; the
  printer; and that what is written, or printed, from any tree parses back to it;
- **`LexicallyNormal`**: the path rewriter, against following the path;
- **the atomics probes**: the barrier, the store-buffer litmus, the overlapping
  atomic adds with their lane check, the compare-and-swap counter, and the lock
  word with its toggle and compare-and-swap acquires, as step systems over
  unbounded runs.

Code that updates things in place is a class or a method with loops, proved
against specification functions. Protocols are state machines: a `Next`
function per step, an `After` function from a schedule of moves to a state, an
invariant, and theorems about every schedule. Machine words are natural numbers
with the wrap-around written out; `Bits.dfy` holds the bit operations and their
laws. `dafny verify dfyconfig.toml` checks the whole project.

## Where the code and its own words differ

- The unit tests compare `LexicallyNormal` with the C++ library's
  `lexically_normal` and list one difference. There are three, and no others
  (`StandardPath.AgreesIffNotDiffers`): a last name without a separator after it
  where the path ended in `.` or `..`; the empty string for a relative path that
  cancels out (`LexicalPath.EmptyIffCancels`); and a `.` kept in front of a name.
- The long `\u00XX` form of the JSON printer leaves a gap of one character that
  it does not write. Printing and parsing a string is the identity if and only if
  no character needs that form (`JsonPrint.RoundTripIffClean`). Names are printed
  without escapes, so an object of one text property comes back if and only if its
  name needs none and its value needs no long form (`JsonMaker.PropertyIff`).
- The lock probe's header calls the toggle acquire correct exactly when at most
  one thread at a time is in the acquire path. One waiter is enough to break it:
  if it tries twice while the lock is taken it is let in
  (`ToggleLock.OneWaiterBreaksIt`). Over every run, exclusion holds throughout if
  and only if a taken lock is never tried more than once before it is next untaken
  (`ToggleLock.ExcludesIffTriedAtMostOnce`).

## Model

| member | source | states |
|---|---|---|
| `DecodeEntries.MakeEntry` | FEXCore/Scripts/a64_decode_table_generator.py:54-70 | refuses exactly the bitstrings that are not 32 characters; otherwise mask and expected value have exactly the bits the string fixes |
| `DecodeEntries.MatchesIffFitsPattern` | FEXCore/Scripts/a64_decode_table_generator.py:61-70 | the mask test passes exactly the words that agree with every fixed character of the bitstring |
| `DecodeEntries.DisjointSound` | FEXCore/Scripts/a64_decode_table_generator.py:129-131 | two disjoint entries have no word in common |
| `DecodeEntries.DisjointExact` | FEXCore/Scripts/a64_decode_table_generator.py:129-131 | the test is exact: entries it does not call disjoint share some 32-bit word |
| `DecodePriority.SortCorrect` | FEXCore/Scripts/a64_decode_table_generator.py:95-99 | the stable sort is a permutation, most fixed bits first and ties in file order |
| `DecodePriority.PriorityOrderSorted` | FEXCore/Scripts/a64_decode_table_generator.py:95-102 | the priority order is a permutation in which every entry beats all later ones: hoisted first, then more fixed bits, then file order |
| `DecodePriority.ScanFindsWinner` | FEXCore/Scripts/a64_decode_table_generator.py:95-102 | the first match of a linear scan is the entry that beats every other match, and none only if nothing matches |
| `DecodePriority.WinnerUnique` | FEXCore/Scripts/a64_decode_table_generator.py:95-102 | a word has at most one winner, so the definition fixes what it decodes to |
| `DecodeBuckets.IndexBit` | FEXCore/Scripts/a64_decode_table_generator.py:44-46 | which word bit each bit of the 12-bit and the 14-bit index is |
| `DecodeBuckets.MatchAgrees` | FEXCore/Scripts/a64_decode_table_generator.py:105-109 | a word that matches an entry selects an index that agrees with the entry's fixed bits |
| `DecodeBuckets.NextSubmask` | FEXCore/Scripts/a64_decode_table_generator.py:113-117 | one step of the submask loop goes to the next smaller submask and skips none |
| `DecodeBuckets.ReachableBuckets` | FEXCore/Scripts/a64_decode_table_generator.py:105-117 | the loop yields exactly the indices that agree with the entry, each once, and stops |
| `DecodeBuckets.BuildBuckets` | FEXCore/Scripts/a64_decode_table_generator.py:120-126 | bucket i is the reachable entries in scan order |
| `DecodeBuckets.BucketKeepsHits` | FEXCore/Scripts/a64_decode_table_generator.py:105-126 | the bucket a word selects has the same matching entries in the same order as the whole list |
| `DecodeBuckets.SameWinnerUnderEitherIndex` | Scripts/powerarm/a64-decode-weights.py:158-163 | the 12-bit index, the 14-bit index and a linear scan find the same entry for every word |
| `DecodeReorder.ExchangeRemovesOneInversion` | FEXCore/Scripts/a64_decode_table_generator.py:140-146 | each swap removes exactly one weight inversion, which is why the loop ends |
| `DecodeReorder.ExchangeKeepsHits` | FEXCore/Scripts/a64_decode_table_generator.py:134-147 | swapping disjoint neighbours leaves every word's sequence of matches as it was |
| `DecodeReorder.ReorderByWeight` | FEXCore/Scripts/a64_decode_table_generator.py:134-147 | the result is a permutation, keeps every word's matches and their order, and leaves no neighbours it would still swap |
| `DecodeReorder.OverlappingPairsKeepOrder` | FEXCore/Scripts/a64_decode_table_generator.py:13-19 | any two entries some word matches both of keep their relative order |
| `DecodeTable.ReorderBuckets` | FEXCore/Scripts/a64_decode_table_generator.py:182 | every reordered bucket is still faithful to the priority order and as long as before |
| `DecodeTable.Flatten` | FEXCore/Scripts/a64_decode_table_generator.py:184-188 | the two arrays hold the buckets one after the other with their boundaries |
| `DecodeTable.Generate` | FEXCore/Scripts/a64_decode_table_generator.py:175-190 | succeeds exactly when there are at most 0xFFFF slots, whatever the weights, and then every boundary fits 16 bits and the table serves the list |
| `DecodeTable.DecodeInstruction` | FEXCore/Source/Interface/Core/A64Frontend/DecodeTable.cpp:161-170 | scanning the word's slots returns the winner among all entries that match the word |
| `DecodeTable.GenerateAndDecode` | FEXCore/Scripts/a64_decode_table_generator.py:13-19 | end to end: for any weights and any word, the entry decoded fits the word and beats every other that does; none only if none fits |
| `PowerIsa.EncodeDIsSum` | CodeEmitter/PPC64LE/Emitter.h:2503-2506 | the D-form fields do not overlap: the or of the shifted fields is their sum |
| `PowerIsa.EncodeMDIsSum` | CodeEmitter/PPC64LE/Emitter.h:2550-2563 | the same for the MD form with its split shift and mask fields |
| `PowerIsa.DecodesAddi` | CodeEmitter/PPC64LE/Emitter.h:220-225 | an emitted addi or addis word reads back as that instruction, register fields and signed immediate included |
| `PowerIsa.DecodesOri` | CodeEmitter/PPC64LE/Emitter.h:373-376 | the same for ori and oris |
| `PowerIsa.DecodesMD` | CodeEmitter/PPC64LE/Emitter.h:466-490 | the same for rldicl, rldicr and rldic |
| `LoadImmediate.RotateShifts` | CodeEmitter/PPC64LE/Emitter.h:515-523 | rotate-and-mask as sldi emits it is a 64-bit left shift |
| `LoadImmediate.LoadImm32Correct` | CodeEmitter/PPC64LE/Emitter.h:2249-2259 | executing the words leaves the sign-extended value in the register and changes no other |
| `LoadImmediate.Shifted16IffFits` | CodeEmitter/PPC64LE/Emitter.h:2293-2295 | only the range part of the shifted-16 test can ever fail |
| `LoadImmediate.Shifted16Correct` | CodeEmitter/PPC64LE/Emitter.h:2292-2300 | li and sldi load the value whenever the shifted-16 test passes |
| `LoadImmediate.ContiguousOnesValue` | CodeEmitter/PPC64LE/Emitter.h:2304 | the population-count test accepts only differences of two powers of two |
| `LoadImmediate.ContiguousOnesCorrect` | CodeEmitter/PPC64LE/Emitter.h:2301-2310 | rotating minus one under the mask loads the run of ones |
| `LoadImmediate.Shifted31Correct` | CodeEmitter/PPC64LE/Emitter.h:2331-2339 | the shifted-32 rule loads its value |
| `LoadImmediate.ShiftedRuleCostsThree` | CodeEmitter/PPC64LE/Emitter.h:2311-2317 | when the shifted-32 rule is the one used it costs exactly three instructions |
| `LoadImmediate.LoadGeneralCorrect` | CodeEmitter/PPC64LE/Emitter.h:2340-2370 | the general sequence loads every 64-bit value, sign extension discarded by the shift |
| `LoadImmediate.GeneralCostsThree` | CodeEmitter/PPC64LE/Emitter.h:2340-2370 | past the shifted-16 rule the general sequence takes three to five instructions |
| `LoadImmediate.LoadImm64Correct` | CodeEmitter/PPC64LE/Emitter.h:2270-2370 | for every constant, register, register file and kill-switch setting the words leave exactly that constant there and touch no other register |
| `LoadImmediate.LoadImm64Cost` | CodeEmitter/PPC64LE/Emitter.h:2269-2370 | at most five instructions, and the shifted-32 rule never makes a sequence longer |
| `LoadImmediate.LoadImm64FixedCorrect` | CodeEmitter/PPC64LE/Emitter.h:2372-2394 | the relocation form always takes 20 bytes and loads its value |
| `EmitImmediate.LoadImm32` | CodeEmitter/PPC64LE/Emitter.h:2249-2259 | the emitter appends exactly the words of the 32-bit loader |
| `EmitImmediate.LoadGeneral` | CodeEmitter/PPC64LE/Emitter.h:2340-2370 | the emitter appends exactly the words of the general sequence |
| `EmitImmediate.LoadImm64` | CodeEmitter/PPC64LE/Emitter.h:2270-2370 | the emitter appends words that load the constant on any register file |
| `EmitImmediate.LoadImm64Fixed` | CodeEmitter/PPC64LE/Emitter.h:2384-2394 | the cursor moves by exactly 20 bytes, over the words of the fixed form |
| `BranchPatching.PatchedIsDirect` | CodeEmitter/PPC64LE/Emitter.h:2410-2427 | a placeholder patched later is the very word a branch of known distance is emitted as |
| `BranchPatching.PatchedDecodes` | CodeEmitter/PPC64LE/Emitter.h:2410-2427 | a patched branch decodes to the distance it was patched to, with opcode, BO, BI and LK kept |
| `BranchPatching.ReachesIffEncodable` | CodeEmitter/PPC64LE/Emitter.h:1976-2024 | the range test of each kind of branch accepts exactly the distances that some 32-bit word of that kind decodes to |
| `BranchPatching.WordReachesIffEncodable` | CodeEmitter/PPC64LE/Emitter.h:2410-2427 | the same of the range test the patcher makes on an emitted word |
| `BranchPatching.DeltaExact` | CodeEmitter/PPC64LE/Emitter.h:1978 | for all offsets, the casts to 32 bits lose nothing of a distance if and only if both lie in one window of four gibibytes, as any two below two gibibytes do |
| `BranchPatching.OnePassIsTwoPass` | CodeEmitter/PPC64LE/Emitter.h:2438-2457 | patching as labels are bound gives what a two-pass assembler gives, for every script that binds no label twice |
| `BranchPatching.OnePassReach` | CodeEmitter/PPC64LE/Emitter.h:1959-1961 | a script stays in range through an operation exactly when the branches that operation resolves are in range |
| `BranchPatching.InReachIffExpressible` | CodeEmitter/PPC64LE/Emitter.h:1959-1961 | a program is in range exactly when for each of its resolved branches some word of that kind has the distance |
| `Emitter.Label.constructor` | CodeEmitter/PPC64LE/Emitter.h:24-43 | a new label is unbound with an empty chain |
| `Emitter.Emitter.constructor` | CodeEmitter/PPC64LE/Emitter.h:89 | a new emitter over a buffer has emitted nothing and knows no label |
| `Emitter.CallsClobber` | CodeEmitter/PPC64LE/Emitter.h:178-183 | of the label branches exactly bl counts as a call for the r0 tracking, before and after patching |
| `Emitter.WordsThatClobber` | CodeEmitter/PPC64LE/Emitter.h:178-183 | which words mark r0, by their values |
| `Emitter.Store` | CodeEmitter/PPC64LE/Emitter.h:184 | four little-endian bytes read back as the word, and no other byte changes |
| `Emitter.Emitter.Emit32` | CodeEmitter/PPC64LE/Emitter.h:178-186 | appends the word, keeps every earlier word and the chains, and marks r0 on exactly `li r0, 0`, `bctrl`, `blrl` and the calls of opcode 18 |
| `Emitter.Emitter.AddPendingBranch` | CodeEmitter/PPC64LE/Emitter.h:2466-2469 | puts the fixup on the front of its label's chain; all chains stay consistent |
| `Emitter.Emitter.EmitBranch` | CodeEmitter/PPC64LE/Emitter.h:1976-2024 | branches to a bound label with its distance, else records a placeholder; refuses exactly the distances that no word of that kind has |
| `Emitter.ChainIsOwned` | CodeEmitter/PPC64LE/Emitter.h:2447-2451 | from a label's head the links visit exactly that label's fixups, each once, in strictly descending order |
| `Emitter.ChainsDisjoint` | CodeEmitter/PPC64LE/Emitter.h:2447-2451 | chains of different labels share no fixup |
| `Emitter.PatchBranchAt` | CodeEmitter/PPC64LE/Emitter.h:2410-2427 | rewrites only the four bytes of the branch, and refuses exactly when no word of the kind that stood there has the distance |
| `Emitter.PatchStep` | CodeEmitter/PPC64LE/Emitter.h:2473-2485 | one step of the walk leaves every fixup of the label above it patched and every one below it waiting |
| `Emitter.Emitter.PatchChain` | CodeEmitter/PPC64LE/Emitter.h:2472-2486 | the walk patches exactly the branches waiting for the label and fails exactly when one cannot reach |
| `Emitter.Emitter.PatchPending` | CodeEmitter/PPC64LE/Emitter.h:2471-2487 | as the walk, and a head index past the vector is refused before any word is written |
| `Emitter.Emitter.BindAt` | CodeEmitter/PPC64LE/Emitter.h:123-127 | resolves exactly the branches still waiting for the label, as a scan of all words would, and nothing else; in the buffer each then decodes to its kind and the distance to the label; a stale label is refused |
| `Emitter.BranchGoes` | CodeEmitter/PPC64LE/Emitter.h:2410-2427 | a resolved branch of any valid emitter decodes from the buffer to its kind and the distance to its target |
| `Emitter.GoesExactly` | CodeEmitter/PPC64LE/Emitter.h:1976-2024 | below two gibibytes that distance leads exactly to the target |
| `Emitter.Emitter.Bind` | CodeEmitter/PPC64LE/Emitter.h:116-120 | the same at the cursor |
| `Emitter.Emitter.RebaseBuffer` | CodeEmitter/PPC64LE/Emitter.h:97-105 | on a copy of the bytes, labels, chains and program stay valid |
| `Emitter.Emitter.ClearPendingBranches` | CodeEmitter/PPC64LE/Emitter.h:129-131 | unresolved branches stay as emitted and only bound labels remain usable |
| `Emitter.CopyThenBind` | CodeEmitter/PPC64LE/Emitter.h:97-127 | copying, rebasing and then binding leaves the bound program in the copy |
| `Emitter.BindThenCopy` | CodeEmitter/PPC64LE/Emitter.h:97-127 | binding first and copying after leaves the same words and succeeds under the same condition |
| `Emitter.RunScript` | CodeEmitter/PPC64LE/Emitter.h:2438-2487 | any script of emits, branches and binds succeeds exactly when for each of its resolved branches some word has the distance; then the buffer holds the two-pass assembly, and every resolved branch decodes to its kind and a distance that leads to its label |
| `JsonText.SkipBlanks` | External/tiny-json/tiny-json.c:423-438 | stops at the first character that is not blank, none before the terminator |
| `JsonText.CheckHex` | External/tiny-json/tiny-json.c:119-125 | tells whether four hexadecimal digits follow, reading no further than the first that is not |
| `JsonText.ParseStringInPlace` | External/tiny-json/tiny-json.c:132-156 | decodes exactly as the specification reads the text, writes never pass reads, nothing before the string or after its quote changes |
| `JsonNumber.StrCmpComparesValues` | External/tiny-json/tiny-json.c:304 | comparing digit strings of equal length compares their values |
| `JsonNumber.TextCheckIsRangeCheck` | External/tiny-json/tiny-json.c:292-307 | the length and string comparison accepts exactly the integers of 64 signed bits |
| `JsonNumber.IntegerEndIsLexeme` | External/tiny-json/tiny-json.c:272-280 | what the scan accepts as integer part is an integer lexeme without leading zero |
| `JsonNumber.CheckRange` | External/tiny-json/tiny-json.c:292-307 | the check with a temporary terminator decides the range and puts the buffer back when it passes |
| `JsonNumber.NumValue` | External/tiny-json/tiny-json.c:248-310 | accepts exactly the numbers of the grammar, gives their kind and end, and leaves the buffer as it was |
| `JsonLexeme.NumberIff` | External/tiny-json/tiny-json.c:248-310 | a number of that kind ends at a position if and only if a separator stands there and the text is an integer part, a fraction and an exponent: an integer of 64 signed bits without the latter two, a real with either |
| `JsonTree.ResumeClose` | External/tiny-json/tiny-json.c:343-352 | closing the innermost container and reading on is what the recursive reading does |
| `JsonTree.ResumeLeaf` | External/tiny-json/tiny-json.c:353-384 | the same for a leaf member |
| `JsonTree.ResumeOpen` | External/tiny-json/tiny-json.c:364-377 | the same for a member that opens a container |
| `JsonTree.ResumeComma` | External/tiny-json/tiny-json.c:339-342 | commas are skipped wherever they stand |
| `JsonTree.ResumeFails` | External/tiny-json/tiny-json.c:353-360 | without a free node or a name where one is needed, the reading fails |
| `JsonPool.AddOpens` | External/tiny-json/tiny-json.c:315-324 | appending a node opens the next member of its container and leaves the others alone |
| `JsonPool.StackAddLeaf` | External/tiny-json/tiny-json.c:361-384 | adding a leaf keeps all open containers linked to their parents by sibling |
| `JsonPool.StackOpen` | External/tiny-json/tiny-json.c:364-377 | opening a container makes its sibling the parent link and keeps the chain of ancestors |
| `JsonPool.StackClose` | External/tiny-json/tiny-json.c:343-352 | closing clears the parent link, makes the container a finished member, and its parent the innermost |
| `JsonParser.PropertyName` | External/tiny-json/tiny-json.c:163-171 | decodes the name in place and finds the value after the colon, or fails as the grammar does; `JsonMaker.RawNameRead` and `JsonWriter.NamedReads` say on which text |
| `JsonParser.CheckLiteral` | External/tiny-json/tiny-json.c:191-196 | accepts exactly when the literal stands at the position |
| `JsonParser.CutLexeme` | External/tiny-json/tiny-json.c:457-460 | the lexeme is terminated, at once or by the bracket that follows it |
| `JsonParser.ReadLeaf` | External/tiny-json/tiny-json.c:378-383 | reads a string, literal or number as the grammar does and leaves its exact text terminated in place |
| `JsonParser.Add` | External/tiny-json/tiny-json.c:315-324 | links the node as last member of its container |
| `JsonParser.ReadMember` | External/tiny-json/tiny-json.c:353-384 | one member read keeps the links of all open containers and what the recursive reading still has to do |
| `JsonParser.CloseBlock` | External/tiny-json/tiny-json.c:343-352 | a closing bracket goes back to the container around, or ends the parse at the root |
| `JsonParser.Turns` | External/tiny-json/tiny-json.c:336-385 | every turn of the loop keeps the invariant and the meaning of the rest of the text, and makes progress |
| `JsonParser.ObjValue` | External/tiny-json/tiny-json.c:331-386 | succeeds exactly when the recursive reading does and stops where it stops; the nodes are then the image of that tree, lists in order, ending in null, no parent link left |
| `JsonParser.JsonCreate` | External/tiny-json/tiny-json.c:72-82 | the entry point accepts exactly the documents of the grammar that fit the pool and builds their tree |
| `JsonSpelling.RawIff` | External/tiny-json/tiny-json.c:132-156 | text between quotes reads as itself if and only if it has no quote, no backslash and no control character |
| `JsonSpelling.ShortEscapes` | External/tiny-json/tiny-json.c:547-557 | the eight short escapes, character by character |
| `JsonSpelling.UnicodeEscapeReads` | External/tiny-json/tiny-json.c:119-156 | a Unicode escape reads as a question mark when four hexadecimal digits follow, and stops the string otherwise |
| `JsonSpelling.LongFormSpells` | External/tiny-json/tiny-json.c:572-577 | the long form holds the character's own value in hexadecimal, and one position it does not write |
| `JsonWriter.NamedReads` | External/tiny-json/tiny-json.c:163-171 | a quoted name, a colon and blanks around it read as that name, with the value where the blanks end |
| `JsonWriter.LeafReads` | External/tiny-json/tiny-json.c:280-290 | strings, the three literals, integers and reals are read with their own kind and their exact text |
| `JsonWriter.WrittenReadsBack` | External/tiny-json/tiny-json.c:331-386 | an object written from any tree, with any blanks between its tokens and any text after it, reads back as exactly that tree if its nodes fit the pool, and fails otherwise |
| `JsonWriter.PunctuationRead` | External/tiny-json/tiny-json.c:331-386 | braces, brackets, quotes, colons and commas spelled out, for all names that need no escapes and all primitive values |
| `JsonWriter.CreateWritten` | External/tiny-json/tiny-json.c:72-82 | the in-place parser on such a text succeeds exactly when the pool is large enough, and the pool then holds the tree it was written from |
| `JsonPrint.AtoEsc` | External/tiny-json/tiny-json.c:562-582 | writes the escaped text and its terminator at the computed place and touches nothing else |
| `JsonPrint.PrintChar` | External/tiny-json/tiny-json.c:563-579 | what one character is written as, including the position the long form skips |
| `JsonPrint.CleanRoundTrip` | External/tiny-json/tiny-json.c:547-590 | at any position of any text, a string of printable or short-escape characters parses back to itself and stops just past its quote |
| `JsonPrint.LongFormBreaksRoundTrip` | External/tiny-json/tiny-json.c:570-577 | a string with a character that takes the long form never parses back to itself |
| `JsonPrint.StartOfHeadingIsLost` | External/tiny-json/tiny-json.c:570-577 | the single character U+0001 is such a string |
| `JsonPrint.RoundTripIffClean` | External/tiny-json/tiny-json.c:562-582 | reading the printed form gives the original, ending just past the quote, if no character takes the long form, and something else or nothing otherwise |
| `JsonPrint.JsonStr` | External/tiny-json/tiny-json.c:585-590 | a text property is printed as the name in quotes and a colon, if it has one, then a quote, the escaped value, a quote, a comma and a terminator, and nothing else changes |
| `JsonPrint.PrintThenParse` | External/tiny-json/tiny-json.c:562-590 | printing a property into any buffer and parsing its value in place leaves the value itself, just past its quote, if and only if no character takes the long form |
| `JsonMaker.Open` | External/tiny-json/tiny-json.c:489-517 | an object or an array is opened after its name in quotes and a colon, if it has one |
| `JsonMaker.Close` | External/tiny-json/tiny-json.c:501-524 | the comma after the last member gives way to the closing bracket and a comma; nothing before it changes |
| `JsonMaker.Primitive` | External/tiny-json/tiny-json.c:596-643 | a literal or a number is printed after its name, with a comma after it |
| `JsonMaker.End` | External/tiny-json/tiny-json.c:620-626 | a trailing comma becomes the terminator |
| `JsonMaker.PrintMember` | External/tiny-json/tiny-json.c:489-643 | printing a tree through these calls leaves exactly its written form and a comma, whatever the buffer held |
| `JsonMaker.PrintThenCreate` | External/tiny-json/tiny-json.c:72-82 | any object printed this way and parsed where it stands is accepted exactly when the pool is large enough, and the pool then holds that object |
| `JsonMaker.RawNameRead` | External/tiny-json/tiny-json.c:530-537 | the reader of names finds the printed name, and the value just past the colon, if and only if the name needs no escapes |
| `JsonMaker.PrintThenName` | External/tiny-json/tiny-json.c:585-590 | the same of the buffer: after printing a text property anywhere, the in-place reader leaves the name and stops at the quote that opens the value, if and only if the name needs no escapes |
| `JsonMaker.PropertyIff` | External/tiny-json/tiny-json.c:489-590 | a printed object of one text property reads as that object if and only if its name needs no escapes, its value takes no long form and the pool has two nodes |
| `JsonMaker.PrintProperty` | External/tiny-json/tiny-json.c:489-626 | the same of any buffer the object is printed into |
| `LexicalPath.Split` | FEXHeaderUtils/FEXHeaderUtils/Filesystem.h:256-278 | the loop ends exactly at the end of the path with the non-empty parts, at most one more than there are separators |
| `LexicalPath.NormaliseParts` | FEXHeaderUtils/FEXHeaderUtils/Filesystem.h:280-323 | erasing in place with a running distance computes the fold of the one-part rule |
| `LexicalPath.StepKeepsMeaning` | FEXHeaderUtils/FEXHeaderUtils/Filesystem.h:283-318 | each rule of the walk keeps where the parts lead |
| `LexicalPath.LexicallyNormal` | FEXHeaderUtils/FEXHeaderUtils/Filesystem.h:233-329 | the method computes the normalised path, empty path and trailing separator included |
| `LexicalPath.NormalisedParts` | FEXHeaderUtils/FEXHeaderUtils/Filesystem.h:326-328 | the output reads back as normal parts, absolute as before, with a final separator exactly when the input had one and the last part is a name |
| `LexicalPath.NormalisedKeepsMeaning` | FEXHeaderUtils/FEXHeaderUtils/Filesystem.h:233-329 | from every starting directory the output leads where the input leads |
| `LexicalPath.NormalisedIdempotent` | FEXHeaderUtils/FEXHeaderUtils/Filesystem.h:233-329 | normalising twice is normalising once |
| `LexicalPath.NormalPartsKeeps` | FEXHeaderUtils/FEXHeaderUtils/Filesystem.h:280-323 | what is kept, read off the input: names only, a dot and names, or dot-dots and names, with as many names as are open at the end |
| `LexicalPath.EmptyIffCancels` | FEXHeaderUtils/FEXHeaderUtils/Filesystem.h:233-329 | the result is empty if and only if the path is relative, no name is open at its end, and every . or .. comes while one is |
| `LexicalPath.CancelledPathIsEmpty` | FEXHeaderUtils/FEXHeaderUtils/Filesystem.h:300-318 | the smallest such path: a name followed by .. |
| `StandardPath.DropPairsParts` | unittests/APITests/Filesystem.cpp:6-18 | in the standard's normalisation, whatever order name and dot-dot pairs are removed in, the filenames left are those the walk keeps |
| `StandardPath.OrderIrrelevant` | unittests/APITests/Filesystem.cpp:6-18 | the standard's result, final separator included, does not depend on that order |
| `StandardPath.AgreesIffNotDiffers` | unittests/APITests/Filesystem.cpp:6-29 | for every path the library's result equals the standard's if and only if none of three conditions on the input holds |
| `ByteImage.AddAt` | build-probes/probe_splitlock.c:484-493 | the byte loop with its carry adds the value at the offset to the region read as one number, modulo the region's size |
| `LostUpdate.HighestBit` | build-probes/probe_splitlock.c:507-513 | the loop finds the highest set bit |
| `LostUpdate.HighestBounds` | build-probes/probe_splitlock.c:507-513 | the value lies between that power of two and the next |
| `LostUpdate.LowestBit` | build-probes/probe_splitlock.c:515-522 | the loop finds the number of trailing zeros |
| `LostUpdate.LowestDivides` | build-probes/probe_splitlock.c:515-522 | the value is an odd multiple of that power of two |
| `LostUpdate.CheckLanes` | build-probes/probe_splitlock.c:698-713 | passes exactly when neither sum overflows its operand and some power of two is above all that one thread adds and divides what the other adds at a time |
| `LostUpdate.LanesPassIffApart` | build-probes/probe_splitlock.c:698-713 | comparing highest and lowest bits decides exactly that |
| `LostUpdate.AddStaysInLane` | build-probes/probe_splitlock.c:479-483 | under the lane check an add does not carry out of its operand and changes its own lane only |
| `LostUpdate.NeverCarriesOut` | build-probes/probe_splitlock.c:479-483 | in every run of both threads no add ever carries out of its operand |
| `LostUpdate.ExpectedImage` | build-probes/probe_splitlock.c:699-722 | every interleaving that runs to the end leaves exactly the bytes the two carrying adds build |
| `LitmusBarrier.BarrierSeparates` | build-probes/probe_splitlock.c:1003-1013 | in every run a thread that has left a crossing has not left one the other has not entered, the counts differ by at most one, and an arriving thread finds the counter reset |
| `LitmusBarrier.NeverStuck` | build-probes/probe_splitlock.c:1003-1013 | in every reachable state that is not the end some move is possible |
| `LitmusResults.EvaluatesTheLoads` | build-probes/probe_splitlock.c:1118-1120 | in every run, when the results are compared, memory holds what the two threads loaded in that very iteration |
| `LitmusResults.CountsBothZeroLoads` | build-probes/probe_splitlock.c:1120-1122 | in every run of either arm the counter is the number of iterations so far in which both loads were zero |
| `LitmusResults.FinalCount` | build-probes/probe_splitlock.c:1111-1122 | at the end of any run it is that number over all iterations |
| `StoreBufferLitmus.LoadsNeverBothZero` | build-probes/probe_splitlock.c:1032-1125 | with the locked operation no iteration of any run loads zero in both threads |
| `StoreBufferLitmus.FencedNeverBothZero` | build-probes/probe_splitlock.c:1032-1125 | over store buffers, in every run with the locked operation no iteration loads zero twice, the counter stays zero, and the fence words end equal to the iterations |
| `StoreBufferLitmus.FlagsStartDown` | build-probes/probe_splitlock.c:1028-1049 | a thread about to raise its flag finds last iteration's flag cleared in memory |
| `LitmusUnfenced.UnfencedCanReadBothZero` | build-probes/probe_splitlock.c:948-961 | without the locked operation every count is possible: for each n up to the iterations, some run to the end counts n |
| `CasCounter.FinalCountExact` | build-probes/probe_splitlock.c:1268-1269 | every finished run of any number of threads leaves exactly threads times increments, in 64 bits |
| `CasCounter.RetriesBoundedByOthers` | build-probes/probe_splitlock.c:1203-1225 | a thread's failed attempts are at most the increments of the others |
| `CasCounter.RunsAreBounded` | build-probes/probe_splitlock.c:1203-1225 | no run takes more steps than a bound in threads and increments, so every run ends |
| `CasCounter.StuckIsFinished` | build-probes/probe_splitlock.c:1203-1225 | a run that cannot go on has finished with the exact count |
| `LockWord.ToggleFlipsOnlyBit31` | build-probes/probe_lockword.c:29-33 | adding 0x80000000 modulo 2^32 flips bit 31 and no other, and twice is nothing |
| `LockWord.SetFreeSetsOnlyBit31` | build-probes/probe_lockword.c:34-36 | or-ing 0x80000000 sets bit 31 and no other, and is idempotent |
| `CasLock.NextKeepsInv` | build-probes/probe_lockword.c:645-672 | every step of the control worker, with either release, keeps the lock invariant |
| `CasLock.MutualExclusion` | build-probes/probe_lockword.c:149-156 | in every run of any number of threads, with either release, at most one is inside or releasing, the word is HELD exactly then, and no overlap is ever counted |
| `CasLock.CounterExact` | build-probes/probe_lockword.c:645-672 | the plain shared counter equals the completed increments, and the acquisitions once nobody is inside |
| `LockProtocol.OverlapsAreIntrusions` | build-probes/probe_lockword.c:609-614 | in every run, under either acquire and either release, the occupancy counter is the number of threads inside and the overlaps counted are the entries made while another was inside |
| `ToggleLock.NeverWedged` | build-probes/probe_lockword.c:191-196 | in every run the word is FREE or HELD, and never HELD with nobody inside or releasing |
| `ToggleLock.UndisturbedRetrySucceeds` | build-probes/probe_lockword.c:198-203 | an idle thread that takes two steps undisturbed has the lock, failing once exactly when the word was HELD |
| `ToggleLock.ExcludesIffTriedAtMostOnce` | build-probes/probe_lockword.c:50-63 | over every run of any number of threads and either release, at most one thread is active at every moment if and only if a taken lock is never tried more than once before it is next untaken |
| `ToggleLock.OneWaiterBreaksIt` | build-probes/probe_lockword.c:65-70 | after an undisturbed run, two steps of one idle thread keep exclusion if and only if nobody was active when it came |
| `ToggleLock.NoExclusionAtAll` | build-probes/probe_lockword.c:50-63 | for every n some run has all n threads inside at once, with n - 1 overlaps counted, and some run loses all but one of n increments |
| `Swallow.LowBitsCountAdditions` | build-probes/probe_lockword.c:135-147 | at every moment the low 31 bits plus the additions swallowed by completed releases are the additions made; bit 31 is set exactly when a release has completed |
| `Swallow.ShortfallIsSwallowed` | build-probes/probe_lockword.c:988-1028 | at the end the shortfall is the number of swallowed additions, and zero for the locked release |
| `Swallow.EverythingCanBeSwallowed` | build-probes/probe_lockword.c:719-777 | some run of the plain release swallows every addition |

## Left out

- The several hundred one-line instruction encoders, `dc64`, `SetBuffer`, `bdnz` and `bcl` of the emitter: opcode constants, each settled by its one line.
- A failed range check or a full buffer stops the original with a message; here the former is a returned `false` and the latter a precondition of the emit methods.
- Emitter.Emitter.BindAt: does not say what binding does to a label kept across `ClearPendingBranches` once the vector has grown past its old head, because the original detects only a head beyond the vector and calls the rest a bug of its caller.
- Emitter.GoesExactly: states where a branch lands only for buffers below two gibibytes; for larger ones `BranchPatching.DeltaExact` says exactly when the distance is right.
- Reading the instruction list and the weights from files, and writing the generated header, in the decode generator; the numpy grouping and depth counting of `scan` in the weights script.
- tiny-json's getters, its fixed and linked-list pools beyond "a number of free nodes", and the decimal digits that `sprintf` writes for a number, which are a parameter of `JsonMaker.Primitive`. Bytes of 0x80 and above compare as unsigned characters, as `char` is on little-endian POWER.
- JsonMaker.PrintMember: requires names without quotes, backslashes and control characters and texts that take no long form; `JsonMaker.PropertyIff` shows on one property that both are needed. Walking the tree is the client's part.
- JsonWriter.WrittenReadsBack: the same blanks stand in every gap; commas are written between members only, while the parser skips them anywhere (`JsonTree.ResumeComma`).
- JsonPrint.AtoEsc: requires room for the result, as the original does of its caller without checking.
- LexicalPath.NormaliseParts: works on a sequence of parts that it shortens, not on linked list nodes in a stack buffer; the node count the buffer must hold is bounded by `LexicalPath.Split`. The Windows version is not part of this model.
- LostUpdate.ExpectedImage: requires that iterations times unit does not wrap 64 bits; the program limits iterations to 65535 and its units are 32-bit literals.
- Swallow.ShortfallIsSwallowed: requires threads times iterations below 2^31 as a number; the program tests the product after 64-bit wrap-around.
- The lock-word and counter models interleave whole memory operations in one order, as the locked instructions and single stores of those arms do; store buffers are modelled only for the litmus.
- The occupancy counter is always on in `LockProtocol`; switching it off only removes two steps. Hold, backoff, release gap and jitter delays have no effect on these properties.
- The torn-read arm, timing, duty-cycle and window estimates, overlap witnesses, monitors, watchdogs, verdict tallies and option parsing of the probes: hardware observations or reporting.
- The other probes (Vulkan, GL, OpenSSL, HTTPS, termios and so on), the AArch64 emitter, asynchronous I/O, processor information and the file helpers: easier than the above, or driven by code outside the repository.
