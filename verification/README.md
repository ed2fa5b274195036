# Verified models of message catalogues, download accounting, client bookkeeping and secure identification

The project models the parts of the program whose correctness rests on invariants, number theory or
protocols, in the program's own terms, and proves what they are for.

**Message catalogues (`intl/`).** `ProbeSequence`, `HashString`, `HashSignedness`, `HashTable`, `Sysdep` and
`Catalogue` cover the hash function, the double-hashed table shared by the loader and the lookup, the two-pass construction of
system-dependent strings, and binary search. `TranslationCache` and `Gettext` cover the sorted list of
domain bindings, the default domain, the loop over the locale list, and the cache of known translations
with its counter; a run of the stateful interface is shown to give the answers of a reference that has none
of these, and `GettextLaws` says what that reference finds. `LocaleMask`, `LocaleFile`, `LocaleFallbacks` and `LocaleList` cover the generation of fallback locale
files: the bit count, the file-name buffer, the array bound, where fallbacks can lead, and the recursive
insertion into a sorted list.

**Plural expressions (`intl/plural.c`, `intl/eval-plural.h`).** `PluralTables` holds the generated tables
verbatim. `PluralGrammar` states the precedence grammar without mentioning a table; `PluralParser`,
`PluralCompleteness` and `PluralSoundness` show that the automaton accepts exactly its sentences,
`PluralLexer` and `PluralRoundTrip` that printing, scanning and parsing compose to the identity,
`PluralDriver` that the imperative scanner and parser with their growing stacks compute the same, and
`PluralEval` and `PluralHeader` cover evaluation, the selection of a variant, and the way from the header entry
of a catalogue to the variant delivered. `PluralRules` proves for the rules of the shipped catalogues that their texts
select what the languages need, for every number.

**Corruption black box.** `Records`, `BlackBox` and `BlackBoxRuns` model who sent which bytes of a file. A
byte-wise coverage function is the reference against which merging, splitting and carving are proved, up to
conservation of bytes over whole runs.

**Client index and reference counting.** `ClientIndex` and `ClientList` relate the three multimaps to the
fields of the client objects; `RefCount` relates the references to the counters and to the moment a client is
freed, and `ClientRefs` carries this to fields updated in place; `ListReferences`
joins the two, for index entries are references: `Temporaries` covers their insertion on a counter that wraps, and
`ListRuns` whole runs.

**Credits and secure identification.** `SecureIdent` defines the record, the strings that are signed and the
packet handlers; `SecureIdentRuns` proves authenticity against an arbitrary network; `ExchangeProtocol`
and `HonestExchange` prove that two honest processes identify each other for every timing; `ClientCredits`
and `IdentSessions` are the code on objects updated in place, with the same theorem over whole runs; `CreditFile` is the file with the back-patched count.

**Bit vectors.** `BitVectors` refines a sequence of booleans and its cached "all true" answer.

`Options`, `Sequences`, `Arithmetic`, `Strings` and `LittleEndian` hold what several components share.

## What the code does not do

The statements below come out of the proofs; each has a lemma.

* The hash of a message can differ between signed and unsigned `char` for texts that are not ASCII: always with
  exactly one character above ASCII (`HashSignedness.OneHighByte`), but two of them can cancel
  (`HashSignedness.CancelCounterexample`; `HashSignedness.AgreeNext` says when).
* The reference count of a client has 16 bits and wraps around (`RefCount.Wraps`). Relinking a sole reference
  to its own client, and `Safe_Delete` on the last reference, use the client after it is freed
  (`RefCount.StepSound` says exactly when not).
* Giving a listed client a new ID frees it under the setter when its ID entry is its only reference
  (`ListReferences.SetIdSafeIff`), and inserting an entry frees it when the temporaries of the insertion take
  its counter past 65535 (`Temporaries.InsertingIff`).
* `SetAllTrue` leaves a cached "no" in place (`BitVectors.BitVector.SetAllTrue`), and an empty vector answers by
  its cache (`BitVectors.BitVector.AllTrue`).
* The fallbacks of a locale file can contain the file itself: with a modifier but no codeset, or with an empty
  sponsor in front of a revision and neither modifier nor codeset (`LocaleFallbacks.OwnFallbackIff` says exactly
  when). There are no other cycles (`LocaleList.OnlyLoops`).

## Model

The source cells are paths in the repository.

| member | source | states |
|---|---|---|
| PluralGrammar.MinimalCorrect | intl/plural.c:217-256 | the printer with parentheses only where precedence or associativity demands them gives a tree of the precedence grammar that denotes the printed expression |
| PluralGrammar.MinimalFewest | intl/plural.c:217-256 | no tree of the grammar for the same expression has fewer parentheses, and a tree with redundant outer parentheses has strictly more |
| PluralTables.ActionMeaning | intl/plural.c:248-298 | in every state and for every lookahead, the generated tables decide what the precedence grammar demands: shift, reduce, accept or error |
| PluralTables.GotoMeaning | intl/plural.c:248-298 | the goto part of the tables leads from every state that wants an operand to the state that has it |
| PluralParser.HandlePresent | intl/plural.c:821-972 | whenever the tables reduce by a rule, its whole right-hand side lies on the stack with the values the action reads |
| PluralParser.Reduction | intl/plural.c:821-972 | a reduction keeps the stack a path of the automaton, never makes it deeper, and strictly lowers the termination measure |
| PluralParser.ShiftSound | intl/plural.c:792-812 | a shift keeps the stack a path; only the end marker is shifted without consuming input |
| PluralParser.Step | intl/plural.c:612-972 | one round keeps the stack a path below the depth limit and makes progress, so the parser terminates on every input |
| PluralCompleteness.ParseTree | intl/plural.c:612-972 | from any stack that wants an operand, the automaton reads any fitting tree of the grammar and continues with its expression on top, or overflows exactly when the tree needs too many entries |
| PluralCompleteness.ParseBin | intl/plural.c:612-972 | the case of a left-associative binary operator |
| PluralCompleteness.ParseCond | intl/plural.c:612-972 | the case of the right-associative ?: operator |
| PluralSoundness.ReductionExplained | intl/plural.c:821-972 | a reduction keeps the invariant that the stack stands for grammar trees and tokens, and the tokens it spans stay the same |
| PluralSoundness.ShiftExplained | intl/plural.c:792-812 | a shift moves one token from the input to the span of the stack |
| PluralSoundness.RunSound | intl/plural.c:612-972 | from any explained stack, an accepted result is a grammar tree whose yield is the spanned tokens followed by the whole remaining input |
| PluralSoundness.ParseSound | intl/plural.c:546-972 | an accepted token sequence is the yield of a grammar tree that denotes the result |
| PluralSoundness.ParseComplete | intl/plural.c:546-972 | the yield of every grammar tree is parsed to its expression, or to a stack overflow exactly when the tree needs YYMAXDEPTH entries or more |
| PluralSoundness.ParseIff | intl/plural.c:546-972 | the parser accepts with e if and only if some grammar tree within the depth limit yields the input and denotes e |
| PluralSoundness.SyntaxErrorIffNoTree | intl/plural.c:546-1098 | short of a stack overflow, a syntax error is reported if and only if no grammar tree yields the input |
| PluralSoundness.SoundWithin | intl/plural.c:546-972 | for any limit of the stack an accepted token sequence is the yield of a grammar tree that denotes the result |
| PluralSoundness.CompleteWithin | intl/plural.c:546-972 | for any limit of the stack the yield of every grammar tree is parsed to its expression, or to an overflow exactly when the tree needs as many entries as the limit |
| PluralSoundness.Unambiguous | intl/plural.c:217-256 | any two grammar trees with the same yield, however deep, denote the same expression |
| PluralLexer.ScanText | intl/plural.c:1171-1314 | the text of every token is scanned back to that token, whatever follows that does not run into it |
| PluralLexer.DecimalPrefix | intl/plural.c:1197-1210 | the decimal digits of any n, of any length, give n modulo the machine word, whatever follows |
| PluralLexer.LayoutRead | intl/plural.c:1171-1314 | any layout of any token sequence, with blanks wherever tokens would run together and ended by a terminator, is scanned back to the sequence |
| PluralRoundTrip.YieldTight | intl/plural.c:1171-1314 | adjacent tokens of a sentence never run together, so no blank is ever needed |
| PluralRoundTrip.RoundTrip | intl/plural.c:546-1314 | printing any expression whose numbers fit the word, with any blanks, then scanning and parsing it, gives exactly that expression (or overflow exactly beyond the depth limit) |
| PluralDriver.YyLex | intl/plural.c:1171-1314 | the pointer-driven scanner delivers the next token of the text, with its value, and leaves the pointer at the rest |
| PluralDriver.YyLexNumber | intl/plural.c:1197-1210 | the digit loop computes the number modulo the word size and stops at the first non-digit (PluralLexer.DecimalPrefix: the decimal number) |
| PluralDriver.Act | intl/plural.c:843-925 | the semantic actions read the value stack at the right offsets: the value built is the one of the grammar rule |
| PluralDriver.Registers.NewState | intl/plural.c:615-697 | pushing a state is always in bounds; the stacks grow without losing an entry, and the push fails exactly when the stack has reached YYMAXDEPTH |
| PluralDriver.Registers.Grow | intl/plural.c:656-682 | doubling, capped at YYMAXDEPTH, keeps all entries of both stacks |
| PluralDriver.Registers.Backup | intl/plural.c:705-792 | the decision equals the table decision for the lookahead, which is read only when the state needs one |
| PluralDriver.Registers.DoShift | intl/plural.c:792-812 | the C stacks represent the shifted model stack, and the lookahead is discarded unless it is the end marker |
| PluralDriver.Registers.DoReduce | intl/plural.c:821-972 | the C stacks represent the reduced model stack; rule 1 stores the result |
| PluralDriver.NoErrorShift | intl/plural.c:1080-1098 | no state shifts the error token |
| PluralDriver.Recover | intl/plural.c:974-1098 | error recovery finds no state on the stack that takes the error token, ends at the bottom of the stack and returns 1 |
| PluralDriver.RunOneStep | intl/plural.c:705-972 | each branch of the loop agrees with one step of the functional automaton |
| PluralDriver.YyParse | intl/plural.c:546-1140 | the whole parser on growing arrays returns status 0, 1 or 2 as the grammar characterisation says, and on 0 leaves exactly the denoted expression in the result |
| PluralEval.EvalStrict | intl/eval-plural.h:31-114 | evaluation raises exactly when a division by zero is reached, and otherwise gives the value of evaluating every operand: leaving operands out never changes a value |
| PluralEval.ArithmeticMeans | intl/eval-plural.h:68-85 | +, - and * give the sum, the difference and the product of the integers modulo the machine word |
| PluralEval.ComparisonMeans | intl/eval-plural.h:86-97 | each comparison is 1 exactly when the integers compare so, and 0 otherwise |
| PluralEval.LogicMeans | intl/eval-plural.h:51-61 | negation is 1 exactly for zero; conjunction and disjunction are 1 exactly when both operands, or one of them, are not zero, and need no second operand when the first decides |
| PluralEval.ChoiceMeans | intl/eval-plural.h:105-110 | ?: evaluates to its second operand when the first is not zero, and to its third otherwise |
| PluralEval.DivisionMeans | intl/eval-plural.h:71-81 | in an expression quotient times divisor plus remainder is the dividend, the remainder is below the divisor, and both raise for a divisor of zero |
| PluralEval.ShortCircuit | intl/eval-plural.h:55-61 | a second operand of && or || that divides by zero raises exactly when the first one does not decide |
| PluralEval.DivisionFacts | intl/eval-plural.h:71-81 | quotient times divisor plus remainder is the dividend, the remainder is below the divisor, and both raise for a divisor of zero |
| PluralHeader.ParsedFits | intl/plural.c:1195-1210 | whatever the text is, the numbers of an accepted expression fit the machine word |
| PluralHeader.ExtractPluralExpression | intl/plural-exp.c:97-155 | the expression and the number of variants are read behind the first occurrences of their keywords; n != 1 with two variants stands in exactly when a keyword is missing, no digit follows, or the parser refuses |
| PluralHeader.HeaderRead | intl/plural-exp.c:97-155 | a header that declares an expression, printed in any layout, and a number gives exactly this expression and number |
| PluralHeader.NumberRead | intl/plural-exp.c:117-131 | the number of variants is read digit by digit in base ten, and the largest number of the word stands for all above it |
| PluralRules.ShownParsed | intl/plural.c:546-1314 | the text of any tree of the grammar, with or without redundant parentheses and spaces around chosen operators, is parsed to what the tree denotes |
| PluralRules.OperatorTexts | intl/plural.c:1223-1285 | n*k, n/k, n%k, n+k, n-k and !n are parsed to the operations that these characters name |
| PluralRules.LineParts | po/pl.po:25-26 | in a header the keywords of the Plural-Forms line are found where they stand: plural= is not found inside nplurals= |
| PluralRules.PolishHeader | po/pl.po:25-26 | the text of this rule selects, for every n of the machine word: variant 0 for one, variant 1 for what ends in 2 to 4 but not in 12 to 14, variant 2 otherwise |
| PluralRules.RussianHeader | po/ru.po:28-29 | the text of this rule (also in po/uk.po) selects variant 0 for what ends in 1 but not in 11, variant 1 for what ends in 2 to 4 but not in 12 to 14, variant 2 otherwise |
| PluralRules.LithuanianHeader | po/lt.po:17-18 | the text of this rule selects variant 0 for what ends in 1 but not in 11, variant 1 for what ends in 2 to 9 but not in 10 to 19, variant 2 otherwise |
| PluralRules.SlovenianHeader | po/sl.po:21-22 | the text of this rule selects variants 1, 2 and 3 for one, two, and three or four of each hundred, and variant 0 otherwise |
| PluralRules.GermanHeader | po/de.po:23 | n != 1, in parentheses or not, selects variant 0 exactly for one and variant 1 otherwise |
| PluralRules.FrenchHeader | po/fr.po:29 | (n > 1) selects variant 0 for zero and one and variant 1 otherwise |
| PluralRules.JapaneseHeader | po/ja.po:16 | 0 with a single variant selects it for every n |
| PluralHeader.GermanicRule | intl/plural-exp.c:49-62 | the Germanic rule selects the first variant for one and the second otherwise |
| PluralHeader.LookupPlural | intl/dcigettext.c:1003-1039 | from the header text to the translation: the address delivered is that of the variant which the declared rule selects |
| PluralEval.FindNul | intl/dcigettext.c:1022-1037 | the scan stops at the NUL that ends the current variant |
| PluralEval.JoinAt | intl/dcigettext.c:1020-1039 | the position after k terminated variants is where variant k starts, and the end of the block exactly when k is the number of variants |
| PluralEval.PluralLookup | intl/dcigettext.c:1003-1039 | the address is that of the variant whose number the expression gives, or of the first one when that number is not below the declared number of variants or the block has fewer; it raises exactly when the evaluation does |
| HashString.HashStringLoop | intl/hash-string.h:38-59 | the loop computes the hash for any word of at least 32 bits and either signedness of char |
| HashString.WidthIndependent | intl/hash-string.h:38-59 | for strings of any length the low 32 bits are the same for every word width of at least 32 and stay below 2^28 |
| HashString.RoundFolds | intl/hash-string.h:49-56 | a round folds the top nibble into bits 4 to 7 and leaves the low 28 bits of the shifted value |
| HashString.HashExtended | intl/hash-string.h:38-59 | a character more makes the hash sixteen times the old one plus the character as char, with what exceeds 28 bits folded into bits 4 to 7; without an excess exactly that sum |
| HashSignedness.AgreeNext | intl/hash-string.h:46-56 | whether signed and unsigned char still give the same hash after one more character: an ASCII character changes nothing about it, and one above ASCII makes them agree exactly when the signed hash was 16 ahead modulo 2^28 |
| HashSignedness.AsciiTail | intl/hash-string.h:46-56 | a difference once made, and an agreement, stay until the next character above ASCII |
| HashSignedness.AsciiAgrees | intl/hash-string.h:38-59 | plain ASCII text has the same hash for signed and unsigned char |
| HashSignedness.OneHighByte | intl/hash-string.h:38-59 | a text with exactly one character above ASCII, wherever it stands, has different hashes |
| HashSignedness.SignednessIff | intl/hash-string.h:38-59 | the hashes of a text and of all its prefixes are the same if and only if the text is plain ASCII |
| HashSignedness.SignednessCounterexample | intl/hash-string.h:50 | for the single byte 0x80 signed and unsigned char give different hashes |
| HashSignedness.CancelCounterexample | intl/hash-string.h:38-59 | the converse of AsciiAgrees fails: a text with two characters above ASCII whose prefix hashes differently hashes the same |
| ProbeSequence.SlotNext | intl/dcigettext.c:754-757 | the wrap-around update is addition modulo the table size and never leaves the range below it |
| ProbeSequence.SlotSteps | intl/dcigettext.c:721-757 | the first slot is the start, and from slot to slot the step is added, less the size when that leads beyond the end |
| ProbeSequence.ProbeRemainders | intl/dcigettext.c:721-722 | the start is the remainder of the hash by the size, the step one more than its remainder by the size less two |
| ProbeSequence.Euclid | intl/dcigettext.c:721-722 | a prime that divides a product divides one of its factors |
| ProbeSequence.NotSameSlot | intl/dcigettext.c:721-757 | two different steps below the prime table size never probe the same slot |
| ProbeSequence.EverySlotProbed | intl/dcigettext.c:721-757 | in hash_size steps the sequence visits every slot exactly once |
| HashTable.Insert | intl/loadmsgcat.c:1224-1245 | the insertion loop terminates and enters the string in the first empty slot of its probe sequence |
| HashTable.InsertKeeps | intl/loadmsgcat.c:1224-1245 | insertion keeps the table well formed for the old strings and the new one and uses exactly one empty slot |
| HashTable.Landmark | intl/dcigettext.c:724-757 | some probe decides every lookup: an empty slot, or an entry of the wanted string |
| HashTable.AbsentWhenEmpty | intl/dcigettext.c:729-731 | meeting an empty slot proves that the string is not in the table |
| Catalogue.LoadedDomain.FindByHash | intl/dcigettext.c:715-759 | the hash lookup returns i exactly for an original string i equal to msgid, and nothing exactly when there is none; it terminates |
| Catalogue.Bisect | intl/dcigettext.c:760-785 | the binary search over strings in strcmp order finds msgid exactly when it is there |
| Catalogue.LoadedDomain.SameString | intl/dcigettext.c:735-748 | the length test together with strcmp accepts exactly the equal string, for static and system-dependent strings |
| Catalogue.LoadedDomain.FindMsg | intl/dcigettext.c:714-785 | both lookup methods return the index of msgid, or nothing exactly when it is absent |
| Catalogue.LoadedDomain.Translation | intl/dcigettext.c:787-800 | the translation delivered is the one stored beside the matching original, with the length including its NUL: the static ones without the NUL in their stored length, the built ones with it |
| Catalogue.InsertAll | intl/loadmsgcat.c:1224-1245 | inserting all system-dependent strings keeps the table well formed for static and system-dependent strings together |
| Catalogue.LoadedDomain.Augment | intl/loadmsgcat.c:1220-1254 | the augmented table is a fresh copy that serves the old and the new strings |
| Catalogue.LoadedDomain.LoadSysdep | intl/loadmsgcat.c:1058-1255 | loading succeeds exactly when there is a hash table and every segment reference is valid; then lookups serve the expanded strings and each string used one empty slot; without such strings, or on failure, nothing changes |
| Strings.StrCmpZero | intl/dcigettext.c:738 | strcmp is zero exactly for equal strings |
| Strings.StrCmpOrder | intl/dcigettext.c:772-780 | strcmp is transitive |
| Strings.StrCmpDecides | intl/dcigettext.c:772-780 | the first differing byte decides, as an unsigned one, and a prefix comes before what it is a prefix of |
| Sysdep.MeasureString | intl/loadmsgcat.c:1121-1145 | the measuring loop gives the length of the expanded string, or fails exactly when a reference is outside the segment table |
| Sysdep.Measure | intl/loadmsgcat.c:1107-1146 | the memory computed is the size of all strings that are built, and fails exactly for an invalid reference |
| Sysdep.FillString | intl/loadmsgcat.c:1188-1217 | the filling loop stays inside the block and writes the static and expanded segments in turn |
| Sysdep.ExpandAt | intl/loadmsgcat.c:1188-1217 | in the expanded string every static segment is the next part of the file's text, and directly behind it comes the value of the segment that it refers to; nothing follows the last one |
| Sysdep.Fill | intl/loadmsgcat.c:1161-1218 | the filling pass uses exactly the measured bytes and every descriptor denotes its string with its length |
| Catalogue.Build | intl/loadmsgcat.c:1107-1218 | both passes together give a descriptor of the right text and length for every string, or fail exactly for an invalid file |
| Records.CarvedCoverage | src/CorruptionBlackBox.cpp:128-165 | carving removes all coverage inside the verified range and none outside, for overlapping records too |
| Records.RemovedIsCoverage | src/CorruptionBlackBox.cpp:128-169 | the bytes counted for a sender are its coverage of the range, byte for byte |
| Records.CarvedSize | src/CorruptionBlackBox.cpp:128-171 | what is left and what was taken add up to what was recorded; the penalty is at least what was taken |
| Records.CarvedCommute | src/CorruptionBlackBox.cpp:128-176 | carving two disjoint ranges in either order leaves the same records and takes the same bytes |
| Records.CarvedTwice | src/CorruptionBlackBox.cpp:128-176 | carving a range again takes nothing |
| Records.PenaltiesAre | src/CorruptionBlackBox.cpp:166-175 | a corrupt range is charged to a sender with at least 184320 bytes for each of its records that it hits, and at least, and with the blocks at most, the bytes taken |
| BlackBox.Store | src/CorruptionBlackBox.cpp:102-112 | the merge loop joins the first adjacent record of the sender or appends a new one |
| BlackBox.AddedJoins | src/CorruptionBlackBox.cpp:54-66 | the first record of the sender that the range touches grows by it and the list is no longer; without one the range is appended |
| BlackBox.CarveAt | src/CorruptionBlackBox.cpp:128-165 | one round of the list edit erases, shortens or splits the record at the iterator and reports the bytes taken |
| BlackBox.CCorruptionBlackBox.TransferredData | src/CorruptionBlackBox.cpp:78-112 | the recursive split over parts stores exactly the received range, within 16-bit part numbers and 32-bit offsets |
| BlackBox.CCorruptionBlackBox.VerifiedData | src/CorruptionBlackBox.cpp:116-187 | the list edited during iteration becomes the carved list, every sender is credited, or charged at least 184320 bytes for each of its records that the range hits, and an empty list is dropped |
| BlackBox.CCorruptionBlackBox.Account | src/CorruptionBlackBox.cpp:166-175 | good data counts as it is; corrupt data is charged with exactly 184320 bytes or what it is if that is more; no entry without bytes is made |
| BlackBox.CreditAllSums | src/CorruptionBlackBox.cpp:166-175 | every sender is credited the sum over its records |
| BlackBox.CCorruptionBlackBox.EvaluateData | src/CorruptionBlackBox.cpp:191-241 | exactly the senders above the threshold are banned |
| BlackBox.CCorruptionBlackBox.Free | src/CorruptionBlackBox.cpp:69-74 | all records and accounts are dropped |
| BlackBoxRuns.AddedCoverage | src/CorruptionBlackBox.cpp:54-66 | merging or appending a range raises the coverage of exactly its bytes by one and keeps all records non-empty |
| BlackBoxRuns.TransferCoverage | src/CorruptionBlackBox.cpp:78-112 | for any file range, also across parts, the coverage of exactly the bytes in the range rises by one for that sender; no other coverage changes |
| BlackBoxRuns.VerifyCoverage | src/CorruptionBlackBox.cpp:116-187 | per sender and byte, coverage becomes zero inside the verified range and is unchanged elsewhere |
| BlackBoxRuns.VerifyAccounts | src/CorruptionBlackBox.cpp:166-175 | good grows by exactly the coverage removed; bad grows by at least 184320 for each record hit and by at least the coverage removed, and by no more than both together |
| BlackBoxRuns.VerifyCommutes | src/CorruptionBlackBox.cpp:116-187 | verifying disjoint ranges in either order, each as good or bad, leaves the very same state |
| BlackBoxRuns.VerifyAgain | src/CorruptionBlackBox.cpp:116-187 | verifying a range again, with either verdict, changes nothing |
| BlackBoxRuns.Conservation | src/CorruptionBlackBox.cpp:78-187 | over every run, each byte received is still recorded, was verified good or was found corrupt; what was found corrupt is charged at least in full, and with 184320 bytes or more if it is anything at all |
| BlackBoxRuns.BannedIff | src/CorruptionBlackBox.cpp:196-209 | a sender is banned if and only if some of its bytes were found corrupt and 33 times its good bytes do not exceed 67 times its bad ones |
| BlackBoxRuns.CorruptBanned | src/CorruptionBlackBox.cpp:78-209 | a sender of which anything was ever found corrupt is banned, however little that was, unless 33 times its good bytes exceed 67 blocks of 184320 |
| BlackBoxRuns.InnocentNotBanned | src/CorruptionBlackBox.cpp:78-241 | a sender of which nothing was ever found corrupt is never banned |
| ClientIndex.InsertExact | src/ClientList.cpp:112-121 | inserting the entry of a client that gains a key keeps the index exact |
| ClientIndex.EraseExact | src/ClientList.cpp:187-246 | erasing the first entry of a client that loses its key keeps the index exact |
| ClientIndex.DestChangeIff | src/ClientList.cpp:155-167 | the destination index stays exact when a listed client changes its key if and only if the old destination has code zero or is flagged valid; otherwise a stale entry stays |
| ClientIndex.Members | src/ClientList.cpp:249-308 | an exact index lists under a key exactly the clients that have it |
| ClientList.EraseFirst | src/ClientList.cpp:187-246 | the removal loop erases the first entry of the client and reports whether there was one |
| ClientList.CClientList.AddClient | src/ClientList.cpp:102-125 | a new client becomes listed with exactly one entry in each index it qualifies for; any other client is left alone |
| ClientList.CClientList.RemoveIDFromList | src/ClientList.cpp:187-206 | one ID entry of the client goes; the result tells whether there was one |
| ClientList.CClientList.RemoveIPFromList | src/ClientList.cpp:209-227 | one destination entry goes, unless the destination is not flagged valid |
| ClientList.CClientList.RemoveHashFromList | src/ClientList.cpp:228-246 | one hash entry goes, if the client has a valid hash |
| ClientList.CClientList.UpdateClientID | src/ClientList.cpp:141-152 | the ID index becomes exact for the client with the new ID |
| ClientList.CClientList.UpdateClientIP | src/ClientList.cpp:155-167 | the destination index becomes exact for the new address if and only if the old one was removable, the client is not listed, or the key is unchanged |
| ClientList.CClientList.UpdateClientHash | src/ClientList.cpp:170-184 | the hash index becomes exact for the client with the new hash |
| ClientList.CClientList.SetUserIDHybrid | src/BaseClient.cpp:2189-2194 | all three indexes stay exact and only the ID changes |
| ClientList.CClientList.SetTCPDest | src/BaseClient.cpp:2198-2205 | all three indexes stay exact if and only if the old destination could be removed, the client is not listed, or the key is unchanged |
| ClientList.CClientList.SetUserHash | src/BaseClient.cpp:2208-2215 | all three indexes stay exact and the valid-hash flag follows the hash |
| ClientList.CClientList.RemoveClient | src/ClientList.cpp:128-138 | destination and hash entries go only together with an ID entry |
| ClientList.CClientList.SafeDelete | src/BaseClient.cpp:363-392 | the client is dying and has no ID or hash entry, and no destination entry if and only if its destination was removable or it was never listed |
| ClientList.CClientList.FindMatchingClient | src/ClientList.cpp:249-308 | a listed client with the same destination and port is returned if there is one, else one with the same destination and UDP destination, else with the same ID and port, else with the same ID and UDP destination, else with the same hash; none exactly when no listed client matches in any of these ways |
| ClientList.CClientList.FindByAddress | src/ClientList.cpp:258-291 | the search by destination and then ID returns a match in the first of these four ways in which any listed client matches, or none exactly when there is none |
| ClientList.ScanRange | src/ClientList.cpp:274-288 | a port match anywhere in the range comes before a UDP destination match |
| ClientList.CClientList.DeleteAll | src/ClientList.cpp:317-330 | the loop terminates with every listed client dying, empty indexes, and everything consistent again |
| ClientList.CClientList.Do | src/ClientList.cpp:102-330 | every operation on list or client keeps all three indexes exact and changes the clients only as the fields say |
| ClientList.CClientList.Run | src/ClientList.cpp:102-330 | over every run, each listed client has exactly one entry in the ID index under its current ID, one in the others exactly when the field qualifies and under its current value, and unlisted clients have none |
| ClientList.CClientList.Indexed | src/ClientList.cpp:102-125 | a listed client has one entry under its ID, one under a nonzero destination and one under a nonempty hash, and no other; an unlisted client has none |
| RefCount.SetRefSound | src/ClientRef.cpp:44-61 | adding a reference keeps every count exact if and only if the client has fewer than 65535 references |
| RefCount.UnlinkSound | src/ClientRef.cpp:75-81 | dropping a reference touches no freed client, keeps every count exact, and frees the client exactly when its last reference goes |
| RefCount.ConstructSound | src/ClientRef.cpp:44-61 | both constructors, for null and client pointers |
| RefCount.LinkSound | src/ClientRef.cpp:64-72 | relinking is safe if and only if it is not a sole reference linked to its own client and the counter has room |
| RefCount.LinkFreed | src/ClientRef.cpp:64-72 | a safe relink frees the old client exactly when this was its last reference |
| RefCount.DestroySound | src/ClientRef.h:76 | the destructor keeps the heap sound |
| RefCount.SwapSound | src/ClientRef.h:93-100 | swap keeps every count |
| RefCount.SafeDeleteSound | src/ClientRef.cpp:107-114 | Safe_Delete on a reference uses a freed client if and only if it is the last one |
| RefCount.StepSound | src/ClientRef.cpp:44-115 | every operation uses no freed client and keeps every count exact if and only if the condition that a caller can test beforehand holds; then a client disappears exactly when its last reference does |
| RefCount.RunSound | src/ClientRef.cpp:44-115 | over every run of operations that meet this condition each m_linked equals the number of references and no reference dangles |
| RefCount.CrowdSound | src/updownclient.h:123 | a client with 65535 references is a sound state, the largest the counter can describe |
| RefCount.Wraps | src/updownclient.h:123 | with 65535 references, two more links wrap the counter to 1 and dropping one of them frees the client under all the others |
| ClientRefs.CClientRefs.Create | src/ClientRef.cpp:44-61 | while the counter has room, the new reference points to its client, no client is freed, and every count stays the number of references |
| ClientRefs.CClientRefs.UnlinkRef | src/ClientRef.cpp:75-81 | the reference becomes null and no other changes; a client is freed exactly when its last reference went; every count stays exact and no reference dangles |
| ClientRefs.CClientRefs.LinkRef | src/ClientRef.cpp:64-72 | unless a sole reference is linked to its own client or the counter is full, the reference points to the new client and no other changes; a client is freed exactly when its last reference went; every count stays exact |
| ClientRefs.CClientRefs.DestroyRef | src/ClientRef.h:76 | the reference is gone and no other changes; a client is freed exactly when its last reference went; every count stays exact |
| ClientRefs.CClientRefs.SwapRefs | src/ClientRef.h:93-100 | each of the two references points where the other did, no client is freed and every count stays exact |
| ClientRefs.CClientRefs.Checked | src/ClientRef.cpp:87-104 | the client returned is alive and not marked for deletion; none is returned exactly for a null reference and for a marked client, which is dropped; every count stays exact |
| ClientRefs.CClientRefs.SafeDeleteRef | src/ClientRef.cpp:107-114 | if it is not the last reference, it becomes null, the client is marked and lives on under the others; every count stays exact |
| ClientRefs.CClientRefs.Run | src/ClientRef.cpp:44-115 | the operations as statements on the fields: over every run that meets the conditions, no freed client is touched, every count is the number of references and no reference dangles |
| ListReferences.PlacesExact | src/ClientList.cpp:90-203 | an exact index holds one entry of a client that has a key in it, and none of any other client |
| ListReferences.LinkedSplit | src/ClientList.cpp:90-124 | m_linked of a listed client is the number of its index entries and of the references held elsewhere |
| Temporaries.ThroughIff | src/ClientList.cpp:151 | copying a reference on through k temporaries from n references: the new entry is there, all counters right modulo 65536, if and only if none of n + 1 to n + k is a multiple of 65536; otherwise the client is freed or used after that |
| Temporaries.InsertingIff | src/ClientList.cpp:151 | an insertion with its temporaries makes its entry and keeps every count exact if and only if the references there were and the temporaries together stay below 65536; otherwise the client is freed under it |
| ListReferences.MoveIff | src/ClientList.cpp:141-204 | erasing the entry of a client and inserting a new one through k temporaries touches no freed client and keeps every count exact if and only if the erased entry was not its last reference and the references left and the temporaries stay below 65536 |
| ListReferences.SetIdSafeIff | src/BaseClient.cpp:2189-2194 | SetUserIDHybrid on a listed client is safe if and only if the ID stays the same, or the client has a destination entry, a hash entry or a reference held elsewhere and its references and the temporaries are at most 65536; then every entry is still a reference to its client and the references held elsewhere are the same |
| ListReferences.SetDestSafeIff | src/BaseClient.cpp:2198-2205 | SetTCPDest from a destination that can be removed is safe if and only if it makes no new entry or the references left and the temporaries stay below 65536 |
| ListReferences.SetHashSafeIff | src/BaseClient.cpp:2208-2215 | SetUserHash is safe if and only if it makes no new entry or the references left and the temporaries stay below 65536 |
| ListReferences.DeleteSafe | src/BaseClient.cpp:377-392 | Safe_Delete of a client whose counter has room is safe: the client is there until the method ends, all its entries are gone, and it is freed then if and only if nobody outside the list holds a reference |
| ListRuns.AddKeeps | src/ClientList.cpp:90-124 | AddClient of a new client makes exactly the entries that its fields call for, each a reference to it, if the counter has room for each in turn |
| ListRuns.DeleteAllKeeps | src/ClientList.cpp:317-330 | DeleteAll in any order uses no freed client and leaves no entry, and the references held elsewhere stay; clearing the other indexes first frees nobody |
| ListRuns.NextGood | src/ClientList.cpp:90-330 | every operation of the list, and every operation on references elsewhere, keeps the entries and references tied when its condition on the counters holds |
| ListRuns.RunGood | src/ClientList.cpp:90-330 | over every run of list operations, interleaved with operations on references elsewhere, no freed client is used, every entry that the indexes must hold is one reference to its client, and the fields are those of ClientList.CClientList.Run |
| ListRuns.RunCounts | src/ClientList.cpp:90-330 | after every such run each m_linked is the number of the index entries that the client must have and of the references held elsewhere |
| SecureIdent.PokePeek | src/ClientCreditsList.cpp:359-360 | a challenge written as four bytes is read back |
| SecureIdent.ReceiveSound | src/ClientTCPSocket.cpp:1322-1374 | every packet keeps: a stored key equals the working copy, identified requires a stored key, and a stored key never changes |
| SecureIdent.ReceiveResets | src/ClientCredits.cpp:188-204 | over every packet: when a key becomes stored and bytes had been downloaded, 1 and 1 are left of the totals; otherwise both totals stay |
| SecureIdent.MessageInjective | src/ClientCreditsList.cpp:353-367 | strings to be signed are told apart: for keys of one length two equal strings have the same key, challenge, kind and, in version 2, address |
| SecureIdent.ProcessSignatureSound | src/BaseClient.cpp:1936-1982 | a signature packet keeps the same |
| SecureIdent.CreditedIff | src/ClientCredits.cpp:72-108 | once a key is stored and signatures are in use, bytes are credited exactly for the identified address |
| SecureIdent.ScoreIs | src/ClientCredits.cpp:122-162 | the multiplier is 1 below a million bytes and for a refused address, 10 if nothing was uploaded, and else twice downloaded over uploaded, cut to the square-root bound and to 1 and 10 |
| SecureIdent.ScoreBounds | src/ClientCredits.cpp:122-162 | the multiplier stays between 1 and 10, grows with the bytes downloaded, and does not exceed the square-root bound unless that is below 1 |
| SecureIdentRuns.VerifiedStep | src/ClientCreditsList.cpp:381-446 | a record that becomes identified was signed for by the holder of the key it stores |
| SecureIdentRuns.NextAuthentic | src/BaseClient.cpp:1831-2046 | every step of any connection, packet, key holder or transfer keeps authenticity and the stored key |
| SecureIdentRuns.RunAuthentic | src/BaseClient.cpp:1831-2046 | over every run with ideal signatures an identified record implies that the holder of its key signed our public key followed by a challenge issued for it |
| SecureIdentRuns.RunResets | src/ClientCredits.cpp:188-204 | over every lawful run from a record without a stored key, the downloaded total once a key is stored is at most 1 plus the bytes credited since |
| SecureIdentRuns.IdentifiedMeansSigned | src/ClientCredits.cpp:171-217 | from a record as loaded or created: identified means signed by the holder of the stored key, which is the key the record was loaded with if it had one |
| ClientCredits.CClientCredits.SetSecureIdent | src/ClientCredits.cpp:207-217 | a key is taken only while none is stored and if it fits; otherwise nothing changes |
| ClientCredits.CClientCredits.Verified | src/ClientCredits.cpp:188-204 | the working key is stored if none is, the address is recorded; if a key becomes stored and bytes had been downloaded, both totals become 1, and otherwise both stay |
| ClientCredits.CClientCredits.AddDownloaded | src/ClientCredits.cpp:72-88 | bytes are credited to a trusted address and to no other, and nothing else changes; with a stored key and signatures in use that is exactly the identified address |
| ClientCredits.CClientCredits.AddUploaded | src/ClientCredits.cpp:91-107 | the same for uploaded bytes |
| ClientCredits.CClientCredits.VerifyIdent | src/ClientCreditsList.cpp:381-446 | the string verified is our key, the challenge and in version 2 the address with its kind; success identifies the record under its stored key, with the totals reset to 1 and 1 when the key is new and bytes had been downloaded; failure turns a pending state into a failed one, and without signatures the state becomes unavailable |
| ClientCredits.CUpDownClient.SendPublicKeyPacket | src/BaseClient.cpp:1831-1850 | the key is sent only when asked for and once for each request, and every peer that uses signatures and has no stored key takes exactly this key from the packet |
| ClientCredits.CUpDownClient.SendSignaturePacket | src/BaseClient.cpp:1853-1907 | a signature is sent once for each request; every peer that takes the version reads from the packet our signature of its key and the challenge received last, and in version 2 of our address |
| ClientCredits.CUpDownClient.SendSecIdentStatePacket | src/BaseClient.cpp:1984-2014 | a request is sent exactly when signatures are in use and the key is missing or this address was not heard yet; every peer reads from it the challenge that the record then holds, and a wish for the key exactly when it is missing; nothing else changes |
| ClientCredits.CUpDownClient.ProcessSecIdentStatePacket | src/BaseClient.cpp:2018-2046 | from a packet that carries a challenge exactly this challenge and wish are taken; only the challenge of the record changes and nothing is sent |
| ClientCredits.CUpDownClient.ProcessPublicKeyPacket | src/BaseClient.cpp:1910-1931 | from a packet that carries a key exactly this key is taken while none is stored; a stored key stays with the whole record; nobody is identified; at most the owed signature goes out |
| ClientCredits.CUpDownClient.ProcessSignaturePacket | src/BaseClient.cpp:1936-1982 | a record becomes identified, at this address and with its working key stored, if and only if the packet verifies for that key, our key and challenge, signatures are in use and the address was not heard yet; otherwise only a pending state can become failed; older credits are reset when a key becomes stored; a malformed packet changes nothing |
| ClientCredits.CUpDownClient.ProcessExtPacket | src/ClientTCPSocket.cpp:1322-1374 | every packet keeps the record sound, a stored key and our challenge; only a signature packet can identify the record or change its address |
| SecureIdent.IdentifiedIff | src/BaseClient.cpp:1936-1982 | a signature packet identifies the record under the address of the connection if and only if it proves the holder of the key |
| IdentSessions.CSessions.Challenge | src/BaseClient.cpp:1984-2014 | with the fields updated in place a challenge counts as issued exactly when it was sent, and all other clients of the record are untouched |
| IdentSessions.CSessions.Do | src/BaseClient.cpp:1831-2046 | every event on the objects that share a record does what the step of the run model does |
| IdentSessions.CSessions.Run | src/BaseClient.cpp:1831-2046 | over every lawful run on the objects themselves an identified record was signed for by the holder of the key it stores, a stored key stays, and from a record without one the downloaded total is at most 1 plus the bytes credited since a key is stored |
| ExchangeProtocol.DeliverInv | src/ClientTCPSocket.cpp:1322-1374 | delivering any message keeps the invariant of both directions: every message arrives when its receiver can use it |
| ExchangeProtocol.StartInv | src/BaseClient.cpp:1984-2014 | starting keeps the invariant |
| ExchangeProtocol.Finished | src/BaseClient.cpp:1831-2046 | once both have asked and the channels are empty, both have verified |
| ExchangeProtocol.DeliverShrinks | src/ClientTCPSocket.cpp:1322-1374 | in the abstract protocol, what a delivery sets off weighs less than the message delivered |
| HonestExchange.SameString | src/ClientCreditsList.cpp:353-367 | signer and verifier build the same string, in version 2 when the verifier sees the signer's public address |
| HonestExchange.SignaturePacket | src/BaseClient.cpp:1888-1899 | an honest signature packet is taken apart into exactly its kind and signature |
| HonestExchange.SignatureShows | src/BaseClient.cpp:1936-1982 | an honest signature for the current challenge is accepted and identifies the signer |
| HonestExchange.KeyShows | src/BaseClient.cpp:1910-1931 | an honest key packet delivers the key and releases the owed signature |
| HonestExchange.StateShows | src/BaseClient.cpp:2018-2046 | an honest request is answered with the key, if asked, and then the signature, if it can be made |
| HonestExchange.HonestExchange | src/BaseClient.cpp:1831-2046 | whatever the interleaving over first-in first-out connections, and whatever challenges of earlier connections the records hold, once both sides have asked and nothing is under way each has identified the other and stored its key |
| HonestExchange.DeliveryLightens | src/BaseClient.cpp:1831-2046 | every delivery of a packet makes the packets under way lighter, so only finitely many deliveries can follow each other |
| HonestExchange.Drain | src/BaseClient.cpp:1831-2046 | from every state of the exchange some deliveries empty both connections |
| HonestExchange.ExchangeCompletes | src/BaseClient.cpp:1831-2046 | an exchange never gets stuck: after any run, the missing starts and some deliveries lead to both sides having identified each other |
| LittleEndian.PeekPoke | src/ClientCreditsList.cpp:187-211 | an integer below the width is read back from its little-endian bytes |
| LittleEndian.PeekJoin | src/ClientCreditsList.cpp:187-211 | a byte further on weighs 256 times more |
| CreditFile.DecodeEncode | src/ClientCreditsList.cpp:126-134 | every field of a record survives writing and reading |
| CreditFile.RecordLayout | src/ClientCreditsList.cpp:126-134 | the key is bytes 0 to 15 of a record, uploaded 16 to 23, downloaded 24 to 31, last seen 32 to 35, reserved 36 and 37, the key size 38, the identity from 39 on |
| CreditFile.LoadEncoded | src/ClientCreditsList.cpp:121-157 | reading the written records gives the unexpired ones, later ones replacing earlier ones of the same key |
| CreditFile.LoadRecordsAre | src/ClientCreditsList.cpp:121-157 | of the records announced those that are there are read; one key size too large anywhere among them empties the map, and otherwise the current ones enter it |
| CreditFile.CurrentLast | src/ClientCreditsList.cpp:137-153 | of several current records with a key the last one is loaded |
| CreditFile.LoadFile | src/ClientCreditsList.cpp:117-157 | the whole file is read back, and the count at offset 1 is the number of records |
| CreditFile.CurrentKept | src/ClientCreditsList.cpp:183-211 | whatever order the records were written in, reading gives the earned and unexpired clients |
| CreditFile.ExpiredIff | src/ClientCreditsList.cpp:123-153 | away from the 32-bit wrap-around a record expires exactly after 150 days |
| CreditFile.CFile.ReadRecord | src/ClientCreditsList.cpp:126-134 | the field reads deliver the next record, or fail exactly when the file is too short |
| CreditFile.CClientCreditsList.LoadList | src/ClientCreditsList.cpp:68-167 | a file that is too short or does not start with 0x12 loads nothing; otherwise the records announced and there are read: a key size too large empties the map, and else the current ones enter it |
| CreditFile.CClientCreditsList.SaveClients | src/ClientCreditsList.cpp:187-207 | every client with a nonzero total is written exactly once, after the header |
| CreditFile.CClientCreditsList.SaveList | src/ClientCreditsList.cpp:170-218 | any later load of the file gives exactly the clients with a nonzero total whose time is not before the expiry time, field for field; the patched count equals the number of records |
| CreditFile.CClientCreditsList.GetCredit | src/ClientCreditsList.cpp:221-238 | a known record is returned with a new last-seen time, an unknown one is created empty |
| BitVectors.UnpackUpdate | src/BitVector.h:61-78 | setting or clearing a bit of the packed bytes changes exactly that element of the sequence |
| BitVectors.MaskIs | src/OtherFunctions.cpp:1244-1245 | bit k has the weight 2^k, and the negative mask is its complement |
| BitVectors.FullByte | src/BitVector.h:123-125 | a byte is 0xFF exactly when its eight bits are set |
| BitVectors.AllSetIff | src/BitVector.h:109-131 | all bits are set exactly when all whole bytes are 0xFF and the bits of the ragged last byte are set |
| BitVectors.BitVector.Get | src/BitVector.h:51-58 | the element of the sequence, false beyond its end |
| BitVectors.BitVector.Set | src/BitVector.h:61-78 | one element changes and the cache stays sound; beyond the end nothing happens |
| BitVectors.BitVector.Clear | src/BitVector.h:81-88 | the vector is empty |
| BitVectors.BitVector.SetSize | src/BitVector.h:91-106 | the sequence is newsize copies of the value and the cache is sound |
| BitVectors.BitVector.SetBuffer | src/BitVector.h:142 | the sequence is the unpacked buffer and the cache unknown |
| BitVectors.BitVector.AllTrue | src/BitVector.h:109-131 | for a vector that is not empty the answer is true exactly when every bit is, whatever the cache held; the cache is decided afterwards |
| BitVectors.BitVector.SetAllTrue | src/BitVector.h:134 | all bits are set; the cache stays sound if and only if it did not say "no" or the vector is empty |
| LocaleMask.PopOnes | intl/l10nflist.c:172-183 | pop counts the set bits of every 16-bit number |
| LocaleMask.SubMasksCount | intl/l10nflist.c:361-362 | a mask has two to the number of its bits sub-masks |
| LocaleFile.NameFits | intl/l10nflist.c:218-242 | the name and its NUL fill the computed size exactly |
| LocaleFile.XpgPath | intl/l10nflist.c:245-295 | a file in one directory is named directory/language_territory.codeset@modifier/filename |
| LocaleFile.CenName | intl/l10nflist.c:253-292 | in the other syntax the locale is language_territory+audience+special,sponsor_revision |
| LocaleFile.DirPartIs | intl/l10nflist.c:245-251 | directories are joined by colons, and the last one is followed by a slash |
| LocaleFile.HasIs | intl/loadinfo.h:63-70 | the parts that a mask names are its binary digits |
| LocaleFile.CopyDirs | intl/l10nflist.c:245-251 | the directory list becomes the colon-separated path with a final slash, in the bytes it had |
| LocaleFile.Stringify | intl/l10nflist.c:117-131 | every NUL except the last becomes a separator |
| LocaleFile.WriteLocale | intl/l10nflist.c:253-292 | the components are appended in order with their tags |
| LocaleFile.AbsFilename | intl/l10nflist.c:219-295 | the buffer of the computed size holds the name and its NUL and nothing else |
| LocaleList.InsertedDecreasing | intl/l10nflist.c:297-316 | inserting where the search stopped keeps the list strictly decreasing and without duplicates |
| LocaleFallbacks.FallbacksFit | intl/l10nflist.c:323-332 | all fallbacks and the terminating NULL fit the allocated array |
| LocaleFallbacks.FallbackAt | intl/l10nflist.c:361-386 | the order of the fallbacks: a sub-mask comes after all greater ones, and for each of them the directories in their order |
| LocaleFallbacks.NameOfSubMask | intl/l10nflist.c:253-295 | a sub-mask names the same file exactly if it drops nothing but the modifier bit beside the audience bit and an empty sponsor in front of a revision; otherwise its name is shorter, or as long and greater |
| LocaleFallbacks.FallbackLater | intl/l10nflist.c:361-386 | every fallback is the file itself or has a shorter name, or one as long and greater; those of a list of directories all have shorter names |
| LocaleFallbacks.OwnFallbackIff | intl/l10nflist.c:361-386 | a file is one of its own fallbacks if and only if there is at most one directory, no codeset in either spelling, and either both modifier bits or, without the modifier bit, an empty sponsor in front of a revision |
| LocaleList.OnlyLoops | intl/l10nflist.c:186-389 | whoever follows fallbacks through the list and comes back to a file has never left it: files that are their own fallbacks are the only cycles |
| LocaleList.L10nFileList.Search | intl/l10nflist.c:297-316 | the early-exit search finds the name exactly when it is listed, and else the place to insert it |
| LocaleList.L10nFileList.Make | intl/l10nflist.c:186-389 | the recursion terminates; the list stays strictly decreasing and only grows; a new entry is decided if and only if it stands for several directories or names both spellings of the codeset, every fallback that is entered is not decided; and it has exactly the fallbacks of its sub-masks in order, all of them listed and each the file itself or a later name |
| LocaleList.L10nFileList.Fill | intl/l10nflist.c:347-386 | the countdown over the sub-masks stores inside the array and collects the fallbacks in order |
| LocaleList.L10nFileList.FillRow | intl/l10nflist.c:366-378 | a real directory list contributes one file per directory |
| TranslationCache.SplitElement | intl/dcigettext.c:568-592 | one round of the colon loop takes exactly one element off the list |
| GettextLaws.SplitListed | intl/dcigettext.c:568-592 | the elements of a list come back whole and in order, however many colons stand before, between and behind them |
| GettextLaws.EveryListed | intl/dcigettext.c:568-592 | every string is such a list |
| TranslationCache.InsertedSorted | intl/bindtextdom.c:300-316 | a binding enqueued at the position found keeps the list sorted |
| TranslationCache.InsertedLookup | intl/bindtextdom.c:300-316 | and changes the lookup of its own domain only |
| TranslationCache.ReboundFields | intl/bindtextdom.c:96-341 | a rebinding replaces the directory and codeset that are given, keeps the others, starts with the default directory and no codeset, and counts a changed codeset |
| Gettext.State.FindBinding | intl/dcigettext.c:485-500 | the early-exit search over the sorted list finds what a search of the whole list finds |
| Gettext.State.InsertPosition | intl/bindtextdom.c:300-316 | everything before the position is smaller and everything after it greater |
| Gettext.State.SetBindingValues | intl/bindtextdom.c:96-341 | the binding gets the directory and codeset that are given and keeps the others; a new one starts with the default directory and no codeset, and none is made by a query; no other binding changes, the values reported are those of the binding, and the counter moves exactly when a binding changed |
| Gettext.State.SetTextDomain | intl/textdomain.c:80-137 | the default domain is set, the empty name standing for "messages", and the counter moves with every call that is not a query |
| Gettext.State.FindTranslation | intl/dcigettext.c:564-686 | the colon-list loop terminates with the first locale that has a translation before "C" or "POSIX", or with none; paths are skipped for a privileged process |
| Gettext.State.SearchLocale | intl/dcigettext.c:617-641 | the catalogue comes first and then its successors in order |
| Gettext.Flushed | intl/bindtextdom.c:337-338 | after the counter has moved no older entry counts |
| Gettext.Remembered | intl/dcigettext.c:643-678 | the entry stored is what a search finds now |
| Gettext.State.DcGettext | intl/dcigettext.c:409-686 | with or without a cache hit: the translation that a search would find now, for a plural call its variant by the rule of its catalogue, and without one msgid2 exactly for a plural call with other than one, msgid1 else |
| Gettext.State.SearchDomain | intl/dcigettext.c:502-562 | the directory of the binding and its codeset decide where the loop over the locales looks |
| GettextLaws.UncachedIff | intl/dcigettext.c:485-686 | a search finds f if and only if f is the first message, in the order of the catalogues, of the first locale before "C" and "POSIX" that has one, paths being skipped for a privileged process, in the directory of the binding |
| GettextLaws.DirectoryIs | intl/dcigettext.c:502-533 | an absolute directory is taken as it is, a relative one is appended to the working directory, and there is none exactly when that is not known |
| GettextLaws.StandIn | intl/dcigettext.c:606-609 | without a translation a plural call gets the one of its two messages that the Germanic rule selects, evaluated as an expression |
| Gettext.State.Run | intl/dcigettext.c:409-686 | over every run of bindings, default domains and lookups, the answers are those of the reference without cache, list or counter |

## Left out

- BlackBox.CCorruptionBlackBox.TransferredData: only for ranges whose part numbers fit 16 bits and whose offsets fit 32 bits; beyond that the source truncates them, which is not modelled. BlackBoxRuns.TransferCoverage and BlackBoxRuns.Conservation are about the same ranges.
- Catalogue.LoadedDomain.LoadSysdep: a reference to a system-dependent segment without a value on this machine (a null pointer in the source) is not modelled, nor a table with fewer empty slots than added strings, on which the source's loop would not end; a lookup of an absent string needs an empty slot, too.
- Catalogue.LoadedDomain.Translation: byte swapping of the file's integers and conversion of the translation to another character set are not modelled.
- PluralEval.Eval: division by zero ends in a result that stands for the signal.
- PluralHeader.ExtractPluralExpression: strstr, isspace and strtoul are modelled by what they return in the C locale.
- Temporaries.InsertingIff: how many temporaries an insertion makes is up to the library; the statements hold for every number from one, and the source makes at least two.
- ListReferences.DeleteSafe: the lock of Safe_Delete is made in place, without a temporary.
- ListRuns.RunGood: of Safe_Delete only what concerns the client list; the other references that it releases count as held elsewhere and are released by operations of their own.
- IdentSessions.CSessions.Run: one credit record and the clients of its user hash.
- PluralDriver.YyParse: error messages, and the release of expressions on error paths.
- ClientList.CClientList.SafeDelete: only what concerns the client list; socket, queues, friend and comment handling, and the deferral to the main thread, are not modelled. Client objects are handles into a map, and an address is its 32-bit conversion with the validity flag.
- ClientList.CClientList.Run: addresses with a nonzero conversion are flagged valid, as every address that the program builds is (src/libs/i2p/CI2PAddress.h:213-224). ClientIndex.DestChangeIff says what an address without the flag would do: it would be indexed and never removed.
- ClientList.CClientList.FindMatchingClient: new multimap entries go behind older ones with the same key.
- RefCount.RunSound: references and clients are handles on an explicit heap; references that the client object itself releases while it is destroyed are separate operations of the run.
- ClientCredits.CClientCredits.AddDownloaded: the 64-bit totals are unbounded numbers; so are the totals of the black box.
- SecureIdent.ScoreBounds: over the reals, with any monotone function in place of the square root.
- SecureIdentRuns.RunAuthentic: signatures are an ideal scheme in place of RSASSA-PKCS1-v1_5 (section 8.2 of RFC 8017): one that verifies was made by the key's holder. Packets that the dispatch turns away before the handshake or from a banned client do not occur in a run; clients without a socket or credit record do nothing.
- SecureIdent.CreateSignature: for a signature of 251 to 255 bytes, modulo 256, the source sends what lies in memory behind its buffer of 250 bytes; these bytes are a parameter of the scheme.
- HonestExchange.HonestExchange: each side asks once per connection, at whose start it owes no signature and has heard none from the other's address; the records may hold challenges of earlier connections, and nothing but the two sides uses them meanwhile. Signatures have 1 to 248 bytes.
- CreditFile.CClientCreditsList.LoadList: the backup copy of the file and the log messages.
- CreditFile.ExpiredIff: not for times before 150 days after the epoch, where the subtraction wraps around.
- Gettext.State.DcGettext: a null msgid, for which the source returns null. The variant of a plural translation is a parameter here; PluralHeader.LookupPlural is what computes it.
- LocaleList.L10nFileList.Make: entries are named by their file names, which are unique in the list.
- Gettext.State.Run: environment, working directory and files do not change, catalogues are an abstract function of directory, locale, category and domain, and the counter does not overflow.
- Running out of memory, locks and threads.
- Key generation, random numbers and the waiting-time functions of the credit records.
- Hello and mule-info packets, tags, and the user interface.
- The list of dead sources, tracked clients and banned clients.
