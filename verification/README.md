# Verified models of the course projects

A Dafny project that models the parts of this repository where an argument is needed to see that the code does what
it is for, and proves what each of them promises. Where a promise does not hold of the code, the project keeps the
code as it is, exhibits an input on which it fails, and proves when it does hold.

Code that works in place is modelled in place: arrays that are swapped in, records that are relinked, streams that are
read and written. Every such method is proved against a specification function or an explicit statement of its new
state, and the theorems are about those. `dafny verify dfyconfig.toml` checks everything.

| files | component |
|---|---|
| `RosterTable`, `RosterSort` | the quicksort of `grades` and the rosters it relinks |
| `ConversionGraph`, `ConversionSearch` | the search for a conversion path in the printer spooler |
| `TransProtocol`, `TransRefs` | committing, aborting and freeing transactions in `xacto` |
| `PacketFraming` | packets over reads and writes that are cut and interrupted |
| `MipsTables`, `MipsWords`, `MipsCodec`, `MipsRoundTrip`, `MipsInstruction`, `MipsStream` | the MIPS assembler and disassembler |
| `Frequencies`, `ScoreTables`, `Moments`, `CourseStats`, `CourseLinks`, `Normalization`, `Interpolation` | the grade statistics |
| `Sequences`, `Bytes` | what several of them share |

**Sorting.** `partition` sends what equals the pivot alternately high and low, and may return `low`: a pass that splits
nothing off. It does so exactly when the pivot is the only minimum of its segment, and then it has rotated the segment
left by one, so that the pivot of the next pass is another student. That is why `sorttable` ends, after at most 3n-2
passes. A roster is a null-terminated list through one of two link fields; sorting it through one leaves every list
through the other as it is.

**Searching.** `look` records a preorder trace, and `backtrack` rebuilds a path from it greedily. Children are looked up
behind the node in the list of types, so a hop counts only if it goes to a type declared later, or straight to the
destination. For that relation the search is complete and the path it reports is simple.

**Transactions.** `TransProtocol` is a state machine whose steps are single reads, loads, stores, P, V and status writes
of one thread per transaction; its theorems are about every reachable state and every continuation. `TransRefs` has the
reference counts and the circular list as the program keeps them, with a book of who holds references beside them.

**Packets.** A stream delivers the outcomes of a schedule: move some bytes, be interrupted, fail. The loops over `read`
and `write`, and the packets on top of them, are proved for every schedule.

**MIPS.** Words are numbers below 2^32, ints are numbers with an explicit wrap-around, the or of bit fields is a
bitwise function. The tables are written out. `encode` and `decode` are functions, and the class with the loops of the
source is proved against them.

**Grades.** Grades are exact reals, and the square root is a parameter: a number that is not negative and whose square
is its argument. `CourseLinks.Statistics` is the whole of `statistics`, from the section rosters and the scores of the
students to the filled records; `Normalization.NormalizeClass` goes on from there.

## Model

| member | source | states |
|---|---|---|
| RosterTable.Partition | grades/src/sort.c:98-121 | splits the segment at low + #less + floor(#equal/2), at most the pivot before, at least the pivot behind; returns low exactly when the pivot is the unique minimum, and has then rotated the segment left by one; nothing outside it changes |
| RosterTable.PassPartitions | grades/src/sort.c:98-121 | the same of the loop as a function, for every table and every comparator that finds the pivot equal to itself |
| RosterTable.GoesHigh | grades/src/sort.c:104-119 | while the pivot is a unique minimum nothing is sent low |
| RosterTable.SplitPoint | grades/src/sort.c:98-121 | the split lies strictly inside unless the pivot is the unique minimum |
| RosterTable.RotationUnsticks | grades/src/sort.c:83-96 | after a pass that returned low the element in the pivot slot is no longer the unique minimum, so the next pass splits |
| RosterTable.SortTable | grades/src/sort.c:83-96 | for every range and every total preorder: terminates, leaves the range a sorted permutation and the rest alone, and calls partition at most 3n-2 times |
| RosterSort.ComparatorsArePreorders | grades/src/sort.c:123-141 | the three comparators are total preorders, which is what sorting needs of them |
| RosterSort.StrCompareIsOrder | grades/src/sort.c:123-133 | strings compare in the order of the dictionary: by the first difference, or as a proper prefix |
| RosterSort.ComparatorsAreOrders | grades/src/sort.c:123-141 | by name: the surname decides, and the given name among equal surnames; by id; by score: the highest first |
| RosterSort.SortedIsInOrder | grades/src/sort.c:123-141 | so nobody in a sorted roster stands in front of somebody who precedes in that order |
| RosterSort.ListIsUnique | grades/src/sort.c:49-52 | a head and a link determine the students of a null-terminated list, so a roster is one sequence |
| RosterSort.SortRoster | grades/src/sort.c:40-77 | a null-terminated list becomes a sorted null-terminated list of the same students; the other link of every student stays |
| RosterSort.SortRosters | grades/src/sort.c:30-38 | sorts the course roster through cnext and every section roster through next; no list loses a student or its place in another list |
| RosterSort.CheckForDups | grades/src/sort.c:143-150 | warns once for every pair of neighbours of the same name |
| RosterSort.SortedDuplicates | grades/src/sort.c:143-150 | in a sorted roster that is the number of students minus the number of different names |
| RosterSort.SortByNameAndCheck | grades/src/main.c:307-308 | sorting by name and then checking leaves all rosters with the same students in the order of names, and warns exactly (students minus different names) times |
| ConversionGraph.SearchReaches | Printer Spooler/src/list.c:166-185 | over all graphs the depth-first search visits dest if and only if a path of declared conversions leads to it whose every hop but the last goes to a type declared later |
| ConversionGraph.ForwardDeclarationsSuffice | Printer Spooler/README.md:437-450 | if all conversions go to types declared later, the search finds a path whenever there is one |
| ConversionGraph.BackwardHopIsMissed | Printer Spooler/src/list.c:179-183 | with b declared before a, the path a, b, c is not found |
| ConversionGraph.BacktrackReaches | Printer Spooler/src/list.c:189-200 | the greedy scan always gets to position 0 of the trace, along declared conversions |
| ConversionGraph.ReversedChain | Printer Spooler/src/list.c:225-231 | reversed, what it found is a simple path from src to dest |
| ConversionSearch.Conversions.AddList | Printer Spooler/src/list.c:8-33 | declares a type at the end of the list, once |
| ConversionSearch.Conversions.AddConv | Printer Spooler/src/list.c:71-120 | declares a conversion between declared types, once; refuses an unknown type, and accepts equal types without effect |
| ConversionSearch.Conversions.Look | Printer Spooler/src/list.c:166-185 | visited flags, queue and loc end as the search function says |
| ConversionSearch.Conversions.Backtrack | Printer Spooler/src/list.c:189-200 | result ends as the scan function says, and loc is -1 again |
| ConversionSearch.Conversions.ReverseResult | Printer Spooler/src/list.c:226-231 | reverses the result in place |
| ConversionSearch.Conversions.BfsBetween | Printer Spooler/src/list.c:208-233 | for different types: a path is reported if and only if there is one in the sense above; it is simple, starts at src, ends at dest, and no array is overrun |
| ConversionSearch.Conversions.Bfs | Printer Spooler/src/list.c:202-237 | the same through the entry point; for equal types it appends src to whatever the last search left |
| ConversionSearch.FoundIffSearchable | Printer Spooler/src/list.c:166-219 | the verdict in terms of type names |
| TransProtocol.DependencyAdded | xacto/src/transaction.c:137-154 | the dependency set grows by the new transaction, but its list stays free of duplicates exactly when that transaction is not its last element |
| TransProtocol.ActionKeeps | xacto/src/transaction.c:129-262 | every step of every thread keeps the invariant and undoes nothing that is decided |
| TransProtocol.RunKeeps | xacto/src/transaction.c:129-262 | so does every run |
| TransProtocol.PassedClosed | xacto/src/transaction.c:194-220 | whoever is past its abort check, still releasing or committed, has only dependencies past theirs, however long the chain |
| TransProtocol.CommittedNeverDependsOnAborted | xacto/src/transaction.c:160-166 | in every reachable state no committed transaction depends, directly or not, on one that has aborted or ever will |
| TransProtocol.AbortPropagates | xacto/src/transaction.c:223-230 | an abort reaches every dependent that finishes |
| TransProtocol.CommitOutcome | xacto/src/transaction.c:160-166 | a finished commit came out aborted if and only if one of its dependencies has aborted, committed if and only if all are past their checks |
| TransProtocol.AbortOutcome | xacto/src/transaction.c:238-262 | a finished abort came out aborted |
| TransProtocol.PostsWhatItRead | xacto/src/transaction.c:202-213 | whether it commits or aborts, a transaction that finishes has posted exactly as often as its waiter count said when it was read, so it leaves a token for every waiter if and only if that was the number of those that came |
| TransProtocol.AbortReleases | xacto/src/transaction.c:247-258 | a reachable state where an aborted transaction has a waiter that came in time, and a run on which that waiter gets through and aborts in turn |
| TransProtocol.ReachableFacts | xacto/src/transaction.c:176-262 | a semaphore holds tokens only once its owner is decided; a status other than pending is final; the crash of aborting a committed transaction is not reached |
| TransProtocol.WaitersReleasedIff | xacto/src/transaction.c:180-215 | the waiters of a finished transaction can all get through if and only if there is a token for each; otherwise as many as have none wait in every continuation; there is never a token too many |
| TransProtocol.WaitersAlwaysReleasedIff | xacto/src/transaction.c:180-215 | in every continuation there is a token for every waiter of a finished transaction, and nobody is stuck, if and only if there is one for each now and nobody who read that it was pending has still to store its count |
| TransProtocol.WakeUpCanBeLost | xacto/src/transaction.c:186-190 | a reachable state where a waiter that came too late waits for ever |
| TransProtocol.WakeUpCanBeTaken | xacto/src/transaction.c:181-190 | a reachable state with a token for the one waiter, three steps after which another has taken it and that waiter waits in every continuation |
| TransProtocol.IncrementCanBeLost | xacto/src/transaction.c:187-189 | a reachable state where two waiters that came in time counted as one, and one of them waits for ever |
| TransRefs.LinkLast | xacto/src/transaction.c:67-70 | a transaction joins the circular list at its end, in both directions |
| TransRefs.Unlink | xacto/src/transaction.c:115-116 | and leaves it from anywhere |
| TransRefs.OperationIsSound | xacto/src/transaction.c:45-158 | each operation keeps every count equal to the number of references: the callers', the versions', the dependency nodes' and those of nodes freed with their dependents |
| TransRefs.DroppedIsSound | xacto/src/transaction.c:99-121 | giving up a reference frees the transaction if and only if no reference is left |
| TransRefs.RunIsSound | xacto/src/transaction.c:45-158 | over every run a transaction is live if and only if it is referred to, and its count is the number of references |
| TransRefs.LostIsNeverFreed | xacto/src/transaction.c:108-113 | a transaction on which a freed one depended is never freed |
| TransRefs.LiveOnlyIfLost | xacto/src/transaction.c:99-121 | a transaction that no caller, version or live dependent refers to is still live if and only if a freed dependent did |
| TransRefs.FirstIsLost | xacto/src/transaction.c:108-113 | a run of six operations after which such a transaction stays with nobody to release it |
| TransRefs.IdsIncrease | xacto/src/transaction.c:57 | the list runs in increasing identifiers until they wrap around |
| TransRefs.TransactionManager.TransCreate | xacto/src/transaction.c:45-74 | a new transaction, last in the list, with the caller's reference; the counts and the list stay right |
| TransRefs.TransactionManager.TransRef | xacto/src/transaction.c:84-90 | one reference more, which is the caller's |
| TransRefs.TransactionManager.TransUnref | xacto/src/transaction.c:99-121 | one less; with the last one the transaction leaves the list |
| TransRefs.TransactionManager.TransAddDependency | xacto/src/transaction.c:129-158 | a node at the end of the list with a reference of its own, unless some node but the last has the same identifier |
| TransRefs.TransactionManager.VersionCreate | xacto/src/data.c:209-225 | a version holds a reference to its creator; without one a transaction is made, whose first reference stays with the caller |
| TransRefs.TransactionManager.VersionDispose | xacto/src/data.c:235-243 | disposing of a version gives its reference back |
| PacketFraming.RioWriten | xacto/src/csapp.c:775-792 | for every schedule: all bytes are written in order, or a call failed and a proper part of them was |
| PacketFraming.RioReadn | xacto/src/csapp.c:749-768 | for every schedule: n bytes, or all there are before the end, arrive in order, or a call failed |
| PacketFraming.SwappedIsNetworkOrder | xacto/src/protocol.c:24-27 | converted fields lie in memory most significant byte first, and converting twice does nothing |
| PacketFraming.WireLayout | xacto/src/protocol.c:21-33 | on the wire a packet is four single bytes, the size and the two times most significant byte first, and the data |
| PacketFraming.ReceivedLayout | xacto/src/protocol.c:55-64 | the header received is read from those places, completed from the caller's storage if it is cut short; without a pointer for it no payload is read |
| PacketFraming.SendPacket | xacto/src/protocol.c:21-37 | header in network order, then as many bytes of data as it says; -1 exactly if a call failed; the caller's header is left converted |
| PacketFraming.RecvPacket | xacto/src/protocol.c:55-78 | what is received, if no call fails, is what the reception function says of the bytes in the stream; the caller's data pointer is written only when a payload arrives |
| PacketFraming.ReceiveSent | xacto/src/protocol.c:21-78 | a packet arrives as it was sent, with the stream left behind it, if and only if it had data exactly when its header announced some |
| PacketFraming.SizeWithoutData | xacto/src/protocol.c:22 | a packet that announces a byte and has none does not |
| PacketFraming.ReceiveAllSent | xacto/src/protocol.c:21-78 | a sequence of packets arrives as it was sent if and only if all of them did so |
| PacketFraming.CutPayloadIsFilled | xacto/src/protocol.c:66-75 | a packet cut off inside its payload is received with zeros for what is missing |
| PacketFraming.PayloadWholeOrRefusedIff | xacto/src/protocol.c:66-75 | cut off anywhere, a payload is refused or arrives as it was sent if and only if none of it is there or all that is missing is zero |
| PacketFraming.CutPayloadArrives | xacto/src/protocol.c:66-75 | a payload 5, 6 cut off after one byte arrives as 5, 0 |
| PacketFraming.Converse | xacto/src/protocol.c:21-78 | sending and then receiving any such sequence, however writes and reads are cut and interrupted, gives it back and leaves nothing on the way |
| MipsRoundTrip.EncodeAccepts | MIPS Convertor/src/hw1.c:564-681 | arguments a word can carry are accepted if and only if the extra field fits them |
| MipsRoundTrip.EncodedLayout | MIPS Convertor/src/hw1.c:588-678 | every accepted argument is in its place in the word, cut off where it is too large: registers in 25:21, 20:16 and 15:11, break codes in 25:6, shift amounts in 10:6, immediates and branch distances in 15:0, jump targets in 25:0 |
| MipsRoundTrip.WorkedExamples | MIPS Convertor/README.md:423-515 | the four worked examples come out as they are written there |
| MipsTables.RowsByKind | MIPS Convertor/src/instr_table.c:43-108 | which arguments, in which order, the instructions of every kind have |
| MipsTables.CodesInRows | MIPS Convertor/src/instr_table.c:13-37 | the codes of all instructions, row by row |
| MipsRoundTrip.BcondConditions | MIPS Convertor/README.md:364-367 | the four conditions of BCOND, and no others |
| MipsRoundTrip.RoundTrip | MIPS Convertor/src/hw1.c:564-681 | what a word can carry is encoded, and decoding at the same address gives back the row and the three arguments |
| MipsRoundTrip.DecodeEncoded | MIPS Convertor/src/hw1.c:703-814 | whatever was encoded is decoded back if and only if a word can carry its arguments |
| MipsRoundTrip.SpilledIsIllegal | MIPS Convertor/src/hw1.c:598-603 | a break code with bit 19 set makes the word illegal |
| MipsRoundTrip.BreakIsLost | MIPS Convertor/src/hw1.c:598-603 | so break 0x80000 is encoded but not decoded back |
| MipsRoundTrip.JumpIsLost | MIPS Convertor/src/hw1.c:625-636 | nor is j 0x100 in the last word of a 256 MB region |
| MipsRoundTrip.BranchNeedsOffset | MIPS Convertor/src/hw1.c:614-620 | with the target itself in the extra field, as the assembler leaves it, a branch is accepted if and only if target and word offset are equal |
| MipsRoundTrip.BranchRefused | MIPS Convertor/src/main.c:85-95 | so beq $0,$0,4 at address 0 is refused |
| MipsRoundTrip.EncodeDecoded | MIPS Convertor/src/hw1.c:564-681 | re-encoding a decoded word gives it with its unused fields zeroed if and only if no break code spills and the extra field fits |
| MipsRoundTrip.CanonicalMeansTheSame | MIPS Convertor/src/hw1.c:703-814 | that form decodes to the same row and arguments and is its own such form |
| MipsCodec.OpcodeSurvives | MIPS Convertor/src/hw1.c:445-562 | the bits that name an instruction are found again among its arguments |
| MipsCodec.OpcodePartNames | MIPS Convertor/src/hw1.c:445-562 | the bits that name an instruction are the opcode part of its word |
| MipsInstruction.Instruction.FindBcond | MIPS Convertor/src/hw1.c:535-562 | puts BCOND and the condition into the value |
| MipsInstruction.Instruction.Encode | MIPS Convertor/src/hw1.c:564-681 | accepts what the encoding function accepts, with its value; what is refused half way leaves the bits gathered so far |
| MipsInstruction.Instruction.Decode | MIPS Convertor/src/hw1.c:703-814 | row and arguments as the decoding function says |
| MipsStream.BigEndianReverses | MIPS Convertor/src/hw1.c:25-51 | the four masks and shifts reverse the bytes, and doing it twice does nothing |
| MipsStream.DisassembleAssembled | MIPS Convertor/src/main.c:31-110 | disassembling what was assembled gives back the program at the same addresses, for every base address and either byte order, if and only if every instruction survives at its address |
| MipsStream.AssemblesIff | MIPS Convertor/src/main.c:58-109 | the assembler accepts a program if and only if it accepts the arguments on every line and every line finds those it does not have unused, or zero, on the line before |
| MipsStream.LineAccepted | MIPS Convertor/src/hw1.c:588-681 | the same of one line after any other |
| MipsStream.LeftOverIsRefused | MIPS Convertor/src/hw1.c:673-675 | jr $1 is accepted at the start and refused after add $1,$2,$3 |
| MipsStream.ListingRoundTrip | MIPS Convertor/src/main.c:31-110 | so a program goes through the assembler and back if and only if, besides, a word can carry its arguments |
| MipsStream.AssembleAll | MIPS Convertor/src/main.c:58-109 | the loop over parsed lines, with address stepping, byte order, and the extra field and the arguments that stay from line to line, as a function |
| MipsStream.AssembleByIndex | MIPS Convertor/src/main.c:58-109 | word k of the output is line k encoded at base + 4k, in the byte order asked for; output ends before the first line that is refused there, or that finds something left over, and the assembler fails if and only if there is one |
| MipsStream.DisassembleAll | MIPS Convertor/src/main.c:38-52 | the loop over words, likewise |
| MipsStream.DisassembleByIndex | MIPS Convertor/src/main.c:38-52 | instruction k is word k, in the byte order asked for, decoded at base + 4k; there are as many as words, or as come before the first word that is not decoded there, and only then it fails |
| MipsStream.Emit | MIPS Convertor/src/main.c:95-103 | the four bytes of a word, swapped or not |
| Frequencies.TallyAllContents | grades/src/stats.c:158-201 | tallying scores in any order gives a strictly increasing table of exactly those scores |
| Frequencies.TableIsUnique | grades/src/stats.c:158-201 | a table is determined by its contents |
| Frequencies.RankIsBelow | grades/src/stats.c:208-230 | the counts before a bucket are the scores below any value that falls there |
| ScoreTables.CountScore | grades/src/stats.c:158-201 | the list of buckets becomes the one the tally function says, in place, whichever of the four insertions it takes |
| ScoreTables.FillQuantiles | grades/src/stats.c:208-230 | every bucket gets its two ranks, and nothing else changes |
| ScoreTables.RanksCount | grades/src/stats.c:208-230 | which are the scores below it, and those together with the scores equal to it |
| ScoreTables.LookUpQuantile | grades/src/normal.c:125-161 | the loop, with n replaced by 1 when nothing was tallied |
| ScoreTables.QuantileIsPercentage | grades/src/normal.c:146-161 | for a class that is not empty the look-up gives 100 times the scores below s over n if and only if somebody scored at least s; above the top it gives 1 |
| ScoreTables.QuantileAboveTopFails | grades/src/normal.c:163-164 | with one score of 50, the look-up of 60 gives 1 where 100 percent are below |
| ScoreTables.BetweenBuckets | grades/src/normal.c:146-161 | a score between two tallied ones gets more than the percentage of the lower one |
| ScoreTables.LowerBucketIff | grades/src/normal.c:146-163 | a score that was not tallied gets the percentage of the greatest tallied score below it if and only if it is above the top and that percentage is 1 |
| ScoreTables.LowerBucketMissed | grades/src/normal.c:146-161 | with the scores 10 and 20, 15 does not get the percentage of 10 |
| ScoreTables.TalliedQuantileRange | grades/src/normal.c:52-57 | a tallied score has a quantile of at least 0 and less than 100, so the last return is not reached for it |
| ScoreTables.QuantileKeepsOrder | grades/src/normal.c:146-161 | quantiles rank tallied scores as the raw scores do |
| Moments.ResidualIsSpread | grades/src/stats.c:318-323 | sumsq - sum*sum/n is the spread about the mean, so never negative |
| Moments.VarianceIsPositive | grades/src/stats.c:318-323 | so the square root is never taken of a negative number |
| Moments.SpreadIsPositive | grades/src/stats.c:318-323 | and it is zero exactly when all scores are the same |
| Moments.SumOfPermutation | grades/src/stats.c:242-273 | sums do not depend on the order of the scores |
| Moments.LinearNormalization | grades/src/normal.c:102-109 | two or more scores come out of LINEAR with exactly the requested mean, and with exactly the requested variance if and only if their deviation was not replaced or none is requested |
| Moments.EqualScoresHaveNoDeviation | grades/src/normal.c:104-108 | two equal scores come out without the deviation that is requested |
| CourseStats.DoFreqs | grades/src/stats.c:136-150 | every counted score enters the table of its class and of its section, in buckets no two tables share |
| CourseStats.DoQuantiles | grades/src/stats.c:208-230 | the tables of all classes and sections are ranked |
| CourseStats.DoSums | grades/src/stats.c:242-273 | valid, sum and sumsq of every record are those of its grades; a class has their range; a section has its first grade for both bounds |
| CourseStats.SectionRangeIff | grades/src/stats.c:259-264 | so a section has the range of its grades if and only if they are all the same |
| CourseStats.SectionRangeFails | grades/src/stats.c:259-264 | it does not have it with the grades 1 and 2 |
| CourseStats.DoMoments | grades/src/stats.c:280-316 | mean and deviation of every record follow from its sums, with the cases of none and one |
| CourseStats.MomentsAre | grades/src/stats.c:280-323 | the mean times the number is the sum; the square of the deviation times one less than the number is the spread about the mean; no deviation with one grade or none |
| CourseStats.SpreadOfTwo | grades/src/stats.c:318-323 | for two grades that spread is half the square of their distance |
| CourseStats.GivenIsGrades | grades/src/stats.c:136-150 | a record is given exactly the counted grades linked to it |
| CourseStats.ClassTotals | grades/src/stats.c:136-150 | number, sum and sum of squares of a class are the totals over its sections, and its table is the table of their pooled grades |
| CourseStats.RangeIsTable | grades/src/stats.c:253-258 | class min and max are the first and the last bucket |
| CourseLinks.BuildStats | grades/src/stats.c:33-78 | a blank record for every assignment and for every section of it, all of them different |
| CourseLinks.LinkStudent | grades/src/stats.c:105-114 | one student is linked behind the one before; in a later pass the last student points to the first until it is reached again |
| CourseLinks.DoLinks | grades/src/stats.c:91-124 | with an assignment or more the course roster is the null-terminated concatenation of the section rosters, although it is relinked once per assignment; every score points to the records of its own assignment and of its student's section; the section rosters stay |
| CourseLinks.RecordsHoldAssignments | grades/src/stats.c:115-120 | then the sections of a class hold exactly its scores, and its grades are the counted ones of its assignment |
| CourseLinks.GradesForNext | grades/src/stats.c:142 | the grades that count for an assignment are those of its scores that are valid or to be used raw, in order |
| CourseLinks.Statistics | grades/src/stats.c:18-31 | from the section rosters and the scores alone: the scores of all students in the order of the section rosters are linked, and every class record has the table, ranks, sums, moments and range of the counted grades of its assignment among just those, agrees with the totals of its sections, and valid equals tallied; every section record those of its own |
| Normalization.Normal | grades/src/normal.c:92-165 | one score under each policy and grouping; at most the deviation or the maximum that it divides by is replaced, and that does not change what any score becomes |
| Normalization.LinearGroup | grades/src/normal.c:98-117 | the LINEAR theorem for the scores and the record of a group |
| Normalization.QuantileGroup | grades/src/normal.c:125-161 | the QUANTILE theorem for the scores and the table of a group |
| Normalization.RawGroup | grades/src/normal.c:99-100 | RAW leaves the scores of a group as they are |
| Normalization.ScaleGroup | grades/src/normal.c:118-124 | under SCALE every score times the declared maximum is the raw score times the scale, and the maximum becomes the scale; a maximum that is too small counts as 0.000002 |
| Normalization.LinearGroupAt | grades/src/normal.c:101-117 | under LINEAR the distances from the mean become proportional, in the ratio of the deviations; one that is too small counts as 0.000002 |
| Normalization.NormalizeClass | grades/src/normal.c:27-57 | normalizing the counted scores of an assignment by the class, as linked and accumulated above: every grade becomes what its policy says of it; mean and deviation under LINEAR, the percentage below it under QUANTILE |
| Interpolation.InterpolateQuantile | grades/src/report.c:76-103 | the loop finds the score the search function says, for every q |
| Interpolation.InterpolatedIsLinear | grades/src/report.c:84-102 | between the quantiles of two neighbouring buckets the score rises in proportion to the quantile; from that of the last but one on it is the top score |
| Interpolation.InterpolatedIsMonotone | grades/src/report.c:76-103 | it does not fall as q rises from 0, and lies between the first and the last bucket; for a negative q it is the last |
| Interpolation.InterpolationInvertsQuantile | grades/src/report.c:84-95 | at the quantile of a tallied score it gives the score back if and only if that is not the last but one of the different scores |
| Interpolation.InterpolationJumps | grades/src/report.c:93-95 | with the scores 1 and 2 it gives 2 for the quantile of 1 |
| Interpolation.SummarizeQuantiles | grades/src/report.c:108-140 | the five scores and their ratios |
| Interpolation.RatiosAreOrdered | grades/src/report.c:118-131 | every ratio is the part of the range that lies below the score, between 0 and 1; they do not fall, the first is 0 and the last is 1, and there are ratios exactly when the two ends differ |

## Findings

What the code or its documentation promises and does not keep. Each line names the lemma with the input, and the one
that says exactly when the promise is kept.

- Any conversion path is found (`Printer Spooler/README.md:437-450`): fails in `ConversionGraph.BackwardHopIsMissed`, because line 181 of `list.c` looks children up from the node and not from the head of the list; kept exactly for the paths of `ConversionGraph.SearchReaches`, and always under the condition of `ConversionGraph.ForwardDeclarationsSuffice`.
- A transaction occurs at most once in a dependency set (`xacto/include/transaction.h:44-51`): the scan stops before the last node; exact condition in `TransProtocol.DependencyAdded`.
- Every waiter of a finished transaction is woken: fails in `TransProtocol.WakeUpCanBeLost` (the count is read too early), in `TransProtocol.IncrementCanBeLost` (the count is changed under the waiter's lock, so increments are lost) and in `TransProtocol.WakeUpCanBeTaken` (who comes late takes the token of who came in time); exact condition in `TransProtocol.WaitersAlwaysReleasedIff`, and for some continuation in `TransProtocol.WaitersReleasedIff`.
- A transaction that is no longer referred to is freed: dependency nodes are freed without giving their references back; fails in `TransRefs.FirstIsLost`, for ever by `TransRefs.LostIsNeverFreed`; exactly by `TransRefs.LiveOnlyIfLost`.
- A break code of 20 bits is carried (`MIPS Convertor/README.md:306-421`): the sign of bit 19 spills over the opcode; fails in `MipsRoundTrip.BreakIsLost`, exactly by `MipsRoundTrip.DecodeEncoded`.
- A jump is decoded back where it was encoded: the two use the regions of different addresses; fails in `MipsRoundTrip.JumpIsLost`, exactly by `MipsRoundTrip.DecodeEncoded`.
- A line is assembled whatever stands before it: its unused arguments keep the values of the line before, and are checked; fails in `MipsStream.LeftOverIsRefused`, exactly by `MipsStream.AssemblesIff`.
- The assembler accepts branches: it hands the target to an encoder that compares it with the word offset; fails in `MipsRoundTrip.BranchRefused`, exactly by `MipsRoundTrip.BranchNeedsOffset`.
- A payload arrives whole or not at all: fails in `PacketFraming.CutPayloadArrives`, because only a read of nothing counts as an end; exact condition in `PacketFraming.PayloadWholeOrRefusedIff`.
- A packet arrives as it was sent: fails in `PacketFraming.SizeWithoutData`; exact condition in `PacketFraming.ReceiveSent`.
- A section has the least and the greatest of its grades: fails in `CourseStats.SectionRangeFails`, because the branches for later grades write to the class; exact condition in `CourseStats.SectionRangeIff`.
- QUANTILE gives the percentage of the scores below: fails above the top in `ScoreTables.QuantileAboveTopFails`; exact condition in `ScoreTables.QuantileIsPercentage`.
- A score that is not in the table gets the percentage of the greatest one below it (`grades/src/normal.c:146-151`): fails in `ScoreTables.LowerBucketMissed`, because the loop stops at the bucket above; never kept between two tallied scores by `ScoreTables.BetweenBuckets`; exact condition in `ScoreTables.LowerBucketIff`.
- LINEAR gives the requested deviation: fails in `Moments.EqualScoresHaveNoDeviation`; exact condition in `Moments.LinearNormalization`.
- Interpolating at a score's quantile gives the score: fails in `Interpolation.InterpolationJumps`; exact condition in `Interpolation.InterpolationInvertsQuantile`.

## Left out

- `sfmm`, `budmm`, `audible`, `bavarde`, `snarf`, `store.c` of `xacto` and the session handling of the spooler are not part of this model.
- Reading, writing and parsing: option parsing, `sscanf` and `printf` text, the instruction text formats, dumping a course. Instructions and courses come in parsed; a register number that `main.c:77-82` refuses before encoding is refused by the encoder instead.
- Rounding: floating-point numbers are exact reals, and the square root is a parameter whose square is its argument.
- `malloc` failure, mutex and semaphore return codes, debug output, and warnings other than those of `checkfordups`, which are counted.
- Lists that are only walked are sequences: the types and conversions of the spooler, the assignments, sections and scores of a course, the nodes of a dependency list. The lists that are relinked or extended in place (rosters, buckets, transactions) are linked.
- The visited flags of the spooler are kept beside the list of types. Searches are made among at most 128 types, as many as its arrays hold.
- Liveness of commits is not claimed: the lost wake-ups above show why.
- Reference counts are changed in one step, and do not wrap around.
- `write` returning 0 with an old error number, and a header cut off by the end of the stream, are modelled as the code treats them only as far as they arise from the schedules: a call moves at least one byte, is interrupted or fails.
- `normalize` of scores that are not counted: substituted, averaged and composite scores (`normal.c:58-73`, `193-260`).
- (low+high)/2 in `partition` is on unbounded integers.
- TransProtocol.DependencyAdded: dependencies are numbers here, so two transactions never share an identifier; `TransRefs.TransactionManager.TransAddDependency` compares identifiers, which may have wrapped around.
- Normalization.NormalizeClass: normalizes the counted scores of one assignment in roster order, where `normalize` goes student by student through all assignments and builds a list of scores for each.
- CourseLinks.Statistics: the records are a sequence with a sequence of sections each, where the program links them through `next`.
