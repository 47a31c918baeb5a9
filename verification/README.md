# InSight, modelled and proved

InSight reads the debugging symbols and the sources of a Linux kernel, builds a graph of types from
them and inspects memory dumps through it. This project models the parts of it that hold real
algorithms and proves what they guarantee on all inputs, all runs and all schedules:

| module | models |
|---|---|
| `MachineIntegers`, `ExpressionResults`, `ExpressionEvaluation` | values on a tagged 64-bit union and the evaluation of C-like expressions on it, against evaluation by the rules of ISO C99 on a machine with 32-bit `int` and 64-bit `long` |
| `ExpressionTrees`, `Alternatives`, `ExpressionStreams` | expression trees whose nodes carry alternatives: enumerating the choices, and writing trees to and reading them from a stream of bytes |
| `Bytes`, `MuxFrames`, `DeviceMuxers`, `MuxerProtocol` | several channels sharing one byte device: framing, partial writes, arbitrary chunks, and all interleavings of writers and the reader |
| `SymbolScopes`, `SymbolRecords`, `ScopeSettling`, `SymbolVisits` | the stack machine that rebuilds nested symbols from a flat listing by means of sibling offsets (section 2.3 of DWARF Version 4) |
| `WorkerThreads` | any number of threads claiming and parsing files under two locks |
| `Embedding`, `EmbeddingExactness` | whether one typed memory range embeds another, and for which types that is always answered rightly |
| `MemberWalk` | the explicit-stack walk over nested structure members |
| `CodePatching`, `Relocation` | redoing the kernel's patching of its own code, and relocating a module (section 4.4 of the System V AMD64 psABI) |
| `Declarators` | printing types as C declarations (section 6.7.5 of ISO C99), with and without colours |
| `NodeEvaluation` | evaluating syntax nodes along points-to links that may form loops |
| `RuleFiles`, `DumpSlots` | unique file names, and the table of loaded memory dumps |
| `Options`, `Sequences`, `Counting` | optional values, regrouped concatenations, and the pigeonhole principle |

Code that updates fields, buffers, arrays or local variables in loops is modelled by methods with the
same loops and the same branches. Each is proved equal to a specification function (or to a relation
that fixes the whole outcome), and the results below are proved about that function. Concurrency is
modelled by state machines over the steps between lock operations. `dafny verify dfyconfig.toml`
checks the whole project.

## Where the code does not do what it is for

Each of these is proved with the exact condition under which the code is right, and with an input, or
a family of inputs, for which it is not.

- Unary minus and left shifts do not promote 8- and 16-bit operands and differ from C when the result
  does not fit the operand's type; `~` of a negative 64-bit operand comes out unsigned
  (`ExpressionEvaluation.AgreesWithCIff`; `NegationDiffers`, `ShiftDiffers`, `InversionDiffers`).
- `value` hands out more than the target's width when it narrows (`ExpressionResults.ValueExact`;
  `NarrowingKeepsTooMuch`).
- An alternative with the same kind of operator as its node is combined with the node's operands
  instead of its own if there are choices below the node (`Alternatives.ExpansionIsExactIffClean`;
  `OwnAlternativeIsPairedAgain`), and a node with one operand missing vanishes from the list if the other
  has alternatives (`Alternatives.MissingOperandLosesNode`).
- A stream with a variable of a type that the factory does not know cannot be read back
  (`ExpressionStreams.StreamRoundTrip`; `UnknownTypeThrows`).
- `memberAtOffset` answers with the member before an offset that lies in padding. If that member is an
  array, of length zero or not, the offset is taken modulo the element size and a match can be found where
  nothing is stored (`EmbeddingExactness.MisleadingFools`, `PaddingMisleads`). It also answers with one
  member where others start at the same offset or reach over it, as bit-fields do, whose offset is that of
  their storage: of two bit-fields of different types at one offset only the first is found
  (`OnlyFirstBitFieldFound`), and a bit-field may hide part of the structure before it
  (`BitFieldHidesBefore`). A type laid out as in C that has one of the two defects at most is free of wrong
  answers exactly if it is tight, that is, nowhere inside it padding follows an array or a structure of size
  zero, and clear, that is, nothing in it is hidden by another member
  (`EmbeddingExactness.ExactIffTightAndClear`; for members in order, clear means that no two of different
  type share an offset, `Embedding.ClearIffApart`). Two defects may cancel each other (`DefectsMayCancel`),
  and below a union one member may make up for another (`UnionsMayMask`, `UnionsMayShow`). For every type
  and every question, `Embedding.HelperIsPathOrAstray` says what the answer is.
- The walk over nested members ends at the first member whose structure is empty
  (`MemberWalk.VisitsEverythingIff`; `EmptyMemberHidesTheNext`).
- A jump whose target is beyond 32 bits is written cut down (`CodePatching.ImageLeadsToTarget`;
  `FarJumpMisses`).
- A section base is added again on a later pass if adding it the first time overflowed
  (`Relocation.ResolvedTwice`, `BaseAddedOnce`; `OverflowAddsAgain`).
- An array leading to a function type prints its bound twice, the printed name of a function type omits
  every function type but the last it leads to, and a pointer to an array prints as an array of pointers
  (`Declarators.TypeRoundTrip`; `ArrayRepeatsBound`, `FunctionDropsOthers`, `PointerToArrayMisreads`).
  The coloured form of types that lead to functions has none of the first two (`Declarators.ColorRoundTrip`).
- An array index is evaluated without links but on the same stack, so a link from the index to the array
  access raises the error for loops although the syntax has none
  (`NodeEvaluation.SucceedsIffNoDetour`; `IndexMayLoop`).
- A dump that fails to open while no slot is free leaves an additional slot behind
  (`DumpSlots.LengthIsPeakLoadedIff`; `FailedLoadKeepsSlot`).

## Model

| member | source | states |
|---|---|---|
| ExpressionResults.ValueClosedForm | libinsight/expressionresult.cpp:6-90 | the two mutually recursive readers of the union end for every size and target, and yield the operand's value cut to the target if a signed operand meets an unsigned target, and its full 64-bit image otherwise |
| ExpressionResults.ValueEqualsUValue | libinsight/expressionresult.cpp:6-90 | for every integer target the signed and the unsigned reader yield the same 64 bits |
| ExpressionResults.ValueCongruent | libinsight/expressionresult.cpp:6-90 | for every target, narrower ones included, those bits agree with the C conversion of the operand modulo two to the target's width |
| ExpressionResults.ValueExact | libinsight/expressionresult.cpp:6-90 | read as a 64-bit integer they are the C conversion exactly if a signed operand is cut to an unsigned target or the operand's 64-bit image fits the target |
| ExpressionResults.NarrowingKeepsTooMuch | libinsight/expressionresult.cpp:6-30 | the int 300 asked for as a signed byte is handed out as 300, where C gives 44 |
| ExpressionResults.ValueExactWhenWide | libinsight/expressionresult.cpp:6-90 | a wider target, the operand's own type and the unsigned type of its width never lose anything |
| MachineIntegers.BitwiseActsPerBit | libinsight/astexpression.cpp:463-676 | the arithmetic definition of bitwise and, or and exclusive or used in the model acts on each binary digit alone |
| ExpressionEvaluation.StaleBitsDoNotMatter | libinsight/astexpression.cpp:463-676 | a result is determined by the low bits of its reported width, whatever stale bits the union holds above them |
| ExpressionEvaluation.CommonTypeAgrees | libinsight/astexpression.cpp:755-819 | the size computed for two operands is C's common type after integer promotion and the usual arithmetic conversions (sections 6.3.1.1 and 6.3.1.8 of ISO C99) |
| ExpressionEvaluation.LogicalRefines | libinsight/astexpression.cpp:463-676 | logical and, logical or and the six comparisons yield C's value on operands of any width and sign |
| ExpressionEvaluation.ArithmeticRefines | libinsight/astexpression.cpp:463-676 | `+`, `-` and `*` yield C's value modulo the common type's width |
| ExpressionEvaluation.BitwiseRefines | libinsight/astexpression.cpp:463-676 | bitwise and, or and exclusive or yield C's value |
| ExpressionEvaluation.ShiftRefines | libinsight/astexpression.cpp:463-676 | a shift yields C's value exactly under a condition on the left operand's width and value |
| ExpressionEvaluation.NegateRefines | libinsight/astexpression.cpp:838-948 | unary minus yields C's value exactly under a condition on the operand's width and value |
| ExpressionEvaluation.InvertRefines | libinsight/astexpression.cpp:838-948 | `~` yields C's value exactly under a condition on the operand's width and sign |
| ExpressionEvaluation.NotRefines | libinsight/astexpression.cpp:838-948 | `!` yields C's value for every operand |
| ExpressionEvaluation.EvaluationRefinesC | libinsight/astexpression.cpp:463-676 | for every tree of constants, evaluation agrees with C at every node exactly if each shift, minus and complement in it meets its condition |
| ExpressionEvaluation.AgreesWithCIff | libinsight/astexpression.cpp:463-676 | the same with the condition in terms of the tree and of the values C computes: no value outgrows an 8- or 16-bit type that was not promoted, and no negative long is complemented |
| ExpressionEvaluation.NegationDiffers | libinsight/astexpression.cpp:838-948 | minus of a comparison that holds is 255, where C gives -1 |
| ExpressionEvaluation.ShiftDiffers | libinsight/astexpression.cpp:463-676 | a comparison that holds, shifted left by 8, is 0, where C gives 256 |
| ExpressionEvaluation.InversionDiffers | libinsight/astexpression.cpp:838-948 | the complement of the long -1 does not compare greater than -1, where in C it does |
| ExpressionEvaluation.PlainTreesRefineC | libinsight/astexpression.cpp:463-676 | trees of `+`, `-`, `*`, bitwise and logical operators, `!` and comparisons over constants of any width and sign evaluate as in C, without any condition |
| ExpressionEvaluation.DecidableIffClosed | libinsight/astexpression.cpp:463-490 | a result is a constant exactly if every leaf is one and no operand is missing |
| ExpressionEvaluation.FlagsOfResult | libinsight/astexpression.cpp:463-490 | a result carries the flags of all leaves that take part, and is undefined as well if it has operands and is no constant |
| ExpressionEvaluation.UndecidedIsZero | libinsight/astexpression.cpp:463-490 | a binary operator over something that is no constant yields zero |
| Alternatives.ChoicesAreExact | libinsight/astexpression.cpp:50-64 | the specification list holds precisely the alternative-free trees obtained by one choice per node |
| Alternatives.ChoicesCount | libinsight/astexpression.cpp:679-709 | the number of choices multiplies over operands and adds over a node's own alternatives |
| Alternatives.CleanExpandsToChoices | libinsight/astexpression.cpp:679-709 | if no operator node above alternatives has an own alternative of its operator class, expansion yields the specification list, in order |
| Alternatives.ExpandGrows | libinsight/astexpression.cpp:951-976 | expansion never yields fewer trees than there are choices, and more if the tree is not of that form |
| Alternatives.ExpansionIsExactIffClean | libinsight/astexpression.cpp:679-709 | expansion yields precisely the choices exactly for trees of that form |
| Alternatives.BinaryMembers | libinsight/astexpression.cpp:679-709 | what any complete binary node expands to, clean or not: without choices below it, itself and its alternatives; else every binary operator among them with every pair of operands, and its other alternatives |
| Alternatives.UnaryMembers | libinsight/astexpression.cpp:951-976 | the same for unary nodes |
| Alternatives.OwnAlternativeIsPairedAgain | libinsight/astexpression.cpp:679-709 | a complete tree whose expansion is not the list of its choices |
| Alternatives.MissingOperandLosesNode | libinsight/astexpression.cpp:679-709 | a binary node expands to nothing exactly if one operand is missing and the other has alternatives |
| Alternatives.ExpandAlternatives | libinsight/astexpression.cpp:50-64 | the loop over a node's chain of alternatives computes the expansion |
| Alternatives.ExpandBinary | libinsight/astexpression.cpp:679-709 | the nested loops over both operands' expansions compute the expansion of a binary node |
| Alternatives.ExpandUnary | libinsight/astexpression.cpp:951-976 | the loop over the operand's expansion computes the expansion of a unary node |
| ExpressionStreams.ValueRoundTrip | libinsight/expressionresult.cpp:160-177 | size, kind and raw bits of a result are read back as written, and what follows is left alone |
| ExpressionStreams.StringRoundTrip | libcparser/src/astsymbol.cpp:38-57 | strings of member names are read back as written, null strings included |
| ExpressionStreams.TransformationsRoundTrip | libcparser/src/astsymbol.cpp:38-57 | lists of transformations of any length are read back as written |
| ExpressionStreams.Int32IsBig | libinsight/astexpression.cpp:67-105 | numbers are stored with the highest byte first, negative ones in two's complement |
| ExpressionStreams.TypeNumbers | libinsight/include/insight/astexpression.h:21-54 | the numbers of the node types in a stream |
| ExpressionStreams.OperatorOnTheWire | libinsight/astexpression.cpp:67-105 | a node's type comes first, then its alternatives, then its operands, the left one before the right one |
| ExpressionStreams.ConstantOnTheWire | libinsight/expressionresult.cpp:160-177 | a constant's fields are its size, its kind and its value |
| ExpressionStreams.VariableOnTheWire | libinsight/astexpression.cpp:452-460 | a variable's fields are its type, whether it is global, and its transformations with their number |
| ExpressionStreams.StringsOnTheWire | libcparser/src/astsymbol.cpp:38-57 | a null string differs from an empty one |
| ExpressionStreams.OtherStreams | libinsight/astexpression.cpp:67-96 | a stream that ends reads as a null pointer, and an unknown node type makes reading fail |
| ExpressionStreams.PastTheEnd | libinsight/expressionresult.cpp:160-177 | what is read past the end of a stream is zero |
| ExpressionStreams.PayloadRoundTrip | libinsight/astexpression.cpp:108-134 | constants, enumerators and variables are read back up to the dropped symbol; a variable of an unknown type makes reading fail |
| ExpressionStreams.StreamRoundTrip | libinsight/astexpression.cpp:67-105 | a tree of any shape, with null operands and nested alternatives, is read back and any continuation stays intact, exactly if every type in it is known |
| ExpressionStreams.UnknownTypeThrows | libinsight/astexpression.cpp:437-451 | a variable of a type the factory does not know is written and cannot be read |
| ExpressionStreams.KernelSymbolStream.ToStream | libinsight/astexpression.cpp:99-105 | writing appends exactly the tree's encoding |
| ExpressionStreams.KernelSymbolStream.FromStream | libinsight/astexpression.cpp:81-96 | reading removes from the front what decoding consumes, and yields the decoded tree or an exception |
| MuxFrames.ParseEncode | libinsight/devicemuxer.cpp:55-95 | splitting the encoding of any frames yields these frames and nothing else |
| MuxFrames.ParseSound | libinsight/devicemuxer.cpp:55-95 | whatever bytes arrive, the frames split off and the rest encode to them again, and the rest begins no whole frame |
| MuxFrames.ParseAppend | libinsight/devicemuxer.cpp:55-95 | splitting a stream in two parts at any byte gives the same frames as splitting it whole |
| MuxFrames.ChunksCarryData | libinsight/devicemuxer.cpp:113-151 | the frames of one write carry exactly its data in order on its channel and no other, for data of any length |
| MuxFrames.FrameBytes | libinsight/devicemuxer.cpp:123-133 | a frame is its channel and its length in two bytes each, low byte first, and its payload |
| MuxFrames.ChunksAreFull | libinsight/devicemuxer.cpp:119-151 | all frames of a write but the last carry 65535 bytes, and only a write of nothing sends an empty frame |
| DeviceMuxers.DeviceMuxer.SendFrame | libinsight/devicemuxer.cpp:119-146 | a frame goes out whole however the device cuts it; on an error a proper prefix of it has gone out |
| DeviceMuxers.DeviceMuxer.WriteData | libinsight/devicemuxer.cpp:113-151 | without error the wire gains exactly the frames of the data; after an error it holds whole frames and a proper prefix of the next, and the result counts whole frames' data only, or is the error code if there are none |
| DeviceMuxers.DeviceMuxer.NextFrame | libinsight/devicemuxer.cpp:65-94 | one turn of the receiving loop delivers one frame and keeps buffer, channels and signals in step with what was received |
| DeviceMuxers.DeviceMuxer.HandleReadyRead | libinsight/devicemuxer.cpp:55-95 | the bytes received are split into frames as if they had come in one piece, each payload is appended to its channel, and less than a header stays in the buffer |
| DeviceMuxers.EmittedMeans | libinsight/devicemuxer.cpp:88-90 | a signal is raised for exactly the channels of the frames received |
| DeviceMuxers.DeviceMuxer.ReadData | libinsight/devicemuxer.cpp:98-110 | hands out and removes the longest possible front part of one channel's data and leaves the others alone |
| DeviceMuxers.DeviceMuxer.ReadAll | libinsight/devicemuxer.cpp:160-166 | hands out and removes all of one channel's data |
| MuxerProtocol.WireReceive | libinsight/devicemuxer.cpp:55-95 | any cut of the wire yields whole frames in the order in which they were sent |
| MuxerProtocol.StepInv | libinsight/devicemuxer.cpp:55-151 | every step of a writer or the reader keeps: buffer and wire are the undelivered frames, and each channel has received the payloads delivered to it |
| MuxerProtocol.RunInv | libinsight/devicemuxer.cpp:55-151 | the same over whole runs |
| MuxerProtocol.ChannelReceivesItsWrites | libinsight/devicemuxer.cpp:55-151 | under every interleaving and chunking a channel with one writer has received a prefix of what was written to it, and all of it once the wire is drained |
| MuxerProtocol.EveryWriterIsHeard | libinsight/devicemuxer.cpp:55-151 | whoever shares a channel, each writer's frames go onto the wire in order as the chunks of its calls; the reader has a prefix of all frames sent, and all of them once the wire is drained |
| ScopeSettling.DieSettles | libinsight/kernelsymbolparser.cpp:186-277 | parsing an entry and everything below it leaves the stack as before the entry and hands over what the entry means |
| ScopeSettling.ForestSettles | libinsight/kernelsymbolparser.cpp:186-277 | the same for a list of siblings, from any open stack, with the stack always the chain of open tracked ancestors |
| SymbolVisits.ListingIsVisited | libinsight/kernelsymbolparser.cpp:627-677 | on every well-nested listing the machine hands over exactly what a walk of the tree does, in post-order, and its stack is at every header the chain of still-open tracked ancestors |
| SymbolVisits.ListingBecomes | libinsight/kernelsymbolparser.cpp:186-277 | what a listing hands to the factory, record by record: each entry that is a symbol, once, with the members, parameters, enumerators and bounds below it, an open entry after the ones inside it |
| SymbolVisits.ListingIsHandedOver | libinsight/kernelsymbolparser.cpp:186-277 | the machine hands over exactly that |
| SymbolVisits.VisitEmitsOnce | libinsight/kernelsymbolparser.cpp:186-277 | so each entry that is interesting where it appears, is not given up and is no part of another one reaches the factory once, and no other ever does |
| SymbolRecords.ParsedIsRecord | libinsight/kernelsymbolparser.cpp:280-460 | the record of an entry in terms of its header and parameter lines: the last name, the last sibling offset, the bounds that are not negative, whether it has an absolute location; it is given up for an abstract origin, or as a variable with another location |
| SymbolRecords.ParsedScope | libinsight/kernelsymbolparser.cpp:280-460 | the kind and the sibling offset by which an entry becomes a scope, whether it is given up or not |
| SymbolRecords.EntryBecomes | libinsight/kernelsymbolparser.cpp:199-262 | what reaches the factory of an entry in any scope |
| SymbolRecords.VariableIsHandedOver | libinsight/kernelsymbolparser.cpp:230-232 | a variable is handed over exactly if it has an absolute location and no other, and is not part of inlined code |
| SymbolRecords.FunctionIsHandedOver | libinsight/kernelsymbolparser.cpp:226-228 | a function is handed over, under the name given last, exactly if that is not empty and it is not part of inlined code |
| SymbolRecords.NamelessFunctionIsIgnored | libinsight/kernelsymbolparser.cpp:226-228 | a function for which no name is given is not handed over |
| SymbolRecords.QualifierLosesName | libinsight/kernelsymbolparser.cpp:234-237 | a const or volatile type is handed over without a name |
| SymbolRecords.TypeKeepsName | libinsight/kernelsymbolparser.cpp:230-256 | any other type is handed over under the name given last |
| SymbolVisits.VisitAttachesToNearest | libinsight/kernelsymbolparser.cpp:203-222 | each member, parameter or enumerator is attached to its nearest tracked ancestor, in listing order |
| SymbolVisits.VisitAddsBounds | libinsight/kernelsymbolparser.cpp:204-207 | array bounds are attached to the nearest tracked ancestor, in listing order |
| SymbolVisits.ListingFailsIff | libinsight/kernelsymbolparser.cpp:201-222 | reading a well-nested listing violates the assertion that a sub-entry has a parent exactly if a sub-entry that matters has no tracked ancestor |
| SymbolScopes.FailureStays | libinsight/kernelsymbolparser.cpp:199-277 | a failed assertion is not undone by closing further scopes |
| SymbolScopes.WorkerThread.FinishLastSymbol | libinsight/kernelsymbolparser.cpp:186-277 | the method on the stack of pending infos does what the machine specifies |
| SymbolScopes.WorkerThread.ParseEntry | libinsight/kernelsymbolparser.cpp:627-677 | a header line and its parameter lines do what the machine specifies |
| WorkerThreads.StepInv | libinsight/kernelsymbolparser.cpp:143-183 | every step of every worker keeps the invariant on locks, claims, parses and bytes |
| WorkerThreads.RunInv | libinsight/kernelsymbolparser.cpp:143-183 | the same over whole runs |
| WorkerThreads.ClaimsAreExclusive | libinsight/kernelsymbolparser.cpp:143-183 | in every reachable state a file below the index is claimed by one worker, is parsed at most once, and the byte counter is the size of the finished files |
| WorkerThreads.ClaimIsForever | libinsight/kernelsymbolparser.cpp:143-183 | over every run, a file once claimed is worked on by its claimant and nobody else ever after; no claim is given back, passes to another worker or is taken up again when finished |
| WorkerThreads.NeverDeadlocked | libinsight/kernelsymbolparser.cpp:143-261 | as long as a worker has not left, some worker can take a step, for both locks and any number of workers |
| WorkerThreads.CompletionParsesEverything | insightd/kernelsourceparser.cpp:265-289 | if nobody was interrupted and all workers have left, every file was parsed exactly once and all bytes are counted |
| Embedding.FindMember | libinsight/structured.cpp:208-230 | the scan for the member at an offset does what is specified |
| Embedding.MemberAtCovers | libinsight/structured.cpp:208-230 | if the members follow one another, a scalar's storage excepted, and none of different type share an offset, then a member that covers the offset, and starts there if it is a scalar, is found, or one of its type at its offset is |
| Embedding.ClearIffApart | libinsight/structured.cpp:208-230 | a type whose members follow one another so, at any depth, is clear exactly if no two members of different type that hold something share an offset |
| Embedding.EmbedsHelper | libinsight/basetype.cpp:214-293 | the descent through arrays, structures and unions does what is specified, and ends for every type nesting |
| Embedding.HelperIsPathOrAstray | libinsight/basetype.cpp:214-293 | for every type, however its members lie, and every question, "first embeds second" is answered exactly if a path along members that the scan finds leads to a match, staying inside or going beyond an array or into padding |
| Embedding.PathIsFound | libinsight/basetype.cpp:214-293 | if a path of elements and members leads to a matching type at offset 0, that is the answer for a clear type, one in which the scan finds every member in which something begins at the offset |
| Embedding.FoundIsPath | libinsight/basetype.cpp:214-293 | if that is the answer for a tight type, one in which padding follows no array and no structure of size zero, there is such a path, however members overlap |
| Embedding.HelperIsPath | libinsight/basetype.cpp:214-293 | both directions together, for types that are tight and clear |
| EmbeddingExactness.ExactIffTightAndClear | libinsight/basetype.cpp:214-293 | all questions about a type laid out as in C are answered by the existence of a path exactly if the type is tight and clear; types that are neither, and those with either defect below a union, excepted |
| EmbeddingExactness.PaddingMisleads | libinsight/basetype.cpp:232-235 | for every clear structure with padding after an array, be it of length zero, or after a structure of size zero, some well-formed type is found in the padding to which no path leads |
| EmbeddingExactness.MisleadingFools | libinsight/basetype.cpp:214-293 | so it is for every clear type with such a structure inside, at any depth of elements and members |
| EmbeddingExactness.HiddenIsMissed | libinsight/structured.cpp:208-230 | for every tight structure in which a member hides what begins in another one, a path leads to some well-formed type that is not found |
| EmbeddingExactness.HidingMisses | libinsight/basetype.cpp:214-293 | so it is for every tight type with such a structure inside, at any depth of elements and members |
| EmbeddingExactness.UnionsMayMask | libinsight/basetype.cpp:271-283 | a union that is not tight and still has all questions answered exactly, because one member makes up for another |
| EmbeddingExactness.UnionsMayShow | libinsight/basetype.cpp:271-283 | a union that is not clear and still has all questions answered exactly |
| EmbeddingExactness.DefectsMayCancel | libinsight/basetype.cpp:214-293 | a structure that is neither tight nor clear and has all questions answered exactly: what is hidden is found in the padding instead |
| EmbeddingExactness.StorageMayOverlap | libinsight/structuredmember.cpp:23-36 | the kernel's `gate_struct64`, whose bit-fields share storage that reaches over the next member, has all questions answered exactly |
| EmbeddingExactness.BitFieldHidesBefore | libinsight/structured.cpp:208-230 | a bit-field whose storage begins before the structure in front of it hides that structure's last member |
| EmbeddingExactness.OnlyFirstBitFieldFound | libinsight/structured.cpp:215-222 | of scalar bit-fields that share an offset the first decides the answer, although a path leads to each |
| Embedding.EmbedsMirrors | libinsight/basetype.cpp:160-211 | swapping the arguments mirrors the answer, with one self-call at most |
| Embedding.NoOverlapIsDisjoint | libinsight/instance.cpp:1245-1255 | "no overlap" is answered exactly if no address is in both ranges, which is when `overlaps` says no |
| Embedding.EmbedsIsPathOrAstray | libinsight/basetype.cpp:160-211 | for every type, "first embeds second" is answered exactly if the second range lies properly inside the first and a path along members that the scan finds leads to its type there or goes astray and meets it |
| Embedding.EmbedsIsPath | libinsight/basetype.cpp:160-211 | for types that are tight and clear, exactly if the second range lies properly inside the first and a path leads to its type there |
| Embedding.SameRange | libinsight/basetype.cpp:178-186 | "equal" is answered exactly for one type at one address, and "cover" for two types of one size there |
| Embedding.OverlapMeans | libinsight/basetype.cpp:160-211 | "overlap" is answered exactly if the ranges meet, are not the same, and neither object embeds the other; "second embeds first" exactly if the first lies within the second |
| Embedding.NothingOverlaps | libinsight/basetype.cpp:163-164 | a null type, or one of no size, overlaps with nothing |
| Embedding.PrefixMatches | libinsight/basetype.cpp:244-259 | two different structures match exactly if one begins with all members of the other, and that one has two at least |
| MemberWalk.WalkIsAllPaths | insightd/altreftyperulewriter.cpp:242-273 | the recursive walk that is the specification lists all member paths of a structure, each once, in declaration order |
| MemberWalk.WriteStructDeep | insightd/altreftyperulewriter.cpp:242-273 | the loop visits the recursive walk up to the first member of an empty structure type, with the full path in `members`, and writes a rule for each visited member with alternative types |
| MemberWalk.UntilFirstDeadEnd | insightd/altreftyperulewriter.cpp:242-273 | what is visited is everything up to and including the first member of an empty structure type |
| MemberWalk.RulesAreWritten | insightd/altreftyperulewriter.cpp:246-253 | a rule is written for a visited member exactly if it has alternative types |
| MemberWalk.RulesInOrder | insightd/altreftyperulewriter.cpp:246-253 | and in the order of the visits |
| MemberWalk.TrackEnter | insightd/altreftyperulewriter.cpp:255-260 | entering a nested structure keeps: visits made and visits to come make up the recursive walk |
| MemberWalk.TrackLeave | insightd/altreftyperulewriter.cpp:265-269 | so does leaving one by means of the saved index and the member's owner |
| MemberWalk.VisitsEverythingIff | insightd/altreftyperulewriter.cpp:242-273 | every member path is visited exactly if only the very last one may be of an empty structure type |
| MemberWalk.EmptyMemberHidesTheNext | insightd/altreftyperulewriter.cpp:242-273 | a concrete structure whose second member is not visited |
| CodePatching.NopsDoNothing | libinsight/detect.cpp:75-83 | padding of any length decodes as no-op instructions only |
| CodePatching.AddNops | libinsight/detect.cpp:647-657 | the loop over pieces of at most eight bytes writes exactly that padding |
| CodePatching.ModuleImage.ApplyMcount | libinsight/detect.cpp:1156-1179 | all call sites are padded, in order |
| CodePatching.ModuleImage.ApplyEntry | libinsight/detect.cpp:1239-1265 | every entry of the file's table for one label gets its jump or padding |
| CodePatching.ModuleImage.ApplyJumpEntries | libinsight/detect.cpp:1181-1267 | all labels in memory are applied, and the displacements are noted by the first run that has any |
| CodePatching.ModuleImage.UpdateKernelModule | libinsight/detect.cpp:1530-1562 | the new text is the old one with all patches applied; the pages hold the text followed by zeros, each of full size with its own hash |
| CodePatching.OnlySitesChange | libinsight/detect.cpp:1530-1562 | a byte outside all five-byte sites keeps its value |
| CodePatching.RepatchingForgets | libinsight/detect.cpp:1530-1562 | patching a patched image at the same sites gives what patching the original gives, overlapping sites included |
| CodePatching.KeysKeepSites | libinsight/detect.cpp:1216-1262 | the keys decide what is written, never where |
| CodePatching.HistoryForgotten | libinsight/detect.cpp:1530-1562 | after any history of key changes the image is that of a single run with the latest keys |
| CodePatching.SiteHoldsLast | libinsight/detect.cpp:1239-1265 | where sites coincide or are apart, a site holds what was written there last |
| CodePatching.K8Nops | libinsight/detect.cpp:75-83 | the bytes of the no-op of each length |
| CodePatching.JumpSiteHolds | libinsight/detect.cpp:1239-1263 | at the address of a label less the load address of the text there are five bytes: the no-op if the label's key is zero in memory, otherwise the opcode e9 and, low byte first, the distance from their end to the target modulo 32 bits |
| CodePatching.CallSiteHolds | libinsight/detect.cpp:1156-1179 | at the address of a call site less the load address of the text there is the no-op of five bytes, unless a label that is switched on shares it |
| CodePatching.OtherBytesStay | libinsight/detect.cpp:1530-1562 | a byte whose address no call site and no label that is applied covers is as before |
| CodePatching.JumpIsNoted | libinsight/detect.cpp:1243-1251 | every label that is applied has its displacement noted at its offset |
| CodePatching.OnlyJumpsAreNoted | libinsight/detect.cpp:1243-1251 | and nothing else is noted |
| CodePatching.NotedJumpIsThere | libinsight/detect.cpp:1250-1258 | a displacement noted for an offset is that of the jump found there, if it is not padded |
| CodePatching.JumpLeadsToTarget | libinsight/detect.cpp:1250-1258 | the processor decodes a written jump to its entry's target exactly if that is within reach of 32 bits |
| CodePatching.ImageLeadsToTarget | libinsight/detect.cpp:1250-1263 | so in the updated image, the five bytes at a label whose key is set decode to its target exactly then |
| CodePatching.FarJumpMisses | libinsight/detect.cpp:1250-1258 | a jump over four gigabytes decodes as one to the next instruction |
| Relocation.FindInSystemMap | libinsight/detect.cpp:766-786 | the last map entry of fitting visibility gives the value, and none leaves it alone |
| Relocation.ElfFile.Resolve | libinsight/detect.cpp:740-880 | the symbol of a relocation is resolved in place, and skipped if common, absolute or without an address |
| Relocation.ElfFile.StoreField | libinsight/detect.cpp:882-930 | the value is stored in the width and form of its kind, and judged by whether it fits |
| Relocation.ElfFile.ApplyRelocateAdd | libinsight/detect.cpp:673-938 | the loop over a section's relocations, with its early exit, computes the specified image, symbols and return value |
| Relocation.BaseAddedOnce | libinsight/detect.cpp:874-877 | after any positive number of passes a symbol is offset plus base exactly if the base is zero or the offset is below it and the sum does not overflow |
| Relocation.ResolvedTwice | libinsight/detect.cpp:740-880 | resolving a symbol again changes nothing, exactly if adding the base did not overflow |
| Relocation.OverflowAddsAgain | libinsight/detect.cpp:874-877 | an offset and a base for which each pass gives the symbol another value |
| Relocation.RunSymbols | libinsight/detect.cpp:673-938 | after a run every symbol is as it was or resolved once, and resolved if a relocation mentions it |
| Relocation.PassesResolveOnce | libinsight/detect.cpp:673-938 | the same over any relocation sections in any order, repeated, failed ones included |
| Relocation.RunHolds | libinsight/detect.cpp:673-938 | zero is returned exactly if every relocation that is not skipped is of a known kind and fits, and then each field holds its value |
| Relocation.FieldDecodes | libinsight/detect.cpp:888-904 | a stored 64, 32 or 32S field reads back as the value exactly if the check passes |
| Relocation.RelocatedFields | libinsight/detect.cpp:673-938 | after zero, 64, 32 and 32S fields read as final symbol value plus addend, and relative fields as the distance to it |
| Relocation.ResolvedDenotes | libinsight/detect.cpp:740-880 | the value a symbol is given: that of the symbol table, of the variable or function, of the last visible entry of the system map, or offset plus base of its section |
| Relocation.RelocatedPlaces | libinsight/detect.cpp:882-930 | after zero, the 4 or 8 bytes at every relocation carried out hold the number its kind demands, for the value its symbol has in the symbol table, the map, the program or its section, alternative instructions included |
| Relocation.FinalSymbols | libinsight/detect.cpp:740-880 | and every symbol mentioned has that value in the file |
| Relocation.SucceedsIff | libinsight/detect.cpp:882-938 | zero is returned exactly if every relocation carried out is of a known kind and its value, for 32 and 32S, within range |
| Relocation.OnlyPlacesChange | libinsight/detect.cpp:673-938 | a byte that lies at no relocation carried out is as before |
| Declarators.WrapReads | libinsight/funcpointer.cpp:115-165 | whatever pointers, arrays and functions a name is wrapped in, the text reads as exactly these steps, inside out, in any context |
| Declarators.WrapFollows | libinsight/funcpointer.cpp:115-165 | a step is put around parentheses exactly if it is a function, or an array after a pointer, or a pointer after an array |
| Declarators.PrintedDeclarations | libinsight/variable.cpp:33-46 | three declarations as they are printed |
| Declarators.FuncTextReads | libinsight/funcpointer.cpp:88-169 | what the text of a function type reads as, delegation to returned function types included, or that it cannot be read |
| Declarators.VariableRoundTrip | libinsight/variable.cpp:33-46 | a variable's declaration reads back as its type exactly if only pointers follow the last function type or, without one, no pointer comes before an array |
| Declarators.TypeRoundTrip | libinsight/pointer.cpp:53-71 | when a type prints itself around a name, which types read back |
| Declarators.ArrayRepeatsBound | libinsight/array.cpp:66-79 | an array leading to a function type never reads back: its bound is there twice |
| Declarators.FunctionDropsOthers | libinsight/funcpointer.cpp:69-72 | a function type reads back exactly if it returns nothing but pointers; otherwise as the last function type it leads to |
| Declarators.PointerToArrayMisreads | libinsight/pointer.cpp:53-71 | a pointer to an array prints as an array of pointers |
| Declarators.PrettyName | libinsight/pointer.cpp:53-71 | the virtual functions of pointers, arrays and functions together produce the specified text |
| Declarators.PrettyFuncName | libinsight/funcpointer.cpp:88-169 | so does the loop with its two counters for parentheses |
| Declarators.ColorReadsAlike | libinsight/colorpalette.cpp:415-516 | without its colours, the coloured text of a function type reads as the same declaration, and is the same text if only pointers follow |
| Declarators.ColorReadsAsVariable | libinsight/colorpalette.cpp:279-295 | the coloured name of any type that leads to a function type reads as a variable's declaration |
| Declarators.ColorRoundTrip | libinsight/colorpalette.cpp:279-295 | it reads back exactly if a variable's declaration does |
| Declarators.FuncPointerInColor | libinsight/colorpalette.cpp:415-516 | the loop that prepends and appends parts spells the specified text |
| NodeEvaluation.Evaluator.ExprOfNode | libinsight/astexpressionevaluator.cpp:115-328 | for any graph and links, evaluation ends, keeps the stack free of repetitions and restores it, and yields the specified outcome and cache |
| NodeEvaluation.Evaluator.ExprsOfKids | libinsight/astexpressionevaluator.cpp:1436-1479 | operands are evaluated in order up to the first error, array indices without links |
| NodeEvaluation.ErrorIffLoop | libinsight/astexpressionevaluator.cpp:115-167 | without links, the loop error is raised exactly if some way down from the node comes to a node twice; otherwise the value is the syntax written out |
| NodeEvaluation.LinksAreHarmless | libinsight/astexpressionevaluator.cpp:125-136 | on syntax without loops, and without an array index from which links lead back to the array, no error arises however the links loop, from any stack whose nodes lead to the current one: a revisit is evaluated afresh without links |
| NodeEvaluation.LinkedEvaluationWithoutIndices | libinsight/astexpressionevaluator.cpp:125-136 | on syntax without loops and without array indices, evaluation succeeds whatever the links are |
| NodeEvaluation.SucceedsIffNoDetour | libinsight/astexpressionevaluator.cpp:115-167 | on loop-free syntax evaluation succeeds from every node exactly if no array index contains a node from which links lead back to the array |
| NodeEvaluation.IndexMayLoop | libinsight/astexpressionevaluator.cpp:1455-1466 | a concrete syntax without loops for which the loop error is raised |
| NodeEvaluation.LinkedEval | libinsight/astexpressionevaluator.cpp:162-167 | a value is the syntax written out along the links, whatever a sound cache held before, and the cache stays sound |
| NodeEvaluation.ExpandsUnique | libinsight/astexpressionevaluator.cpp:115-328 | there is one such value at most |
| NodeEvaluation.ValueIsIndependentOfCache | libinsight/astexpressionevaluator.cpp:162-163 | two evaluations with different sound caches that both yield a value yield the same one |
| NodeEvaluation.CacheGrows | libinsight/astexpressionevaluator.cpp:162-328 | an evaluation without links leaves its value in the cache unless the node is a cast; nothing is lost, and no other nodes are added |
| RuleFiles.RuleWriter.UniqueFileName | insightd/altreftyperulewriter.cpp:139-150 | the search ends with the name itself or the first numbered one, which was not written yet |
| RuleFiles.NotAllTaken | insightd/altreftyperulewriter.cpp:139-150 | at most as many numbered names can be taken as files were written |
| RuleFiles.NumberedDistinct | insightd/altreftyperulewriter.cpp:145-148 | different numbers give different names |
| RuleFiles.NumberedIs | insightd/altreftyperulewriter.cpp:145-148 | the number goes between the base name and the suffix, and the path stays |
| RuleFiles.DecimalReads | insightd/altreftyperulewriter.cpp:145-148 | it is written in decimal, without leading zeros |
| RuleFiles.RuleWriter.Write | insightd/altreftyperulewriter.cpp:84-111 | the files recorded in one run are the including file and, in order, one for each symbol with rules, under its own name or the first numbered one not written yet; they are pairwise distinct |
| DumpSlots.KernelSymbols.LoadMemDump | libinsight/kernelsymbols.cpp:261-302 | loading uses the slot the file already has, else the first free one, else a new one |
| DumpSlots.KernelSymbols.UnloadMemDump | libinsight/kernelsymbols.cpp:305-337 | unloading by index or by name frees that slot, or answers with the fitting error code |
| DumpSlots.UnloadsIndex | libinsight/kernelsymbols.cpp:313-334 | unloading a loaded dump by its index answers the index and frees that slot only; any other index is refused with -5 |
| DumpSlots.UnloadsFile | libinsight/kernelsymbols.cpp:318-334 | unloading by name does so for the file's slot; a file that is not loaded is refused with -2 |
| DumpSlots.RefusesLoad | libinsight/kernelsymbols.cpp:263-270 | without symbols or without the file, loading is refused with -1 or -2 and nothing changes |
| DumpSlots.LoadsOnce | libinsight/kernelsymbols.cpp:277-278 | a file that is loaded is answered its slot, and nothing changes |
| DumpSlots.LoadsIntoFirstFree | libinsight/kernelsymbols.cpp:272-302 | any other file goes to the first free slot, else to a new one at the end, and the others stay as they are; if it does not open, at most a free slot is added |
| DumpSlots.RunUnique | libinsight/kernelsymbols.cpp:261-337 | over every run no file occupies two slots |
| DumpSlots.IndexIsStable | libinsight/kernelsymbols.cpp:261-337 | over every run a dump keeps its index until it is unloaded, and loading its file again answers that index |
| DumpSlots.LengthIsPeakLoadedIff | libinsight/kernelsymbols.cpp:272-288 | over every run the table is as long as the largest number of dumps ever loaded at once, exactly if every full table on which a load fails to open is outgrown by loaded dumps at some time |
| DumpSlots.LengthIsPeakIfAllOpen | libinsight/kernelsymbols.cpp:272-288 | so it is if every file that is found opens |
| DumpSlots.FailedLoadKeepsSlot | libinsight/kernelsymbols.cpp:282-288 | one load that fails to open leaves a table of length one, with no dump ever loaded |
| DumpSlots.LengthIsPeak | libinsight/kernelsymbols.cpp:272-288 | over every run the table is as long as the largest number of dumps loaded, or being loaded, at once |

## Left out

- ExpressionEvaluation.EvaluationRefinesC: `/`, `%`, `++`, `--`, floating point and dereferences have no node in the model; a shift count is taken modulo 64, as the machine does, where C leaves it undefined.
- ExpressionEvaluation.PlainTreesRefineC: signed overflow, undefined in C, is taken as wrap-around.
- Alternatives.ExpandAlternatives: trees are values, so the sharing of nodes between the list and the tree is not modelled.
- ExpressionStreams.StreamRoundTrip: the newest stream version only; equality is up to the symbol behind an enumerator, which is not written.
- DeviceMuxers.DeviceMuxer.HandleReadyRead: calls that come back into the muxer while it waits for events are not modelled; the device eventually supplies the rest of a begun frame.
- DeviceMuxers.DeviceMuxer.WriteData: the device's answers are a finite script after which it accepts everything, so a device that accepts nothing forever is not modelled.
- SymbolVisits.ListingIsHandedOver: the final flush at the end of a file, the reading of a line's text, and the names of segments are not modelled.
- WorkerThreads.NeverDeadlocked: the parser's use of the factory lock is any number of short critical sections; fairness of the scheduler is not assumed, so nothing is said about when a worker comes to its turn.
- Embedding.HelperIsPath: equality of types stands for the comparison of kind, size, name and hash, so colliding hashes are not modelled; members lie inside their structure and the first one at offset 0.
- EmbeddingExactness.ExactIffTightAndClear: a type that is neither tight nor clear is excepted, since DefectsMayCancel shows that one defect may undo the other, and so are unions with a defect inside, since UnionsMayMask and UnionsMayShow show that their other members may make up for it; for all of these HelperIsPathOrAstray still says which answers are wrong.
- MemberWalk.WriteStructDeep: opening the file, the text of a rule and the typedef naming an anonymous structure are not modelled; structures are numbered with the nested one first, which is possible exactly if nesting by value is finite.
- CodePatching.ModuleImage.UpdateKernelModule: finding sections in a file and reading memory are parameters; sites lie inside the image, as the original assumes.
- CodePatching.JumpSiteHolds: a jump site occurs once in the file's table and once in memory; SiteHoldsLast covers the other cases.
- Relocation.ElfFile.ApplyRelocateAdd: the symbol table and the fields lie apart in the file; where an undefined symbol is found, and sections' addresses, are parameters.
- Relocation.RelocatedPlaces: places of one section do not overlap, and adding a base does not overflow; a relative field among alternative instructions is stated for symbols with a section of their own, since for any other symbol the original uses whatever section an earlier one had.
- Declarators.VariableRoundTrip: texts are sequences of tokens, parameter lists are opaque, names are not empty; qualifiers and typedefs are not modelled.
- NodeEvaluation.Evaluator.ExprOfNode: which operands a conditional evaluates, errors other than loops, and changes to expressions shared through the cache are not modelled.
- RuleFiles.RuleWriter.UniqueFileName: directories and names are taken as already cleaned.
- DumpSlots.KernelSymbols.UnloadMemDump: a file whose name reads as a number can only be unloaded by index, which is a matter of reading the argument and not modelled.
- Shell, scripting, table printing, sockets, files and XML, memory maps and their windows.
- Type hashes, magic numbers, paravirtualization, alternative instructions, locks patched for one processor, and the checking of pages against whitelists.
- 32-bit ELF files, for which the original has no code either.
