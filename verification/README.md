# Verified models of the minc+ compiler

minc+ compiles a C-like language. This project models the parts of it whose correctness is not
visible from one function at a time, and proves what those parts are for.

* **From tokens to a lowered tree.** A parser writes a flat list of events; `forwardParent` links let a
  node adopt an earlier one without moving it. A builder turns the list and the raw tokens into a green
  tree that keeps every byte. Lowering flattens that tree into a node array and a slot array, drops
  trivia, recomputes spans, marks error regions, stops at a node budget and summarises the file-scope
  items. `ParserEvents`, `TreeBuilder`, `TreeBuilding`, `TreeText`, `TreeTrivia`, `AstTree`, `AstNodes`,
  `AstArrays`, `AstReaders`, `AstItems`, `AstSignatures`, `AstLowering`, `AstEdits`, `AstBodies` and
  `TriviaBlind` follow a file the whole way: `AstNodes` says what each record of the array stands for in the
  written file and `AstSignatures` what each item says of it; `Origins` is the table that maps a range of the
  text back to where it was written.
* **The hash-consed type store.** `TypeShapes` has types as trees with their layout, offsets and
  substitution; `TypeTable` has the store's records and what they unfold to; `TypeInterning` has what
  appending keeps; `TypeSubstitution` states substitution on trees and `TypeArguments` which argument goes
  where; `TypeLayouts` has what a size and an alignment promise; `TypeStore` is the class, with any hash
  function whatever.
* **The checked build.** `FlowGraph` gives meaning to a graph of blocks while it is being emitted,
  `Guards` gives the obligations of an access and the meaning of statements, `CheckedMeaning` tells that
  meaning in arithmetic and in plain sequences of accesses, and `CheckedBuild` is the emitter, with any
  constant folder that never answers wrongly.
* **Driver and preprocessor.** `CommandWords` (the response-file tokenizer and the command printer), `WordGrammar`
  (what the tokenizer reads, piece by piece), `ResponseFiles` (the expander), `Suggest` (edit distance), `CoercionIndex`, `Conditionals` and
  `ConditionalNesting`, `ErrorLimit`, `HelpRender` and `Rotate`.

Code that changes things step by step is a class or a method with loops here, proved against a
specification function or a semantic predicate; the properties are then lemmas about that
specification. `MachineWords` has the number ranges and shared arithmetic; `Syntax` has token and node
kinds and green trees.

## Where the code and its comments differ

Each of these comes with the exact condition as a lemma; for the last one a condition under which the
property holds, and a bound for every input.

* The pass that lowers and the finished file find a binding's value by "the same rule"; one takes the
  first candidate and the other the last. They agree exactly when there is at most one
  (`AstReaders.InitializerReadersAgree`), and differ on a binding with two (`AstReaders.ReadersDiffer`).
  `parseBinding` (src/parse/statement.cc) writes at most one, so no parse reaches the difference.
* A signature "stops where the body begins, so a body edit cannot change it". Compared spans are
  absolute: the edited declaration keeps its signature exactly when the new body's significant bytes begin
  where the old one's did (`AstBodies.OwnSignatureStaysExactlyWhenBodyBegins`), and a later declaration exactly
  when the bytes before it are as many as before (`AstEdits.LaterItemsStayExactlyWhenBytesDo`).
* `Marker::abandon` drops a node. On a marker made by `precede` it does not: the chain still opens a node
  at the spent slot. A file's events give a tree exactly when the stream suffices and no such marker was
  abandoned (`TreeBuilder.AbandonedAdopterIsRefused`). No file under src/ calls `abandon`, so this is about
  the protocol and not about a parse that can be reached.
* `arrayOf` refuses a count of zero. It accepts one when the element's width is not known yet
  (`TypeSubstitution.ZeroCountSlipsThrough`).
* `substitute` gives back unchanged a type that mentions no parameter of the declaration. It does so
  exactly when no part of the type was built on a missing type; otherwise it answers with no type
  (`TypeSubstitution.SubstituteUnmentioned`, `TypeSubstitution.PointerToNothingIsLost`).
* The alignment test is the alignment rule for every address exactly when the alignment is a power of
  two, and one unsigned comparison covers both ends of the range exactly when the extent is at most 2^63
  (`Guards.AlignmentTestIsExact`, `Guards.BoundsTestIsExact`).
* The printed command line is read back as the command exactly when no unquoted word holds a line break,
  form feed or vertical tab (`CommandWords.PrintedLineReadsBack`, `CommandWords.LostWord`).
* The overflow test of `-ferror-limit` passes a step that wraps exactly when nine times the accumulator and
  the digit make up for the loss (`ErrorLimit.WrapPassesExactlyWhen`), which a three and nineteen zeros
  reach (`ErrorLimit.AWrapIsMissed`). The digits accepted are exactly those whose value modulo 2^64 never
  falls, and no wrong limit gets through (`ErrorLimit.ParseErrorLimit`).
* The edit distance is said to fall short of the full Damerau-Levenshtein distance only on strings with
  several overlapping transpositions. One transposition is enough: `ca` becomes `ac` and then `abc` in two
  single edits, and the distance is three (`Suggest.NoTriangle`). A detour is never shorter when neither leg
  has adjacent characters to exchange, and never shorter than half (`Suggest.Detours`).

## Model

| member | source | states |
|---|---|---|
| ParserEvents.Parser.StartNode | src/parse/parser.cc:15-60 | starting a node reserves one tombstone at the end of the list, and the marker names it |
| ParserEvents.Parser.Complete | src/parse/parser.cc:20-24 | completing writes the node's kind over its own slot, appends one finish, and moves nothing |
| ParserEvents.Parser.Abandon | src/parse/parser.cc:26-30 | abandoning turns the node's slot back into a tombstone and changes nothing else |
| ParserEvents.Parser.Precede | src/parse/parser.cc:32-38 | adopting links the completed node forward to a new slot at the end, by distance |
| ParserEvents.Parser.Play | include/parse/parser.h:92-136 | whatever tree a parser builds with start, complete, abandon and precede, exactly that tree's flat events are appended, at any position in the list; an adopter may be abandoned |
| ParserEvents.Parser.PlayLinks | src/parse/parser.cc:32-38 | a chain of adopters of any length leaves the links that lead from each node to the next one out |
| TreeBuilder.WalkLinks | src/syntax/builder.cc:80-105 | following the links from a node finds every adopter of its chain, in order, and spends each slot once |
| TreeBuilder.EventsBuildTheTree | src/syntax/builder.cc:22-72 | the flat events of a file, adopters after what they adopt, build the nested tree the markers meant, or none when an adopter was abandoned; the greatest stack is the tree's depth |
| TreeBuilder.AbandonedAdopterIsRefused | src/parse/parser.cc:26-38 | a file's events give a tree exactly when the stream has the tokens they ask for and no adopter was abandoned, at any depth of nesting |
| TreeText.FileTreeIsLossless | src/syntax/builder.cc:112-194 | the tree's text is the whole stream's text in order, whatever the markers were |
| TreeText.AnyListIsLossless | src/syntax/builder.cc:36-72 | whatever list of events comes in, the root holds the whole text exactly when the stack emptied once or there is no text, and otherwise holds none |
| TreeTrivia.SpacingStandsBeforeATokenOfItsNode | src/syntax/builder.cc:144-172 | in every node white space and comments stand directly before a token of that same node; only the root may end in them |
| TreeTrivia.NoSpacingBehindAMissingToken | src/syntax/builder.cc:144-164 | a token the parser inserted stands behind the white space and comments in front of what was found instead, across all nodes |
| TreeBuilding.Builder.HandleStart | src/syntax/builder.cc:80-105 | one pass over the chain spends its slots and opens its nodes from the outside in |
| TreeBuilding.Builder.CloseNode | src/syntax/builder.cc:112-142 | closing hands the node to the one below, and the last node takes everything left in the stream |
| TreeBuilding.Builder.EmitToken | src/syntax/builder.cc:144-194 | trivia goes in first; an inserted token consumes nothing; a token past the end refuses |
| TreeBuilding.Builder.Build | src/syntax/builder.cc:36-72 | the event loop in place refuses exactly the lists the machine refuses and hands over its tree and depth |
| TreeBuilding.BuildSyntaxTree | src/syntax/builder.cc:217-232 | markers, event list and builder together give the nested tree, and its depth is the greatest stack; none comes out when an adopter was abandoned |
| TriviaBlind.FileTreeBare | src/syntax/builder.cc:23-26 | removing the trivia from the stream and removing it from the tree give the same tree, for recovery that inserts no trivia |
| TriviaBlind.SpacingOnlyMovesNodes | src/ast/lower.cc:208-248 | streams with the same significant tokens lower to the same tree up to positions, whatever the node budget |
| Origins.SearchUpperBound | src/ast/lower.cc:37-51 | the binary search on the starts finds the first token that starts behind the offset |
| Origins.CoveringIsTheCoveringToken | src/ast/lower.cc:37-51 | the token before that one is the only one the offset belongs to; an offset in front of every token belongs to the first |
| Origins.FindOrigin | src/ast/lower.cc:24-70 | the two searches and the fallbacks give the origin, for every range |
| Origins.OriginOfRange | src/ast/lower.cc:24-70 | for every range, empty ones included: its own bytes without a stream or where its first token was written nowhere; the least span enclosing every touched token's where they were written one after another in one file; the first token's span across two files |
| AstTree.TakeIsPreOrderPrefix | src/ast/lower.cc:153-174 | the tree kept at a node budget is the first so many nodes of the unlimited pre-order, cut off |
| AstTree.TakeSize | src/ast/lower.cc:153-174 | it has exactly the budget's nodes, or all of them |
| AstTree.TakeWhole | src/ast/lower.cc:153-174 | a tree within the budget is kept whole |
| AstTree.StripIsNeat | src/ast/lower.cc:208-248 | dropping trivia leaves child spans inside their parent's, siblings ordered and disjoint, and the error mark exactly on error nodes and all below them |
| AstTree.TightenIsNeat | src/ast/lower.cc:250-269 | after tightening every interior span is the hull of the surviving children, a childless node is empty, and order and containment still hold |
| AstNodes.StripKeepsElements | src/ast/lower.cc:208-248 | dropping trivia leaves node for node the significant elements, all of them, parents first: each with its kind, a leaf with the bytes of its text, and the name it must have |
| AstNodes.StripCoversText | src/ast/lower.cc:208-218 | before tightening every node covers exactly the bytes of its element |
| AstNodes.NameIsCarried | src/ast/lower.cc:175-191 | a name or path carries the text of its first identifier leaf, or no name without one; an identifier carries its own; every other node none |
| AstNodes.CutStandsForFirst | src/ast/lower.cc:153-174 | whatever the budget, the nodes kept and tightened stand for the first elements of the file |
| AstNodes.RecordsInPreOrder | src/ast/lower.cc:208-248 | record for record, the node array is the tree in pre-order: kind, name, mark and span |
| AstNodes.RecordsStandForFile | src/ast/lower.cc:197-248 | so each record stands for its element of the file, name included, up to the budget |
| AstArrays.DecodeReadsBack | src/ast/lower.cc:219-248 | reading the arrays through first child and child count gives back the tree that was written, kinds, names, marks and spans, in order |
| AstArrays.LayoutShape | src/ast/lower.cc:234-239 | child slices lie inside their subtree's region, point forward, and are pairwise disjoint |
| AstArrays.SlotsArePermutation | src/ast/lower.cc:234-239 | every non-root node fills exactly one slot |
| AstArrays.WholeFile | src/ast/lower.cc:208-248 | a file's arrays decode to its tree, are well formed with disjoint slices, and lose no node |
| AstReaders.ChildOfKind | src/ast/lower.cc:372-381 | the first child of a kind, in the decoded tree's order, or none |
| AstReaders.CountOfKind | src/ast/lower.cc:361-370 | how many children have the kind |
| AstReaders.CountIsSize | src/ast/lower.cc:361-370 | which is the number of positions whose kind passes |
| AstReaders.OneValue | src/ast/lower.cc:342-359 | both readers answer the one child that is no token, name, annotation or pattern |
| AstReaders.BindingInitializer | src/ast/lower.cc:342-359 | the first child of a binding that is no token, name, annotation or pattern |
| AstReaders.InitializerOf | src/ast/ast.cc:71-86 | the last such child |
| AstReaders.InitializerReadersAgree | src/ast/ast.cc:71-86 | the two readers answer alike exactly when a binding has at most one such child |
| AstReaders.ReadersDiffer | src/ast/lower.cc:342-359 | a binding with two values, on which they differ |
| AstItems.CollectItem | src/ast/lower.cc:295-337 | an item read off the arrays is the signature of the decoded declaration, with its own node and body |
| AstItems.CollectItems | src/ast/lower.cc:281-293 | the items are the signatures of the file-scope declarations outside error regions, in order, each naming its own declaration and body among the nodes |
| AstItems.EqualItemsHashEqual | src/ast/lower.cc:92-104 | item lists that compare equal hash equal, for any mixing function, whatever their node indices |
| AstItems.DifferentItemsMixDifferently | src/ast/lower.cc:92-104 | every field that two items are compared by is mixed in: where the mixer can tell different words apart, different items are told apart |
| AstSignatures.NameIsTold | src/ast/lower.cc:295-337 | a declaration's name and name span are those of its first name child as it was written, or none |
| AstSignatures.ParametersAreTold | src/ast/lower.cc:295-337 | a function counts the parameters of its first list and is variadic exactly when that list holds the open end |
| AstSignatures.NoParameters | src/ast/lower.cc:295-337 | anything without such a list has none |
| AstSignatures.BodyIsTold | src/ast/lower.cc:295-337 | static, with a body, and spanning up to it exactly as the written children say |
| AstSignatures.ItemsAreDeclarations | src/ast/lower.cc:276-293 | the items of a file are its written declarations, in order, and none inside an error region |
| AstLowering.Lowerer.PushNode | src/ast/lower.cc:153-174 | a node is appended while there is room; the first refusal is reported once and later ones are silent |
| AstLowering.Lowerer.TightenSpan | src/ast/lower.cc:253-269 | one node's span becomes the hull of the nodes named, its origin follows, and nothing else changes |
| AstLowering.Lowerer.LowerToken | src/ast/lower.cc:197-206 | a leaf is lowered as the tree says, or nothing happens once the budget is spent |
| AstLowering.Lowerer.LowerNode | src/ast/lower.cc:208-248 | the step appends exactly the arrays of the tightened, budget-cut subtree, leaves the open lists as they were and reports the limit when it was crossed here |
| AstLowering.Lowerer.LowerChildren | src/ast/lower.cc:221-232 | the child loop keeps the children lowered so far in place, with their ids in the open list, and may stop once the budget is spent |
| AstLowering.LowerFile | src/ast/lower.cc:122-147 | the arrays decode to the trivia-free file cut at the budget, with disjoint forward slices; record for record they stand for the file's elements, each with its kind, its name and its bytes; the limit is reported over the first element that does not fit, or not at all; the items are the signatures of that tree, each naming its own nodes; a tree deeper than 1024 is refused |
| AstLowering.BudgetReport | src/ast/lower.cc:153-174 | a file within the budget loses nothing and reports nothing; one past it keeps exactly the budget's first nodes and reports once |
| AstLowering.LoweredSpans | src/ast/lower.cc:208-269 | whatever the budget cut, spans are exact, nested, ordered and disjoint, and error marks are inherited |
| AstEdits.ItemTreeSurvivesBodyEdits | include/ast/ast.h:46-102 | replacing bodies by others over the same bytes leaves every signature equal, although nodes move |
| AstBodies.OwnSignatureStaysExactlyWhenBodyBegins | src/ast/lower.cc:295-337 | a declaration whose body is replaced, by one of any kind and width, keeps its signature exactly when the new body's significant bytes begin where the old one's did |
| AstEdits.LaterItemsStayExactlyWhenBytesDo | include/ast/ast.h:51-54 | behind declarations whose signatures stayed equal, a later one stays equal exactly when as many bytes precede it |
| TypeShapes.OffsetsAreALayout | src/sema/type_store.cc:713-768 | members stand in order, aligned, without overlap, inside an object whose size is a multiple of its alignment |
| TypeLayouts.SlotsFollowAligned | src/sema/type_store.cc:132-243 | every object of known width has a size that is a multiple of its alignment, on any target whose 64-bit integer alignment divides eight bytes |
| TypeLayouts.ScalarsFitTheirSlots | src/sema/type_store.cc:146-176 | a whole-byte integer takes exactly its bits, and a float less than one alignment more |
| TypeLayouts.ScalarsAreAligned | src/sema/type_store.cc:146-176 | the alignment is the width's own, or the one the target states for 64-bit integers, 64-bit floats and 80-bit floats |
| TypeLayouts.OnTheDefaultTarget | include/sema/target.h:124-162 | sizes and alignments of the built-in types, a pointer, a slice, an array and a product on the default target |
| TypeLayouts.ElementsAreAligned | src/sema/type_store.cc:188-193 | every element of an array stands aligned inside it |
| TypeLayouts.ArrayIsProduct | src/sema/type_store.cc:188-193 | an array is laid out like the product of as many members |
| TypeLayouts.SliceIsProduct | src/sema/type_store.cc:181-187 | a slice is laid out like a pointer and a pointer-wide integer |
| TypeLayouts.OffsetsAreTight | src/sema/type_store.cc:194-223 | the first member stands at the start and no padding is a whole alignment |
| TypeLayouts.AlignedLikeTheStrictest | src/sema/type_store.cc:194-223 | a product is aligned like its strictest member |
| TypeLayouts.ObjectsAreLaidOut | src/sema/type_store.cc:132-243 | of what can be built exactly the objects have an alignment; the width is unknown exactly while a parameter stands in the object; a known one has between one and 2^64 less one bytes |
| TypeLayouts.ProductsFitExactly | src/sema/type_store.cc:713-747 | the step-by-step test of a product refuses exactly the sizes that are no 64-bit number |
| TypeLayouts.ArraysFitExactly | src/sema/type_store.cc:432-471 | an array is refused exactly when it holds nothing or its size is no 64-bit number |
| TypeLayouts.NodesAreParts | src/sema/type_store.cc:266-285 | the number of nodes is the number of types a walk of the structure meets |
| TypeLayouts.BuiltExactlyWhen | src/sema/type_store.cc:350-402 | a builder gives no type exactly when its rule refuses, the structure is made of more than 65536 types, or it is new and there is no room |
| TypeShapes.SubstLeavesNone | include/sema/type_store.h:207-215 | arguments that cover every binder and mention none leave none behind |
| TypeShapes.SubstIsIdentity | include/sema/type_store.h:209-213 | on a tree that mentions no parameter of the declaration, substitution is the identity |
| TypeArguments.ParameterIsItsArgument | src/sema/type_store.cc:588-595 | a parameter of the declaration becomes the argument at its own position, and every other parameter stays |
| TypeArguments.OwnParametersChangeNothing | include/sema/type_store.h:203-220 | a declaration's own parameters in order as arguments leave every tree unchanged |
| TypeArguments.SubstitutionsCompose | include/sema/type_store.h:203-220 | substituting twice is substituting once, by the first arguments with the second substituted in, when the first cover the binders |
| TypeTable.IdsAreStructure | include/sema/type_store.h:11-14 | in every sound table two ids are equal exactly when the trees they spell are equal, a parameter by its declaration and position only |
| TypeTable.UnfoldStable | include/sema/type_store.h:410-424 | a table that grows changes neither the members nor the tree of a type already in it |
| TypeInterning.SearchFindsTheTree | src/sema/type_store.cc:327-344 | the fields and members the search compares agree exactly when the two types spell the same tree |
| TypeInterning.NoneSpellsIt | src/sema/type_store.cc:365-372 | when nothing filed under the hash matches, nothing in the table spells the tree, whatever the hash |
| TypeInterning.Append | src/sema/type_store.cc:386-401 | appending a record nothing equals keeps the table sound: links backwards, stored size, alignment and node count true of the tree, no two alike |
| TypeInterning.HeldIsBelow | src/sema/type_store.cc:1016-1034 | the stored layout, node count and object answer are those of the tree the id spells |
| TypeStore.TypeStore.constructor | src/sema/type_store.cc:35-89 | the built-in types are registered in order, so each constant id names its type |
| TypeStore.BuiltInIds | include/sema/type.h:230-269 | the constant ids and the order of registration name the same types |
| TypeStore.BuiltInComesBack | include/sema/type.h:225-269 | asking for a built-in type gives its constant, whatever was built since |
| TypeStore.TypeStore.Search | src/sema/type_store.cc:365-372 | the search finds the one id that spells the tree, or there is none |
| TypeStore.TypeStore.NodesOfStructure | src/sema/type_store.cc:266-285 | the number of types a structure would be made of, saturated one past the bound |
| TypeStore.TypeStore.TupleSize | src/sema/type_store.cc:713-747 | a padded size exactly when every step of the layout fits 64 bits, and then the layout's size |
| TypeStore.TypeStore.ArraySize | src/sema/type_store.cc:432-447 | the product exactly when the element is an object with bytes, the count is positive and the product fits |
| TypeStore.TypeStore.LayoutOfRecord | src/sema/type_store.cc:132-243 | the layout computed from the children, in 64-bit arithmetic, is the layout of the tree |
| TypeStore.TypeStore.InternSequence | src/sema/type_store.cc:350-402 | refused past the size bound, answered with the one id that spells the tree when there is one, otherwise a new id or none at the budget; earlier types never change |
| TypeStore.TypeStore.SignedInt | src/sema/type_store.cc:404-410 | interns the signed integer of the width, under the promise above |
| TypeStore.TypeStore.UnsignedInt | src/sema/type_store.cc:411-417 | interns the unsigned integer of the width |
| TypeStore.TypeStore.FloatOf | src/sema/type_store.cc:418-423 | interns the float of the width |
| TypeStore.TypeStore.BuildPointer | src/sema/type_store.cc:425-430 | interns the pointer to the type, or to no type |
| TypeStore.TypeStore.BuildArray | src/sema/type_store.cc:449-471 | refuses what has no object or no size that fits, asks nothing of a width not yet known, and interns the rest |
| TypeStore.TypeStore.BuildSlice | src/sema/type_store.cc:473-486 | refuses an element that is no object and interns the rest |
| TypeStore.TypeStore.BuildTuple | src/sema/type_store.cc:673-711 | refuses fewer than two members, a member that is no object, too large a structure and a size that does not fit |
| TypeStore.TypeStore.BuildFunction | src/sema/type_store.cc:651-671 | interns the signature within the size bound, variadic being part of it |
| TypeStore.TypeStore.BuildParam | src/sema/type_store.cc:488-511 | identity is unit, owner and binder; a new parameter keeps the spelling and class it came with |
| TypeStore.TypeStore.MemberOffset | src/sema/type_store.cc:749-768 | the offset the layout gives the member, and 0 for anything that is no member of a product |
| TypeStore.TypeStore.Substitute | src/sema/type_store.cc:575-649 | a valid answer spells the substituted tree; none is given only for a missing part, a structure the builders refuse, or a spent budget; a result the table spells already is answered with nothing interned, budget or not |
| TypeArguments.ParameterComesBack | src/sema/type_store.cc:588-595 | a parameter comes back as its own argument, with nothing interned |
| TypeArguments.OwnParametersComeBack | src/sema/type_store.cc:575-649 | a declaration's own parameters as arguments give back the same id, unless a part of the type is missing |
| TypeArguments.BrokenIsMissing | src/sema/type_store.cc:596-647 | the walk is lost exactly where the substituted tree has a missing part |
| TypeSubstitution.SubstituteRefuses | src/sema/type_store.cc:575-649 | where there is room, or the table spells the result already, no type is given exactly when a part is missing or the builders refuse a part |
| TypeSubstitution.SubstituteMeans | include/sema/type_store.h:203-220 | the answer spells tree substitution, all of it may be built, and covering arguments leave no parameter behind |
| TypeSubstitution.SubstituteUnmentioned | include/sema/type_store.h:209-213 | a type mentioning no parameter comes back unchanged exactly when no part of it is missing, and otherwise no type comes back |
| TypeSubstitution.PointerToNothingIsLost | src/sema/type_store.cc:596-599 | a pointer built on no type is interned and then lost by any substitution |
| TypeSubstitution.ZeroCountSlipsThrough | include/sema/type_store.h:83-89 | an array of zero elements is admitted exactly for an object whose width is unknown |
| TypeSubstitution.BuiltTwice | include/sema/type_store.h:63-70 | asking for the same type again gives the same id and grows nothing, whatever was built between |
| TypeSubstitution.BuiltKeepsTypes | include/sema/type_store.h:410-424 | no builder call changes the tree or the layout of a type already held |
| TypeSubstitution.StoredIsBuildable | src/sema/type_store.cc:449-486 | every part of a stored type obeys its builder's rule and the size bound |
| FlowGraph.OneRun | src/ir/function.cc:254-269 | where a run through the blocks stands is determined by the values of the registers |
| FlowGraph.Emit | src/ir/checks.cc:187-238 | code emitted into an open block moves exactly the runs that stood there, by its effect |
| FlowGraph.Compose | src/ir/function.cc:289-310 | code after code has the effects in sequence |
| FlowGraph.Idle | src/ir/function.cc:302-314 | code emitted into a block no run is in changes no run |
| FlowGraph.ArmTaken | src/ir/stmt.cc:280-325 | an arm a run enters has the arm's effect and leads to the join |
| FlowGraph.ArmSkipped | src/ir/stmt.cc:280-325 | an arm a run does not enter leaves the run where it was |
| Guards.GuardsInOrder | src/ir/checks.cc:240-286 | the three guards in front of an access trap with the first violated rule, in the order null, misaligned, out of bounds, and reach the access exactly when none is violated |
| Guards.AlignmentTestIsExact | src/ir/checks.cc:256-272 | the masked test is the alignment rule for every address exactly when the alignment is a power of two |
| Guards.MaskIsRemainder | src/ir/checks.cc:264-270 | masking with one less than a power of two is the remainder |
| Guards.BoundsTestIsExact | src/ir/checks.cc:273-285 | one unsigned comparison catches a negative index and one past the end, for every index, exactly when the extent is at most 2^63 |
| Guards.MessagesNameTheRule | src/ir/checks.cc:73-103 | two different rules never print the same message for one place |
| Guards.StatementsOnlyStop | src/ir/checks.cc:1-26 | a checked run is the unchecked run, or stops at a trap having done a first part of its accesses |
| CheckedMeaning.CheckedAccessIsSafe | src/ir/checks.cc:240-286 | a checked access is performed exactly when its address is not null, is divisible by the alignment and its index is below the extent; otherwise it traps with the first of the three messages that applies |
| CheckedMeaning.CheckedIndexIsInRange | src/ir/checks.cc:273-285 | with an extent of at most 2^63: exactly when the index, read as a signed number, is at least 0 and below the extent |
| CheckedMeaning.StopsAtTheFirst | src/ir/checks.cc:187-286 | of several accesses those in front of the first unsafe one are performed, in order, and no other |
| CheckedMeaning.AllPerformed | src/ir/checks.cc:187-286 | safe accesses are all performed, in order |
| CheckedMeaning.BlockIsItsStatements | src/ir/function.cc:289-310 | a block means its statements where it stands |
| CheckedMeaning.ConditionIsItsArm | src/ir/stmt.cc:280-325 | a condition means its accesses and then the one arm its value picks |
| CheckedMeaning.NothingBehindReturn | src/ir/stmt.cc:234-278 | nothing behind a return is done |
| CheckedMeaning.ReturnPerformsFirst | src/ir/stmt.cc:234-278 | a return performs the accesses of its value first |
| CheckedMeaning.PerformedTogether | src/ir/function.cc:289-310 | expressions in sequence are their accesses in sequence |
| CheckedBuild.OneObjectPerText | src/ir/checks.cc:105-128 | no two message objects hold the same text |
| CheckedBuild.Lowering.CheckMessageGlobal | src/ir/checks.cc:105-128 | the object printed for a text is that text, made the first time and found again |
| CheckedBuild.Lowering.GuardBranch | src/ir/checks.cc:187-227 | in every run the emitted code traps with the message exactly when the test holds, whatever a sound folder made of the test |
| CheckedBuild.Lowering.GuardAccess | src/ir/checks.cc:240-286 | the guards of an access behave as its rules in order, and an unchecked build emits none |
| CheckedBuild.Lowering.PerformAccess | src/ir/expr.cc:630-698 | guards and access together trap with the first violated rule or perform the access |
| CheckedBuild.Lowering.LowerStatements | src/ir/function.cc:289-310 | the emitted blocks have the statements' meaning in every run, the ones behind a return in a block no run enters |
| CheckedBuild.Lowering.BranchTo | src/ir/function.cc:316-323 | an open block jumps to the join and a finished one is left alone |
| CheckedBuild.Lowering.LowerIf | src/ir/stmt.cc:280-325 | a condition, two arms and a join mean the arm the condition picks |
| CheckedBuild.Lowering.LowerReturn | src/ir/stmt.cc:234-278 | the accesses of the value and then the end of the function |
| CheckedBuild.Lowering.TerminateDangling | src/ir/function.cc:254-269 | every block gets a terminator and no run that ended ends otherwise |
| CheckedBuild.Lowering.DefineBody | src/ir/function.cc:93-252 | a whole body: every block terminated, every run ends as the statements say, and an unchecked build holds no failure edge |
| CommandWords.ReadWords | src/driver/response_file.cc:55-101 | the tokenizer loop gives the words of the text, or an unterminated quote |
| WordGrammar.QuotedWord | src/driver/response_file.cc:65-74 | between two quotes of one kind everything but that quote and a backslash stands for itself, as one word; without the closing quote the text is refused |
| WordGrammar.QuotedPiece | src/driver/response_file.cc:65-79 | the same with escapes inside: a backslash vanishes in front of what it escapes and stays in front of anything else |
| WordGrammar.BareCharacter | src/driver/response_file.cc:90-91 | outside quotes any character but white space and quotes stands for itself, a lone backslash included |
| WordGrammar.BareEscape | src/driver/response_file.cc:46-53 | outside quotes a backslash gives the white space, quote, backslash, `#` or `@` behind it, and in front of anything else both characters stay |
| WordGrammar.SpaceSeparates | src/driver/response_file.cc:81-88 | any run of white space between two texts separates them once: the words of the one and then of the other, for all texts |
| WordGrammar.PiecesJoin | src/driver/response_file.cc:55-101 | two texts that touch without white space join the last word of the one and the first of the other, quoted or not |
| CommandWords.DescribeCommand | src/driver/build_command.cc:81-106 | the printer loop shows each word, quoted where it must be, with one space between |
| WordGrammar.PrintedAsItIs | src/driver/build_command.cc:90-103 | a word is printed as it is exactly when it is not empty and holds no space, tab, quote, backslash, dollar or back quote; otherwise in double quotes with one more character for each double quote and backslash |
| WordGrammar.PrintedBehindASpace | src/driver/build_command.cc:84-89 | each further word is printed behind one space |
| CommandWords.RoundTrip | src/driver/response_file.cc:55-101 | words that survive printing are read back exactly: empty words, quotes and backslashes included |
| CommandWords.ReadsBackTidy | src/driver/response_file.cc:55-101 | whatever is printed reads back without an open quote, as words that all survive |
| CommandWords.PrintedLineReadsBack | src/driver/build_command.cc:81-106 | the printed line is read back as the command exactly when every word needs quotes or holds no vertical white space |
| CommandWords.LostWord | src/driver/build_command.cc:90-91 | a word holding only a line break among plain letters is lost |
| ResponseFiles.Expander.Word | src/driver/response_file.cc:110-128 | one word expands to what the specification says; the chain of open files is as long as the depth, holds no file twice, and is restored |
| ResponseFiles.Expander.File | src/driver/response_file.cc:130-167 | one file expands to what the specification says, refusing a file already open by its identity |
| ResponseFiles.SucceedsExactlyWhen | src/driver/response_file.cc:110-167 | expansion succeeds exactly when on every path of nested words the last is no file word, or a file that opens, is not open already and is at most the sixteenth |
| ResponseFiles.ArgumentFailsFor | src/driver/response_file.cc:110-167 | an argument that fails leads along nested words to the one that failed: `@` alone, the seventeenth on its path, one that names a file already named on the way, one that cannot be read, or one with an open quote, each exactly with its reason |
| ResponseFiles.ExpandedInOrder | src/driver/response_file.cc:157-165 | words are expanded from the first to the last, each in its place, up to a failure |
| ResponseFiles.PlainFileIsItsWords | src/driver/response_file.cc:110-167 | a file whose words name no file stands for its words |
| ResponseFiles.ExpansionIsSplice | include/driver/response_file.h:39-40 | the words collected are a first part of the depth-first splice, and all of it with no file word left when nothing failed |
| ResponseFiles.ExpandResponseFiles | src/driver/response_file.cc:171-200 | the program name as it came, null elements skipped, and at the first failing argument it and the rest kept unexpanded |
| ResponseFiles.LineExpands | src/driver/response_file.cc:171-200 | a line expands exactly when all paths from all arguments end well, and is then the program name and the splice, with no file word behind it |
| ResponseFiles.LineFailsFor | src/driver/response_file.cc:171-200 | a line that fails gives the failure of one of its arguments, found as above |
| Suggest.EditDistance | src/driver/suggest.cc:10-52 | three reused rows compute the recurrence |
| Suggest.DistanceIsOptimal | src/driver/suggest.cc:10-52 | some edit script of inserts, deletes, substitutions and adjacent swaps costs the distance and none costs less |
| Suggest.DistanceLaws | src/driver/suggest.cc:10-52 | the distance is symmetric, zero exactly between equal strings, and between the difference and the greater of the lengths |
| Suggest.Detours | src/driver/suggest.cc:10-52 | a detour over a third string is never shorter where neither leg has adjacent characters to exchange, and never shorter than half for any three strings |
| Suggest.NoTriangle | src/driver/suggest.cc:11-15 | one exchange and one insertion lead where the distance is three: a single transposition makes it fall short of the full distance |
| Suggest.NearestName | src/driver/suggest.cc:54-74 | the earliest of the nearest candidates within one and a third of the input's length, or none exactly when the input is empty or all are farther |
| CoercionIndex.TypedFile.BuildCoercionIndex | include/sema/typed_ast.h:607-629 | the list is stably sorted by consumer and operand, and the index holds where each node's records start |
| CoercionIndex.SliceIsStablySorted | include/sema/typed_ast.h:582-594 | a node's slice is its own records stably sorted, their operands going up, whatever records of nodes out of range there are |
| CoercionIndex.NothingOutside | include/sema/typed_ast.h:582-594 | no node, and a node that was not counted, have no records |
| CoercionIndex.SlicesCoverTheRange | include/sema/typed_ast.h:607-629 | the slices in order are the records of nodes in range, each once |
| CoercionIndex.SortIsPermutation | include/sema/typed_ast.h:612-619 | sorting neither loses nor repeats a record |
| CoercionIndex.SortIsUnique | include/sema/typed_ast.h:607-611 | the sorted order is a function of the list |
| CoercionIndex.TypedFile.CoercionAt | include/sema/typed_ast.h:596-605 | the first record of the slice with that operand and none before it, or none when no record of the slice has it |
| CoercionIndex.FirstAtOperand | include/sema/typed_ast.h:596-605 | which is the first one added for it |
| Conditionals.ConditionalStack.Open | src/pp/conditionals.cc:10-24 | a frame whose branch is live when the condition holds and the region around it emits, or the nesting error at the limit |
| Conditionals.ConditionalStack.TakeElif | src/pp/conditionals.cc:34-45 | a live branch exactly when none was taken before, or the named error with nothing changed |
| Conditionals.ConditionalStack.TakeElse | src/pp/conditionals.cc:47-59 | the last branch, live exactly when none was taken, or the named error with nothing changed |
| Conditionals.ConditionalStack.Close | src/pp/conditionals.cc:61-67 | the frame is dropped, or there was none |
| Conditionals.RunStream | src/pp/conditionals.cc:10-67 | a whole stream through one stack: the frames and lines it leaves, or where and why it stopped |
| Conditionals.EvaluationMatters | src/pp/conditionals.cc:26-32 | the next condition is to be evaluated exactly when its value makes a difference |
| ConditionalNesting.EmitsWhereLive | include/pp/conditionals.h:39-43 | the stack emits exactly where every enclosing conditional is in its first true branch |
| ConditionalNesting.StepIsAdvance | src/pp/conditionals.cc:10-67 | each step of the stack is the step in the nesting: the same error or the frames of the next place |
| ConditionalNesting.RunIsWalk | src/pp/conditionals.cc:10-67 | on every stream, well nested or not, the stack and the nesting agree on error, place, frames and lines |
| ConditionalNesting.NestedMeaning | include/pp/conditionals.h:26-43 | nested source emits exactly its surviving lines, or is refused with the nesting error exactly when it is deeper than the limit |
| ConditionalNesting.CleanExactlyWhenNested | include/pp/conditionals.h:51-68 | a stream runs clean and closes all it opens exactly when it is the stream of nested source within the limit |
| ConditionalNesting.ErrorsMean | src/pp/conditionals.cc:10-67 | too deep exactly at an `#if` with the limit open; unexpected exactly at an `#elif`, `#else` or `#endif` with none open; behind an `#else` exactly at an `#elif` or `#else` with some open, and then only whole source was read since an `#else` at that depth |
| ConditionalNesting.AtMostOneBranch | include/pp/conditionals.h:26-37 | once a branch is chosen no later branch of the conditional is |
| ErrorLimit.ParseErrorLimit | src/driver/cli.cc:90-109 | an accepted text of digits, however long, gives 1024 for a number that is 0 or above 1024 and otherwise the number; no number below 2^64 is refused; digits are accepted exactly when their value modulo 2^64 never falls |
| ErrorLimit.Places | src/driver/cli.cc:90-109 | the number of a digit string is positional: digits behind a number move it up by as many places |
| ErrorLimit.WrapPassesExactlyWhen | src/driver/cli.cc:99-103 | a step that wraps passes the overflow test exactly when nine times the accumulator and the digit make up for what the wrap took |
| ErrorLimit.AWrapIsMissed | src/driver/cli.cc:99-103 | a number of twenty digits that does not fit, wraps, and is accepted |
| HelpRender.AppendWrapped | src/driver/help_render.cc:33-70 | the loop appends the greedy page of the text's words |
| HelpRender.WrapKeepsWords | src/driver/help_render.cc:29-38 | every word in order, and every line within the width, at least 24, unless it is one word |
| HelpRender.WrappedLines | src/driver/help_render.cc:29-70 | for text of one line, every line that is written is within the width, but at least 24, or one word; every line but the first is indented, and single spaces separate the words |
| HelpRender.WrappedInFewest | src/driver/help_render.cc:59-69 | no other page within that width has fewer lines |
| HelpRender.FieldsSplit | src/driver/help_render.cc:43-51 | a space separates the words on its two sides, however many there are |
| HelpRender.GreedyIsFewest | src/driver/help_render.cc:59-69 | no page with the same words and the same guarantee has fewer lines |
| HelpRender.PageReadsBack | src/driver/help_render.cc:33-70 | splitting the rendered page at spaces and line ends gives the words back |
| Rotate.CountIsReduced | src/ir/builtins.cc:206-222 | wrapping the count into the value's width and then reducing it gives the count modulo the width, read unsigned or signed, for every pair of widths |
| Rotate.RotateIsRotation | src/ir/builtins.cc:192-227 | the emitted shift rotates by the signed count modulo the width, left or right |
| Rotate.BitsMove | src/ir/builtins.cc:192-227 | each bit moves up by the signed count, or down, modulo the width |
| Rotate.SignedIsTwosComplement | src/ir/builtins.cc:206-222 | a count pattern and its signed number differ by nothing or two to the power of its width |
| Rotate.RotateRoundTrip | src/ir/builtins.cc:192-227 | rotating back by the same count gives the value back |
| Rotate.RotationsAdd | src/ir/builtins.cc:192-227 | rotating twice rotates by the sum of the counts modulo the width |

## Left out

- TypeStore.TypeStore.MemberOffset: says nothing of the number for a product whose layout is not decided yet, because 64-bit sums over known members in front of an unknown one may wrap there and no rule of the store says what they mean.
- CheckedBuild.Lowering.LowerStatements: `while` and `for` are not modelled, because a register has a new value on every trip and a run here gives each register one; declarations, calls and expressions are the accesses they perform.
- CheckedBuild.Lowering.DefineBody: parameters, frame slots, debug scopes and the aggregate-return pointer are not modelled.
- AstLowering.LowerFile: 32-bit offsets and ids are unbounded here; the interner is taken to be exact, so a symbol is its text; the message texts of diagnostics are not modelled.
- AstItems.EqualItemsHashEqual: the mixing function is arbitrary, so the spread of the hash is not modelled.
- HelpRender.WrappedLines: speaks of text without line ends, as the help texts are; to the wrapper a line end is one more character of a word.
- HelpRender.AppendWrapped: columns are unbounded here where the code keeps them in 32 bits.
- TypeStore.TypeStore.Substitute: its arguments and subject are ids of this store or no type; an id from elsewhere is not modelled.
- TreeBuilding.Builder.Build: the green cache is taken to have room; a refusal by its memory budget, node and token counts and the lossless flag are not modelled.
- ResponseFiles.ExpandResponseFiles: the file system and the canonical path are arbitrary functions; error sentences are the reasons they name.
- CoercionIndex.TypedFile.CoercionAt: stated for an index built after the last record was added.
- The type store's spelling, class and constant questions, its default of deferred literals and its budget setter: lookups over one record.
- The parser's depth guard, token bound and initializer restriction: each restores one field on exit.
- `bindingNamesOf`, `slicePartsOf` and the spelling readers of `src/ast/ast.cc`: one scan each.
- The option parser of `src/driver/cli.cc` beyond the error limit, and the help tables.
- Lexer, macro expansion, grammar productions, name resolution and type checking.
- LLVM, object emission, linking, and the text of the runtime entry that flushes and traps.
