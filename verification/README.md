# Verified models of the Kconfig tools, the C library sort and the EHCI descriptor rings

The repository carries a configuration tool (`scripts/config`, the Kconfig language), a small C
library with a quicksort, and drivers. This project models the parts with the most intricate logic
and proves what they are for.

**Expressions** (`scripts/config/expr.c`). Dependency expressions have values n < m < y. `Exprs`
holds the expressions and their value, `ExprEquality` the mutually recursive equality and
elimination passes, `ExprShapes` and `ExprSelf` which expressions they find equal and what they
take away, `ExprTransform` De Morgan normalisation, promotion and comparison, `ExprJoin`
the joining of two operands, `ExprDups` duplicate elimination, `ExprReduced` what that leaves no trace of, and `Dependencies` the pipelines
that the menu code builds from them. Results are stated for all three-valued assignments in which
boolean symbols are not m; where the code only is right for {n, y} there is a counterexample and
the exact condition. A symbol stands for the pointer the program compares, which `SymLookup`
justifies for constants. `expr_eliminate_dups1(type, &e, &e)` walks one tree against itself:
`SkeletonPaths` describes the two pointers by positions in one tree, so that an assignment through
one of them is seen through the other.
The functions that rewrite in place are also proved in that form: `ExprHeap` and `ExprEngine` have
expression nodes in the heap that are changed, relinked, copied and allocated as in the source, and
the counter `trans_count` with its saving and restoring. `ExprSlots` is about pointers to operand
fields: both passes of the duplicate elimination run on one stored tree through two such pointers,
compare nodes by address, and assign through either pointer.

**Symbols** (`scripts/config/symbol.c`). `SymbolValue` is one evaluation of a symbol as a function
of the values it consults; `SymbolMemo` the memoising evaluator, a class with the VALID flags,
proved equal to plain recursion on every graph that the cycle search accepts; `DepGraph` that
search and the loop that calls it; `ChoiceGroups` choices and their members; `SymLookup` the hash
table.

**Menus** (`scripts/config/menu.c`). `MenuForest` describes the pointers `next`, `list` and `parent` by
the forest they form; `MenuFinalize` is `menu_finalize` on these pointers. `MenuConditions` says
what inheriting from the top down makes of all conditions, `MenuMeaning` what the final
conditions mean in terms of the original ones, and `MenuArrange` which children every entry
ends up with. `MenuWalk` is the stackless walk and which symbols
it leads to be written.

**Configuration files** (`scripts/config/confdata.c`). `Quoting` escapes strings and undoes it in the line
buffer; `ConfFile` is the reading loop on its 1024-byte buffer; `ConfRoundTrip` says which single
records come back; `SaveLoad` is about whole files and about the values they evaluate to; `ConfWrite`
is the writing walk over the menus, and its round trip.

**Sorting** (`lib/c_lib/qsort.c`). `ByteBuffer` sees an array of bytes as elements of any size, `Ordering`
is sorting of element sequences, `QSort` the algorithm on bytes.

**Descriptor rings** (`src/EHCI/ehcimem.c`). `EhciRing` has the linked rings and the accounts they keep
over whole runs.

## What turned out false

* `expr_eliminate_dups` can turn m into n: `(FOO || BAR) && (!FOO && !BAR)` with FOO = m and
  BAR = n (`ExprDups.EliminateDupsLosesMod`). It never changes a value that is n or y
  (`EliminateDupsSharpens`). Only the rule of the second pass is at fault: where it fires, the
  value is kept if and only if it is not m (`DecidedOnlyWhenUnclear`), and where it never fires
  all values are kept (`UndecidedExact`).
* `expr_eq` does not find `"foo" && "bar"` equal to itself, as the flag of constants has
  the bits of y and n (`ExprSelf.WordsDiffer`). Where no operand is y or n, an expression equals
  itself if and only if no connective in it has two constants other than y, m and n; having no two
  is enough in any case (`ExprSelf.ExprEqSelf`).
* `expr_trans_compare` is exact for the negation of a tristate only when that is not m
  (`ExprTransform.TransCompareNotExact`). For a symbol that is no tristate it is exact if and only
  if the string is "n", for a comparison with n, or is not "y", for one with y
  (`TransCompareUntypedExact`). Hence an entry can be nested below a symbol whose entry is hidden:
  behind an entry visible for `FOO = n`, one that depends on `!FOO && !BAR` is shown only with the
  former if and only if FOO is not m or BAR is y (`Dependencies.NestsExactly`).
* `expr_depends_symbol` finds tests like `FOO = y` or `FOO != n` to depend on FOO, also where FOO
  is a string. That a condition found to depend on a symbol forces it to be other than n holds, over
  all conditions, if and only if the symbol is boolean or tristate, or has no type and the name n
  (`Dependencies.DependsExactly`).
* `expr_trans_bool` keeps "not n" below a NOT if and only if the symbol is not m
  (`ExprTransform.TransBoolUnderNot`).
* Hidden members of a choice take their defaults (`ChoiceGroups.DefaultsBreakExclusivity`). At
  most one member is y if and only if no hidden member has a default of y beside another such
  member or the one that is held (`ExclusiveExactly`).
* A string does not come back from a `.config` file if it has a newline or its line is longer than
  1023 characters, and no value does of a symbol whose name does not begin with a capital, except n
  (`ConfRoundTrip.RecordRoundTrip`). An empty number comes back as 0 (`EmptyNumber`), and the whole
  file is given up for one such string or an invalid number (`SaveLoad.LoadedIfReadable`). A menu
  titled `FOO is not set` resets FOO (`SaveLoad.LoudHeading`). As m is not written, it is lost unless
  it is what the defaults give (`SaveLoad.ModIsLost`). Which configurations come back altogether is
  said by `ConfWrite.WriteThenRead`.
* A descriptor that is added to an empty ring of transfer descriptors is not linked to itself: the
  source compares where it means to assign (`EhciRing.TransferRing.Add`).

## Model

| member | source | states |
|---|---|---|
| Exprs.ConstantValues | scripts/config/expr.c:942-960 | the constants y, m, n have their values; n is neutral and y absorbing for OR, and the other way round for AND |
| Exprs.TriNamesDiffer | scripts/config/symbol.c:550-571 | tristate values are told apart by their printed names, as comparisons do |
| ExprEquality.EliminateYnSound | scripts/config/expr.c:235-316 | folding y and n keeps the value under every three-valued assignment |
| ExprEquality.EliminateYnClean | scripts/config/expr.c:235-316 | no constant operand is left; an expression is unchanged exactly if it had none, and otherwise gets strictly smaller |
| ExprEquality.StripEqCommon | scripts/config/expr.c:135-166 | stripping under one connective takes one common operand value out of both sides |
| ExprEquality.EliminateEqContext | scripts/config/expr.c:168-188 | what both passes strip is one monotone context f, with each side equal to f of its remainder |
| ExprEquality.EliminateEqOrder | scripts/config/expr.c:168-188 | any order between the remainders holds between the originals, for every three-valued assignment |
| ExprEquality.ExprEqSound | scripts/config/expr.c:193-233 | expressions found equal have equal values under every three-valued assignment; the mutual recursion ends on size and rank |
| ExprShapes.ExprEqExactly | scripts/config/expr.c:193-233 | expressions without constants are found equal if and only if they are the same up to the order and bracketing of operands, at every depth |
| ExprShapes.EliminateEqExactly | scripts/config/expr.c:135-188 | without constants, exactly the operands common to both sides are taken out, as often as both have them: of two groups of one connective, or of a group and one of its operands; otherwise nothing changes |
| ExprShapes.EqualGroupsVanish | scripts/config/expr.c:206-217 | two groups of one connective with the same operands leave the neutral constant on both sides |
| ExprSelf.ExprEqSelf | scripts/config/expr.c:193-233 | an expression equals itself if no connective in it has two constants other than y, m and n, and only then if no operand is y or n |
| ExprSelf.WordsDiffer | scripts/config/expr.c:147-149 | the concrete expression that is not found equal to itself |
| ExprTransform.TransformSound | scripts/config/expr.c:640-775 | normalisation keeps the value under every three-valued assignment with boolean symbols not m; it ends on a weight that each re-transformation lowers |
| ExprTransform.TransformNormal | scripts/config/expr.c:640-775 | the result has NOT only above symbols other than y, m, n and no boolean compared with these |
| ExprTransform.TransformFixpoint | scripts/config/expr.c:640-775 | an expression is left as it is exactly if it is in normal form |
| ExprTransform.TransBoolKeepsNotN | scripts/config/expr.c:321-345 | on a normal form, relaxing `FOO != n` keeps "not n" both ways for all three values, and never raises the value |
| ExprTransform.TransBoolComplete | scripts/config/expr.c:321-345 | no test `FOO != n` of a tristate is left, and an expression without one is left as it is |
| ExprTransform.TransBoolUnderNot | scripts/config/expr.c:321-345 | below a NOT, outside normal form, "not n" is kept if and only if the symbol is not m |
| ExprTransform.TransCompareSound | scripts/config/expr.c:881-940 | the comparison as an expression holds exactly if the value compares so, when leaves are tristate and NOTs are decided |
| ExprTransform.TransCompareNotExact | scripts/config/expr.c:912-913 | for a NOT it is exact if and only if the comparison of the inverse is, which fails for m |
| ExprTransform.TransCompareUntypedExact | scripts/config/expr.c:932-933 | for a symbol that is no tristate the comparison is exact if and only if its string is "n", when compared with n, or is not "y", when compared with y |
| ExprJoin.JoinOrSound | scripts/config/expr.c:350-412 | the join of two operands of an OR has the value of the OR, for all three values |
| ExprJoin.JoinAndSound | scripts/config/expr.c:414-506 | likewise for AND; for two comparisons with constants, distinct pointers are distinct names |
| ExprJoin.JoinSize | scripts/config/expr.c:350-506 | a join and the constant left behind are no larger than the two operands, and a join is not a node of the same connective unless the first operand was |
| ExprJoin.JoinExactly | scripts/config/expr.c:350-506 | two operands join if and only if they are equal, or one of the listed pairs: `FOO` and `!FOO` of a boolean or two tests `FOO = c` in an OR; `FOO` with `FOO = y`, `FOO != n` or `FOO != m`, `FOO = b` with `FOO != c`, or two tests `FOO != c` in an AND |
| ExprDups.Dups1 | scripts/config/expr.c:508-558 | the first pass over one tree: both positions stay valid, the tree does not grow, it is unchanged if nothing was counted, and a counted change has left a constant operand |
| ExprDups.Dups1Sound | scripts/config/expr.c:508-558 | the first pass keeps the value under every three-valued assignment, for any two positions in the aliased tree |
| ExprDups.Dups1Complete | scripts/config/expr.c:508-558 | a pass that counts nothing has found that no two of the distinct operands it visits can be joined |
| ExprDups.ExtractEqSplits | scripts/config/expr.c:852-880 | extraction moves one common value from both sides into the extracted expression |
| ExprDups.ExtractCommonRebuilds | scripts/config/expr.c:830-850 | each side is its remainder joined with what was extracted |
| ExprDups.Dups2 | scripts/config/expr.c:560-614 | the second pass over one tree, with the same guarantees about positions, size and count |
| ExprDups.Dups2Sharpens | scripts/config/expr.c:560-614 | the second pass changes no value that is n or y; only m may be decided |
| ExprDups.DecidedOnlyWhenUnclear | scripts/config/expr.c:577-609 | where the rule fires the tree is m or already decided, the result is decided, and the value is kept if and only if it was not m |
| ExprDups.UndecidedExact | scripts/config/expr.c:616-638 | if the rule fires in no round, the value is kept under every three-valued assignment |
| ExprDups.PassShrinks | scripts/config/expr.c:623-635 | a counted change makes the folded tree strictly smaller, so the loop ends |
| ExprDups.EliminateDupsSharpens | scripts/config/expr.c:616-638 | the whole loop changes no value that is n or y, under any three-valued assignment |
| ExprDups.EliminateDupsTwoValued | scripts/config/expr.c:616-638 | for assignments without m and expressions without the constant m the value is kept exactly |
| ExprDups.EliminateDupsFixpoint | scripts/config/expr.c:616-638 | the result is one that the loop leaves alone: its passes count nothing |
| ExprDups.EliminateDupsNormal | scripts/config/expr.c:616-638 | a normal form stays one |
| ExprReduced.EliminateDupsIrredundant | scripts/config/expr.c:616-638 | in the result, at every depth, no two operands are equal, the same up to order and bracketing, or one of the pairs that make each other redundant |
| ExprReduced.EliminateDupsConsistent | scripts/config/expr.c:560-638 | no operand of the result is one the parts of whose negation are all among the operands, for normal forms without constants |
| ExprDups.EliminateDupsLosesMod | scripts/config/expr.c:577-592 | the concrete expression of value m that becomes n |
| ExprHeap.EliminateYnAt | scripts/config/expr.c:235-316 | in place: the same node ends up holding the folded expression, in nodes it had before |
| ExprHeap.TransBoolAt | scripts/config/expr.c:321-345 | in place: the same node holds the relaxed expression |
| ExprHeap.TransformAt | scripts/config/expr.c:640-775 | in place, with relinked and new nodes: the returned node holds the normalised expression, no node twice |
| ExprHeap.SplitNot | scripts/config/expr.c:720-737 | one De Morgan step reuses the operand node for one negation and allocates the other |
| ExprEngine.Copy | scripts/config/expr.c:67-102 | a copy in new nodes holds the same expression |
| ExprEngine.Engine.StripEqAt | scripts/config/expr.c:135-166 | both trees are stripped in place as specified, stay separate, and the counter grows by the number of pairs stripped |
| ExprEngine.Engine.EliminateEqAt | scripts/config/expr.c:168-188 | both trees hold the remainders, folded |
| ExprEngine.Engine.ExprEqAt | scripts/config/expr.c:193-233 | the test leaves both expressions and the counter as they were |
| ExprSlots.Assign | scripts/config/expr.c:535-551 | assigning a new expression through a pointer to an operand field leaves the stored tree with that operand replaced |
| ExprSlots.OperandsApart | scripts/config/expr.c:524 | different operand positions of one stored tree share no node, so the comparison of addresses is one of positions |
| ExprSlots.SlotKept | scripts/config/expr.c:513-522 | a pointer stays at its position while operands elsewhere, or its own, are replaced |
| ExprEngine.Engine.Dups1At | scripts/config/expr.c:508-558 | in place, through two pointers into one tree: the nodes hold the specified tree, connectives stay in their nodes, the counter grows by the joins |
| ExprEngine.Engine.JoinPair | scripts/config/expr.c:534-556 | two operands that join are replaced by a constant and the join, or nothing changes |
| ExprEngine.Engine.Dups2At | scripts/config/expr.c:560-614 | likewise for the second pass, which looks at e2 itself after its operands |
| ExprEngine.Engine.DecideOne | scripts/config/expr.c:583-592 | the rule works on copies, and replaces the operand exactly if nothing is left of its stripped negation |
| ExprEngine.Engine.EliminateDupsAt | scripts/config/expr.c:616-638 | the loop driven by the counter ends, its node holds the specified expression, and the caller's count is put back |
| Dependencies.InheritSound | scripts/config/menu.c:225-238 | an inherited and simplified condition is the AND of both wherever that is n or y, and a normal form |
| Dependencies.InheritIrredundant | scripts/config/menu.c:225-238 | the combined condition is irredundant at every depth |
| Dependencies.InheritForKeepsNotN | scripts/config/menu.c:236-241 | relaxing the condition for a symbol that is no tristate keeps "not n" and the normal form |
| Dependencies.InheritForRelaxes | scripts/config/menu.c:236-241 | for a symbol that is no tristate no test for other than n is left; for a tristate the condition is the AND of both wherever that is n or y |
| Dependencies.ContainsExact | scripts/config/expr.c:777-799 | an expression that does not contain a symbol does not depend on its value |
| Dependencies.ContainsSyms | scripts/config/expr.c:777-799 | an expression contains exactly the symbols that occur in it |
| Dependencies.DependsConjunct | scripts/config/expr.c:801-828 | an expression depends on a symbol exactly if one of its conjuncts is the symbol, `= y`, `= m` or `!= n` |
| Dependencies.DependsSound | scripts/config/expr.c:801-828 | an expression that depends on a symbol and is not n forces the symbol to be not n, for all three values |
| Dependencies.DependsExactly | scripts/config/expr.c:801-828 | that every expression that depends on the symbol and is not n forces it to be not n holds, over all expressions and states, if and only if the symbol is boolean or tristate, or has no type and the name n |
| Dependencies.NestsSound | scripts/config/menu.c:252-271 | the nesting decision implies that the entry is shown, or its symbol not n, when the condition is not n: without further demands where it depends on the symbol, else for a visibility in normal form and a condition whose NOTs are decided |
| Dependencies.NestsSoundTwoValued | scripts/config/menu.c:252-271 | hence for every assignment without m |
| Dependencies.NestsMentioned | scripts/config/menu.c:258-261 | a sibling whose condition does not mention the symbol is never nested; one with a conjunct that tests whether it is set always is |
| Dependencies.NestsUnconditional | scripts/config/menu.c:252-271 | below an entry without a condition exactly the siblings are nested that mention its symbol |
| Dependencies.NotNReduced | scripts/config/menu.c:252-254 | the conditions compared for nesting are irredundant normal forms |
| Dependencies.NestsConjuncts | scripts/config/menu.c:252-271 | otherwise, where the simplified conditions have no constants, a sibling that mentions the symbol is nested exactly if it depends on it or is an AND with all conjuncts of the entry's own condition |
| Dependencies.NestsExactly | scripts/config/menu.c:252-271 | behind an entry visible for `FOO = n`, one that depends on `!FOO && !BAR` is nested, and is shown only with the former if and only if FOO is not m or BAR is y |
| DepGraph.CleanIsAcyclic | scripts/config/symbol.c:692-756 | the search finds nothing exactly if no dependency cycle is reachable, given that CHECK_DONE marks cycle-free symbols only |
| Symbols.DepsAre | scripts/config/symbol.c:722-756 | the search follows exactly the symbols of the reverse dependency, of the conditions of properties other than choices and selects, and of the values of defaults |
| DepGraph.Checker.CheckDeps | scripts/config/symbol.c:722-756 | returns NULL exactly in that case, and otherwise a symbol reachable from the first that lies on a cycle or is under search; restores every CHECK flag, and ends because unmarked symbols get fewer |
| DepGraph.Checker.CheckExprDeps | scripts/config/symbol.c:692-720 | the same for the symbols of an expression, visited in order |
| DepGraph.Checker.CheckEverything | scripts/config/zconf.y:497-502 | something is reported exactly if some symbol reaches a cycle, though later searches skip marked symbols; without a report all marks are right |
| SymbolValue.StepLocal | scripts/config/symbol.c:206-312 | an evaluation reads no symbols but those the cycle search visits |
| SymbolValue.RelaxKeepsVisibility | scripts/config/symbol.c:137-165 | the visibility of a symbol that is no tristate is the same before and after its prompt conditions are relaxed |
| SymbolValue.StepBounds | scripts/config/symbol.c:250-268 | with a bound the value lies between the reverse dependency and the larger bound, and is never m for an effectively boolean symbol |
| SymbolValue.StepBoundsAre | scripts/config/symbol.c:137-165 | the bounds are the greatest prompt condition and the reverse dependency, of which m becomes y for booleans or without modules |
| SymbolValue.StepOfUser | scripts/config/symbol.c:250-268 | a symbol with a bound and a user value has that, cut to the visibility and lifted to the reverse dependency |
| SymbolValue.StepOfDefault | scripts/config/symbol.c:253-268 | otherwise the first default whose condition is not n: within the bounds, or promoted as it is for a hidden symbol without reverse dependency |
| SymbolValue.StepOfNothing | scripts/config/symbol.c:253-268 | without such a default the value is the reverse dependency, else n |
| SymbolValue.StepOfString | scripts/config/symbol.c:270-291 | a string or number is the user value while visible, else the string of the symbol in the first default whose condition is not n, else empty |
| SymbolValue.SetIsReadBack | scripts/config/symbol.c:346-391 | a value within range is what the next evaluation yields |
| SymbolValue.OutOfRangeIsLost | scripts/config/symbol.c:346-363 | for a changeable symbol it is read back if and only if it is within range |
| SymbolValue.SetSameValue | scripts/config/symbol.c:365-391 | setting the value already held changes nothing about the evaluation |
| SymbolMemo.AcyclicIsCycleFree | scripts/config/symbol.c:722-756 | the graphs the evaluator is proved on are those from which no cycle is reachable |
| SymbolMemo.CoherentIsPlain | scripts/config/symbol.c:206-312 | in a coherent memo every finished symbol has the value of plain recursion |
| SymbolMemo.PlainIsStep | scripts/config/symbol.c:206-312 | the values of plain recursion solve the equations: each is one step from the values it consults |
| SymbolMemo.SetKeepsCoherent | scripts/config/symbol.c:365-391 | a set of the value already held leaves the memo coherent although nothing is invalidated |
| SymbolMemo.SetPlain | scripts/config/symbol.c:365-391 | on an acyclic graph the symbol set evaluates to what was set, as what it depends on does not depend on it |
| SymbolMemo.PlainBusy | scripts/config/symbol.c:206-215 | the value does not depend on which symbols are under evaluation |
| SymbolMemo.Evaluator.CalcValue | scripts/config/symbol.c:206-312 | evaluates through VALID flags, in any order, to the value of plain recursion; other finished values stay |
| SymbolMemo.Evaluator.CalcTristate | scripts/config/symbol.c:245-268 | user value or default, bounded and promoted, as one evaluation prescribes |
| SymbolMemo.Evaluator.CalcExpr | scripts/config/expr.c:942-981 | an expression evaluates to its value for all assignments that agree with the memo |
| SymbolMemo.Evaluator.ClearAllValid | scripts/config/symbol.c:314-324 | invalidation leaves a coherent memo |
| SymbolMemo.Evaluator.SetTristateValue | scripts/config/symbol.c:365-391 | accepted exactly if held already or within range; the memo stays coherent on both paths; the value is read back |
| ChoiceGroups.AtMostOneYes | scripts/config/symbol.c:167-204 | at most one member is y, provided members have no defaults |
| ChoiceGroups.ExclusiveExactly | scripts/config/symbol.c:245-268 | with defaults, at most one member is y if and only if no hidden member has the default y beside another or beside the held one |
| ChoiceGroups.SelectedExactly | scripts/config/symbol.c:167-204 | the member selected is the picked one while visible, else that of the first default in force and visible, else the first visible one, else none |
| ChoiceGroups.ChoiceTriIs | scripts/config/symbol.c:250-268 | a choice has its user value within its bounds, and n without |
| ChoiceGroups.MemberOfMod | scripts/config/symbol.c:250-268 | a member whose visibility is m is m exactly if its user value or default is not n |
| ChoiceGroups.ChoiceAtYes | scripts/config/symbol.c:247-249 | a choice at y holds a member; some member is y if and only if the held one has visibility y, which is so for boolean members |
| ChoiceGroups.ChoiceBelowYes | scripts/config/symbol.c:294-296 | with the choice below y no member is y |
| ChoiceGroups.PickTakesEffect | scripts/config/symbol.c:167-180 | a visible member that is picked becomes the one at y |
| ChoiceGroups.DefaultsBreakExclusivity | scripts/config/symbol.c:263-268 | a hidden member with the default y is y whatever the choice holds |
| ChoiceGroups.Group.CalcChoice | scripts/config/symbol.c:167-204 | the loops over picked value, defaults and members find the specified one |
| ChoiceGroups.Group.CalcGroup | scripts/config/symbol.c:206-312 | evaluating a choice and its members in any order gives the specified values |
| SymLookup.Table.Lookup | scripts/config/symbol.c:578-622 | returns the one symbol of this name and kind or makes it; nameless symbols are always new; everything else stays |
| SymLookup.Table.FindSymbol | scripts/config/symbol.c:624-651 | finds a symbol exactly if there is one, constants only by the names y, m, n |
| SymLookup.Table.ConstantsAreInterned | scripts/config/symbol.c:578-622 | two symbols of the table are the same pointer if and only if they have the same name and kind |
| MenuFinalize.Finalizer.FinalizeRoot | scripts/config/menu.c:198-337 | the preorder of all entries is unchanged, each is finalised exactly once and in that order, every parent pointer is the structural parent; at every depth an entry with a list has a text; the conditions of all entries are the ones inherited from the top down along the original tree; on these conditions each entry with a symbol and no list gets, up to hoisting, the longest run of following siblings that nest, and each with a list and a text keeps exactly that list below it |
| MenuFinalize.Finalizer.Finalize | scripts/config/menu.c:198-337 | the same for any entry, its list and the siblings behind it: it has the children, and leaves the siblings, that the final conditions call for; pointers elsewhere stay |
| MenuFinalize.Finalizer.InheritDeps | scripts/config/menu.c:216-248 | exactly the entries of the list, with all properties, get the combined conditions, relaxed for properties of symbols that are no tristate |
| MenuFinalize.Finalizer.AbsorbSiblings | scripts/config/menu.c:251-281 | the siblings taken in are the longest run, in order, that the decision accepts on the final conditions, and the first one left over is rejected |
| MenuFinalize.Finalizer.HoistAll | scripts/config/menu.c:283-317 | the list that comes out is the one in which lists below entries without text have been moved behind them |
| MenuArrange.EveryEntry | scripts/config/menu.c:198-317 | in the final forest every original entry, at any depth, has the children arranged for it, or, without a text, none, and they are in the forest too |
| MenuArrange.AbsorbsLongestRun | scripts/config/menu.c:257-275 | the siblings taken in all nest, what is left does not begin with one that does, and the preorder is kept, though siblings take in others themselves |
| MenuArrange.ChildrenOfSymbol | scripts/config/menu.c:251-281 | an entry with a symbol and no list gets that run, up to hoisting; it gets children exactly if the next sibling nests, which is then the first |
| MenuArrange.ListStays | scripts/config/menu.c:283-317 | an entry with a list and a text has exactly the entries of that list below it in the final forest |
| MenuConditions.BelowConcat | scripts/config/menu.c:216-281 | inheriting along two parts of a list one after the other is inheriting along the list, so absorbing siblings in between changes no condition |
| MenuMeaning.FinalConditions | scripts/config/menu.c:216-248 | the final condition of every entry and of each of its properties is a normal form, n wherever the AND of its own with those inherited along the original ancestors is n, and equal to that when nothing is m; it is irredundant, or for properties of symbols that are no tristate without a test for other than n |
| MenuForest.PreHoist | scripts/config/menu.c:307-316 | hoisting keeps the preorder sequence |
| MenuForest.AbsorbedLinks | scripts/config/menu.c:277-281 | the three assignments make the absorbed run the list of its new parent and leave the rest behind it |
| MenuWalk.PreorderFollows | scripts/config/confdata.c:257-268 | in a well-formed forest every entry is followed by its successor in preorder, the last by none |
| MenuWalk.Walker.NextMenu | scripts/config/confdata.c:257-268 | the stackless step finds that successor |
| MenuWalk.Walker.Flag | scripts/config/confdata.c:347-349 | the first walk flags exactly the symbols that some entry has |
| MenuWalk.AllWrittenOnce | scripts/config/confdata.c:347-465 | that sequence has every symbol of a non-choice entry exactly once and no other |
| ConfWrite.Writer.Write | scripts/config/confdata.c:347-459 | the walk emits, in preorder, the titles of visible entries without a symbol and one record for each flagged symbol |
| ConfWrite.PreambleLoads | scripts/config/confdata.c:318-320 | the comment in front of the file changes nothing when it is read |
| ConfWrite.ItemsAreEmitted | scripts/config/confdata.c:352-412 | entry by entry, what is emitted is the title of a visible entry without a symbol, or the record of a symbol that no earlier non-choice entry has |
| ConfWrite.ItemsDistinct | scripts/config/confdata.c:369-377 | no symbol has two records, however many entries it has |
| ConfWrite.RecordsAreTaken | scripts/config/confdata.c:366-412 | exactly the symbols with a non-choice entry whose line is taken have a record that is taken |
| ConfWrite.ReadableEntries | scripts/config/confdata.c:366-452 | what the walk emits can be read if and only if the program gives up on the value of no symbol with an entry |
| ConfWrite.WriteThenRead | scripts/config/confdata.c:347-459 | what conf_write emits for any menus is read back unless the program gives up on the value of an entry; then every symbol evaluates to what it was if and only if each visible symbol has an entry whose line is taken and is no empty number, or else the value that its defaults give; hidden symbols have any values. Symbol names, numbers and titles are on lines that fit, and no title is of the form `<symbol> is not set` |
| Quoting.UnescapeEscape | scripts/config/confdata.c:173-183 | reading an escaped string up to its closing quote gives the string, whatever follows |
| Quoting.UnescapeCut | scripts/config/confdata.c:173-186 | an escaped string cut before its closing quote is never accepted |
| Quoting.EscapeLength | scripts/config/confdata.c:416-433 | escaping adds one character for each quote and backslash and none else |
| Quoting.WriteEscaped | scripts/config/confdata.c:416-433 | the writing loop emits the escaped string |
| Quoting.UnescapeInPlace | scripts/config/confdata.c:176-186 | shifting the buffer down over each backslash yields the unescaped string, or failure, also for a trailing backslash |
| ConfFile.StringValid | scripts/config/symbol.c:416-457 | accepts decimals without leading zeros and hexadecimals, character by character, exactly |
| ConfFile.ChunkLength | scripts/config/confdata.c:112-113 | a read takes at least one and at most 1023 characters |
| ConfFile.LoadComment | scripts/config/confdata.c:116-139 | on the buffer: `# <symbol> is not set` clears a boolean or tristate symbol, other comments do nothing |
| ConfFile.LoadAssignment | scripts/config/confdata.c:141-199 | on the buffer: splitting at `=` and newline and loading by type does what the line says as a string |
| ConfFile.ConfRead | scripts/config/confdata.c:112-222 | the loop with its buffer loads the file chunk by chunk, or gives up |
| ConfRoundTrip.WriteRecord | scripts/config/confdata.c:388-452 | the cases of the writer emit the specified line; nothing for m |
| ConfRoundTrip.NewlineIgnored | scripts/config/confdata.c:141-147 | a line does the same with and without its newline |
| ConfRoundTrip.ReadLine | scripts/config/confdata.c:112-113 | a line of up to 1023 characters is loaded as a whole, whatever follows it |
| ConfRoundTrip.AssignedTristate | scripts/config/confdata.c:153-170 | the first character of the text sets a boolean or tristate to y or n, and a tristate to m; other text leaves it alone |
| ConfRoundTrip.MemberGrouped | scripts/config/confdata.c:206-222 | a member of a choice makes that known with the greater of both values, and at y becomes the picked one |
| ConfRoundTrip.RecordLoads | scripts/config/confdata.c:112-222 | a recoverable record is stored with its own value, whatever was read before or follows |
| ConfRoundTrip.RecordReads | scripts/config/confdata.c:112-222 | any record on a line that fits is passed over, stored or makes the reader give up as told by type, value and name, whatever was read before or follows; a string that does not fit, or has a newline, makes it give up |
| ConfRoundTrip.CutQuote | scripts/config/confdata.c:173-186 | a quoted string cut by a newline in it or by the buffer is rejected |
| ConfRoundTrip.FileMisses | scripts/config/confdata.c:112-222 | a file too short for a value of a symbol, or read in lines too short for it, leaves that symbol alone |
| ConfRoundTrip.RecordRoundTrip | scripts/config/confdata.c:388-452 | a single record comes back if and only if it is n, or y, a newline-free string or a valid number behind a capital, on a line that fits the buffer |
| ConfRoundTrip.EmptyNumber | scripts/config/confdata.c:437-449 | an empty number is written, and read back, as 0 |
| SaveLoad.FileRoundTrip | scripts/config/confdata.c:347-465 | reading a whole file does, record by record and title by title, what each prescribes; names fit a line, numbers and titles have one, strings are arbitrary |
| SaveLoad.LoadedIfReadable | scripts/config/confdata.c:112-222 | the program reads the file to its end if and only if no record makes it give up |
| SaveLoad.EachRecovered | scripts/config/confdata.c:112-222 | with distinct symbols each has what its own record holds, and one whose record is passed over is left as it was |
| SaveLoad.LoudHeading | scripts/config/confdata.c:358-362 | a title of the form `<symbol> is not set` resets that symbol |
| SaveLoad.PickRestored | scripts/config/confdata.c:206-222 | the one member of a choice written as y, under a capital, is the picked one again, if the file can be read |
| SaveLoad.StepRestored | scripts/config/confdata.c:227-243 | where tristates have no user value but their value, an evaluation is the same if and only if the symbol is invisible, has its value as user value, or has none and its default gives the value |
| SaveLoad.RestoredExactly | scripts/config/symbol.c:206-312 | under such user values every symbol of an acyclic graph evaluates to what it was if and only if each visible symbol does so on its own |
| SaveLoad.ModIsLost | scripts/config/confdata.c:399-404 | a value of m is not written, and becomes n without defaults and reverse dependencies |
| SaveLoad.RecordLoaded | scripts/config/confdata.c:112-222 | a symbol is known after loading exactly if it has a record that is taken, and then with the value recorded unless that is an empty number |
| SaveLoad.LoadRestoresValues | scripts/config/confdata.c:68-252 | a saved configuration is read again unless the program gives up on a record; then every symbol of an acyclic graph evaluates to the value it had if and only if each visible symbol has a record that is taken and is no empty number, or none and its defaults give the value |
| Ordering.InsertionSortedIsSorted | lib/c_lib/qsort.c:118-121 | repeated insertion sorts under any total preorder |
| Ordering.InsertionSortedPermutes | lib/c_lib/qsort.c:118-121 | and permutes |
| Ordering.InsertionSortedStable | lib/c_lib/qsort.c:118-121 | and keeps the order of elements that compare equal |
| ByteBuffer.SwapElements | lib/c_lib/qsort.c:136-285 | swapping byte by byte swaps two elements of any size |
| ByteBuffer.MoveElementDown | lib/c_lib/qsort.c:122-129 | moving bytes column by column rotates whole elements, for any element size |
| QSort.InsertOne | lib/c_lib/qsort.c:119-131 | one outer step moves its element to the insertion point and nothing else |
| QSort.InsertionSort | lib/c_lib/qsort.c:103-133 | the part becomes exactly the insertion-sorted sequence |
| QSort.MedianSwapped | lib/c_lib/qsort.c:153-172 | the element swapped into the middle is a median of the three |
| QSort.ExchangeSplits | lib/c_lib/qsort.c:181-208 | each of the three exchanges, with the pivot that it may move, keeps both sides of the pivot right |
| QSort.Partition | lib/c_lib/qsort.c:174-211 | ends with a permutation split around the pivot; without a swap nothing has changed |
| QSort.QuickSort | lib/c_lib/qsort.c:136-270 | the part is sorted and permuted, other elements stay; the nesting depth d of recursive calls has 2^d at most the length |
| QSort.QSort | lib/c_lib/qsort.c:272-285 | the whole array is a sorted permutation of what it was, for any element size and total preorder |
| EhciRing.Ring.Add | src/EHCI/ehcimem.c:58-74 | a blanked descriptor joins the end of the closed ring |
| EhciRing.Ring.Get | src/EHCI/ehcimem.c:76-94 | the descriptor free for the longest time is handed out blank, none exactly if there is none |
| EhciRing.Ring.Init | src/EHCI/ehcimem.c:199-213 | from any state, the ring consists of the five descriptors |
| EhciRing.FullBalanced | src/EHCI/ehcimem.c:199-213 | after Init every descriptor of the pool is free |
| EhciRing.TransferRing.Add | src/EHCI/ehcimem.c:112-132 | the same for two links, which lead to the previous root, or nowhere in a ring that was empty |
| EhciRing.TransferRing.Get | src/EHCI/ehcimem.c:134-151 | the same; only the first link of the last descriptor follows the root |
| EhciRing.RunBalanced | src/EHCI/ehcimem.c:58-151 | on every run free descriptors are distinct and make up the pool with the outstanding ones; they are reissued in the order freed |
| EhciRing.BalancedLaws | src/EHCI/ehcimem.c:58-151 | free and outstanding descriptors add up to the pool, and the k-th taken is the k-th added |
| EhciRing.Serve | src/EHCI/ehcimem.c:161-197 | each call on a ring does what the account of the run prescribes |
| EhciRing.ServeTransfer | src/EHCI/ehcimem.c:112-151 | likewise for transfer descriptors |

## Left out

- ExprEngine.Engine.JoinPair: joining reads the two operands as values and builds a new expression.
- ExprEngine.Engine.DecideOne: extraction from the two copies, which are thrown away, is done on values.
- E_CHOICE and E_RANGE expressions, `expr_print`, and freeing expressions: leaks are not considered. A missing expression counts as y.
- ExprTransform.TransCompareSound: comparisons with y and n; for AND and OR compared with m the source returns the connective itself, which no caller asks for.
- SymbolMemo.Evaluator.SetTristateValue: choices are modelled apart from the memo, and the value of `modules_sym` is fixed; a set that changes it is not covered.
- SymbolMemo.Evaluator.CalcValue: assumes a choice-free graph that the cycle search accepts; SYMBOL_CHANGED, SYMBOL_AUTO and the cached values in properties have no counterpart.
- ChoiceGroups.Group.CalcGroup: the choice is evaluated before its members; its evaluation that starts from the visibility of a member is not modelled.
- ChoiceGroups.AtMostOneYes: members have no defaults and their visibility does not depend on other members, as the tool itself warns.
- DepGraph.Checker.CheckEverything: after the first report, marks may be wrong; what is reported then is not said.
- Ranges, `sym_toggle_tristate_value`, `sym_set_string_value`, and searching by regular expression.
- MenuFinalize.Finalizer.FinalizeRoot: finding the type of a choice, building its member list, prompt-derived reverse dependencies, and warnings are left out.
- MenuFinalize.Finalizer.InheritDeps: the conditions of all properties are updated, but the reverse dependency that a select adds to its target is not built; an entry has one prompt and a list of other properties.
- MenuMeaning.FinalConditions: the dependency on the visibility of a choice is its symbol, as in the source; what that evaluates to is ChoiceGroups.
- ExprSelf.ExprEqSelf: for expressions with y or n as an operand only one direction is stated; there two expressions can be found equal because both fold to n, so that equality is not transitive.
- ExprReduced.EliminateDupsConsistent: for normal forms, as the menu code builds them, whose simplified form has no constants.
- Dependencies.NestsConjuncts: for simplified conditions without constants; where one is y or n, only soundness and NestsMentioned are stated, and NestsUnconditional for a missing condition.
- Dependencies.NestsSound: leaves are tristate, as comparisons of other leaves are not exact (ExprTransform.TransCompareUntypedExact).
- SymLookup.Table.Lookup: the sum of characters is unbounded and taken modulo 256, as the mask on the wrapping sum does.
- ConfFile.ConfRead: opening files, messages and the search of default names; of what follows the loop, marking invisible symbols as new is covered by SaveLoad.LoadRestoresValues, ranges and the marks of choices are not.
- ConfWrite.Writer.Write: the values and the visibility of titles are taken as given during the walk.
- ConfRoundTrip.WriteRecord: the generated header is not modelled, and `fprintf` never fails.
- ConfWrite.WriteThenRead: choice-free, with a fixed value of `modules_sym`, and for files as in SaveLoad.FileRoundTrip; a title that looks like a record is dealt with by SaveLoad.LoudHeading only.
- SaveLoad.LoadRestoresValues: the same, for any sequence of records and titles.
- SaveLoad.FileRoundTrip: what is emitted has no NUL. Names of boolean and tristate symbols have at most 1010 characters. Numbers and titles have no newline and are on lines of at most 1023 characters, and so are strings of symbols whose name does not begin with a capital. Other lines cut at the buffer are covered for single records, by ConfRoundTrip.RecordRoundTrip.
- QSort.QSort: pointers are element indices, elements have at least one byte, and the truncation of counts to int is not modelled. The comparison function has no side effects.
- EhciRing.Ring.Init: addresses are objects, so that the five descriptors are distinct; the iTD ring shares the code of the queue heads.
- EhciRing.Ring.Add: a descriptor that is already free must not be added, and the byte counter must not wrap, as is so for a pool of five.
- Drivers that program hardware, terminal dialogs, `vsprintf`, and the string routines of the C library: register effects are not in the files, and the rest would add easy members only.
