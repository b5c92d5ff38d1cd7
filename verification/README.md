# A model of the Kconfig engine and of mkpimage

This project models the dependency language of Kconfig as Buildroot ships it in
`support/kconfig`, and the boot image tool `mkpimage`, and proves what they are
for.  `dafny verify dfyconfig.toml` (Dafny 4.11) checks the whole project.

Kconfig is a small compiler plus an incremental evaluator over three values
n < m < y, with `&&` as minimum, `||` as maximum and `!x` as 2 - x.

* **Expressions** (`Expressions`, `ExprEquality`, `ExprJoin`, `ExprTransform`)
  give the trees, their meaning under a valuation of the symbols, and each
  rewriting step as a function.  `ExprPaths` and `ExprSlots` rewrite in place:
  a `struct expr **` is a variable that owns a tree and the path to a slot in
  it, so that the two arguments of one call may be slots of one tree, equal or
  overlapping, as `expr_eliminate_dups1` needs.  Every in-place method is proved
  against the functions.
* **Menus** (`MenuDeps`, `MenuTree`, `Submenus`, `MenuWalk`): what `menu_finalize` hands
  down to children and properties, how it accumulates selects, which items it
  moves below a symbol, and the surgery on `next`, `list` and `parent` pointers
  while they are being walked; what the place of a node in the finished menu
  says about its dependencies; then the walk by climbing parent pointers.
  `Selects` carries the accumulated selects to the evaluated configuration.
* **Cycles** (`DepCheck`, `Ranks`): the two-flag depth-first search with its
  stack, and how far its order of the symbols is the rank evaluation needs.
* **Evaluation**: `SymbolValue` is what one symbol calculates from others and
  the set of symbols it looks at; `SymbolEval` is plain recursion along an
  acyclic relation; `SymbolLaws` says what the values are in terms of prompts,
  dependencies, defaults and ranges themselves; `SymbolCache` says when cached fields are sound and what a
  step keeps; `SymbolTable` takes the steps of `sym_calc_value`,
  `expr_calc_value` and the setter in place, and refines the plain recursion.
  `SymbolExamples` has the small configurations on which a property fails.
* **Choices** (`Choice`, `ChoiceMenus`): one choice and its values, and how the
  menu bounds the conditions of the values by the choice.
* **Configuration files** (`DefConfig`, `ConfString`, `ConfFile`): the minimal
  configuration, quoted strings, lines, the writer on top of the symbol table
  and the reader with its line buffer.
* **Boot image** (`Crc`, `CrcBursts`, `PImage`): the table-driven CRC against
  polynomial long division (the polynomial of section 3.2.9 of IEEE 802.3), the
  changes it is sure to detect, the header, its checksum and the ARM branches (section A8.8.18 of ARM DDI 0406C).

Conditions the theorems need, all of them properties of the program's inputs:

* A valuation is *sane* if a bool is never m, a bool or tristate reads as its
  letter, and only symbols of type other cannot be parsed.  Every evaluated
  configuration is sane (`SymbolEval.EvalSane`).
* An expression is *proper* if no symbol of type other is ordered and a
  tristate is compared with no constant but y, m and n.  Where a rule fails
  outside these conditions there is a lemma with the input on which it fails,
  and one that says when it is right (`ExprJoin.ConstRuleExact`,
  `ExprTransform.FlipExact`).
* Evaluation assumes that a rank orders the dependencies, and that the modules
  symbol is a typed symbol or n.  `Ranks.CheckCompleted` finds out whether there
  is a rank.
* The prompts and defaults of a choice value stand at the node that makes it a
  value (`menu.c` warns of other prompts, and of any default).
* The minimal configuration assumes that only bools and tristates are selected
  (`menu.c` warns otherwise), that the ends of a range are ordered and are
  printed so that they can be read back, that user strings are valid and have
  no newline, and that names can be found again.

Findings, where code and expectation differ:

* The comment at `expr.c:561` names the wrong result; the code in the next line
  is right.  The model follows the code.
* `sym_check_deps` returns NULL for every symbol, cyclic or not, so that
  `conf_parse` never counts an error; a report, not the result, tells that there
  is a cycle (`DepCheck.Checker.CheckAll`, `DepCheck.CheckTwo`).
* The search for cycles follows neither implied symbols nor ends of ranges: a
  symbol may imply another that it depends on (`Ranks.ImpliedUnseen`).
* A value that is not visible may be y by default although another value of the
  choice is the chosen one (`Choices.Choice.OneChosenExact`).
* Setting a tristate to the value it already has may change its value without
  clearing the cache, exactly if it is capped (`SymbolCache.KeptBySet`,
  `SymbolCache.CappedExample`, `SymbolTables.SetCapped`).
* The range test of the setter refuses a value that would come back, exactly
  for y of a symbol implied by y, visible as m and not selected
  (`SymbolEval.RangeTestExact`, `SymbolExamples.RefusedExample`).
* A minimal configuration may lose the value of a tristate, exactly if it is
  pinned (`DefConfig.ReloadKeepsValues`, `DefConfig.PinnedExample`).
* The least input `mkpimage` asks for is enough for version 0, but version 1
  without a barebox header needs more than 84 bytes (`PImage.ProgramLayout`);
  with 81 to 84 the CRC takes the place of the trampoline
  (`PImage.TrampolineOverwritten`, `PImage.AddTightHeader`), and with 80 the
  trampoline is written behind the buffer (`PImage.AddShortHeader`).

## Model

| member | source | states |
|---|---|---|
| `Expressions.CmpLetter` | `dl/buildroot-2021.08-p3/support/kconfig/expr.c:1064-1101` | under a sane valuation a bool or tristate compared by = or != with the constant y, m or n gives y exactly when their tristates stand in that relation, although the code compares strings |
| `Expressions.ValueCongruence` | `dl/buildroot-2021.08-p3/support/kconfig/expr.c:1026-1104` | the value of an expression depends only on the readings of the symbols that occur in it |
| `Expressions.NumbersOrdered` | `dl/buildroot-2021.08-p3/support/kconfig/expr.c:1064-1101` | for two operands that parse as signed numbers a and b the six relations are y exactly when a and b stand in them, and likewise for 64-bit words of which one is unsigned |
| `Expressions.TextsOrdered` | `dl/buildroot-2021.08-p3/support/kconfig/expr.c:1064-1101` | two strings are ordered at the first character in which they differ, and a text comes before its continuations; all six relations follow |
| `Expressions.OthersUnordered` | `dl/buildroot-2021.08-p3/support/kconfig/expr.c:1074-1081` | with an operand that cannot be parsed the four orderings are n, and equality is that of the strings |
| `ExprEquality.EliminateYnMeaning` | `dl/buildroot-2021.08-p3/support/kconfig/expr.c:308-389` | removing y and n operands keeps the value in every valuation |
| `ExprEquality.EliminateYnShape` | `dl/buildroot-2021.08-p3/support/kconfig/expr.c:308-389` | no constant operand is left; a tree without one is unchanged and a tree with one gets strictly smaller (what makes the deduplication loop end) |
| `ExprEquality.LevelFactor` | `dl/buildroot-2021.08-p3/support/kconfig/expr.c:149-205` | one pass at one operator takes the same factor k out of both sides: old e1 = k op new e1 and old e2 = k op new e2, in every valuation |
| `ExprEquality.EliminateEqFactor` | `dl/buildroot-2021.08-p3/support/kconfig/expr.c:220-240` | expr_eliminate_eq removes one genuine common factor by one operator, whatever the shapes of the two sides |
| `ExprEquality.ExprEqSound` | `dl/buildroot-2021.08-p3/support/kconfig/expr.c:251-295` | expressions that expr_eq calls equal have the same value in every valuation |
| `ExprEquality.LevelLive` | `dl/buildroot-2021.08-p3/support/kconfig/expr.c:149-205` | the operands a pass leaves live on each side are exactly the multiset difference of the two levels |
| `ExprEquality.ExprEqExact` | `dl/buildroot-2021.08-p3/support/kconfig/expr.c:242-295` | on expressions without constant operands expr_eq says yes if and only if the two are equal up to order and grouping of operands at every level |
| `ExprEquality.LevelNothingCommon` | `dl/buildroot-2021.08-p3/support/kconfig/expr.c:149-205` | afterwards no operand of one side equals one of the other, except pairs that are both struck out |
| `ExprJoin.JoinMeaning` | `dl/buildroot-2021.08-p3/support/kconfig/expr.c:423-579` | when expr_join_or or expr_join_and joins two operands, the result means what both mean together under every sane valuation, keeps well-formedness and is strictly smaller than the two |
| `ExprJoin.JoinOrExact` | `dl/buildroot-2021.08-p3/support/kconfig/expr.c:423-485` | two different operands join by || to r if and only if r is s != d for two of the three values of a tristate with d the third, or y for a bool and its negation |
| `ExprJoin.JoinAndExact` | `dl/buildroot-2021.08-p3/support/kconfig/expr.c:487-579` | two different operands join by && to r if and only if they and r are one of the five listed forms, with symbols and constants spelled out |
| `ExprJoin.ConstRuleExact` | `dl/buildroot-2021.08-p3/support/kconfig/expr.c:532-545` | for a tristate a and two constants, the rule for (a=b) && (a!=c) keeps the meaning under every sane valuation if and only if the constants are the same or both are among y, m and n |
| `ExprJoin.ConstRuleByName` | `dl/buildroot-2021.08-p3/support/kconfig/expr.c:532-545` | when moreover every constant reads as its name, as evaluated constants do, the rule is right if and only if the constants are the same or no tristate equals both names: 2 and y collide, 2 and 3 do not |
| `ExprJoin.ConstRuleFails` | `dl/buildroot-2021.08-p3/support/kconfig/expr.c:532-545` | a tristate, the constant 2 and y: a concrete input on which that rule changes the value |
| `ExprTransform.TransformNormal` | `dl/buildroot-2021.08-p3/support/kconfig/expr.c:686-841` | afterwards ! stands only directly above a symbol other than y, m and n, and no bool is tested against y, m or n |
| `ExprTransform.TransformIdempotent` | `dl/buildroot-2021.08-p3/support/kconfig/expr.c:686-841` | transforming twice is transforming once |
| `ExprTransform.TransformMeaning` | `dl/buildroot-2021.08-p3/support/kconfig/expr.c:686-841` | expr_transform keeps the three-valued meaning of every well-formed expression under every sane valuation |
| `ExprTransform.FlipExact` | `dl/buildroot-2021.08-p3/support/kconfig/expr.c:729-771` | replacing a negated relation by its opposite keeps the value if and only if it is = or !=, or the operands can be compared |
| `ExprTransform.FlipFails` | `dl/buildroot-2021.08-p3/support/kconfig/expr.c:729-771` | two operands of type other and <= : a concrete input on which the replacement changes the value |
| `ExprTransform.TransBoolKeepsNo` | `dl/buildroot-2021.08-p3/support/kconfig/expr.c:394-418` | on transformed expressions expr_trans_bool keeps whether the value is n, and keeps the normal form |
| `ExprTransform.TransBoolRemoves` | `dl/buildroot-2021.08-p3/support/kconfig/expr.c:394-418` | afterwards no tristate is tested for being != n, and an expression without such a test is unchanged |
| `ExprTransform.TransBoolFails` | `dl/buildroot-2021.08-p3/support/kconfig/expr.c:394-418` | below a ! over a comparison it does not: concrete n that becomes m |
| `ExprTransform.TransBoolNotExact` | `dl/buildroot-2021.08-p3/support/kconfig/expr.c:394-418` | on a single ! over a comparison it keeps whether the value is n if and only if the comparison is not != n of a tristate that is m; menu.c passes only transformed expressions, which have no such ! |
| `ExprTransform.TransCompareExact` | `dl/buildroot-2021.08-p3/support/kconfig/expr.c:914-977` | comparison with y or n is pushed to the leaves so that the result is y or n, and y exactly when the value stands in the relation, unless an operand of a ! is m |
| `ExprTransform.TransCompareNotExact` | `dl/buildroot-2021.08-p3/support/kconfig/expr.c:945-946` | for a single ! the result is right if and only if its operand is not m |
| `ExprTransform.TransCompareMod` | `dl/buildroot-2021.08-p3/support/kconfig/expr.c:925-967` | comparison with m, of any expression: on a symbol or comparison right if and only if an even number of ! stands above it, and on && and || below any number of ! right if and only if the whole is n |
| `ExprTransform.RewriteMMeaning` | `dl/buildroot-2021.08-p3/support/kconfig/menu.c:81-104` | the rewritten expression has the value of the original with the constant m limited by the modules symbol |
| `ExprTransform.LimitedModExact` | `dl/buildroot-2021.08-p3/support/kconfig/menu.c:81-104` | limiting m by the modules symbol changes nothing but the tristate of m, which becomes the minimum of both |
| `ExprPaths.JoinedMeaning` | `dl/buildroot-2021.08-p3/support/kconfig/expr.c:617-654` | overwriting one operand of a level by the join of two and the other by the neutral constant keeps the meaning of the whole, aliased tree |
| `ExprPaths.JoinedShape` | `dl/buildroot-2021.08-p3/support/kconfig/expr.c:617-654` | that write keeps the level, never grows the tree and leaves a constant operand for the clean-up to remove |
| `ExprSlots.ExprVar.EliminateYnAt` | `dl/buildroot-2021.08-p3/support/kconfig/expr.c:308-389` | in place: the slot ends up with exactly what the specification function gives, and nothing outside it changes |
| `ExprSlots.ExprVar.TransBoolAt` | `dl/buildroot-2021.08-p3/support/kconfig/expr.c:394-418` | in place: the slot ends up with the specified tree and nothing else changes |
| `ExprSlots.ExprVar.RewriteMAt` | `dl/buildroot-2021.08-p3/support/kconfig/menu.c:81-104` | in place: the slot ends up with the specified tree and nothing else changes |
| `ExprSlots.ExprVar.TransformAt` | `dl/buildroot-2021.08-p3/support/kconfig/expr.c:686-841` | in place, re-transforming transformed children under De Morgan: the slot ends up with the specified tree and nothing else changes |
| `ExprSlots.ExprVar.EliminateLevel` | `dl/buildroot-2021.08-p3/support/kconfig/expr.c:149-205` | in place, through two slots of two trees: both end up as specified |
| `ExprSlots.ExprVar.EliminateEqWith` | `dl/buildroot-2021.08-p3/support/kconfig/expr.c:220-240` | in place: the two variables end up with the two sides the factor theorem is about |
| `ExprSlots.ExprVar.Dups1` | `dl/buildroot-2021.08-p3/support/kconfig/expr.c:588-654` | on two slots of one tree that may be equal or overlap: the tree keeps its meaning and does not grow; if trans_count rose there is a constant operand, and if it did not nothing changed and no two different operands below the slots join |
| `ExprSlots.ExprVar.EliminateDups` | `dl/buildroot-2021.08-p3/support/kconfig/expr.c:656-678` | the loop ends; the result means the same under every sane valuation, is no larger, keeps the normal form, has no two operands on any level that could still be joined, and trans_count is restored |
| `MenuDeps.PropagatedMeaning` | `dl/buildroot-2021.08-p3/support/kconfig/menu.c:343-368` | the dependency handed down means: what the parent demands, and the own dependency with m limited by the modules symbol |
| `MenuDeps.Propagate` | `dl/buildroot-2021.08-p3/support/kconfig/menu.c:343-368` | rewrite_m, expr_transform, conjunction and deduplication together give that meaning, deduplicated |
| `MenuDeps.Dependencies.FinalizeProps` | `dl/buildroot-2021.08-p3/support/kconfig/menu.c:372-407` | every property condition has the inherited meaning (for non-tristates: the same n-ness), and rev_dep and implied of every symbol gain exactly the contributions of these properties |
| `MenuDeps.Dependencies.FinalizeChildren` | `dl/buildroot-2021.08-p3/support/kconfig/menu.c:343-410` | the same over all children: nothing is added to rev_dep or implied but what the selects and implies contribute, and no contribution is lost |
| `MenuDeps.AddedConcat` | `dl/buildroot-2021.08-p3/support/kconfig/menu.c:404-411` | what two lists of nodes add to rev_dep and implied one after the other is what the concatenated list adds |
| `MenuDeps.Dependencies.FinalizeForest` | `dl/buildroot-2021.08-p3/support/kconfig/menu.c:335-424` | over the recursion: every node of the tree inherits what its parent hands down, and rev_dep and implied of every symbol gain exactly the contributions of all nodes of the tree |
| `MenuDeps.ContributionReaches` | `dl/buildroot-2021.08-p3/support/kconfig/menu.c:392-407` | the accumulated disjunction is at least the contribution of every single select or imply |
| `MenuDeps.ContributionAttained` | `dl/buildroot-2021.08-p3/support/kconfig/menu.c:392-407` | the accumulated disjunction is n or exactly the minimum of symbol and condition of one of the selects or implies: nothing else is in it |
| `MenuDeps.HandedDownExact` | `dl/buildroot-2021.08-p3/support/kconfig/menu.c:335-341` | a node with a prompt hands down the condition of its prompt, one without its own dependency |
| `MenuDeps.ContainsExact` | `dl/buildroot-2021.08-p3/support/kconfig/expr.c:843-869` | expr_contains_symbol says yes if and only if the symbol occurs |
| `MenuDeps.DependsSound` | `dl/buildroot-2021.08-p3/support/kconfig/expr.c:871-902` | if expr_depends_symbol says yes, the expression is n whenever the symbol is n |
| `MenuDeps.DependsExact` | `dl/buildroot-2021.08-p3/support/kconfig/expr.c:871-902` | it says yes if and only if one of the operands of the && chain is the symbol, its = y, = m or != n |
| `MenuDeps.SupersetSound` | `dl/buildroot-2021.08-p3/support/kconfig/menu.c:448-487` | if elimination leaves y of the symbol's condition, then whenever the item's dependency is not n the symbol's prompt condition is not n |
| `MenuDeps.BelongsBelow` | `dl/buildroot-2021.08-p3/support/kconfig/menu.c:456-487` | the decision to put an item below a symbol: never an item whose dependency does not mention it, always one that depends on it absolutely, and any other if and only if taking out what the two simplified conditions share leaves y of the symbol's; then the dependency implies the prompt condition |
| `Submenus.Decide` | `dl/buildroot-2021.08-p3/support/kconfig/menu.c:451-487` | the test on two menu nodes, with the condition of the prompt or the own dependency: a yes means that the item mentions the symbol and, whenever its demand is met, that the symbol is not n (absolute dependency) or that its prompt is visible; every absolute dependency gets a yes |
| `Submenus.FinalizedPlaced` | `dl/buildroot-2021.08-p3/support/kconfig/menu.c:369-576` | whatever the test: after submenu creation and flattening every node stands below a node it can be reached from by steps to a child in the source or to an item that belongs below |
| `MenuTree.SubmenuTakes` | `dl/buildroot-2021.08-p3/support/kconfig/menu.c:453-494` | every item of an unbroken run of items that belong below a symbol is taken below it, with all that stands below the item |
| `Submenus.FinalizeMenu` | `dl/buildroot-2021.08-p3/support/kconfig/menu.c:296-576` | links and expressions together: the decisions are those the expressions give, the finished menu keeps the preorder, every node in it can be reached from each node it stands below by steps to a child in the source or to an item that needs the symbol it follows, and what stands below a node with a prompt text in the source, or belongs below such a symbol, stands below it |
| `MenuTree.FinalizedPreorder` | `dl/buildroot-2021.08-p3/support/kconfig/menu.c:423-424` | submenu creation and flattening keep the preorder of the nodes: none is lost, duplicated or moved |
| `MenuTree.FinalizedInOrder` | `dl/buildroot-2021.08-p3/support/kconfig/menu.c:567-576` | afterwards only nodes with a prompt text have a list below them, and the first item left after a symbol does not belong below it |
| `MenuTree.FlattenedUnder` | `dl/buildroot-2021.08-p3/support/kconfig/menu.c:539-576` | flattening leaves below a node with a prompt text whatever stands below it, at any depth |
| `MenuTree.FinishedDue` | `dl/buildroot-2021.08-p3/support/kconfig/menu.c:296-576` | in the finished menu there stands below every node with a prompt text whatever stood below it in the source, and below every such symbol without a list the run of following items that belong below it |
| `MenuTree.MenuLinks.Finalize` | `dl/buildroot-2021.08-p3/support/kconfig/menu.c:296-605` | on next, list and parent pointers that are re-linked while being walked: the pointers spell exactly the specified tree, only nodes at or after the argument changed, and the calls made are logged in preorder |
| `MenuTree.MenuLinks.FinalizeRoot` | `dl/buildroot-2021.08-p3/support/kconfig/menu.c:296-605` | from the root: the preorder of all nodes is kept, every node of a list has the node above as parent, each node is finalised exactly once, only nodes with a prompt text keep a list, and they keep all that is due below them |
| `MenuTree.MenuLinks.MakeSubmenu` | `dl/buildroot-2021.08-p3/support/kconfig/menu.c:452-494` | the items taken become the list below the symbol with it as parent; the others stay after it |
| `MenuTree.MenuLinks.Flatten` | `dl/buildroot-2021.08-p3/support/kconfig/menu.c:567-576` | the lists of nodes without prompt text move up behind them and their nodes get the new parent |
| `MenuTree.MenuLinks.Reparent` | `dl/buildroot-2021.08-p3/support/kconfig/menu.c:569-573` | every node of the moved list gets the new parent and the last one is returned |
| `MenuWalk.Climb` | `dl/buildroot-2021.08-p3/support/kconfig/confdata.c:727-734` | climbing parent pointers reaches the next unvisited node in preorder, or leaves the tree if there is none |
| `MenuWalk.Walk` | `dl/buildroot-2021.08-p3/support/kconfig/confdata.c:680-735` | the walk without a stack visits every node below the root exactly once, in recursive preorder, and ends |
| `DepCheck.OrderedIsAcyclic` | `dl/buildroot-2021.08-p3/support/kconfig/symbol.c:1312-1344` | if everything a symbol depends on finishes before it, no cycle lies among the finished symbols |
| `DepCheck.DepsExact` | `dl/buildroot-2021.08-p3/support/kconfig/symbol.c:1241-1273` | a symbol is followed if and only if it occurs in the rev_dep, in the condition of a property that is neither choice nor select, or in the value of a default |
| `DepCheck.SelectIgnored` | `dl/buildroot-2021.08-p3/support/kconfig/symbol.c:1253-1255` | one select or choice property more or less changes no edge and no cycle |
| `DepCheck.Checker.PrintRecursive` | `dl/buildroot-2021.08-p3/support/kconfig/symbol.c:1120-1204` | called only for a symbol on the stack; what is reported is a cycle that starts and ends at that symbol |
| `DepCheck.Checker.CheckDeps` | `dl/buildroot-2021.08-p3/support/kconfig/symbol.c:1312-1344` | marks and stack are restored, a symbol that is returned is on the stack and was reported, and otherwise the symbol and all it depends on are finished |
| `DepCheck.Checker.CheckAll` | `dl/buildroot-2021.08-p3/support/kconfig/zconf.y:554-559` | a sweep over all symbols reports nothing if and only if the followed relation has no cycle, every report is a cycle, and without reports the relation has a rank; but every result is NULL, whatever the graph, so that the caller never counts an error |
| `DepCheck.CheckTwo` | `dl/buildroot-2021.08-p3/support/kconfig/symbol.c:1340-1341` | on two symbols that depend on each other the cycle is reported and both results are NULL |
| `DepCheck.OrderedDescends` | `dl/buildroot-2021.08-p3/support/kconfig/symbol.c:1312-1344` | the order in which symbols are finished is a rank along which all followed dependencies descend |
| `Ranks.CompletedDeps` | `dl/buildroot-2021.08-p3/support/kconfig/symbol.c:1241-1273` | the definitions completed by implying symbols, own dependency, ends of ranges and, for a tristate, the modules symbol have exactly the dependencies that evaluation has |
| `Ranks.CheckCompleted` | `dl/buildroot-2021.08-p3/support/kconfig/symbol.c:1312-1345` | on completed definitions the search reports nothing if and only if there is a rank along which the configuration can be evaluated |
| `Ranks.SearchedIsEnough` | `dl/buildroot-2021.08-p3/support/kconfig/symbol.c:1241-1273` | on the definitions as they are a rank of the followed relation does as well, if what the search does not follow is named in what it follows |
| `Ranks.ImpliedUnseen` | `dl/buildroot-2021.08-p3/support/kconfig/symbol.c:1249-1269` | B depends on A and implies it: no cycle is found, and no rank exists |
| `SymbolValue.CalcAgrees` | `dl/buildroot-2021.08-p3/support/kconfig/symbol.c:357-498` | the calculated value depends on nothing but the symbols whose values are actually looked at, short-circuits included |
| `SymbolValue.CalcSameUser` | `dl/buildroot-2021.08-p3/support/kconfig/symbol.c:412-420` | and on no user value but the symbol's own |
| `SymbolEval.EvalUnfold` | `dl/buildroot-2021.08-p3/support/kconfig/symbol.c:357-498` | along an acyclic relation the value is the one calculated from the values of all symbols: the defining equation, independent of any order |
| `SymbolLaws.VisibleExact` | `dl/buildroot-2021.08-p3/support/kconfig/symbol.c:209-241` | a symbol is as visible as its best prompt, where m counts as y for what cannot be m, and not visible if no prompt condition holds |
| `SymbolLaws.DependenciesExact` | `dl/buildroot-2021.08-p3/support/kconfig/symbol.c:242-269` | dir_dep is y without a dependency, rev_dep and implied are n without one, and implied is n where the own dependency is n; else they are the values of their expressions |
| `SymbolLaws.UserDecides` | `dl/buildroot-2021.08-p3/support/kconfig/symbol.c:405-444` | a bool or tristate with a visible user value has that value, up to its visibility and at least rev_dep |
| `SymbolLaws.DefaultDecides` | `dl/buildroot-2021.08-p3/support/kconfig/symbol.c:423-444` | without one it has the maximum of implied, rev_dep and, for the first default whose condition is not n, the minimum of its value and condition; m is promoted where the type or an implied y asks |
| `SymbolLaws.NothingDecides` | `dl/buildroot-2021.08-p3/support/kconfig/symbol.c:423-444` | without a default that applies it has the maximum of implied and rev_dep |
| `SymbolLaws.TextDecides` | `dl/buildroot-2021.08-p3/support/kconfig/symbol.c:448-463` | the string of a symbol is its visible user string, else that of the symbol named by the first default that applies, else empty |
| `SymbolLaws.RangeDecides` | `dl/buildroot-2021.08-p3/support/kconfig/symbol.c:139-187` | a number outside its first range that applies becomes the low end if it is below it, else the high end; every other string stays |
| `SymbolLaws.WrittenExact` | `dl/buildroot-2021.08-p3/support/kconfig/symbol.c:396-430` | a symbol that is not visible is written if and only if it is selected, implied, or has a default other than n, or for strings and numbers a default that names a symbol |
| `SymbolLaws.NamesDecide` | `dl/buildroot-2021.08-p3/support/kconfig/symbol.c:386-390` | constants and symbols without a type have their names as values |
| `SymbolLaws.ReadingExact` | `dl/buildroot-2021.08-p3/support/kconfig/symbol.c:804-823` | what expressions read of a symbol: its letter, where m without modules reads as n, or its string, parsed for its type |
| `SymbolEval.ClosedIsEval` | `dl/buildroot-2021.08-p3/support/kconfig/symbol.c:357-498` | any set of symbols that read only each other and hold what they calculate holds exactly these values |
| `SymbolEval.EvalSameUser` | `dl/buildroot-2021.08-p3/support/kconfig/symbol.c:357-498` | user values of symbols that do not come before a symbol do not matter to it |
| `SymbolEval.NoModWithoutModules` | `dl/buildroot-2021.08-p3/support/kconfig/symbol.c:442-444` | without modules no bool or tristate is m |
| `SymbolEval.EvalSane` | `dl/buildroot-2021.08-p3/support/kconfig/symbol.c:357-498` | the evaluated configuration is a sane valuation: the assumption under which the expression rewriter was proved |
| `SymbolEval.AtLeastRevDep` | `dl/buildroot-2021.08-p3/support/kconfig/symbol.c:437-444` | a bool or tristate is at least the value of its rev_dep |
| `SymbolEval.SelectHonoured` | `dl/buildroot-2021.08-p3/support/kconfig/menu.c:392-407` | with the rev_deps added by a list of nodes, every select of every node is honoured in the evaluated configuration: the target is at least the minimum of selector and condition |
| `Selects.FinalizeMenus` | `dl/buildroot-2021.08-p3/support/kconfig/menu.c:296-424` | menu_finalize on the whole tree: every configuration with the rev_deps it accumulates honours every select of every node |
| `SymbolEval.SetThenGet` | `dl/buildroot-2021.08-p3/support/kconfig/symbol.c:511-566` | a value sym_tristate_within_range accepts is the value after setting and evaluating again |
| `SymbolEval.WithinRangeExact` | `dl/buildroot-2021.08-p3/support/kconfig/symbol.c:511-530` | the test accepts exactly the values that come back, of a symbol the user can change, if and only if it does not refuse y for a symbol implied by y, visible as m and not selected |
| `SymbolEval.RangeTestExact` | `dl/buildroot-2021.08-p3/support/kconfig/symbol.c:511-530` | the same in an evaluated configuration, for every symbol and user value |
| `SymbolExamples.RefusedExample` | `dl/buildroot-2021.08-p3/support/kconfig/symbol.c:525-529` | a concrete acyclic configuration in which the test refuses the y that comes back |
| `SymbolCache.SoundIsEval` | `dl/buildroot-2021.08-p3/support/kconfig/symbol.c:357-498` | a sound cache, in which every valid symbol holds what it calculates from valid symbols, holds the values of the plain recursion |
| `SymbolCache.SettledKept` | `dl/buildroot-2021.08-p3/support/kconfig/symbol.c:366-376` | a step that changes only symbols no finished symbol has read leaves the finished ones right |
| `SymbolCache.KeptBySet` | `dl/buildroot-2021.08-p3/support/kconfig/symbol.c:561-563` | giving a symbol the user value it already has, without clearing anything, leaves the cache sound if and only if it is not cached or not capped: visible as m, y, and neither selected nor implied by y |
| `SymbolCache.BoolNotCapped` | `dl/buildroot-2021.08-p3/support/kconfig/symbol.c:561-563` | a bool is never capped |
| `SymbolCache.CappedExample` | `dl/buildroot-2021.08-p3/support/kconfig/symbol.c:561-563` | a concrete acyclic configuration with a capped tristate: it is y by default, and m once set to y |
| `SymbolTables.SetCapped` | `dl/buildroot-2021.08-p3/support/kconfig/symbol.c:532-566` | the cache of that configuration after setting the y it has: it still says y, and m after clearing |
| `SymbolCache.SetOutcome` | `dl/buildroot-2021.08-p3/support/kconfig/symbol.c:532-566` | after an accepted setting the symbol has the value set if and only if it is not capped |
| `SymbolTables.SymbolTable.CalcExpr` | `dl/buildroot-2021.08-p3/support/kconfig/expr.c:1026-1104` | evaluating every operand, short-circuiting none: the result is the value of the expression over the cache, all its symbols become valid, and no valid symbol changes |
| `SymbolTables.SymbolTable.CalcVisibility` | `dl/buildroot-2021.08-p3/support/kconfig/symbol.c:209-270` | visible, dir_dep, rev_dep and implied end up as defined, read only finished symbols, and nothing else changes |
| `SymbolTables.SymbolTable.GetDefaultProp` | `dl/buildroot-2021.08-p3/support/kconfig/symbol.c:115-125` | the first default whose condition is not n, with the value of that condition |
| `SymbolTables.SymbolTable.GetRangeProp` | `dl/buildroot-2021.08-p3/support/kconfig/symbol.c:127-137` | the first range whose condition is not n |
| `SymbolTables.SymbolTable.ValidateRange` | `dl/buildroot-2021.08-p3/support/kconfig/symbol.c:155-187` | the string is replaced by the low end if below, by the high end if above, and the high end is evaluated only if the low end is reached |
| `SymbolTables.SymbolTable.CalcOwnTri` | `dl/buildroot-2021.08-p3/support/kconfig/symbol.c:405-444` | user value, default, implied and selecting value combine as defined, and SYMBOL_WRITE is set exactly when defined |
| `SymbolTables.SymbolTable.CalcOwnText` | `dl/buildroot-2021.08-p3/support/kconfig/symbol.c:446-465` | user string or default string as defined, and SYMBOL_WRITE set exactly when defined |
| `SymbolTables.SymbolTable.CalcValue` | `dl/buildroot-2021.08-p3/support/kconfig/symbol.c:357-498` | in place and recursive, from any sound cache with any set of symbols under calculation: the symbol becomes valid with its defined value, the cache stays sound and no valid symbol changes; the recursion ends |
| `SymbolTables.SymbolTable.ClearAllValid` | `dl/buildroot-2021.08-p3/support/kconfig/symbol.c:500-509` | afterwards the cache is sound and the modules symbol known, whatever was cached before |
| `SymbolTables.SymbolTable.Calculate` | `dl/buildroot-2021.08-p3/support/kconfig/symbol.c:357-498` | the cached value is the value of the plain recursion |
| `SymbolTables.SymbolTable.CalculateAll` | `dl/buildroot-2021.08-p3/support/kconfig/symbol.c:500-509` | after clearing, evaluating symbols in any order gives each its value by plain recursion |
| `SymbolTables.SymbolTable.TristateWithinRange` | `dl/buildroot-2021.08-p3/support/kconfig/symbol.c:511-530` | the sequence of tests decides the range predicate the set-then-get theorem is about |
| `SymbolTables.SymbolTable.SetTristateValue` | `dl/buildroot-2021.08-p3/support/kconfig/symbol.c:532-566` | refused settings change nothing; accepted ones set exactly one user value, and the cache is sound afterwards if and only if the value changed, was not cached, or is not capped |
| `SymbolTables.SymbolTable.SetThenGet` | `dl/buildroot-2021.08-p3/support/kconfig/symbol.c:532-566` | set, clear and calculate: the value read back is the value set if and only if it is not capped |
| `SymbolTables.SymbolTable.Run` | `dl/buildroot-2021.08-p3/support/kconfig/symbol.c:532-566` | after any run of calculations and settings of bools every valid symbol holds the value of the plain recursion |
| `SymbolTables.SymbolTable.ClearWrite` | `dl/buildroot-2021.08-p3/support/kconfig/confdata.c:692` | taking SYMBOL_WRITE from a symbol disturbs nothing else |
| `SymbolTables.SymbolTable.GetStringValue` | `dl/buildroot-2021.08-p3/support/kconfig/symbol.c:803-825` | the string is that of the evaluated symbol, and calculating it disturbs no valid symbol |
| `SymbolTables.SymbolTable.SeeAgain` | `dl/buildroot-2021.08-p3/support/kconfig/symbol.c:739` | calculating the limits of a valid symbol once more sets them to what they are |
| `SymbolTables.SymbolTable.GetStringDefault` | `dl/buildroot-2021.08-p3/support/kconfig/symbol.c:732-801` | the string is the default defined over the evaluated configuration |
| `DefConfig.DefaultLetter` | `dl/buildroot-2021.08-p3/support/kconfig/symbol.c:725-801` | for a bool or tristate sym_get_string_default is the letter of the value it would have without a user value |
| `DefConfig.LogicSavedExact` | `dl/buildroot-2021.08-p3/support/kconfig/confdata.c:694-722` | a bool or tristate is saved if and only if it can be changed and its value differs from the one without its user value |
| `DefConfig.TextSavedExact` | `dl/buildroot-2021.08-p3/support/kconfig/confdata.c:694-722` | a string or number is saved if and only if it can be changed and is not what its first default that applies names |
| `DefConfig.DecimalExact` | `dl/buildroot-2021.08-p3/support/kconfig/symbol.c:591-632` | the valid decimal strings are exactly the numerals without leading zeros, with or without a minus sign |
| `DefConfig.HexExact` | `dl/buildroot-2021.08-p3/support/kconfig/symbol.c:591-632` | the valid hexadecimal strings are exactly 0x, 0X or nothing before at least one hexadecimal digit |
| `DefConfig.StringRangeExact` | `dl/buildroot-2021.08-p3/support/kconfig/symbol.c:634-662` | a number is within range if and only if it is valid and lies between the ends of its first range that applies |
| `DefConfig.LogicKept` | `dl/buildroot-2021.08-p3/support/kconfig/confdata.c:688-698` | with its operands unchanged a bool or tristate has its value after saving and loading if and only if it is not pinned |
| `DefConfig.TextKept` | `dl/buildroot-2021.08-p3/support/kconfig/confdata.c:688-698` | with its operands unchanged a string or number always has its value back, ranges with ordered ends included |
| `DefConfig.ReloadKeepsValues` | `dl/buildroot-2021.08-p3/support/kconfig/confdata.c:667-738` | saving a minimal configuration and loading it keeps the value of every symbol if and only if no symbol is pinned: a tristate with a user value, selected as m, visible as m, not implied by y, with default y |
| `DefConfig.ReloadKeepsBools` | `dl/buildroot-2021.08-p3/support/kconfig/confdata.c:667-738` | in particular it keeps all values if no tristate has a user value |
| `DefConfig.PinnedExample` | `dl/buildroot-2021.08-p3/support/kconfig/confdata.c:694-695` | a concrete acyclic configuration with a pinned tristate that meets all conditions: its value is m, nothing is saved, and after loading its value is y |
| `DefConfig.SavedValid` | `dl/buildroot-2021.08-p3/support/kconfig/symbol.c:591-632` | every string or number that is saved passes the validity test of the reader |
| `DefConfig.SecondPassKeeps` | `dl/buildroot-2021.08-p3/support/kconfig/confdata.c:448-471` | the second pass of conf_read resets no loaded user value: each belongs to a visible symbol and is within its range |
| `ConfString.UnescapeEscaped` | `dl/buildroot-2021.08-p3/support/kconfig/confdata.c:160-174` | reading what was written gives back every string, whatever follows the closing quote |
| `ConfString.UnescapeText` | `dl/buildroot-2021.08-p3/support/kconfig/confdata.c:161-174` | any quoted text, however its characters are escaped, reads as its characters |
| `ConfString.UnescapeOpen` | `dl/buildroot-2021.08-p3/support/kconfig/confdata.c:161-174` | a text without a closing quote is refused |
| `ConfString.EscapedExact` | `dl/buildroot-2021.08-p3/support/kconfig/symbol.c:962-998` | the quoted string has a backslash before exactly its quotes and backslashes |
| `ConfString.CountEscaped` | `dl/buildroot-2021.08-p3/support/kconfig/symbol.c:969-981` | the first pass counts the bytes of the quoted string and its terminator |
| `ConfString.EscapeStringValue` | `dl/buildroot-2021.08-p3/support/kconfig/symbol.c:962-1003` | the second pass writes the quoted string and fills exactly the bytes counted |
| `ConfString.DropBackslash` | `dl/buildroot-2021.08-p3/support/kconfig/confdata.c:163-169` | one turn of the loop, with memmove in the buffer: what was decoded so far and what is left still decode to the whole, also if the string ends in a backslash |
| `ConfString.Unescape` | `dl/buildroot-2021.08-p3/support/kconfig/confdata.c:161-174` | the loop in the line buffer succeeds if and only if there is a closing quote, and then leaves the decoded, terminated string in place |
| `ConfFile.ParsePrintedNotSet` | `dl/buildroot-2021.08-p3/support/kconfig/confdata.c:315-323` | a printed "is not set" line is read as that name |
| `ConfFile.ParsePrintedAssignment` | `dl/buildroot-2021.08-p3/support/kconfig/confdata.c:347-356` | a printed assignment is read as that name and value, line end removed |
| `ConfFile.PrintedLines` | `dl/buildroot-2021.08-p3/support/kconfig/confdata.c:487-507` | the printed lines letter by letter, for every type |
| `ConfFile.ParseAnyNotSet` | `dl/buildroot-2021.08-p3/support/kconfig/confdata.c:315-323` | any comment that a name is not set, whatever follows, is read as that name |
| `ConfFile.ParseAnyAssignment` | `dl/buildroot-2021.08-p3/support/kconfig/confdata.c:347-356` | any assignment is read as name and value, whether the line ends with a newline or carriage return and newline |
| `ConfFile.LettersRead` | `dl/buildroot-2021.08-p3/support/kconfig/confdata.c:130-160` | the first letter gives a bool or tristate its user value: y, n, and m for a tristate only |
| `ConfFile.StringsRead` | `dl/buildroot-2021.08-p3/support/kconfig/confdata.c:161-174` | a string starts with a quote and has a closing one, and is then decoded; any other text is refused |
| `ConfFile.LoadPrintedLine` | `dl/buildroot-2021.08-p3/support/kconfig/confdata.c:487-507` | for every type, loading the line printed for a value gives the symbol that value as user value |
| `ConfFile.MinimalReloads` | `dl/buildroot-2021.08-p3/support/kconfig/confdata.c:667-738` | loading the lines of a minimal configuration gives exactly the saved symbols their values as user values |
| `ConfFile.MinimalKeepsValues` | `dl/buildroot-2021.08-p3/support/kconfig/confdata.c:667-738` | end to end over text: writing and reading a minimal configuration keeps every value if and only if no symbol is pinned |
| `ConfFile.WriteDefconfig` | `dl/buildroot-2021.08-p3/support/kconfig/confdata.c:667-738` | clearing, calculating and taking SYMBOL_WRITE on the way, the loop over the menu entries writes exactly the lines of the minimal configuration, each symbol once |
| `ConfFile.SavedToInOrder` | `dl/buildroot-2021.08-p3/support/kconfig/confdata.c:680-738` | the symbols are saved once each, in the order in which they first occur in the menu |
| `ConfFile.SaveMenus` | `dl/buildroot-2021.08-p3/support/kconfig/confdata.c:667-738` | on the menu tree: the walk by pointers and the writer together write the minimal configuration of the nodes in preorder |
| `ConfFile.SetSymVal` | `dl/buildroot-2021.08-p3/support/kconfig/confdata.c:125-193` | on the line buffer: the user value is the one the string denotes for the type, or none |
| `ConfFile.ReadSimple` | `dl/buildroot-2021.08-p3/support/kconfig/confdata.c:312-401` | the user values after all lines are those the lines denote, in order |
| `Choices.DefaultMemberSound` | `dl/buildroot-2021.08-p3/support/kconfig/symbol.c:278-302` | the default of a choice is a visible member, and there is one if and only if a member is visible |
| `Choices.DefaultMemberExact` | `dl/buildroot-2021.08-p3/support/kconfig/symbol.c:278-302` | the first default line whose condition is not n and whose symbol is visible decides, and without one the first visible member |
| `Choices.Choice.CalcVisibility` | `dl/buildroot-2021.08-p3/support/kconfig/symbol.c:209-241` | a choice value is visible as its prompts say, except that m does not count for a tristate while the choice is y |
| `Choices.Choice.VisibleExact` | `dl/buildroot-2021.08-p3/support/kconfig/symbol.c:209-235` | a choice value is not visible exactly if no prompt condition counts, is y with a prompt that is y, and m only as a tristate with modules |
| `Choices.Choice.GetDefault` | `dl/buildroot-2021.08-p3/support/kconfig/symbol.c:278-302` | the two loops find the symbol of the first default line that applies and is visible, else the first visible member, else none |
| `Choices.Choice.CalcChoice` | `dl/buildroot-2021.08-p3/support/kconfig/symbol.c:304-334` | the chosen symbol is the user's if that is visible, else the one the default lines and the visible members give in that order; without a visible member there is none and the choice becomes n; the choice keeps its user flag exactly if all visible members have one |
| `Choices.Choice.CalcSelf` | `dl/buildroot-2021.08-p3/support/kconfig/symbol.c:405-469` | the value of the choice follows from its user value and from the limits that its prompts and dependencies give; if that is y, a chosen symbol is looked for |
| `Choices.Choice.OwnValueExact` | `dl/buildroot-2021.08-p3/support/kconfig/symbol.c:405-444` | the value of the choice before a chosen symbol is looked for: the user value up to the visibility, at least rev_dep, m promoted |
| `Choices.Choice.CalcMember` | `dl/buildroot-2021.08-p3/support/kconfig/symbol.c:405-444` | a choice value visible as y is y exactly if it is the chosen one and never m; one that is not visible has its default, and one visible as m its user value or its default |
| `Choices.Choice.DefaultAtExact` | `dl/buildroot-2021.08-p3/support/kconfig/symbol.c:423-444` | the default of a choice value is the minimum of value and condition of the first default that applies, else n |
| `Choices.Choice.Evaluate` | `dl/buildroot-2021.08-p3/support/kconfig/symbol.c:405-469` | a choice that gets y stays y exactly if a member is visible; if it is n no member is visible or set |
| `Choices.Choice.OneChosenExact` | `dl/buildroot-2021.08-p3/support/kconfig/symbol.c:405-469` | while the choice is y, exactly the chosen, visible value is y and the others are n if and only if no value that is not visible has a default other than n |
| `ChoiceMenus.FinalizeChoice` | `dl/buildroot-2021.08-p3/support/kconfig/menu.c:310-537` | over the tree below the choice every node inherits from it and selects accumulate; then exactly the first node of each new value changes: for a value that is not tristate in a tristate choice every condition becomes n unless the choice is y; so all its conditions are worth no more than the choice |
| `ChoiceMenus.ChoiceIsBounded` | `dl/buildroot-2021.08-p3/support/kconfig/menu.c:328-334` | so the conditions of the prompts and defaults of the values are bounded in whatever state the evaluation of the choice reads them |
| `ChoiceMenus.MandatoryNotNo` | `dl/buildroot-2021.08-p3/support/kconfig/menu.c:591-604` | a choice that is not optional does not calculate to n while its prompt is visible, whatever the user value |
| `Choices.Choice.WithinRange` | `dl/buildroot-2021.08-p3/support/kconfig/symbol.c:511-530` | a choice value visible as y takes y only, one visible as m takes n or m |
| `Choices.Choice.InRangeExact` | `dl/buildroot-2021.08-p3/support/kconfig/symbol.c:511-530` | accepted are exactly y for a value visible as y, and n and m for a value visible as m |
| `Choices.Choice.SetTristateValue` | `dl/buildroot-2021.08-p3/support/kconfig/symbol.c:532-566` | an accepted value of a choice value is the one it has after the next evaluation, the choice keeps its value, and a value set to y is the chosen one; a refused one changes nothing |
| `Crc.TableIsDivision` | `dl/buildroot-2021.08-p3/package/mkpimage/mkpimage.c:103-148` | each of the 256 table entries is eight steps of division by 0x04C11DB7 |
| `Crc.TurnIsDivision` | `dl/buildroot-2021.08-p3/package/mkpimage/mkpimage.c:154-155` | one turn of the loop is eight steps of the division |
| `Crc.CrcOfConcat` | `dl/buildroot-2021.08-p3/package/mkpimage/mkpimage.c:150-158` | the CRC of two buffers in a row is the CRC of the second started from that of the first |
| `Crc.CrcIsLongDivision` | `dl/buildroot-2021.08-p3/package/mkpimage/mkpimage.c:150-158` | for every buffer the loop gives the remainder of polynomial long division, bit by bit and most significant bit first, of the message with 32 zeros appended |
| `Crc.CrcOfImage` | `dl/buildroot-2021.08-p3/package/mkpimage/mkpimage.c:150-158` | started with all ones it is that remainder with the register preloaded |
| `Crc.Crc32` | `dl/buildroot-2021.08-p3/package/mkpimage/mkpimage.c:150-158` | the loop computes that value |
| `CrcBursts.BurstDetected` | `dl/buildroot-2021.08-p3/package/mkpimage/mkpimage.c:150-158` | two buffers of one length that differ only within 32 consecutive bits have different CRCs |
| `CrcBursts.GeneratorUnseen` | `dl/buildroot-2021.08-p3/package/mkpimage/mkpimage.c:150-158` | 32 is the best bound: changing 33 bits by the generator polynomial anywhere keeps the remainder |
| `PImage.OffsetExact` | `dl/buildroot-2021.08-p3/package/mkpimage/mkpimage.c:165-170` | the encoded offset decodes to the offset if and only if it is a multiple of 4 within 26 bits |
| `PImage.Branch` | `dl/buildroot-2021.08-p3/package/mkpimage/mkpimage.c:163-171` | the bytes are an unconditional ARM branch that reaches its destination if and only if the distance can be encoded; no other byte changes |
| `PImage.PutChecksum` | `dl/buildroot-2021.08-p3/package/mkpimage/mkpimage.c:233-244` | the stored checksum is the sum of the header bytes before it |
| `PImage.HeadedBytes` | `dl/buildroot-2021.08-p3/package/mkpimage/mkpimage.c:209-244` | the header byte by byte: identification, version, lengths, entry offset, branch instruction and the total of the bytes before the sum |
| `PImage.LayoutExact` | `dl/buildroot-2021.08-p3/package/mkpimage/mkpimage.c:175-252` | header and trampoline lie inside the buffer and apart from the CRC word if and only if the size is at least MinSize |
| `PImage.ProgramLayout` | `dl/buildroot-2021.08-p3/package/mkpimage/mkpimage.c:262-347` | for the buffers the program makes, with its least input of 80 bytes, that holds if and only if the version is 0, there is a barebox header, or the input has more than 84 bytes; and header and trampoline lie inside the buffer in all cases but version 1 without barebox header and exactly 80 bytes |
| `PImage.AddSocfpgaHeader` | `dl/buildroot-2021.08-p3/package/mkpimage/mkpimage.c:175-252` | for a buffer of any size in a memory that has room for header and trampoline: the header with its sum is laid out, and then the last four bytes of the buffer become, low byte first, the complement of the preloaded long-division remainder of the bytes before; if the size is at least MinSize the image passes a checker that recomputes identification, lengths, entry, header sum and CRC; nothing is written if the size is no multiple of 4 |
| `PImage.TrampolineOverwritten` | `dl/buildroot-2021.08-p3/package/mkpimage/mkpimage.c:182-252` | in 88 bytes with a trampoline, identification, entry offset and sum are right, but the entry leads to the CRC word, and the image is accepted if and only if that word happens to be the branch |
| `PImage.AddTightHeader` | `dl/buildroot-2021.08-p3/package/mkpimage/mkpimage.c:175-252` | what the program makes of 81 to 84 bytes of input as version 1: such an image |
| `PImage.AddShortHeader` | `dl/buildroot-2021.08-p3/package/mkpimage/mkpimage.c:175-252` | what the program makes of exactly 80 bytes of input as version 1: the CRC takes the place of spare bytes and sum, the entry offset leads behind the buffer, and there the trampoline is written |
| `PImage.AtMostOneAccepted` | `dl/buildroot-2021.08-p3/package/mkpimage/mkpimage.c:249-252` | of two images of 88 bytes that differ within four consecutive bytes before the CRC word, at most one is accepted |
| `PImage.ChangeNoticed` | `dl/buildroot-2021.08-p3/package/mkpimage/mkpimage.c:249-252` | two images that differ only within four consecutive bytes before the CRC word do not both pass the CRC test |
| `PImage.EntryReached` | `dl/buildroot-2021.08-p3/package/mkpimage/mkpimage.c:190-224` | the entry of an accepted image, decoded as a branch or as an offset with or without trampoline, reaches the start address |
| `PImage.LengthRead` | `dl/buildroot-2021.08-p3/package/mkpimage/mkpimage.c:211-219` | the length field of an accepted image decodes to its size, for version 0 if the size in words fits in 16 bits |

## Left out

- Front ends (mconf, nconf, gconf, qconf, lxdialog, the prompts of conf), help texts and regex search: user interface.
- The Kconfig lexer and grammar, and printing of expressions: not part of this model.
- Files, processes and the environment: opening, renaming, splitting configurations, messages and warnings. A file is a sequence of lines; the prefix of names is a parameter.
- Allocation and freeing, and the flags SYMBOL_CHANGED and SYMBOL_AUTO with the change count.
- Random and preset configurations (`conf_set_all_new_symbols`, `randomize_choice_values`, SYMBOL_NEED_SET_CHOICE_VALUES): they guarantee nothing about values.
- strtoll, sprintf of numbers and their overflow: `SymbolValue.Numbers` passes them as functions, and each theorem says what it needs of them.
- Symbols of type other, beyond showing where rules fail for them; E_LIST and E_RANGE as general expressions.
- Nodes as values: `ExprSlots` keeps a tree as a value and names a node by its path, so that two trees never share a node; the code copies before it could share one.
- Choices in the evaluator, the cycle detector, the cache and the configuration files: `Choice` models one choice on top of evaluated outer symbols, without the later SYMBOL_WRITE of its values.
- The accumulation of dir_dep over menu nodes (menu.c line 496), the warnings of `sym_check_prop`, and the types that a choice and its values take from each other (menu.c lines 310-325).
- ChoiceMenus.FinalizeChoice: lists below a choice stand only below menus and `if` blocks, and its values are what is left after the flattening; the re-linking itself is that of `MenuTree`, which has no choices.
- MenuTree.MenuLinks.Finalize: the decision which item belongs below a symbol is a parameter here; `Submenus.FinalizeMenu` takes it from the expressions, all decisions before the first link changes, since the dependencies of siblings are final by then. Choices are left out.
- MenuTree.MenuLinks.FinalizeRoot: leaves out choices, like Finalize.
- DepCheck.Checker.PrintRecursive: the cycle is reported as a stack; its printed text and choices are left out.
- DepCheck.Checker.CheckDeps: the branches for choices and choice values are left out.
- DepCheck.Checker.CheckAll: symbols outside choices only; the rank found covers the followed dependencies. `Ranks` says what the search does not follow.
- SymbolTables.SymbolTable.TristateWithinRange: symbols outside choices; `Choices.Choice.WithinRange` is the test for choice values.
- SymbolTables.SymbolTable.SetTristateValue: symbols outside choices; `Choices.Choice.SetTristateValue` is the setter for choice values.
- ConfFile.WriteDefconfig: choices, and the call of `menu_is_visible` for nodes without symbol, whose only effect there is to evaluate conditions early.
- ConfFile.SetSymVal: symbols of type other, which the reader makes only for other files than the user's configuration.
- ConfFile.ReadSimple: the bookkeeping for choice values.
- ConfFile.ReadLine: the name is split off as a value; only the value part of the line is decoded in the buffer, as `conf_set_sym_val` does.
- PImage.AddSocfpgaHeader: the CRC word is stored low byte first, as on the little-endian hosts the tool is used on.
- The rest of `mkpimage` (options, reading and writing files, the fixed barebox words) and the other packages' programs: thin glue.
