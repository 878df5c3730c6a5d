# PowerShell AST obfuscator — a Dafny model

This project models the core of a PowerShell script obfuscator written in C#. The
obfuscator takes a parsed script (a PowerShell abstract syntax tree) and does four things:

1. **Renames variables.** A read-only pass harvests every non-constant variable path. The
   shuffled harvest is given freshly drawn random names. A copying pass then rewrites every
   variable through that table. A small blacklist (`args`, `true`, `false`,
   `ErrorActionPreference`) is forced to map to itself.
2. **Renames functions.** A read-only pass harvests the names of the function definitions
   it meets, without entering them. A copying pass then rewrites every definition through
   the table, together with every string constant whose lowercase value is a key.
3. **Composes the two.** The command-line driver runs the variable pass and then the
   function pass, over the alphabet `a`–`z`, with the default minimum length and one seed.
4. **Writes the result back as minimal PowerShell text.** A text-writer visitor spells each
   node kind with the fewest characters. It throws on operators, redirection streams and
   quoting kinds it does not support. Among these is the remainder operator `%`: the
   binary-operator switch writes `%` for the `module` keyword token instead, so a script
   with `$a % $b` cannot be written, while `$a %= $b` can. It re-escapes the characters of string constants and
   writes every non-ASCII character as a `$([char]0x....)` subexpression, one per UTF-16
   code unit.

## Shape of the model

- **Syntax tree.** `Syntax` holds a uniform tree: `Node(extent, head, slots)`.
  - There is one `Head` constructor per node kind the visitors override. It carries the
    kind's scalar fields: operator, name, quoting kind, flags.
  - The child fields are kept in `slots`, in the order the pass-through visitor visits them:
    - `One`: an optional child;
    - `Many`: a child list, which may be null;
    - `Statements`: a statement list;
    - `Clauses`: pairs of children;
    - `Kept`: children the visitors keep but never visit: a catch clause's types and an
      error node's parts.
  - `Schema` gives each kind's slot layout, and `Conforms` checks a node against it.
- **Traversal.** `Traversal` defines the child order of the pass-through visitor
  (`PassChildren`). It also defines a generic fold (`Walk`), so a visitor that overrides a
  handful of methods is a step function over nodes. `Reach(n, stop)` is the set of nodes
  such a walk visits when it does not descend below nodes satisfying `stop`.
- **Read-only harvests.** `Harvest` models the two list visitors as that fold. The
  `HashSet<string>` they fill is a duplicate-free list in insertion order.
- **Copy walks.** `CopyWalk` models the copying visitor and its two renaming subclasses as
  one function, `Copy`, parameterised by a `Rewriter`.
  - `BaseCopy` is the plain copy. It rebuilds every node, resets `foreach` flags and turns
    null child lists into empty ones.
  - `AlterVariables` and `AlterFunctions` also look names up in a table, and throw
    (`VariableNotGenerated` / `FunctionNotGenerated`) when a name is missing.
  - An AST node accepts only one parent. The copy hands a catch clause's original types to
    the new clause, and it returns error nodes as they are. So every copy throws
    `AstIsReused` when a rebuilt node would adopt a catch type or an error node.
  - `CopyLaws` proves how `Copy` behaves.
- **Random numbers.** `Random` stands for `System.Random`: a seed gives a stream of draws
  that is a parameter of the model. Every `Next(bound)` call is recorded, so the lemmas can
  say how many draws an operation makes and with which bounds.
- **Shuffle and name tables.**
  - `Shuffling` is the Fisher–Yates extension method.
  - `NameTable` is the constructor that the two `_AlterVisitor` classes share.
  - `NameTableLaws` proves when that constructor succeeds and what it builds.
- **Passes and pipeline.**
  - `RandomVariableName` and `RandomFunctionName` are the two passes.
  - `Pipeline` is the driver's composition of the two.
- **Text writer.**
  - `Spelling` holds the writer's operator, redirection and quoting tables.
  - `Escape` holds its string re-escaping and widening.
  - `TextWriter` holds the writer itself. Each node kind's visit method is a `Frame`:
    literal text (or a throw) between the node's slots, in the order the method writes them.
    `Render` runs the frames recursively, and the first exception wins.

The name-table constructor keeps one `HashSet` per name length and retries a draw while the
name is already in the current set. Nothing is ever added to those sets, so:
- the retry loop never repeats;
- the level rises from 0 to 1 after the first name and then stays at 1;
- two keys can be given the same new name.

The model keeps that behaviour. `NameTableLaws.TableNotInjective` exhibits it on a
three-name table.

## Model

Source paths are relative to the repository root.

| member | source | states |
|---|---|---|
| Text.LowerEqualIff | PowershellAST/Obf/RandomVariableName/RandomVariableName._AlterVisitor.cs:41 | two names get the same dictionary key exactly when they have the same length and agree position by position up to ASCII case |
| Text.LowerIdempotent | PowershellAST/Obf/RandomVariableName/RandomVariableName._AlterVisitor.cs:62-66 | lowering a key that is already lowercase changes nothing, and the result holds no capital letter |
| Text.LowerAppend | PowershellAST/Obf/RandomFunctionName/RandomFunctionName._AlterVisitor.cs:56-59 | lowering distributes over concatenation, so `global:` + name lowers piecewise |
| Text.JoinSplitRoundTrip | PowershellAST/Out/MinPowershell._TextWriterVisitor.cs:26-40 | writing a non-empty list with a one-character separator that no element contains can be split back into exactly that list |
| Text.JoinSeparatorCount | PowershellAST/Out/MinPowershell._TextWriterVisitor.cs:26-40 | such a list holds exactly one separator fewer than it has elements |
| Traversal.PairListIndex | PowershellAST/Base/BasePasstroughCustomAstVisitor.cs:58-64 | the clauses of an if or switch are visited as condition, then body, pair after pair |
| Traversal.FlattenMember | PowershellAST/Base/BasePasstroughCustomAstVisitor.cs:18-38 | a node's visited children are exactly the children of its slots, absent single children and null lists contributing nothing |
| Traversal.LeafKindsVisitNothing | PowershellAST/Base/BasePasstroughCustomAstVisitor.cs:140-149 | a conforming node of a kind whose visit method only returns (error, type constraint, constant, string, variable, merging redirection, expandable string…) has no visited children |
| Traversal.CatchTypesNotTraversed | PowershellAST/Base/BasePasstroughCustomAstVisitor.cs:116-119 | a walk reaches a catch clause's body and nothing below the clause outside the body; the catch types are kept but never visited |
| Traversal.ReachAllMember | PowershellAST/Base/BasePasstroughCustomAstVisitor.cs:18-26 | visiting a list reaches exactly what visiting each element reaches |
| Traversal.ReachUnfold | PowershellAST/Base/BasePasstroughCustomAstVisitor.cs:9-16 | a walk reaches the node itself and, unless the node stops the walk, everything its children reach, and nothing else |
| Random.Next | PowershellAST/Utils/Shuffle.cs:12 | a draw with a positive bound is below the bound; the call is recorded with its bound and the seed's stream is unchanged |
| Shuffling.Swap | PowershellAST/Utils/Shuffle.cs:13-15 | exchanging positions k and n swaps those two entries, leaves every other entry in place and keeps the multiset of entries |
| Shuffling.SwapDistinct | PowershellAST/Utils/Shuffle.cs:13-15 | a swap neither creates nor removes a duplicate |
| Shuffling.ShuffleFrom | PowershellAST/Utils/Shuffle.cs:8-17 | the loop from n down permutes the list, leaves positions n and beyond as they were, and draws once for each n from the count down to 2, with bound n |
| Shuffling.Shuffle | PowershellAST/Utils/Shuffle.cs:8-17 | the shuffle permutes the list, asks for Count-1 draws with bounds Count, Count-1, …, 2, and leaves a list of at most one element (and the generator) untouched |
| Shuffling.ShuffleFromDistinct | PowershellAST/Utils/Shuffle.cs:8-17 | a shuffled list has a duplicate exactly when the original has one |
| Shuffling.ShuffleSameElements | PowershellAST/Utils/Shuffle.cs:8-17 | every entry of the original appears in the shuffled list and the reverse |
| Shuffling.ShuffleInPlace | PowershellAST/Utils/Shuffle.cs:8-17 | the in-place while loop computes the same list and generator state as the recursive definition, and permutes its input |
| Harvest.Add | PowershellAST/Obf/RandomVariableName/RandomVariableName._ListVisitor.cs:23-29 | adding a name the set already holds does nothing; the result holds exactly the old names and the new one and stays duplicate-free |
| Harvest.CollectWalk | PowershellAST/Obf/RandomFunctionName/RandomFunctionName._ListVisitor.cs:23-28 | a harvesting walk stays duplicate-free and ends holding the names it started with plus the names of the matching nodes it reaches |
| Harvest.CollectFound | PowershellAST/Obf/RandomVariableName/RandomVariableName._ListVisitor.cs:19-21 | the harvested list is duplicate-free and holds exactly the names of the matching nodes the walk reaches |
| Harvest.ReachStopAtLeaves | PowershellAST/Obf/RandomVariableName/RandomVariableName._ListVisitor.cs:23-29 | stopping at nodes that have no children reaches the same nodes as walking everywhere |
| RandomVariableName.VariableListIff | PowershellAST/Obf/RandomVariableName/RandomVariableName._ListVisitor.cs:19-29 | the variable harvest is duplicate-free and holds exactly the user paths of the non-constant variables in the tree, spelled as in the tree |
| RandomVariableName.ForceNames | PowershellAST/Obf/RandomVariableName/RandomVariableName._AlterVisitor.cs:57-59 | forcing names adds exactly their lowercase forms to the table's keys |
| RandomVariableName.ForceNamesEntries | PowershellAST/Obf/RandomVariableName/RandomVariableName._AlterVisitor.cs:57-59 | forcing leaves the other keys' values alone, and each forced key maps to the last name with that lowercase form |
| RandomVariableName.BlacklistForced | PowershellAST/Obf/RandomVariableName/RandomVariableName._AlterVisitor.cs:48-59 | after the blacklist, `args`, `true` and `false` map to themselves, `erroractionpreference` maps to `ErrorActionPreference`, and every other entry is unchanged |
| RandomVariableName.VariableTableIff | PowershellAST/Obf/RandomVariableName/RandomVariableName._AlterVisitor.cs:17-60 | the variable table is built exactly when the drawn table is, and its keys are the lowercase harvested paths plus the four blacklisted keys |
| RandomVariableName.ObfuscateFailsIff | PowershellAST/Obf/RandomVariableName/RandomVariableName.cs:18-25 | variable renaming throws exactly when two harvested paths differ only by case, when a name cannot be drawn (an empty alphabet with a non-empty name to draw, or a negative minimum length), when a constant variable is neither harvested nor blacklisted, or when the copy would reuse a catch type or an error node; a negative minimum with any harvested path throws the range error; otherwise, with a non-empty alphabet, the error is a duplicate key, a missing name or a reused node |
| RandomVariableName.ObfuscateRenames | PowershellAST/Obf/RandomVariableName/RandomVariableName._AlterVisitor.cs:62-77 | a successful variable renaming is the plain copy with every variable path replaced through the table (keeping a `global:` prefix), and with variable paths blanked out the two trees are equal |
| RandomFunctionName.FunctionListIff | PowershellAST/Obf/RandomFunctionName/RandomFunctionName._ListVisitor.cs:19-28 | the function harvest is duplicate-free and holds exactly the names of the definitions reached without entering another definition |
| RandomFunctionName.FunctionTable | PowershellAST/Obf/RandomFunctionName/RandomFunctionName._AlterVisitor.cs:17-48 | building the function table fails only with an index-out-of-range, duplicate-key or negative-count error |
| RandomFunctionName.ObfuscateFailsIff | PowershellAST/Obf/RandomFunctionName/RandomFunctionName.cs:18-25 | function renaming throws exactly when two harvested names differ only by case, when a name cannot be drawn (an empty alphabet with a non-empty name to draw, or a negative minimum length), when some definition anywhere in the tree has a name no harvested definition has up to case, or when the copy would reuse a catch type or an error node; a negative minimum with any harvested name throws the range error; otherwise, with a non-empty alphabet, the error is a duplicate key, a missing name or a reused node |
| RandomFunctionName.NestedHarvest | PowershellAST/Obf/RandomFunctionName/RandomFunctionName._ListVisitor.cs:23-28 | for `function f { function g {} }` the harvest is `["f"]` although g is in the tree |
| RandomFunctionName.NestedCopyFails | PowershellAST/Obf/RandomFunctionName/RandomFunctionName._AlterVisitor.cs:50-53 | with a table that holds f but not g, copying that script throws "function name was not previously generated" at g, before f is rebuilt |
| RandomFunctionName.NestedDefinitionFails | PowershellAST/Obf/RandomFunctionName/RandomFunctionName._AlterVisitor.cs:50-53 | so renaming that script throws "function name was not previously generated" for every seed and every non-empty alphabet |
| RandomFunctionName.ObfuscateRenames | PowershellAST/Obf/RandomFunctionName/RandomFunctionName._AlterVisitor.cs:50-79 | a successful function renaming is the plain copy with each definition name, and each string constant whose lowercase value is a key, replaced through the table |
| RandomFunctionName.StringConstantRule | PowershellAST/Obf/RandomFunctionName/RandomFunctionName._AlterVisitor.cs:67-79 | a string constant keeps its quoting kind; it is renamed exactly when its lowercase value is a key, with a `global:` prefix kept in front of the new name |
| CopyWalk.Rename | PowershellAST/Obf/RandomVariableName/RandomVariableName._AlterVisitor.cs:67-73 | a known name maps to its table entry, with `global:` put back in front when the old name started with it |
| CopyWalk.CopyChildrenPermutesPassChildren | PowershellAST/Base/BaseCopyCustomAstVisitor.cs:69-92 | the copy visits the same children as the pass-through walk, possibly in another order (an if statement's else clause before its clauses, a switch statement's default before its clauses) |
| CopyWalk.CopyChildrenMember | PowershellAST/Base/BaseCopyCustomAstVisitor.cs:69-92 | a child is visited by the copy exactly when the pass-through walk visits it |
| CopyWalk.MapSlot | PowershellAST/Base/BaseCopyCustomAstVisitor.cs:22-47 | rebuilding a slot keeps its kind and maps its children one by one; a null list becomes an empty one |
| CopyWalk.Rebuild | PowershellAST/Base/BaseCopyCustomAstVisitor.cs:100-106 | a rebuilt node keeps its extent, resets `foreach` flags to None, conforms exactly when the original does, and its children are the mapped children |
| CopyWalk.RebuildFix | PowershellAST/Base/BaseCopyCustomAstVisitor.cs:12-20 | rebuilding an already normal node with children that map to themselves gives the node back |
| CopyWalk.RelabelHead | PowershellAST/Base/BaseCopyCustomAstVisitor.cs:293-296 | relabelling keeps the node kind and slot layout and changes nothing the renaming does not own |
| CopyWalk.Copy | PowershellAST/Base/BaseCopyCustomAstVisitor.cs:129-160 | a copy keeps the extent; a node whose name the table lacks fails with the pass's "not previously generated" error before any child is visited; it fails only with `AstIsReused` or, for a renaming copy, its own "not previously generated" error; it always fails on a node whose rebuild would adopt a catch type or an error node |
| CopyWalk.Sequence | PowershellAST/Base/BaseCopyCustomAstVisitor.cs:22-33 | collecting child results succeeds exactly when every child succeeds, in order; otherwise it reports the error of the first child, in order, whose copy failed |
| CopyWalk.CopyAllElementwise | PowershellAST/Base/BaseCopyCustomAstVisitor.cs:22-33 | copying a list succeeds exactly when each element's copy does, and then element i is the copy of element i |
| CopyLaws.CopyUnfold | PowershellAST/Base/BaseCopyCustomAstVisitor.cs:49-54 | a copy succeeds exactly when the node's own name is known, the node adopts no catch type or error node, and every child's copy succeeds |
| CopyLaws.CopyFailureOrder | PowershellAST/Base/BaseCopyCustomAstVisitor.cs:22-33 | a failing copy ends with the node's own unknown-name error when its name is not in the table, otherwise with the error of the first child in copy order whose copy fails, and only when every child's copy succeeds with `AstIsReused` from the rebuild |
| CopyLaws.ChildrenOfCopy | PowershellAST/Base/BaseCopyCustomAstVisitor.cs:49-54 | a copied node has the original's extent, the relabelled head with flags reset, and the copies of the original's children in pass-through order |
| CopyLaws.CopySucceedsIff | PowershellAST/Base/BaseCopyCustomAstVisitor.cs:129-160 | a copy succeeds exactly when every node reached in the tree has a known name and no rebuilt node would adopt a catch type or an error node; the plain copy fails only for the second reason |
| CopyLaws.TypedCatchIsReused | PowershellAST/Base/BaseCopyCustomAstVisitor.cs:129-132 | a catch clause that names exception types always fails to copy with `AstIsReused`, once its body is copied |
| CopyLaws.CopyNormalIdentity | PowershellAST/Base/BaseCopyCustomAstVisitor.cs:12-20 | the plain copy of a normal tree (no null lists, no `foreach` flags, no catch types, no error node below a rebuilt node) is that tree |
| CopyLaws.CopyLocallyNormal | PowershellAST/Base/BaseCopyCustomAstVisitor.cs:129-160 | the root of a copy is normal and would adopt nothing on a second copy: error nodes stay error nodes and nothing else becomes one |
| CopyLaws.CopyIsNormal | PowershellAST/Base/BaseCopyCustomAstVisitor.cs:22-33 | every copy is normal: no null lists, no `foreach` flags, no catch types and no error node below a rebuilt node, anywhere |
| CopyLaws.CopyIdempotent | PowershellAST/Base/BaseCopyCustomAstVisitor.cs:100-106 | plain-copying a copy gives it back unchanged |
| CopyLaws.MapHeadsAbsorb | PowershellAST/Base/BaseCopyCustomAstVisitor.cs:293-296 | if blanking a head undoes a relabelling, then blanking a whole tree undoes relabelling the whole tree |
| CopyLaws.CopyFactors | PowershellAST/Base/BaseCopyCustomAstVisitor.cs:12-20 | when every name is known, a renaming copy succeeds exactly when the plain copy does, and is then the plain copy followed by relabelling every head |
| CopyLaws.CopyChangesOnlyNames | PowershellAST/Base/BaseCopyCustomAstVisitor.cs:293-296 | a renaming copy and the plain copy are equal once the renamed names are blanked out |
| CopyLaws.CopyRenamesNormal | PowershellAST/Base/BaseCopyCustomAstVisitor.cs:12-20 | on a normal tree whose names are all known, a renaming copy only relabels heads |
| NameTable.DrawName | PowershellAST/Obf/RandomVariableName/RandomVariableName._AlterVisitor.cs:30-38 | drawing a name of length k succeeds exactly when k is 0 or the alphabet is non-empty; the name has k characters, all from the alphabet, after k draws with bound `alphabet.Count()` |
| NameTable.AllocateOne | PowershellAST/Obf/RandomVariableName/RandomVariableName._AlterVisitor.cs:28-46 | one name either fails (out of range or duplicate key) or leaves a consistent state whose level is the bumped level |
| NameTable.Bump | PowershellAST/Obf/RandomVariableName/RandomVariableName._AlterVisitor.cs:43-46 | with a non-empty alphabet the level goes from 0 to 1 and then stays where it is |
| NameTableLaws.AllocateAllSucceedsIff | PowershellAST/Obf/RandomVariableName/RandomVariableName._AlterVisitor.cs:28-47 | the foreach finishes exactly when no two names share a lowercase form, with none already a key, and every name can be drawn |
| NameTableLaws.AllocateAllKeys | PowershellAST/Obf/RandomVariableName/RandomVariableName._AlterVisitor.cs:41 | the finished table's keys are the old keys plus the lowercase names, and the old entries are kept |
| NameTableLaws.AllocateAllLengths | PowershellAST/Obf/RandomVariableName/RandomVariableName._AlterVisitor.cs:33-36 | each name's new name has minLength + level characters from the alphabet, the level being the one in force when it was drawn |
| NameTableLaws.AllocateAllLevel | PowershellAST/Obf/RandomVariableName/RandomVariableName._AlterVisitor.cs:43-46 | after at least one name the level is the bumped level, and it never rises further |
| NameTableLaws.AllocateAllDraws | PowershellAST/Obf/RandomVariableName/RandomVariableName._AlterVisitor.cs:33-36 | the foreach makes exactly DrawCount draws, all with bound `alphabet.Count()` |
| NameTableLaws.DrawCountFromStart | PowershellAST/Obf/RandomVariableName/RandomVariableName._AlterVisitor.cs:22-36 | from level 0, k names cost k·(minLength+1)−1 draws |
| NameTableLaws.CaseClashIff | PowershellAST/Obf/RandomVariableName/RandomVariableName._AlterVisitor.cs:41 | two positions share a lowercase key exactly when the list repeats a name or holds two different names with the same lowercase form |
| NameTableLaws.ShufflePreservesKeys | PowershellAST/Obf/RandomVariableName/RandomVariableName._AlterVisitor.cs:25-26 | shuffling keeps the set of lowercase keys, and whether two names clash |
| NameTableLaws.BuildTableSucceedsIff | PowershellAST/Obf/RandomVariableName/RandomVariableName._AlterVisitor.cs:17-47 | the constructor succeeds exactly when no two harvested names share a lowercase form and the names can be drawn; its keys are then the lowercase names; with a non-empty alphabet the only possible error is a duplicate key |
| NameTableLaws.BuildTableFromSucceedsIff | PowershellAST/Obf/RandomVariableName/RandomVariableName._AlterVisitor.cs:17-36 | with an `int` minimum, the constructor fails with a range error whenever the minimum is negative and there is a name to draw; otherwise it succeeds exactly when no two names share a lowercase form and the names can be drawn, with the lowercase names as keys |
| NameTableLaws.BuildTableLengths | PowershellAST/Obf/RandomVariableName/RandomVariableName._AlterVisitor.cs:30-46 | the first shuffled name gets minLength characters and every later one minLength + 1, all from the alphabet; the final level is 1, or 0 for no names |
| NameTableLaws.BuildTableDraws | PowershellAST/Obf/RandomVariableName/RandomVariableName._AlterVisitor.cs:19-36 | the constructor's draws are the shuffle's Count−1 draws followed by one draw with bound `alphabet.Count()` for each character drawn |
| NameTableLaws.AllocateAllDuplicateOnly | PowershellAST/Obf/RandomVariableName/RandomVariableName._AlterVisitor.cs:41 | with a non-empty alphabet the foreach can fail only on `Dictionary.Add` of a key already present |
| NameTableLaws.TableNotInjective | PowershellAST/Obf/RandomVariableName/RandomVariableName._AlterVisitor.cs:21-46 | on a generator that always draws 0, the names x, y, z over `ab` get y→`a`, z→`aa` and x→`aa`: the per-level sets never fill, so two keys can share a new name |
| Pipeline.Obfuscate | PowershellAST/Program.cs:26-37 | the driver's result keeps the script's extent |
| Pipeline.EraseVariableRenaming | PowershellAST/Obf/RandomVariableName/RandomVariableName._AlterVisitor.cs:62-77 | blanking names undoes any variable renaming of a whole tree |
| Pipeline.EraseFunctionRenaming | PowershellAST/Obf/RandomFunctionName/RandomFunctionName._AlterVisitor.cs:50-79 | blanking names undoes any function renaming of a whole tree |
| Pipeline.ObfuscateChangesOnlyNames | PowershellAST/Program.cs:26-37 | when the driver succeeds, the input can be plain-copied, and the variable pass followed by the function pass changes nothing but variable paths, function names and string constants naming functions: with those blanked, the output equals the plain copy of the input |
| Escape.ReplaceAllIsTranslate | PowershellAST/Out/MinPowershell._TextWriterVisitor.cs:650-662 | the chain of `String.Replace` calls equals a single left-to-right pass that escapes each character on its own, because no replacement introduces a pattern a later call replaces |
| Escape.EscapesNoLaterPattern | PowershellAST/Out/MinPowershell._TextWriterVisitor.cs:650-662 | no escape sequence the writer inserts contains a character that a later replacement rewrites |
| Escape.EscapeCharShape | PowershellAST/Out/MinPowershell._TextWriterVisitor.cs:650-662 | a quote, backslash, double quote, NUL or control character listed becomes a backtick and one letter; every other character is kept |
| Escape.BacktickAndDollarKept | PowershellAST/Out/MinPowershell._TextWriterVisitor.cs:650-662 | backtick and dollar are not escaped |
| Escape.Hex4 | PowershellAST/Out/MinPowershell._TextWriterVisitor.cs:664-676 | a UTF-16 code unit is written as four lowercase hex digits |
| Escape.Hex4RoundTrip | PowershellAST/Out/MinPowershell._TextWriterVisitor.cs:664-676 | reading those four hex digits back gives the code unit |
| Escape.CodeUnits | PowershellAST/Out/MinPowershell._TextWriterVisitor.cs:664-676 | a BMP character is one code unit; a supplementary character is a high surrogate followed by a low surrogate |
| Escape.SurrogateRoundTrip | PowershellAST/Out/MinPowershell._TextWriterVisitor.cs:664-676 | the surrogate pair decodes back to the character |
| Escape.CharCodes | PowershellAST/Out/MinPowershell._TextWriterVisitor.cs:664-676 | each code unit above 127 becomes the 15-character ASCII subexpression `$([char]0x....)` |
| Escape.WideChar | PowershellAST/Out/MinPowershell._TextWriterVisitor.cs:664-676 | an ASCII character is written as itself |
| Escape.WidenAscii | PowershellAST/Out/MinPowershell._TextWriterVisitor.cs:664-676 | the widened text is pure ASCII, whatever the input |
| Escape.WidenLoop | PowershellAST/Out/MinPowershell._TextWriterVisitor.cs:664-676 | the StringBuilder loop computes the per-character widening of the whole string |
| Escape.UnVerbatimPerCharacter | PowershellAST/Out/MinPowershell._TextWriterVisitor.cs:646-677 | un-verbatiming a string escapes and widens it one character at a time, independently of its neighbours |
| Escape.UnVerbatimAscii | PowershellAST/Out/MinPowershell._TextWriterVisitor.cs:646-677 | the un-verbatimed text is pure ASCII |
| Escape.UnVerbatimPlain | PowershellAST/Out/MinPowershell._TextWriterVisitor.cs:646-677 | ASCII text with no character needing an escape comes back unchanged |
| Spelling.BinaryOperatorHandles | PowershellAST/Out/MinPowershell._TextWriterVisitor.cs:462-556 | a binary token is written exactly when it is one the switch lists; every other token throws "Binary token not supported" |
| Spelling.CaseTwinsAlike | PowershellAST/Out/MinPowershell._TextWriterVisitor.cs:462-556 | a case-insensitive `-i` operator and its plain twin are spelled alike when both are listed; `-cin` is written as `-in` while `-iin` is not supported |
| Spelling.UnaryPlacement | PowershellAST/Out/MinPowershell._TextWriterVisitor.cs:566-618 | a unary token is written exactly when it is listed; a listed token is written either before or after its operand, never both, and after exactly for postfix `++` and `--` |
| Spelling.IncrementSides | PowershellAST/Out/MinPowershell._TextWriterVisitor.cs:566-618 | prefix and postfix increment and decrement use the same text on opposite sides of the operand |
| Spelling.AssignmentHandles | PowershellAST/Out/MinPowershell._TextWriterVisitor.cs:328-355 | an assignment operator is written exactly for `=` and the five compound arithmetic operators; the rest throw |
| Spelling.RemainderNotSpelled | PowershellAST/Out/MinPowershell._TextWriterVisitor.cs:349-351 | `%=` is written, the remainder token throws "Binary token not supported", and the `%` the binary switch writes (lines 550-551) belongs to the `module` keyword token |
| Spelling.CompoundSpelling | PowershellAST/Out/MinPowershell._TextWriterVisitor.cs:328-355 | each of the five compound assignments is written; `+=`, `-=`, `/=` and `*=` are their arithmetic operator followed by `=`, and `%=` is the one whose operator (the remainder token) the binary switch cannot write |
| Spelling.StreamRoundTrip | PowershellAST/Out/MinPowershell._TextWriterVisitor.cs:384-410 | every defined redirection stream is written as one character that reads back as that stream |
| Spelling.FileRedirectionText | PowershellAST/Out/MinPowershell._TextWriterVisitor.cs:384-410 | a file redirection throws exactly when its stream is undefined |
| Spelling.FileRedirectionParts | PowershellAST/Out/MinPowershell._TextWriterVisitor.cs:384-410 | a file redirection is the stream digit followed by `>` or, when appending, `>>` |
| Spelling.MergingRedirectionText | PowershellAST/Out/MinPowershell._TextWriterVisitor.cs:412-457 | a merging redirection throws exactly when either stream is undefined |
| Spelling.MergingRedirectionParts | PowershellAST/Out/MinPowershell._TextWriterVisitor.cs:412-457 | a merging redirection is the source digit, `>&`, then the target digit |
| Spelling.QuoteEncloses | PowershellAST/Out/MinPowershell._TextWriterVisitor.cs:679-704 | a string is written between its kind's delimiters; here-strings are written as ordinary quoted strings; the undefined kind throws |
| TextWriter.JoinedVisits | PowershellAST/Out/MinPowershell._TextWriterVisitor.cs:26-40 | writing a list with a separator visits exactly its elements, in order, and never throws |
| TextWriter.IfVisits | PowershellAST/Out/MinPowershell._TextWriterVisitor.cs:74-99 | an if statement visits its clauses' conditions and bodies in order, and nothing else |
| TextWriter.SwitchVisits | PowershellAST/Out/MinPowershell._TextWriterVisitor.cs:109-140 | a switch visits its clauses' conditions and bodies in order |
| TextWriter.HashVisits | PowershellAST/Out/MinPowershell._TextWriterVisitor.cs:762-780 | a hashtable literal visits each key and then its value, pair by pair |
| TextWriter.ShapeOrder | PowershellAST/Out/MinPowershell._TextWriterVisitor.cs:54-831 | every visit method writes its child fields in pass-through order, except a parameter (attributes, then name, then default value) and data, do-while, do-until and convert nodes (second field first); a method throws exactly when the node's operator, stream or quoting kind is unsupported, or an if statement has no clauses |
| TextWriter.ShapeReordered | PowershellAST/Out/MinPowershell._TextWriterVisitor.cs:277-285 | the reordered kinds write their fields in the order given above and never throw on their own account |
| TextWriter.WrittenChildren | PowershellAST/Out/MinPowershell._TextWriterVisitor.cs:54-831 | on a conforming node the writer visits exactly the children the pass-through walk visits — in the same order except for the reordered kinds, and as a permutation for those |
| TextWriter.LayoutThrows | PowershellAST/Out/MinPowershell._TextWriterVisitor.cs:325-457 | a node's own visit method throws exactly when the node is one of the faulty cases above |
| TextWriter.RenderPiecesFails | PowershellAST/Out/MinPowershell._TextWriterVisitor.cs:26-52 | a run of writes and visits fails exactly when it contains a throw or visits a child whose writing fails |
| TextWriter.RenderFailsIff | PowershellAST/Out/MinPowershell._TextWriterVisitor.cs:54-831 | writing a well-formed tree throws exactly when some node of the tree is faulty |
| TextWriter.JoinedRender | PowershellAST/Out/MinPowershell._TextWriterVisitor.cs:26-40 | writing a list with a separator is the elements' texts joined with it, failing at the first element that fails |
| TextWriter.RenderOneSlot | PowershellAST/Out/MinPowershell._TextWriterVisitor.cs:706-711 | a method that writes text, one field and text again produces the text around the field's output |
| TextWriter.PipelineText | PowershellAST/Out/MinPowershell._TextWriterVisitor.cs:361-364 | a pipeline is its elements' texts joined by `|` |
| TextWriter.PipelineBars | PowershellAST/Out/MinPowershell._TextWriterVisitor.cs:361-364 | when no element's text contains a bar, a written pipeline holds one bar fewer than it has elements and splits on the bars back into the elements' texts |
| TextWriter.StringConstantAscii | PowershellAST/Out/MinPowershell._TextWriterVisitor.cs:679-704 | a written string constant or expandable string is pure ASCII |

## Left out

- Parsing, file and console I/O, command-line options and the `CryptoRandom` seed
  (PowershellAST/Program.cs outside lines 26-37, PowershellAST/Out/MinPowershell.cs) are
  outside the model. The script is given as a tree, the seed as an integer, and the result is
  a tree or a text.
- `System.Random`'s generator algorithm is not modelled. A seed gives an arbitrary stream of
  draws (`seeds: int -> Draws`): the i-th call with a positive bound returns some number below
  that bound. `Next` with bound 0
  returns 0, as .NET does for `Next(0, 0)`.
- The `HashSet<string>.ToList()` order of the harvests is taken to be insertion order. .NET
  does not promise an order, and the shuffle that follows is the only consumer.
- The text of constants, doubles, type names, switch flags and catch-clause types comes from
  .NET `ToString` calls. It is an opaque `Host` parameter of the writer, so nothing is proved
  about its characters.
- `IsConstantVariable` is a parameter (`isConstant`) of the variable harvest. The
  `VariablePath` is its user path as a plain string.
- `ToLower` lowers ASCII letters only. Culture-sensitive lowering of other letters is not
  modelled.
- The `Convert.FromBase64String` stub (PowershellAST/Utils/Shuffle.cs:20-23) is not modelled.
  It is dead code that returns an empty array.
- Unknown values of the token, stream and quoting enums are one constructor each
  (`Undefined…`).
- When several nodes would throw, the model reports the first failure in visiting order. The
  exception's message text is reduced to an error constructor.
- Node kinds that the writer does not override inherit the pass-through methods, which write
  nothing. The model gives them frames with no text. No text-to-tree parse and no round trip
  of the writer's output back into a tree are modelled.
- Pipeline.Obfuscate: the contract states only that the extent is kept. What the composition
  does is stated by Pipeline.ObfuscateChangesOnlyNames and the two passes' lemmas.
- CopyWalk.Copy: of the .NET constructors' argument checks only the one-parent rule is
  modelled. A rebuilt node is assumed to accept any children the original held. A null
  child list is rebuilt as an empty array, although some constructors store an empty list
  as null again. The command-line driver rejects scripts with parse errors
  (PowershellAST/Program.cs:20-24), so error nodes reach the copy only from other callers.
- NameTable.DrawName: the alphabet is a sequence of Unicode characters. .NET counts and
  indexes a string in UTF-16 code units, so an alphabet with a character beyond U+FFFF
  would draw surrogate halves. A Dafny character cannot hold a lone surrogate.
- CopyWalk.Rename: the `global:` test is an ordinal prefix comparison. .NET's
  `StartsWith(string)` compares with the current culture, which can also accept a name
  that starts with characters the culture ignores.
- RandomFunctionName.FunctionTable: the contract states only the possible errors. Its keys,
  name lengths and draw counts are stated by the NameTableLaws lemmas on BuildTable.
