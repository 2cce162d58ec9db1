# npm prune: target selection and plan

A Dafny model of `lib/prune.js` from npm: the rule that decides which installed
top-level packages `npm prune [<pkg>...]` removes, the two-step plan built around
that selection, and prune's empty lifecycle stage.

The selection (`toPrune`) is a pipeline over the children of the current tree's
root:

1. keep the children that `isExtraneous` classifies as needed by nothing;
2. map each to its `moduleName`;
3. keep every name when no package was named on the command line, otherwise only
   the names that appear among the arguments;
4. wrap each name as a `{name}` record.

The model writes each stage as its own function (`KeepExtraneous`, `ModuleNames`,
`KeepRequested`, `Entries`) and composes them in `ToPrune`. `isExtraneous` and
`moduleName` live in modules outside this model. They are passed in as the two
function-valued fields of `Externals`, and nothing is assumed about them. A
reference definition, `Picks`, gives the positions of the children that end up
selected. The lemmas relate the pipeline to it.

The plan is data, not effects. `Pruner.LoadAllDepsIntoIdealTree` appends two
`Step`s: `RemoveDeps` with the selection, then `LoadExtraneous`. Each step names
the tree it acts on by a `TreeRef` rather than carrying a copy of it, so both
steps refer to the one ideal-tree object that `removeDeps` changes before
`loadExtraneous` reads it. The selection itself is read from the current tree.

A name among the arguments that matches no extraneous top-level child is
ignored, and no error is raised (`UnmatchedArgIgnored`; lib/prune.js:38).

## Model

| member | source | states |
|---|---|---|
| Prune.KeepExtraneous | lib/prune.js:37 | a node is kept exactly when it is one of the root's children and `isExtraneous` holds of it; never more nodes than were given |
| Prune.ModuleNames | lib/prune.js:37 | one name per kept child, position for position, each the child's `moduleName` |
| Prune.KeepRequested | lib/prune.js:38 | a name is kept exactly when it was given and either the argument list is empty or the name occurs in it |
| Prune.Entries | lib/prune.js:39 | one `{name}` record per name, position for position |
| Prune.ToPrune | lib/prune.js:37-39 | no more entries than top-level children; every entry passes the name filter and is the `moduleName` of some extraneous child of the root |
| Prune.Picks | lib/prune.js:37-38 | the positions of the children that are extraneous and pass the name filter: all of them, each once, in increasing order |
| Prune.ToPruneSnoc | lib/prune.js:37-39 | one more child at the end of the root adds exactly its own entry, and only if it is extraneous and passes the filter |
| Prune.ToPruneFollowsChildren | lib/prune.js:37-39 | order is preserved: the k-th entry is named after the k-th selected child in the order of the root's children |
| Prune.SelectedIff | lib/prune.js:37-38 | a name is selected if and only if it passes the filter and some extraneous child of the root has that `moduleName`; nested packages are never consulted |
| Prune.EmptyArgsSelectsAllExtraneous | lib/prune.js:38 | with no arguments the name filter is the identity, so every extraneous top-level child is selected |
| Prune.KeepAllWhenNoArgs | lib/prune.js:38 | the name filter with an empty argument list returns its input unchanged |
| Prune.SelectedNamesAreArgs | lib/prune.js:38 | with arguments, every selected name is one of them |
| Prune.UnmatchedArgIgnored | lib/prune.js:37-39 | adding an argument that names no extraneous top-level child to a non-empty list leaves the selection unchanged, with no error |
| Prune.UnknownNameSelectsNothing | lib/prune.js:37-38 | naming only a package that no extraneous top-level child is installed under (a nested package, say) selects nothing, with no error |
| Prune.FilterOnlyRemoves | lib/prune.js:37-39 | the selection with any arguments is a subsequence of the selection with none |
| Prune.FilterOnlyShrinks | lib/prune.js:37-39 | the selection with any arguments is no longer than the selection with none, and every entry of it is an entry of that one |
| Prune.SubsequenceBounds | lib/prune.js:37-39 | a subsequence is no longer than its source and holds only its source's elements |
| Prune.ScenarioSelections | lib/prune.js:37-39 | with A wanted, B left over and D installed under B: no arguments and `B` both select exactly B; `D` selects nothing (the premises about D only describe the scenario) |
| Prune.ScenarioSelection | lib/prune.js:37-39 | two top-level children, only the second extraneous and passing the filter: exactly the second is selected |
| Prune.Pruner.constructor | lib/prune.js:25-27 | the pruner keeps its location, dry-run flag and arguments, and the current and ideal trees |
| Prune.NewPrune | lib/prune.js:20-23 | `prune` builds a fresh pruner rooted at `.` with the given arguments and dry-run flag |
| Prune.Pruner.LoadAllDepsIntoIdealTree | lib/prune.js:30-45 | exactly two steps, in order: `removeDeps` with the selection computed from the current tree, acting on the ideal tree; then `loadExtraneous`, acting on that same ideal tree |
| Prune.Pruner.RunTopLevelLifecycles | lib/prune.js:47 | prune's lifecycle stage reports success at once and changes nothing |

## Left out

- `removeDeps` and `loadExtraneous` (lib/install/deps.js) are not part of this model. The plan names them as steps but does not say what they do, so no cascading removal or re-classification is specified.
- `isExtraneous` (lib/install/is-extraneous.js) and `moduleName` (lib/utils/module-name.js) are not part of this model; they are parameters with no properties.
- The `Installer` base class (lib/install.js) is not part of this model: its `run` sequence, and the stages that load the current and ideal trees. The trees are handed to the pruner's constructor instead.
- The `null` argument passed to `removeDeps` (lib/prune.js:42) is an option of `removeDeps`, which is not modelled, so the step does not carry it.
- Running the plan with `slide`'s `chain` (lib/prune.js:44) is asynchronous control flow: the method returns the steps instead of running them, and the callback is not modelled.
- Logging through `npmlog` and the progress groups made by `cg.newGroup` (lib/prune.js:31, 33, 42-43) only report progress and do not change the outcome.
- Reading `dry-run` from the npm configuration (lib/prune.js:21) is configuration I/O: `NewPrune` takes the flag as a parameter.
- Shell completion (lib/prune.js:18) and the usage string (lib/prune.js:6) are CLI wiring.
- test/run.js is a test harness of child processes, environment variables and temporary directories; nothing in it is repository logic.
