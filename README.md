# ttr in Dafny

A model of `ttr`, a terminal task launcher, and proofs about it. Tasks are
shell commands with a one-character key. They sit in a tree of groups (menus)
read from `.ttr.yaml` files. The user walks the menus with single key presses
and runs a task; after a run, a prompt may ask whether to go on, repeat the
task, pick another one or quit.

The whole program is one file, `src/main.rs`. The model follows its parts:

- `entities.dfy` (`Entities`): tasks, groups, paths, and the tree measures
  used by the proofs.
- `merge.dfy` (`Merge`): `merge_groups`, which folds the groups read from
  several configuration files into one tree, highest priority first.
  - The two hash maps of the source are Dafny `map`s.
  - The nested loops are a method proved equal to a fold (`Fold`).
  - The result is pinned down by `IsMergeOf`, which leaves the order of the
    merged children open, as `HashMap::into_values` does.
- `merge_facts.dfy` (`MergeFacts`): priority and collision rules of the
  merge, stated against independent definitions (the first eligible task per
  key, the bucket of every child key), plus three concrete scenarios.
- `traversal.dfy` (`Traversal`): the two-stack `TaskIterator` as a class,
  its visiting order, and the rewrite of relative working directories in
  `tasks_from_file`.
- `discovery.dfy` (`Discovery`): `read_tasks`, the upward walk from the
  current directory plus the home and configuration-directory files. The
  file system is a parameter.
- `navigation.dfy` (`Navigation`): the key dispatch and group stack of
  `select_task`. `Step` handles one key event; `SelectTask` runs a sequence
  of them.
- `layout.dfy` (`Layout`): the grid arithmetic and name shortening of
  `draw_tasks`.
- `controller.dfy` (`Controller`): the prompt of `confirm_task` and the
  labelled loops of `main`, over a sequence of key presses and a sequence of
  exit statuses. The inner `'task_loop` is the method `TaskLoop`; it tells
  the outer `'select_loop` (`RunSession`) whether to show the menu again.

In loop mode, Enter and `s` go back to the menu at the prompt. `q` and Esc
give `NextAction::Exit`, which leaves the program even in loop mode
(src/main.rs:192-195). See `Controller.KeyDecides`.

## Model

| member | source | states |
|---|---|---|
| Entities.Join | src/main.rs:329 | joining an absolute path gives that path; joining a relative one appends its components to the base |
| Entities.Parent | src/main.rs:348 | a path has no parent exactly when it has no components; otherwise the parent drops the last component |
| Entities.Group.IsEmpty | src/main.rs:89-91 | a group is empty exactly when it has no tasks and no child groups; `Navigation.EmptyGroupOnlyQuitsOrPops` says what the menu does with one |
| Merge.Peers | src/main.rs:263-269 | the kept inputs are exactly those with the first input's name and key; the first input is kept first |
| Merge.MergeGroups | src/main.rs:257-302 | the result is a merge of the inputs (`IsMergeOf`); no input gives the default group (`Entities.EmptyGroup`: empty name, NUL key, no children, as `Group::default()` at src/main.rs:261); the result has the first input's name and key; a single peer input is returned unchanged |
| Merge.SinglePass | src/main.rs:273-288 | the nested loops leave the task map and the bucket map equal to the fold over the peer inputs |
| Merge.RegisterGroups | src/main.rs:274-279 | the bucket map after pushing one input's child groups, in order, each onto the bucket of its key; its effect is stated by `MergeFacts.RegisterGroupsSpec` |
| Merge.InsertTasks | src/main.rs:280-287 | the task map after one input's tasks: a task is skipped when its key has a bucket or a task already, otherwise stored under its key; its effect is stated by `MergeFacts.InsertTasksSpec` |
| Merge.Absorb | src/main.rs:273-288 | one pass of the outer loop: the input's child groups are registered first, and its tasks are then checked against the buckets as they stand after that input |
| Merge.Fold | src/main.rs:273-288 | the maps after the outer loop has absorbed every input in priority order; `MergeFacts.BucketsCollectSameKey` and `MergeFacts.FirstEligibleTaskWins` say what they hold |
| Merge.IsMergeOf | src/main.rs:257-302 | the results `merge_groups` can return: the default group for no input, the single peer unchanged, otherwise the first input's name and key, the task map's tasks one per key, and one child per bucket that is a merge of that bucket, in any order |
| Merge.IterationOrder | src/main.rs:290-294 | iterating a hash map visits each key exactly once, in some order |
| Merge.MergeBuckets | src/main.rs:290-293 | one merged child per bucket, keys pairwise distinct, each the recursive merge of its own bucket |
| Merge.TaskValues | src/main.rs:294 | the merged task list holds exactly the map's tasks, one per key |
| Merge.FoldTaskKeys | src/main.rs:286 | every task of the task map is stored under its own key |
| MergeFacts.RegisterGroupsSpec | src/main.rs:274-279 | registering child groups appends to each key's bucket exactly the children with that key, in order |
| MergeFacts.BucketsCollectSameKey | src/main.rs:273-279 | after the pass, key `k` has a bucket iff some input has a child with key `k`, and the bucket is every such child, in input order |
| MergeFacts.InsertTasksSpec | src/main.rs:280-287 | inserting tasks keeps existing entries, skips shadowed keys, and gives each new key the first unshadowed task with that key |
| MergeFacts.FirstEligibleTaskWins | src/main.rs:254-256 | after the pass, key `k` holds a task iff some eligible task has key `k`, and it holds the first such task in priority order |
| MergeFacts.EligibleOrigin | src/main.rs:273-287 | every eligible task comes from an input `i` none of whose inputs up to `i` has a child group with the task's key |
| MergeFacts.KeptTaskPrecedesGroup | src/main.rs:281-284 | a kept task whose key is a child-group key of input `j` comes from an input strictly before `j` |
| MergeFacts.MergeResultSpec | src/main.rs:257-302 | a merge of two or more peers holds, for each key, the first eligible task, a child for every child key of the inputs, and each child is a merge of every same-key child in input order |
| MergeFacts.PeersAppend | src/main.rs:265-269 | filtering distributes over concatenation of the inputs |
| MergeFacts.PeersIdempotent | src/main.rs:265-269 | filtering the kept inputs again keeps all of them |
| MergeFacts.MergeOnlySeesPeers | src/main.rs:263-269 | the merge of the inputs is the merge of the kept inputs alone |
| MergeFacts.NonPeerInputIgnored | src/main.rs:265-269 | inserting, after the first input, an input with another name or key does not change the possible merges |
| MergeFacts.HigherPriorityTaskKept | src/main.rs:254-256 | two files both bind the same task key: only the first file's task is kept, and there are no groups |
| MergeFacts.EarlierGroupShadowsTask | src/main.rs:281-284 | a group in an earlier file removes a later file's task with the same key; the group is kept unchanged |
| MergeFacts.LaterGroupDoesNotShadowTask | src/main.rs:273-287 | a task of an earlier file survives a same-key group that appears only in a later file: both are kept |
| Traversal.WalkAppend | src/main.rs:108-110 | the groups pushed last are walked first |
| Traversal.Walk | src/main.rs:102-113 | the tasks the iterator yields from a stack of groups: the group on top (last) is popped and walked first |
| Traversal.Preorder | src/main.rs:102-113 | the tasks yielded once a group is popped: its own tasks from the last to the first, then those of its child groups, the last child first |
| Traversal.PreorderTasks | src/main.rs:102-113 | the walk of a tree yields each of its tasks as often as the tree holds it, and nothing else |
| Traversal.TaskIterator.constructor | src/main.rs:82-87 | a fresh iterator holds no pending task and the root as its only group, and what it will yield is the walk of the root |
| Traversal.TaskIterator.Next | src/main.rs:102-113 | `None` exactly when nothing remains (both stacks then empty); otherwise the first remaining task, and the rest remains; the stacks keep describing what remains |
| Traversal.CollectTasks | src/main.rs:326 | draining a fresh iterator yields exactly the walk of the root, in order (by `Traversal.PreorderTasks`, every task of the tree as often as the tree holds it) |
| Traversal.IterationOrderExample | src/main.rs:567-587 | on the tree of `check_iteration` the iterator yields `boo` then `bar` |
| Traversal.ResolveTask | src/main.rs:327-329 | only the working directory changes; an unset one stays unset; a set one is joined onto the file's directory, or cleared when the file has no directory |
| Traversal.ResolveTree | src/main.rs:325-330 | the tree with every task's working directory rewritten by `ResolveTask`; `Traversal.ResolvePreorder` ties it to what the iterator yields |
| Traversal.ResolvePreorder | src/main.rs:325-330 | the iterator over the rewritten tree yields exactly the rewritten tasks of the original walk, in the same order |
| Traversal.AbsoluteAfterResolve | src/main.rs:325-330 | after the rewrite against an absolute directory, every set working directory is absolute |
| Traversal.ResolveTwice | src/main.rs:325-330 | rewriting again against the same absolute directory leaves every yielded task unchanged |
| Traversal.ResolveKeepsShape | src/main.rs:325-330 | the rewrite changes working directories and nothing else: with them cleared, the rewritten tree equals the original one |
| Traversal.RootFromFile | src/main.rs:310-332 | a loaded file is the group `ROOT`/`_` holding the file's own tree: with working directories cleared it equals the file's groups and tasks (names, keys, nesting kept), and its tasks are the file's tasks rewritten against the file's directory |
| Traversal.ConfigFileContext | src/main.rs:345 | the directory of a configuration file found in directory `d` is `d` |
| Discovery.LoadOne | src/main.rs:310-313 | a file yields a `ROOT`/`_` group, or nothing exactly when it is missing or cannot be parsed; the group is the file's parsed tree as `Traversal.RootFromFile` builds it |
| Discovery.LoadAll | src/main.rs:346-364 | the `tasks.push(tasks_from_file(config)?)` calls over a list of files: the root groups in file order, or the first file that fails, which ends the reading; `Discovery.LoadAllAppend` and `Discovery.WalkUp` state its properties |
| Discovery.StopDir | src/main.rs:336 | where the upward walk stops: the home directory, or `/` when there is none |
| Discovery.HomeConfig | src/main.rs:351-353 | `~/.ttr.yaml`, when there is a home directory |
| Discovery.AppConfig | src/main.rs:359-361 | `<config dir>/ttr/.ttr.yaml`, when there is a configuration directory |
| Discovery.IfFile | src/main.rs:353-354 | the `filter(is_file)` guard: the path when it is a file, otherwise nothing |
| Discovery.Ancestors | src/main.rs:339-349 | the directories the `while let` loop visits: the start directory, then each parent in turn, stopping before the stop directory or after a directory without parent |
| Discovery.ConfigsIn | src/main.rs:343-346 | the `.ttr.yaml` files of the visited directories that are files, in the order of the directories |
| Discovery.Discovered | src/main.rs:336-365 | every file read: those of the upward walk, then the home directory's, then the configuration directory's, each only when it is a file |
| Discovery.WalkUp | src/main.rs:339-349 | the upward walk reads, in order, the configuration files of the directories from the current one up to the stop directory, and fails on the first bad one |
| Discovery.ReadTasks | src/main.rs:304-368 | no current directory is an error; otherwise the groups of every discovered file, nearest first, then home, then the configuration directory, or the first failure |
| Discovery.LoadAllAppend | src/main.rs:346 | reading two lists of files is reading the first, then the second, stopping at the first failure |
| Discovery.AncestorsNearestFirst | src/main.rs:339-349 | the `i`-th directory visited is the start directory with `i` components removed |
| Discovery.StopNotVisited | src/main.rs:340-342 | the stop directory is never visited |
| Discovery.WalkStaysBelowHome | src/main.rs:336-349 | started inside home, the walk visits exactly the directories strictly below home on the way up |
| Discovery.DiscoveredAreConfigFiles | src/main.rs:343-365 | every file read exists and is named `.ttr.yaml` |
| Discovery.HomeConfigReadOnce | src/main.rs:336-364 | the upward walk never reads the home directory's file, and when that file exists and the configuration directory's file is another path, the files read list it exactly once |
| Navigation.FindTask | src/main.rs:492 | `None` iff no task has the key; otherwise the first task with it |
| Navigation.FindGroup | src/main.rs:496 | `None` iff no child group has the key; otherwise the first group with it |
| Navigation.Step | src/main.rs:483-505 | quit iff `q`; a selected task is the first task of the displayed group with the pressed key; a move either pushes the first child with the pressed key or pops one group |
| Navigation.KeyDispatch | src/main.rs:483-503 | space, Backspace/Esc at the root, Ctrl-chars and non-char keys give their error messages; Backspace/Esc above the root pop exactly one group |
| Navigation.CharacterKey | src/main.rs:491-501 | the first task with the key is selected even when a group has the same key; otherwise the first group with the key is pushed; otherwise "No task for key" |
| Navigation.EmptyGroupOnlyQuitsOrPops | src/main.rs:491-501 | in a group with no tasks and no children no key selects anything or pushes |
| Navigation.StepKeepsStackValid | src/main.rs:486-499 | a move keeps the root at the bottom and each group a child of the one below |
| Navigation.Navigate | src/main.rs:442-506 | the state of the menu loop after reading keys: a quit or a selection ends it, a move replaces the stack and clears the error, a failure keeps the stack and shows its message; the stack is never empty |
| Navigation.TopTasksInTree | src/main.rs:449 | the displayed group's tasks are tasks of the root's tree |
| Navigation.NavigateSound | src/main.rs:437-506 | whatever keys are pressed the stack stays valid, the unread keys are a suffix of the input, and a selected task belongs to the tree |
| Navigation.SelectTask | src/main.rs:436-507 | the loop ends in the state `Navigate` describes, with a valid stack and a selected task from the tree |
| Layout.DrawItems | src/main.rs:510-512 | the drawn items are the child groups, in order, followed by the tasks |
| Layout.DrawItem.Key | src/main.rs:420-425 | the key of the group or of the task the item stands for |
| Layout.DrawItem.Name | src/main.rs:427-432 | the name of the group or of the task the item stands for |
| Layout.ColumnsFit | src/main.rs:517 | at least one 20-column cell fits, and one more would not fit beside the 4-column margin |
| Layout.DivCeil | src/main.rs:518 | the rounded-up quotient: enough to cover `n`, and one less would not be |
| Layout.ChunksLength | src/main.rs:519 | there are `n / rows` columns, rounded up |
| Layout.ChunkAt | src/main.rs:519 | column `c` holds the items from `c * rows` on, `rows` of them or up to the end |
| Layout.Chunks | src/main.rs:519 | `chunks(rows)`: runs of `rows` items, the last possibly shorter; `Layout.ChunksLength`, `Layout.ChunkAt` and `Layout.ChunksConcat` state its properties |
| Layout.ChunksConcat | src/main.rs:519 | the columns, put back together, are the items |
| Layout.ColumnsFitScreen | src/main.rs:517-519 | there are never more columns than fit on the screen |
| Layout.Utf8Len | src/main.rs:526 | the byte length lies between the character count and four times it |
| Layout.DisplayNameAsWritten | src/main.rs:526-530 | names of at most 12 bytes are drawn whole; longer ones as their first 11 characters and `…`; either way at most 12 characters |
| Layout.NonAsciiNameMarred | src/main.rs:526-530 | a name of 7 to 12 two-byte characters fits the field, yet the source does not draw it whole |
| Layout.EllipsisWithoutCut | src/main.rs:526-530 | seven `é` are drawn in full followed by `…` |
| Layout.DisplayName | src/main.rs:526-530 | the shortened name has at most 12 characters; it is the name iff the name fits; otherwise the first 11 characters then `…` |
| Layout.DisplayNameAscii | src/main.rs:526-530 | on ASCII names the source's shortening and the corrected one agree |
| Layout.CellOf | src/main.rs:526-537 | a cell shows the item's key, marks groups apart from tasks, and shows the name as the source shortens it (`DisplayNameAsWritten`), which fits 12 columns |
| Layout.DrawGrid | src/main.rs:510-540 | `rows` lines, none longer than the columns that fit; each line shows its row of each column up to the first too-short column |
| Layout.DrawLine | src/main.rs:522-537 | a line shows row `i` of each column from the first up to the first column without a row `i` |
| Layout.GridPlacesEveryItem | src/main.rs:519-538 | every item is drawn, item `k` in line `k % rows` and column `k / rows` |
| Layout.GridShowsOnlyItems | src/main.rs:519-538 | every cell shows the item at its column-major place, and no cell lies past the last item |
| Controller.StatusOf | src/main.rs:209-217 | the status line names the task and says completed iff the run succeeded |
| Controller.PromptAction | src/main.rs:245-249 | Enter continues, `q` and Esc exit, `r` repeats, `s` selects another task; every other key is ignored |
| Controller.Answer | src/main.rs:242-250 | the prompt acts on the first key it knows and leaves the keys after it; ignored keys before it are skipped |
| Controller.ConfirmTask | src/main.rs:219-251 | the key loop ends with the answer and the remaining keys that `Answer` describes |
| Controller.KeyDecides | src/main.rs:191-202 | with no prompt, the loops go back to the menu in loop mode and leave otherwise (src/main.rs:198-202); Enter goes back to the menu in loop mode and leaves otherwise; `q`/Esc leave in loop mode too; `r` repeats; `s` goes back to the menu |
| Controller.ShowPrompt | src/main.rs:190 | the prompt is shown when the run failed, the task asks for confirmation or the options do |
| Controller.Decide | src/main.rs:191-203 | where the loops go after a run: outside loop mode only `s` brings the menu back; in loop mode only `q`, Esc or a prompt left unanswered end the session; only `r` runs the task again |
| Controller.AfterRun | src/main.rs:190-191 | the prompt is shown exactly when the run failed or the task or the options ask for confirmation; it reads the prompt's answer |
| Controller.Drive | src/main.rs:173-204 | the runs of the two labelled loops: from the menu, the runs of the chosen task, or none when the menu is left; from a run, that run followed by what `Decide` leads to (nothing, the same task again, or the menu); `Controller.DriveSound` states its properties |
| Controller.StatusAfter | src/main.rs:172-188 | the status line after some runs: the one before them when there are none, otherwise the status of the last run |
| Controller.Outcome | src/main.rs:190-203 | the prompt, the keys left and the loops' next step are those `AfterRun` and `Decide` give |
| Controller.DriveSound | src/main.rs:173-204 | runs take the exit statuses in order; every task run belongs to the tree; the prompt appears exactly as `ShowPrompt` says; only the last run ends the session; after "repeat" the same task runs again |
| Controller.TaskLoop | src/main.rs:178-203 | the inner loop produces the runs `Drive` describes from a run of the chosen task: all of them when it ends the session, or those before the menu comes back; the status line describes the last run |
| Controller.RunSession | src/main.rs:173-204 | the two loops produce the runs `Drive` describes, and the status line describes the last run |

## Left out

- YAML parsing (`serde_yaml`): a configuration file is given as its parsed
  groups and tasks, or as a parse failure.
- Environment variables, `sh -c` process spawning and stdio wiring
  (`create_process`): a run is reduced to its success flag.
- Controller.TaskLoop: a run always yields an exit status. In the source,
  `create_process(task, true)?` (src/main.rs:182) aborts `main` with an
  error when `current_dir()` fails or the spawn fails (for example on a
  working directory that does not exist), and so does `process.wait()?`
  (src/main.rs:185). That path is not modelled.
- Controller.RunSession: for the same reason, a session never ends with such
  an error; it ends only by leaving the menu, by a decision to leave, or when
  the keys or exit statuses run out.
- The Ctrl-C handler and the shared `AtomicI32` child pid: this is signal
  forwarding between threads, which the sequential model has no place for.
- Terminal control and drawing: alternate screen, raw mode, clearing,
  colours, the breadcrumbs and the footer of `select_task`. The terminal width
  is a parameter. I/O errors from `execute!` are not modelled.
- The `Display` text of `ExitStatus` in the status line and the prompt: only
  success and failure are kept.
- `next_key_event` blocks until a key arrives. The model reads keys from a
  finite sequence; when it runs out, the menu is `Waiting`, the prompt is
  `Unanswered` and the session ends. Exit statuses likewise come from a
  finite sequence.
- `Traversal.TaskIterator`: the source's stacks hold `&mut` references into
  the tree, and the working-directory rewrite writes through them. The model
  holds values and states the rewrite as a function on the tree, so aliasing
  is not modelled.
- `Merge.IterationOrder`: the source's hash-map order is unspecified. The
  model lets it be any order, and its contracts say nothing about which one.
- `Layout.DrawGrid` requires a width of at least 24 columns and at least one
  item. Below 24 the source divides by zero in `div_ceil`; below 4 the
  subtraction underflows. Empty groups are never drawn.
- `Discovery.ReadTasks`: `current_dir`, `home_dir`, `config_dir` and
  `is_file` are parameters; `files` lists every path that is a file.

## Findings

| source | as written | input that shows it | evidently intended | confidence | as-written member | corrected member |
|---|---|---|---|---|---|---|
| src/main.rs:526-530 | a name is shortened when its UTF-8 byte length exceeds 12, but the shortened text counts characters (`chars().take(11)`) | the name `ééééééé` (7 characters, 14 bytes) is drawn as `ééééééé…`: nothing is cut but an ellipsis is added; any name of 7 to 12 two-byte characters is not drawn whole although it fits the 12-column field | shorten only names longer than 12 characters | medium; not executed | Layout.DisplayNameAsWritten, Layout.NonAsciiNameMarred, Layout.EllipsisWithoutCut | Layout.DisplayName |

The grid (`Layout.CellOf`) draws names the way the source does.
`Layout.DisplayName` is the intended shortening; both give at most 12
characters, and `Layout.DisplayNameAscii` shows they agree on ASCII names.
