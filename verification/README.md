# ggit commit-graph core in Dafny

This project models the part of ggit that turns two texts into a tagged commit graph:

- the output of `git log --reverse --all --pretty=format:"%h|%p|%s"`;
- the output of `git show-ref`.

It also models the growable vector that the graph code is built on, and the rectangle hit-test of the user interface.

## What is modelled

- **Text** (`text.dfy`). The string helpers of `ggit-graph.c`:
  - `starts_with`;
  - `index_of`, as a function plus the loop that computes it;
  - the C-string view of a text (`CStr`, everything before the first `'\0'`);
  - counting helpers used by the proofs.
- **Vectors** (`vector.dfy`). `struct ggit_vector` is a class:
  - its fields are `size`, `capacity`, `value_size` and an array of slots;
  - its operations are init, clear, grow, insert (with the `memmove` as an in-place shift), push, push_array, reserve, reserve_more and get;
  - module-level methods model push_string, the small `%s`/`%%` formatter `push_vsprintf`, and `push_sprintf_terminated`.

  The growth policy is the function `GrowCapacity`. The formatter's output is the function `Format`, and `Escape` is its inverse.
- **Ui** (`ui.dfy`). `point_in_rect`.
- **MergeMessage** (`merge_message.dfy`). The three subject-line grammars, and the order in which `ggit_parse_merge_commit` tries them:
  - git's `Merge branch 'X' into Y`;
  - Bitbucket's `Merged in X (...)`;
  - Bitbucket's `Merged X into Y (...)`.
- **LogParser** (`log_parser.dfy`). The tokenizer loop of `ggit_graph_load_repository`, with its fixed `parts[8]` buffer and its backward scan that resolves parent hash prefixes to commit indices.
  - The loop (`ParseLog`) is proved equal to a line-by-line reference definition (`ParseLogTo`, `ResolveAll`).
  - Formatting a record as a log line and tokenizing it gives the record back.
- **Refs** (`refs.dfy`). Two loops, each proved against a function of its inputs:
  - `ggit_load_refs`, which pushes one 40-character hash window per space and one name per newline;
  - `ggit_match_refs_to_commits`.

  A listing of well-formed refs loads back into its hashes and names.
- **Branches** (`branches.dfy`). `ggit_branch_to_tag` and `ggit_refname_to_tag` as pure functions:
  - a tag is a class index, an instance index and a `strong` flag;
  - classifying interns the branch name among the instances of the first class whose prefix matches.
- **Tagging** (`tagging.dfy`). The three tag passes, each as a specification function with lemmas:
  - stamping ref heads;
  - `ggit_label_merge_commits`;
  - `ggit_propagate_tags`, also as an in-place method over an array of tags.
- **Graphs** (`graph.dfy`). `struct ggit_graph` as a class, with:
  - the constructor (`ggit_graph_init`, plus one configured class per prefix);
  - `Clear` (`ggit_graph_clear`);
  - `LoadRepository` (`ggit_graph_load_repository`).

  The method is proved to leave the graph holding `Load(log, refs, sbs)`, a value built from the reference definitions. `Load`'s lemmas state:
  - one commit per terminated line;
  - parents precede their children;
  - the width is the number of branch instances;
  - which commits stay untagged;
  - that loading twice gives the same graph.

## Where the code and the design description differ (the model follows the code)

- No column layout or lane compaction is computed. The width is the total number of branch instances over all special branches. The `max(w0, w1)` value is overwritten at once.
- `refs/tags/...` and `refs/stash` are not stripped or classified. Every ref outside `refs/heads/` and `refs/remotes/origin/` gets the untagged tag `{-1, -1}` with `strong` unset, and leaves its commit's tag alone.
- In `Merged in X (pull request #N)` the name ends at the first space. The parenthesis only decides whether the grammar accepts the subject.
- When a merge's main branch is not classified, the merge and its first parent get the merge commit's *current* tag, including its `strong` flag. They do not get a fresh strong tag.
- The incoming ("kink") tag defaults to `{-1, -1}` with `strong` set. This blocks propagation into the second parent.
- The tokenizer never resets its field buffer. A line with fewer than two `|` keeps the fields of the line before it (`LineRecord(line, stale)`).
- Reserving one slot in an empty vector yields a capacity of 8, not 1. This is the first-growth rule of `ggit_vector_grow`.
- Propagation does not settle on one answer independent of order. Children are handled from the last commit down, and a later child overwrites what an earlier sibling handed its first parent whenever the parent's class is -1 or greater than the later child's. An untagged child (class -1) thus clears a class a sibling handed down (ggit-graph.c:460-466; `PropagateLastChildDecides` states the rule for every graph and `PropagateLastChildWins` gives an instance).
- A ref that matches no commit pushes nothing. The later commit indices then pair with the wrong ref names (`MatchShiftsAfterMiss` gives an instance).

## Model

| member | source | states |
|---|---|---|
| Text.IndexOf | ggit-graph.c:21-29 | the result is the first position holding the character, and it is -1 exactly when the character does not occur |
| Text.FindIndex | ggit-graph.c:21-29 | the scanning loop returns `IndexOf` |
| Text.IndexOfAppend | ggit-graph.c:21-29 | appending a character changes the answer only when the character did not occur before |
| Text.CStr | ggit-graph.c:31-37 | the C view of a text holds no `'\0'`, is a prefix of the text, and is the whole text when the text holds no `'\0'` |
| Ui.PointInRect | ggit-ui.h:135-150 | a point is inside exactly when each coordinate lies between the two corner coordinates, edges included |
| Ui.SwapX | ggit-ui.h:135-150 | the order of the two x corners does not matter |
| Ui.SwapY | ggit-ui.h:135-150 | the order of the two y corners does not matter |
| Ui.CornersInside | ggit-ui.h:135-150 | all four corners are inside |
| Ui.JustOutside | ggit-ui.h:135-150 | one step beyond either x edge is outside |
| Vectors.GrowCapacity | ggit-vector.c:30-58 | the new capacity holds `cap + more`; it is 8 for a first single-slot growth and exact when asked to be exact |
| Vectors.StepUp | ggit-vector.c:44-47 | the stepping loop stops at the first multiple step that fits, overshooting by less than one step |
| Vectors.InsertGrowth | ggit-vector.c:34-47 | a full vector grows to 8 slots when empty, else to three times its capacity |
| Vectors.GrowTight | ggit-vector.c:30-58 | non-exact growth is at least three times the capacity and within one step of the need |
| Vectors.ReservedCapacity | ggit-vector.c:192-197 | reserving never shrinks; it is exact, except for one slot in an empty vector |
| Vectors.Vector.constructor | ggit-vector.c:60-65 | a new vector is empty, has no capacity and keeps the element size |
| Vectors.Vector.Get | ggit-vector.c:205-207 | a slot below the size is the element at that index |
| Vectors.Vector.Clear | ggit-vector.c:73-76 | the elements are dropped; storage and element size stay |
| Vectors.Vector.Grow | ggit-vector.c:30-58 | capacity becomes `GrowCapacity`, every old slot is copied, and the elements are unchanged |
| Vectors.Vector.Insert | ggit-vector.c:88-110 | the elements become the old ones with the value placed at the index; capacity follows the growth rule |
| Vectors.Vector.Push | ggit-vector.c:112-115 | the value is appended |
| Vectors.Vector.Reserve | ggit-vector.c:192-197 | capacity becomes `ReservedCapacity`; the elements are unchanged |
| Vectors.Vector.ReserveMore | ggit-vector.c:199-203 | afterwards the capacity holds the size plus `more`; the elements are unchanged |
| Vectors.Vector.PushArray | ggit-vector.c:117-130 | the values are appended in order |
| Vectors.ShiftUp | ggit-vector.c:99-106 | the slots from the index up move up by one; the others stay |
| Vectors.PushString | ggit-vector.c:132-135 | the characters of the C string are appended |
| Vectors.FormatEscape | ggit-vector.c:145-179 | formatting an escaped text gives the text back (`%%` is `%`) |
| Vectors.PushDirective | ggit-vector.c:164-172 | a directive appends its argument for `%s`, `%` for `%%`, and nothing otherwise |
| Vectors.PushFormatChar | ggit-vector.c:152-176 | one loop turn keeps "pushed text + rest formatted == old text + whole format formatted" |
| Vectors.PushVsprintf | ggit-vector.c:145-179 | the vector gains exactly `Format(format, args)` |
| Vectors.PushSprintfTerminated | ggit-vector.c:181-190 | the vector gains the formatted text followed by one `'\0'` |
| MergeMessage.ParseMergeCommit | ggit-graph.c:245-272 | the first grammar that accepts wins, in the order git, "Merged in", "Merged A into B", and its names are the result; None exactly when all three decline |
| MergeMessage.GitShape | ggit-graph.c:199-244 | an accepted git subject holds a non-empty quoted name without quotes, and a main of "master" or the text after " into " |
| MergeMessage.GitDeclines | ggit-graph.c:199-244 | the git grammar declines exactly when the prefix is missing, or the closing quote is missing or comes at once |
| MergeMessage.GitNeedsName | ggit-graph.c:217-242 | an empty quoted name is rejected |
| MergeMessage.GitExcludesBitbucket | ggit-graph.c:245-272 | a git subject is never accepted by a Bitbucket grammar, so the order matters only between the two Bitbucket ones |
| MergeMessage.GitRoundTrip | ggit-graph.c:199-244 | `Merge branch 'X' into Y` parses to main Y and kink X |
| MergeMessage.GitDefaultsToMaster | ggit-graph.c:225-238 | without " into ", the main branch is "master" |
| MergeMessage.MergedInShape | ggit-graph.c:112-147 | "Merged in" yields no main and a kink free of spaces |
| MergeMessage.MergedInRoundTrip | ggit-graph.c:112-147 | `Merged in X ...` parses to kink X and no main |
| MergeMessage.MergedIntoShape | ggit-graph.c:148-194 | "Merged A into B" yields a non-empty A without spaces, then " into ", then B |
| MergeMessage.MergedIntoRoundTrip | ggit-graph.c:148-194 | `Merged X into Y ...` parses to main Y and kink X |
| MergeMessage.MergedInComesFirst | ggit-graph.c:245-272 | `Merged in into Y` is read by the "Merged in" grammar, although the other one would accept it too |
| LogParser.LineStart | ggit-graph.c:538-542 | the current line starts just after the last terminator |
| LogParser.RecordPerLine | ggit-graph.c:513-584 | each `'\n'` or `'\0'` yields exactly one record |
| LogParser.LineFields | ggit-graph.c:515-528 | a line with two pipe separators determines its record alone: the hash is the text before the first, the subject the text after the second |
| LogParser.LineRoundTrip | ggit-graph.c:503-512 | tokenizing the line formatted from a record gives the record back |
| LogParser.TopIn | ggit-graph.c:554-566 | the highest non-excluded index whose hash starts with the non-empty prefix, or -1 when none does |
| LogParser.Resolve | ggit-graph.c:549-566 | each found parent's hash starts with its field; the two parents differ; an empty field is unresolved |
| LogParser.ResolveParents | ggit-graph.c:549-566 | the backward scan with its early exits computes `Resolve` |
| LogParser.ParentsPrecede | ggit-graph.c:549-567 | every resolved parent is an earlier commit, and a commit's two parents differ |
| LogParser.WritePipe | ggit-graph.c:515-527 | the `|` case leaves the buffer as `PipeWrite` describes: the field that ends at the pipe goes into slot `n`, a pipe that ends the first parent also records an empty second parent, and `n` moves to 3 or `n + 1` |
| LogParser.ReadChar | ggit-graph.c:514-583 | one character keeps the tokenizer invariant that ties the buffer and the records to the reference definition |
| LogParser.ParseLog | ggit-graph.c:500-584 | the records are `ParseLogTo(log)` and the parents are `ResolveAll` of them |
| Refs.LoadRefs | ggit-graph.c:82-109 | the loop computes `ScanRefs`: a 40-character window from the line start per space, the C text since the last space per newline |
| Refs.ScanCounts | ggit-graph.c:93-106 | one hash per space and one name per newline |
| Refs.LoadListing | ggit-graph.c:82-109 | loading a listing of well-formed refs gives back its hashes and names in order |
| Refs.FirstPrefix | ggit-graph.c:286-294 | the lowest commit whose hash is a prefix of the window, or -1 when there is none |
| Refs.MatchRefs | ggit-graph.c:274-298 | the loop computes `MatchAll`: one index per matched ref, in ref order |
| Refs.MatchAllSound | ggit-graph.c:274-298 | at most one index per ref, each the first match of some ref |
| Refs.MatchAllAligned | ggit-graph.c:274-298 | when every ref matches, the i-th index is the i-th ref's first match |
| Refs.MatchShiftsAfterMiss | ggit-graph.c:283-295 | after a ref that matches nothing, the next ref's commit takes the first slot |
| Branches.FirstClass | ggit-graph.c:318-324 | the first class whose prefix matches the name, with no earlier class matching |
| Branches.FindInstance | ggit-graph.c:327-334 | the first instance equal to the name, or -1 |
| Branches.Classify | ggit-graph.c:313-348 | "HEAD" and unmatched names are unclassified and intern nothing; otherwise the first matching class, and the first index of the name among its instances after interning |
| Branches.ClassifyInterns | ggit-graph.c:336-340 | classifying only appends a new name to its class; the total grows by at most one |
| Branches.ClassifyIdempotent | ggit-graph.c:313-348 | classifying the same name again gives the same tag and interns nothing |
| Branches.TotalGrows | ggit-graph.c:616-622 | one more instance adds one to the width |
| Branches.LocalRef | ggit-graph.c:356-360 | `refs/heads/X` is classified as X |
| Branches.RemoteRef | ggit-graph.c:361-365 | `refs/remotes/origin/X` is classified as X |
| Branches.OtherRef | ggit-graph.c:366-367 | any other ref is untagged and interns nothing |
| Branches.ClassifyRefInterns | ggit-graph.c:350-368 | a ref's tag is strong when classified; the classes only grow, by at most one instance |
| Tagging.Stamp | ggit-graph.c:592-605 | stamping keeps one tag per commit |
| Tagging.StampedAreRefHeads | ggit-graph.c:592-605 | every changed tag is strong, classified and on a ref's commit; the classes only grow |
| Tagging.StampLastRefWins | ggit-graph.c:592-605 | a commit whose last ref classifies ends up with exactly that ref's tag |
| Tagging.MergeTags | ggit-graph.c:398-423 | the kink tag is strong; the main tag is the merge's own tag or a strong classified one |
| Tagging.MergeTagsInterns | ggit-graph.c:398-407 | labelling a merge only interns names |
| Tagging.GitMergeTags | ggit-graph.c:398-423 | for `Merge branch 'A' into B`, B is classified first and is the merge's tag unless it is unclassified; A's tag is A classified against the resulting classes |
| Tagging.MergedInMergeTags | ggit-graph.c:398-423 | for `Merged in A ...` the merge keeps its own tag and A's tag is A classified |
| Tagging.MergedIntoMergeTags | ggit-graph.c:398-423 | for `Merged A into B ...`, B is classified first and is the merge's tag unless it is unclassified; A is classified after it |
| Tagging.MergeStep | ggit-graph.c:419-423 | after a merge, it and its first parent share a tag, the second parent's tag is strong, and nothing else changed |
| Tagging.LabelInterns | ggit-graph.c:370-432 | labelling only interns names |
| Tagging.LabelTouchesMerges | ggit-graph.c:370-432 | only merges and their parents are relabelled |
| Tagging.PropagateCopies | ggit-graph.c:440-470 | strong tags and every strong flag are kept; a changed tag is a non-strong copy of a child's final tag, so only first parents are written |
| Tagging.PropagateOnlyFirstParents | ggit-graph.c:448-451 | a commit that is nobody's first parent keeps its tag |
| Tagging.PropagateLastChildWins | ggit-graph.c:448-466 | with two children on one first parent, the child handled last decides the parent's tag: an untagged one clears the class the other handed down |
| Tagging.PropagateLastChildDecides | ggit-graph.c:448-466 | for every graph, a non-strong first parent ends either with the final tag of its lowest-indexed child, made non-strong, or with a class that is not -1 and not above that child's; so a child of class -1 always clears it |
| Tagging.PropagateTags | ggit-graph.c:440-470 | the loop over the tag array leaves exactly `Propagate` of the old tags |
| Graphs.Scan | ggit-graph.c:498-590 | the inputs read are consistent: parents precede, and every matched ref names a commit |
| Graphs.ReadInputs | ggit-graph.c:498-590 | reading the refs, the log and the matches computes `Scan` |
| Graphs.Graph.constructor | ggit-graph.c:634-644 | a new graph is empty with one empty class per prefix |
| Graphs.Graph.BranchToTag | ggit-graph.c:313-348 | the tag and the graph's classes are those of `Classify`; nothing else changes |
| Graphs.Graph.RefnameToTag | ggit-graph.c:350-368 | the tag and the classes are those of `ClassifyRef`; nothing else changes |
| Graphs.Graph.StampRefs | ggit-graph.c:592-605 | the tag array and the classes become those of `Stamp` |
| Graphs.Graph.LabelMergeCommit | ggit-graph.c:395-423 | one merge's tags and classes change as `MergeTags` says |
| Graphs.Graph.LabelMergeCommits | ggit-graph.c:370-432 | the tag array and the classes become those of `LabelMerges` |
| Graphs.Graph.Clear | ggit-graph.c:646-675 | no commits and no refs remain; every class keeps its prefix and loses its instances |
| Graphs.Graph.TotalWidth | ggit-graph.c:615-622 | the width is the total number of instances |
| Graphs.Graph.TagCommits | ggit-graph.c:581-613 | starting untagged, the three passes give the tags and classes of `Tagged` |
| Graphs.Graph.Populate | ggit-graph.c:586-629 | the graph holds `Build` of the inputs |
| Graphs.Graph.LoadRepository | ggit-graph.c:477-631 | the graph holds `Load(log, refs, classes)` |
| Graphs.BuildShape | ggit-graph.c:614-629 | one tag, hash, subject and parent pair per commit; the width is the instance count; the classes only grow |
| Graphs.BuildUntagged | ggit-graph.c:575-613 | a commit that is no ref head, no merge, no merge parent and nobody's first parent stays untagged |
| Graphs.LoadShape | ggit-graph.c:477-631 | one commit per terminated log line, with the hash and subject `ParseLogTo` gives that line (a line with fewer than two `|` keeps the subject of the line before it); parents precede; the classes keep their prefixes |
| Graphs.LoadUntagged | ggit-graph.c:477-631 | the loader leaves such a commit untagged |
| Graphs.LoadReloads | ggit-graph.c:489-622 | loading the same texts again, with the classes the first load produced, gives the same graph |

## Left out

- Running git (`ggit_run`, `popen`, the command lines in `ggit_graph_load`) and its timing printouts. The log and the ref listing are string parameters. `ggit_graph_load` itself is I/O around `ggit_graph_load_repository`.
- Memory management is not modelled:
  - `strndup`/`_strdup` and `free`;
  - `ggit_vector_destroy`, `ggit_vector_clear_and_free` (as frees) and `ggit_graph_destroy`;
  - `ggit_realloc`'s fallback when allocation fails (`calloc` and `abort`).

  Allocation always succeeds, and freed storage is simply replaced.
- `ggit_vector_push_sprintf` is the variadic wrapper around `push_vsprintf`. Its arguments are the `args` sequence of `PushVsprintf`.
- Vector elements are values of a type, not raw bytes. `value_size` is kept as a number. The `ggit_vector_get_*`/`ref_*` typed accessors are `Get`, or plain sequence indexing in the graph model.
- Diagnostics written to `stderr` (the "Ignoring ref" message) are left out.
- The `w0`/`w1` widths are overwritten before use, so they are not modelled. The width `ggit_label_merge_commits` returns is likewise not kept.
- Where the special branches come from is not modelled. The configuration is outside the graph code, so the constructor takes the class prefixes.
- Undefined behaviour in the source becomes a precondition instead of a modelled outcome:
  - `LogParser.ParseLog`: `WellFormedLog` (no `parts[8]` overrun; the first line writes every field before it is read);
  - `Refs.LoadRefs`: `WindowsFit` (the 40-character window stays inside the text);
  - `Refs.MatchRefs`: `NoOverread` (`strncmp` does not read past a 40-character window);
  - `MergeMessage.ParseMergedIn`: `MergedInDefined` (no `strndup` of length -1);
  - `Vectors.PushVsprintf`: `FormatOk` (no lone trailing `%`, and an argument for every `%s`);
  - `Graphs.Graph.LoadRepository`: `LoadOk`, which also asks that every matched commit has a ref name to pair with and every merge a resolved first parent (the source indexes the tag vector with both).
- Vectors.Vector.Grow: requires `exact`, a non-zero capacity or `more == 1`, because the source's stepping loop never ends for a larger non-exact growth of an empty vector. No caller reaches that case.
- Vectors.Vector.Get: states the contents only below `size`. Slots between `size` and `capacity` hold whatever was stored there before.
- Integers are unbounded. The C `int` overflow of sizes, capacities and indices is not modelled.
