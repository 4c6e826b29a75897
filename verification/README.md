# Verified model of the vault's daily-links engine and its neighbours

This project models the part of the repository that keeps state on disk while anything around it may fail or
interfere, and proves what it promises. Each module states its subject in its first lines.

**Daily links.** Every scheduled task is linked from the `## Tasks` section of the daily note its day resolves
to. `TasksSection` (over `Text`, `SpanEdits`, `TaskLines`) is the section transformer: character offsets, spans,
swallowed newlines and merged removals, proved equal to an operation on the list of lines; `LinkAlgebra` says what
that operation does to the links and to the text around them, `SectionOrder` what it leaves in place. `DailyFormat`
renders dates into note paths. `Reconcile` plans one pass; `Convergence` proves what a pass, or any part of one, does
to the links; `ReconcileRuns` is the prepare, apply, commit, record, sync, finalize protocol over whole runs with a
crash between any two writes, and `ReconcileExamples` builds worlds in which convergence stops. `Projection` writes
one note against outside writers, `NoteBodies` and `NoteLinks` relate note texts to link sets, `FrontmatterFence`
settles when an edit moves the frontmatter, and `EditsApart` shows that edits of different tasks or notes do not
interfere. `ReconcileStore` carries out a cycle on real note texts, commits it and shows that it is a step of the
protocol. `Batching` and `Bootstrap` are the first pass: one commit a batch, with a provenance check against outside
commits.

**Neighbouring protocols.** `MutationOutcomes` and `TaskFrontmatter`: what a task mutation may claim when the
document store replies anything, and how a task's frontmatter is rewritten. `TreeScan`, `TreeCopy`, `EntriesIndex`,
`VaultExport`: one recovery generation, with a failure injected at any step. `JobScheduler`: the inference queue.
`AllowlistState`, `FallbackMerge`, `ModelsOverlay`, `ModelsState`, `ModelsRollback`: state-owned configuration.
`BackupPrune` and `RetrievalMetrics`: pruning by acknowledgement, and ranking metrics. `Sets`, `Order`,
`GenerationIds` are shared.

Classes stand where the program updates state in place: `Projection.Vault`, `ReconcileStore.Store`,
`Bootstrap.Repository`, `MutationOutcomes.Engine`, `VaultExport.Staging`, `JobScheduler.Scheduler`,
`AllowlistState.Store`, `BackupPrune.Staging`. Their methods are proved against functions of the state, and the
run-level results are about those functions. Loops are methods with invariants. What lies outside the program
(other writers and committers, the store's replies, failing writes) enters as parameters that may take any value.

## What the proofs show beyond the documentation

These follow the code where its documentation promises more; each is a lemma in the table.

- A day that is finalized while its task file is not committed, a second reschedule inside one unfinalized cycle,
  and a routing change that ends in the early return of finalize each leave a link that no later pass removes.
- An established pass that moves more than eight linked tasks to other notes, as a change of folder or format may,
  is over the bound on steps and is refused on every retry.
- An established pass adopts whatever HEAD has become; a commit of someone else that moves a task during the pass
  leaves a link that no later pass removes.
- When the configuration changes again before a recorded cycle is finalized, the next pass takes up every link of a
  task whose day is as committed; the link of one rescheduled meanwhile is left unless it already is at its old or new
  note.
- In a first pass, commits that are only added are always noticed; a commit put in place of the reconciler's own, as by
  amending, is adopted.
- Adding a link to a note that opens a frontmatter block, never closes it and ends in an unterminated `---` closes
  the block: the section is then read as frontmatter and further edits are refused.
- Removing two or more links at the unterminated end of a note leaves one final newline.
- A profile that stores the title under `planned_week` is accepted and its scheduled tasks keep both planning keys.
- A deletion that reports `recovery_required` writes no marker, so it blocks nothing.
- Another writer's text that reaches the task file between its read-back and the commit is committed and reported as
  `applied_and_committed`.
- A failed export removes a `latest` pointer that exists but could not be read.
- Before the migration marker exists, a clear whose runtime write failed can be undone by the next migration.
- A null template value is not restored where the runtime has none, and a section it makes on the way is not reported;
  a template chain whose entries of one provider define different keys is not restored exactly.
- nDCG can exceed 1 exactly when the first k results hold more relevant ones, counted with repetition, than the ideal
  ranking counts; for one expected id returned twice in front it always does.

## Model

| member | source | states |
|---|---|---|
| SpanEdits.MergeRemovalSpans | scripts/tasknotes_mcp_core.py:3065-3075 | merging covers the same character positions as the given removal spans, and the merged spans are ordered, apart from each other and within the given bounds |
| SpanEdits.ApplyEdits | scripts/tasknotes_mcp_core.py:3078-3088 | the result is the body with the sorted edits spliced in: text between edits kept, each edited range replaced |
| SpanEdits.SpliceDeletes | scripts/tasknotes_mcp_core.py:3078-3088 | splicing in pure deletions keeps exactly the characters no span covers |
| TaskLines.ParseBulletComplete | scripts/tasknotes_mcp_core.py:3028-3034 | every line of the bullet-wikilink shape is recognised, with its indentation and link target |
| TaskLines.ParseBulletSound | scripts/tasknotes_mcp_core.py:3028-3034 | a recognised line has the bullet-wikilink shape, so the hand-written recogniser accepts exactly that shape |
| TaskLines.LinkLineLinks | scripts/tasknotes_mcp_core.py:3037-3039 | the line the program writes is recognised again as a link to its own slug and no other, and is one line and no heading |
| TaskLines.HeadingExact | scripts/tasknotes_mcp_core.py:2982-2990 | a level-2 heading is two number signs followed by a space or by blanks only, so a deeper heading ends no section; the Tasks heading is its text and blanks |
| TaskLines.BeforeBarExact | scripts/tasknotes_mcp_core.py:3028-3034 | a link target is what comes before the first bar |
| TaskLines.SlugExact | scripts/tasknotes_mcp_core.py:176 | a slug is lower-case letters and digits, with underscores and hyphens after the first character |
| TasksSection.FindTasksSection | scripts/tasknotes_mcp_core.py:2993-3025 | the running-offset search succeeds exactly when one Tasks heading exists, and returns the offsets of that line and of the next level-2 heading or the end |
| TasksSection.SectionBulletWikilinkSpans | scripts/tasknotes_mcp_core.py:3042-3052 | the spans are exactly the lines of the section that link to the slug, in order |
| TasksSection.LineRemovalSpanOf | scripts/tasknotes_mcp_core.py:3055-3062 | a line is removed with its own newline, or the one before it at an unterminated end |
| TasksSection.SpliceIsFilter | scripts/tasknotes_mcp_core.py:3042-3088 | offset-and-span deletion equals dropping lines from the line list, except that two or more dropped lines at an unterminated end leave one final newline |
| TasksSection.RemoveDailyNoteTaskLink | scripts/tasknotes_mcp_core.py:3132-3154 | remove equals splitting into lines, dropping the slug's bullets of the one section and rejoining (with that exception); it reports change exactly when there was one; refuses an invalid slug or a body without exactly one section |
| TasksSection.AddDailyNoteTaskLink | scripts/tasknotes_mcp_core.py:3091-3129 | add equals keeping the first bullet normalised in place with its indentation and dropping the others, or appending the bare link as the last line of the section |
| LinkAlgebra.RemoveMeaning | scripts/tasknotes_mcp_core.py:3132-3154 | after a remove the section links to everything it did except the slug, and text up to the end of the heading line and from the next level-2 heading on is byte-identical with still one section |
| LinkAlgebra.AddMeaning | scripts/tasknotes_mcp_core.py:3091-3129 | after an add the section links to the slug exactly once and to every other target as before, same text around it, still one section |
| LinkAlgebra.EditsIdempotent | scripts/tasknotes_mcp_core.py:3091-3154 | each edit made twice changes nothing the second time and says so |
| LinkAlgebra.RemoveUndoesAdd | scripts/tasknotes_mcp_core.py:3091-3154 | remove after an add of a new link returns the body, plus one newline exactly when the section ran to an unterminated end |
| LinkAlgebra.ChangedExact | scripts/tasknotes_mcp_core.py:3091-3154 | either edit reports a change if and only if it returns another text |
| SectionOrder.AddKeepsOrder | scripts/tasknotes_mcp_core.py:3091-3129 | an add leaves the links in their order, with the slug where its first link was, or last |
| SectionOrder.AddedIndent | scripts/tasknotes_mcp_core.py:3091-3129 | the first bullet becomes the bare link with the indentation it had |
| SectionOrder.EditsKeepLines | scripts/tasknotes_mcp_core.py:3091-3154 | either edit keeps every line of the section that is neither empty nor a bullet of the slug, verbatim and in order |
| DailyFormat.FormatDailyNoteDate | scripts/tasknotes_mcp_core.py:2616-2683 | renders exactly the valid dates under exactly the valid formats (maximal runs are tokens, literals are safe, length bound), and refuses every other date or format |
| DailyFormat.RenderedExact | scripts/tasknotes_mcp_core.py:2666-2683 | a name is rendered from the left: maximal runs of letters are tokens, every other character stands for itself |
| DailyFormat.CalendarExact | scripts/tasknotes_mcp_core.py:2666-2683 | the valid dates are those of the Gregorian calendar from year 1 to 9999 |
| DailyFormat.FormatExact | scripts/tasknotes_mcp_core.py:2616-2683 | under a valid format two dates get the same name if and only if they agree on every token of the format |
| DailyFormat.FormatInjective | scripts/tasknotes_mcp_core.py:2651-2683 | a valid format names all dates differently if and only if it shows the full year, a month and a day |
| DailyFormat.ResolveDailyNotePath | scripts/tasknotes_mcp_core.py:2892-2908 | a date resolves to folder/name.md when date, format and resulting path are valid, else it is refused |
| DailyFormat.SameNote | scripts/tasknotes_mcp_core.py:2892-2908 | under one configuration two dates share a note if and only if they agree on every token of its format |
| DailyFormat.TokenText | scripts/tasknotes_mcp_core.py:2651-2663 | each token shows its field in decimal: the year in four digits or its last two, month and day in two digits or as many as they need |
| DailyFormat.ResolvedInside | scripts/tasknotes_mcp_core.py:2686-2699 | a resolved note is a Markdown file of the folder inside the vault, whose path has no step that stays, goes up or is empty, no backslash and no control character |
| Reconcile.ClassifyMeaning | scripts/tasknotes_mcp_core.py:4988-5069 | the branching classification in terms of link days alone: ensure the new day and remove the old exactly when they differ; re-homing applies exactly to tasks that keep a day |
| Reconcile.ClassExact | scripts/tasknotes_mcp_core.py:4988-5069 | which class a change falls into, from presence, tag, day and location on the two sides |
| Reconcile.ComposeReconcileSteps | scripts/tasknotes_mcp_core.py:5072-5213 | a composed plan holds exactly the asked ensures, then exactly the asked removes of pairs not ensured, each pair once, sorted, with the day it is for; it is refused exactly when some asked day does not resolve or falls into a task folder, and over the bound only when enforced |
| Reconcile.SortedValues | scripts/tasknotes_mcp_core.py:5165-5185 | the steps over a set of keys, each once, ordered by target and slug |
| Reconcile.SortedExact | scripts/tasknotes_mcp_core.py:5165-5185 | sorted means by target, then by slug, each by the first character in which they differ |
| Reconcile.CollidesExact | scripts/tasknotes_mcp_core.py:3978-3996 | a note collides exactly when it is, or lies below, the task folder or a used archive folder |
| Reconcile.PlanStaysOut | scripts/tasknotes_mcp_core.py:5155-5163 | no step of a composed plan touches a task file or an archived one |
| Convergence.ApplyPrefix | scripts/tasknotes_mcp_core.py:5908-5926 | what any prefix of ensures followed by removes does to a set of links |
| Convergence.PlanKeys | scripts/tasknotes_mcp_core.py:5097-5185 | which pairs a plan ensures and removes, slug by slug: the new note, and the old note if it is another one, exactly for slugs whose day or note moved |
| Convergence.StepsExact | scripts/tasknotes_mcp_core.py:5097-5185 | a slug has steps if and only if its day changed, or the routing did and it keeps a day, and it has an old or a new note |
| Convergence.PrefixStaysBetween | scripts/tasknotes_mcp_core.py:5097-5185 | links between the old and the new note stay so, and never vanish while both exist, after every prefix of a plan |
| Convergence.PassExact | scripts/tasknotes_mcp_core.py:5138-5185 | a whole pass leaves a slug at exactly its new note if and only if its links lay within old and new note and, where the plan has no step, were right already |
| Convergence.PassSettles | scripts/tasknotes_mcp_core.py:5097-5185 | a whole pass from links between old and new notes leaves every slug linked from exactly its current note |
| Convergence.RetriesConverge | scripts/tasknotes_mcp_core.py:5504-5687 | any number of passes cut anywhere and then a whole one ends with every link in place, re-homing and coarse formats included |
| Convergence.PlanExact | scripts/tasknotes_mcp_core.py:5097-5185 | a list of steps is a plan exactly when its pairs are those the tasks and routings call for, each once and sorted |
| Convergence.PlanUnique | scripts/tasknotes_mcp_core.py:5165-5185 | there is only one plan for a comparison of tasks under given routings, so a refusal for its size repeats |
| Convergence.PlanSizeExact | scripts/tasknotes_mcp_core.py:5183-5184 | the exact size of a plan: one step for every slug that gains a link and one for every slug that loses one |
| Convergence.MovesOverBound | scripts/tasknotes_mcp_core.py:5183-5184 | limit: a pass that moves more than eight linked tasks between notes, as a routing change may, always exceeds the bound of an established pass |
| ReconcileExamples.OverBoundHappens | scripts/tasknotes_mcp_core.py:5183-5184 | nine tasks and a change of format are over the bound |
| ReconcileRuns.RunSafe | scripts/tasknotes_mcp_core.py:5571-5585 | in every run, with crashes, edits and commits of others anywhere, also inside an attempt, the pending record always shares a head with the cursor, so the foreign-pending refusal never fires on states the protocol produced |
| ReconcileRuns.CursorMovesOnlyToHead | scripts/tasknotes_mcp_core.py:5956-6033 | the cursor changes only in a finalization after a successful sync, to a recorded head equal to HEAD with the recorded routing; a refusal changes neither file |
| ReconcileRuns.CrashWindowCloses | scripts/tasknotes_mcp_core.py:6011-6033 | a crash between cursor write and pending removal is closed by finalizing again while HEAD has not moved |
| ReconcileRuns.AttemptKeepsInvariant | scripts/tasknotes_mcp_core.py:5504-5952 | an attempt, cut anywhere or completed, with any commits of others in between, keeps the invariant that ties links, baseline, routing and records together |
| ReconcileRuns.EngineStaysBetween | scripts/tasknotes_mcp_core.py:6439-6520 | the links the engine writes itself with a mutation keep the invariant, whatever was edited before |
| ReconcileRuns.EditStaysBetween | scripts/tasknotes_mcp_core.py:5606-5615 | an edit of tasks or configuration keeps it when every slug whose note it moves still has its links where the baseline has them |
| ReconcileRuns.RerouteStaysBetween | scripts/tasknotes_mcp_core.py:5579-5585 | a change of configuration while a record waits keeps it when a pass can take up every link the change moves |
| ReconcileRuns.ReroutedPassExact | scripts/tasknotes_mcp_core.py:5579-5627 | after a change of configuration over a recorded, unfinalized cycle, a completed attempt settles a slug if and only if the recorded routing has its current day nowhere, at the note of its committed day, or already at the new note; so it settles every slug whose day is as committed |
| ReconcileExamples.RerouteHappens | scripts/tasknotes_mcp_core.py:5579-5627 | a run in which a slug rescheduled in between is not settled |
| ReconcileRuns.RunKeepsInvariant | scripts/tasknotes_mcp_core.py:5504-6033 | every reachable state of a disciplined run satisfies that invariant |
| ReconcileRuns.FinalizedRunsAreSettled | scripts/tasknotes_mcp_core.py:5504-6033 | a finalization that takes effect finds every link where current tasks and configuration put it and records a baseline for which the same holds |
| ReconcileRuns.StaleLinkSurvives | scripts/tasknotes_mcp_core.py:5606-5615 | a link at neither the baseline note nor the current note of its slug survives every recorded pass |
| ReconcileRuns.FinalizeExact | scripts/tasknotes_mcp_core.py:5956-6033 | the recorded baseline accounts for the links if and only if every slug has the same note in the recorded commit under the recorded routing as now |
| ReconcileRuns.AdoptedCommitExact | scripts/tasknotes_mcp_core.py:5927-5938 | an established pass adopts whatever HEAD has become; its record accounts for the links if and only if the last commit has every slug at the note the pass was planned for |
| ReconcileRuns.AdoptedCommitLeavesLink | scripts/tasknotes_mcp_core.py:5927-5938 | limit: a slug for which it does not keeps the planned link for good once it moves on |
| ReconcileRuns.AttemptExists | scripts/tasknotes_mcp_core.py:5504-5952 | from every state that is not foreign an attempt can run to its end |
| ReconcileExamples.AdoptedCommitHappens | scripts/tasknotes_mcp_core.py:5927-5938 | a run in which that happens |
| ReconcileExamples.UncommittedDayHappens | scripts/tasknotes_mcp_core.py:5606-5615 | a run in which a finalized uncommitted day leaves its link |
| ReconcileExamples.LostRoutingHappens | scripts/tasknotes_mcp_core.py:6011-6017 | a run in which the early return of finalize loses the routing and leaves a link |
| ReconcileExamples.SecondRescheduleHappens | scripts/tasknotes_mcp_core.py:5606-5615 | a run in which a second reschedule leaves the link of the first |
| ReconcileRuns.UncommittedDayLeavesLink | scripts/tasknotes_mcp_core.py:5606-5615 | limit: finalizing over an uncommitted new day leaves a link no later pass removes |
| ReconcileRuns.LostRoutingIsReached | scripts/tasknotes_mcp_core.py:6011-6017 | limit: a routing change whose pass was cut before its commit ends in the early return of finalize, which keeps the old routing |
| ReconcileRuns.LostRoutingLeavesLink | scripts/tasknotes_mcp_core.py:6011-6017 | limit: after that, the moved link of a task that is rescheduled is never removed |
| ReconcileRuns.SecondRescheduleLeavesLink | scripts/tasknotes_mcp_core.py:5606-5615 | limit: a second reschedule before the first is finalized leaves the link of the first |
| Projection.TransformDailyNoteText | scripts/tasknotes_mcp_core.py:3336-3369 | the section edit is applied to the body after a closed frontmatter block, everything before it verbatim |
| Projection.Vault.PrepareDailyNoteProjection | scripts/tasknotes_mcp_core.py:3380-3479 | create, replace or nothing, with the content computed from the text read and that text as fingerprint |
| Projection.Vault.Attempt | scripts/tasknotes_mcp_core.py:3608-3751 | one attempt against outside writers and failing writes: publishes only if the source still matches, and a create only where no note exists even after the check |
| Projection.Vault.ApplyDailyNoteProjection | scripts/tasknotes_mcp_core.py:3754-3813 | the two-attempt loop with one recomputation between, as a function of the notes and of what outside writers do |
| Projection.PublishesTransformOfPresentText | scripts/tasknotes_mcp_core.py:3608-3813 | what is published is the transform of the text present at the final check; a conflict, a failed write or a failed recomputation leaves exactly what outside writers left; a create never overwrites |
| Projection.QuietApplyIsFoldStep | scripts/tasknotes_mcp_core.py:3754-3813 | without outside writers a projection prepared against any older snapshot has the effect of its edit on the notes as they are now, in at most two attempts and never a conflict |
| Projection.ConflictExact | scripts/tasknotes_mcp_core.py:3754-3813 | a conflict is reported if and only if the note moved in both attempts, a failure if and only if a write fails or the text read in between cannot be edited |
| Projection.TransformChanged | scripts/tasknotes_mcp_core.py:3336-3369 | a transform reports a change if and only if the text is another one |
| Projection.Vault.ApplyProjections | scripts/tasknotes_mcp_core.py:5908-5926 | no lost update: without outside writers, projections all prepared against one snapshot leave the notes equal to folding their edits in order; only reported notes change, and some note is reported if and only if some edit changed one |
| NoteBodies.EditedLinks | scripts/tasknotes_mcp_core.py:3336-3369 | an edit that leaves the body where it was adds or removes exactly the slug from the note's links, and leaves one section |
| NoteLinks.FoldStepLinks | scripts/tasknotes_mcp_core.py:3380-3479 | one edit carried out on the notes is one step carried out on the link set of the vault, if and only if it neither closes an open frontmatter nor starts a note with links of other slugs |
| NoteLinks.PreparedPlanSucceeds | scripts/tasknotes_mcp_core.py:5628-5645 | edits all prepared against one state of the notes are all carried out when applied in order: recomputation never fails half-way, on notes no edit spoils |
| NoteLinks.FoldLinks | scripts/tasknotes_mcp_core.py:5908-5926 | carrying out prepared edits in order does to the links what the plan's steps do |
| EditsApart.SameExact | scripts/tasknotes_mcp_core.py:3091-3154 | an edit changes nothing if and only if the section holds no bullet of the slug, or for an add exactly the one the program writes |
| EditsApart.IdleStays | scripts/tasknotes_mcp_core.py:3380-3479 | whether an edit changes anything does not depend on edits of other slugs or notes made before, and made again it changes nothing |
| EditsApart.WritesExact | scripts/tasknotes_mcp_core.py:5908-5926 | edits of different pairs of note and slug, made in order, leave the notes they found if and only if none of them changes one |
| FrontmatterFence.FenceIsLine | scripts/tasknotes_mcp_core.py:1679-1702 | the frontmatter is closed if and only if a line of three dashes, not the last and not before the third, exists |
| FrontmatterFence.ReparseExact | scripts/tasknotes_mcp_core.py:1679-1702 | an edit leaves the body where it was if and only if it is not an add, to a note with unclosed opening dashes, of a new link after an unterminated last line of three dashes |
| FrontmatterFence.SafeStays | scripts/tasknotes_mcp_core.py:1679-1702 | a note whose frontmatter is closed or whose last line is no rule is never spoiled, by any edits |
| FrontmatterFence.ClosedFenceBlocksEdits | scripts/tasknotes_mcp_core.py:1679-1702 | limit: after such an add the section is read as frontmatter and every further edit of the note is refused |
| FrontmatterFence.SpoiledNote | scripts/tasknotes_mcp_core.py:1679-1702 | the shortest note to which that happens |
| ReconcileStore.Store.Plan | scripts/tasknotes_mcp_core.py:5555-5627 | a plan for the world's baseline and routings; refused exactly for a foreign pending record, an unroutable day, or, with a cursor, more slugs gaining and losing links than the bound; a first pass only ensures and groups steps by note |
| ReconcileStore.Store.PrepareAll | scripts/tasknotes_mcp_core.py:5628-5645 | every step has a projection prepared against the notes as they are, or none is returned because some edit cannot be prepared |
| ReconcileStore.Store.ApplyBatches | scripts/tasknotes_mcp_core.py:5826-5887 | batch after batch, cut anywhere, reaches exactly the notes of that prefix of the plan; the commits are as many as batches that were got through, left other notes than they found and differ from HEAD; none exceeds the target bound |
| ReconcileStore.Store.ApplyOnce | scripts/tasknotes_mcp_core.py:5908-5938 | an established pass commits after all its steps, on top of whatever others put before |
| ReconcileStore.OneCommit | scripts/tasknotes_mcp_core.py:5908-5938 | it makes one commit if and only if it gets through its steps, they leave other notes than they found, and these differ from HEAD |
| ReconcileStore.Store.PrepareCycle | scripts/tasknotes_mcp_core.py:5555-5645 | planning and preparing, and exactly when they refuse |
| ReconcileStore.Store.ReconcileCycle | scripts/tasknotes_mcp_core.py:5504-5953 | a cycle on real note texts, with others committing around its own commits: it refuses, before any write, exactly for a foreign pending record, an unroutable day, a plan over the bound or an edit that cannot be made; else the notes are those of the carried-out part of the one plan, the history is the old one, what others commit and its own commits in their places, and the pending record is written exactly when it is through; and it is an attempt step of the protocol |
| ReconcileStore.Store.FinalizeDailyLinks | scripts/tasknotes_mcp_core.py:5956-6033 | finalization is the protocol's finalize step, refused exactly when the decision says so |
| ReconcileStore.Store.RunFinalize | scripts/tasknotes_daily_links_reconcile.py:233-260 | the second phase takes its configuration from the pending record, so it succeeds exactly when HEAD is the recorded head and the record fits the cursor |
| Batching.BatchReconcileTransitions | scripts/tasknotes_mcp_core.py:5216-5247 | batches are determined by the rank of each target in order of first appearance, sixteen targets to a batch |
| Batching.BatchTargets | scripts/tasknotes_mcp_core.py:5216-5247 | a batch holds all steps of its targets, no target is in two batches, each but the last has exactly sixteen targets, and their number is the ceiling of the distinct targets over sixteen |
| Batching.SortedIsGrouped | scripts/tasknotes_mcp_core.py:5165-5185 | composed steps of one target stand together |
| Batching.BatchesConcatenate | scripts/tasknotes_mcp_core.py:5216-5247 | on such input the batches concatenate to the input |
| Bootstrap.Repository.CommitBatch | scripts/tasknotes_mcp_core.py:5866-5886 | the targeted commit is a child of HEAD; HEAD is adopted only when its one parent is the expected head |
| Bootstrap.Repository.ApplyBootstrap | scripts/tasknotes_mcp_core.py:5826-5906 | the whole batched apply as a function of what outside committers do at every gap; the pending record is written exactly on success |
| Bootstrap.NamedHeadIsChain | scripts/tasknotes_mcp_core.py:5690-5707 | whatever outside committers do, the recorded head is a chain of single-parent commits, one per batch with notes that changed and differ, above the planned head |
| Bootstrap.GatesExact | scripts/tasknotes_mcp_core.py:5866-5906 | what a recorded head has passed: HEAD and sources as planned at the first check, HEAD at the last adopted commit and sources as planned at the last, and HEAD there once more |
| Bootstrap.BatchGatesExact | scripts/tasknotes_mcp_core.py:5826-5886 | a batch goes on if and only if its recheck passes, nothing conflicts, and its commit, if it makes one, is HEAD with the expected head as its one parent |
| Bootstrap.ProvenanceExact | scripts/tasknotes_mcp_core.py:5690-5749 | against committers that only add commits, the call succeeds if and only if there is none before its last check and nothing else fails, and then history grew by exactly its own commits in batch order |
| Bootstrap.RecordedIsOwnExact | scripts/tasknotes_mcp_core.py:5690-5707 | against any committers, the recorded chain consists of the reconciler's own commits of this call if and only if after every own commit the outside acts left HEAD on it |
| Bootstrap.RewriteIsAdopted | scripts/tasknotes_mcp_core.py:5690-5707 | limit: a commit amended in place of the reconciler's own passes the parent check and is recorded |
| TaskFrontmatter.ReconstructFrontmatter | scripts/tasknotes_mcp_core.py:1805-1876 | the rewritten frontmatter as a function of the page and the ordered updates |
| TaskFrontmatter.BothPlanningKeysExact | scripts/tasknotes_mcp_core.py:1849-1863 | a rewrite leaves both planning keys if and only if the profile stores the title under planned_week and the task is scheduled |
| TaskFrontmatter.TitleAsPlannedWeekKeepsBoth | scripts/tasknotes_mcp_core.py:497-536 | limit: such a profile passes validation and its scheduled tasks come out with both keys |
| TaskFrontmatter.PlanningChange | scripts/tasknotes_mcp_core.py:6853-6867 | setting a day, setting a week, clearing to backlog and clearing the week each leave exactly that target, whatever other fields are updated with it |
| TaskFrontmatter.UnnamedFieldsKept | scripts/tasknotes_mcp_core.py:1805-1876 | every frontmatter key no update names keeps its value, a stored date in its plain form |
| TaskFrontmatter.UpdatedFieldHolds | scripts/tasknotes_mcp_core.py:1805-1876 | an updated field holds its value, or is cleared, under its mapped key; an unknown field under its own name, winning over a field mapped to that name |
| TaskFrontmatter.StructuralFields | scripts/tasknotes_mcp_core.py:1864-1876 | type and title are always the page's, tags too unless they are updated, and a title stored elsewhere is filled in where nothing else is |
| MutationOutcomes.Engine.VerifyReadback | scripts/tasknotes_mcp_core.py:6235-6253 | accepts exactly when both documents are readable, equal, and equal to the intended one if given |
| MutationOutcomes.Engine.HandlePostCapture | scripts/tasknotes_mcp_core.py:6256-6317 | exactly when each result is reported after a capture that replied: committed or not if the read-back found the intended document, else synced from the file; and the target it leaves |
| MutationOutcomes.Engine.RecoverFromDiskFailure | scripts/tasknotes_mcp_core.py:6319-6336 | db_updated_disk_failed exactly when sync and read-back succeeded with database and file equal; otherwise the marker is written |
| MutationOutcomes.Engine.ReconcileAfterCaptureFailure | scripts/tasknotes_mcp_core.py:7310-7335 | applied_uncommitted exactly when database and file hold the intended document; otherwise the marker is written |
| MutationOutcomes.Engine.Mutate | scripts/tasknotes_mcp_core.py:6149-6169 | a mutation with a marker present changes nothing; otherwise exactly when each result is reported, the database, file and HEAD it leaves, and when the marker is set |
| MutationOutcomes.MutationIsSound | scripts/tasknotes_mcp_core.py:6256-6336 | every result tells the truth about the database, and about the file as git last saw it |
| MutationOutcomes.Engine.Delete | scripts/tasknotes_mcp_core.py:7041-7183 | exactly when each result of a deletion is reported, recovery included, and what is then true; a missing or dirty target is left alone and no marker is written |
| MutationOutcomes.AgreementExact | scripts/tasknotes_mcp_core.py:6281-6317 | applied_and_committed means that database, file and HEAD hold the intended document if and only if nobody changed the file between its read-back and git's status |
| MutationOutcomes.OverwrittenFileIsCommitted | scripts/tasknotes_mcp_core.py:6281-6317 | limit: another writer's text in the file is committed in place of the one read back, and reported as applied |
| MutationOutcomes.MarkerExact | scripts/tasknotes_mcp_core.py:6149-6169 | over any run a marker is present if and only if some capture asked for recovery, its marker was written, and no operator cleared it since |
| MutationOutcomes.BlockedExact | scripts/tasknotes_mcp_core.py:6149-6169 | a mutation or deletion is blocked exactly then, and blocked ones touch nothing |
| MutationOutcomes.RecoveryBlocksNext | scripts/tasknotes_mcp_core.py:7138-7168 | of the recovery reports exactly those of captures whose marker was written block the next step; no deletion's does |
| MutationOutcomes.DeletionRecoveryReached | scripts/tasknotes_mcp_core.py:7138-7147 | a deletion that reports recovery and leaves no marker |
| MutationOutcomes.LastResultHolds | scripts/tasknotes_mcp_core.py:6256-6317 | the last result of a run stays true while only blocked mutations follow |
| TreeScan.ScanTree | scripts/vault_recovery_core.py:900-958 | the stack traversal lists every entry of the tree exactly once, ordered by path |
| TreeScan.ScansEqualExact | scripts/vault_recovery_core.py:982-1004 | two scans are equal if and only if the trees are |
| TreeScan.ParentExact | scripts/vault_recovery_core.py:900-958 | the directory of a path is what comes before its last slash |
| TreeCopy.CopyTree | scripts/vault_recovery_core.py:1007-1124 | from a source that stays as scanned the copy is the scanned tree, modes and empty directories included; from any source every listed file was still there as a file and has the listed mode and the content it had when it was copied, and the copy is a tree |
| TreeCopy.CopyAndScan | scripts/vault_recovery_core.py:900-1124 | scanning the copy of a scanned tree gives the same scan again |
| TreeCopy.NamesAreFree | scripts/vault_recovery_core.py:1053-1100 | in scan order neither a file's name nor its temporary sibling is ever taken |
| TreeCopy.ApplyModes | scripts/vault_recovery_core.py:1111-1118 | applying modes deepest first reaches every directory |
| TreeCopy.ClosedDirectoryBlocks | scripts/vault_recovery_core.py:1111-1118 | once a directory cannot be entered no mode below it can be applied, so the order is needed |
| EntriesIndex.WriteEntriesIndex | scripts/vault_recovery_core.py:1134-1170 | the index is written exactly when no path holds a tab, newline or carriage return |
| EntriesIndex.LineExact | scripts/vault_recovery_core.py:1134-1170 | a line is kind, mode, size, digest and path, separated by tabs |
| EntriesIndex.DigitsExact | scripts/vault_recovery_core.py:1134-1170 | a size is printed in decimal digits without leading zeros |
| EntriesIndex.ParsePrinted | scripts/vault_recovery_core.py:1134-1170 | every printed line reads back as its record |
| EntriesIndex.IndexLines | scripts/vault_recovery_core.py:1134-1170 | the text is the lines of the records in their order |
| EntriesIndex.IndexInjective | scripts/vault_recovery_core.py:1134-1170 | equal index texts come from equal record lists |
| VaultExport.Staging.TryOnce | scripts/vault_recovery_core.py:1256-1291 | an attempt settles only with equal source scans and a staged copy equal to the source at its first scan; a source that holds still settles |
| VaultExport.Staging.Converge | scripts/vault_recovery_core.py:1255-1295 | never more attempts than the bound; a source that moves for some attempts and then holds still converges at the first still one, one that always moves never does |
| VaultExport.Staging.Publish | scripts/vault_recovery_core.py:1298-1366 | whichever step fails, a generation is visible only complete, with its manifest and READY, and `latest` is written only after that |
| VaultExport.Staging.ExportGeneration | scripts/vault_recovery_core.py:1194-1394 | published trees equal the source at that attempt's first scan; a failure at any step, when the rollback's two parts work, leaves no generation directory and the previous valid pointer text, or none |
| VaultExport.Staging.ReadLatest | scripts/vault_recovery_core.py:1418-1439 | a manifest is returned only from a directory with READY and its own id |
| VaultExport.StripExact | scripts/vault_recovery_core.py:1424 | the id is the pointer text without the spaces around it |
| VaultExport.Staging.ReadersFailClosed | scripts/vault_recovery_core.py:1367-1439 | readers see the new generation after success, what they saw before after a rolled-back failure, and never the failed one |
| VaultExport.Staging.ExportKeepsFinished | scripts/vault_recovery_core.py:1298-1366 | every directory on the volume stays a finished generation under its own id, even after an export that fails and cannot be rolled back |
| VaultExport.Staging.UnreadPointerIsLost | scripts/vault_recovery_core.py:1247-1253 | limit: a pointer that exists but cannot be read is removed by a failed export |
| VaultExport.UnreadPointerHappens | scripts/vault_recovery_core.py:1247-1253 | a volume to which that happens |
| JobScheduler.Scheduler.CasLocked | aux-ml/app/jobs.py:108-140 | compare-and-set: nothing changes unless the status is the expected one and the transition allowed |
| JobScheduler.Scheduler.CreateJob | aux-ml/app/jobs.py:145-169 | a new job is queued with its event unset |
| JobScheduler.Scheduler.DeleteJob | aux-ml/app/jobs.py:175-182 | the job, its event and its first entry in the deque are gone |
| JobScheduler.Scheduler.EnqueueJob | aux-ml/app/jobs.py:195-202 | appended with its position, or refused exactly when the deque is full |
| JobScheduler.Scheduler.ClaimNextJob | aux-ml/app/jobs.py:233-248 | claims the first entry that is still queued and drops those before it |
| JobScheduler.Scheduler.CancelQueuedJob | aux-ml/app/jobs.py:250-263 | removes and cancels in one step exactly a queued job |
| JobScheduler.TransitionStores | aux-ml/app/jobs.py:108-140 | a transition is made if and only if the job has the expected status and the table allows the new one; then it stores the result and error given, a result alone clears the error, and nothing else changes |
| JobScheduler.OnlyTransitionsStore | aux-ml/app/jobs.py:145-263 | no other operation touches the result or the error of a job |
| JobScheduler.FlagsExact | aux-ml/app/jobs.py:127-130 | a job is marked finished if and only if its status is terminal, and started if and only if it has been running |
| JobScheduler.FinishedIsFinal | aux-ml/app/jobs.py:36-39 | a job that ended keeps status, result, error and marks until it is deleted |
| JobScheduler.CancelledWhenAsked | aux-ml/app/jobs.py:30-38 | a running job ends cancelled only after it was asked to cancel |
| JobScheduler.CancelExact | aux-ml/app/jobs.py:250-263 | a cancellation succeeds if and only if the job is queued; it ends cancelled and its first entry leaves the deque |
| JobScheduler.ClaimExact | aux-ml/app/jobs.py:233-248 | a claim takes the first entry whose job is queued, drops those before it, and waits with an empty deque if there is none |
| JobScheduler.TableExact | aux-ml/app/jobs.py:145-202 | created jobs are queued and blank, deleted ones are gone with their first entry, enqueued ones are last in the deque unless it is full |
| JobScheduler.RunValid | aux-ml/app/jobs.py:98-202 | over every interleaving the deque never exceeds its bound and the completion event is set exactly for terminal jobs |
| JobScheduler.StatusHistory | aux-ml/app/jobs.py:30-38 | a job's status history is a path of allowed transitions and terminal states never change |
| JobScheduler.ClaimedOnce | aux-ml/app/jobs.py:233-248 | a job is claimed at most once, however often it was enqueued |
| JobScheduler.ClaimsInOrder | aux-ml/app/jobs.py:195-248 | a claimed job had been enqueued before every enqueue of any job that is still queued |
| JobScheduler.QueuedIsInDeque | aux-ml/app/jobs.py:195-248 | an enqueued job that is still queued is in the deque |
| AllowlistState.CanonicalAllowlistItems | scripts/josemar_skill_state.py:518-547 | sorted, each item once, or refused for a non-list or a blank item |
| AllowlistState.CanonicalExact | scripts/josemar_skill_state.py:518-547 | a value is refused if and only if it is no list or holds a blank item; else the canonical list holds exactly its items |
| AllowlistState.SidecarExact | scripts/josemar_skill_state.py:548-592 | a sidecar is read if and only if it parses and holds a list without blank items |
| AllowlistState.CanonicalRoundTrip | scripts/josemar_skill_state.py:518-547 | a canonical list is canonical, and canonicalising it again changes nothing |
| AllowlistState.Store.SaveCommandAllowlist | scripts/josemar_skill_state.py:1563-1605 | the sidecar is written before the runtime and holds the canonical list |
| AllowlistState.Store.ClearCommandAllowlist | scripts/josemar_skill_state.py:1608-1636 | the sidecar is deleted before the runtime key is removed |
| AllowlistState.Store.MigrateExisting | scripts/josemar_skill_state.py:1722-1758 | imports an old runtime value, or refuses, as the marker, the sidecar and the value decide |
| AllowlistState.Store.FinalizeMigration | scripts/josemar_skill_state.py:733-748 | writes the marker once; a malformed one is an error |
| AllowlistState.Store.ApplyAllSidecars | scripts/josemar_skill_state.py:1856-1910 | every sidecar is read before the first config is written; profiles with an error of their own keep their config, and a failing config write ends the cycle |
| AllowlistState.SidecarFirst | scripts/josemar_skill_state.py:1563-1636 | a failed sidecar write or deletion leaves everything as it was |
| AllowlistState.SaveExact | scripts/josemar_skill_state.py:1563-1605 | what a save accepts, writes and leaves alone, whichever write fails |
| AllowlistState.ClearExact | scripts/josemar_skill_state.py:1608-1636 | what a clear deletes and leaves alone, whichever step fails |
| AllowlistState.MarkerExact | scripts/josemar_skill_state.py:733-748 | the marker appears if and only if it is written where there was none |
| AllowlistState.ApplyExact | scripts/josemar_skill_state.py:1761-1910 | a cycle writes configs only if marker and all sidecars are readable, and then every runtime key it gets to equals its sidecar, absent to absent and an empty list kept, and everything else stays |
| AllowlistState.MigrateExact | scripts/josemar_skill_state.py:1722-1758 | an old runtime value becomes a sidecar exactly when there is no marker, no sidecar and a valid non-empty value, namely its canonical list; a malformed one is refused; nothing else changes |
| AllowlistState.ClearedStaysCleared | scripts/josemar_skill_state.py:733-748 | once the marker is present it stays, and without a save no sidecar appears again |
| AllowlistState.SaveIsRepaired | scripts/josemar_skill_state.py:1585-1605 | a save whose sidecar was written reaches the runtime with the next cycle that applies, whatever happened to the runtime since |
| AllowlistState.ClearIsRepaired | scripts/josemar_skill_state.py:1618-1636 | a clear whose deletion succeeded likewise removes the runtime key |
| AllowlistState.ClearUndoneExact | scripts/josemar_skill_state.py:1722-1758 | a profile has a sidecar after a clear and the next migration if and only if the clear could not delete it, or there is no marker, the clear's runtime write failed and a valid non-empty old value is imported |
| FallbackMerge.MergeFallbackByProvider | scripts/josemar_skill_state.py:1155-1200 | the loop that consumes existing entries computes the merge |
| FallbackMerge.UsesAreMatches | scripts/josemar_skill_state.py:1155-1200 | each existing entry is used at most once, only for its own provider, and an entry goes without only when all of its provider are used |
| FallbackMerge.MergeMeaning | scripts/josemar_skill_state.py:1155-1200 | the merged chain has the state's selection in the state's order, and any other field comes from an existing entry of the same provider |
| FallbackMerge.RuntimeFieldsKept | scripts/josemar_skill_state.py:1155-1200 | an entry keeps every field of the existing entry it uses that the state does not select, and holds nothing else |
| FallbackMerge.MergeTwice | scripts/josemar_skill_state.py:1155-1200 | merging twice is merging once |
| ModelsOverlay.ApplyModelsToConfig | scripts/josemar_skill_state.py:1203-1277 | applying a validated overlay reports change exactly when the configuration changed |
| ModelsOverlay.WritesMeaning | scripts/josemar_skill_state.py:1203-1277 | every written path reads as wanted and every path apart from them as before |
| ModelsOverlay.ChainWritten | scripts/josemar_skill_state.py:1203-1277 | a written chain is the state's entries merged with the entries there were |
| ModelsOverlay.OverlayTwice | scripts/josemar_skill_state.py:1203-1277 | applying an overlay twice is applying it once |
| ModelsState.WritesOfValid | scripts/josemar_skill_state.py:1086-1120 | a validated document writes paths that stand apart, with no null value |
| ModelsState.WritesExact | scripts/josemar_skill_state.py:1203-1277 | which value a document writes at which path |
| ModelsState.OwnedPathsApart | scripts/josemar_skill_state.py:161-181 | the paths the state owns, eleven auxiliary tasks included, stand apart from each other |
| ModelsState.WritesAreOwned | scripts/josemar_skill_state.py:1203-1277 | an overlay writes owned paths only |
| ModelsRollback.RestoreTemplateModelsDefaults | scripts/josemar_skill_state.py:1280-1411 | the rollback over all owned paths, chain included; it reports a change exactly when some step found another value or a key to delete |
| ModelsRollback.RollbackAfterOverlays | scripts/josemar_skill_state.py:1280-1411 | after any number of overlays and a rollback every owned path reads as in the template, if and only if not (template null and runtime absent); the chain is gone or restored from the template's; everything else is as before the first overlay |
| ModelsRollback.ChangedExact | scripts/josemar_skill_state.py:1300-1325 | a rollback changed the configuration if and only if it reports a change or a null of the template made a missing section |
| ModelsRollback.NullDefaultIsSilent | scripts/josemar_skill_state.py:1300-1325 | limit: such a null restores nothing, makes an empty section and reports no change |
| ModelsState.RestoredChainExact | scripts/josemar_skill_state.py:1346-1384 | which selection keys a restored chain entry has: the template's, and another exactly when an entry of its provider defines it and the used existing entry has it |
| ModelsState.RestoredKeepsFields | scripts/josemar_skill_state.py:1346-1384 | a restored entry has every other field of the existing entry it uses, and no more |
| ModelsRollback.TemplateChainExact | scripts/josemar_skill_state.py:1346-1384 | a template without the key, or with null, has no chain; a value that is no list counts as an empty one |
| ModelsState.RestoredChainIsTemplate | scripts/josemar_skill_state.py:1346-1384 | the restored selection is the template's when entries of one provider define the same keys |
| RetrievalMetrics.NdcgAtK | scripts/mnemosyne_retrieval_eval/metrics.py:44-62 | the accumulated gain over the ideal gain, 0 for an empty question |
| RetrievalMetrics.RelevanceExact | scripts/mnemosyne_retrieval_eval/metrics.py:52-56 | the gains are those of the expected ids among the first k results |
| RetrievalMetrics.NdcgBound | scripts/mnemosyne_retrieval_eval/metrics.py:44-62 | with no more relevant results in the first k than the ideal counts, nDCG is in [0,1], and 1 if and only if the first min(k, expected) results are all expected |
| RetrievalMetrics.NoRepeatsWithinIdeal | scripts/mnemosyne_retrieval_eval/metrics.py:44-62 | results without repeats are such |
| RetrievalMetrics.BoundExact | scripts/mnemosyne_retrieval_eval/metrics.py:44-62 | the gain stays within the ideal for every discount if and only if the first k results hold no more relevant ones, counted with repetition, than the ideal counts |
| RetrievalMetrics.RepeatsExceedOne | scripts/mnemosyne_retrieval_eval/metrics.py:44-62 | limit: one expected id returned twice in front exceeds the ideal under every discount |
| RetrievalMetrics.RecallAtK | scripts/mnemosyne_retrieval_eval/metrics.py:22-34 | the found fraction of the expected ids, 0 for an empty question |
| RetrievalMetrics.FoundExact | scripts/mnemosyne_retrieval_eval/metrics.py:29-34 | what is counted: the expected ids, each as often as it is expected, that are among the first k results |
| RetrievalMetrics.RecallMonotone | scripts/mnemosyne_retrieval_eval/metrics.py:22-34 | recall is a fraction and never falls as k grows |
| RetrievalMetrics.Mrr | scripts/mnemosyne_retrieval_eval/metrics.py:37-42 | the reciprocal of the first relevant position, 0 if none |
| RetrievalMetrics.PercentilesMonotone | scripts/mnemosyne_retrieval_eval/metrics.py:94-113 | a larger percentile never names a smaller sample |
| RetrievalMetrics.NearestRank | scripts/mnemosyne_retrieval_eval/metrics.py:102-105 | the samples up to the percentile are at least p per cent, those before it fewer |
| BackupPrune.ReadUploadedLedger | scripts/mnemosyne_backup_core.py:540-576 | exactly the valid ids of the readable lines |
| BackupPrune.Staging.PruneStaging | scripts/mnemosyne_backup_core.py:579-658 | removes exactly the generations beyond the newest ones that are acknowledged and neither current nor named by `latest` |
| Order.LexExact | scripts/mnemosyne_backup_core.py:640-649 | the order of ids and paths is by the first character in which they differ, a prefix first |
| BackupPrune.Staging.ExportBackup | scripts/mnemosyne_backup_core.py:496-528 | publication, pointer and prune in this order, and what a failure between any two of them leaves |
| BackupPrune.RemovedWasLogged | scripts/mnemosyne_backup_core.py:579-658 | over any run no generation leaves before its id is in the ledger |
| BackupPrune.RemovedExact | scripts/mnemosyne_backup_core.py:630-658 | over any run a prune removes a generation if and only if it is logged in the part of the ledger read, at least `keep` generations on the volume are later, and it is neither current nor named by `latest` |
| BackupPrune.OthersRemoveNothing | scripts/mnemosyne_backup_core.py:496-528 | nothing but a completed prune or export removes a generation, and only an export adds one |
| BackupPrune.LatestStays | scripts/mnemosyne_backup_core.py:505-528 | over any run the generation `latest` names is on the volume |
| BackupPrune.NewestSurvive | scripts/mnemosyne_backup_core.py:630-658 | the `keep` latest generations survive every prune and export, and with nothing acknowledged nothing is removed |

## Left out

- Size and count bounds (body length, file and input caps), YAML and JSON parsing, template rendering: they add refusals or fixed text.
- File descriptors, no-follow opens, inode and time stamps, fsync and temporary-file modes: rename, link and replace are atomic steps, a fingerprint is equality of text, a scan reads a tree at one moment.
- The window between the final check and the replacing rename of a note: an outside write there is overwritten by the program and not modelled.
- Projection.TransformDailyNoteText: a frontmatter block that is no YAML mapping is refused by the program and not modelled.
- Projection.Vault.PrepareDailyNoteProjection: the text a missing note is created from, with its date and title filled in, is given.
- Projection.Vault.Attempt: a vanished folder is a vanished note; unreadable or linked paths, which raise, are not modelled.
- NoteLinks.FoldLinks: for notes whose frontmatter is closed or whose last line is no rule, and created from text without links; FoldStepLinks says exactly what one edit does otherwise.
- NoteLinks.PreparedPlanSucceeds: for the same notes; an edit that closes an open frontmatter makes later ones fail.
- ReconcileStore.Store.ReconcileCycle: for vaults of such notes and templates, without outside note writers (their effect on one write is in Projection); the history is the sequence of task states of the commits, and the configuration file that may ride along in the commit is not part of it.
- ReconcileStore.Store.ApplyBatches: the rechecks and the provenance check between batches are in Bootstrap.
- ReconcileRuns.FinalizedRunsAreSettled: for runs that keep the discipline stated there; what happens otherwise is stated by the limit lemmas. Commits are only added, and an engine mutation is one step.
- Bootstrap.Repository.ApplyBootstrap: whether sources match and whether a batch changed notes are parameters; carrying out a batch on notes is in ReconcileStore.
- The remaining tools of the engine (list, get, tags, archive) and their field validators: each is settled by reading one branch.
- MutationOutcomes.Engine.Mutate: a document is its meaning; comparing serialisations, and the lock, are not modelled, and reading a page is truthful when it succeeds.
- MutationOutcomes.Engine.Delete: the file and HEAD after git rm are whatever git left; no later check of the program looks at them.
- TaskFrontmatter.ReconstructFrontmatter: the dictionary only; key order, body and timeline text are not modelled.
- VaultExport.Staging.ExportGeneration: ids are assumed fresh; a rollback runs its two parts or not at all, not half of a directory removal; writing the index is a step that may fail, its text is in EntriesIndex.
- VaultExport doctor checks, indicator files and the manifest's remaining fields: preconditions and fixed data.
- TreeCopy.CopyTree: permissions matter only as the owner's right to enter a directory.
- EntriesIndex.IndexInjective: for paths other than a single dot, which the root is printed as; no entry has that path.
- JobScheduler: waiting on the condition is a step that claims nothing; time stamps and the raw dequeue are not modelled, and ids are created fresh.
- AllowlistState: skill toggles and the policy enforced on the rest of a config; synchronising sidecars with a remote.
- ModelsRollback.RestoreTemplateModelsDefaults: a template chain that is neither a list, a text nor a mapping makes the program fail and is not modelled.
- BackupPrune.Staging.ExportBackup: database snapshots and verification; the pointer file is assumed readable.
- RetrievalMetrics: real numbers instead of floating point; the discount is any positive strictly decreasing function; averages by difficulty.
- The lock runner, status scripts, uploader, patch scripts and the HTTP services: operating-system behaviour and plumbing.
