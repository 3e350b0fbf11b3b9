# xrenner coreference postprocessing, modelled in Dafny

This project models the postprocessing module of the xrenner coreference
resolver (`modules/xrenner_postprocess.py`). The module runs after
coreference resolution and rewrites the markables it found:

- it rebuilds the backward antecedent chain of every coreference group;
- it splices out markables whose head function, or a child function of the
  head, matches a configured pattern;
- it removes overlapping markables from a group;
- it deactivates cataphora and singleton groups;
- optionally, it merges each appositive pair into a new envelope markable.

All of these passes remove markables through one primitive, `splice_out`.

The model keeps the markables in an arena, `seq<Markable>`:

- a markable is named by its index in the arena;
- an `antecedent` is `Option<nat>`, with `None` standing for the string
  `"none"`;
- an id is `Ref(n)` for `"referent_n"`, `Ref(0)` (`Inactive`) for the id
  `"0"`, or `Env` for the id `"env"` of an envelope;
- a group is an `int`.

`marks_by_group` is a `GroupIndex`. It holds the group keys in first-seen
order and a map from each key to the increasing list of its members.
`markstart`, `markend` and `markbyhead` are the maps held by a `Doc`.

Modules:

- `Markables` (markables.dfy): the records; Python's `str.strip`;
  `markables_overlap`.
- `Chains` (chains.dfy): building `marks_by_group` (lines 15-17) and the
  chain builder (lines 21-27), with reference definitions `Index`, `Chain`
  and `LinkGroups`.
- `Splicing` (splice.dfy): `splice_out` (`Splice`, lines 107-123).
  - `SpliceIn` repeats it with one fixed group list (the overlap pass).
  - `SpliceOwn` repeats it with the spliced markable's current group list
    (the filters).
- `Filters` (filters.dfy): which markables the head and child filters
  splice, and how often.
- `Overlaps` (overlap.dfy): the overlap pass (lines 42-50) as the fold
  `Victims`, and which markables it deactivates.
- `Pruning` (pruning.dfy): the cataphora pass (`Uncata`) and the singleton
  pass (`PruneGroups`).
- `Envelopes` (envelopes.dfy):
  - `create_envelope` (`CreateEnvelope`);
  - one merge of the envelope pass (`MergeAt`), the whole pass
    (`EnvGroups`), and the consistency of the three tables (`Indexed`).
- `Postprocess` (postprocess.dfy):
  - the class `Document`, whose fields are the four structures that
    `postprocess_coref` changes;
  - one method per pass, each made of `while`/`for` loops shaped like the
    source's loops. Each method is proved equal to the reference definition
    of its pass;
  - `PostprocessCoref`, proved equal to the function `Postprocessed`;
  - `PostprocessedKeeps`, which states what the whole pass does.

Two behaviours of the code worth knowing:

- **Head-filter exemption.** Line 32 exempts every proper markable whose
  stripped text is not exactly "U.S.". So "the U.S." and "U.S. Government"
  are exempt (`Filters.TheUsExempt`, `Filters.UsGovernmentExempt`), and only
  a proper markable whose text strips to "U.S." is spliced
  (`Filters.UsIsRemovable`).
- **`min_id`.** While the mark is still active, the loop at lines 113-115
  treats another member whose id is already "0" as "not yet set", so that
  member restarts the scan (`Splicing.MinIdScanRestarts`). With an active
  mark, `min_id` is the smallest id among the members after the last
  deactivated one (`Splicing.MinIdScanAfterLast`), and the smallest id
  other than the mark's only when no other member is deactivated
  (`Splicing.MinIdScanIsMinimum`). When the deactivated member comes last,
  `min_id` is 0. If, in addition, the mark's id equals its group, lines
  120-122 renumber the other members to group "0"; see "## Findings". If
  its id differs from its group, only the mark's own group changes (lines
  117-118).
- **Splicing a markable again.** The overlap pass and the child filter can
  splice the same markable more than once. Once the mark is inactive, line
  114 skips every member with id "0" like the mark itself, so nothing resets
  the scan: `min_id` is the smallest active id in the list, and 0 iff there
  is none (`Splicing.MinIdScanInactiveMark`).

## Model

| member | source | states |
|---|---|---|
| Chains.BuildGroups | modules/xrenner_postprocess.py:15-17 | the loop builds `Index(ms)`: each markable sits in the list of its own group, lists are increasing and non-empty, keys are in first-seen order, lists are disjoint |
| Chains.IndexIsIndexOf | modules/xrenner_postprocess.py:15-17 | the grouping of the first `n` markables puts exactly them in their groups' lists, in document order, keyed in first-seen order |
| Chains.IndexOfBounded | modules/xrenner_postprocess.py:15-17 | such an index has distinct keys, disjoint increasing lists inside the arena |
| Chains.NonCataMembers | modules/xrenner_postprocess.py:24 | a member takes part in the chain iff it is in the group and its coref type is not "cata" |
| Chains.ChainLinks | modules/xrenner_postprocess.py:22-27 | on one group, every non-cata member after the first points to the previous non-cata member; every other markable keeps its antecedent |
| Chains.LinkGroupsEffect | modules/xrenner_postprocess.py:21-27 | over all groups: only antecedents change, every group's chain is linked, and a markable not linked by any chain keeps its antecedent |
| Chains.LinkGroupsClosed | modules/xrenner_postprocess.py:21-27 | the chain builder keeps every link inside the arena |
| Chains.LinkGroupsKeepsHeads | modules/xrenner_postprocess.py:22-27 | a cata markable, and the first non-cata member of each group, keep the antecedent they had: the first is not reset to "none" |
| Postprocess.LinkTurn | modules/xrenner_postprocess.py:23-27 | one turn of the inner loop advances the chain and `last_mark` to the next member of the group |
| Postprocess.LinkList | modules/xrenner_postprocess.py:22-27 | the loop over one group list computes `Chain` over its non-cata members |
| Postprocess.Document.LinkChains | modules/xrenner_postprocess.py:21-27 | the chain builder sets the markables to `LinkGroups` and leaves the tables alone |
| Filters.HeadTargetsExact | modules/xrenner_postprocess.py:30-33 | the head filter splices markable `i` iff its head function matches and it is not proper, or its stripped text is "U.S." |
| Filters.UsIsRemovable | modules/xrenner_postprocess.py:32 | a proper markable with text " U.S. " whose head function matches is spliced |
| Filters.TheUsExempt | modules/xrenner_postprocess.py:32 | a proper markable with text "the U.S." is exempt |
| Filters.UsGovernmentExempt | modules/xrenner_postprocess.py:32 | a proper markable with text "U.S. Government" is exempt |
| Filters.ChildTargetsCount | modules/xrenner_postprocess.py:34-38 | the child filter splices each markable once for every matching child function, and no other markable |
| Postprocess.HeadTurn | modules/xrenner_postprocess.py:31-33 | one turn of the head filter splices this markable out of its current group list iff it is removable |
| Postprocess.HeadFilter | modules/xrenner_postprocess.py:31-33 | the head-filter loop splices the removable markables one by one, each out of its current group list |
| Postprocess.ChildTurn | modules/xrenner_postprocess.py:36-38 | one child function that matches causes one splice of the markable |
| Postprocess.ChildMark | modules/xrenner_postprocess.py:36-38 | the inner loop splices the markable once per matching child function |
| Postprocess.ChildFilter | modules/xrenner_postprocess.py:35-38 | the child-filter loop splices `ChildTargets` in order |
| Postprocess.Filtered | modules/xrenner_postprocess.py:30-38 | filtering keeps every mention, keeps ids numeric and keeps links inside the arena |
| Postprocess.FilteredRetires | modules/xrenner_postprocess.py:30-38 | filtering only deactivates markables: each id stays or becomes "0" |
| Postprocess.Document.FilterHead | modules/xrenner_postprocess.py:30-33 | the head filter sets the markables to the splices of `HeadTargets` |
| Postprocess.Document.FilterChild | modules/xrenner_postprocess.py:34-38 | the child filter sets the markables to the splices of `ChildTargets` |
| Postprocess.Document.Filter | modules/xrenner_postprocess.py:30-38 | both filters together compute `Filtered` |
| Splicing.SpliceKeeps | modules/xrenner_postprocess.py:107-123 | `splice_out` changes only ids, links and groups; ids stay numeric, links stay inside the arena |
| Splicing.SpliceRelinks | modules/xrenner_postprocess.py:110-116 | members of the list that pointed to the mark now point to the mark's antecedent; the mark has none; every other antecedent is unchanged |
| Splicing.SpliceDeactivates | modules/xrenner_postprocess.py:123 | the mark's id becomes "0" and no other id changes |
| Splicing.SpliceRenumbers | modules/xrenner_postprocess.py:117-122 | if the mark's id differs from its group, only the mark's group changes, to its id; otherwise every other member of the list gets `min_id` and nothing else is renumbered |
| Splicing.MinIdScanIsMinimum | modules/xrenner_postprocess.py:108-115 | with no other member already deactivated, `min_id` is the smallest id among members whose id differs from the mark's, and 0 iff there is none |
| Splicing.MinIdScanAfterInactive | modules/xrenner_postprocess.py:113-115 | a member with id "0" resets the scan: ids 5, 0, 7 give 7 |
| Splicing.MinIdScanRestarts | modules/xrenner_postprocess.py:113-115 | while the mark is active, a member other than the mark with id "0" restarts the scan: `min_id` is what the members after it yield |
| Splicing.MinIdScanInactiveMark | modules/xrenner_postprocess.py:108-115 | when the mark is already inactive, `min_id` is the smallest active id in the list, and 0 iff there is none |
| Splicing.MinIdScanAfterLast | modules/xrenner_postprocess.py:108-115 | after the last deactivated member other than an active mark: `min_id` is the smallest id, other than the mark's, among the members after it, and 0 iff there is none; with `MinIdScanIsMinimum` this covers every list |
| Splicing.SpliceGroupZero | modules/xrenner_postprocess.py:113-122 | ids 5, 7, 0 with the mark's id equal to its group: the surviving member with id 7 stays active with group 0, the id of no active member |
| Splicing.MinLiveScanIsMinimum | modules/xrenner_postprocess.py:108-115 | the scan that skips deactivated members yields the smallest active id other than the mark's, and 0 iff there is none |
| Splicing.SpliceLiveGroupValid | modules/xrenner_postprocess.py:117-122 | with that scan, when another member is still active, every renumbered member's group is the id of a member of the list that is still active |
| Splicing.SpliceInIds | modules/xrenner_postprocess.py:48-50 | repeated splices with one list deactivate exactly the spliced markables |
| Splicing.SpliceOwnIds | modules/xrenner_postprocess.py:33 | repeated splices, each with its markable's current group list, deactivate exactly the spliced markables |
| Postprocess.BypassScan | modules/xrenner_postprocess.py:110-115 | the first loop of `splice_out` re-points the mark's dependants and computes `min_id` |
| Postprocess.RegroupList | modules/xrenner_postprocess.py:120-122 | the renumbering loop gives every member other than the mark the group `min_id` |
| Postprocess.SpliceSeq | modules/xrenner_postprocess.py:107-123 | the statements of `splice_out`, in order, compute `Splice` |
| Postprocess.Document.SpliceOut | modules/xrenner_postprocess.py:107-123 | the standalone document-level `splice_out` (the passes splice through `SpliceSeq` on a local sequence) sets the markables to `Splice` and leaves the tables alone |
| Markables.OverlapSymmetric | modules/xrenner_postprocess.py:46 | overlap does not depend on the order of the pair |
| Overlaps.VictimsInGroup | modules/xrenner_postprocess.py:42-50 | the overlap pass splices only members of the group |
| Overlaps.VictimsCharacterized | modules/xrenner_postprocess.py:42-50 | a markable is spliced in a group iff it is a member that overlaps a different member whose span is at least as long |
| Overlaps.TieRemovesBoth | modules/xrenner_postprocess.py:47-50 | two distinct overlapping members of equal span are both spliced |
| Overlaps.OverlapGroupsIds | modules/xrenner_postprocess.py:42-50 | after the pass, exactly the markables that lose in some group have id "0"; no other id changes |
| Overlaps.NoActiveOverlap | modules/xrenner_postprocess.py:42-50 | after the pass, no two distinct overlapping members of a group are both active |
| Postprocess.OverlapTurn | modules/xrenner_postprocess.py:45-50 | one comparison splices the loser when the pair overlaps, and nothing when the pair is the same markable or does not overlap |
| Postprocess.OverlapRow | modules/xrenner_postprocess.py:44-50 | comparing `mark1` with every member applies that row's splices in order |
| Postprocess.OverlapGroup | modules/xrenner_postprocess.py:43-50 | the double loop over one group splices `Victims` in order |
| Postprocess.OverlapPass | modules/xrenner_postprocess.py:42-50 | the pass over all groups computes `OverlapGroups` |
| Postprocess.Document.RemoveOverlaps | modules/xrenner_postprocess.py:42-50 | the overlap pass sets the markables to `OverlapGroups` |
| Postprocess.Rechained | modules/xrenner_postprocess.py:15-50 | chains, filters and the overlap pass keep every mention, numeric ids and links inside the arena |
| Postprocess.RechainedRetires | modules/xrenner_postprocess.py:15-50 | those passes never reactivate or renumber a markable: each id stays or becomes "0" |
| Postprocess.Document.Relink | modules/xrenner_postprocess.py:15-50 | the first three passes compute `Rechained` |
| Pruning.UncataStep | modules/xrenner_postprocess.py:54-58 | one turn deactivates a cata markable and its antecedent, if any; other markables are untouched |
| Pruning.CataphoraEffect | modules/xrenner_postprocess.py:53-58 | the pass changes ids only; every cata markable and its antecedent become inactive; a markable stays active iff it was active, is not cata, and is no cata markable's antecedent |
| Pruning.CataphoraIdempotent | modules/xrenner_postprocess.py:53-58 | running the cataphora pass twice equals running it once |
| Postprocess.CataPass | modules/xrenner_postprocess.py:53-58 | the loop computes `Uncata` |
| Postprocess.Document.RemoveCataphora | modules/xrenner_postprocess.py:53-58 | the cataphora pass sets the markables to `Uncata` |
| Pruning.WipeAll | modules/xrenner_postprocess.py:65-66 | wiping a list sets every listed id to "0" and changes nothing else |
| Pruning.PruneRule | modules/xrenner_postprocess.py:61-74 | the members of a group get id "0" iff the list has fewer than 2 entries or no member has an antecedent; otherwise their ids are unchanged |
| Pruning.PruneGroupsIds | modules/xrenner_postprocess.py:61-74 | exactly the markables in some wiped group have id "0"; no other id changes |
| Pruning.PruneIdempotent | modules/xrenner_postprocess.py:61-74 | running the singleton pass twice equals running it once |
| Postprocess.WipeList | modules/xrenner_postprocess.py:73-74 | the loop computes `WipeAll` |
| Postprocess.PruneGroup | modules/xrenner_postprocess.py:63-74 | one group is wiped iff `Wiped` holds, else untouched |
| Postprocess.PrunePass | modules/xrenner_postprocess.py:61-74 | the pass over all groups computes `PruneGroups` |
| Postprocess.Document.RemoveSingletons | modules/xrenner_postprocess.py:61-74 | the singleton pass sets the markables to `PruneGroups` |
| Postprocess.Deactivated | modules/xrenner_postprocess.py:53-74 | the two deactivation passes change ids only and keep links inside the arena |
| Postprocess.DeactivatedRetires | modules/xrenner_postprocess.py:53-74 | those passes only set ids to "0" |
| Postprocess.Document.Deactivate | modules/xrenner_postprocess.py:53-74 | the two deactivation passes compute `Deactivated` |
| Envelopes.VisitOrder | modules/xrenner_postprocess.py:80 | the pass visits list positions from the last down to 1; the first member of a group is never `mark` |
| Envelopes.RewireWrites | modules/xrenner_postprocess.py:98-104 | the writes of lines 98-104, in the source's order, leave `Rewire`, also when `mark`, `prev` and `prevprev` coincide |
| Envelopes.MergeEffect | modules/xrenner_postprocess.py:82-104 | after a merge: the appended markable is exactly `create_envelope(prevprev, prev)`, keeping `prevprev`'s old group, with `prev.antecedent` recorded as its absorbed link; it is filed under its start, its end and the key `prevprev.head.id + "_" + prev.head.id`; both parts get group `1000 + g(prevprev) + g(prev)`; `prevprev` loses its antecedent; `mark` points to the envelope; no other markable changes |
| Envelopes.MergeFrame | modules/xrenner_postprocess.py:82-104 | a merge keeps every old markable's id, mention and recorded absorbed link (`mark`, `prev` and `prevprev` included), `prev`'s antecedent and `mark`'s group (when they are distinct from the other two) |
| Envelopes.MergeTables | modules/xrenner_postprocess.py:89-95 | a merge changes the start, end and head tables only at the envelope's own keys |
| Envelopes.RegisteredKeeps | modules/xrenner_postprocess.py:90-91 | appending to a table keeps every entry and adds the envelope under its key |
| Envelopes.MergeClosed | modules/xrenner_postprocess.py:82-104 | a merge keeps links inside the arena, keeps every earlier markable's mention and id, and appends only envelopes |
| Envelopes.MergeIndexed | modules/xrenner_postprocess.py:89-95 | a merge keeps the start, end and head tables consistent with the arena |
| Envelopes.MergeAllPreserve | modules/xrenner_postprocess.py:80-104 | the merges of one group keep links inside the arena and the tables consistent, and append only envelopes |
| Envelopes.EnvGroupsPreserve | modules/xrenner_postprocess.py:78-104 | so does the whole envelope pass |
| Postprocess.RewireSeq | modules/xrenner_postprocess.py:98-104 | the statements of lines 98-104 compute `Rewire` |
| Postprocess.MergeWith | modules/xrenner_postprocess.py:89-104 | appending and registering the envelope, then rewiring, computes `Merged` |
| Postprocess.MergeDoc | modules/xrenner_postprocess.py:82-104 | one visit of `mark` computes `MergeAt` |
| Postprocess.Document.Envelop | modules/xrenner_postprocess.py:82-104 | one merge on the document is `MergeAt` |
| Postprocess.Document.EnvelopNext | modules/xrenner_postprocess.py:80-104 | one turn of the downward loop extends the merges by the next position |
| Postprocess.Document.EnvelopGroup | modules/xrenner_postprocess.py:80-104 | the downward loop over one group computes `EnvGroup` |
| Postprocess.Document.AddEnvelopes | modules/xrenner_postprocess.py:78-104 | the loop over all groups computes `EnvGroups` |
| Envelopes.EnvelopeFields | modules/xrenner_postprocess.py:126-149 | the envelope has id "env"; start, head, link, group and the other fields come from `first`; end, entity and entity certainty come from `second` |
| Envelopes.EnvelopeForm | modules/xrenner_postprocess.py:128 | the envelope is "proper" iff either part is proper, else "common" |
| Envelopes.EnvelopeText | modules/xrenner_postprocess.py:133 | the text is the two stripped texts joined by one space, itself stripped when both are non-empty |
| Envelopes.EnvelopeCovers | modules/xrenner_postprocess.py:131-132 | for parts in document order the envelope spans both |
| Envelopes.EnvelopeExample | modules/xrenner_postprocess.py:131-135 | parts at 0-2 and 3-5 give an envelope at 0-5 with the second part's entity |
| Markables.TrimLeft | modules/xrenner_postprocess.py:133 | drops exactly the leading whitespace |
| Markables.StripHalves | modules/xrenner_postprocess.py:133 | `strip()` is `rstrip()` after `lstrip()`: `Strip(s) == TrimRight(TrimLeft(s))` |
| Markables.TrimRight | modules/xrenner_postprocess.py:133 | drops exactly the trailing whitespace |
| Markables.Strip | modules/xrenner_postprocess.py:133 | `strip()` is the slice of the text that starts after its leading whitespace, ends before its trailing whitespace and has no outer whitespace |
| Markables.StripIdempotent | modules/xrenner_postprocess.py:133 | stripping twice equals stripping once |
| Postprocess.PostprocessedKeeps | modules/xrenner_postprocess.py:13-104 | after `postprocess_coref`: links are inside the arena; every original markable keeps its mention and either its id or "0"; everything appended is an envelope; the tables stay consistent; without envelopes, nothing is appended and no table changes |
| Postprocess.Document.PostprocessCoref | modules/xrenner_postprocess.py:13-104 | the method, pass by pass, computes `Postprocessed` on the document's state |

## Findings

| source | as written | input that shows it | evidently intended | confidence | as-written member | corrected member |
|---|---|---|---|---|---|---|
| modules/xrenner_postprocess.py:113-122 | while the mark is still active, `min_id` is reset to 0 by any other member whose id is already "0", and line 122 then gives every other member the group "0" | list [A, B, C] with ids 5, 7, "0" and A's group "5"; splice A: B stays active with group "0" (for instance: the head filter splices C, then the child filter splices A) | `min_id` is the smallest id among the still-active members, so a renumbered group is the id of a live member | medium, not executed | Splicing.SpliceGroupZero | Splicing.SpliceLiveGroupValid |

The passes of this model call `Splicing.Splice`, which follows the code as
written; `Splicing.SpliceLive` with `Splicing.MinLiveScan` is the corrected
`splice_out`, stated beside it.

## Left out

- The regular expressions `remove_head_func` and `remove_child_func` become a pattern string, whose emptiness decides whether the filter runs, and a match predicate. The other `lex.filters` entries become booleans of `Config`.
- The tests `mark1 == mark2` (line 45), `member.antecedent == mark` (line 111) and `member != mark` (line 121) are modelled as equality of arena indices. This assumes that `Markable` in `xrenner_classes` defines no `__eq__`; that class is not part of this model.
- `markables_overlap` is defined in `xrenner_marker`, which is not part of this model. It is modelled as intersection of the inclusive token ranges `[start, end]`.
- The `Markable` class and the head objects of `xrenner_classes` are not part of this model. Only the fields this module reads or writes are modelled. `CreateEnvelope` leaves `nonAntecedentGroups` empty, since the constructor's default is not known.
- The misspelled attribute `non_antecdent_groups` (line 98) is the optional field `nonAntecedentGroups`. It is set only on envelopes and holds `prev.antecedent`.
- The `"referent_"` prefix stripping and the `int()`/`str()` conversions (lines 100, 109, 113, 117-118, 122) are left out. Ids and groups are numbers.
- Postprocess.Document.PostprocessCoref: requires every id to be numeric (`Parsed`). The source parses ids only inside `splice_out`, so a run that splices nothing would also accept other ids.
- Postprocess.Document.PostprocessCoref: requires every link to name a markable of the collection (`Closed`). This is an assumption about callers: their links name markables of the list. An object reference in the source need not, and this module cannot check it.
- `Envelopes.Mergeable` states lines 84-85 together with the guard that both antecedents are in the arena. Under `Closed` that guard always holds.
- `markstart` and `markend` are read as lookup-or-empty before the append at lines 90-91, as a `defaultdict(list)` behaves. A plain dict without the key would raise `KeyError`; that case is not modelled.
- `marks_by_group` is a `defaultdict(list)`. Reading a missing key at lines 33 and 38 inserts an empty list, which no later pass can observe; `Chains.Members` reads it as lookup-or-empty.
- `is not 'none'` (line 69) is an identity test on strings. It is modelled as the antecedent being present.
- No acyclicity of antecedent chains is claimed: the source does not keep one either.
- The pass methods loop over local `seq` values and assign the result back to the document's fields. Aliasing between markable objects is represented by the arena indices, not by references.
- The module does no I/O and uses no clock, randomness or network, so nothing of that kind is left out.
