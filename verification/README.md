# kTBS: incremental trace transformation, proved

kTBS stores *traces* of *obsels* (observed elements) as RDF graphs. A computed trace is
the result of a method applied to a source trace, and is brought up to date
incrementally: the source carries tags whose survival promises something about the
edits made since they were read, and the method picks one of four ways of recomputing by
comparing tags. This project models that engine, and the edit and lock machinery below
it, and proves that the increments are right.

* **Obsels, Tags, TraceObsels** - the obsel collection: a graph, its last obsel in the
  order (end, begin, uri), and the tags etag, str_mon, pse_mon, log_mon. Module Tags says
  what each edit does and what each surviving tag promises; class TraceObsels does it in
  place, with the flags and the last obsel updated inside an edit context, and is proved
  equal to Tags operation by operation.
* **Select** - the query built for a list of obsels: order, bounds, anchors, limit.
* **Views, Methods, HRules, Filter** - computed traces. The specification is the graph
  computed from nothing (`View`); copying, mode choice, and the two methods hrules and
  filter are proved against it, in every mode, as specification functions and as the
  loops of classes HRulesTrace and FilterTrace.
* **Chain, FilterRuns** - any run of edits and refreshes, exact or not, over a chain of
  hrules traces, each being the source of the next, and over a filter and its source.
  Nothing is abstracted here: tags, last obsels and remembered state of every trace are
  those of the modules above.
* **Refresh** - dirty flags, consumers and recursive refresh over any graph of traces,
  including cyclic ones, as functions and as class Traces.
* **Etags, Paging** - what clients see: the weak validators of a slice of obsels, and
  reading a trace by following `next` links.
* **Nodes, Posting, Untrusted** - operations on sets of triples: node replacement,
  bounded description, posting several related obsels, and edits checked against
  reserved namespaces.
* **Lock, Edits** - the re-entrant lock as a transition system over any number of
  processes and threads, and nested edit contexts as any program using them.
* **Uris** - the string facts that let the other modules use (trace, rank of the last
  segment) for a URI.

The main results are `Chain.EveryRefreshIsExact` with `Chain.RefreshHeals`,
`Chain.PostingRunsAreExact` and `Chain.RefreshedChainIsComposition`, `HRules.ComputeExact`,
`FilterRuns.EveryRefreshIsExact` with `Filter.RefreshExact`, `Refresh.RefreshAfterAnyRun`,
`Tags.StrTagKeepsPrefix`, `Etags.ValidatorsAreSound` with `Etags.ActualEndExact`,
`Paging.PagingReadsEverything` with `Paging.WalkEnds`, `Posting.NoLeakExact` and
`Lock.MutualExclusion`.

## Where the code falls short of what it promises

The model does what the code does. Where a promise fails on some inputs, a lemma gives
the exact condition under which it holds; for the conditions on a refresh, another lemma
gives a run that reaches a state where they fail.

* The parameter add_obsels_only of an edit context is taken at its word. An untrusted edit
  may have it too (`check_parameters` lets it pass, and a PUT hands on its query string),
  and then replaces the graph by itself: all monotonicity tags and the last obsel are kept,
  whatever it does. `Tags.DeclaredExact`, `Tags.DeclaredEmptying`. The runs considered
  contain such edits under that condition.
* FIND_LAST_OBSEL orders by end only, among the obsels that end no earlier than the old
  last obsel did: `Tags.FindLastExact`. Another obsel than the last one is enough to
  break the promise of str_mon_tag: `Tags.StrPromiseNeedsLast`.
* The filter of a selection joins `&&` and `||` without brackets: `Select.FilterExact`,
  `Select.RowsExactly`.
* A pseudo-monotonic refresh by hrules skips obsels it already copied, hence a relation
  added late, between obsels that were both kept before or from one of them to another
  resource. What is missed stays missing, under strict refreshes too, until one of its ends
  is copied again. `HRules.ComputeExact` is the condition for any refresh, whatever earlier
  ones missed, and `HRules.HarmlessAfterExact` what it comes down to after an exact one;
  `Chain.LateRelationIsMissed` is a run with two inexact refreshes; `Chain.RefreshHeals` says
  that a refresh from scratch or a logical one makes good what was missed. Posting never
  adds such a relation, since posted obsels must be new (lib/ktbs/engine/trace.py:311-316):
  `Chain.PostingRunsAreExact`. add_obsel_graph itself may be given one.
* A filter skips what it already copied in a logical refresh as well; in a pseudo-monotonic
  one it also replaces its lower bound and compares begins, while the tag is decided on
  ends; in a strict one, the missing brackets let through an obsel that ends together with
  the anchor but begins too early. `Filter.RefreshExact` is the condition for any refresh,
  whatever earlier ones missed or wrongly accepted, and `Filter.HarmlessAfterExact` what it
  comes down to, mode by mode, after an exact one; `FilterRuns.LongObselIsMissed` and
  `FilterRuns.EarlyObselIsAccepted` are runs that fail it. Only a refresh from scratch is
  sure to make it good: `FilterRuns.EveryRefreshIsExact`.
* add_obsel_graph may also be given a known obsel with more attributes or types. The tags of
  the source keep their promises (`Tags.ApplyKeeps`), but a refresh that skips what it
  already copied leaves the copy as it was, so that it cannot be exact: `HRules.CopiesStay`,
  `Filter.CopiesStay`. (A logical refresh by hrules copies again, and so may add a second
  type.) The runs of Chain and FilterRuns leave such edits out.
* Copying an obsel related to itself a second time adds what the first copy skipped:
  `Views.SelfRelationExact`.
* A `next` link starts after some obsel of greatest end, so that others that end with it may
  be listed again: `Paging.TiesAreRepeated`.
* A `next` link drops a bound that is 0: `Paging.ZeroBoundsExact`. (`iter_etags` likewise
  ignores a `maxe` of 0 when there is a `before`; `Etags.ValidatorsAreSound` holds
  nevertheless.)
* The etags of a listing are computed from the greatest end found, not from the bound
  asked for: `Etags.ActualEndExact`, and the collection `Etags.TypeListingFails`.
* Two posted obsels that share a nested blank node leak a blank candidate into the store:
  `Posting.NoLeakExact`.
* `replace_node_*` uses `and`/`or`, which ignores a new node that Python takes for false,
  and the sparse form misses predicates: `Nodes.DenseExact`, `Nodes.SparseExact`.
* Forcing a leftover semaphore to 1 is safe only if nobody holds the lock:
  `Lock.NormalisingExact`, `Lock.NormalisingWhileHeld`.

## Model

| member | source | states |
|---|---|---|
| Obsels.SortedUnique | lib/ktbs/api/trace_obsels.py:65-174 | the (end, begin, uri) order determines one listing of a set of obsels |
| Obsels.SortedSplit | lib/ktbs/engine/trace_obsels.py:483-541 | obsels appended after all others leave the earlier listing as a prefix |
| Uris.LastSegmentOf | lib/ktbs/methods/utils.py:70-87 | the last segment of an obsel URI is exactly what follows the trace URI |
| Uris.TranslateExact | lib/ktbs/methods/utils.py:70-87 | with a single source, a node is moved to the target trace under the same last segment, if and only if it is directly below the source trace |
| Uris.TranslateOther | lib/ktbs/methods/utils.py:70-87 | a node elsewhere is left alone, and of a node further below the source trace only what follows the last slash is kept |
| Uris.TranslateInjective | lib/ktbs/methods/utils.py:70-87 | two obsels get the same translated URI only if they are the same |
| Uris.TranslateKeepsOrder | lib/ktbs/methods/utils.py:70-87 | obsels of one trace are ordered by their last segments, and translation keeps that order |
| Uris.BeforeExactly | lib/ktbs/api/trace_obsels.py:104-163 | one URI is before another exactly if they agree up to a place where the first ends or has the smaller character |
| Uris.BeforeIsTotal | lib/ktbs/api/trace_obsels.py:104-163 | the order of URIs as strings is total and irreflexive, as the rank of a last segment assumes |
| Uris.BeforeIsTransitive | lib/ktbs/api/trace_obsels.py:104-163 | the order of URIs as strings is transitive |
| Tags.LastStep | lib/ktbs/engine/trace_obsels.py:483-541 | after an added graph the recorded last obsel is again the (end, begin, uri) maximum |
| Tags.LastIsLatest | lib/ktbs/engine/trace_obsels.py:363-411 | after any run the stored last obsel is the one that ends last; among those that end together, begins last; and among those, has the greatest URI |
| Tags.ApplyKeeps | lib/ktbs/engine/trace_obsels.py:363-411 | every edit, made by add_obsel_graph (of a new obsel, or with late relations, attributes or types of a known one), by an edit context that only declares to add obsels, by any other one or by a change of range, keeps the invariant of a collection and every promise of the tags it does not renew |
| Tags.DeclaredExact | lib/ktbs/engine/trace_obsels.py:348-411 | an edit context with add_obsels_only that changes the graph by itself, as an untrusted edit may, keeps the invariant and the promises if and only if it leaves the obsels as they are, removes no triple and adds none about an obsel |
| Tags.DeclaredEmptying | lib/ktbs/engine/trace_obsels.py:363-411 | emptying any collection in such a context renews no monotonicity tag, so that an equal str_mon_tag or log_mon_tag means nothing |
| Tags.RunKeeps | lib/ktbs/engine/trace_obsels.py:363-411 | so does every run of edits, and a renewed tag never equals an earlier one |
| Tags.StrTagKeepsPrefix | lib/ktbs/engine/trace_obsels.py:483-541 | str_mon_tag equal at two moments of a run: the earlier sequence of obsels is a prefix of the later one, and no triple about an earlier obsel was added or removed, its attributes and types included |
| Tags.PseTagKeepsOldObsels | lib/ktbs/engine/trace_obsels.py:497-541 | pse_mon_tag equal at two moments: the obsels ending before last end - range (before last end if the range is negative), both taken at the first moment, are the same with the same triples, even if the range was edited meanwhile |
| Tags.LogTagOnlyGrows | lib/ktbs/engine/trace_obsels.py:363-411 | log_mon_tag equal at two moments: nothing was removed; what was said of an obsel may have been extended, with the same begin and end |
| Tags.RenewedExactly | lib/ktbs/engine/trace_obsels.py:363-411 | every edit context renews the etag; a full one and a wider range renew all three monotonicity tags, one with add_obsels_only never log_mon_tag, and one that changes the graph by itself none; a narrower range renews nothing |
| Tags.StrTagExact | lib/ktbs/engine/trace_obsels.py:483-541 | an added new obsel leaves str_mon_tag alone if and only if the growth is strictly monotonic: the tag is neither kept nor renewed for nothing |
| Tags.PseTagExact | lib/ktbs/engine/trace_obsels.py:497-541 | an addition of any kind leaves pse_mon_tag alone if and only if neither the obsel nor any obsel related to it ends before the last one by more than the range, or ends with it and begins before it by more than the range; the first obsel renews no monotonicity tag |
| Tags.FlagsAreConjunctive | lib/ktbs/engine/trace_obsels.py:483-541 | a flag once lost in a context stays lost, and does not influence anything else |
| Tags.FirstOfBatch | lib/ktbs/engine/trace_obsels.py:124-152 | the first graph of a batch may be put in a context of its own: same graph, same last obsel, and flags that combine |
| Tags.BatchingIsInvisible | lib/ktbs/engine/trace_obsels.py:124-152 | k graphs added in one context or in k contexts give the same graph, last obsel and surviving tags |
| Tags.FindLastExact | lib/ktbs/engine/trace_obsels.py:653-662 | the query for the last obsel returns the (end, begin, uri) maximum whatever the store picks among equals, if and only if one obsel ends after all others and not before the old last obsel did |
| Tags.StrPromiseNeedsLast | lib/ktbs/engine/trace_obsels.py:390-401 | str_mon_tag keeps its promise for every graph that could be added next, if and only if the stored last obsel is the maximum |
| TraceObsels.TraceObsels.constructor | lib/ktbs/engine/trace_obsels.py:363-376 | a created collection is empty, without a last obsel |
| TraceObsels.TraceObsels.EnterAddOnly | lib/ktbs/engine/trace_obsels.py:363-376 | prepare_edit records the last obsel with its begin and end, and starts with all three flags set |
| TraceObsels.TraceObsels.ExitAddOnly | lib/ktbs/engine/trace_obsels.py:378-411 | ack_edit stores the last obsel and renews the etag and exactly the tags whose flag was lost |
| TraceObsels.TraceObsels.CompareWithLast | lib/ktbs/engine/trace_obsels.py:497-541 | the branches on ends and begins decide "after the last obsel in (end, begin, uri) order" and "not older than the range allows", both directions |
| TraceObsels.TraceObsels.DetectMonChange | lib/ktbs/engine/trace_obsels.py:483-541 | the loop over the new obsel and the obsels related to it sets the flags and the last obsel as the specification says, over all of them |
| TraceObsels.TraceObsels.AddObselGraph | lib/ktbs/engine/trace_obsels.py:124-152 | adding a graph, in an open context or in one of its own, makes the specified step of that context or the whole specified edit |
| TraceObsels.TraceObsels.AddObselGraphs | lib/ktbs/engine/trace_obsels.py:124-152 | several graphs in one context make the specified batch edit |
| TraceObsels.TraceObsels.DeclaredEdit | lib/ktbs/engine/trace_obsels.py:363-411 | an edit context that only declares to add obsels installs any graph, renews the etag only, and keeps the promises exactly when it leaves the obsels alone |
| TraceObsels.TraceObsels.FullEdit | lib/ktbs/engine/trace_obsels.py:378-411 | any other edit installs the graph, stores whatever the query for the last obsel answers and renews every tag; the invariant holds afterwards exactly when that answer is the maximum and every obsel belongs to the trace |
| TraceObsels.TraceObsels.Empty | lib/ktbs/engine/trace_obsels.py:642-651 | emptying a collection leaves no obsel, no last obsel, and renewed tags |
| TraceObsels.TraceObsels.SetRange | lib/ktbs/engine/trace.py:162-165 | increasing the pseudo-monotonicity range renews all tags and looks for the last obsel again, decreasing it renews none |
| Select.FilterExact | lib/ktbs/api/trace_obsels.py:104-163 | the filter without brackets accepts what the bounds and anchors ask for, for every obsel, if and only if an `after` anchor is within both bounds, or a `before` anchor respects the upper bound and comes without a lower one, or there is no anchor |
| Select.RowsAreMatching | lib/ktbs/api/trace_obsels.py:65-174 | without limit, the rows are exactly the obsels accepted, with their own begin and end |
| Select.RowsExactly | lib/ktbs/api/trace_obsels.py:104-163 | the obsels that a query without limit yields, by comparisons of ends, begins and URIs, with no, one or two anchors: the bounds do not apply to what ends together with an anchor, and with two anchors whatever ends after the first is accepted |
| Select.LastRow | lib/ktbs/api/trace_obsels.py:65-174 | reversed with limit 1, the row is the greatest obsel accepted, and there is none only if none is accepted |
| Select.ListedExactly | lib/ktbs/api/trace_obsels.py:65-174 | rows are in ascending or descending order of end, begin and URI, as many as the limit allows, and whatever is left out comes after them |
| Views.CopyObselGraph | lib/ktbs/methods/utils.py:89-127 | the two loops over outgoing and incoming triples build the copy: same begin, end and attributes, hasSourceObsel, and the relations whose other end is foreign or already in the target |
| Views.PresentIffDone | lib/ktbs/methods/utils.py:89-127 | the check for an already copied end holds exactly of the obsels copied so far, also while relations are missing |
| Views.CopyStepRels | lib/ktbs/methods/utils.py:89-127 | copying an obsel, for the first time or again, carries over exactly the relations between it and what is in the target |
| Views.CopyStepGraph | lib/ktbs/methods/utils.py:89-127 | so a target that holds part of the relations among the obsels copied still holds exactly the part expected, one obsel more |
| Views.PartExact | lib/ktbs/methods/utils.py:70-127 | such a target equals the one computed from nothing if and only if the obsels copied are those to keep and each relation among them was carried over, earlier or with one of its ends |
| Views.PartIsPart | lib/ktbs/methods/utils.py:89-127 | what was copied into a target, completely or not, and which relations were carried over, can be read off the target |
| Views.PartGrows | lib/ktbs/methods/abstract.py:175-182 | while the source only grows, a target that holds part of what the method makes of it goes on doing so, with the same obsels |
| Views.ExactIff | lib/ktbs/methods/utils.py:89-127 | such a target is the one computed from nothing if and only if all obsels to keep and all relations among them are there |
| Views.CopyNew | lib/ktbs/methods/utils.py:89-127 | copying one more obsel turns the image of a set of obsels, relations included, into the image of one more |
| Views.CopyAgain | lib/ktbs/methods/utils.py:89-127 | copying an obsel again changes nothing |
| Views.ViewGrowsFresh | lib/ktbs/methods/utils.py:89-127 | if every relation added to the source touches an added obsel, so does every relation this adds to the target |
| Views.FreshIsNotLate | lib/ktbs/engine/trace.py:311-316 | then no relation is late: none links obsels kept before |
| Views.CopyOrderIrrelevant | lib/ktbs/methods/utils.py:70-127 | whatever the order and the repetitions, starting from any earlier image, the target ends up with exactly the copies and exactly the images of the relations among kept obsels |
| Views.SelfRelationExact | lib/ktbs/methods/utils.py:89-127 | copying an obsel twice is harmless if and only if it is not related to itself |
| Views.CopiesSay | lib/ktbs/methods/utils.py:89-127 | each copy has the begin, end and attributes of its obsel, the types chosen, and the obsel as its source, under the same last segment |
| Views.CopiesKeepOrder | lib/ktbs/methods/utils.py:89-127 | two copies are in the order of their obsels |
| Views.LastCopy | lib/ktbs/methods/utils.py:89-127 | so the last obsel of a target is the copy of the last one copied |
| Views.ViewSays | lib/ktbs/methods/utils.py:89-127 | the graph computed from nothing has the copies of the obsels chosen, with what each says, and nothing else |
| Views.ViewRelates | lib/ktbs/methods/utils.py:104-125 | two kept obsels are related in a source exactly if their copies are, by the same predicate and in the same direction; likewise a kept obsel and another resource; and there are no other relations |
| Methods.EditEvolves | lib/ktbs/engine/trace_obsels.py:363-411 | every edit that leaves the description of known obsels as it is keeps the promises, and the descriptions as long as a tag survives; renewed tags are new |
| Methods.FreshEditEvolves | lib/ktbs/engine/trace.py:318-358 | across posted obsels, moreover, every relation added touches an added obsel while any monotonicity tag survives |
| Methods.EvolvesTrans | lib/ktbs/engine/trace_obsels.py:363-411 | and across any sequence of them |
| Methods.ModeReliesOn | lib/ktbs/methods/abstract.py:175-182 | in the three incremental modes, whatever earlier refreshes missed, the target is still part of what the method makes of the source now, with the obsels it had; in the strict mode the source has grown strictly |
| Methods.CopyStep | lib/ktbs/methods/utils.py:89-127 | one copy through an edit context of the target carries over what it should, and its graph is one that add_obsel_graph accepts |
| Methods.StartCopying | lib/ktbs/methods/abstract.py:156-194 | emptied or not, the target of any computation starts as part of what the method makes of the source, and its consumers can rely on its tags |
| Methods.ModeSays | lib/ktbs/methods/abstract.py:156-194 | after any run of edits the mode is that of the strongest tag that survived, and from scratch if none did |
| Methods.CursorSays | lib/ktbs/methods/hrules.py:160-168 | a computation remembers the latest of the obsels that begin from the bound on, counted back from the begin remembered by the range in the pseudo-monotonic mode; if there is none, what it remembered |
| HRules.RankSubRule | lib/ktbs/methods/hrules.py:55-88 | the loop counting attributes computes the rank of a sub-rule |
| HRules.RankRule | lib/ktbs/methods/hrules.py:55-88 | the loop over the sub-rules of a rule ranks each of them |
| HRules.InitState | lib/ktbs/methods/hrules.py:45-94 | init_state keeps every sub-rule of every visible rule exactly once, in descending order of (rank, type, query text) |
| HRules.SortRankedSorts | lib/ktbs/methods/hrules.py:88-94 | sorting gives a permutation in descending order of (rank, type, query text), hence of rank |
| HRules.RankExact | lib/ktbs/methods/hrules.py:55-88 | the integer rank orders sub-rules by (typed, number of attributes, earlier rule), if and only if there are at most 1000 rules and at most 999 attributes |
| HRules.FirstMatchIsHighest | lib/ktbs/methods/hrules.py:133-158 | the first sub-rule that holds is one that no other sub-rule holding precedes in that order |
| HRules.CopiedIffSomeRuleHolds | lib/ktbs/methods/hrules.py:97-168 | the sorted list of sub-rules keeps an obsel if and only if some sub-rule of a visible rule holds of it, as HRules.CopiedExactly spells out |
| HRules.CopiedExactly | lib/ktbs/methods/hrules.py:55-88 | the graph computed from nothing has the copy of an obsel if and only if some sub-rule of a visible rule names no type or one of the obsel's, and for each of its conditions the obsel has an attribute of that name whose value is equal to, different from, less than, at most, greater than or at least the one given, as the operator says |
| HRules.OtherTypesAreNotCopied | lib/ktbs/methods/hrules.py:64-67 | rules whose sub-rules all ask for one type copy no obsel without it |
| HRules.CopiedTypeIsHighestRanked | lib/ktbs/methods/hrules.py:133-158 | the type of the copy is the id of a rule with a highest-ranked sub-rule among those that hold |
| HRules.CopiedTypeExactly | lib/ktbs/methods/hrules.py:60-94 | for any number of rules and attributes, the copy gets the greatest id among the rules of those holding sub-rules for which a million for a type, a thousand for each attribute, less the position of the rule, is greatest |
| HRules.ComputeCopies | lib/ktbs/methods/hrules.py:133-158 | any refresh, also of a target that earlier refreshes left incomplete, leaves in it the copies of all obsels to keep, and the relations among them that were there or that have an end among the obsels copied now: all in the modes from scratch and logical, those after the anchor in the strict one, those not yet there in the pseudo-monotonic one |
| HRules.RefreshedTargetSays | lib/ktbs/methods/hrules.py:133-158 | after any refresh, in any mode, the target has exactly the copies of the obsels to keep, with their begins, ends and attributes and the type chosen, and its last obsel is the copy of the last one kept |
| HRules.RefreshedRelationsSay | lib/ktbs/methods/hrules.py:133-158 | and the image of a relation among them exactly if it was there before, or an end of it is kept and, in the pseudo-monotonic mode, not yet there or, in the strict mode, after the obsel remembered |
| HRules.ComputeExact | lib/ktbs/methods/hrules.py:97-168 | whatever edits the source had and whatever earlier refreshes missed, a refresh in any of the four modes gives the graph computed from an empty target, if and only if every relation among the obsels to keep is in the target already or has an end among the obsels copied now |
| HRules.HarmlessAfterExact | lib/ktbs/methods/hrules.py:97-168 | after an exact refresh, the condition is that the next one is not pseudo-monotonic or that no relation was added since that links obsels kept then |
| HRules.CopiesStay | lib/ktbs/methods/hrules.py:133-158 | a pseudo-monotonic refresh leaves every description in the target as it is, so it is not exact if one of them is out of date |
| HRules.ComputeCorrect | lib/ktbs/methods/hrules.py:97-168 | every refresh, exact or not, leaves the trace and its source in step for the next one, and consumers of the target can rely on its tags |
| HRules.FreshIsHarmless | lib/ktbs/methods/hrules.py:97-168 | if the last refresh was exact and only obsels that are new were posted since, every refresh meets the condition of HRules.ComputeExact |
| HRules.FreshTarget | lib/ktbs/methods/hrules.py:97-168 | and the target, too, only gets relations about new obsels, so that its consumers are in the same situation |
| HRules.AllCopied | lib/ktbs/methods/hrules.py:133-158 | once every sub-rule was queried from the anchor on, the obsels found or inserted are exactly those the rules keep |
| HRules.HRulesTrace.constructor | lib/ktbs/methods/hrules.py:45-94 | a new hrules trace holds the ranked sub-rules of its rules |
| HRules.HRulesTrace.ComputeObsels | lib/ktbs/methods/abstract.py:156-194 | compute_obsels chooses the mode, makes the specified computation and records the tags it saw, after any earlier calls; the target equals the graph computed from nothing exactly under the condition of HRules.ComputeExact, and the trace is ready for the next call in any case |
| HRules.HRulesTrace.DoComputeObsels | lib/ktbs/methods/hrules.py:97-168 | the in-place loops leave the collection, its tags and the computation state as specified for the mode |
| HRules.HRulesTrace.Begin | lib/ktbs/methods/hrules.py:97-132 | the target is emptied, or kept, as the mode says, and an add-only context is opened on it |
| HRules.HRulesTrace.CopyMatching | lib/ktbs/methods/hrules.py:133-158 | the loop over the ranked sub-rules, with the set of inserted obsels |
| HRules.HRulesTrace.CopyRowsOf | lib/ktbs/methods/hrules.py:133-158 | the loop over the rows of one sub-rule |
| HRules.HRulesTrace.CopyRowOf | lib/ktbs/methods/hrules.py:133-158 | one row: skipped if inserted in this computation or, in pseudo-monotonic mode, already in the target; copied otherwise |
| Chain.CreatedInv | lib/ktbs/engine/trace.py:408-423 | newly created computed traces, empty and never computed, satisfy the invariants of a chain |
| Chain.RefreshStep | lib/ktbs/methods/abstract.py:156-194 | every refresh of a trace of a chain, exact or not, keeps the invariant of all traces, and consumers can rely on the tags of the refreshed one |
| Chain.RefreshExactAt | lib/ktbs/methods/abstract.py:156-194 | it makes the trace what it would be, computed from nothing, if and only if every relation among the obsels to keep is there or has an end among the obsels copied now |
| Chain.RunAllKeeps | lib/ktbs/methods/abstract.py:156-194 | every run of edits of the stored trace, edits of the range of any trace and refreshes of computed traces, in any order and whether exact or not, keeps the invariant |
| Chain.EveryRefreshIsExact | lib/ktbs/methods/abstract.py:156-194 | after every such run, the next refresh of any trace, whichever mode it picks, gives exactly what computing from an empty target would give, if and only if every relation among the obsels to keep is in the target or has an end among the obsels copied now |
| Chain.RefreshHeals | lib/ktbs/methods/abstract.py:162-165 | whatever was missed in such a run, a refresh from scratch or a logical one is exact |
| Chain.PostingRunsAreExact | lib/ktbs/methods/abstract.py:156-194 | after every run of posted obsels, full edits, changes of range and refreshes of any traces, the next refresh of any trace, whichever mode it picks, is exact, without any condition |
| Chain.LateRelationIsMissed | lib/ktbs/methods/hrules.py:133-158 | a run from newly created traces, with one relation added between two known obsels, after which a pseudo-monotonic refresh is not exact, and neither is the strict one that follows |
| Chain.RefreshedChainIsComposition | lib/ktbs/engine/trace_obsels.py:572-616 | after every run, refreshing the traces from first to last gives each of them the composition of the methods applied to the stored trace, if and only if each of these refreshes is exact by the condition above when it comes |
| Chain.RefreshingComposes | lib/ktbs/engine/trace_obsels.py:572-616 | so it is from any trace on, if those before it are composed already |
| Chain.ScratchRefreshesAreHarmless | lib/ktbs/methods/abstract.py:162-165 | refreshes of the whole chain from scratch always are |
| Chain.PostingChainIsComposition | lib/ktbs/engine/trace_obsels.py:572-616 | after a run of posted obsels, other edits and refreshes, refreshing from first to last gives the composition, without condition |
| Filter.SelectedMeaning | lib/ktbs/methods/filter.py:106-192 | the obsels queried by a refresh are those passing the tests, until the upper bound, after the anchor, and within the lower bound used or ending together with the anchor |
| Filter.FilteredExactly | lib/ktbs/methods/filter.py:106-192 | the graph computed from nothing has the copies of exactly those obsels that begin from the lower bound on, end by the upper one and pass the test, with their own types |
| Filter.ComputeCopies | lib/ktbs/methods/filter.py:106-192 | unless it exits early, any refresh, also of a target that is not as it should be, leaves the copies of what was there and of what is queried now, and the relations among them that were there or that have an end among the obsels it did not skip |
| Filter.RefreshCopies | lib/ktbs/methods/filter.py:106-192 | so does one that exits early, which queries nothing |
| Filter.RefreshedTargetSays | lib/ktbs/methods/filter.py:106-192 | mode by mode, which obsels have a copy in the target after any refresh, by comparisons of begins, ends and URIs with the window, the range and what was remembered |
| Filter.RefreshedRelationsSay | lib/ktbs/methods/filter.py:150-192 | and which relations among them are there: those that were, and those with an end that was not skipped |
| Filter.RefreshedCopiesSay | lib/ktbs/methods/filter.py:165-178 | each copy says what its obsel says, and the last obsel of the target is the copy of the last one copied |
| Filter.PassedSays | lib/ktbs/methods/filter.py:180-192 | whether the window was passed is remembered as whether some obsel from the bound on ends after it |
| Filter.RefreshExact | lib/ktbs/methods/filter.py:106-192 | in every mode, for arbitrary obsels (begin > end included), whatever edits the source had and whatever earlier refreshes missed or wrongly accepted, a refresh gives what filtering from nothing gives if and only if nothing there or queried begins before the filter's bound, everything to keep is there or queried, and every relation among that is there or has an end among the obsels not skipped |
| Filter.ScratchIsHarmless | lib/ktbs/methods/filter.py:106-192 | that holds of every refresh from scratch |
| Filter.CopiesStay | lib/ktbs/methods/filter.py:150-192 | a logical or pseudo-monotonic refresh leaves every description in the target as it is, so it is not exact if one of them is out of date |
| Filter.HarmlessAfterExact | lib/ktbs/methods/filter.py:106-192 | after an exact refresh, the condition is: in the logical mode that no relation was added late; in the pseudo-monotonic one also that every kept obsel not yet there begins within the replaced lower bound and that nothing accepted by it begins before the filter's own; in the strict one that the window was passed or that no obsel accepted with the anchor begins before the filter's bound |
| Filter.InstantsAreReached | lib/ktbs/methods/filter.py:145-148 | with instantaneous obsels, no `after` bound and an unchanged range, a trace from which no obsel is missing never gets to miss one, in any mode |
| Filter.ReadyAgain | lib/ktbs/methods/filter.py:180-192 | every refresh, exact or not, remembers what the next one needs, and consumers of the target can rely on its tags |
| FilterRuns.EveryRefreshIsExact | lib/ktbs/methods/abstract.py:156-194 | after every run of edits of the source, edits of the range of either trace and refreshes, exact or not, the next refresh, whichever mode it picks, is exact if and only if the condition of Filter.RefreshExact holds; one from scratch always is |
| FilterRuns.InstantRunsAreExact | lib/ktbs/methods/abstract.py:156-194 | with instantaneous obsels, no `after` bound and a range of the source that is not edited, after every such run the next refresh is exact if and only if every relation among the obsels to keep is there or has an end among the obsels copied now |
| FilterRuns.PostingRunsAreExact | lib/ktbs/methods/abstract.py:156-194 | if, besides, obsels are added by posting them, it is exact without any condition |
| FilterRuns.LongObselIsMissed | lib/ktbs/methods/filter.py:145-148 | a run from newly created traces after which a pseudo-monotonic refresh misses an obsel that ends within the range but began before it |
| FilterRuns.EarlyObselIsAccepted | lib/ktbs/methods/filter.py:139-160 | a run from newly created traces after which a strict refresh accepts an obsel that begins before the filter's bound, although the refreshes before it were exact |
| Filter.FilterTrace.constructor | lib/ktbs/methods/filter.py:106-192 | a new filter trace is ready for its first computation |
| Filter.FilterTrace.ComputeObsels | lib/ktbs/methods/abstract.py:156-194 | compute_obsels chooses the mode and makes the specified computation, after any earlier calls; the target equals filtering from nothing exactly under the condition of Filter.RefreshExact, and the trace is ready for the next call in any case |
| Filter.FilterTrace.DoComputeObsels | lib/ktbs/methods/filter.py:106-192 | the in-place computation leaves the collection, its tags and the computation state as specified for the mode |
| Filter.FilterTrace.Begin | lib/ktbs/methods/filter.py:106-148 | the target is emptied, or kept, as the mode says, and an add-only context is opened on it |
| Filter.FilterTrace.CopyRowsInto | lib/ktbs/methods/filter.py:150-192 | the copying loop |
| Etags.YieldEtags | lib/ktbs/engine/trace_obsels.py:431-463 | iter_etags yields the etag, then str_mon_tag and pse_mon_tag under the specified conditions on the bounds |
| Etags.TagsGivenExactly | lib/ktbs/engine/trace_obsels.py:431-463 | which tags come with a slice, by comparisons of the ends of its bound and of its anchor with that of the last obsel, less the range; a bound of 0 next to an anchor does not count |
| Etags.SameEtagSameGraph | lib/ktbs/engine/trace_obsels.py:363-411 | an etag equal at two moments of a run means the same graph |
| Etags.ValidatorsAreSound | lib/ktbs/engine/trace_obsels.py:431-463 | any tag yielded for a slice (`maxe`, `before`, any test on obsels) that is still current after any run of edits proves that the slice has the same obsels with the same triples (weak validators, section 13.3.3 of RFC 2616) |
| Etags.UnanchoredTagsExact | lib/ktbs/engine/trace_obsels.py:431-463 | without an anchor, str_mon_tag and pse_mon_tag are given exactly when they are sound validators of the obsels that end by the bound, over all runs of edits |
| Etags.ActualEndExact | lib/ktbs/engine/trace_obsels.py:267-301 | with the etags that iter_etags yields for the greatest end m found in a page (any test, either order, with or without `before` and limit), every one of them that is still current after any run proves the answer unchanged, if and only if there is a `before`, or the page is full and not reversed, or: when m is below the last end, the test rejects every obsel that can still be appended, and when m is also below it by more than the range, whatever can still be added under pse_mon_tag, be it a new obsel or a known one of which more is said |
| Etags.AddingRun | lib/ktbs/engine/trace_obsels.py:483-541 | every obsel that may be added, and every description that may be extended, under a tag according to what the tag promises, can be, by a run that leaves the tag current |
| Etags.TypeListingFails | lib/ktbs/engine/trace_obsels.py:301 | a collection of two obsels, a listing of it by type that comes with str_mon_tag, and a run that changes the answer and leaves the tag current |
| Paging.PageIsPrefix | lib/ktbs/engine/trace_obsels.py:186-298 | each page is the first `limit` of the obsels wanted that come after the anchor |
| Paging.WalkVisits | lib/ktbs/engine/trace_obsels.py:267-298 | following links from any anchor visits only, and when complete all, of the obsels after it, in a bounded number of pages |
| Paging.PagingReadsEverything | lib/ktbs/engine/trace_obsels.py:267-298 | following `next` links from the first page visits wanted obsels only, in at most one page more than there are of them; a client that follows links as long as there are any visits all of them, and with distinct ends lists them in order, each once |
| Paging.ReadsExactly | lib/ktbs/engine/trace_obsels.py:186-298 | a client that follows all links has read an obsel if and only if its begin and end lie within the four bounds |
| Paging.WalkExtends | lib/ktbs/engine/trace_obsels.py:267-298 | a page that is not empty has a link, to a page |
| Paging.WalkEnds | lib/ktbs/engine/trace_obsels.py:267-298 | any walk can be continued to an empty page, which has no link: following links terminates |
| Paging.TiesAreRepeated | lib/ktbs/engine/trace_obsels.py:267-298 | a collection of two obsels that end together, and a complete walk that lists one of them twice |
| Paging.ZeroBoundsExact | lib/ktbs/engine/trace_obsels.py:285-296 | for satisfiable bounds, no page of any trace shows an obsel outside them, if and only if no upper bound is 0 and a `minb` of 0 comes with equal `mine` and `maxe` |
| Refresh.RefreshObselsKeeps | lib/ktbs/engine/trace_obsels.py:572-616 | a recursive refresh on any graph of traces, cyclic or not, terminates and keeps the invariant: a clean collection is its method applied to the stored contents of its sources, and a dirty description means dirty obsels |
| Refresh.RunKeeps | lib/ktbs/engine/trace.py:554-564 | so does every run of edits, of parameters and of stored contents, and refreshes, of a collection or of a description alone |
| Refresh.CreatedIdle | lib/ktbs/engine/trace.py:408-423 | newly created traces, all dirty, satisfy the invariant |
| Refresh.SettledHasValue | lib/ktbs/engine/trace_obsels.py:572-616 | a trace with no dirty ancestor holds the composition of the methods from the stored traces down |
| Refresh.RefreshSettles | lib/ktbs/engine/trace_obsels.py:572-616 | a refresh of an acyclic graph leaves the trace and all its ancestors clean, or fails exactly when some method it needs fails; it disturbs no trace that was settled |
| Refresh.RefreshAfterAnyRun | lib/ktbs/engine/trace_obsels.py:572-616 | after any run, a refresh succeeds if and only if the composition is defined, and then every ancestor is clean and holds its composed value |
| Refresh.RefreshObselsIdle | lib/ktbs/engine/trace_obsels.py:572-616 | refreshing a trace with no dirty ancestor changes nothing |
| Refresh.RefreshExactly | lib/ktbs/engine/trace_obsels.py:587-614 | refreshing a trace whose ancestors are clean: which contents, descriptions and marks change, and to what, on success and on failure |
| Refresh.OwnSource | lib/ktbs/engine/trace_obsels.py:579-586 | a trace that is its own source is computed once from its old contents, and stays dirty |
| Refresh.MarksExactly | lib/ktbs/engine/trace.py:554-564 | which descriptions and collections an edit of stored obsels, of a stored description or of parameters marks |
| Refresh.Traces.constructor | lib/ktbs/engine/trace.py:408-423 | traces are created dirty |
| Refresh.Traces.MarkDirty | lib/ktbs/engine/trace.py:554-564 | marks collections, and with a change of metadata descriptions too |
| Refresh.Traces.ForceDesc | lib/ktbs/engine/trace.py:472-506 | the guarded recursive refresh of a description, in place, as specified |
| Refresh.Traces.RecomputeDescNow | lib/ktbs/engine/trace.py:472-506 | recomputing a description clears its flag, stores the new description, and marks the descriptions and collections of its consumers |
| Refresh.Traces.ForceObsels | lib/ktbs/engine/trace_obsels.py:572-616 | the guarded recursive refresh of a collection, in place, as specified, failures included |
| Refresh.Traces.RecomputeNow | lib/ktbs/engine/trace_obsels.py:572-616 | recomputing a collection stores the result and marks consumers, or leaves it dirty on failure |
| Nodes.ReplaceNodeDense | lib/rdfrest/util/__init__.py:189-208 | removing and adding triples one by one while replacing equals simultaneous substitution, even when the new node occurs already |
| Nodes.ReplaceNodeSparse | lib/rdfrest/util/__init__.py:210-235 | removing all affected triples, then adding, substitutes in the triples that have the old node at an end |
| Nodes.DenseExact | lib/rdfrest/util/__init__.py:189-208 | this is the renaming meant if and only if the new node is not one that Python takes for false (an empty URI; an empty string, zero or false literal), or equals the old one, or there is nothing to replace |
| Nodes.SparseExact | lib/rdfrest/util/__init__.py:210-235 | sparse equals dense if and only if no triple has the old node as its predicate only |
| Nodes.SparseSays | lib/rdfrest/util/__init__.py:210-235 | in any case, the triples with the old node at an end are renamed and all others are left as they are |
| Nodes.ClosedContains | lib/rdfrest/util/__init__.py:48-81 | a set closed under the worklist step contains every node reachable through blank nodes that are not pruned |
| Nodes.DescriptionIsLeast | lib/rdfrest/util/__init__.py:48-81 | the bounded description is the least set of triples that holds those around the start and, with any triple, those around a blank node of it that is not pruned |
| Nodes.BoundedDescription | lib/rdfrest/util/__init__.py:48-81 | the worklist terminates, although a blank node with a self-loop is queued twice, and returns exactly the triples around the nodes reachable through blank nodes that are not pruned |
| Nodes.VisitNode | lib/rdfrest/util/__init__.py:66-80 | visiting a node adds the triples around it and queues its unseen blank neighbours that are not pruned |
| Posting.PostGraph | lib/ktbs/engine/trace.py:318-358 | the loop that shrinks the candidates and rewrites the posted graph adds to the store, candidate by candidate, the specified triples, and leaves the posted graph fully renamed |
| Posting.RemoveRelations | lib/ktbs/engine/trace.py:338-340 | exactly the relations with the candidates still to come are removed |
| Posting.DescriptionRenamed | lib/ktbs/engine/trace.py:335-337 | what is described of a candidate in the graph rewritten so far is its description in the posted graph, renamed |
| Posting.StoresThePostedTriples | lib/ktbs/engine/trace.py:318-358 | when no nested blank node is shared, what is stored is the posted triples under one renaming, none lost and none more |
| Posting.OwnTriplesAreStored | lib/ktbs/engine/trace.py:318-358 | even when blank nodes are shared, every triple of a candidate with a literal, a resource or another candidate is stored with the URIs minted |
| Posting.StoredComesFromPosted | lib/ktbs/engine/trace.py:318-358 | and every triple stored is a posted one in which candidates were replaced by their own URIs, or left |
| Posting.RelationStoredWithLaterEnd | lib/ktbs/engine/trace.py:338-347 | a relation between two posted obsels is stored when the later of them is posted, and not before |
| Posting.NoLeakExact | lib/ktbs/engine/trace.py:318-358 | no candidate leaks into the store as a blank node if and only if no nested blank node is shared by two descriptions |
| Posting.RenamingInjective | lib/ktbs/engine/trace.py:343-347 | the renaming of all candidates is injective on the nodes of the posted graph |
| Untrusted.CheckTriples | lib/rdfrest/cores/mixins.py:525-568 | accepts exactly when no triple is a reserved type of the resource, or has a reserved predicate from or to it, that is not listed as editable |
| Untrusted.AcceptedExact | lib/rdfrest/cores/mixins.py:393-413 | the added and removed triples are all acceptable if and only if the protected triples are the same before and after |
| Untrusted.EditUntrusted | lib/rdfrest/cores/local.py:858-909 | either the graph is untouched or it is exactly the edited graph, the latter exactly when the body raised nothing and all checks passed |
| Untrusted.EditHappensExactly | lib/rdfrest/cores/mixins.py:525-568 | an untrusted edit happens if and only if its body raises nothing, the other checks accept it, and it neither adds nor removes a reserved type of the resource, a triple from it or a triple to it with a reserved predicate, that is not editable |
| Untrusted.ProtectedForever | lib/rdfrest/cores/local.py:858-909 | over any run of untrusted edits the protected triples, which Untrusted.ReservedForever lists, never change, and the graph is one of the edited ones |
| Untrusted.ReservedForever | lib/rdfrest/cores/mixins.py:525-568 | over any run of untrusted edits no triple of these three kinds appears or disappears |
| Edits.InsideIsSilent | lib/rdfrest/cores/local.py:807-856 | inside an edit context no program prepares, acks, commits or rolls back, and none leaves the context changed, whether it ends normally or not |
| Edits.OutermostEdit | lib/rdfrest/cores/local.py:807-909 | an outermost edit prepares once; when it succeeds, which Edits.OutermostOutcome says, it acks exactly once, otherwise at most once; outside a service context it makes exactly one commit or one rollback |
| Edits.OutermostOutcome | lib/rdfrest/cores/local.py:807-909 | it succeeds if and only if its body ends normally, it is trusted or its graph is valid, and ack_edit ends normally; it is acked only after the first two, and committed only after all three, otherwise rolled back |
| Edits.InSequence | lib/rdfrest/cores/local.py:807-856 | the rest of a program happens only if what comes first ends normally |
| Edits.FailedEditIsRolledBack | lib/rdfrest/cores/local.py:828-855 | an edit whose body gets to an exception outside any handler, or which is untrusted and invalid, is never acked and never committed, and rolled back on its own, whatever comes before the exception |
| Edits.ServiceOutcome | lib/rdfrest/cores/local.py:260-277 | an outermost service context commits if and only if its body ends normally and rolls back otherwise; an inner one does neither |
| Edits.FailedServiceIsRolledBack | lib/rdfrest/cores/local.py:260-277 | a service context whose body gets to an exception is rolled back |
| Edits.InnerEdit | lib/rdfrest/cores/local.py:807-823 | an edit inside another one happens only if both are trusted and the parameters agree, and then ends as its body does |
| Edits.EveryProgramFollowsTheProtocol | lib/rdfrest/cores/local.py:225-277 | after any program, with any nesting and any exceptions, no context is left and the events seen by the store and the resource follow the protocol |
| Edits.Resource.constructor | lib/rdfrest/cores/local.py:807-856 | a resource starts outside any context |
| Edits.Resource.ServiceEnter | lib/rdfrest/cores/local.py:225-258 | counts the level, and opens at the outermost one only |
| Edits.Resource.ServiceExit | lib/rdfrest/cores/local.py:260-277 | commits or rolls back when leaving the outermost level only |
| Edits.Resource.EditTrusted | lib/rdfrest/cores/local.py:807-856 | _edit_trusted as specified, its exceptional exits included |
| Edits.Resource.EditUntrusted | lib/rdfrest/cores/local.py:858-909 | _edit_untrusted as specified, its exceptional exits included |
| Edits.Resource.Run | lib/rdfrest/cores/local.py:807-909 | running a program in place gives the specified state and outcome |
| Lock.NextKeeps | lib/ktbs/engine/lock.py:93-145 | every step of every thread keeps the invariant: semaphore value + holders = 1, and a process's id is set exactly while its thread is in the body |
| Lock.RunKeeps | lib/ktbs/engine/lock.py:93-145 | so does every run |
| Lock.MutualExclusion | lib/ktbs/engine/lock.py:93-145 | in every run of any number of processes and threads, at most one thread is in the body, and then the semaphore is 0 |
| Lock.FastPathOnlyForHolder | lib/ktbs/engine/lock.py:111-115 | the re-entrant fast path is taken if and only if the thread holds the lock |
| Lock.EnabledExactly | lib/ktbs/engine/lock.py:93-145 | what a thread can do in each reachable state; in particular, a thread in the body can always enter again or leave, and one that waits gets the semaphore exactly if it is not 0 |
| Lock.FreeLockIsTaken | lib/ktbs/engine/lock.py:111-135 | when nobody has the semaphore, a thread that calls lock() is in the body after its own three steps |
| Lock.InnerCallKeepsLock | lib/ktbs/engine/lock.py:111-143 | in every reachable state, entering and leaving an inner call change neither the semaphore nor the id of any process, and the thread goes on holding the lock, whatever happens in between |
| Lock.CallsLeaveNoTrace | lib/ktbs/engine/lock.py:111-145 | an inner call entered and left leaves the state as it was, and so does a call that gives up waiting |
| Lock.OutermostExitGivesUp | lib/ktbs/engine/lock.py:137-141 | leaving the outermost call clears the id; releasing the semaphore then leaves no holder |
| Lock.ZeroWhileHeld | lib/ktbs/engine/lock.py:122-125 | in every reachable state the semaphore is 0 while a thread has it, so the assertion after acquiring never fails, whenever the value is read |
| Lock.NormaliseSemaphore | lib/ktbs/engine/base.py:249-268 | the loop leaves the value 1 whatever was left over |
| Lock.NormalisingExact | lib/ktbs/engine/base.py:249-268 | forcing the value to 1 establishes the invariant if and only if nobody holds the lock |
| Lock.NormalisingWhileHeld | lib/ktbs/engine/base.py:249-268 | if somebody does, another thread can be in the body at the same time three steps later |

## Left out

* URIs are (trace, rank of the last segment); predicates, types and literals are numbers, and so is the rank of a query text among strings. Module Uris proves the string facts behind it. Operators of hrules conditions work on integer values.
* A tag is a counter: new tags, made by hashing the time and the previous etag, are taken to differ from all earlier ones. Minted URIs are taken to be fresh.
* Graphs and queries: a graph is a finite map and set, a query is the set or sequence it denotes. The SPARQL engine and rdflib are not modelled.
* Added graphs: each is about one obsel; if that obsel is known already, it keeps its begin and end, and more attributes, types and relations may come with it.
* Full edits in runs are those after which the query for the last obsel found the maximum; Tags.FindLastExact and Tags.StrPromiseNeedsLast say when and why. A single one is modelled without that condition.
* Copying: no obsel is related to itself (Views.SelfRelationExact), and the source does not mention nodes of the target trace.
- Chain.EveryRefreshIsExact: traces of a chain are computed by hrules with one source each; filter traces are covered by FilterRuns.EveryRefreshIsExact on one source. Edits of the stored trace leave the descriptions of known obsels as they are (HRules.CopiesStay), or renew all tags.
- FilterRuns.EveryRefreshIsExact: the user's pattern is a test on one obsel; datetime parameters and states left by older versions are not modelled. Edits of the source leave the descriptions of known obsels as they are (Filter.CopiesStay), or renew all tags.
- Refresh.RefreshAfterAnyRun: source lists do not change; a failing computation leaves the stored contents as they were; consumers are marked even when an early exit of filter adds nothing.
- Refresh.RefreshObselsKeeps: `refresh=recursive`, `refresh=force` and composite methods (pipe, parallel), whose effective sources are only in the metadata, are not modelled.
- Posting.PostGraph: candidates are blank nodes; default type, subject and timestamps are not filled in; what a single post may refuse is not modelled.
- Paging.PagingReadsEverything: forward links only, and bounds that Paging.ZeroBoundsExact allows. Without distinct ends, obsels may be listed twice, as the anchor of a page is any obsel of greatest end.
- Untrusted.EditUntrusted: blank nodes are compared by name, not up to isomorphism; transaction-aware stores are not modelled.
- Edits.EveryProgramFollowsTheProtocol: one resource and one service; prepare_edit raises nothing.
- Lock.MutualExclusion: a timeout may happen at any time; unlinking of a semaphore on deletion, and reuse of thread ids, are not modelled.
- Etags.ValidatorsAreSound: a slice is bounded above by an end and by an anchor, plus any test on an obsel and its URI. A listing with both `after` and `before`, whose filter lets through obsels beyond `before`, and offsets are not modelled.
* The check that an obsel does not end before it begins (lib/ktbs/engine/obsel.py:247-249) compares its begin with a copy of its begin, so it rejects nothing; no module assumes begin <= end.
* The methods fusion, fsa, isparql, sparql and external, and computed traces with several sources.
* The HTTP server and client, parsers and serializers, plugins, configuration and access control: input and output.
* Locks, edit contexts and collections are each modelled by themselves, not in one system. compute_obsels is one method of a class in the source; Dafny classes without inheritance need one for each kind of trace, and share what it is made of in module Methods.
* The source writes some nested loops in one function; here an inner loop is a method of its own (CopyRowsOf, CopyRowOf, VisitNode, RemoveRelations).
