# A verified model of bmon

bmon watches network interfaces and other counters. This project models the parts of it that keep state or
walk linked structures, in Dafny, and proves what they promise over whole runs. `dafny verify dfyconfig.toml`
checks all of it.

| file | models | main results |
|---|---|---|
| `Options.dfy`, `Sequences.dfy`, `Forests.dfy` | ordered forests, the value behind `g_elements` and `e_childs` | where subtrees stand in the preorder, what cutting subtrees leaves |
| `Selection.dfy` | the selection on the flat preorders of all groups | next and prev are inverse walks around one cycle that starts at the first element; what freeing does to the selection, in the current group or another one, and when it does what it should |
| `Passes.dfy` | the selection during a lifetime pass | it ends at the nearest survivor in front of it, or wraps |
| `Lifetimes.dfy` | reads and lifetime passes on one forest | signed elements live, unsigned ones die at exactly the lifetime-th pass |
| `Elements.dfy` | `src/element.c`, `src/group.c` | the climbing and descending code refines the flat walk; freeing and pruning cut exactly the subtrees they should |
| `Rounds.dfy` | the rounds of the main loop | lookups, lifesigns and prunes of the monitor form the runs of `Lifetimes.dfy`, also for groups created on the way |
| `Lists.dfy` | `include/bmon/list.h` | the intrusive lists refine sequences, also under deletion while iterating |
| `Wildcard.dfy` | `match_mask`, `element_allowed` | sound; complete exactly for rules of a decidable form |
| `CStrings.dfy`, `FormatTokens.dfy` | `src/out_format.c` | the in-place tokenizer refines a grammar, end to end |
| `ModuleParam.dfy` | the module option parser of `src/conf.c` | parsing and printing are inverse, each exactly where they can be |
| `Timing.dfy` | `src/utils.c`, the loop of `src/bmon.c` | no drift, no early read, no oversleeping; reads exactly on time when only the sleeps take time |
| `Counters.dfy` | counter accumulation and rates of `src/attr.c` | totals refine an unbounded counter through wraps, restarts and resets; rate bounds and convergence |
| `History.dfy`, `Ledger.dfy` | `src/history.c` | ring contents, gap filling, when updates are stored, conservation of traffic over runs |
| `Graph.dfy` | `src/graph.c` | every cell of the table, bar heights, bounds of all writes |
| `Attributes.dfy`, `AttrIndex.dfy`, `Notify.dfy` | attribute hash, sorted list and notification of `src/attr.c` | both structures agree on every run; the order of the list |

Structures that the C code changes in place are classes and arrays here; every method is proved against a
function on values, and the theorems are about those functions. C integers are unbounded unless a width
matters, in which case the reduction is written out (64-bit totals, 32-bit source counters, unsigned
lifetimes, history cells of 8 to 64 bits). Floating point quantities are exact reals. The clock, the kernel
readings, what the element configuration says and the scaling of a unit are parameters.

Places where the code and its documentation or its evident intention differ, and the model follows the code:

* The manual (`man/bmon.8:202-203`) says that `*` stands for any characters. `match_mask` lets a star that is
  not last reach only to the first occurrence of the next character. `MaskMeetsLanguage` says for which rules
  the two are the same.
* The comments in `attrcmp` say that the major key attribute is always first and the minor one always second.
  That depends on what was tracked before. `MajorLeadsIff` and `KeysLeadIff` give the exact conditions for whole
  runs, made of `MajorFirstIff`, `MajorLaterIff` and `MinorSecondIff` for the call that tracks a key and of
  `MajorStays` and `MinorStays` for all later calls; `KeysStayInFront` is the case that is meant to happen, and
  `MajorCanComeLast`, `MinorCanComeThird` and `MinorCanComeThirdLater` are instances that go wrong.
* Freeing the selected element of a group is meant to select its predecessor. `element_free` asks for the previous
  element of the current group, though, whichever group that is. `FreeAsMeantIff`: when there is an element in front
  of the freed subtree, it does what it is meant to if and only if the group is the current one. If it is not, the
  selection of the current group moves although nothing of it is freed, or the current group changes, and the group
  of the freed element is usually left without a selection: `FreeElsewhere` and `FreeReturns` next to
  `FreeSelected`, with `FreeCanLoseSelection` as an instance.
* Next is meant to walk through the elements of all groups. With an empty group on the way it gets stuck there:
  `ReturnsIff`.
* The loop is meant to sleep no longer than until the next read. With a sleep time above one second it may:
  `SleepBound`.
* History cells of 8, 16 and 32 bits truncate rates that do not fit. `AccountsIff` says when a cell still accounts
  for what was measured, `Conservation` has the loss as a term of its own, and `TruncationLoses` is an instance.
* A history of an attribute that is not a counter never starts if the read interval is below the history interval
  (`NeverStartsIff`).
* An element that is signed in every read is meant to stay. With a lifetime of a single cycle it is freed by the
  very next pass; `SignedLives` covers every other lifetime and `SingleCycleFrees` that one.

## Model

| member | source | states |
|---|---|---|
| Selection.NextIsSuccessor | src/element.c:438-469 | with every group non-empty, next moves the selected position to its successor in the cyclic concatenation of the groups' preorders |
| Selection.PrevIsPredecessor | src/element.c:471-500 | and prev moves it to its predecessor |
| Selection.NextPrevInverse | src/element.c:438-500 | next after prev and prev after next change nothing |
| Selection.WalkFlat | src/element.c:438-469 | up to one full round, n steps move the position by n modulo the number of elements |
| Selection.CycleReturns | src/element.c:438-469 | as many steps as there are elements lead back to the start |
| Selection.CycleReaches | src/element.c:438-469 | every element of every group is reached within that many steps |
| Selection.CycleOnce | src/element.c:438-469 | and by one step count only |
| Selection.ReturnsIff | src/element.c:438-469 | from any live state, next steps come back to the selected element if and only if no group is empty; in an empty group they get stuck |
| Selection.UnsetIsFirst | src/group.c:130-136 | as long as no group is set, every move is the one from the first group |
| Selection.StartsInGroup | src/element.c:398-450 | in a group without a selection, next starts at its first element and previous at its last |
| Selection.WalkFromStart | src/element.c:438-469 | from the state at startup, with every group non-empty, next steps show the elements of all groups one after the other, beginning with the first of the first group, and previous shows the last of the first group |
| Selection.GroupRing | src/group.c:78-128 | the moves between groups: both ends, where they lead when no group is set, and next and previous undo each other |
| Selection.SelectLive | src/element.c:398-500 | no move of the selection makes any group select an element that is not its own, in any state |
| Selection.UnlinkAllLive | src/element.c:197-229 | nor does freeing any sequence of elements |
| Selection.UnlinkUnselected | src/element.c:218-222 | freeing elements that are not selected leaves all selections alone |
| Selection.FreeSelected | src/element.c:204-225 | freeing a subtree of the current group that holds its selection moves the selection to the element before the subtree, or wraps if there is none |
| Selection.FreeElsewhere | src/element.c:204-225 | freeing a subtree that holds the selection of another group, while the selection of the current group does not step back into that group: the current selection moves to its previous element, or to the last element of the previous group, or to the last element of its group if it had none; the other group selects nothing |
| Selection.FreeReturns | src/element.c:204-225 | the remaining case, in which it does step back: the group of the freed subtree becomes current and selects the last element behind the subtree, or without one the element before it (wrapping if there is none either), or nothing if then the selected element was on the right edge of the subtree |
| Selection.FreeAsMeantIff | src/element.c:218-222 | freeing the subtree that a group has its selection in, with an element in front of it, selects that element and leaves everything else of the selection alone if and only if the group is the current one |
| Selection.FreeCanLoseSelection | src/element.c:218-222 | two groups for which it does not: the selection of the current group moves and the other group selects nothing |
| Selection.TreesTaken | src/element.c:197-229 | whatever is selected, exactly the subtree leaves the preorder |
| Elements.Successor | src/element.c:438-469 | climbing and descending the lists finds the preorder successor inside a group; terminates by the preorder index |
| Elements.Predecessor | src/element.c:471-500 | and the preorder predecessor |
| Elements.LastBelow | src/element.c:426-430 | the walk down the last children ends at the last element of the subtree |
| Elements.Monitor.GroupSelectFirst | src/group.c:78-87 | first group, none if there is none |
| Elements.Monitor.GroupSelectLast | src/group.c:89-98 | last group |
| Elements.Monitor.GroupSelectNext | src/group.c:100-113 | next group with wrap-around |
| Elements.Monitor.GroupSelectPrev | src/group.c:115-128 | previous group with wrap-around |
| Elements.Monitor.GroupCurrent | src/group.c:130-136 | the current group, the first one if none is set |
| Elements.Monitor.GroupLookup | src/group.c:138-166 | finds the first group of that name, or appends an empty one if it may and there is a title; all selections stay |
| Elements.FindGroupIff | src/group.c:138-146 | a group is found if and only if one has the name |
| Elements.Monitor.ElementSelectFirst | src/element.c:398-412 | refines the flat first selection, also when groups are missing or empty |
| Elements.Monitor.ElementSelectLast | src/element.c:414-436 | refines the flat last selection |
| Elements.Monitor.ElementSelectNext | src/element.c:438-469 | refines the flat next step in every valid state |
| Elements.Monitor.ElementSelectPrev | src/element.c:471-500 | refines the flat previous step in every valid state |
| Elements.Monitor.FlattenedLive | src/element.c:471-500 | in every valid state each group selects nothing or an element of its own forest |
| Elements.Monitor.MoveOff | src/element.c:218-222 | the selection repair leaves the element unselected in its group, whichever group is current |
| Elements.Monitor.FreeChildren | src/element.c:204-205 | the loop over the children frees exactly the subtrees below an element, though each turn removes the list entry it stands on |
| Elements.Monitor.ElementFree | src/element.c:197-229 | removes exactly the subtree from forest, lists and counts; every other group keeps its forest; the selection is that of unlinking the subtree bottom-up |
| Elements.Monitor.FreeWhole | src/element.c:197-229 | the same as a step between snapshots: no other counter or forest changes, and the selection is that of unlinking the subtree bottom-up |
| Elements.Monitor.ElementLookup | src/element.c:135-195 | finds the first element of that name and id in the list, or creates it at the end with a full lifetime if it may and the policy permits the name; changes nothing otherwise |
| Elements.FindFirst | src/element.c:121-133 | the search gives the first element of a list with both the name and the id |
| Elements.LookupKeepsKeyed | src/element.c:135-195 | no list ever holds two elements of the same name and id, and a created element is found again |
| Elements.Monitor.ElementLifesign | src/element.c:316-319 | sets the counter, reduced to an unsigned int, and nothing else |
| Elements.Monitor.CheckIfDead | src/element.c:321-328 | one tick; the whole subtree goes if the counter reaches zero, else the selection stays |
| Elements.Monitor.CheckTree | src/group.c:44-49 | callback on one element and walk below it; the selection is that of freeing its expiring subtrees in preorder |
| Elements.Monitor.CheckList | src/group.c:36-50 | one pass over a list while the callback frees entries: exactly the subtrees rooted at expiring elements go, all others lose one cycle; the selection is that of freeing those subtrees one after the other |
| Elements.Monitor.FreeUnusedElements | src/group.c:190-193 | every group goes through exactly one functional prune, and the selection through the sweep of `Passes.dfy` over what expires |
| Elements.Monitor.NowHolds | src/group.c:190-193 | what the theorems about sweeps ask of a state holds in every valid one |
| Passes.GoneElems | src/group.c:36-50 | the elements a pass frees are exactly those that the cut takes out of the forest |
| Passes.PassTakes | src/group.c:36-50 | whatever is selected, a pass leaves the preorder of the pruned forest |
| Passes.PassPrunes | src/group.c:36-50 | behind elements that stay, a pass over trees of the current group moves a selection in them to the nearest survivor in front of it, however many trees go, and no other |
| Passes.PassSettles | src/group.c:36-50 | a pass over the whole current group leaves its selection at the nearest survivor at or in front of it; without one it wraps to the end of the previous group, or in a single group to the last survivor |
| Passes.SweepSettles | src/group.c:190-193 | over all groups: if no other group has its selection freed and there is such a survivor, the current group stays current and selects it, and all other selections stay |
| Passes.SweepUnselected | src/group.c:190-193 | if no selected element is freed, no selection changes |
| Elements.GroupLookupIsRead | src/group.c:138-166 | creating a group is a read of an empty group that adds nothing to it, in the sense of the lifetime runs |
| Elements.LookupIsRead | src/element.c:135-195 | creating an element is a read in the sense of the lifetime runs, for its group and no other |
| Elements.LifesignIsRead | src/element.c:316-319 | so is a lifesign |
| Forests.CutElems | src/element.c:197-229 | cutting subtrees keeps the elements distinct and adds none |
| Forests.CutPreorder | src/element.c:197-229 | a cut subtree is one contiguous piece of the preorder, and the order of the rest stays |
| Lifetimes.CutSurvivors | src/group.c:36-50 | an element survives a pass if and only if neither it nor an ancestor expires; survivors keep their ancestors |
| Lifetimes.Round | src/bmon.c:348-350 | what one read followed by one pass does to any element that is there after the read, old or new |
| Lifetimes.SignedLives | src/element.c:316-328 | over any run, from its creation on, an element that has a full lifetime together with its ancestors after every read stays, unless the lifetime is a single cycle |
| Lifetimes.UnsignedDies | src/element.c:316-328 | an element that was created or signed and gets no further lifesign, below ancestors that do not expire, is freed by exactly the lifetime-th pass |
| Lifetimes.SingleCycleFrees | src/element.c:316-328 | with a lifetime of a single cycle the first pass frees every signed or new element |
| Lifetimes.ReadsJoin | src/bmon.c:349 | lookups and lifesigns of one reading round add up to one read |
| Rounds.ChainReads | src/bmon.c:348-350 | any chain of such operations on any groups, old or created on the way, is one read of every group |
| Rounds.RoundsFormRun | src/bmon.c:348-350 | rounds of such operations and free_unused_elements put every group through a run of reads and passes, also one that a read creates: before that it counts as empty |
| Lists.RingUnique | include/bmon/list.h:25-59 | a well-formed ring holds one sequence only |
| Lists.ListAdd | include/bmon/list.h:31-38 | links a node between two neighbours; the ring stays well formed |
| Lists.ListAddTail | include/bmon/list.h:40-43 | refines append, or insertion before a node |
| Lists.ListAddHead | include/bmon/list.h:45-48 | refines prepend |
| Lists.ListDel | include/bmon/list.h:50-54 | refines removal |
| Lists.ListEmpty | include/bmon/list.h:56-59 | the head is its own successor exactly if the sequence is empty |
| Lists.Forward | include/bmon/list.h:82-85 | forward iteration yields the sequence |
| Lists.Backward | include/bmon/list.h:87-90 | backward iteration yields its reverse |
| Lists.DeleteSafely | include/bmon/list.h:92-96 | safe iteration visits every node in order when the body deletes the current one, and exactly the others stay |
| Wildcard.MatchMask | src/element.c:37-60 | the two-index loop decides `Accepts` without reading behind either terminator |
| Wildcard.FoldLetters | src/element.c:49-56 | exactly the 26 capital letters are taken for small ones |
| Wildcard.LiteralIff | src/element.c:37-60 | a rule without stars accepts exactly the names that differ from it in the case of letters only |
| Wildcard.CaseBlind | src/element.c:37-60 | the case of letters in a name never matters, and a star alone accepts every name |
| Wildcard.AcceptsSound | src/element.c:37-60 | what is accepted is in the language of the rule, upper and lower case alike |
| Wildcard.AcceptsLazily | src/element.c:37-60 | without adjacent stars, exactly the expansions in which no inner star covers the character behind it are accepted |
| Wildcard.MaskMeetsLanguage | src/element.c:37-60 | the code accepts the whole language of a rule if and only if the rule has no star, or from its first star on alternates stars and single characters and ends in a star |
| Wildcard.RejectedWitness | src/element.c:37-60 | for any other rule, a name it should accept and does not |
| Wildcard.ElementAllowed | src/element.c:62-86 | configuration first, then the deny list, then the allow list |
| Wildcard.PolicyLaws | src/element.c:62-86 | without rules everything is allowed; a rule on the deny list takes away exactly what it accepts, also from what is allowed; the first rule on the allow list leaves only what it accepts, each further one adds to that |
| CStrings.StrChr | src/out_format.c:211 | the first occurrence in the C string, or none |
| FormatTokens.RejectedIffUnclosed | src/out_format.c:205-214 | a format is rejected if and only if some `$(` has no `)` behind it |
| FormatTokens.RenderExpands | src/out_format.c:145-164 | rendering the pieces of the grammar gives the format with fields and escapes replaced on the spot |
| FormatTokens.EscapesPrint | src/out_format.c:224-254 | a backslash and one of `abtnvfr` print the control characters 7 to 13 |
| FormatTokens.FieldPrints | src/out_format.c:204-221 | a name in `$(` and `)` prints its value |
| FormatTokens.LiteralPrints | src/out_format.c:256-260 | every other character prints itself, a backslash in front of any other letter too |
| FormatTokens.ExpandJoins | src/out_format.c:203-262 | a format that does not end within a piece prints the same whatever follows, and what follows prints the same behind it |
| FormatTokens.EscapeInside | src/out_format.c:224-254 | so an escape anywhere prints its one character and leaves the rest alone |
| FormatTokens.FormatOutput.AddToken | src/out_format.c:176-196 | appends one token, keeps all others while the array grows |
| FormatTokens.FormatOutput.ProbeOne | src/out_format.c:203-266 | one turn of the scan keeps every earlier token readable in the buffer it overwrites |
| FormatTokens.FormatOutput.FormatProbe | src/out_format.c:198-283 | the C strings the tokens point to in the final buffer are the pieces of the format, one each, in order |
| FormatTokens.FormatOutput.DrawElement | src/out_format.c:145-164 | reads them back out of the buffer and concatenates their values |
| FormatTokens.ProbeAndDraw | src/out_format.c:145-283 | from format to output: rejected, or every field and escape replaced and nothing else changed |
| ModuleParam.ParseTv | src/conf.c:142-159 | cuts type and value at the first `=` in place |
| ModuleParam.ParseAttrs | src/conf.c:179-192 | the loop over the options refines the functional parser and writes only inside its string |
| ModuleParam.ParseModule | src/conf.c:161-197 | one module with its options; quits on empty text |
| ModuleParam.ParseModuleParam | src/conf.c:200-228 | the whole argument |
| ModuleParam.QuitsOnEmptySegment | src/conf.c:161-228 | the program quits if and only if some comma segment is empty |
| ModuleParam.ParsePrint | src/conf.c:142-228 | printing what was parsed gives back the argument |
| ModuleParam.PrintParse | src/conf.c:142-228 | parsing what was printed gives back the list if and only if its texts are free of their separators |
| ModuleParam.OptionsRead | src/conf.c:142-228 | the separators written out: modules by commas, options behind a colon, set apart by semicolons, values behind an equals sign |
| Timing.TimestampAdd | src/utils.c:81-90 | exact microsecond addition, also when the target is an operand; keeps timestamps normal |
| Timing.TimestampSub | src/utils.c:92-100 | exact subtraction |
| Timing.TimestampLe | src/utils.c:102-111 | on normal timestamps, the order of time |
| Timing.CopyTimestamp | src/utils.c:137-141 | copies |
| Timing.DiffMicros | src/utils.c:143-151 | the difference in seconds is the exact difference in microseconds |
| Timing.LoopTurn | src/bmon.c:319-381 | one turn of the loop |
| Timing.MainLoop | src/bmon.c:307-381 | the loop for any clock |
| Timing.TurnAt | src/bmon.c:319-381 | after k reads the next one is planned at start + k intervals, and a turn reads exactly if that time has come |
| Timing.KeepsPace | src/bmon.c:355-381 | with a clock that does not run backwards the loop sleeps exactly when no read is overdue, and none was early |
| Timing.SleepBound | src/bmon.c:355-379 | the requested sleep never passes the next read if and only if the sleep time is at most one second |
| Timing.SleepIsMinIff | src/bmon.c:355-379 | within a second of the next read the loop asks for the time that is left or the sleep time, whichever is shorter, and not at all when it is overdue; it always asks for the shorter one if and only if the sleep time is at most one second |
| Timing.ReadsOnTime | src/bmon.c:319-379 | if nothing but the requested sleeps takes time, and the sleep time is at most one second, every read happens exactly at the time it was planned for |
| Counters.Rate.ReadingDelta | src/attr.c:550-563 | the delta of a reading on 64-bit arithmetic |
| Counters.Rate.CalcCounterRate | src/attr.c:544-598 | new total, rate and times |
| Counters.Rate.ResetCounter | src/attr.c:637-638 | the shown total becomes zero, the rest stays |
| Notify.AttrResetCounter | src/attr.c:634-640 | both directions of a counter are reset, nothing else is |
| Counters.Rate.CalcRateTotal | src/attr.c:600-604 | rates are taken as they come |
| Counters.DeltaIsGrowth | src/attr.c:550-563 | the delta of two readings is the growth of the counter modulo 2^32, or modulo 2^64 for 64-bit counters |
| Counters.TracksIff | src/attr.c:550-567 | one reading keeps the total true if and only if the growth stays below the modulus, or with overflows ignored the source does not wrap (up to multiples of 2^64) |
| Counters.RestartTracksIff | src/attr.c:550-567 | with overflows ignored, a source that restarts at zero keeps the total true if and only if nothing was lost and the new value is below the last one or that was zero (up to multiples of 2^64) |
| Counters.RecomputedDelta | src/attr.c:584-589 | the delta recomputed from the totals is the first one |
| Counters.TotalsAreTrue | src/attr.c:527-567 | over any run of readings, restarts of the source and resets that can be told apart, with or without overflows ignored, the total is the true count and the shown total the traffic since the last reset, modulo 2^64 |
| Counters.LooksRun | src/attr.c:569-597 | over any run, the time of the last estimate and the count then are those that the readings tell: each estimate comes at least the rate gap after the last one, unless there was no traffic yet |
| Counters.SampleBelowMean | src/attr.c:578-591 | a sample is the growth of its reading over the time since the last estimate, told by the readings; it never exceeds the true mean rate since then and equals it if and only if the skipped readings had no growth |
| Counters.SteadyRate | src/attr.c:569-597 | readings with the same growth, one second apart: every sample is that growth, and so is the rate from the second reading on |
| Counters.RateIsSmoothed | src/attr.c:582-594 | the rate after a run is the smoothing of its samples |
| Counters.SmoothStaysWithin | src/attr.c:593-594 | it stays between the least and the greatest sample |
| Counters.SmoothConverges | src/attr.c:593-594 | under a constant sample, zero included, the error shrinks by exactly four each time |
| History.SurvivesIff | src/history.c:99-155 | a value survives storing and reading if and only if it is below the mark of the width, or is the mark |
| History.WidthLimits | src/history.c:99-155 | the same in numbers for the four widths, and what is left of larger values |
| History.BackVisitsAll | src/graph.c:89-91 | the backward walk meets every slot once |
| History.PushHolds | src/history.c:121-127 | a write and an increment push one value: the i-th slot backwards holds the i-th newest value |
| History.SuccIsModulo | src/history.c:121-127 | the index is the number of pushes modulo the size |
| History.GapResidue | src/history.c:203-210 | the number of slots passed over is the one that leaves a residue in [-interval/2, interval/2): the rounded quotient |
| History.Ring.constructor | src/history.c:220-234 | an empty history with its two limits |
| History.Ring.StoreData | src/history.c:77-119 | one store: lazy allocation, delta per second, truncation, unknown values |
| History.Ring.IncIndex | src/history.c:121-127 | the next slot |
| History.Ring.PassOver | src/history.c:203-210 | the discard loop terminates and pushes exactly that many marked slots into both directions |
| History.Ring.Update | src/history.c:157-218 | all branches, for attributes of any kind; both directions advance in step |
| History.NeverStartsIff | src/history.c:162-194 | a history of an attribute that is not a counter stays empty for good if and only if the read interval is below the history interval |
| History.Ring.Data | src/history.c:129-155 | reads one slot |
| Ledger.Conservation | src/history.c:157-218 | over any run the growth of the counter is what the slots record, plus what did not fit into them, plus the gaps, plus the pending amount, plus a rounding loss in [0, seconds recorded), plus whole turns of the 64-bit total; nothing is lost to the width if and only if no rate reached the mark; early returns lose nothing |
| Ledger.EntersAsUpdated | src/history.c:157-218 | the books follow what an update does to either direction of a history |
| Ledger.BelowInterval | src/history.c:162-217 | with reads more often than slots, an update is left pending if and only if less than the interval minus half a read interval has passed since the last accepted one (and not more than the interval over the variance); slots are passed over if and only if more than the interval over the variance has passed; otherwise, and only then, one slot is stored, measured over the time passed |
| Ledger.AtOrAboveInterval | src/history.c:171-187 | with equal intervals every update is stored, with slower reads none |
| Ledger.FirstUpdate | src/history.c:162-169 | the first update of a counter only takes its total as the base |
| Ledger.SpansBounded | src/history.c:189-194 | over any run, every known slot was measured over at least the interval minus half a read interval and at most the interval over the variance |
| Ledger.AccountsIff | src/history.c:92-118 | the number read back from a slot accounts for the difference it was made from if and only if the rate is below the mark of the width |
| Ledger.TruncatedIff | src/history.c:99-118 | over a run, nothing is truncated if and only if no rate reached the mark |
| Ledger.TurnMissedIff | src/history.c:92 | a turn of the total is missed exactly by storing a difference of 2^64 or more |
| Ledger.NoTurnMissed | src/history.c:92 | so none is while the counter stays below 2^64 |
| Ledger.TruncationLoses | src/history.c:99-102 | 1000 units in one second leave 232 in a cell of 8 bits |
| Ledger.GapReads | src/history.c:82-90 | a gap reads as unknown once the store is allocated, and as zero before |
| Ledger.RateReads | src/history.c:92-97 | a recorded rate is read back if and only if it is below the mark or is the mark |
| Ledger.FeedFollowsBooks | src/attr.c:606-632 | the readings of a wrapping source counter drive the history as the ideal counter would |
| Graph.PosInside | src/graph.c:35-59 | positions of cells and terminators are inside the table |
| Graph.PosDistinct | src/graph.c:46-59 | different cells have different positions |
| Graph.PeakIsMax | src/graph.c:88-95 | the peak is the largest known visible value |
| Graph.ReachesIff | src/graph.c:116-118 | the comparison against the middle of a row holds exactly below the rounded share of the peak |
| Graph.BarFacts | src/graph.c:97-118 | bars are monotone in the value, the peak fills its column, none is too high |
| Graph.NoiseOnlyIff | src/graph.c:113-118 | a positive value shows only the noise mark if and only if it is below half a row |
| Graph.CellShows | src/graph.c:103-119 | each cell of a finished table by the slot of its column: filled with the mark for unknown values, blank for none, else a bar up to the rows whose middle is within the share of the peak, or the noise mark |
| Graph.UnknownIff | src/graph.c:110-112 | the mark for unknown values, if distinct from the others, stands exactly in the columns of unknown slots |
| Graph.GapFills | src/graph.c:110-112 | after a gap of k slots in a history with values, the k newest columns are filled |
| Graph.RowReads | src/graph.c:35-79 | each row is a C string of its own, as long as the graph is wide |
| Graph.ScaleSteps | src/graph.c:97-130 | the scale rises in equal steps to the peak, in the unit for the row above two thirds of the height |
| Graph.DrawColumn | src/graph.c:103-119 | one column: a contiguous bar from the bottom, or all unknown, and no other cell |
| Graph.FillTable | src/graph.c:61-131 | every cell: column i shows the i-th newest slot, filled if it is unknown and blank if it is zero; all rows stay terminated; the scale and its unit; blank without data; when it ends in `BUG()` |
| Graph.GraphAlloc | src/graph.c:133-152 | when it ends in `BUG()`; otherwise the graph is never wider than the history |
| Attributes.CaseTransitive | src/attr.c:269 | the comparison of descriptions is transitive, and a chain of comparisons is a tie only if each of them is |
| Attributes.CaseCmpIff | src/attr.c:269 | the comparison is that of a dictionary that ignores case, down to the last character; equal means differing in case only |
| Attributes.InsertStable | src/attr.c:299-307 | insertion among ordinary attributes keeps the alphabetical order and puts ties last |
| Attributes.KeysStayInFront | src/attr.c:258-307 | if the two keys are tracked first, the major key stays first, the minor one second, and the rest is the stable alphabetical order of what was tracked |
| Attributes.MajorFirstIff | src/attr.c:260-270 | when a major key that is tracked later still comes first |
| Attributes.MajorStays | src/attr.c:299-307 | whether the major key is first never changes afterwards |
| Attributes.MinorSecondIff | src/attr.c:264-266 | when a minor key tracked after a leading major key comes second |
| Attributes.MajorLaterIff | src/attr.c:260-270 | when a major key tracked after the minor key leads with the minor key behind it |
| Attributes.MinorStays | src/attr.c:299-307 | whether the minor key is second behind a leading major key never changes afterwards |
| Attributes.MajorLeadsIff | src/attr.c:258-307 | over any run, the major key is first if and only if it was when it was tracked, which the list before that call decides |
| Attributes.KeysLeadIff | src/attr.c:258-307 | over any run, the keys are first and second if and only if they took the lead when the last of them was tracked, which the list before that call decides |
| Attributes.MajorCanComeLast | src/attr.c:260-270 | two attributes for which the major key is last |
| Attributes.MinorCanComeThird | src/attr.c:260-270 | three attributes, the major key tracked last, for which the minor key is third |
| Attributes.MinorCanComeThirdLater | src/attr.c:264-266 | the same with the minor key tracked last |
| AttrIndex.BucketFinds | src/attr.c:149-159 | one bucket is enough to find what a search of the whole list finds |
| AttrIndex.BucketsHoldEachOnce | src/element.c:302-304 | a walk over all buckets meets each attribute exactly once |
| AttrIndex.IndexedAdd | src/attr.c:296-307 | adding to the end of a bucket and anywhere in the list keeps both in agreement |
| AttrIndex.DefsInsert | src/attr.c:299-307 | the definitions of the list follow the order of insertion |
| AttrIndex.AttrTable.AttrLookup | src/attr.c:149-159 | finds what a linear search of the sorted list would |
| AttrIndex.AttrTable.PlaceOf | src/attr.c:299-305 | the place of a new attribute |
| AttrIndex.AttrTable.Track | src/attr.c:296-307 | enters both structures and the count |
| AttrIndex.AttrTable.AttrUpdate | src/attr.c:272-327 | unknown definitions change nothing, known attributes keep their place, new ones are inserted in order; readings are entered as flagged |
| AttrIndex.CollectsIff | src/attr.c:161-172 | history is kept of both keys and where the configuration asks for it, and of nothing else |
| AttrIndex.StartsBlank | src/attr.c:286-325 | a new attribute starts at zero and is enabled in the directions that were read |
| AttrIndex.EnteredReadings | src/attr.c:310-325 | a reading shows in its own direction; the other one stays as it was |
| Notify.UpdateAll | src/attr.c:629-630 | every history of an attribute gets the same totals |
| Notify.AttrNotifyUpdate | src/attr.c:606-632 | accounts the reading and then updates every history with the new totals |
| Notify.AccountedTotals | src/attr.c:606-632 | a counter accumulates its readings, any other attribute is what it reads |
| Notify.OwnTotals | src/attr.c:629-630 | an accepted update leaves each direction with its own total as the base |

## Left out

- Elements.Monitor.ElementFree: the infos and attributes of a freed element are not released, and `g_nelements` is not an unsigned int that could wrap.
- Elements.Monitor.CheckTree: `src/group.c:47` reads the child list of an element the callback may have freed; the model reads the emptied list that the freed element had.
- Elements.Monitor.ElementLookup: of the element configuration only its verdict is used; the infos and limits made from it are left out; a parent is taken to belong to the same group.
- Elements.Monitor.ElementLifesign: `get_lifecycles` is a parameter.
- Wildcard.MatchMask: `tolower` is that of the C locale.
- FormatTokens.FormatOutput.DrawElement: what a field stands for (`get_token`, `src/out_format.c:54-143`) is a parameter, and the 128 characters of its buffer are not a limit.
- Timing.MainLoop: the read interval is given as a timestamp (`float_to_timestamp` is left out), the clock is any finite list of readings, and the sleep itself is left out.
- Counters.Rate.CalcCounterRate: rates are exact reals, so no estimate may divide by a time difference of zero; it never does if the rate interval exceeds its variance, which the runs take for granted.
- History.Ring.StoreData: rates are exact reals, so a delta is not rounded to a float before it is divided, and a quotient beyond 64 bits, whose conversion C leaves open, is reduced to the width of the cell.
- History.Ring.Update: time must have advanced if a difference is divided by it; C would divide by zero, or convert a negative number.
- Graph.FillTable: values are exact, not doubles; `graph_refill` is just one call for each direction.
- Notify.AttrNotifyUpdate: the same divisions by time, of its rates and of its histories.
- AttrIndex.AttrTable.AttrUpdate: definitions are compared by value, which is the same as by address because their ids are unique; ids are not negative.
- The lists of elements, groups, attributes and histories are sequences in the models of their owners; `Lists.dfy` shows that the linked lists refine sequences.
- `attr_select_last` and `attr_select_prev` form an attribute from the list head itself, so that no useful contract exists; the other attribute selections are simple.
- Groups are not freed: they live as long as the program. Of their headers only the existence of a title matters.
- The input modules, curses and ASCII output, key handling, configuration reading, units, signals and exit paths.
- Memory allocation never fails.
- The debugging output and code disabled by `#if 0`.
