# Verified models of the planning and audit scripts

This project models the algorithms inside the repository's Python tooling and proves what they are for.

* **Crate-split planner** (`scripts/analyze_root_crate.py`): Tarjan's strongly connected components, the
  Eades-Lin-Smyth order, and the report that says which references to cut and what evicting a module costs.
  `Graphs.dfy`, `Weights.dfy`, `Tarjan.dfy`, `Eades.dfy`, `CrateSplit.dfy`.
* **Sponsor signup service** (`scripts/mock_sponsor_service.py`): the signed token with its base64url text
  (section 5 of RFC 4648; padding stripped and recomputed, section 3.2) and the two tables under any sequence of
  requests. `Base64Url.dfy`, `SponsorToken.dfy`, `SponsorService.dfy`.
* **Memory benchmark** (`scripts/bench_memory_cli.py`): the process-tree closure and the terminal-query rewriting.
  `ProcessTree.dfy`, `TerminalQueries.dfy`.
* **Panic budget** (`scripts/check_panic_budget.py`): which lines of a file are counted, for any three line patterns
  (`PanicBudget.dfy`) and for the script's own (`RustPatterns.dfy`).
* **Browser fixture** (`scripts/benchmark_browser_handoff.py`): one trial's state and its verdict. `BrowserFixture.dfy`.
* **Reload audit** (`scripts/reload_recovery_audit.py`): correlation of log lines, trace events and durable records,
  and the verdict on each record. `ReloadAudit.dfy`.
* **Fit probe** (`scripts/mermaid_fit_probe.py`): zoom, scroll and the contained rectangle. `FitProbe.dfy`.

`Text.dfy` holds the shared text functions. `dafny verify dfyconfig.toml` checks everything.

## How the models are built

Code that updates variables is a class or a method with a loop, proved against functions or relations on values;
the theorems are lemmas about those. Where the code iterates over a set, or breaks a tie, the model leaves the choice
open, so every result holds for every iteration order and every tie-break, in particular for sorted order.

*Tarjan.* `Search` has the shared variables of the closure; `grey` (calls in progress) and `done` (modules already
emitted) are ghost. `StrongConnect` is cut into `Enter`, `ScanSuccessors`, `VisitSuccessor`, `EmitComponent` and
`PopUntil`, in the order of the code. Termination: every call indexes a fresh module. The graph may mention modules
that are not keys, and self-loops, as `graph.get(v, ())` allows; results cover every module mentioned.

*Eades.* A run is the sequence of its removals, each labelled as sink, source or greedy pick (`Run`, `Allowed`), and
`EadesOrder` is proved to perform such a run and to return its order. All theorems are about every such run. Nothing
but closedness of the edges is assumed: self-loops and weight 0 are allowed.

*Report.* `AnalyzeCycles` puts the parts together. The report promises that inverting or cutting the backward edges
makes the cycle a DAG. `Rework` takes the edges out and puts any chosen ones of them back turned round; proved, for every
choice, is more than the promise: no member is then on any cycle of the whole module graph, and that graph is a DAG
exactly when the cycle was the only one. The report's line that a module leaves its cycle once all its out-edges into the
cycle are inverted or cut is proved in both directions, again for every choice between inverting and cutting.

*Service.* A request is one atomic step (`Step`), and `Service` is proved to take exactly those steps. A run is any
sequence of requests, which covers all interleavings of the handlers' transactions; decoding a token touches no table.
HMAC (RFC 2104), the nonce hash and JSON are arbitrary functions, JSON with `loads` undoing `dumps`.

## Where the code and its description differ

Each of these has an exact condition, proved in both directions, and an input on which the code does not do what it says.

* The panic budget is said to exclude `#[cfg(test)]` blocks from the counts. Take a guard and the first line behind the
  guard's line that is neither blank nor an attribute, the item. Adding them to a file changes no *count*, whatever
  follows, exactly when the attribute lines in between have no panic use, a `mod` or `fn` (behind `pub` at most) closes
  its braces and has no panic use behind its first close, and any other item has none at all
  (`PanicBudget.GuardedItemIsCountFreeIff`, for the script's patterns `RustPatterns.GuardedRustItemIsCountFreeIff`, both
  with no second guard behind the first; `PanicBudget.GuardIsCountFreeIff` is without that restriction and
  `PanicBudget.BlockIsCountFreeIff` is for every block of lines). It fails on: an `impl` with panic uses
  (`RustPatterns.GuardedImplIsCounted`), a `fn` whose brace opens on a later line (`BraceOnLaterLineIsCounted`), a closing
  brace in a string (`EarlyCloseIsCounted`), an opening one, which leaves production code uncounted
  (`UnclosedBlockSwallowsTheRest`), a panic use in an attribute (`AttributeIsCounted`), and an item on the guard's own
  line, which is not seen as one (`ItemOnGuardLineIsCounted`). None of these *lines* is kept, and every other is,
  exactly when the guard's line is directly followed by a `mod` or `fn` whose braces first close on its last line
  (`PanicBudget.GuardedItemIsFreeIff`, `RustPatterns.GuardedRustItemIsFreeIff`); a `mod` behind a path attribute keeps
  that line and still changes no count (`RustPatterns.PathAttributeIsKept`).
* The reload audit's header says that claimed intents without acceptance evidence are flagged. They are flagged exactly
  when the durable record read last for the reload and session does not say pending
  (`ReloadAudit.ClaimedWithoutEvidenceIsSuspectIff`); one claimed line and one pending durable record give the verdict
  Pending (`ClaimedButPendingIsNotFlagged`).
* Signup trims the e-mail address, the account query does not. After a confirm, asking with the address as typed at
  signup gets the account's answer exactly when there was nothing to trim
  (`SponsorService.ConfirmedAccountIsFoundAsTypedIff`); " a@b" is confirmed and then not found
  (`SpacedAddressIsNotFound`).
* The browser fixture counts refused requests as steps of the route. A history holds a walk of the route that was
  answered at every step exactly when the verdict's cursor reaches the end on the answered requests alone
  (`BrowserFixture.SomeWalkAnsweredIff`; for one given walk `WalkAnsweredIff`). A search trial that succeeds without its
  item page is `SuccessWithoutItemPage`, a navigation trial that succeeds on the receipt page alone
  `PostedNavigationSucceeds`. No trial is refused wrongly (`AnsweredWalkSucceeds`).

## Model

| member | source | states |
|---|---|---|
| Tarjan.StronglyConnectedComponents | scripts/analyze_root_crate.py:271-315 | For every graph the lists partition the modules mentioned; two modules share a list exactly when each reaches the other; every edge leads to its own or an earlier list. |
| Tarjan.Search.StrongConnect | scripts/analyze_root_crate.py:290-310 | A call keeps the search invariant and older low-links, indexes its module, and leaves it on the stack exactly when a lower stack entry is reachable; no edge from what it left on the stack goes below its low-link. |
| Tarjan.Search.ScanSuccessors | scripts/analyze_root_crate.py:296-301 | After the loop the low-link is the index of a reachable stack entry and bounds every edge from the module's part of the stack downwards. |
| Tarjan.Search.PopUntil | scripts/analyze_root_crate.py:303-309 | Pops exactly the stack from the module upwards, newest first, and clears their on_stack flags. |
| Tarjan.TailIsRootsClass | scripts/analyze_root_crate.py:302-310 | If the low-link is the module's own index, the stack from it upwards is exactly the set of modules mutually reachable with it. |
| Tarjan.TailLeadsToDone | scripts/analyze_root_crate.py:302-310 | In that case edges leave this part of the stack only into components already emitted. |
| Tarjan.PushKeepsInv | scripts/analyze_root_crate.py:291-295 | Entering a module that all calls in progress reach keeps the invariant. |
| Tarjan.FinishKeepsInv | scripts/analyze_root_crate.py:296-302 | Returning without popping keeps it: every stack entry still reaches a call in progress at or below its index. |
| Tarjan.PopKeepsInv | scripts/analyze_root_crate.py:302-310 | Popping a component keeps it. |
| Tarjan.ScanningAfterCall | scripts/analyze_root_crate.py:297-299 | Taking the minimum with the callee's low-link keeps the loop invariant, popped or not. |
| Tarjan.ScanningAfterLook | scripts/analyze_root_crate.py:300-301 | Taking the minimum with an index only for modules on the stack keeps it. |
| Tarjan.AppendClass | scripts/analyze_root_crate.py:310 | Appending the class keeps the list of components disjoint, maximal and leaves first. |
| Tarjan.NothingLeftOnStack | scripts/analyze_root_crate.py:312-315 | When no call is in progress nothing is left on the stack, and every module mentioned has been emitted. |
| Graphs.NoSinkMakesCycle | scripts/analyze_root_crate.py:501-505 | A nonempty set in which every module has a successor contains a module on a cycle. |
| Graphs.AcyclicIffSingletonClasses | scripts/analyze_root_crate.py:271-278 | No cycle exactly when there is no self-loop and no two modules reach each other. |
| Weights.SomeNodeHasNoDeficit | scripts/analyze_root_crate.py:515-519 | In every nonempty remaining set some node gives out at least the weight it takes in. |
| Eades.EadesOrder | scripts/analyze_root_crate.py:483-522 | Terminates with a permutation of the nodes that has at most half of the weight backwards and is topological exactly when the graph has no cycle; it is the order of a run in which sinks go right, sources left, and a best-scoring node is picked only when neither is left. |
| Eades.MoveSinks | scripts/analyze_root_crate.py:501-505 | A pass removes only sinks; if it changes nothing, no remaining node is a sink. |
| Eades.MoveSources | scripts/analyze_root_crate.py:506-511 | A pass removes only sources; if it changes nothing, no remaining node is a source. |
| Eades.BestPick | scripts/analyze_root_crate.py:519 | Returns a remaining node of maximal score, whatever the iteration order. |
| Eades.OutWeight | scripts/analyze_root_crate.py:516 | The weight of a node's edges to remaining nodes. |
| Eades.InWeight | scripts/analyze_root_crate.py:517 | The weight of remaining nodes' edges into a node. |
| Eades.OrderListsNodes | scripts/analyze_root_crate.py:486-522 | In every run the order lists every node exactly once. |
| Eades.BackwardIffPickedBefore | scripts/analyze_root_crate.py:496-522 | In every run an edge points backwards exactly when its target was taken by the greedy pick while its source remained. |
| Eades.PickTakesInNoMore | scripts/analyze_root_crate.py:515-521 | A greedy pick takes in no more weight from the remaining nodes than it gives out. |
| Eades.BackwardIsAtMostHalf | scripts/analyze_root_crate.py:483-522 | In every run the backward edges carry at most half of the total weight. |
| Eades.PicksExactlyOnCycles | scripts/analyze_root_crate.py:496-522 | The greedy pick is never reached, and the order is topological, exactly when the graph has no cycle. |
| Eades.CutLeavesNoCycle | scripts/analyze_root_crate.py:431-443 | Without its backward edges the graph has no cycle, for any order, exactly when no node links to itself. |
| CrateSplit.AnalyzeCycles | scripts/analyze_root_crate.py:400-437 | Components of the module graph; no cycle is reported exactly when it is a DAG; else the edges reported are references inside the largest cycle, their total is that of the reference counts and at most half of all the counts there, and however they are inverted or cut, the cycle's members are on no cycle, and the whole is a DAG exactly when that cycle was the only one. |
| CrateSplit.LargestCycle | scripts/analyze_root_crate.py:406-422 | Picks a component with more than one module and the most lines, or none if there is none. |
| CrateSplit.LocAddsUp | scripts/analyze_root_crate.py:408-422 | A cycle's lines are those of its members together. |
| CrateSplit.CutsFor | scripts/analyze_root_crate.py:425-437 | The edges to invert or cut in one cycle are the backward ones of an order of its members, their total weight is the sum of the reference counts and at most half of those in the cycle, and what the report says about them holds. |
| CrateSplit.WeightsAreRefs | scripts/analyze_root_crate.py:425-428 | The weights of a cycle's edges are the reference counts of the scan, one where none was counted. |
| CrateSplit.TwoModuleCycle | scripts/analyze_root_crate.py:425-437 | For two modules that refer m and n times to each other the reported total is the smaller of m and n. |
| CrateSplit.BackEdges | scripts/analyze_root_crate.py:430-437 | Collects exactly the edges whose target comes first in the order, and their total weight. |
| CrateSplit.NoCyclesReportedIffDag | scripts/analyze_root_crate.py:406-411 | All components have one module exactly when a graph without self-loops has no cycle. |
| CrateSplit.CutsClearTheClass | scripts/analyze_root_crate.py:438-443 | However the reported edges are inverted or cut, no member of the cycle is left on any cycle of the whole graph, also through other modules. |
| CrateSplit.ClassWalkIsInner | scripts/analyze_root_crate.py:438-443 | A walk between members of a cycle never leaves it, so no cycle through other modules is overlooked. |
| CrateSplit.CutsMakeDagIff | scripts/analyze_root_crate.py:438-443 | However the reported edges are inverted or cut, a DAG is left exactly when the cycle worked on was the only one. |
| CrateSplit.EvictedIffAllCycleEdgesCut | scripts/analyze_root_crate.py:450-454 | Inverting or cutting out-edges of a module takes it out of its cycle exactly when all its edges to other members are among them. |
| CrateSplit.EvictionListIsExact | scripts/analyze_root_crate.py:456-463 | The out-edges listed for a member are exactly those that must be inverted or cut. |
| CrateSplit.EvictionShowsInNextReport | scripts/analyze_root_crate.py:465-470 | The components of the changed graph list the module alone exactly when all its edges to other members were inverted or cut. |
| CrateSplit.EvictionCost | scripts/analyze_root_crate.py:456-463 | The number and total weight of a member's out-edges in the cycle. |
| CrateSplit.EvictionCostIsRefs | scripts/analyze_root_crate.py:456-463 | These are the references to other members of the cycle and their counts. |
| Base64Url.DecodeEncode | scripts/mock_sponsor_service.py:30-43 | Reading what was written gives the bytes back, for every length. |
| Base64Url.PaddingRoundTrip | scripts/mock_sponsor_service.py:30-43 | The padding recomputed from the length is exactly the padding stripped. |
| Base64Url.EncodeShape | scripts/mock_sponsor_service.py:30-37 | Encoded text is a multiple of four long and holds no "." and no non-ASCII character. |
| Base64Url.QuadIsNumber | scripts/mock_sponsor_service.py:30-32 | Three bytes, read as one number, are written in four digits of 64. |
| Base64Url.CharOfIsAlphabet | scripts/mock_sponsor_service.py:30-32 | The digits are those of the URL-safe alphabet, in its order. |
| Base64Url.DecodeSkips | scripts/mock_sponsor_service.py:39-43 | The reader skips every character that is neither a digit nor padding, in every state. |
| Base64Url.PaddingEnds | scripts/mock_sponsor_service.py:39-43 | Padding that completes a group ends the text, whatever follows; a group never completed is refused. |
| SponsorToken.TokenRoundTrip | scripts/mock_sponsor_service.py:29-49 | An encoded token decodes to its payload until and including its expiry second, and is refused as expired after it. |
| SponsorToken.DecodeParts | scripts/mock_sponsor_service.py:37-48 | body.signature is refused unless the signature is the body's code, and is otherwise judged by the body's expiry alone, a missing expiry being 0. |
| SponsorToken.DecodeTokenIff | scripts/mock_sponsor_service.py:35-49 | For every text: accepted, or refused as expired, exactly when it parts at its first dot into a readable body and its code in ASCII, by the expiry; all else is refused as invalid. |
| SponsorToken.Utf8LengthIs | scripts/mock_sponsor_service.py:38-43 | The padding of a body counts its characters in UTF-8. |
| SponsorToken.TamperedBodyRefused | scripts/mock_sponsor_service.py:39-42 | Another readable body before a token's signature is refused as invalid exactly when its authentication code differs. |
| SponsorService.SignupAcceptedIff | scripts/mock_sponsor_service.py:86-103 | A signup gets a link exactly when the address as typed has an "@" and the trimmed source is absent or at most 100 ASCII characters; else it is refused. |
| SponsorService.Service.Confirm | scripts/mock_sponsor_service.py:130-149 | The transaction's effect on both tables and its answer, for every token text; refusals change nothing. |
| SponsorService.RecordKeepsExplained | scripts/mock_sponsor_service.py:136-145 | One accepted confirm keeps the tables explained by the confirmed tokens. |
| SponsorService.TablesExplainedByConfirms | scripts/mock_sponsor_service.py:52-59 | Over every run from empty tables: no nonce consumed twice; consumed nonces and account e-mails are those of the confirmed tokens; each account has the via of the first one. |
| SponsorService.RowsAreImmutable | scripts/mock_sponsor_service.py:138-145 | No run ever changes or removes a row of either table. |
| SponsorService.OnlyAcceptedConfirmsWrite | scripts/mock_sponsor_service.py:82-161 | A request changes the tables exactly when it is a confirm answered with success. |
| SponsorService.MagicLinkWorksExactlyOnce | scripts/mock_sponsor_service.py:86-149 | Whatever runs before and after: within its 300 seconds a fresh link confirms, the account then shows the signup's trimmed source or its own older one for ever, the link's nonce is kept with its time, and the link is refused from then on without any change. |
| SponsorService.LinkConfirmsIff | scripts/mock_sponsor_service.py:86-149 | On any tables and at any time, a signup's link is confirmed exactly when it is neither expired nor used. |
| SponsorService.ConfirmedAccountIsFoundAsTypedIff | scripts/mock_sponsor_service.py:88-155 | After a signup, its confirm and any later requests, the account is found under the address as typed exactly when nothing was to be trimmed. |
| SponsorService.AccountFoundInAnyCase | scripts/mock_sponsor_service.py:88-155 | After a confirm and any later requests the account is found under exactly the texts that equal the trimmed address up to the case of letters, and is stored without capitals. |
| Text.LowerEqualIff | scripts/mock_sponsor_service.py:88-151 | Two texts have the same lower case exactly when they differ only in the case of letters, 32 apart. |
| Text.StripCuts | scripts/mock_sponsor_service.py:88-91 | Strip cuts white space off both ends and leaves none there. |
| SponsorService.SpacedAddressIsNotFound | scripts/mock_sponsor_service.py:88-155 | The address " a@b" gets a link, the link an account, and the query with " a@b" finds none. |
| ProcessTree.ChildrenOf | scripts/bench_memory_cli.py:289-291 | The child lists hold every process under its parent and nothing else. |
| ProcessTree.CollectDescendants | scripts/bench_memory_cli.py:287-300 | Terminates with the least set that has the roots and is closed under children, for any process table. |
| ProcessTree.ClosureIsWhatRootsReach | scripts/bench_memory_cli.py:287-300 | That set is exactly what some root reaches from parent to child. |
| TerminalQueries.ReplyQueries | scripts/bench_memory_cli.py:147-174 | Terminates for every buffer; buffer and answers are those of passes over the table until one answers nothing; no query occurs in the result; the bytes written are the responses in that order. |
| TerminalQueries.PassInTableOrder | scripts/bench_memory_cli.py:168-173 | A pass answers in table order, no query twice, and answers nothing exactly when no query of the table occurs. |
| TerminalQueries.PassesClean | scripts/bench_memory_cli.py:166-174 | What the passes leave holds no query, and every answer was to a query present at its moment. |
| TerminalQueries.RemoveShortens | scripts/bench_memory_cli.py:170-172 | Removing a query that occurs takes at least its length; removing one that does not changes nothing. |
| TerminalQueries.RemoveAtFirst | scripts/bench_memory_cli.py:172 | Removal cuts out the leftmost occurrence, keeps what is before it and goes on behind it. |
| TerminalQueries.AnswersAreBounded | scripts/bench_memory_cli.py:166-174 | No more answers than bytes removed; a buffer without queries is returned as it is and answered with nothing. |
| TerminalQueries.RemovalCanRevealAQuery | scripts/bench_memory_cli.py:166-173 | Removing one query of the table can make another appear, so one pass is not enough. |
| TerminalQueries.TableHasNoEmptyQuery | scripts/bench_memory_cli.py:148-165 | The table meets the one assumption on it: no query is empty. |
| PanicBudget.ClassifyLine | scripts/check_panic_budget.py:85-104 | The skip stack is always empty or one positive number, and one line is one step of a scan with a single counter. |
| PanicBudget.ProductionLines | scripts/check_panic_budget.py:79-105 | Returns what the one-counter scan keeps. |
| PanicBudget.BraceDeltaIs | scripts/check_panic_budget.py:70-77 | A line's delta is the number of its opening braces less that of its closing ones. |
| PanicBudget.EndsWaitIff | scripts/check_panic_budget.py:95-96 | A line ends the wait for an item exactly when its first character that is no white space is there and no "#". |
| PanicBudget.FirstCloseIff | scripts/check_panic_budget.py:101-104 | The block closes at the first line after which the running count of braces, opening less closing, is no longer positive. |
| PanicBudget.GuardedItemHides | scripts/check_panic_budget.py:85-105 | Exactly what a guarded mod or fn takes out, for every text behind it: up to its first closing line, its first line only, or the whole rest. |
| PanicBudget.GuardBeforeOtherItem | scripts/check_panic_budget.py:89-99 | A guard before any other item hides its own line only, whatever the item's braces. |
| PanicBudget.HiddenItemsIff | scripts/check_panic_budget.py:85-105 | A block of lines keeps no line and leaves no state behind exactly when it is guards, each run of them followed by a mod or fn that closes within the block. |
| PanicBudget.BlockIsFreeIff | scripts/check_panic_budget.py:79-105 | Exactly such blocks can be spliced in without changing which other lines are counted. |
| PanicBudget.GuardedItemIsFreeIff | scripts/check_panic_budget.py:79-105 | With no second guard behind the first: no line of guard, attributes and item is kept, and every other line is, exactly when there are no attribute lines between and the item is a mod or fn whose braces first close on its last line. |
| PanicBudget.BlockIsCountFreeIff | scripts/check_panic_budget.py:79-111 | A block of lines changes no file's panic count, whatever follows, exactly when no line kept of it has a panic use and it leaves no guard open or pending. |
| PanicBudget.GuardIsCountFreeIff | scripts/check_panic_budget.py:79-111 | The effect of any guard on the count: it changes none exactly when its attributes have no panic use, a mod or fn closes, and what is left behind a mod or fn, or any other item whole, changes none itself. |
| PanicBudget.GuardedItemIsCountFreeIff | scripts/check_panic_budget.py:79-111 | With no second guard behind the first: no count changes exactly when there is no panic use in the attributes, nor behind the first close of a mod or fn, which must close, nor anywhere in any other item. |
| PanicBudget.SplicedTestItemIsFree | scripts/check_panic_budget.py:79-111 | Splicing in a guarded item that closes on its last line changes neither the production lines nor the panic count. |
| PanicBudget.CountedWholeIffNoGuard | scripts/check_panic_budget.py:85-105 | A file is counted whole exactly when no line of it is a guard. |
| PanicBudget.OutputIsShorter | scripts/check_panic_budget.py:108-111 | Skipping never adds lines or panic uses, from any scan state. |
| RustPatterns.GuardedRustItemIsFreeIff | scripts/check_panic_budget.py:28-30 | The exact condition on lines for the script's own three patterns, any guard line and any attributes between. |
| RustPatterns.CfgTestIff | scripts/check_panic_budget.py:29 | A guard is a line that begins with the words of a cfg(test or cfg(all(test attribute, with any white space before each. |
| RustPatterns.ItemStartIff | scripts/check_panic_budget.py:30 | An item line is white space, at most one pub with its restriction, then mod or fn as a whole word. |
| RustPatterns.PanicUseIff | scripts/check_panic_budget.py:28 | A panic use is one of two calls anywhere, or one of three macros not inside a longer word. |
| RustPatterns.GuardedRustItemIsCountFreeIff | scripts/check_panic_budget.py:28-30 | The exact condition on counts for the script's own three patterns, any guard line and any attributes between. |
| RustPatterns.AttributeIsCounted | scripts/check_panic_budget.py:95-99 | An attribute between guard and item is kept, and a panic use in its text counted. |
| RustPatterns.ItemOnGuardLineIsCounted | scripts/check_panic_budget.py:97-99 | A fn on the guard's own line is counted from its second line on. |
| RustPatterns.AttributedModIsCountFree | scripts/check_panic_budget.py:89-99 | A mod of its own file behind an attribute without panic use keeps the attribute line and changes no count. |
| RustPatterns.PathAttributeIsKept | scripts/check_panic_budget.py:89-99 | So for the path attribute and mod of crates/mona-provider-copilot-runtime/src/lib.rs:1193-1195. |
| RustPatterns.GuardedImplIsCounted | scripts/check_panic_budget.py:30 | A guarded impl is kept whole, and every panic use of its body counted. |
| RustPatterns.BraceOnLaterLineIsCounted | scripts/check_panic_budget.py:90-94 | A guarded fn whose first line opens no brace is counted from its second line on. |
| RustPatterns.EarlyCloseIsCounted | scripts/check_panic_budget.py:70-77 | A closing brace in a string ends the hidden part early, and an unwrap behind it is counted. |
| RustPatterns.UnclosedBlockSwallowsTheRest | scripts/check_panic_budget.py:70-77 | An opening brace in a string keeps the block open, and a production fn behind it is not counted, nor its unwrap. |
| BrowserFixture.Trial.Handle | scripts/benchmark_browser_handoff.py:63-136 | Every request is recorded; the flags always say what the recorded requests say; exactly the right requests get a page. |
| BrowserFixture.Trial.ServerOutcome | scripts/benchmark_browser_handoff.py:166-177 | Success exactly when the route is a subsequence of the recorded steps, the receipt was served and the last submission was right. |
| BrowserFixture.RoutesAre | scripts/benchmark_browser_handoff.py:166-169 | The steps each trial must show in order, written out. |
| BrowserFixture.OrdinaryNavigation | scripts/benchmark_browser_handoff.py:63-177 | The navigation trial walked as meant succeeds with every page served. |
| BrowserFixture.OrdinarySearch | scripts/benchmark_browser_handoff.py:63-177 | The search trial with the asked fields, walked as meant, succeeds with every page served. |
| BrowserFixture.OrdinaryForm | scripts/benchmark_browser_handoff.py:63-177 | The form trial with the asked fields, walked as meant, succeeds with every page served. |
| BrowserFixture.GreedyMatchesIff | scripts/benchmark_browser_handoff.py:170-177 | The greedy cursor reaches the end exactly when the route is a subsequence of the steps. |
| BrowserFixture.LastSubmissionIff | scripts/benchmark_browser_handoff.py:91-110 | A validity flag is set exactly when some earlier submission with exactly the expected fields has not been replaced by a later one. |
| BrowserFixture.ReceiptServedIff | scripts/benchmark_browser_handoff.py:114-116 | In every reachable state the receipt was served exactly when some request asked for it in a navigation or while a correct submission stood. |
| BrowserFixture.SuccessMeansCorrectSubmission | scripts/benchmark_browser_handoff.py:166-177 | A search or form trial succeeds exactly when route, a receipt served on a correct submission, and a correct submission still standing at the end are all in the recorded requests. |
| BrowserFixture.WalkAnsweredIff | scripts/benchmark_browser_handoff.py:84-136 | The steps of a walk of the route all got their page exactly when each came with its method and a correct submission stood at the item page and the receipt. |
| BrowserFixture.SomeWalkAnsweredIff | scripts/benchmark_browser_handoff.py:166-177 | A history holds a walk of the route answered at every step exactly when the verdict's cursor, run over the answered requests only, reaches the end. |
| BrowserFixture.AnsweredWalkSucceeds | scripts/benchmark_browser_handoff.py:166-177 | A trial with such a walk, and its submission still standing, is a success. |
| BrowserFixture.SuccessWithoutItemPage | scripts/benchmark_browser_handoff.py:166-177 | A search trial can succeed though its item page was never served, so with no walk of its route answered. |
| BrowserFixture.PostedNavigationSucceeds | scripts/benchmark_browser_handoff.py:166-177 | A navigation trial can succeed though none of its pages but the receipt was served. |
| ReloadAudit.Audit.Add | scripts/reload_recovery_audit.py:206-241 | Files one event under its reload and session. |
| ReloadAudit.Audit.ParseLogs | scripts/reload_recovery_audit.py:244-412 | The records are those of the log's attributed events, and every session's latest reload has a record for it. |
| ReloadAudit.Audit.ParseTraces | scripts/reload_recovery_audit.py:415-461 | Adds the events of the known trace phases that name a reload and a session. |
| ReloadAudit.TraceHasIff | scripts/reload_recovery_audit.py:415-461 | Over any trace lines an event of a kind is there for a key exactly when a line of that kind's phase names session and reload, or lacks the reload in a file of its name; no other phase leaves one. |
| ReloadAudit.OneTraceVerdict | scripts/reload_recovery_audit.py:415-461 | The verdict on a trace of one line, by its phase. |
| ReloadAudit.Audit.MergeDurableRecords | scripts/reload_recovery_audit.py:464-485 | Merges the durable records one by one. |
| ReloadAudit.RecordHoldsItsEvents | scripts/reload_recovery_audit.py:206-241 | A record holds exactly the events of its reload and session, by kind and in order; of persisted and claimed ones the last. |
| ReloadAudit.LogEventsByLastReload | scripts/reload_recovery_audit.py:328-399 | A session line is filed under the reload named by the last line before it that names one for its session. |
| ReloadAudit.RecordsAreNamedByOneLine | scripts/reload_recovery_audit.py:258-399 | After the logs a record exists exactly for the reload and session pairs that one line names: session lines only attach. |
| ReloadAudit.OkIffEvidence | scripts/reload_recovery_audit.py:121-154 | Record keys match their fields, and a record is ok exactly when it was before or one of its events is evidence. |
| ReloadAudit.ReportedOkIffEvidence | scripts/reload_recovery_audit.py:607-610 | In the final report a record is ok exactly when a log line or trace event attributed to it is evidence. |
| ReloadAudit.OkIsFinal | scripts/reload_recovery_audit.py:141-145 | An ok verdict survives all later events and durable records. |
| ReloadAudit.DurableIsNoEvidence | scripts/reload_recovery_audit.py:464-485 | Durable records neither make a record ok nor take that back. |
| ReloadAudit.ClaimedWithoutEvidenceIsSuspectIff | scripts/reload_recovery_audit.py:141-149 | A reload and session with a claimed line and no evidence in log and traces is flagged exactly when the durable record read last for it does not say pending. |
| ReloadAudit.ClaimedButPendingIsNotFlagged | scripts/reload_recovery_audit.py:141-149 | A claimed log line and a pending durable record give the verdict Pending. |
| ReloadAudit.StatusIsThatOfLastDurable | scripts/reload_recovery_audit.py:464-485 | The durable record read last for a key decides its status and delivery time, and a record exists exactly if events or a durable record name the key. |
| ReloadAudit.ReportedVerdict | scripts/reload_recovery_audit.py:141-154 | For every log, trace and durable input, each of the seven verdicts is given exactly for the events filed under the key and its last durable status. |
| ReloadAudit.OneLineVerdict | scripts/reload_recovery_audit.py:141-154 | The verdict on a log of one line, by its kind. |
| ReloadAudit.SaysQueuedIff | scripts/reload_recovery_audit.py:121-129 | A flow event says queued exactly when its detail has one of two texts, in letters of either case. |
| ReloadAudit.SaysAcceptedIff | scripts/reload_recovery_audit.py:131-139 | It says accepted exactly when its detail has one of two texts, letter for letter. |
| ReloadAudit.ReportedRoleIsFirst | scripts/reload_recovery_audit.py:206-218 | The reported role is the first one given, by the log, then the traces, then the durable records. |
| FitProbe.ScrollIsCentred | scripts/mermaid_fit_probe.py:64-72 | For an image larger than the view the scrolled view stays inside it and is off the middle by less than one zoomed cell. |
| FitProbe.ZoomedSizes | scripts/mermaid_fit_probe.py:64-72 | The view is the pane at that zoom rounded down, the scrolled cell its own size rounded up. |
| FitProbe.FitZoomIsLargestFit | scripts/mermaid_fit_probe.py:34-45 | The fit zoom is the smaller axis fill zoom and the largest percentage in 1..1000 that fits both axes, 1 if none does. |
| FitProbe.AxisFillIsLargest | scripts/mermaid_fit_probe.py:34-37 | The fill zoom of an axis is the largest percentage in 1..1000 that fits it, 1 if none does. |
| FitProbe.ContainedRectSpansAnAxis | scripts/mermaid_fit_probe.py:48-61 | The contained rectangle is not empty, lies in the pane and spans it on one axis. |
| FitProbe.ContainedRectIsCentredAndScaled | scripts/mermaid_fit_probe.py:48-61 | It is centred up to one cell; the axis with less room fills the pane, the other has the least number of cells that hold the image at that scale. |

## Left out

- Reading and parsing: walking `src/`, the regular expressions other than the panic budget's, `classify_facade`, `outbound_refs`, JSON text and the command lines; their results are inputs of the model.
- Output order: sorting back edges, evictions, cycles and records for printing, and the limits on printed lines.
- Eades: the unused first totals `in_w` and `out_w`, which only demand that every edge target is a node (`Closed`).
- Python's recursion limit in `strongly_connected_components`; the model's recursion is unbounded.
- White space and letter case beyond ASCII in `strip`, `lower` and `splitlines`.
- The service: HTTP, the discovery and health pages, SQLite's own behaviour, JSON members of unexpected types, the strength of HMAC and the hash. Each transaction is one step that changes nothing if it raises.
- TamperedBodyRefused: about readable bodies only, and says nothing on finding a body with the same code.
- Base64Url: the decoder follows Python's documented lenient reading; its error texts are not modelled.
- ReloadAudit: records are values in a map, so the sharing of a record object between tables is not modelled; neither are event texts, file names, line numbers restarting in each file, hidden-send lines, transcript markers and the table layout.
- BrowserFixture: page bodies, the client-side script, the time of the visible signal, and requests with other paths or unknown trials.
- PanicBudget: which files are read, the baseline file and the comparison with it. `RustPatterns` writes the three expressions out for ASCII white space and word characters.
- FitProbe: floating-point rounding (exact rationals instead), `plan`'s utilization thresholds and the image-file inspection.
- The process table is read once; memory sampling, process groups and terminals are not modelled.
- The other budget checkers, benchmarks and dashboards under `scripts/`, and the Rust crates.
