# Verified model of the hrx-system build and CI tooling

The project models the parts of the repository's tooling where a mistake is silent: the recursion
report that follows clang-tidy, the Bazel-to-CMake converter with its library graph, conditional
values, Loom profiles, dependency lock, module loader and package tree, the Windows command-line
quoter and the MSVC response-file rewrapper, the crash-dump registry lease, and the publication of a
release. Each file `X.dfy` holds one module `X`.

| area | modules |
|---|---|
| recursion report | `Digraph`, `CallGraph`, `Components`, `WitnessCycle`, `RecursionReport` |
| library graph | `Dedupe`, `LibraryGraph`, `LibraryResolver`, `LinkOrder` |
| conditions and selects | `Conditions`, `Guards`, `SelectStaging`, `Profiles`, `ProfileMembers` |
| command lines | `CommandLine`, `WindowsQuoting`, `ResponseFile`, `ResponseLines` |
| dependency lock | `LockText`, `CMakeLock`, `LockCheck` |
| module loading, package tree | `ModuleLoader`, `ModuleAnswers`, `SourceWalk`, `PackageTree` |
| crash-dump registry, release | `RegistryLease`, `ReleasePublication` |
| shared | `Optional`, `Sequences` |

Code that works by changing variables is a method with loops or a class with fields, proved against a
specification function or predicate. Python exceptions are `None`, `Failed`, `Cycle` and similar
results. Registry calls, remote calls and allocations that can fail at any moment are modelled by a
budget of successful calls, by unconstrained choices, or by a flag.

What the proofs found out about the code:

* When `resolve` raises, it does not restore its active chain: the chain is unchanged exactly if the
  library was active already, and otherwise keeps at least that library
  (`LibraryResolver.SourceGraph.Resolve`; `LibraryResolver.LeavesChain` shows it for any library that
  depends on itself). Every name left behind reaches a cycle itself, so later calls still fail exactly
  when they should (`LibraryResolver.SourceGraph.ResolveEach`).
* A condition that negates a negation directly renders to text that CMake rejects. Among conditions whose
  setting names are neither operators of `if` nor true constants, and under configurations that do not
  switch on a setting named like a false constant, rendering keeps the meaning exactly of the others
  (`Conditions.RenderMeans`, `Conditions.DoubleNotRejected`).
* A sum of two mixed lists configures, but cannot be staged: `MixedDeps` has no `+` for another
  `MixedDeps`. `SelectStaging.MixturesDoNotAdd` shows the family, and
  `SelectStaging.StagingDefined` proves that nothing else fails.
* Two dependency names that differ only in punctuation share one CMake identifier. The offline lock
  check accepts its own lock exactly when no registry dependency is followed by a declaration with
  the same identifier (`LockCheck.LockFixpoint`); `LockCheck.PunctuationRejected` gives names that fail.
* A line break inside quotes survives rewrapping, so the promise of one argument on each physical line
  holds exactly for files without one (`ResponseLines.OneLineEach`, `ResponseLines.QuotedBreakSplits`).
* The registry lease can report a restore error although the registry is unchanged. Around a body that
  changes nothing it does so exactly when the dump key is missing, the setup got as far as looking for
  it, and the first key was not created (`RegistryLease.Session.LeaseAndRestore`;
  `RegistryLease.MissingRootReported` gives the inputs).

`dafny verify dfyconfig.toml` verifies the whole project with Dafny 4.11.

## Model

| member | source | states |
|---|---|---|
| `CallGraph.BuildAdjacency` | build_tools/clang_tidy/aggregate_recursion_summaries.py:131-139 | The nodes are all callers and callees, sorted, each once; the adjacency lists are exactly the calls, and `incoming` is the reverse of `outgoing`. |
| `Components.PushKeeps` | build_tools/clang_tidy/aggregate_recursion_summaries.py:150-156 | Opening an unvisited callee keeps the depth-first invariant: the stack is a path, and what finished since a node was opened lies below it. |
| `Components.FinishKeeps` | build_tools/clang_tidy/aggregate_recursion_summaries.py:157-158 | Finishing a node whose callees were all visited keeps that invariant and nests its visit inside the open ones. |
| `Components.VisitFrom` | build_tools/clang_tidy/aggregate_recursion_summaries.py:146-158 | The explicit-frame search from one root ends, leaves no open node, and keeps the invariant over the enlarged visited set. |
| `Components.FinishOrder` | build_tools/clang_tidy/aggregate_recursion_summaries.py:141-158 | The finish order holds every node once and certifies which nodes finished inside which visit and where every edge leads. |
| `Components.BackwardClosure` | build_tools/clang_tidy/aggregate_recursion_summaries.py:168-174 | A set closed under unassigned predecessors contains every node that is on a cycle with a member. |
| `Components.CollectedIsComponent` | build_tools/clang_tidy/aggregate_recursion_summaries.py:162-175 | Given a finish certificate, what the reverse search collects is one whole class of mutually reachable nodes. |
| `Components.CollectComponent` | build_tools/clang_tidy/aggregate_recursion_summaries.py:165-174 | The worklist over reversed edges ends with exactly the component of its root, disjoint from everything assigned before. |
| `Components.AssignComponents` | build_tools/clang_tidy/aggregate_recursion_summaries.py:160-176 | Walking the finish order backwards assigns every node to exactly one strongly connected component; each component is sorted. |
| `Components.StronglyConnectedComponents` | build_tools/clang_tidy/aggregate_recursion_summaries.py:130-176 | For every list of calls the result partitions the nodes, and two nodes share a component exactly when each reaches the other. |
| `WitnessCycle.ExpandNode` | build_tools/clang_tidy/aggregate_recursion_summaries.py:192-197 | Expanding a node keeps the queue in distance order and reaches all its callees inside the component, one step further at most. |
| `WitnessCycle.SearchBack` | build_tools/clang_tidy/aggregate_recursion_summaries.py:188-197 | The breadth-first search always reaches the start again, and records for each node the call that discovered it. |
| `WitnessCycle.DistanceIsShortest` | build_tools/clang_tidy/aggregate_recursion_summaries.py:190-197 | No path of the call graph from the first callee back to the start is shorter than the recorded distance. |
| `WitnessCycle.TraceBack` | build_tools/clang_tidy/aggregate_recursion_summaries.py:200-208 | The predecessor chain never ends early, and reversed it is a walk of recorded calls of the recorded length. |
| `WitnessCycle.HasInnerCallee` | build_tools/clang_tidy/aggregate_recursion_summaries.py:183-187 | Every member of a recursive component calls some member of it. |
| `WitnessCycle.RepresentativeCycle` | build_tools/clang_tidy/aggregate_recursion_summaries.py:179-209 | For every recursive component and start in it: a simple cycle of real calls inside the component from start to start, beginning with the first inner callee listed, with a shortest way back; neither assertion error can be reached. |
| `RecursionReport.CollectDefinitions` | build_tools/clang_tidy/aggregate_recursion_summaries.py:213-222 | Fails exactly when one id has two names; otherwise each id keeps its definition at the earliest source point. |
| `RecursionReport.GroupCalls` | build_tools/clang_tidy/aggregate_recursion_summaries.py:224-238 | Each caller lists exactly its calls, ordered by callee, call site, directness and dispatcher; the self-recursive set is exact. |
| `RecursionReport.CallsInOrder` | build_tools/clang_tidy/aggregate_recursion_summaries.py:230-238 | The calls of a function come by callee, call site, direct before indirect, and dispatcher. |
| `RecursionReport.RecursiveMembers` | build_tools/clang_tidy/aggregate_recursion_summaries.py:240-244 | A member of a component lies on a cycle exactly when the component passes the recursive test. |
| `RecursionReport.SelectRecursive` | build_tools/clang_tidy/aggregate_recursion_summaries.py:240-244 | The selected components are exactly those holding a cycle, each once, and every function on a cycle is in one. |
| `RecursionReport.Earliest` | build_tools/clang_tidy/aggregate_recursion_summaries.py:254-258 | The representative is a defined member with the smallest source point, and is missing exactly when no member is defined. |
| `RecursionReport.EarliestComesFirst` | build_tools/clang_tidy/aggregate_recursion_summaries.py:254-258 | No member of a component is defined before its representative, by file, line and column. |
| `RecursionReport.Diagnose` | build_tools/clang_tidy/aggregate_recursion_summaries.py:254-291 | The diagnostic stands at the representative (or at the first call), says whether the members span several files, and its notes are a genuine witness cycle, each a direct, indirect or dispatched call as that call is. |
| `RecursionReport.FormatDiagnostics` | build_tools/clang_tidy/aggregate_recursion_summaries.py:212-292 | Fails exactly on an id collision; otherwise one diagnostic for each recursive component, in source order, and none exactly when the call graph has no cycle, self-calls included. |
| `Digraph.NoRepeatIffAcyclic` | build_tools/bazel_to_cmake/cc.py:154-159 | A descent that stops at names met again inside their own ancestry succeeds exactly when no cycle can be reached. |
| `Dedupe.FromKeysPrefix` | build_tools/bazel_to_cmake/cc.py:40-46 | Deduplication keeps first-occurrence order: later values never move earlier ones. |
| `Dedupe.FromKeysConcat` | build_tools/bazel_to_cmake/cc.py:40-46 | Deduplicating parts early does not change the deduplicated whole. |
| `LibraryGraph.ExpandIffAcyclic` | build_tools/bazel_to_cmake/cc.py:148-158 | The full expansion of a declaration, with no cache, exists exactly when no dependency cycle is reachable. |
| `LibraryGraph.ExpandGrows` | build_tools/bazel_to_cmake/cc.py:142-162 | New declarations change an expansion only through native leaves that they name. |
| `LibraryGraph.PartsGather` | build_tools/bazel_to_cmake/cc.py:160-162 | Merging deduplicated dependency contributions gives the same keys as merging their full expansions. |
| `LibraryGraph.ContributionStep` | build_tools/bazel_to_cmake/cc.py:160-183 | A declaration's own values around its merged dependencies deduplicate to the first occurrences of its full expansion. |
| `LibraryGraph.FieldMeets` | build_tools/bazel_to_cmake/cc.py:37-49 | Each of includes, system includes, defines and link options of the merged interface is the first-occurrence deduplication of the full preorder expansion. |
| `LibraryGraph.NativeMeets` | build_tools/bazel_to_cmake/cc.py:171-183 | The native names are the first occurrences over the same expansion, with the declaration's own binding after its dependencies'. |
| `LibraryGraph.OwnBinding` | build_tools/bazel_to_cmake/cc.py:163-170 | A resolved library binds its own defaults: the implicit definitions alone without compiled sources, otherwise threads and default link libraries too, with the interface options exactly unless it is always linked. |
| `LibraryGraph.LibraryMeets` | build_tools/bazel_to_cmake/cc.py:160-183 | If the dependency interfaces are full expansions, so is the assembled interface, in every field. |
| `LibraryResolver.SourceGraph.Add` | build_tools/bazel_to_cmake/cc.py:142-146 | Succeeds exactly when the name and aliases are new and distinct; either way earlier declarations stay and new names mean this declaration. The cache stays sound if no cached expansion mentions one of the names as a native leaf, and names left on the chain still reach a cycle, so resolving may go on. |
| `LibraryResolver.CyclesKept` | build_tools/bazel_to_cmake/cc.py:142-158 | New declarations break no dependency cycle. |
| `LibraryResolver.SourceGraph.BindNative` | build_tools/bazel_to_cmake/cc.py:188-197 | Records the binding under its package and adds exactly its name to the declared ones. |
| `LibraryResolver.SourceGraph.NativePartOf` | build_tools/bazel_to_cmake/cc.py:202-208 | One dependency contributes the native names of its declaration, or the leaf bound in this package. |
| `LibraryResolver.SourceGraph.NativeDependencies` | build_tools/bazel_to_cmake/cc.py:199-210 | The contributions of all dependencies, deduplicated in order; every name was declared. |
| `LibraryResolver.SourceGraph.ResolveDependencies` | build_tools/bazel_to_cmake/cc.py:160-162 | Fails exactly when some dependency reaches a cycle; otherwise every interface is a full expansion and the active chain is restored. |
| `LibraryResolver.SourceGraph.Resolve` | build_tools/bazel_to_cmake/cc.py:148-186 | Unknown names give the blank interface; a declaration fails exactly when a cycle is reachable, and otherwise gets its full expansion over declared native names, with the chain restored. After a failure the chain is as before exactly if the library was active, and else has grown by it. The cache stays sound; a declared library that resolves is cached with that answer. |
| `LibraryResolver.SourceGraph.ResolveEach` | build_tools/bazel_to_cmake/cc.py:148-186 | Over any sequence of calls, including after cycle errors, each call answers as from a clean state. |
| `LibraryResolver.SelfDependent` | build_tools/bazel_to_cmake/cc.py:154-158 | A declaration that depends on itself, by name or alias, reaches a cycle. |
| `LibraryResolver.LeavesChain` | build_tools/bazel_to_cmake/cc.py:154-184 | From a clean graph, resolving a library that depends on itself fails and leaves its name active. |
| `LinkOrder.MoveToEndIs` | build_tools/bazel_to_cmake/cc.py:229-233 | Popping and reinserting distinct items one by one leaves the others in place and the items last, in order. |
| `LinkOrder.MergeOrders` | build_tools/bazel_to_cmake/cc.py:226-233 | Merging two orders in which dependents precede providers gives such an order on their union. |
| `LinkOrder.ClosureOfLibrary` | build_tools/bazel_to_cmake/cc.py:226-226 | A provider followed by its own closure is a correct order of exactly what it reaches. |
| `LinkOrder.LinkClosures.LinkInputs` | build_tools/bazel_to_cmake/cc.py:215-219 | The memoised closure is a correct link order of the library's dependencies. |
| `LinkOrder.LinkClosures.OrderedLinks` | build_tools/bazel_to_cmake/cc.py:221-234 | Lists each reachable source library exactly once, every one before the libraries it depends on. |
| `LinkOrder.LinkClosures.LinkOrderOf` | build_tools/bazel_to_cmake/cc.py:221-234 | The same for any dependency list from which no cycle is reachable, with any sound memo. |
| `LinkOrder.ProvidersFollow` | build_tools/bazel_to_cmake/cc.py:230-233 | In such an order every transitive provider comes after its dependent. |
| `Conditions.JoinAnd` | build_tools/bazel_to_cmake/conditions.py:117-118 | Texts joined with AND are read, by CMake's precedence, as the conjunction of what each is read as. |
| `Conditions.JoinOr` | build_tools/bazel_to_cmake/conditions.py:129-130 | Texts joined with OR are read as the disjunction of what each is read as. |
| `Conditions.RenderFits` | build_tools/bazel_to_cmake/conditions.py:97-135 | Within the same limits, and without double negations, every rendered condition binds tightly enough for the place where it is rendered. |
| `Conditions.RenderMeans` | build_tools/bazel_to_cmake/conditions.py:97-135 | Where setting names are neither operators of `if` nor true constants, and the configuration switches on no setting named like a false constant: CMake's reading of the rendered text is the condition's own truth value exactly if no negation stands directly below another; otherwise the text is rejected. |
| `Conditions.RenderFails` | build_tools/bazel_to_cmake/conditions.py:97-135 | One double negation anywhere makes the whole rendered text unreadable, whatever stands around it. |
| `Conditions.DoubleNotRejected` | build_tools/bazel_to_cmake/conditions.py:105-106 | The negation of a negated test renders to rejected text. |
| `Guards.SelectGuard` | build_tools/bazel_to_cmake/bazel_to_cmake_converter.py:346-362 | Fails exactly on an unmapped label; one text (or its absence) holds under every configuration exactly when a matching branch is empty, or none matches and the default is empty. |
| `Guards.CollectOne` | build_tools/bazel_to_cmake/bazel_to_cmake_converter.py:107-109 | Skipping a text that was collected before does not change what the collected texts say together. |
| `Guards.JoinCollected` | build_tools/bazel_to_cmake/bazel_to_cmake_converter.py:387-390 | Parenthesising only the pieces that contain a textual OR is enough for the AND of all pieces. |
| `Guards.TargetCompatibleCondition` | build_tools/bazel_to_cmake/bazel_to_cmake_converter.py:364-402 | For plain lists, selects and mixtures: fails exactly on an unmapped label, and the one emitted guard is read, under every configuration, as true exactly when every required label holds and every select allows the target. |
| `Guards.SelectConditionMeans` | build_tools/bazel_to_cmake/loom_binary.py:57-69 | The structured predicate of a select holds exactly when the select allows the target. |
| `Guards.ProfileConditionMeans` | build_tools/bazel_to_cmake/loom_binary.py:57-81 | The structured predicate holds exactly when the requirements hold. |
| `Guards.GuardMatchesProfile` | build_tools/bazel_to_cmake/loom_binary.py:213-226 | Such a guard and the structured predicate of the same declaration agree under every configuration. |
| `SelectStaging.AllowsIffEmpty` | build_tools/bazel_to_cmake/bazel_to_cmake_converter.py:346-362 | Where a configured select picks a value, the guard allows the target exactly when that value is empty. |
| `SelectStaging.ChooseIff` | build_tools/bazel_to_cmake/bazel_to_cmake_converter.py:1874-1898 | A configured select picks a value exactly when some branch holds and all that hold have it, or none holds and it is the default; it is ambiguous exactly when two that hold differ, and matches nothing exactly when none holds and there is no default. |
| `SelectStaging.StagingDefined` | build_tools/bazel_to_cmake/bazel_to_cmake_converter.py:124-182 | An expression that configures can be staged exactly when it never adds two mixtures. |
| `SelectStaging.MixturesDoNotAdd` | build_tools/bazel_to_cmake/bazel_to_cmake_converter.py:156-182 | Two mixtures that each configure have a configured sum and no staged one. |
| `SelectStaging.StagingAgrees` | build_tools/bazel_to_cmake/bazel_to_cmake_converter.py:112-182 | Unconditional values plus what the selects pick are the same multiset as the configured value, for every nesting of list and select sums. |
| `SelectStaging.EmitChains` | build_tools/bazel_to_cmake/bazel_to_cmake_converter.py:559-587 | Fails exactly on an unmapped label; otherwise one if/elseif/else chain for each select. |
| `SelectStaging.ArmsRun` | build_tools/bazel_to_cmake/bazel_to_cmake_converter.py:561-577 | The emitted arms run the first branch whose condition holds, and the else arm if none does. |
| `SelectStaging.ChainRuns` | build_tools/bazel_to_cmake/bazel_to_cmake_converter.py:559-587 | Where the configured select picks a value, running the chain appends that value. |
| `SelectStaging.ChainsRun` | build_tools/bazel_to_cmake/bazel_to_cmake_converter.py:552-587 | Running all chains gives the picked values of all selects, in order. |
| `SelectStaging.ChainInOrder` | build_tools/bazel_to_cmake/bazel_to_cmake_converter.py:559-587 | Each arm of a chain of strings appends exactly the values of its own branch, sorted if asked for and otherwise as written. |
| `SelectStaging.StringsAgree` | build_tools/bazel_to_cmake/bazel_to_cmake_converter.py:523-602 | String lists: the emitted block yields the same multiset as configured evaluation, sorted or not. |
| `SelectStaging.TargetsAgree` | build_tools/bazel_to_cmake/bazel_to_cmake_converter.py:418-491 | Dependency lists: the emitted block yields the same set of converted targets as configured evaluation. |
| `Profiles.RouteUnfold` | build_tools/bazel_to_cmake/loom_binary.py:39-46 | A profile is listed, or available, through a set exactly when it is through some member (whose selection holds). |
| `Profiles.MergeMeans` | build_tools/bazel_to_cmake/loom_binary.py:40-46 | Merging a member adds exactly its profiles, and each predicate becomes the alternative of the old one and the selected new one. |
| `Profiles.MergeMember` | build_tools/bazel_to_cmake/loom_binary.py:40-46 | The dictionary loop computes that merge. |
| `Profiles.Expand` | build_tools/bazel_to_cmake/loom_binary.py:30-47 | Terminates on every table; succeeds exactly when nothing below is unknown or met inside its own ancestry, an error names a genuine cause, and the one predicate map is complete for member paths under every configuration. |
| `Profiles.ExpandLabel` | build_tools/bazel_to_cmake/loom_binary.py:30-47 | From a clean start it succeeds exactly when no cycle and no unknown label is reachable; then, under every configuration, a profile's predicate holds exactly when some member path to it has every selection true. |
| `ProfileMembers.CollectSelectMembers` | build_tools/bazel_to_cmake/loom_binary.py:93-110 | The loop gives each branch's members its own condition and the default's the negation of all of them. |
| `ProfileMembers.CollectMembers` | build_tools/bazel_to_cmake/loom_binary.py:83-113 | Lists, selects and mixtures give their unconditional members first, then those of each select. |
| `ProfileMembers.SelectOffers` | build_tools/bazel_to_cmake/loom_binary.py:93-110 | Where a configured select picks a value, the members whose condition holds are exactly the picked ones. |
| `ProfileMembers.MembersMatch` | build_tools/bazel_to_cmake/loom_binary.py:83-113 | For any sum of lists and selects, the members whose condition holds are exactly the configured targets. |
| `ProfileMembers.AvailableIffListed` | build_tools/bazel_to_cmake/loom_binary.py:30-113 | Over whole tables of sets and profiles: a profile is available through staged declarations exactly when configured evaluation of the same declarations lists it. |
| `ProfileMembers.ExpansionsAgree` | build_tools/bazel_to_cmake/loom_binary.py:30-113 | A predicate of the staged expansion holds under a configuration exactly for the profiles that the configured expansion contains. |
| `ProfileMembers.ConfiguredExpands` | build_tools/bazel_to_cmake/loom_binary.py:30-113 | Where the staged expansion meets no cycle and no unknown label, neither does the configured one. |
| `CommandLine.ReadEscapedQuote` | build_tools/bazel/windows_command_line.c:29-33 | An odd run of backslashes before a quote is read as half of them and a literal quote. |
| `CommandLine.ReadPairs` | build_tools/bazel/windows_command_line.c:29-33 | An even run before a quote is read as half of them, and the quote stays a delimiter. |
| `WindowsQuoting.QuotedLength` | build_tools/bazel/windows_command_line.c:23-45 | The loop writes at most two units for each unit of the argument. |
| `WindowsQuoting.AllocationFits` | build_tools/bazel/windows_command_line.c:14-17 | Past the entry guard, the allocation size does not exceed the size limit. |
| `WindowsQuoting.CountSlashes` | build_tools/bazel/windows_command_line.c:24-28 | The scan stops at the end of the backslash run and sees the terminator exactly at the end of the argument. |
| `WindowsQuoting.WriteSlashes` | build_tools/bazel/windows_command_line.c:34-37 | Appends exactly that many backslashes and leaves what was written before. |
| `WindowsQuoting.WriteBody` | build_tools/bazel/windows_command_line.c:21-45 | In place, inside a buffer of 2 * length + 3 units, writes the delimiter and the escaped argument. |
| `WindowsQuoting.QuoteArgument` | build_tools/bazel/windows_command_line.c:12-49 | Fails exactly when the argument is too long for the size limit or memory is exhausted; otherwise the buffer starts with the quoted argument and its terminator. |
| `WindowsQuoting.BodyReadsBack` | build_tools/bazel/windows_command_line.c:22-48 | A quoted argument followed by a blank or the end is read back as that argument and that rest. |
| `WindowsQuoting.CommandRoundTrip` | build_tools/bazel/executable_launcher.c:169-183 | Quoting every argument and joining with single spaces is read back as the original list, for every list. |
| `ResponseFile.OneArgumentPerLine` | build_tools/cmake/msvc_response_file.py:22-51 | The byte loop computes the rewrapped file, and fails exactly when the number of unescaped quotes is odd. |
| `ResponseFile.QuotedIsParity` | build_tools/cmake/msvc_response_file.py:40-48 | After any prefix the scanner is inside quotes exactly if an odd number of quotes in it had an even run of backslashes before them. |
| `ResponseFile.TokenReads` | build_tools/cmake/msvc_response_file.py:40-45 | A maximal run without unquoted blanks is read as one argument, whatever blank follows. |
| `ResponseFile.LayoutArguments` | build_tools/cmake/msvc_response_file.py:29-38 | The arguments of any blank-separated file are its tokens, decoded one by one. |
| `ResponseFile.RewrapKeepsArguments` | build_tools/cmake/msvc_response_file.py:22-51 | Rewrapping keeps the argument sequence of every balanced file. |
| `ResponseFile.RewrapLayout` | build_tools/cmake/msvc_response_file.py:22-51 | Tokens laid out with any blanks rewrap to one line each. |
| `ResponseFile.RewrapIdempotent` | build_tools/cmake/msvc_response_file.py:22-51 | Rewrapping a rewrapped file changes nothing. |
| `ResponseLines.OnlyLineEnds` | build_tools/cmake/msvc_response_file.py:22-51 | Every blank outside quotes in a rewrapped file belongs to a carriage return and line feed directly after a token, and there is one such pair for each argument. |
| `ResponseLines.OneLineEach` | build_tools/cmake/msvc_response_file.py:55-55 | Each physical line of the rewrapped file reads as one argument of the original, in order, exactly if no carriage return or line feed stood inside quotes. |
| `ResponseLines.QuotedBreakSplits` | build_tools/cmake/msvc_response_file.py:22-51 | A quoted line feed alone is rewrapped to two physical lines. |
| `ResponseFile.QuotedIsToken` | build_tools/bazel/windows_command_line.c:22-48 | Whatever the Windows quoter produces is a single token of a response file. |
| `ResponseFile.QuotedFileRoundTrip` | build_tools/cmake/msvc_response_file.py:22-51 | Quoted arguments with any blanks between them survive rewrapping and are read back as they were. |
| `LockText.UnescapeEscape` | build_tools/bazel_to_cmake/deps.py:860-865 | The two-pass unescape inverts the escape on every string. |
| `LockText.SplitJoin` | build_tools/bazel_to_cmake/deps.py:562-562 | Splitting joined lines gives them back when none contains a line break. |
| `LockText.InlineMatches` | build_tools/bazel_to_cmake/deps.py:564-569 | A rendered scalar line matches the inline pattern with its name and escaped value. |
| `LockText.HeaderMatches` | build_tools/bazel_to_cmake/deps.py:572-575 | A rendered list header matches only the multi-line pattern, with its name. |
| `LockText.ValueMatches` | build_tools/bazel_to_cmake/deps.py:577-583 | A rendered list value matches the value pattern and is never taken for the closing line. |
| `LockText.InlineIff` | build_tools/bazel_to_cmake/deps.py:564-569 | The inline pattern accepts exactly one name and one escaped value in quotes. |
| `LockText.HeaderIff` | build_tools/bazel_to_cmake/deps.py:572-575 | The multi-line pattern accepts exactly one name. |
| `LockText.ValueIff` | build_tools/bazel_to_cmake/deps.py:580-583 | The value pattern accepts exactly an indented escaped value in quotes. |
| `CMakeLock.VariableInjective` | build_tools/bazel_to_cmake/deps.py:551-555 | Identifier and property can be recovered from the variable name, even where one identifier begins another. |
| `CMakeLock.VariableNames` | build_tools/bazel_to_cmake/deps.py:610-622 | The identity of a dependency is written under the literal names that CMake reads. |
| `CMakeLock.SourceVariableNames` | build_tools/bazel_to_cmake/deps.py:623-635 | So are its source metadata, build file and patches. |
| `CMakeLock.ParseCMakeSets` | build_tools/bazel_to_cmake/deps.py:560-585 | The line iterator with its inner loop computes the recursive reading of the file, malformed values included. |
| `CMakeLock.RenderCMakeLock` | build_tools/bazel_to_cmake/deps.py:588-637 | The appending loops produce the lock text of the dependencies. |
| `CMakeLock.LockSplits` | build_tools/bazel_to_cmake/deps.py:637-637 | The lock text splits into exactly the rendered lines. |
| `CMakeLock.ParseLockLines` | build_tools/bazel_to_cmake/deps.py:560-664 | Parsing a rendered lock gives exactly its assignments, later ones overriding earlier ones. |
| `CMakeLock.LastWins` | build_tools/bazel_to_cmake/deps.py:551-556 | The last declaration with an identifier is the one that is looked up. |
| `LockCheck.OwnProperties` | build_tools/bazel_to_cmake/deps.py:418-439 | A declaration whose identifier is not taken again finds its own identity and source metadata in the lock. |
| `LockCheck.OwnBuildProperties` | build_tools/bazel_to_cmake/deps.py:626-635 | It also finds its own build file, downloaded path, patches and patch arguments. |
| `LockCheck.ShadowedFails` | build_tools/bazel_to_cmake/deps.py:685-703 | A declaration whose identifier is taken again by a later one fails the identity comparison. |
| `LockCheck.CheckOne` | build_tools/bazel_to_cmake/deps.py:413-439 | Check mode answers what update mode had resolved, unless the declaration is shadowed; then it fails. |
| `LockCheck.CheckDependency` | build_tools/bazel_to_cmake/deps.py:413-439 | Checked against the lock of any other declarations, a registry dependency is accepted exactly when its name is locked, the last declaration with its identifier agrees in kind, owner, module name, repository name, version and dev flag, and there is an archive with a digest; the answer takes archive, digest, prefix and source from there. |
| `LockCheck.CheckAgainstLock` | build_tools/bazel_to_cmake/deps.py:413-439 | Checking declarations against the rendered lock of any other declarations succeeds exactly when each is accepted so, with those answers. |
| `LockCheck.StaleVersionRejected` | build_tools/bazel_to_cmake/deps.py:685-703 | A registry dependency declared at another version than the one locked for its identifier makes the check fail. |
| `LockCheck.LockFixpoint` | build_tools/bazel_to_cmake/deps.py:395-439 | Rendering, parsing and checking all dependencies gives them back exactly when no registry dependency shares its identifier with a later declaration, and fails otherwise. |
| `LockCheck.PunctuationRejected` | build_tools/bazel_to_cmake/deps.py:856-857 | A registry dependency named with a dash, followed by one that has an underscore there, makes the check fail on its own lock. |
| `ModuleLoader.FewerActive` | build_tools/bazel_to_cmake/bazel_to_cmake_loads.py:104-110 | An outcome other than a cycle does not depend on which modules are active. |
| `ModuleLoader.Blame` | build_tools/bazel_to_cmake/bazel_to_cmake_loads.py:108-110 | If one more active module turns an outcome into a cycle, load statements lead from the file to that module. |
| `ModuleLoader.CycleIsReal` | build_tools/bazel_to_cmake/bazel_to_cmake_loads.py:108-110 | A reported load cycle is a cycle of load statements that the file can reach. |
| `ModuleLoader.ImportIsFresh` | build_tools/bazel_to_cmake/bazel_to_cmake_loads.py:72-86 | While a module is being evaluated, an import it needs has the outcome of a fresh evaluation. |
| `ModuleLoader.Loader.LoadFile` | build_tools/bazel_to_cmake/bazel_to_cmake_loads.py:101-135 | For any history of loads the outcome is that of evaluating the file with no tables; it is published exactly if complete, recorded exactly if failed, and a cycle enters neither table. |
| `ModuleLoader.Loader.EvaluateFile` | build_tools/bazel_to_cmake/bazel_to_cmake_loads.py:121-133 | However evaluation ends, the loading stack is restored. |
| `ModuleLoader.Loader.RunBody` | build_tools/bazel_to_cmake/bazel_to_cmake_loads.py:123-131 | Running the body step by step, with imports answered from the tables, gives the table-free outcome. |
| `ModuleLoader.Loader.RunStep` | build_tools/bazel_to_cmake/bazel_to_cmake_loads.py:114-118 | One step binds what the table-free evaluation binds, or ends as it ends. |
| `ModuleLoader.Loader.SymbolFor` | build_tools/bazel_to_cmake/bazel_to_cmake_loads.py:72-86 | A top-level request answers the binding, the export, or an opaque stand-in with the right reason, and leaves the stack empty. |
| `ModuleLoader.Loader.SymbolsFor` | build_tools/bazel_to_cmake/bazel_to_cmake_loads.py:72-86 | Any sequence of requests, for any labels and names, gets the table-free answers, with an empty stack in between. |
| `ModuleLoader.TablesDisjoint` | build_tools/bazel_to_cmake/bazel_to_cmake_loads.py:126-134 | Published and failed modules are disjoint, and a module that runs into a cycle is in neither table. |
| `ModuleLoader.NestingBounded` | build_tools/bazel_to_cmake/bazel_to_cmake_loads.py:121-133 | Loads are never nested more deeply than there are files. |
| `ModuleAnswers.OutcomeExplained` | build_tools/bazel_to_cmake/bazel_to_cmake_loads.py:101-135 | A file loads exactly if every step passes, and then each name has the value of its last binder; it fails or runs into a cycle exactly if some step does, all before it having passed. |
| `ModuleAnswers.AnswerExplained` | build_tools/bazel_to_cmake/bazel_to_cmake_loads.py:72-86 | The answer for a name is the file's own definition if that binds it last, the answer of the loaded module under the exported name if a load does, and otherwise an opaque stand-in naming the missing export, the broken file or the cycle. |
| `ModuleAnswers.DefinedByFile` | build_tools/bazel_to_cmake/bazel_to_cmake_loads.py:72-86 | A file that only defines a name answers with its own definition. |
| `PackageTree.WalkIsValid` | build_tools/bazel_to_cmake/bazel_to_cmake.py:254-288 | The walk of any source tree from any roots keeps packages and authored directories apart and notices every CMakeLists.txt above an entry. |
| `SourceWalk.Walk` | build_tools/bazel_to_cmake/bazel_to_cmake.py:268-288 | The walk of a directory, top down and not through links, adds exactly the declared packages it enters and the CMake directories it enters or sees as links. |
| `SourceWalk.ClimbRoot` | build_tools/bazel_to_cmake/bazel_to_cmake.py:263-267 | The upward loop adds exactly the CMake directories at or above a package root, without the repository root. |
| `SourceWalk.EvaluatePackages` | build_tools/bazel_to_cmake/bazel_to_cmake.py:254-288 | The walk from all roots fails exactly on a root that is no directory; otherwise packages and authored directories are exactly those that lie on the way or in reach of a root. |
| `PackageTree.Climb` | build_tools/bazel_to_cmake/bazel_to_cmake.py:345-354 | The upward loop of one entry, with its early breaks, adds exactly the plain directories that entry needs. |
| `PackageTree.TraversalDirectories` | build_tools/bazel_to_cmake/bazel_to_cmake.py:343-354 | In whatever order entries are visited, the result is exactly the directories that lie above some entry with only plain directories in between. |
| `PackageTree.BuildChildren` | build_tools/bazel_to_cmake/bazel_to_cmake.py:357-360 | Every member other than the root is listed once, under its parent, in path order, and nothing else is. |
| `PackageTree.SiblingOrder` | build_tools/bazel_to_cmake/bazel_to_cmake.py:358-358 | Children of one directory come in the order of their names. |
| `PackageTree.ParentJoins` | build_tools/bazel_to_cmake/bazel_to_cmake.py:340-354 | The parent of a member is either an anchor (the root or an authored directory) or generated, never both. |
| `PackageTree.RouteExists` | build_tools/bazel_to_cmake/bazel_to_cmake.py:340-360 | Every declared package is reached along child edges from its nearest anchor, through generated directories only. |
| `PackageTree.RouteUnique` | build_tools/bazel_to_cmake/bazel_to_cmake.py:340-360 | There is no other such chain. |
| `PackageTree.PlanTree` | build_tools/bazel_to_cmake/bazel_to_cmake.py:343-360 | The closure and the child lists together give each member exactly one route. |
| `PackageTree.Traversal` | build_tools/bazel_to_cmake/bazel_to_cmake.py:362-379 | A directory emits one line for each child in order, a native directory or a package call below the right variable. |
| `PackageTree.RecordScope` | build_tools/bazel_to_cmake/bazel_to_cmake.py:294-304 | The recorded scope is the nearest native directory at or above the package, or the root. |
| `PackageTree.ScopeMeans` | build_tools/bazel_to_cmake/bazel_to_cmake.py:289-304 | A package is its own scope exactly if it needs one or is the root; otherwise its scope is the nearest directory above it that is authored or a package that needs one. |
| `PackageTree.AnchorPlaces` | build_tools/cmake/iree_add_all_subdirs.cmake:10-48 | An authored directory that adds a child configures it at the child's own path, in its nearest native scope. |
| `PackageTree.LinePlaces` | build_tools/bazel_to_cmake/bazel_to_cmake.py:362-379 | A generated directory that is placed so places its children so; the package binary variable it uses is always defined. |
| `PackageTree.Placement` | build_tools/bazel_to_cmake/bazel_to_cmake.py:294-379 | Following any route, each member is configured as itself, with its own path as package binary directory, in exactly the native scope that was recorded for it. |
| `RegistryLease.Session.LeaseKey` | build_tools/ci/windows_diagnostics.py:244-274 | Whichever call fails, every changed value was recorded first and other keys are untouched; it finishes exactly if all its calls succeed, and then the key holds its old values overridden by the settings. |
| `RegistryLease.Session.ChangeValues` | build_tools/ci/windows_diagnostics.py:268-274 | Setting recorded values keeps the lease recoverable at every step, and finishes exactly if every write succeeds. |
| `RegistryLease.Session.SetUp` | build_tools/ci/windows_diagnostics.py:228-282 | Wherever setup stops, the registry is recoverable from the leases; whether the root is taken for existing, exists, and setup finishes is exact in the number of calls that succeed; if it finishes, every key is leased and has the settings. |
| `RegistryLease.SettingsInForce` | build_tools/ci/windows_diagnostics.py:268-274 | Each setting is in force afterwards and no other value of the key changed. |
| `RegistryLease.RestoreLookup` | build_tools/ci/windows_diagnostics.py:290-298 | Restoring puts every recorded value back and leaves the others. |
| `RegistryLease.RestoredKey` | build_tools/ci/windows_diagnostics.py:288-308 | A recoverable key is restored to what it was on entry. |
| `RegistryLease.Session.TearDown` | build_tools/ci/windows_diagnostics.py:287-336 | Leased keys are as on entry, all others as the body left them, and the root is removed exactly when the lease created it and it is empty. |
| `RegistryLease.Session.LeaseAndRestore` | build_tools/ci/windows_diagnostics.py:217-336 | Around any body that leaves the executables' keys alone, whichever setup call fails: those keys are as on entry, the others and the root as the body left them, except for a root the lease made; a body that changes nothing leaves the registry as on entry. The restore error occurs exactly when the root was missing, looked for, and is still missing after the body. |
| `RegistryLease.MissingRootReported` | build_tools/ci/windows_diagnostics.py:314-336 | With the dump key missing and only two or three calls succeeding, restoring reports an error and the registry is unchanged. |
| `ReleasePublication.ReadPage` | build_tools/ci/loom_release.py:382-399 | A page is rejected only if some record is repeated, unexpected, incomplete or different. |
| `ReleasePublication.MissingAssets` | build_tools/ci/loom_release.py:365-403 | Over all pages: fails exactly when a record does not belong, otherwise answers the expected files that are absent, and answers none exactly when the inventory is the expected one. |
| `ReleasePublication.Publisher.ReadInventory` | build_tools/ci/loom_release.py:365-403 | Reading may break off; if it does not, the answer is exact for the release as it stands. |
| `ReleasePublication.FillCompletes` | build_tools/ci/loom_release.py:486-490 | Uploading what is missing turns a consistent draft into exactly the expected inventory. |
| `ReleasePublication.Publisher.Complete` | build_tools/ci/loom_release.py:486-499 | The draft becomes public only with the exact inventory and the expected text, however calls fail, and is reported published only with the tag, title and prerelease flag asked for; undisturbed, it is published exactly when the draft was consistent. |
| `ReleasePublication.Publisher.Publish` | build_tools/ci/loom_release.py:406-499 | An attempt interrupted anywhere makes a release public only if it shows exactly what was asked and never touches a public one. Published means: tag, title and prerelease flag as asked, a real id, the asked or an accepted body, immutable, with exactly the files. Undisturbed, it succeeds exactly from the states that are ready; from others it changes nothing. |
| `ReleasePublication.Publisher.PublishRun` | build_tools/ci/loom_release.py:406-499 | Over any run of attempts every step is safe, and a release reported as published stays as it was. |
| `ReleasePublication.PublishedOnce` | build_tools/ci/loom_release.py:406-499 | A run that ends public was published by one attempt, with exactly that attempt's files and text, and never changed afterwards. |

## Left out

- The text of the report lines and notes, and loading and validating the JSON summaries: diagnostics are records.
- LibraryResolver.SourceGraph.BindNative: the name is an arbitrary function of package, dependencies and options, and every package has a native scope, because `evaluate_packages` records one for each before it resolves.
- Executable inputs and response files of the library graph.
- `LinkClosures` is a class of its own, so that the memo of link orders and the interface cache are proved separately.
- Condition text is modelled as CMake tokens with arbitrary truth for each test. Quoting of operands and CMake's case-insensitive constants are not.
- Guards.TargetCompatibleCondition: the meaning of the text is stated for mapped conditions without a double negation or an operator as a setting name, and for configurations that do not switch on a setting named like a false constant; other conditions have no readable text.
- Conditions.RenderMeans: settings named like an operator of `if` or a constant are outside its limits; what CMake makes of them depends on what follows.
- ProfileMembers.CollectMembers: the default branch of a select comes last, wherever it was written, since only the order of alternatives depends on it; the refusal of an empty set is not modelled.
- Requirements of a Loom profile with an unmapped label inside a select: the code builds an unusable predicate there, the model returns none. Descriptor-set labels, the mapping tables themselves and `_cmake_guard_condition` are left out.
- List elements with semicolons or empty strings, location expansion, `_map_configurable_list` and compile options by language would only add easy members.
- The program name in the launcher: the C runtime reads it by other rules, so the round trip is about the arguments after it.
- Response files are sequences of characters standing for bytes; replacing the file atomically is not modelled.
- The comment block at the top of the lock is any list of lines that assign nothing. A list where a scalar is expected counts as a mismatch, where the code compares its printed form. Upper-casing works character by character. Fetching registry metadata and version overrides are left out.
- Module bodies are lists of loads, definitions, uses and failures; the reasons of opaque symbols are kinds and not texts; resolving labels to paths and the helper names in a module's namespace are left out.
- RegistryLease.Session.LeaseAndRestore: a body that changes the keys it was leased, and operating system errors while restoring, are left out, as the code promises nothing for them.
- The publisher is the only writer, the service keeps a new draft a draft, and transfers may go wrong in any way but only under the file's name. Catalogue qualification, release notes and PyPI staging are only calls that can fail.
- PackageTree.Placement: what authored CMake does is the choice of the repository; the model assumes that an authored directory is itself configured at its own path and adds its children with the macro.
- Rule handlers and their text templates, native C++ emission, target tables, CI drivers, and network code.
