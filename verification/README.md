# snap: a verified model of the process reports and of the page index

`memstats` scans the processes of a Linux machine, groups them and shows how much memory each group uses;
`kpageflags-viewer` draws the flags of all physical pages. This project models the decisions these tools make once
/proc has been read, and proves what they promise, for all inputs and all runs.

`dafny verify dfyconfig.toml` checks everything.

## What is modelled

**Filter language** (`Decimal`, `Parentheses`, `Filters`, `Grammar`, `Printing`, `FilterTexts`, `Evaluation`). The recursive-descent
parser of filters such as `and(not(uid(0)),env_k(DISPLAY))` is a set of methods with the loops and offsets of the
source, proved equal to a recursive function (`Filters.Parse`). That function is proved equivalent to a declarative
grammar (`Grammar.Denotes`, which has no offset and no scan). From the equivalence follow the round trip with any
suffix, the exact set of filters that have a text, locality, and the absence of ambiguity. `FilterTexts` says in literal
characters what the text of each operator means. Evaluation is a predicate on a process whose fields may be unreadable.

**Process tree** (`Processes`). `descendants` is graph reachability for every edge list; `ancestors` follows the first
parent listed for each process.

**One process** (`PageWalk`). The loop over the memory maps of a process, and how the RSS it adds up relates to the
frames it collects.

**Groups and reports** (`Sequences`, `ProcessGroups`, `Splitters`, `Accounting`, `Reports`, `Memstats`, `Runs`,
`Totals`). The
three splitters take processes out of a vector, build groups, show a table and hand the processes to the next splitter.
The groups of each splitter are described by a key function; the table, the cascade of `scan_groups` and the
position of each report in it, the union of `scan_single`, and the tables of coarser and finer splits are related to each other.

**Physical pages** (`Ranges`, `IoMem`, `RamWalk`, `CompoundPages`, `Viewer`). The index of a frame is defined as the
number of RAM frames below it, and the two conversion loops are proved against that definition with 64-bit arithmetic.
`compute_compound_pages` is proved against a pointwise definition of the flags each page is counted with.
`gen_image` paints every frame where its index is placed, and nothing else, on the image that the viewer sizes by
`get_pfn_count`.

Methods keep the loops, the early returns and the state of the source; objects that the source updates in place are
classes (`ProcessTree`, the three splitters), the counters of `compute_compound_pages` are an array, the image is a
two-dimensional array.

## Where the code does not do what is expected of it

Each failure is stated as the exact condition under which the code does what is expected, with a concrete failing input.

- *A filter list that repeats a filter loses processes.* A group is inserted under the text of its filter, and a second
  group with the same text replaces the first, after the first took its processes. A custom split keeps exactly the
  processes whose group is not replaced (`Memstats.CustomSplitConservesIff`); with `true()` twice nothing is left
  (`Memstats.RepeatedFilterLosesAll`). Without repeated texts nothing is ever lost (`Memstats.NothingLost`).
- *Groups are compared by name only.* The USS of a report by key is exact for every list of processes exactly when
  different keys have different names (`Reports.UssExactIffNamesDistinct`, for users `Totals.UidUssExactIff`, for values
  of a variable `Totals.EnvUssExactIff`). Two users of one name that share a frame are shown a page of USS each
  (`Totals.SharedUserName`). Custom splits always have distinct names.
- *`ancestors` may not return.* It returns exactly when the walk upwards meets no process twice
  (`Processes.WalkEndsIffNoRepeat`); two processes that name each other are enough (`Processes.ParentCycleNeverEnds`).
  Without a cycle it always returns, even if a pid is listed with several parents.
- *`get_pfn_count` does not count a page of which a map holds only the beginning.* It equals the number of indices
  exactly when every map ends with a page (`RamWalk.CountIsExactIff`, `RamWalk.PartialPageNotCounted`).
- *`pfn_is_in_ram` refuses a frame that has an index* exactly when it is the first frame of a map that starts inside it,
  or the last frame of a map that ends on its first byte (`RamWalk.RefusedFrame`, `RamWalk.PartialPageNotInRam`). All
  frames are found exactly when no map is like that (`RamWalk.WalksAgreeIff`). The address of the frame is computed in
  64 bits without a check: when it does not fit, another frame may be found instead (`RamWalk.AddressFits`,
  `RamWalk.AddressWraps`).
- *`pfn_to_index` can overflow with pages of one byte.* Every sum fits exactly when the one for the last frame does,
  and with pages of two bytes or more it always does (`IoMem.SumsFitIff`, `IoMem.RealPagesFit`,
  `IoMem.OneBytePagesOverflow`).
- *`compute_compound_pages` panics* exactly on a tail that is no head and is first or follows a page outside any
  compound run (`CompoundPages.StrayTailIff`); a single tail is enough (`CompoundPages.LoneTail`).
- *`gen_image` fails on frame 0, and on an image that is too small.* The viewer sizes the image by `get_pfn_count`, which
  does not count partial pages, while the indices do. For the segments cut from the maps, painting succeeds exactly when
  frame 0 is in no segment and the greatest index painted is below the number of pixels (`Viewer.ViewerDrawableIff`).
  All painted indices are below `get_pfn_count` exactly when every map before the last one that has a frame in its
  segment ends with a page (`Viewer.IndicesBelowCountIff`). Failing inputs: `Viewer.FrameZeroNotPainted` and
  `Viewer.ViewerImageTooSmall`.
- *The viewer has no image for more than 2^30 frames*: the side of the image overflows its 16 bits
  (`Viewer.BlankImage`, `Viewer.LargeMachineHasNoImage`).
- *`get_process_info` panics* exactly on a process that has a command line and a readable status without a page table
  size (`PageWalk.GetProcessInfo`).
- *The examples in the documentation of `parse` are not accepted.* `env` and `descendant` are not operators
  (`Printing.DocumentedNamesRejected`), and a blank after any separator makes a list invalid
  (`Printing.BlankAfterSeparatorRejected`), as in `or(uid(0), uid(1000))` (`Printing.DocumentedListRejected`). The help
  text of `memstats` describes the language as it is, except that blanks around the parts of `env_kv` are accepted and
  trimmed. The model follows the code.
- Laminarity of families needs one parent per process, which processes with different pids have
  (`Processes.TreeHasOneParent`), and does not need the absence of cycles (`Processes.Laminar`).
- The parts of a parsed `env_kv` need not be balanced: it keeps the first two pieces between commas, and what it ignores
  may hold the parentheses that close them. `Printing.WellFormed` is exactly the set of filters the parser can return.

## Assumptions about what is not in the repository

- Integers are read and written as Rust does: an optional sign (a minus only for a signed type), one digit or more,
  the range of the type.
- `str::trim` on ASCII text removes blanks and the characters 9 to 13.
- `PhysicalMemoryMap::get_range` gives `start / 4096` and, exclusive, `(end + 1) / 4096`.
- The flags of a page are the set of their bit positions; COMPOUND_HEAD is bit 15 and COMPOUND_TAIL bit 16.
- Iterating over a hash map or a hash set gives every member once, in an arbitrary order.
- The Hilbert curve of order n sends the indices below 4^n to different pixels of a square of side 2^n. Nothing is
  assumed of greater indices.
- Half the binary logarithm of a count, rounded up, is the least n with 4^n at least the count: floating point is exact
  enough.
- Unsigned arithmetic wraps around in the release profile and panics otherwise.

## Model

| member | source | states |
|---|---|---|
| Parentheses.FindMatchPar | src/filters.rs:150-171 | the scan of the source, its two errors included, is the function `MatchFrom` |
| Parentheses.MatchIffBalanced | src/filters.rs:150-171 | the scan stops at a position exactly when it holds a closing parenthesis and the text between the two is balanced |
| Parentheses.ClosesIffBalanced | src/filters.rs:150-171 | the first return of the depth to zero, which is where the scan stops, is where balanced text ends |
| Decimal.ParseShown | src/bin/memstats.rs:746-756 | a number written in decimal is read back as itself, over the whole range of each integer type |
| Filters.Parse | src/filters.rs:140-273 | an accepted text eats at least one character and never more than there are |
| Filters.ReadCall | src/filters.rs:140-190 | the operator, its argument and the eaten length, or the same error as the parser function, in the order in which the source detects errors |
| Filters.ParseFilter | src/filters.rs:140-273 | the recursive descent of the source terminates, never slices out of bounds, and computes the function `Parse` |
| Filters.ParseChildren | src/filters.rs:193-209 | the loop over children reads the filters of the whole list; the branch for an empty list cannot be taken |
| Grammar.ParseIffDenotes | src/filters.rs:140-273 | the parser returns a filter and a length exactly when that many first characters denote the filter in the grammar |
| Grammar.ArgumentIffDenotes | src/filters.rs:192-272 | the same for the argument of every operator, text ignored after the child of `not` included |
| Grammar.ListIffDenotes | src/filters.rs:193-209 | a list is read as filters exactly when it is their texts with one arbitrary character between neighbours |
| Grammar.PairIffDenotes | src/filters.rs:251-264 | `env_kv` gives a key and a value exactly when they are the first two pieces between commas, trimmed |
| Printing.RoundTrip | src/filters.rs:140-273 | a printed filter followed by any text parses to the filter and to the printed length |
| Printing.PrintIsInjective | src/filters.rs:140-273 | different well-formed filters have different texts |
| Printing.ParseRange | src/filters.rs:140-273 | a filter is the result of parsing some text exactly when it is well-formed |
| Printing.DenotedIsWellFormed | src/filters.rs:140-273 | whatever a text denotes is well-formed: non-empty children, balanced leaves, trimmed pairs without commas |
| Printing.EatenIsBalanced | src/filters.rs:173-190 | the eaten text is not empty, is balanced and ends with a closing parenthesis |
| Printing.Locality | src/filters.rs:140-273 | a text that begins with the eaten characters parses to the same filter and length |
| Printing.Unambiguous | src/filters.rs:140-273 | no filter text is a proper beginning of another one and none has two meanings |
| Printing.LeadingBlankRejected | src/filters.rs:143-148 | a text that begins with a blank is never accepted |
| Printing.BlankAfterSeparatorRejected | src/filters.rs:196-205 | a blank after any separator makes a list invalid, whatever follows, contrary to the documented examples |
| Printing.DocumentedListRejected | src/filters.rs:133-139 | the documented `or(uid(0), uid(1000))` is rejected |
| Printing.UnknownOperatorRejected | src/filters.rs:271-271 | a call of a name that is no operator is invalid whatever follows |
| Printing.DocumentedNamesRejected | src/filters.rs:133-139 | the documented `env` and `descendant` are rejected with every argument |
| FilterTexts.CommText | src/filters.rs:237-237 | `comm(x)` with any balanced x, whatever follows, is the filter on this command name, all of it eaten |
| FilterTexts.EnvKText | src/filters.rs:265-268 | `env_k(x)` with any balanced x is the filter on the presence of this variable |
| FilterTexts.EnvKVText | src/filters.rs:251-264 | `env_kv(key,value)`: blanks around the two first pieces between commas are dropped, whatever follows a second comma is ignored |
| FilterTexts.TrueText | src/filters.rs:269-269 | `true(x)` accepts everything, its balanced argument being ignored |
| FilterTexts.FalseText | src/filters.rs:270-270 | `false(x)` accepts nothing, its balanced argument being ignored |
| FilterTexts.UidText | src/filters.rs:244-249 | `uid(n)` with an optional plus and decimal digits is the filter on this user exactly up to 2^32 - 1, and an error beyond and with a minus |
| FilterTexts.PidText | src/filters.rs:238-243 | `pid(n)` with an optional sign and decimal digits is the filter on this pid exactly within 32 bits, signed, and an error otherwise |
| FilterTexts.DescendantsText | src/filters.rs:231-236 | the same for `descendants(n)` |
| FilterTexts.Positional | src/filters.rs:238-249 | digits are read in decimal notation: those before count for ten to the power of the number of those after |
| FilterTexts.NotANumberRejected | src/filters.rs:231-249 | anything but an optional sign and digits is an error in `uid`, `pid` and `descendants` |
| FilterTexts.NoValueRejected | src/filters.rs:251-259 | `env_kv` without a comma is an error |
| FilterTexts.NotText | src/filters.rs:219-230 | `not(t)`, t beginning with a text that parses to f, is the negation of f, the rest of t being ignored |
| FilterTexts.AndText | src/filters.rs:193-217 | `and(list)`, list being texts that parse to the children with one arbitrary character between neighbours, is their conjunction in order |
| FilterTexts.OrText | src/filters.rs:193-217 | `or(list)`: their disjunction in order |
| FilterTexts.EmptyListRejected | src/filters.rs:193-209 | `and()` and `or()` are errors |
| FilterTexts.OtherNamesRejected | src/filters.rs:192-272 | a call of any name but the eleven is an error whatever follows |
| FilterTexts.NoOpeningRejected | src/filters.rs:143-145 | a text without an opening parenthesis is this error |
| FilterTexts.UnclosedRejected | src/filters.rs:150-173 | a call without a closing parenthesis after a balanced argument is the error of an unbalanced text, whatever its name; the other error of the scan never occurs |
| FilterTexts.BalancedIffCounts | src/filters.rs:150-171 | balanced means as many opening as closing parentheses, and no beginning with more closing ones |
| Evaluation.EvalFilter | src/filters.rs:17-131 | evaluation is the meaning of the filter; by outcome for each leaf: equality with a readable field, presence of a variable, its value, a path of one edge or more for `descendants`, refusal for an unreadable field or another value |
| Evaluation.AndCons | src/filters.rs:40-49 | `and` of nothing accepts everything, and one more child is one more condition |
| Evaluation.OrCons | src/filters.rs:50-59 | `or` of nothing accepts nothing, and one more child is one more chance |
| Evaluation.NotAll | src/filters.rs:17-59 | the negation of an `and` accepts what the `or` of the negated children accepts |
| Evaluation.NotAny | src/filters.rs:17-59 | the negation of an `or` accepts what the `and` of the negated children accepts |
| Splitters.AndSelects | src/filters.rs:40-49 | selecting by an `and` is selecting by its first child, then by the `and` of the others |
| Splitters.OrLeaves | src/filters.rs:50-59 | what an `or` leaves is what its first child leaves and then the others leave |
| Splitters.NotSelects | src/filters.rs:17-23 | a negation takes what its argument leaves and leaves what it takes |
| Processes.ProcessTree.constructor | src/process_tree.rs:10-24 | (x, y) is an edge exactly when some process has pid y and a readable status with parent x, and there are as many edges as readable statuses |
| Processes.EdgesTell | src/process_tree.rs:13-21 | the same of the list of edges, for all x and y |
| Processes.EdgesSelected | src/process_tree.rs:13-21 | the edges are in the order of the processes with a readable status |
| Processes.ProcessTree.Descendants | src/process_tree.rs:47-64 | terminates on every edge list and returns exactly the pids reached by a path of one edge or more |
| Processes.DescendantsAreLineages | src/process_tree.rs:10-64 | in the built tree the descendants of x are exactly the ends of the lines of processes that begin with a child of x and go from each to one that names it as parent |
| Processes.ChildIsDescendant | src/process_tree.rs:10-64 | every process with a readable parent is a descendant of that parent |
| Processes.ProcessTree.Ancestors | src/process_tree.rs:26-45 | when the walk ends, returns the pids met on it, in order, the first one included on demand |
| Processes.ParentIffFirst | src/process_tree.rs:31-37 | the parent is the one of the first edge listed for the child |
| Processes.AncestorsChain | src/process_tree.rs:26-45 | the ancestors form a chain of parents that ends with pid 1 or with a process that has no parent |
| Processes.AncestorsMembers | src/process_tree.rs:26-64 | with one parent each, the ancestors are exactly the pids that reach the process without passing below pid 1 |
| Processes.AncestorsAreReachers | src/process_tree.rs:26-64 | the same duality for every step of the walk, ended or not |
| Processes.WalkEndsIffNoRepeat | src/process_tree.rs:30-42 | the walk ends exactly when it meets no process twice |
| Processes.AncestorsDistinct | src/process_tree.rs:26-45 | an ended walk has no duplicates |
| Processes.AcyclicWalksEnd | src/process_tree.rs:30-42 | without a cycle every walk ends, several parents allowed |
| Processes.ParentCycleNeverEnds | src/process_tree.rs:30-42 | two processes that name each other as parent make the walk endless |
| Processes.Laminar | src/process_tree.rs:47-64 | with one parent each, two families are nested or disjoint, cycles or not |
| Processes.TreeHasOneParent | src/process_tree.rs:10-24 | the tree built from processes with different pids has one parent at most for each pid |
| PageWalk.AddFilePages | src/lib.rs:624-643 | the pages of a file map: frames, swap slots, and one page of RSS for each entry with a frame other than 0 |
| PageWalk.AddAnonymousPages | src/lib.rs:645-666 | the same for the other maps, which also count as anonymous |
| PageWalk.AddShm | src/lib.rs:602-623 | the first known segment with the key and identifier is referenced, otherwise the reference is unknown |
| PageWalk.WalkMaps | src/lib.rs:596-668 | the loop over the maps gives the frames, slots, segments and sizes of all maps together |
| PageWalk.FrameIff | src/lib.rs:624-666 | a frame is one of the process exactly when a map that is no segment enters it, and anonymous exactly when a map that is neither a segment nor of a file does |
| PageWalk.SlotIff | src/lib.rs:624-666 | the same for a swap slot, by type and offset |
| PageWalk.SegmentIff | src/lib.rs:602-623 | a mapped segment is unknown exactly when no known one has its key and identifier; otherwise one that has both is referenced, and no other |
| PageWalk.FirstShmAt | src/lib.rs:606-612 | and it is the first one with both |
| PageWalk.RssAndSize | src/lib.rs:596-655 | a map that is no segment adds one page of RSS for each of its entries with a frame other than 0; every map adds its size |
| PageWalk.GetProcessInfo | src/lib.rs:558-687 | succeeds exactly when every file is readable and the process is no kernel process, panics exactly on a missing page table size, and each field of the result is that of the walk or of the file it comes from |
| PageWalk.FramesAtMostRss | src/lib.rs:626-655 | the frames other than 0 take at most the RSS, and exactly the RSS when no frame is entered twice |
| PageWalk.AnonymousIsPart | src/lib.rs:624-668 | anonymous pages are pages of the process and every other frame comes from a file map |
| PageWalk.ShmOrderIrrelevant | src/lib.rs:606-612 | when key and identifier determine the segment, the order of the search has no influence |
| PageWalk.GroupRssBound | src/lib.rs:704-713 | the frames of a group other than 0 take at most what its processes have as RSS together |
| ProcessGroups.GetProcessesGroupInfo | src/lib.rs:691-726 | unions of the page sets and sums of the counts of exactly these processes |
| ProcessGroups.GroupOfOne | src/lib.rs:691-726 | the group of nobody is empty, the group of one process has each field of that process |
| ProcessGroups.GroupsJoin | src/lib.rs:691-726 | a group of two lists has the unions of their pages and the sums of their counts |
| ProcessGroups.GroupPermuted | src/lib.rs:704-713 | a group does not depend on the order of its processes |
| ProcessGroups.GroupingConserves | src/groups.rs:235-240 | groups by key, collected in any order, hold a permutation of the processes |
| ProcessGroups.GroupingPermuted | src/groups.rs:263-287 | a permutation of the processes gives the same groups up to the order inside each |
| Reports.ClassesCover | src/groups.rs:263-287 | the classes of a key together have the pages of all the processes |
| Splitters.GroupByKey | src/groups.rs:269-286 | whatever the order of the keys, nobody is left and each group is one equivalence class |
| Splitters.CollectProcesses | src/groups.rs:291-296 | every group is emptied once, in an arbitrary order |
| Splitters.ProcessSplitterUid.Split | src/groups.rs:316-335 | one group for each uid, with the user name as its name |
| Splitters.ProcessSplitterUid.Collect | src/groups.rs:339-344 | the groups one after the other by increasing uid |
| Splitters.CollectedAreSorted | src/groups.rs:339-344 | the processes handed on by the split by uid are sorted by uid |
| Splitters.ProcessSplitterEnvVariable.Split | src/groups.rs:263-287 | one group for each value of the variable, and one for the processes without it |
| Splitters.ReadFilters | src/groups.rs:180-195 | the loop of `new` reads the whole list or fails; its warning about an unread rest cannot be issued |
| Splitters.InputAccounted | src/groups.rs:170-202 | `new` accepts exactly the ASCII inputs that are texts of filters with one character skipped between neighbours, and keeps those texts |
| Splitters.ListNamesMatch | src/groups.rs:181-185 | each kept name reads alone as its own filter, all of it |
| Splitters.OtherIsNoName | src/groups.rs:217-228 | no kept name is "Other", so that the last group replaces none |
| Splitters.ProcessSplitterCustomFilter.New | src/groups.rs:170-202 | the name, filters and texts of the input, no group yet, or the error of the first filter that cannot be read |
| Splitters.ProcessSplitterCustomFilter.Split | src/groups.rs:211-229 | the new groups are those of the processes that are kept, by the text of the first filter that accepts them, "Other" for the rest |
| Splitters.ProcessSplitterCustomFilter.Collect | src/groups.rs:235-240 | the processes of all groups, in an arbitrary order of the groups |
| Splitters.CustomAt | src/groups.rs:217-228 | the group of a name that does not come back holds those its filter is the first to accept, in order |
| Memstats.FirstMatchPartition | src/groups.rs:217-228 | with distinct texts, group k holds in order the processes that filter k accepts and no earlier one does, "Other" those that none accepts |
| Memstats.CustomSplitHoldsKept | src/groups.rs:211-240 | collecting a custom split gives exactly the processes whose group was not replaced |
| Memstats.CustomSplitConservesIff | src/groups.rs:223-223 | a custom split conserves the processes exactly when none falls in a replaced group |
| Memstats.RepeatedNameIsEmpty | src/groups.rs:217-224 | the group of a repeated text is empty |
| Memstats.RepeatedFilterAccepted | src/groups.rs:170-202 | every filter can be given twice without an error |
| Memstats.RepeatedFilterLosesAll | src/groups.rs:217-228 | with `true()` given twice every process is lost |
| Reports.OtherPages | src/groups.rs:76-86 | the pages of the groups with another name, whatever the order of iteration |
| Reports.Display | src/groups.rs:75-147 | one row for each group: sizes of its page sets, and of what the other names do not have |
| Reports.TableTells | src/groups.rs:107-139 | each row is about one group: its name, the number of its processes, the bytes of its pages and of its anonymous pages, in memory and in swap |
| Reports.ProcsAddUp | src/groups.rs:107-139 | the numbers of processes of a report by key add up to the number of processes |
| Reports.AnonAtMostRss | src/groups.rs:107-117 | the anonymous cells are at most the RSS cells |
| Reports.ReportBrackets | src/groups.rs:75-119 | with distinct names the USS columns add up to the pages of exactly one group, and the union lies between the sums of USS and RSS, in memory and in swap |
| Reports.RssBound | src/groups.rs:112-116 | whatever the names, the union is at most the sum of the RSS |
| Reports.RowsPermuted | src/groups.rs:75-147 | a table of the groups of some processes is a table of the groups of the same processes in another order |
| Reports.TablesAgree | src/groups.rs:75-147 | two tables of the same groups have the same rows, whatever the order of iteration |
| Accounting.UnionAtMostSum | src/groups.rs:112-117 | the union of the page sets is at most the sum of their sizes, with equality exactly when no two overlap |
| Accounting.UssIdentity | src/groups.rs:112-119 | exclusive sizes add up to the pages of exactly one member, are at most the union, and meet it exactly without overlap |
| Reports.DistinctNamesExact | src/lib.rs:523-527 | with distinct names every USS cell counts exactly the pages that no other group has |
| Reports.UssExactIffNamesDistinct | src/lib.rs:523-527 | that holds for every list of processes with these keys exactly when different keys have different names |
| Totals.UidUssExactIff | src/groups.rs:316-335 | for the report by uid: exactly when these users have different names |
| Totals.EnvUssExactIff | src/groups.rs:263-287 | for the report by a variable: exactly when these values are shown differently |
| Totals.SharedUserName | src/groups.rs:316-335 | two processes of two users of one name: a page of USS is shown that is of no group only |
| Accounting.MergeKeepsUnion | src/lib.rs:704-713 | merging members of a family of page sets keeps the union |
| Accounting.MergeBounds | src/groups.rs:112-119 | a merged member has at least the exclusive pages and at most the pages of its parts together |
| Reports.CoarserPages | src/lib.rs:704-713 | the pages of the classes of a coarser key are the merged pages of the classes of the key |
| Reports.CoarserReport | src/groups.rs:75-119 | a row of the report by a coarser key has at most the RSS of the rows it merges and, these having distinct names, at least their USS; the pages of all groups are the same; in memory and in swap |
| Totals.OrMergesGroups | src/groups.rs:217-228 | the split by one `or` is the split by its children with their groups merged |
| Totals.OrAgainstChildren | src/groups.rs:75-119 | the row of an `or` has at most the RSS and at least the USS of the rows of its children together |
| Memstats.RunUid | src/bin/memstats.rs:719-726 | a report by uid of the given processes, and a permutation of them handed on |
| Memstats.RunEnv | src/bin/memstats.rs:728-735 | a report by variable of the given processes, and a permutation of them handed on |
| Memstats.UidReportTells | src/bin/memstats.rs:719-726 | a report by uid has one group for each uid: the processes of this uid in their order, under the name of the user |
| Memstats.EnvReportTells | src/bin/memstats.rs:728-735 | a report by variable has one group for each value, and one for the processes that lack the variable, in their order |
| Memstats.RunFilter | src/bin/memstats.rs:762-767 | succeeds exactly on a valid list, with its report, and hands on exactly the processes kept |
| Memstats.ReportPermuted | src/bin/memstats.rs:719-767 | a report on some processes is a report on the same processes in another order |
| Memstats.ReportsAgree | src/bin/memstats.rs:719-767 | two reports of one split on the same processes have the same rows |
| Memstats.RunsAgree | src/bin/memstats.rs:719-767 | two runs of one plan on the same processes show the same rows in each report |
| Runs.OutcomesAgree | src/bin/memstats.rs:719-767 | two runs of `scan_groups` on the same processes both panic, or agree report by report |
| Memstats.PidExpressionParses | src/bin/memstats.rs:742-756 | the expression built for any non-empty list of pids is one filter, consumed whole |
| Memstats.PidReport | src/bin/memstats.rs:742-756 | its split is one group of exactly the processes whose pid is listed, and "Other" for the rest |
| Memstats.PidExpressionText | src/bin/memstats.rs:742-756 | one pid is a call of `pid`, two pids are an `or` of two calls |
| Memstats.PidExpressionPush | src/bin/memstats.rs:742-756 | and one pid more is one call more at the end of the list |
| Runs.ScanGroups | src/bin/memstats.rs:719-767 | panics exactly when a custom list is invalid; otherwise there is one report for each requested split: by uid first, by variable next, by pids next, all about all the processes, then one for each custom list, from the last to the first, each about what the lists before it left |
| Runs.LastListFirst | src/bin/memstats.rs:762-767 | report i of the custom ones is that of the list i places before the end of the reversed command line |
| Runs.Groups | src/bin/memstats.rs:526-545 | the custom reports are in the order of the command line, after those by uid, by variable and by pids |
| Runs.ReversedAt | src/bin/memstats.rs:531-531 | the reversed list has at each place what the list has at the opposite place |
| Runs.ScanCustom | src/bin/memstats.rs:761-767 | the last loop panics exactly when one of the lists left is invalid, and otherwise adds one report for each of them |
| Memstats.NothingLost | src/bin/memstats.rs:719-767 | without repeated texts inside a list, the processes in some group after each split are all the processes |
| Memstats.ReportedAt | src/bin/memstats.rs:719-767 | report i of a run is the table of split i on the survivors of the splits before it |
| Memstats.ScanSingle | src/bin/memstats.rs:593-595 | the union of the pages of all processes |
| Totals.SplitCovers | src/bin/memstats.rs:719-767 | the groups of a split together have the pages of the processes that are in some group |
| Totals.RunCovers | src/bin/memstats.rs:719-767 | without repeated texts the groups of every report of a run have exactly the pages of a single scan |
| Totals.ReportBounds | src/bin/memstats.rs:719-767 | the pages of the processes in some group are at most the summed RSS and, the names telling the groups apart, at least the summed USS |
| Totals.ReportAgainstSingle | src/bin/memstats.rs:593-614 | the same for report i of a run without repeated texts and the total of a single scan |
| IoMem.PfnToIndex | src/lib.rs:54-75 | the number of RAM frames below a RAM frame other than 0, `None` exactly for the others, without overflow |
| IoMem.IndexToPfn | src/lib.rs:78-91 | the RAM frame with this many RAM frames below it, `None` exactly from their number on, without overflow |
| IoMem.MutualInverses | src/lib.rs:54-91 | the two conversions undo each other on all frames but 0 and on all indices below the number of frames |
| IoMem.IndexMonotone | src/lib.rs:54-75 | greater frames have greater indices, all below the number of frames |
| RamWalk.IndexedIff | src/lib.rs:54-75 | the frames with an index are those other than 0 of which some byte is in a map, its last byte included |
| IoMem.SumsFitIff | src/lib.rs:70-70 | the sum fits in 64 bits for every frame exactly when it does for the last frame of the last map |
| IoMem.RealPagesFit | src/lib.rs:70-70 | it always does for pages of two bytes or more |
| IoMem.OneBytePagesOverflow | src/lib.rs:70-70 | two maps and pages of one byte for which it does not |
| Ranges.RankInRange | src/lib.rs:69-73 | the running offset plus the position in the map is the number of covered frames below |
| RamWalk.PfnIsInRam | src/lib.rs:95-107 | the first RAM map, counted among RAM maps, that holds the address of the frame as computed in 64 bits |
| RamWalk.RamIff | src/lib.rs:97-99 | the RAM maps are those named "System RAM" |
| RamWalk.AddressFits | src/lib.rs:100-100 | for an address that fits in 64 bits, the test is whether the map holds the first byte of the frame |
| RamWalk.AddressWraps | src/lib.rs:100-100 | a frame beyond all memory that is found in a map |
| RamWalk.RefusedFrame | src/lib.rs:54-107 | a frame with an index is refused exactly when its map holds only part of its page, at its start or up to its first byte |
| RamWalk.HeldHasIndex | src/lib.rs:54-107 | a frame other than 0 held by a map is held by no other, has its index in the range of that map, and every map is counted |
| RamWalk.WalksAgreeIff | src/lib.rs:54-107 | every frame with an index is found in RAM exactly when all maps are aligned |
| RamWalk.CountIsExactIff | src/lib.rs:110-126 | the count is at most the number of indices, and equal exactly when every map ends with a page |
| RamWalk.CountedIff | src/lib.rs:110-126 | a map counts the frames of 4096 bytes whose last byte it holds |
| RamWalk.CountOfMap | src/lib.rs:110-126 | the count of one map is the number of these frames |
| RamWalk.CountsJoin | src/lib.rs:110-126 | counts of maps add up |
| RamWalk.ReachIff | src/lib.rs:110-126 | the indices of the counted frames are all below the count exactly when every map before the last counted one ends with a page |
| RamWalk.PartialPageNotCounted | src/lib.rs:110-126 | a common first map whose last page is not counted |
| RamWalk.PartialPageNotInRam | src/lib.rs:95-107 | a frame with an index that is not found in RAM |
| CompoundPages.AddFlags | src/lib.rs:173-177 | one more page in exactly the counters, among the first 27, of its flags; the other counters untouched |
| CompoundPages.ComputeCompoundPages | src/lib.rs:163-211 | succeeds exactly without a stray tail; 28 counters, of which counter k below 27 is the cardinality of the set of pages whose effective flags have bit k, the last one being 0 |
| CompoundPages.PageItself | src/lib.rs:163-211 | a page without bit 16 is counted with its own flags |
| CompoundPages.TailInherits | src/lib.rs:180-195 | pages with bit 16 after a head are counted with their flags and those of the head except bit 15 |
| CompoundPages.LegalIff | src/lib.rs:196-198 | there is no stray tail exactly when every page with bit 16 has bit 15 or comes after one that has, only pages with bit 16 being between them |
| CompoundPages.StrayTailIff | src/lib.rs:180-198 | a tail is outside any run exactly when it is no head and is first or follows a page outside any run |
| CompoundPages.LoneTail | src/lib.rs:196-198 | a single tail makes the assertion fail |
| CompoundPages.RunContinues | src/lib.rs:180-195 | a tail after a page of a run has the same head, and its flags except COMPOUND_HEAD |
| CompoundPages.HeadAndTailBits | src/lib.rs:183-185 | inheriting changes neither whether a page counts as a head nor whether it counts as a tail |
| CompoundPages.CountersConserve | src/lib.rs:163-211 | head and tail counters are the raw counts; the others lie between the raw count and the number of pages |
| CompoundPages.CountsAdd | src/lib.rs:163-211 | counts add over concatenation when the second part does not start with a tail |
| CompoundPages.LegalAdds | src/lib.rs:198-198 | and the whole is free of stray tails exactly when both parts are |
| Viewer.BlankImage | src/bin/kpageflags-viewer.rs:421-429 | the first image is a square of the least order that holds `get_pfn_count` pixels, all of them (79, 79, 79), and does not exist beyond 2^30 pixels |
| Viewer.SideFitsIff | src/bin/kpageflags-viewer.rs:425-427 | the side fits in 16 bits exactly up to order 15 |
| Viewer.Locate | src/bin/kpageflags-viewer.rs:304-307 | the index of a frame, if it has one; then the assertion on the two conversions holds |
| Viewer.PaintDot | src/bin/kpageflags-viewer.rs:303-330 | succeeds exactly for a frame whose index is on the curve; then one more frame is shown where its index is placed, the others still are |
| Viewer.GenImage | src/bin/kpageflags-viewer.rs:288-334 | succeeds exactly when all segments have their length and all frames an index on the curve; then the pixel of each frame shows its three selected flags, every other pixel is that of the default image |
| Viewer.PixelTells | src/bin/kpageflags-viewer.rs:311-330 | the red, green and blue of the pixel of a frame are 255 exactly when the frame has all of the first, second and third flags, 0 otherwise, and it is opaque |
| Viewer.SpotsDiffer | src/bin/kpageflags-viewer.rs:304-309 | different frames are painted at different places |
| Viewer.SegmentsConsistent | src/bin/kpageflags-viewer.rs:177-193 | the segments cut from the maps give one flag set to each frame |
| Viewer.SegmentsDrawableIff | src/bin/kpageflags-viewer.rs:288-334 | these segments can be painted on the square of an order exactly when frame 0 is in none and the greatest index is on the square |
| Viewer.IndicesBelowCountIff | src/bin/kpageflags-viewer.rs:421-427 | the painted indices are all below `get_pfn_count` exactly when frame 0 is in no segment and every map before the last counted one ends with a page |
| Viewer.ViewerDrawableIff | src/bin/kpageflags-viewer.rs:421-444 | on the image that the viewer makes: exactly when frame 0 is in no segment and the rounded size covers the greatest index, as it does when those maps end with pages |
| Viewer.ViewerImageTooSmall | src/bin/kpageflags-viewer.rs:421-444 | two maps without frame 0 that give five indices and an image of four pixels |
| Viewer.FrameZeroNotPainted | src/bin/kpageflags-viewer.rs:304-304 | a map that starts at address 0 cannot be painted on any image |
| Viewer.LargeMachineHasNoImage | src/bin/kpageflags-viewer.rs:425-427 | one map of more than 4 TiB has more frames than the greatest image has pixels |

## Left out

- Reading /proc, pagemaps, page flags and shared memory, user lookup, database connections and child processes: their
  results are inputs.
- Text that is not ASCII: the parser mixes byte and character offsets, and the splitters refuse such text. The
  `--filter` option of `memstats` calls the parser without that check.
- The 32-bit counter of the parenthesis scan: a text of two thousand million parentheses is not considered.
- IoMem.PfnToIndex: requires maps in increasing order that share no frame, all named "System RAM"; the source asserts
  the name and does not check the order. `IoMem.IndexToPfn`, `Viewer.Locate` and `Viewer.GenImage` require the same.
- PageWalk.WalkMaps: sizes are unbounded integers and the end of a map is not before its start; the 64-bit sums are not
  modelled.
- ProcessGroups.GetProcessesGroupInfo: the sums of page table sizes and of descriptors are unbounded integers.
- Processes.ProcessTree.Ancestors: required to have a walk that ends; `Processes.WalkEndsIffNoRepeat` says when.
- Reports.Display: the shared memory columns, the sorting of the rows by RSS and the units are not modelled.
- The parallel extension of sets (modelled as union), the memory limit that ends a scan early, and the exclusion of
  `memstats` itself from the scan.
- The Hilbert curve (an arbitrary injection on its square) and what it does with an index outside its square, the
  rounding of the logarithm, the transport of the segments, the user interface, and the images of the other modes.
- Viewer.BlankImage: does not model the lighter colour that RAM pixels get before the first image is shown; they are
  reached by the same conversions as in `gen_image`.
- PageWalk.GetProcessInfo: takes the list of maps as read; maps whose pages cannot be read are skipped before.
- Log messages and warnings, except those proved impossible.
- The other tools of the repository (snapshots, differences, Oracle memory, demonstrations).
