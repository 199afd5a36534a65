# fire-mr: a verified model of a small MapReduce engine

fire-mr is a tiny dataflow runtime for tabular records. A record (row) maps
field names to dynamically typed values. A caller uses the `FireMR` builder
to chain nodes: read an input stream by name, map, sort, reduce over
equal-key groups, aggregate (fold) over equal-key groups, merge-join two
sorted streams, and save into a buffer. Then the caller runs the chain
with concrete input streams. The run orders the upstream nodes with an
iterative depth-first traversal. Each node's output is cached on the
node, and the run returns the output of the last node. An operation
library supplies the mappers, reducers, aggregators and joiners that the
nodes are parametrised with.

This project models the engine (`lib/mr.py`) and the operation library
(`lib/operations.py`) in Dafny, and proves what they promise.

- **Values** (`values.dfy`):
  - A row is `map<string, Value>`. A value is None, an integer, a real, a
    string or a list of reals.
  - A key is the sequence of a row's key-column values. Keys are compared
    with a strict total order, the lexicographic tuple comparison.
  - Failures are `Result` values. A missing field (`KeyError`), a type
    mismatch (`TypeError`), an unknown input name, an empty separator and
    an empty builder are the error cases.
- **Sorting and grouping** (`sorting.dfy`, `grouping.dfy`):
  - `sorted` is a stable insertion sort.
  - `itertools.groupby` becomes the maximal runs of rows with equal keys.
    A partition predicate characterises the runs, and the runs are the
    only partition that satisfies it.
- **The node kinds** (`nodes.dfy`, `join.dfy`):
  - MapMe, SortMe, ReduceMe and AggregateMe are functions on a finite
    input.
  - AggregateMe also has a method with the source's fold loop.
  - JoinMe is a method with the source's three cursor loops. It is proved
    equal to a recursive specification of the joiner calls. A separate
    theorem describes those calls on sorted inputs.
- **The graph** (`graph.dfy`):
  - Nodes live in an arena and name their inputs by index.
  - `Eval` is what each node yields for a run's inputs.
- **The scheduler** (`scheduler.dfy`): `dfs_run` and `get_path` are
  methods with the source's stack, visited set and path loops.
- **The engine** (`engine.dfy`):
  - The `Arena` class holds the nodes, their cached outputs
    (`ParametrizedGraph.output`) and the save buffers.
  - The `FireMR` class holds the list of node handles that each builder
    call copies and extends.
  - Running a path is a method that updates the caches and buffers in
    place. It is proved to return `Eval` of the last node.
- **The operations** (`mappers.dfy`, `aggregators.dfy`, `reducers.dfy`,
  `joiners.dfy`, `weekhour.dfy`): of the library's operations, only the
  geometry, logarithm and date-format ones are left out.
- **Scenarios** (`scenarios.dfy`): the engine's outer-join test, stated on
  rows of the same shape.

Timestamps are integer microseconds since 0001-01-01 00:00, which was a
Monday in the proleptic Gregorian calendar.

## Model

| member | source | states |
|---|---|---|
| Values.Add | lib/operations.py:170-174 | `+` succeeds exactly on two numbers, two strings or two lists. On numbers it is the numeric sum, and on two integers it stays an integer. Anything else is a type mismatch. |
| Values.Mul | lib/operations.py:331-336 | `*` succeeds exactly on two numbers and yields their numeric product. |
| Values.KeyLtStrictTotal | lib/mr.py:103-105 | The tuple order used on key tuples is irreflexive, transitive and connected (a strict total order). |
| Values.GetKey | lib/mr.py:46-47 | `get_key` yields the key columns' values in order. It fails with a missing-field error naming a key column the row lacks. |
| Values.FirstMissingColumn | lib/mr.py:46-47 | When a row lacks some key column, the column reported is the first key, in key order, that the row lacks: every earlier key is present. |
| Sorting.SortBy | lib/mr.py:103-105 | The sort's output is a permutation (same multiset) of its input. |
| Sorting.SortBySorted | lib/mr.py:103-105 | Under a strict total order the output is non-decreasing by key. |
| Sorting.SortByStable | lib/mr.py:103-105 | The rows with any given key keep their relative input order. |
| Grouping.Runs | lib/mr.py:30-33 | The groupby runs concatenate to the input, are non-empty, share one key within a run, and differ in key between neighbours. |
| Grouping.RunsUnique | lib/mr.py:30-33 | Any partition with those four properties equals the groupby runs, so the runs are the maximal equal-key runs. |
| Grouping.RunKeysIncrease | lib/mr.py:41-44 | On key-sorted input the first keys of successive runs strictly increase. |
| Grouping.Grouped | lib/mr.py:41-43 | The groups' rows are the maximal equal-key runs of the input, in order, and each group's key is the key of every row in it. |
| Nodes.ConcatMapOk | lib/mr.py:19-22 | Applying a row operation element by element succeeds exactly when it succeeds on every element. The result is the in-order concatenation of the outputs. |
| Nodes.ConcatMapAppend | lib/mr.py:19-22 | Processing `xs + ys` is processing `xs` then `ys`, and the first failure wins. |
| Nodes.MapMeConcatenates | lib/mr.py:19-22 | MapMe yields the in-order concatenation of `mapper(r)` over the input rows, and fails exactly when the mapper fails on some row. |
| Nodes.SortMeSpec | lib/mr.py:103-105 | SortMe fails exactly when some row lacks a key column. Otherwise the output is a permutation of the input, sorted by key tuple, and stable for equal keys. |
| Nodes.ReduceMeConcatenates | lib/mr.py:30-33 | ReduceMe yields the in-order concatenation of `reducer(group)` over the maximal equal-key runs. It fails exactly when the reducer fails on a run. |
| Nodes.Seed | lib/mr.py:93 | The initial state has exactly the key columns as fields, and each field holds the key value at that name's last position (a repeated name is overwritten). |
| Nodes.SeedFromRow | lib/mr.py:93 | For a run's first row, the initial state is that row restricted to the key columns. |
| Nodes.AggregatedOnePerRun | lib/mr.py:91-96 | AggregateMe yields exactly one state per maximal equal-key run, in order. The state is seeded with the run's key columns and folded over the run's rows in order. It fails exactly when some run's fold fails. |
| Nodes.AggregateRuns | lib/mr.py:91-96 | The same statement for any sequence of non-empty runs. |
| Nodes.FoldRun | lib/mr.py:94-95 | The loop `state = aggregator(g, state)` over a group computes the recursive fold. |
| Nodes.AggregateMe | lib/mr.py:91-96 | The loop over the runs, each seeded and folded, yields the AggregateMe output (the function that `AggregatedOnePerRun` describes). |
| Join.Next | lib/mr.py:41-44 | The grouper cursor holds a group exactly while the groups are not exhausted. Past the end it is the `(None, None)` end marker. |
| Join.MergeBoth | lib/mr.py:55-73 | The first loop ends with one cursor exhausted. The rows it yields, followed by the joiner calls still due, give the whole join output. |
| Join.DrainFirst | lib/mr.py:75-78 | The loop over the rest of the first side yields the calls still due for that side. |
| Join.DrainSecond | lib/mr.py:80-83 | The loop over the rest of the second side yields the calls still due for that side. |
| Join.Drain | lib/mr.py:75-83 | The two trailing loops together yield the remaining calls once one side is exhausted. |
| Join.Merge | lib/mr.py:50-83 | The three cursor loops yield exactly the concatenated joiner outputs over the call sequence `Calls`. |
| Join.JoinMe | lib/mr.py:49-83 | JoinMe fails on a missing key column of either input. Otherwise it yields the joiner outputs over the merge walk's calls. |
| Join.CallKeysUnion | lib/mr.py:55-83 | The keys the merge walk hands to the joiner are exactly the keys of both sides. |
| Join.CallsOrdered | lib/mr.py:55-83 | On increasing groups, the calls come in strictly increasing key order, so each key is handed over once. Each call carries that key's group from each side, or `[]` for a side without the key. |
| Join.JoinedSorted | lib/mr.py:41-83 | On key-sorted inputs JoinMe succeeds. Its calls cover exactly the keys present in either input, once each and in increasing order. Each call's left and right arguments are all rows of that key from the first and second input, in input order, and never both empty. |
| Join.GroupedSorted | lib/mr.py:41-44 | On sorted input the groups are well formed, their keys increase and are exactly the keys present, and together they hold the input in order. |
| Join.LookupWithKey | lib/mr.py:41-44 | In well-formed groups, the rows grouped under a key are exactly the input rows carrying that key. |
| Graph.Inputs | lib/mr.py:162-164 | A node has at most two inputs, and only a read node has none. |
| Graph.ReadIterMe | lib/mr.py:132-134 | A read node yields `kwargs[name]` and fails exactly when the name was not passed. |
| Graph.UpstreamBelow | lib/mr.py:166-171 | A node is upstream of itself, and everything upstream of it was built no later than it. |
| Graph.UpstreamClosed | lib/mr.py:166-171 | The nodes upstream of a node include all their own inputs. |
| Graph.ClosedHoldsUpstream | lib/mr.py:166-171 | A set closed under inputs that contains a node contains everything upstream of it. |
| Graph.UpstreamAllClosed | lib/mr.py:248-254 | The nodes upstream of a builder's graphs are closed under inputs. |
| Graph.UpstreamFailure | lib/mr.py:166-171 | When any node upstream of a node fails, the node fails too. |
| Scheduler.PushInputs | lib/mr.py:145-149 | The inner loop pushes exactly the top node's unvisited inputs, without repeats, and marks them visited. It reports whether it pushed any. Afterwards every input of the top node is visited. |
| Scheduler.DfsRun | lib/mr.py:137-153 | `dfs_run` returns, without repeats, exactly the nodes upstream of the start node that were not yet visited. The start node comes last. Those nodes are added to the visited set, which stays closed under inputs. |
| Scheduler.VisitGraph | lib/mr.py:251-253 | One pass of the `get_path` loop. An unvisited graph extends the path with the rest of its upstream nodes, and a visited one leaves the path unchanged. |
| Scheduler.GetPathStep | lib/mr.py:251-253 | One iteration keeps the path equal, without repeats, to the nodes upstream of the graphs seen so far. |
| Scheduler.GetPath | lib/mr.py:248-254 | `get_path` lists every node upstream of the graphs exactly once. It is empty exactly when there are no graphs. It ends with the last graph unless an earlier graph already reached it. |
| Engine.Arena.constructor | lib/mr.py:179-180 | The arena starts with no nodes, outputs or buffers. |
| Engine.Arena.NewSink | lib/mr.py:196-201 | A new buffer with the given contents is added, and nothing else changes. |
| Engine.Arena.AddNode | lib/mr.py:157-160 | A node whose inputs already exist is appended with no cached output. |
| Engine.Arena.SaveMe | lib/mr.py:112-115 | SaveMe appends every input row to its buffer, in order. It keeps what the buffer held and leaves the nodes, the caches and every other buffer unchanged. |
| Engine.Arena.ApplyMe | lib/mr.py:19-105 | A one-input node other than save yields its node kind's output on the input. |
| Engine.Arena.RunNode | lib/mr.py:166-171 | `ParametrizedGraph.run` returns the node's `Eval` output and caches it on success. A non-empty cached output is returned without changing anything. Other caches change only upstream, and only from empty to a sound output. Buffers only grow, and only those of upstream saves. A save leaves its input at the end of its buffer. |
| Engine.Arena.RunInput | lib/mr.py:167 | Running one input of a node yields that input's `Eval` output, with the same guarantees on caches and buffers. |
| Engine.Arena.Reset | lib/mr.py:261-262 | Resetting clears the cache of exactly the nodes on the path, and nothing else changes. |
| Engine.Arena.RunStep | lib/mr.py:264-265 | Running one path node yields its `Eval` output and caches it on success. The caches stay sound, and buffers only grow. |
| Engine.Arena.RunPathStep | lib/mr.py:264-265 | One iteration of the run loop keeps every node run so far cached with its `Eval` output. |
| Engine.Arena.RunPath | lib/mr.py:264-267 | Running the path in order returns the last node's `Eval` output when every path node succeeds, and otherwise the error of the first path node that fails. An empty path is an error. |
| Engine.OutcomeOk | lib/mr.py:264-267 | A path whose nodes all hold sound cached outputs gives the last node's output. |
| Engine.ResetSound | lib/mr.py:261-262 | Once the caches of a set of nodes are cleared, the cache is consistent on that set. |
| Engine.PathGivesOutcome | lib/mr.py:248-267 | Running a `get_path` path gives what `run` promises over the builder's graphs. |
| Engine.FireMR.constructor | lib/mr.py:179-180 | A new builder has no graphs. |
| Engine.FireMR.ReadFromIter | lib/mr.py:189-194 | The new builder holds the receiver's graphs plus one new read node. The receiver's graphs and the buffers stay unchanged. |
| Engine.FireMR.Save | lib/mr.py:196-201 | On a builder without graphs this is an error and nothing changes. Otherwise the new builder is the receiver's graphs plus one save node reading the last graph. |
| Engine.FireMR.Write | lib/mr.py:241-246 | The same node as save, on an output buffer. |
| Engine.FireMR.Map | lib/mr.py:203-208 | This appends a map node reading the last graph, with the same copy-and-extend behaviour. An empty builder is an error. |
| Engine.FireMR.Sort | lib/mr.py:210-215 | This appends a sort node reading the last graph. An empty builder is an error. |
| Engine.FireMR.Aggregate | lib/mr.py:217-222 | This appends an aggregate node reading the last graph. An empty builder is an error. |
| Engine.FireMR.Reduce | lib/mr.py:224-229 | This appends a reduce node reading the last graph. An empty builder is an error. |
| Engine.FireMR.Join | lib/mr.py:231-239 | This appends a join node whose first input is this builder's last graph and whose second input is the other builder's last graph. Only this builder's graphs are carried over. |
| Engine.FireMR.GetPath | lib/mr.py:248-254 | Every node upstream of the builder's graphs appears exactly once, and the last graph comes last. |
| Engine.FireMR.Run | lib/mr.py:256-267 | With no graphs the run is an error. Otherwise it runs a path that lists every upstream node once and ends with the last graph. It returns the last graph's `Eval` output when every upstream node succeeds, and else the error of the first node of that path that fails. Both outcomes are stated through `Eval` and the path alone, so caches left by earlier runs do not change them. Buffers only grow, and only those of upstream saves. A builder ending in a save leaves its records at the end of the buffer. |
| Engine.FireMR.RunReset | lib/mr.py:264-267 | The same outcome, on the same kind of path, once the upstream caches have been cleared. |
| Mappers.PunctuationRanges | lib/operations.py:75-77 | The punctuation test matches exactly the 32 characters of `string.punctuation`. |
| Mappers.RemovePunctuation | lib/operations.py:75-77 | The filtered text contains no punctuation and is no longer than the input. Text without punctuation is unchanged, and a single punctuation character is dropped, not replaced. |
| Mappers.RemovePunctuationAppend | lib/operations.py:75-77 | Filtering distributes over concatenation, so the other characters keep their order. |
| Mappers.FilterPunctuation | lib/operations.py:79-82 | The mapper yields one row with the column's punctuation removed and every other field unchanged. A missing column or a non-text value is an error (an empty list is iterated as empty text). |
| Mappers.Lower | lib/operations.py:97-98 | Upper-case ASCII letters map to their lower-case letter, and other characters are unchanged. |
| Mappers.LowerString | lib/operations.py:97-98 | Lower-casing keeps the length and acts character by character. |
| Mappers.LowerStringIdempotent | lib/operations.py:97-98 | Lower-casing twice is lower-casing once, and already lower-case text is unchanged. |
| Mappers.LowerCase | lib/operations.py:100-103 | The mapper yields one row with the column lower-cased and every other field unchanged. A missing column or a non-text value is an error. |
| Mappers.Grep | lib/operations.py:120-122 | The row is yielded unchanged exactly when the condition holds on the column, and otherwise nothing. A missing column is an error. |
| Mappers.GrepSelects | lib/operations.py:120-122 | Mapping Grep over rows keeps exactly the rows whose column satisfies the condition, in order. |
| Mappers.DummyIdentity | lib/operations.py:155-156 | Mapping Dummy over rows yields the rows unchanged. |
| Mappers.FirstOccurrence | lib/operations.py:140-142 | The first occurrence found is an occurrence with none earlier. No occurrence means the text is free of the separator. |
| Mappers.SplitOn | lib/operations.py:140-142 | `str.split(sep)` yields at least one part, and no part contains the separator. |
| Mappers.SplitOnJoin | lib/operations.py:140-142 | Joining the parts with the separator gives back the text. |
| Mappers.WordEnd | lib/operations.py:140-142 | A word's end is the first whitespace at or after its start, or the end of the text. |
| Mappers.Words | lib/operations.py:140-142 | `str.split()` yields only non-empty parts without whitespace. |
| Mappers.WordsKeepText | lib/operations.py:140-142 | The words concatenate to the text with its whitespace removed. |
| Mappers.WordsOfJoin | lib/operations.py:140-142 | Splitting words joined by single spaces gives back the words. |
| Mappers.SplitRows | lib/operations.py:144-148 | There is one row per part. Each is the input row with only the column replaced by that part. |
| Mappers.Split | lib/operations.py:144-148 | A missing column, a non-text value and an empty separator are errors. Otherwise there is one copy of the row per part of the column's text. |
| Mappers.SplitRoundTrip | lib/operations.py:140-148 | With an explicit separator, the output rows' column values joined by the separator give back the original text. |
| Mappers.Cut | lib/operations.py:546-547 | Cut yields one row whose fields are exactly the listed columns, with their values copied. A missing column is an error naming it. |
| Mappers.ProductFromValue | lib/operations.py:333-335 | The running product succeeds exactly when every listed column is present and numeric. Its value is the start value times the columns' product, and it stays an integer on integers. |
| Mappers.Product | lib/operations.py:331-336 | The result column starts at 1 and is multiplied by each listed column. The output is one row with that column set and every other field unchanged. A missing or non-numeric column is an error. |
| Mappers.Divide | lib/operations.py:458-461 | A falsy denominator (0, empty, None) gives None, and otherwise the quotient. Every other field is unchanged. A missing denominator, or a missing or non-numeric operand while the denominator is truthy, is an error. |
| Mappers.Velocity | lib/operations.py:212-215 | A falsy time gives None, and otherwise distance / time · 3600 / 1000. Every other field is unchanged, and missing or non-numeric operands are errors. |
| Aggregators.Sum | lib/operations.py:170-174 | The state's column (0 when absent) gets the row's column added. Every other state field is unchanged. A missing row column or a type mismatch is an error. |
| Aggregators.Count | lib/operations.py:188-192 | The state's column (0 when absent) gets 1 added, and every other state field is unchanged. |
| Aggregators.SumFold | lib/operations.py:170-174 | Folding Sum over a run adds the run's column total to the state's column. The other fields are kept. |
| Aggregators.CountFold | lib/operations.py:188-192 | Folding Count over a run of n rows adds n to the state's column. The other fields are kept. |
| Reducers.First | lib/operations.py:222-225 | FirstReducer yields at most one row. It yields nothing exactly on an empty group, and otherwise the group's first row. |
| Reducers.ValueGtStrictTotal | lib/operations.py:353-355 | Descending value order is a strict total order. |
| Reducers.MaxSelects | lib/operations.py:353-355 | Max yields min(n, group size) rows drawn from the group (a sub-multiset), in descending value order. Each selected row's value is at least every unselected row's value. |
| Reducers.MaxStable | lib/operations.py:353-355 | When n covers the group, rows with equal values keep their group order, as `heapq.nlargest` keeps them. |
| Reducers.Vocabulary | lib/operations.py:302-305 | The dictionary's keys are exactly the words seen, without repeats, in first-seen order. |
| Reducers.VocabularyTotal | lib/operations.py:308 | The per-word counts sum to the number of rows. |
| Reducers.TfFrequencies | lib/operations.py:299-314 | Tf yields one row per distinct word, in first-seen order. It is the last row with the word column set to the word and the tf column set to count / total. |
| Reducers.TfSumsToOne | lib/operations.py:299-314 | On a non-empty group the tf values sum to 1. |
| Reducers.CountWords | lib/operations.py:301-306 | The counting loop fails exactly when some row lacks the column or holds a list there (a list cannot be a dictionary key). Otherwise it yields the distinct words in first-seen order, each with its number of occurrences. |
| Reducers.SumCounts | lib/operations.py:308 | `sum(words_dict.values())` is the total of the occurrence counts. |
| Reducers.EmitRows | lib/operations.py:309-314 | The output loop yields one row per distinct word with its frequency. |
| Reducers.Tf | lib/operations.py:299-314 | The whole reducer computes the Tf output that `TfFrequencies` and `TfSumsToOne` describe, including the error of a row without the column and nothing for an empty group. |
| Joiners.MergeFields | lib/operations.py:473-474 | `deepcopy(a).update(b)` has the fields of both rows, with `b`'s values winning. |
| Joiners.Pair | lib/operations.py:471-475 | Row `a` is merged with every row of `bs`, in order. |
| Joiners.CrossLength | lib/operations.py:469-475 | The cross product has |a|·|b| rows. |
| Joiners.CrossPairs | lib/operations.py:469-475 | The pair (a[i], b[j]) is merged at position i·|b|+j, in row-major order. |
| Joiners.CrossFrom | lib/operations.py:469-475 | Every row of the cross product is the merge of some pair. |
| Joiners.InnerSize | lib/operations.py:469-475 | Inner yields |a|·|b| rows, and nothing exactly when one side is empty. |
| Joiners.OuterCases | lib/operations.py:483-499 | Outer passes the other side through unchanged when one side is empty. When both sides have rows it is the inner join. |
| Joiners.LeftIsCross | lib/operations.py:507-516 | Left passes the `a` rows through when `b` is empty, and is the cross product otherwise. |
| Joiners.LeftCases | lib/operations.py:507-516 | Left yields nothing for an empty `a`, passes `a` through for an empty `b`, and otherwise is the inner join. |
| Joiners.RightIsSwappedLeft | lib/operations.py:524-533 | Right on (a, b) is Left on (b, a). |
| Joiners.RightOverwrites | lib/operations.py:524-533 | In Right, position j·|a|+i holds `b[j]` updated with `a[i]`, so `a`'s fields overwrite `b`'s. |
| Joiners.MergeKeepsKey | lib/operations.py:469-475 | Merging two rows that agree on the key columns keeps that key. |
| WeekHour.Timestamp | lib/operations.py:416-424 | A start or end column that is absent is a missing-field error. A value that is not a non-negative timestamp is a type mismatch. |
| WeekHour.NextHour | lib/operations.py:427 | The next top of the hour is strictly later and at most an hour later, and is a whole number of hours. |
| WeekHour.SameHour | lib/operations.py:427 | Every instant before the next top of the hour is in the same hour. |
| WeekHour.HourOfDay | lib/operations.py:430 | The hour of the day is below 24. |
| WeekHour.SlicesCover | lib/operations.py:426-441 | There are no slices exactly when enter ≥ leave. Otherwise the slices start at enter, end at leave, are contiguous and non-empty, and end at most at the next top of the hour. |
| WeekHour.SlicesWithinHour | lib/operations.py:426-441 | No slice crosses a top-of-hour boundary: its first and last instants lie in the same hour. |
| WeekHour.SlicesDuration | lib/operations.py:426-441 | The slice lengths add up to leave − enter, or to 0 when enter ≥ leave. |
| WeekHour.SliceRows | lib/operations.py:428-439 | There is one row per slice, each built from the input row. |
| WeekHour.SliceRowKeeps | lib/operations.py:428-437 | A slice row keeps every field of the input row except the six it sets, and adds only those. |
| WeekHour.SliceRowValues | lib/operations.py:430-437 | A slice row carries the slice's start and end, the hour and weekday of its start, its length in seconds, and the visit's total time. |
| WeekHour.SplitRows | lib/operations.py:414-441 | A successful split means both timestamps are valid and yields one row per hour slice of [enter, leave). |
| WeekHour.WeekHourSplit | lib/operations.py:414-441 | The source's while loop over (step start, step end) yields exactly the split rows, errors included. |
| WeekHour.HourTimesAddUp | lib/operations.py:426-441 | The hour_time values add up to the slices' total length, and every row carries the same total_time. |
| WeekHour.SplitShape | lib/operations.py:414-441 | The split yields zero rows exactly when enter ≥ leave. Otherwise the hour_time values sum to total_time (= leave − enter in seconds) and every row carries that total. The rows are contiguous, from enter to leave. |
| WeekHour.AcrossHoursExample | hw2/tests/test_operations.py:165-175 | A visit from 12:34:10.1794 to 14:39:12.68 on Tuesday 2017-09-12 falls into hours 12, 13 and 14, lasting 1549.8206 s, 3600 s and 2352.68 s, with a total of 7502.5006 s. |
| WeekHour.AcrossDaysExample | hw2/tests/test_operations.py:177-186 | A visit from 23:34:10.1794 on Monday to 01:34:12.68 on Tuesday falls into hours 23, 0 and 1, on Monday, Tuesday and Tuesday, with hour_time 1549.8206, 3600 and 2052.68 s and total_time 7202.5006 s. |
| Scenarios.TwoRuns | hw2/tests/test_mr.py:114-134 | Two rows of one word followed by two rows of another form exactly two groups. |
| Scenarios.JoinTestCalls | hw2/tests/test_mr.py:114-134 | On the join test's inputs the merge walk calls the joiner with both 'hello' groups, then the 'hi' rows alone, then the 'my' rows alone. |
| Scenarios.OuterJoinTest | hw2/tests/test_mr.py:114-134 | JoinMe with the outer joiner on `word` yields the 2×2 cross product of the 'hello' rows, then the unchanged 'hi' rows and 'my' rows. |

## Left out

- `ReadMe` and `FireMR.read_from_file` (lib/mr.py:117-125, 182-187): these read files and are not modelled. Input streams enter only by name, through `kwargs`.
- The execution-trace logging in `run` (lib/mr.py:258-259) and the `name` property: they only observe the run.
- `DistanceFromLonLat` and `Idf`: they use trigonometry and logarithms on floats.
- `DiffTime`, and the `strptime`/`strftime`/`%a` parts of `WeekHourSplit`: these are date-library parsing and formatting. Timestamps are integer microseconds. The start and end columns of a slice row hold its bounds as integers, not as formatted text. `WeekHour.Timestamp` reports a non-timestamp value as a type mismatch, where the source raises a parse error.
- Python generators are lazy and single-pass. Node outputs here are finite, fully computed sequences. The order in which a lazy pipeline would raise its first error is simplified: a node checks its key columns first.
- Floating point numbers are modelled as exact reals, with no rounding, infinities or NaN.
- Key order: Python raises `TypeError` when comparing key values of different kinds. The model orders kinds None < number < text < list instead. Python also treats `1 == 1.0` as the same key; the model keeps an integer and an equal real as different keys.
- `Mappers.LowerCase`: only ASCII letters are lower-cased. Unicode case mapping is not modelled.
- `Mappers.Product`: `str * int` and `list * int` repetition are treated as type errors instead of repetition.
- `Mappers.Grep`: the condition is a total predicate, so it cannot raise: it is a parameter.
- `Aggregators.Sum` and `Aggregators.Count` return a new state; the source updates the state dictionary in place and returns it. No caller keeps the old state, so the outcome is the same.
- `Scheduler.DfsRun`: the source's path is not a topological order in general. A node whose input is still on the stack counts that input as visited. No order is claimed; correct results come from `ParametrizedGraph.run` running missing inputs recursively, which `Engine.Arena.RunNode` models.
- `Engine.FireMR.Run`: a node whose cached output is empty (`[]` is falsy), in particular every save node, runs again whenever it is reached. Its buffer receives those rows again. The model reproduces this, but its contract states only that buffers grow and that the final save's rows end its buffer. It does not state how many times a buffer received the rows.
- `Engine.FireMR.Run`: the contract fixes the set of path nodes and the last one, not the order of the others. When several nodes fail, the error returned is that of the first failing node of the path actually run; which node that is follows from `dfs_run`'s order, which is not stated.
- Argument-name clashes between a node's parameters and the run's `kwargs` are not modelled.
- `Scenarios.OuterJoinTest`: the test's expected output is stated on any rows of the test's shape, and the hello rows' part is stated as the cross product. It is not a comparison with the literal dictionaries.
- The builder tests in hw2/tests/test_mr.py:9-57 and 153-158 pass an iterable directly where `ReadIterMe` expects a name. They do not match lib/mr.py:128-134 and are not modelled.
- `hw2/lib/algorithms.py` only wires the pipelines, and `hw2/bin/main.py` and `setup.py` are tooling. None of them is part of this model.
