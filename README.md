# KiCad netlist comparator: a Dafny model

`script.py` reads two KiCad netlist files. It parses each one into its nets
(net name → list of `(pin, pinfunction, ref)` nodes), the set of node
references, and the declared components (reference → value and description).
It also counts the components in twelve categories chosen by reference
prefix. Then it merges the two netlists' connections into one table keyed by
`(pinfunction, ref)`. Each key becomes one report row, marked `match` when
the two net names are equal, with `'N/A'` standing for a missing or empty
one, and `mismatch` otherwise.
The rows are sorted before they are rendered.

This project models those three parts and proves what they do:

- `text.dfy`: `str.strip`, plus hand-written matchers for the five anchored
  regular expressions of the parser. Each lazy `(.*?)` group stops at the
  first `")` that lets the rest of the pattern match, and never crosses a
  newline.
- `parser.dfy`: `parse_netlist` as a one-line step function (`Step`), a run
  over a list of lines (`Run`), and the imperative loop (`ParseNetlist`),
  proved to compute `Run`. It holds the state invariant and the per-line
  properties. It also covers the two ways a line can raise inside the `try`
  and end the parse early:
  - `if ref:` while `ref` was never bound;
  - `components[ref][...]` when `ref` was last bound by a node line, to a
    reference no component line declared.
- `classifier.dfy`: the `startswith` cascade, and the loops of
  `count_components` and `generate_stats`. They are proved against
  reference definitions: `FirstCount`, and `Bucket`, the detail list of one
  category (`BucketMembers` and `BucketSnoc` say what it holds).
- `comparator.dfy`: the two loops of `add_connections_to_map`, the row loop
  and the sort. The two loops are proved against `Fold` and `Rows`; the
  sort is modelled by its result, `MismatchesFirst`. `Report` is the whole comparison, and the lemmas state
  what a report says about the two netlists.
- `ordered_maps.dfy`: Python dictionaries, which iterate in first-insertion
  order. `wrappers.dfy`: `Option`.

Behaviour of `script.py` the model reproduces:

- **Cascade order.** The cascade tests `T` before `TP`, so every `TP…`
  reference is a FET and the TestPads count is always 0
  (`Classifier.CascadeAsWritten`).
- **Comparator key.** The key is `(pinfunction, ref)`; the pin number is not
  part of it.
- **Rows from both netlists.** Every key of either netlist gets a row:
  netlist 1's keys first, then the keys only netlist 2 has.
- **Row order.** The only ordering is a stable sort on
  `class == 'match'`. Because `False < True`, this puts mismatches first,
  although the comment beside the call says the matches come first.
- **Mislabelled row fields.** The key is unpacked as `pin, pinfunction`, so
  the `pin1`/`pin2` fields of a row hold the pin function and the
  `pinfunction1`/`pinfunction2` fields hold the reference.
- **Missing net equals `N/A`.** A key missing from one netlist is shown as
  `'N/A'` on that side. It therefore counts as a match when the other side's
  net is literally named `N/A`, or is empty
  (`Comparator.MissingNetShownAsNA`).
- **Early end of parsing.** A line that raises ends the parse with the
  dictionaries built so far.

## Model

| member | source | states |
|---|---|---|
| OrderedMaps.OMap.Put | script.py:38 | assigning a key keeps the dictionary well formed; a new key goes last in iteration order, an existing key keeps its place and only its value changes |
| OrderedMaps.Empty | script.py:8-10 | a fresh dictionary has no keys and is well formed |
| Text.Strip | script.py:21 | `line.strip()`: both ends stripped of Python whitespace; specified by `StripStartSpec`, `StripStartDropsSpaces`, `StripEndSpec`, `StripEndDropsSpaces`, `StripIdempotent` |
| Text.StripStartSpec | script.py:21 | the result is a suffix of the line that does not start with Python whitespace |
| Text.StripStartDropsSpaces | script.py:21 | everything dropped from the front is whitespace |
| Text.StripEndSpec | script.py:21 | the result is a prefix of the line that does not end with whitespace |
| Text.StripEndDropsSpaces | script.py:21 | everything dropped from the end is whitespace |
| Text.StripIdempotent | script.py:21 | stripping a stripped line changes nothing |
| Text.FindCloseSpec | script.py:35 | the lazy group ends at the first `")` reached without crossing a newline, and there is none exactly when no such close exists |
| Text.FindCloseFirst | script.py:35 | any `")` reached without crossing a newline or an earlier `")` is the one the lazy group stops at |
| Text.DigitsEndSpec | script.py:35 | `\d+` consumes exactly the maximal run of digits |
| Text.DigitsRun | script.py:35 | a maximal run of digits is the one `\d+` consumes |
| Text.CapturePlain | script.py:35 | a field with no quote and no newline, followed by `")`, is captured whole |
| Text.MatchNet | script.py:35 | the net pattern, anchored at the start: a digit code, then the lazy name group; specified by `DigitsEndSpec`, `FindCloseSpec`, `MatchNetLine` |
| Text.MatchNetLine | script.py:34-38 | a net line with a non-empty digit code and a plain name yields that name, whatever text follows |
| Text.RefEndSpec | script.py:43 | the ref group ends at the leftmost position where the rest of the node pattern can match, never crossing a newline |
| Text.RefEndNone | script.py:43 | when the ref group finds no end, no position reached without crossing a newline lets the rest of the pattern match |
| Text.RefEndAt | script.py:43 | a position where the rest matches, with no newline before it and no earlier position where the rest matches, is the one the group ends at, whatever quotes the ref holds |
| Text.MatchNode | script.py:43 | the node pattern with backtracking over the ref group and group 4 read as `''` when absent or empty; specified by `RefEndSpec`, `RefEndNone`, `MatchNodeTail`, `MatchNodeText`, `MatchNodeTextWithPinfunction` |
| Text.MatchNodeTail | script.py:43-46 | a node line with plain ref and pin yields that ref and pin, and the pin function the optional group reads from the rest of the line |
| Text.MatchNodeText | script.py:43-46 | a node line without a pinfunction field yields pin function `''` |
| Text.MatchNodeTextWithPinfunction | script.py:43-46 | a node line with a plain pinfunction field yields that pin function |
| Text.PinfunctionGroup | script.py:43-46 | the optional group reads a plain pin function in full |
| Text.MatchComp | script.py:54 | the component pattern's lazy ref group; specified by `FindCloseSpec`, `MatchFieldLines` |
| Text.MatchValue | script.py:63 | the value pattern's lazy group; specified by `FindCloseSpec`, `MatchFieldLines` |
| Text.MatchDescription | script.py:70 | the description pattern's lazy group; specified by `FindCloseSpec`, `MatchFieldLines` |
| Text.MatchFieldLines | script.py:54-70 | the component, value and description patterns each capture a plain field in full |
| Parser.Step | script.py:21-72 | the effect of one line, None when it raises; specified by `MarkersOnlySwitchSections`, `StepKeepsInv`, the per-line lemmas and `StepRaisesExactly` |
| Parser.Run | script.py:20-72 | the lines read in order until one raises; specified by `RunAppend`, `RunKeepsInv`, `AbortIgnoresRest`, `AbortPoint` |
| Parser.Parse | script.py:6-79 | `Run` from the initial empty state; specified by `ParseInvariant`, `LastMarkerWins`, and computed by `ParseNetlist` |
| Parser.ParseNetlist | script.py:6-79 | the loop computes `Parse` of the lines: the same connections, refs and components, and it ends early exactly when a line raised |
| Parser.RunAppend | script.py:20-72 | reading `a + b` is reading `a`, then, unless a line of `a` raised, reading `b` from the resulting state |
| Parser.MarkersOnlySwitchSections | script.py:24-31 | a `(nets` line sets the nets flag and clears the other, a `(components` line does the opposite, neither changes anything else, and no other line changes a flag |
| Parser.NonMarkersKeepSections | script.py:24-31 | lines without a marker leave both flags unchanged |
| Parser.LastMarkerWins | script.py:24-31 | after the last marker line of a file, the section it opened stays the current one |
| Parser.StepKeepsInv | script.py:20-72 | every line that does not raise preserves the state invariant: exclusive sections, well-formed dictionaries, the current net is a key, every kept node's ref is in `refs`, and net `''` holds no node |
| Parser.NetKeepsInv | script.py:34-39 | declaring a net preserves the invariant |
| Parser.NodeKeepsInv | script.py:42-50 | appending a node under a non-empty net name and recording its ref preserves the invariant |
| Parser.RunKeepsInv | script.py:20-72 | the invariant holds after any run of lines |
| Parser.ParseInvariant | script.py:6-79 | for every file, the two section flags are never both set, and `refs` contains the ref of every node left in `connections` |
| Parser.NetLine | script.py:34-39 | a net line in the nets section makes that net current and resets its list to empty; a re-declared net keeps its place in the order |
| Parser.NodeLine | script.py:42-50 | a node line in the nets section always moves the `ref` cursor; under a non-empty current net it appends the node to that net's list and its ref to `refs`, otherwise it keeps neither |
| Parser.OnlyNodeLinesAddRefs | script.py:42-50 | `refs` grows only through a node line in the nets section under a non-empty net name, and then by exactly that node's ref |
| Parser.CompLine | script.py:53-58 | a component line in the components section makes its ref current and gives it a fresh empty record, discarding earlier fields; the other records are unchanged |
| Parser.ValueLine | script.py:60-66 | a value line under a declared current ref sets that record's value and changes nothing else |
| Parser.DescriptionLine | script.py:68-72 | a description line under a declared current ref sets that record's description and changes nothing else |
| Parser.StepRaisesExactly | script.py:60-72 | a line raises exactly when it is a value or description line of the components section and either `ref` was never bound, or `ref` names no component while the pattern matched |
| Parser.AbortIgnoresRest | script.py:12-79 | once a line raised, appending more lines to the file changes nothing |
| Parser.AbortPoint | script.py:12-79 | an aborted parse returns exactly the state built from the lines before the line that raised, and that line raises in that state |
| Parser.UnmatchedLineIgnored | script.py:34-72 | a line that starts like the net, node, comp, value or description rule but fails that rule's pattern (truncated, or with an unbalanced quote) leaves the state unchanged; in the components section a value or description line must have a current reference, as without one it raises |
| Parser.IgnoredLine | script.py:20-72 | a line that does not start with `(` once stripped changes nothing |
| Parser.OutsideSectionsIgnored | script.py:33-72 | outside both sections, every line except a marker is ignored |
| Parser.ComponentLinesIgnoredInNets | script.py:53-72 | in the nets section, component, value and description lines change nothing |
| Parser.NetLinesIgnoredInComponents | script.py:33-50 | in the components section, net and node lines change nothing |
| Parser.OnlyNetsSectionChangesConnections | script.py:33-50 | `connections` changes only through a net or node line read in the nets section |
| Parser.OnlyComponentsSectionChangesComponents | script.py:53-72 | `components` changes only through a component, value or description line read in the components section |
| Parser.JunkLinesDoNotMatter | script.py:20-72 | removing lines that do not start with `(` does not change the parse |
| Classifier.Classify | script.py:107-130 | the `startswith` cascade in source order, the same one `generate_stats` repeats; specified by `CascadeAsWritten`, `BucketsPartition` |
| Classifier.CascadeAsWritten | script.py:107-130 | every `T…` ref, `TP…` included, is a FET, so TestPads is never chosen; `FID…` goes to Fiducials, `FET…` to FETs, `MH…`/`H…` to Mounting Holes, `GPIO…` to Connectors, `IC…`/`U…` to ICs |
| Classifier.BucketMembers | script.py:171-209 | a detail list holds exactly the listed refs of its category |
| Classifier.BucketSnoc | script.py:171-209 | scanning one more ref appends it to its own category's list and leaves every other list as it was, so each list keeps the listing order |
| Classifier.ZeroCounts | script.py:83-96 | the counts dictionary starts with every one of the twelve categories at 0 |
| Classifier.EmptyDetails | script.py:156-169 | the detail dictionary starts with every category at the empty list |
| Classifier.CountComponents | script.py:82-132 | every category is counted, and its count is the number of refs of that category seen for the first time |
| Classifier.GenerateStats | script.py:135-212 | each category's detail list is its refs in order, each total is that list's length, `Total Components` is the number of refs scanned, `Total Refs` the number of distinct refs, the twelve totals add up to `Total Components`, and `Total Nets` stays 0 |
| Classifier.BucketsPartition | script.py:171-209 | each ref is in its own category's detail list and in no other |
| Classifier.AllCategoriesOnce | script.py:83-96 | each category is one of the twelve keys, listed once |
| Classifier.BucketsSumToLength | script.py:171-209 | the twelve detail lists together have as many entries as refs were scanned |
| Classifier.DistinctElements | script.py:171-211 | a list without repeats has as many distinct refs as entries |
| Classifier.FirstCountIsBucketSize | script.py:99-132 | on a list without repeats, skipping repeats skips nothing |
| Classifier.StatsAgree | script.py:99-211 | for a parsed components dictionary, `Total Refs` equals `Total Components`, the twelve totals sum to it, the TestPads list is empty, and `count_components` agrees with `generate_stats` in every category |
| Comparator.Fold | script.py:221-229 | the map after adding a sequence of connections under one label; specified by `FoldAppend`, `FoldKeys`, `FoldEntry`, and computed by `AddConnectionsToMap` |
| Comparator.RowFor | script.py:236-258 | the row for one key and its record; specified by `RowOfKey`, `MissingNetShownAsNA` |
| Comparator.Rows | script.py:236-258 | one row per key in key order; specified by `RowOfKey`, and computed by `BuildRows` |
| Comparator.MismatchesFirst | script.py:260 | the result of the stable sort on `class == 'match'`; specified by `MismatchesFirstSorted`, `MismatchesFirstStablePermutation`, `StableSortIsUnique` |
| Comparator.Report | script.py:219-260 | the whole comparison; specified by `KeysInFirstSeenOrder`, `EntryOfKey`, `SelfCompareMatches`, and computed by `CompareConnections` |
| Comparator.AddConnectionsToMap | script.py:221-229 | the nested loop adds the netlist's connections in net order, then node order, as `Fold` does |
| Comparator.BuildRows | script.py:236-258 | the row loop emits `Rows`: one row per key, in key order |
| Comparator.CompareConnections | script.py:219-260 | the comparator returns `Report` of the two netlists, and no match row precedes a mismatch row |
| Comparator.SeenMembers | script.py:224-226 | first-seen order lists exactly the keys that occur |
| Comparator.SeenDistinct | script.py:224-226 | first-seen order lists no key twice |
| Comparator.SeenSnoc | script.py:224-226 | one more key is appended to the first-seen order exactly when it has not occurred before |
| Comparator.FoldAppend | script.py:221-229 | adding the connections `a + b` is adding `a`, then `b` to the resulting map |
| Comparator.FoldKeys | script.py:221-229 | adding connections keeps the map well formed and extends the first-seen order of its keys |
| Comparator.KeysInFirstSeenOrder | script.py:219-232 | the map's keys are exactly the keys of either netlist's connections: the first-seen keys of netlist 1, followed by the keys only netlist 2 has, in first-seen order, none repeated |
| Comparator.SeenExtends | script.py:231-232 | the first-seen order of `a + b` starts with that of `a`, and the rest are exactly the new keys of `b` |
| Comparator.PairsMembership | script.py:222-223 | the loop visits a `(net, node)` pair exactly when the net is a key and the node is in that net's list |
| Comparator.LastNet | script.py:227 | the record of a key has a net from a netlist exactly when that netlist has a connection with that key |
| Comparator.RefsForKey | script.py:229 | every ref listed for a key is the key's own ref, and some ref is listed exactly when the key occurs |
| Comparator.FoldEntry | script.py:221-229 | after one netlist's connections, a key's record carries the last net visited for it and all its refs in order; the other netlist's half is untouched |
| Comparator.EntryOfKey | script.py:219-232 | after both netlists, a key's record is each netlist's last net for it and each netlist's refs for it |
| Comparator.RowOfKey | script.py:236-258 | the i-th unsorted row is about the i-th key: mislabelled pin and pinfunction fields, `refN` is the key's ref or `'N/A'`, net names are each side's last net with `'N/A'` for a missing or empty one, and the row matches exactly when the names agree |
| Comparator.MissingNetShownAsNA | script.py:238-246 | a key only netlist 1 has is a match exactly when its net there is named `N/A` or is empty |
| Comparator.SelfCompareMatches | script.py:219-260 | comparing a netlist's connections with themselves gives no mismatch row |
| Comparator.OfClassMembers | script.py:260 | the rows of one class are exactly the rows having that class |
| Comparator.MismatchesFirstSorted | script.py:260 | after the sort, every mismatch row precedes every match row |
| Comparator.MismatchesFirstStablePermutation | script.py:260 | the sort keeps every row and keeps the relative order within each class |
| Comparator.SortedSplits | script.py:260 | a row list sorted by class is its mismatches followed by its matches |
| Comparator.StableSortIsUnique | script.py:260 | any arrangement that is sorted by class and keeps each class's order is the modelled result, so the model of the library sort is exact |
| Comparator.FirstRowIsMismatch | script.py:260 | whenever some row is a mismatch, the first sorted row is a mismatch |
| Comparator.OneNodeReport | script.py:219-260 | a node alone on one net in each netlist gives exactly one row, built from its key, the two nets and its ref on both sides |
| Comparator.TwoNodesOneKey | script.py:221-229 | two nodes with the same key on two different nets give a single row that shows the net visited last on both sides; the record lists both nodes' refs, the row shows the first |
| Comparator.GroundExample | script.py:219-260 | C1 pin 1 on GND in both files gives one match row with empty `pin` fields; moving it to VCC in the second file turns that row into a mismatch |
| Comparator.PinsShareAKey | script.py:224 | two pins of C1 without a pin function, on GND and VCC, share one row, which shows the net visited last |

## Left out

- Reading the file (`open`/`readlines`), the file-not-found branch and the printed error messages (script.py:12-14, 74-77). The parser takes the list of lines. A raised exception is modelled only as "the loop ended early".
- Argument parsing and `main` (script.py:320-334).
- The Jinja environment, template loading, `render` and the write to the output file (script.py:216-217, 262-317).
- The `details1`/`details2` lists kept per key, and the `refs1`/`refs2` strings joined from a set (script.py:228, 240-241). Neither reaches a row; only the first listed ref does. The joined strings also depend on Python's set iteration order.
- Text.DigitsEndSpec: `\d` is modelled as the ASCII digits `0`-`9`. Python's `str` patterns also accept other Unicode decimal digits.
- Text.MatchNet: for the same reason, a net line whose code holds non-ASCII decimal digits is rejected, where Python's pattern accepts it.
- Text.IsSpace lists the characters Python's `str.isspace` accepts. It is written out, not derived from the Unicode database.
- Text.MatchNode: the matcher is proved to accept every well-formed node line with the right fields. That it rejects exactly what the regular expression rejects is not proved for every malformed line.
- Comparator.MismatchesFirst: the library's `list.sort` is modelled by its result, not by its algorithm. `StableSortIsUnique` shows this result is the only stable order by that key.
- The rendered report and the statistics it receives (script.py:262-317) are not modelled beyond the values `GenerateStats` and `CompareConnections` return.
