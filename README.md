# systemd_resolved_exporter in Dafny

This project models the core of `systemd_resolved_exporter`, a Prometheus
exporter for the statistics of the systemd-resolved DNS resolver. On every
scrape the exporter runs `systemd-resolve --statistics` and reads its output
line by line. It keeps each line that looks like `Name: number` in a map from
name to value. Then it turns the names it knows into metric samples.

The model has three modules:

- `Text` (text.dfy) covers the Go library functions the parser uses.
  `strings.TrimSpace` is modelled with Go's exact set of Unicode white-space
  code points. `strings.Split` is modelled for a one-character separator.
  `strconv.ParseFloat` is modelled only for strings of decimal digits.
- `StatParser` (stat_parser.dfy) is the line loop of `gatherStats`.
  - The regular expression `[a-zA-Z ]+: ?[0-9]+` is written as a predicate on
    strings (`MatchesStatLine`). It is proved equal to the unanchored
    regular-expression search, which is stated as its own definition
    (`ContainsStatToken`).
  - `ParseLine` handles one line. The key is the text before the first colon,
    trimmed. The value is the text between the first and second colon,
    trimmed and parsed. A parse failure gives 0.
  - `Snapshot` is the map built after a sequence of lines.
  - `GatherStats` is the imperative loop. It is proved to build exactly
    `Snapshot(lines)`.
- `Exporter` (collector.dfy) holds the catalogue and the collector.
  - `Catalogue` is the fixed catalogue of five metrics. Each has a source
    label, a descriptor (namespace, name, help) and a kind (gauge or counter).
  - The class `Collector` holds the registry and the current value of each
    gauge. Its constructor models `NewCollector`.
  - `Collect` models one scrape. It visits the snapshot's names in an
    arbitrary order, as Go's map iteration does. The samples are specified by
    the predicate `Emission`, and the new gauge values by `GaugesAfter`.

Samples carry the value type they are built with. `Collect` tests the kind of
each entry with two Go type assertions. `metric.(prometheus.Gauge)` holds only
for gauges. `metric.(prometheus.Counter)` holds for both kinds, because a
gauge also has `Inc` and `Add`. So every registered name in the snapshot is
sent as a constant sample with `CounterValue`, and gauges are sent that way
too. `KindAssertions` states this, and `CollectExample` shows it on a
concrete scrape. The values that `g.Set` stores in the gauge objects are kept
in the model (`gauges`), but `Collect` never sends them.

Three points about the code are easy to misread:

- The pattern at `systemd_resolved_exporter.go:93` is unanchored. Text may
  stand before and after the match. `ParseLineFirstColon` shows a line whose
  match sits after the first colon. That line is recorded under the name
  before the first colon, with value 0.
- The value at `systemd_resolved_exporter.go:110-112` is the text between the
  first and second colon. It is not the whole text after the first colon.
- This version of the exporter reads statistics only from the command's
  output. It has no D-Bus acquisition, no DNSSEC metrics and no feature flag.
  The catalogue is always the same five entries.

## Model

| member | source | states |
|---|---|---|
| `Text.TrimSpaceShape` | systemd_resolved_exporter.go:111 | `TrimSpace(s)` is a slice `s[i..j]`. Everything before `i` and after `j` is white space, and the result neither starts nor ends with white space. |
| `Text.TrimSpaceExact` | systemd_resolved_exporter.go:111-112 | A trimmed string padded with white space on both sides trims back to exactly itself. |
| `Text.TrimSpaceIdempotent` | systemd_resolved_exporter.go:111 | Trimming twice gives the same result as trimming once. |
| `Text.Split` | systemd_resolved_exporter.go:110 | `strings.Split` on one character gives one more field than there are separators. No field contains the separator. |
| `Text.SplitAtSeparator` | systemd_resolved_exporter.go:110 | A string that contains the separator splits into at least two fields. |
| `Text.SplitAtFirst` | systemd_resolved_exporter.go:110-111 | The first field is the text before the first separator. The remaining fields are the split of the text after it. |
| `Text.JoinSplit` | systemd_resolved_exporter.go:110 | Joining the fields of a split with the separator gives back the original string. |
| `Text.SplitJoin` | systemd_resolved_exporter.go:110 | Splitting the join of separator-free fields gives back the fields. |
| `Text.ParseDecimal` | systemd_resolved_exporter.go:112 | Parsing succeeds exactly on non-empty strings of decimal digits. |
| `Text.ParseShowDecimal` | systemd_resolved_exporter.go:112 | Parsing the decimal rendering of `n` gives `n`. |
| `Text.ShowParseDecimal` | systemd_resolved_exporter.go:112 | A digit string without a leading zero is the rendering of the number it parses to. |
| `StatParser.MatchesStatLineIsSearch` | systemd_resolved_exporter.go:93 | The line test holds exactly when some substring of the line is a word of `[a-zA-Z ]+: ?[0-9]+`, with any text before or after it. |
| `StatParser.MatchImpliesToken` | systemd_resolved_exporter.go:93 | Every line the test accepts contains a word of the pattern. |
| `StatParser.TokenImpliesMatch` | systemd_resolved_exporter.go:93 | Every line that contains a word of the pattern passes the test. |
| `StatParser.MatchedLineSplits` | systemd_resolved_exporter.go:108-112 | A matched line splits on `:` into at least two fields, so `f[1]` always exists. |
| `StatParser.ParseLine` | systemd_resolved_exporter.go:108-115 | A line gives a statistic exactly when it matches the pattern. |
| `StatParser.ParseLineFields` | systemd_resolved_exporter.go:110-112 | For a matched line `a + ":" + m + rest`, with no colon in `a` or `m` and `rest` empty or starting with a colon, the name is `TrimSpace(a)` and the value is `TrimSpace(m)` parsed. |
| `StatParser.ParsedValueCases` | systemd_resolved_exporter.go:112 | A value that is not a digit string reads as 0. A rendered number reads as itself. |
| `StatParser.SnapshotKeys` | systemd_resolved_exporter.go:106-116 | The snapshot's keys are exactly the names of the matched lines. |
| `StatParser.SnapshotLastWins` | systemd_resolved_exporter.go:115 | When several matched lines share a name, the last one sets the value. |
| `StatParser.UnmatchedLineIgnored` | systemd_resolved_exporter.go:108 | Inserting a line that does not match, anywhere in the output, leaves the snapshot unchanged. |
| `StatParser.GatherStats` | systemd_resolved_exporter.go:89-123 | The scanning loop returns `Snapshot(lines)`. |
| `StatParser.ParseLineCacheHits` | systemd_resolved_exporter.go:108-112 | `"  Cache Hits: 120"` gives name `Cache Hits` and value 120. |
| `StatParser.ParseLineFirstColon` | systemd_resolved_exporter.go:93 | `"Mode: auto Retries: 3"` matches after its first colon. It is recorded as `Mode` with value 0. |
| `StatParser.SnapshotExample` | systemd_resolved_exporter.go:106-116 | `Current Transactions: 5`, `Garbage line`, `Cache Hits: 120` give the two entries {Current Transactions: 5, Cache Hits: 120}. |
| `Exporter.KindAssertions` | systemd_resolved_exporter.go:41-44 | The Gauge assertion holds only for gauges. The Counter assertion holds for both kinds. |
| `Exporter.Catalogue` | systemd_resolved_exporter.go:55-81 | The registry's keys are the five statistics names. |
| `Exporter.CatalogueSize` | systemd_resolved_exporter.go:57-81 | The registry has exactly five entries. |
| `Exporter.CatalogueNamespaced` | systemd_resolved_exporter.go:57-81 | Every descriptor uses the namespace passed in. |
| `Exporter.CatalogueNamesDistinct` | systemd_resolved_exporter.go:57-81 | No two entries share an exported name. |
| `Exporter.CatalogueCounterNames` | systemd_resolved_exporter.go:57-81 | The counters are exactly the entries whose exported name ends in `_total`. |
| `Exporter.Collector.constructor` | systemd_resolved_exporter.go:54-87 | The new collector keeps the namespace, and its registry is the catalogue. Both gauges start at 0. Construction cannot fail. |
| `Exporter.Collector.Collect` | systemd_resolved_exporter.go:37-52 | The samples sent are an `Emission` of the snapshot: one per snapshot name in the registry, none for other names, each with the entry's descriptor, `CounterValue` and the snapshot value. Gauges named in the snapshot take its value. All other gauges, and the registry, are unchanged. |
| `Exporter.GaugesAfter` | systemd_resolved_exporter.go:41-43 | A gauge named in the snapshot takes the snapshot's value. Every other stored value is kept, and no name is added or removed. |
| `Exporter.EmissionCount` | systemd_resolved_exporter.go:39-49 | One scrape sends as many samples as there are names in both the snapshot and the registry. |
| `Exporter.CountersMonotone` | systemd_resolved_exporter.go:44-49 | If no statistic goes down between two scrapes, every counter both scrapes send keeps its descriptor and `CounterValue`, and its value does not go down. |
| `Exporter.EmissionStep` | systemd_resolved_exporter.go:39-49 | Visiting one more snapshot name adds one sample, with that entry's descriptor and value, if the name is registered, and nothing otherwise. |
| `Exporter.EmissionRemove` | systemd_resolved_exporter.go:39-49 | Dropping one sample from an emission gives the emission for the snapshot without that name. |
| `Exporter.EmissionOrderIrrelevant` | systemd_resolved_exporter.go:39 | Two emissions for the same registry and snapshot, in any iteration orders, are permutations of each other. |
| `Exporter.CollectExample` | systemd_resolved_exporter.go:37-52 | The three example lines give exactly two samples, for `current_transactions` (5) and `cache_hits_total` (120). Both carry `CounterValue`. |

The rows above state their properties in terms of a few defining functions:

- `Text.TrimSpace` (systemd_resolved_exporter.go:111-112);
- `StatParser.MatchesStatLine` (:93, :108);
- `StatParser.ParsedValue` (:112);
- `StatParser.Snapshot` (:106-116);
- `Exporter.ConstCounterSample` (:45-48).

These functions have no rows of their own. The lemma rows that cite the same lines state their properties.

## Left out

- Running the subprocess is not modelled. This covers `exec.Command`, `StdoutPipe`, `Start`, `Wait`, the `bufio.Scanner` line splitting, and `os.Exit(1)` when the pipe cannot be created. `GatherStats` and `Collect` take the command's output lines as a parameter. The source ignores errors from `Start` and `Wait`.
- The zap logger and its global handle are not modelled, because they only log.
- The HTTP server, `promhttp.Handler` and `prometheus.MustRegister` are not modelled. They belong to the network layer and the Prometheus library.
- `Describe` is not modelled, and neither is how Prometheus builds a descriptor or its fully qualified name. A descriptor is the triple (namespace, name, help).
- Samples are not sent on a channel. `Collect` returns them as a sequence in sending order.
- The gauge objects are not modelled as separate heap objects. Their values live in the collector's `gauges` map.
- Go strings are byte strings, and `TrimSpace` decodes them as UTF-8. The model works on sequences of code points, so invalid UTF-8 is not covered.
- `StatParser.ParsedValue`: only reads non-empty strings of decimal digits, as natural numbers. Everything else reads as 0. `strconv.ParseFloat` also accepts signs, fractions, exponents, hexadecimal floats, `Inf` and `NaN`. It rounds to float64 and reports range errors. Those cases are floating point and are not modelled.
- Values are unbounded natural numbers, not float64. A digit string too large for float64 is not modelled.
- `Collect` is one atomic step. Prometheus may run scrapes concurrently, so gauge updates from two scrapes could interleave in the source. No gauge value is ever sent, so no sent sample depends on that order.
