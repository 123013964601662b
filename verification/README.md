# ldjuniq: key extraction and first-occurrence dedup, in Dafny

`ldjuniq` reads newline-delimited JSON and writes each record whose key has
not appeared before. The key comes from a dot-notation field path given with
`-key`. This project models the two pieces of `cmd/ldjuniq/main.go` that hold
its logic, and proves properties about them:

- **`StringValue`**, the key extractor. The path is split on `.`, and only
  the first segment is looked up in the decoded document. A string there is
  the key. A number becomes its `FormatFloat(v, 'f', 6, 64)` rendering. An
  object is searched again, but the recursive call gets the second segment
  only, not the rest of the path. So segments from the third on are never
  read, the recursion is at most two lookups deep, and `a.b.c` resolves
  exactly like `a.b`. Arrays, booleans and null are errors.
- **The dedup loop of `main`**, written as a pure left fold over the decoded
  records. It threads a seen set, writes each record whose key is new, and
  stops for good at the first extractor error. Records written before the
  error stay written.

Modules, one per concern:

| file | module | contents |
|---|---|---|
| `wrappers.dfy` | `Wrappers` | `Option`, `Result` |
| `json.dfy` | `Json` | the closed JSON datatype; `Doc`, a decoded object |
| `dot_path.dfy` | `DotPath` | `strings.Split(key, ".")` and its inverse `Join` |
| `fixed_format.dfy` | `FixedFormat` | six-decimal number rendering and a reader for it |
| `extractor.dfy` | `Extractor` | `StringValue`, a non-recursive two-level reference `Resolve`, per-branch lemmas |
| `uniq.dfy` | `Uniq` | the loop state, `Step`, the fold `Dedup`, the loop method `Run`, the first-occurrence reference and its lemmas |
| `scenarios.dfy` | `Scenarios` | worked examples on concrete documents |

Numbers: `encoding/json` decodes every JSON number to a `float64`. `Json.Num`
carries the exact value of that float as a `real`. `FormatFloat` with
precision 6 rounds the exact value to the nearest millionth, with ties going
to the even digit, and prints a minus for any negative value. `FormatFixed6`
does the same on the real. `FixedFormat.FormatFixed6Tie` shows a real tie:
1/128 = 0.0078125 is a float64 and prints as `0.007812`.

The fold in `Uniq` takes the key function as a parameter (`KeyFn`). Its
lemmas hold for any extractor. `Uniq.KeyOf(key)` is the one `main` uses, and
`Uniq.Run` is the loop stated with `StringValue` directly.

Three consequences of the code that are easy to miss:

- Line 36 recurses on `keys[1]` alone, so `{"a":{"b":{"c":"v"}}}` under
  `a.b.c` fails with "no value found" (`Scenarios.ThreeLevelPathFails`).
- A string leaf ends the lookup, so `a.b.c` on `{"a":{"b":"v"}}` gives `"v"`
  (`Scenarios.StringLeafEndsPath`).
- Arrays (line 42) and booleans or null (line 44) are separate error
  branches, `NotSupported` and `UnknownType`.

## Model

| member | source | states |
|---|---|---|
| `DotPath.Split` | cmd/ldjuniq/main.go:20-23 | splitting the key always yields at least one segment, so the empty-keys guard never fires |
| `DotPath.SplitSegmentsDotFree` | cmd/ldjuniq/main.go:20 | no segment of the split key contains a dot |
| `DotPath.JoinSplit` | cmd/ldjuniq/main.go:20 | joining the segments with dots gives back the original key |
| `DotPath.SplitJoin` | cmd/ldjuniq/main.go:20 | splitting the join of a non-empty list of dot-free segments gives back those segments |
| `DotPath.SplitSingle` | cmd/ldjuniq/main.go:20 | the key splits into exactly one segment if and only if it has no dot, and that segment is the key itself |
| `DotPath.SplitDotFreePrefix` | cmd/ldjuniq/main.go:20 | a dot-free prefix is glued onto the first segment of what follows it |
| `FixedFormat.RoundHalfEven` | cmd/ldjuniq/main.go:38 | the result is an integer within one half of the input, and an exact tie goes to the even integer |
| `FixedFormat.Decimal` | cmd/ldjuniq/main.go:38 | the whole part is printed in digits with no leading zero, and zero prints as "0" |
| `FixedFormat.Padded` | cmd/ldjuniq/main.go:38 | the fraction is printed in exactly the requested number of digits |
| `FixedFormat.FormatFixed6` | cmd/ldjuniq/main.go:37-38 | every number renders in the shape optional minus, digits, point, exactly six digits |
| `FixedFormat.ParseFormatFixed6` | cmd/ldjuniq/main.go:38 | the rendering reads back as the sign of the value and its millionths rounded half to even, split into whole part and six decimals |
| `FixedFormat.FormatFixed6Equal` | cmd/ldjuniq/main.go:38 | two numbers render the same if and only if they have the same sign and round to the same millionths, so the key depends only on the value |
| `FixedFormat.FormatFixed6Integral` | cmd/ldjuniq/main.go:38 | 3 renders as "3.000000" |
| `FixedFormat.FormatFixed6Negative` | cmd/ldjuniq/main.go:38 | -2.25 renders as "-2.250000" |
| `FixedFormat.FormatFixed6Tie` | cmd/ldjuniq/main.go:38 | 0.0078125 is an exact tie and renders as "0.007812", the even neighbour |
| `Extractor.StringValue` | cmd/ldjuniq/main.go:19-47 | the extractor never reports exhausted keys, and it succeeds only when the first segment is a field holding a string, a number or an object |
| `Extractor.StringValueResolves` | cmd/ldjuniq/main.go:19-47 | the recursive extractor agrees on every key and document with a non-recursive reading that makes at most two lookups |
| `Extractor.StringValueSingle` | cmd/ldjuniq/main.go:24-45 | a dot-free key is a single lookup that cannot descend: an object there is "no value found" |
| `Extractor.StringValueFirstTwoSegments` | cmd/ldjuniq/main.go:36 | a key with two or more segments resolves exactly like the key made of its first two segments |
| `Extractor.StringValueThirdSegmentIgnored` | cmd/ldjuniq/main.go:36 | for dot-free a, b and c, the key a.b.c resolves exactly like a.b |
| `Extractor.StringValueMissingKey` | cmd/ldjuniq/main.go:24-28 | a first segment that is not a field gives the not-found error naming that segment, and no string |
| `Extractor.StringValueStringLeaf` | cmd/ldjuniq/main.go:29-31 | a string at the first segment is returned unchanged, whatever segments follow |
| `Extractor.StringValueObjectAtEnd` | cmd/ldjuniq/main.go:32-35 | an object at a key with no further segment gives "no value found" |
| `Extractor.StringValueDescends` | cmd/ldjuniq/main.go:32-36 | an object at the first segment, with more segments to come, gives the extractor's result for the second segment alone on that object |
| `Extractor.StringValueNumberLeaf` | cmd/ldjuniq/main.go:37-38 | a number at the first segment always succeeds with its six-decimal rendering |
| `Extractor.StringValueLeafKinds` | cmd/ldjuniq/main.go:41-44 | an array, boolean or null at the first segment always fails, and every success comes from a string or number at the first or second level |
| `Uniq.Dedup` | cmd/ldjuniq/main.go:76-105 | the loop never writes more records than it reads |
| `Uniq.DedupWrites` | cmd/ldjuniq/main.go:95-104 | every written record is an input record whose key resolved and is in the seen set, and no two written records share a key |
| `Uniq.FirstIndices` | cmd/ldjuniq/main.go:95-98 | the first-occurrence positions are strictly increasing, in range, and contain a position if and only if no earlier record has the same key |
| `Uniq.DedupPrefixSeen` | cmd/ldjuniq/main.go:95-103 | while every record resolves, the loop has not stopped and its seen set is exactly the keys of the records read |
| `Uniq.DedupPrefixEmitted` | cmd/ldjuniq/main.go:95-104 | while every record resolves, the records written are exactly the first occurrences among those read, in order |
| `Uniq.DedupFirstOccurrences` | cmd/ldjuniq/main.go:91-104 | with every record resolving, the output is the in-order subsequence of first occurrences, and the seen set is the set of all keys |
| `Uniq.DedupAfterHalt` | cmd/ldjuniq/main.go:92-94 | once stopped, the loop ignores every later record |
| `Uniq.DedupHaltsAtFirstFailure` | cmd/ldjuniq/main.go:91-94 | the result is the state after the records before the first failing one, stopped with that record's error |
| `Uniq.DedupCompletes` | cmd/ldjuniq/main.go:78-94 | the run ends without error if and only if every record resolves |
| `Uniq.DedupSeenIsEmittedKeys` | cmd/ldjuniq/main.go:95-103 | stopped or not, the seen set is exactly the set of keys of the written records |
| `Uniq.DedupDistinct` | cmd/ldjuniq/main.go:95-104 | records that all resolve to pairwise different keys pass through unchanged |
| `Uniq.DedupIdempotent` | cmd/ldjuniq/main.go:91-104 | deduplicating the output again returns the same records and the same seen set, with no error |
| `Uniq.Run` | cmd/ldjuniq/main.go:76-105 | the loop over the decoded records ends in the fold's state (which halts exactly at the first record that does not resolve, by `Uniq.DedupCompletes`), and its seen set is the keys of what it wrote |
| `Scenarios.DuplicateStringKeyDropped` | cmd/ldjuniq/main.go:95-98 | of three records keyed "x", "x", "y", the first and third are written |
| `Scenarios.NumberKeyCollapses` | cmd/ldjuniq/main.go:37-38 | two records whose number is 3 share the key "3.000000", and only the first is written |
| `Scenarios.StringLeafEndsPath` | cmd/ldjuniq/main.go:29-36 | on {"a":{"b":"v"}} both a.b and a.b.c give "v" |
| `Scenarios.ThreeLevelPathFails` | cmd/ldjuniq/main.go:32-36 | on {"a":{"b":{"c":"v"}}} the key a.b.c fails with "no value found" |
| `Scenarios.BooleanStopsRun` | cmd/ldjuniq/main.go:43-44 | a boolean under the key stops the run with "unknown type" after the records before it were written |

## Left out

- Flag parsing, the version flag and the empty-key check (lines 50-62): command-line handling outside the two modelled pieces.
- Choosing between the file and standard input, and reading lines with `bufio` (lines 64-85): I/O. The model takes the records as a sequence. `ReadString` returns the last line together with `io.EOF` when the input does not end in a newline, and lines 79-82 leave the loop on `io.EOF` before using that line, so the program never dedups or writes such a last record; the model has no notion of lines and does not show this.
- `json.Unmarshal` (lines 86-90): a library call. Records arrive already decoded, and a line that fails to parse is not modelled. The model also does not cover how a numeral is rounded to the nearest float64 during decoding: `Num` holds the decoded value.
- `json.Marshal` and printing (lines 99-102, 104): a library call and I/O. The model writes the decoded record itself, not its bytes. A marshal failure cannot happen for a decoded record and is not modelled.
- `log.Fatal` ending the process: modelled as the `halt` field of the loop state, which no later record changes.
- The `int` branch (lines 39-40): `encoding/json` never yields a Go `int`, so `Json` has no such case.
- The final `return` at line 46: it cannot be reached, because every branch of the type switch returns. The model's `match` is exhaustive and has no such path.
- Error message text, including the `reflect.TypeOf` output (lines 27, 34, 42, 44): each branch is one tag of `Extractor.Error`. `KeyNotFound` keeps the segment name.
- Negative zero: a float64 `-0.0` prints as `-0.000000`, but a real has no negative zero. `FormatFixed6(0.0)` is `0.000000`. So the program gives `{"n":0}` and `{"n":-0}` the two keys `0.000000` and `-0.000000` and writes both, while the model gives them one key and writes only the first.
- Non-finite floats: JSON cannot encode NaN or infinity, so they never reach the extractor.
