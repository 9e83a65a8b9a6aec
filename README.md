# Track assembly from pings

A model of the track assembler in `src/tracks/make_tracks.py`. The script reads
CSV rows of "pings", parses each row into `(id, timestamp, lat, lon)`, and folds
them into a dictionary from entity id to that entity's track. A track is a list of
`(timestamp, lat, lon)` samples in ascending tuple order. `add_ping_to_tracks`
finds the sample's leftmost insertion point with `bisect_left`. With dedupe on, it
inserts the sample only when the element at that point differs from it. With dedupe
off, it always inserts there (`insort_left`). The driver starts from an empty
`defaultdict(list)` and adds every parsed ping with dedupe on.

The project has four modules:

- `Samples` (`samples.dfy`): the `Ping` record, its `Sample` projection (`ping[1:]`),
  Python's lexicographic tuple order, and sortedness.
- `Bisect` (`bisect.dfy`): `bisect_left` as a while-loop binary search. It is proved
  equal, on sorted lists, to `InsertionPoint`, a linear-scan reference. Also
  `insort_left`.
- `Tracks` (`tracks.dfy`): `AddSample`, which says what one call does to one track,
  and its properties. The `TrackSet` class holds the dictionary as a
  `map<string, seq<Sample>>` field, and its `AddPing` method is `add_ping_to_tracks`.
- `Driver` (`driver.dfy`): the loop over rows at lines 114-131, with the read and
  skipped counters, and the `Assemble` fold that specifies it. Every track the fold
  builds is strictly increasing. Its lemmas say what the final track set contains,
  and that the result does not depend on the order of the rows. `RunAsWritten` is
  the loop as the code has it, which stops at the first row that fails to parse.

Timestamps, latitudes and longitudes are exact `real` values. The row parser is an
input: each row arrives as `Parsed(ping)` or `Unparsable`.

`bisect_left` (lines 59 and 65) places a new sample before any samples equal to
it. Samples are exact values, so equal samples are identical, and the position of a
new sample among equal ones cannot be seen in the resulting list.

The loop as written stops at the first row that fails to parse (see "## Findings").
`Driver.RunAsWritten` models that behaviour. `Driver.Assemble`,
`Driver.SkippedCount` and `Driver.BuildTracks` model the behaviour the module
docstring promises at line 7: such rows are counted and dropped, and the run goes on.

## Model

| member | source | states |
|---|---|---|
| `Samples.ProjectIgnoresId` | src/tracks/make_tracks.py:55 | two pings have the same sample `ping[1:]` exactly when their timestamp, lat and lon agree, whatever their ids |
| `Samples.Less` | src/tracks/make_tracks.py:59 | tuple `<`: never holds between equal samples; the earlier timestamp is always smaller, and a smaller sample never has a later timestamp |
| `Samples.LessIsStrictTotalOrder` | src/tracks/make_tracks.py:59 | tuple `<` on samples is irreflexive, asymmetric, transitive and total, so any two samples are `<`, `==` or `>` |
| `Samples.StrictlySortedUnique` | src/tracks/make_tracks.py:58-62 | two strictly increasing tracks with the same samples are equal, so a deduplicated track is determined by its set of samples |
| `Bisect.InsertionPoint` | src/tracks/make_tracks.py:59 | reference insertion point: within bounds, every element before it is `< x`, and the element at it (if any) is not `< x` |
| `Bisect.InsertionPointSplits` | src/tracks/make_tracks.py:59 | on a sorted list every element from the insertion point on is `>= x` |
| `Bisect.InsertionPointUnique` | src/tracks/make_tracks.py:59 | any index that splits a list into `< x` before it and not `< x` from it on is the insertion point |
| `Bisect.BisectLeft` | src/tracks/make_tracks.py:59 | the binary search returns `0 <= j <= len`; on a sorted list, everything before `j` is `< x`, everything from `j` on is `>= x`, and `j` is the linear scan's insertion point |
| `Bisect.InsortLeft` | src/tracks/make_tracks.py:65 | the list grows by one and its multiset gains exactly `x`; on a sorted list, `x` goes at the leftmost insertion point |
| `Tracks.AddSample` | src/tracks/make_tracks.py:57-67 | after one call, the track holds `p` and is either unchanged in length or one longer |
| `Tracks.SpliceKeepsSorted` | src/tracks/make_tracks.py:62 | inserting at an index with smaller elements before it and `>=` elements after it keeps a list sorted |
| `Tracks.SpliceKeepsStrictlySorted` | src/tracks/make_tracks.py:62 | inserting strictly between smaller and larger elements keeps a list strictly increasing |
| `Tracks.SpliceShape` | src/tracks/make_tracks.py:62 | `list.insert(j, p)` as a splice: the list grows by one, its multiset gains exactly `p`, `p` sits at `j`, and the old elements keep their order before and after it |
| `Tracks.AddSampleSplices` | src/tracks/make_tracks.py:57-67 | on a sorted track, the dedupe test "element at `j` equals `p`" is exactly "`p` is in the track"; otherwise the result is `old[..j] + [p] + old[j..]` with `j` the insertion point (the empty track gives `[p]`) |
| `Tracks.AddSampleMembers` | src/tracks/make_tracks.py:57-67 | the samples of the new track are the old ones plus `p`, both ways |
| `Tracks.AddSampleKeepsSorted` | src/tracks/make_tracks.py:58-65 | a sorted track stays sorted, with and without dedupe |
| `Tracks.AddSampleKeepsStrictlySorted` | src/tracks/make_tracks.py:57-62 | with dedupe, a strictly increasing track (no duplicates) stays strictly increasing |
| `Tracks.AddSampleDedupe` | src/tracks/make_tracks.py:58-62 | with dedupe on a sorted track, the track is unchanged exactly when `p` is already in it; otherwise it becomes `old[..j] + [p] + old[j..]` and grows by exactly one |
| `Tracks.AddSampleIdempotent` | src/tracks/make_tracks.py:58-62 | with dedupe, adding the same sample twice gives the same track as adding it once |
| `Tracks.AddSampleAlwaysInserts` | src/tracks/make_tracks.py:63-65 | without dedupe, the track grows by one and gains exactly one `p`; the old samples keep their order around it; `p` goes at the insertion point `j` with every element before it strictly smaller (leftmost among equals) |
| `Tracks.AddSampleTwiceAdjacent` | src/tracks/make_tracks.py:63-65 | without dedupe, adding a sample twice gives two more elements, both copies side by side at the insertion point |
| `Tracks.WithPing` | src/tracks/make_tracks.py:54-67 | after one call, the keys are the old keys plus the ping's id; every other id keeps its track; the ping's sample is in its id's track |
| `Tracks.WithPingStartsTrack` | src/tracks/make_tracks.py:57-67 | an id with no track, or with an empty one, gets the track `[p]`, with or without dedupe |
| `Tracks.WithPingKeepsSorted` | src/tracks/make_tracks.py:54-67 | adding a ping keeps every track of the set sorted |
| `Tracks.WithPingKeepsStrictlySorted` | src/tracks/make_tracks.py:54-62 | adding a ping with dedupe keeps every track of the set strictly increasing |
| `Tracks.TrackSet.constructor` | src/tracks/make_tracks.py:116 | a new track set is empty and valid |
| `Tracks.TrackSet.AddPing` | src/tracks/make_tracks.py:46-67 | the in-place update: the new dictionary is `WithPing` of the old one. Only `tracks[id]` changes and no key is removed. Sortedness is kept. With dedupe, strict increase is kept |
| `Driver.Assemble` | src/tracks/make_tracks.py:116-131 | the fold of the parsed pings into the empty `defaultdict` with dedupe on, dropping rows that fail to parse (line 7); every track it builds is strictly increasing: sorted, with no duplicate sample |
| `Driver.SkippedCount` | src/tracks/make_tracks.py:124-130 | skip count of the intended loop (line 7): at most the number of rows, and zero exactly when every row parsed |
| `Driver.AssembleMembers` | src/tracks/make_tracks.py:116-131 | intended loop: an id has a track exactly when some parsed ping carries it. A sample is in that track exactly when some parsed ping of that id projects to it. Rows that fail to parse are dropped (line 7) |
| `Driver.AssembleOrderIndependent` | src/tracks/make_tracks.py:116-131 | intended loop: two row sequences with the same parsed pings, in any order, repeated or not, give the same track set |
| `Driver.RepeatedPingCollapses` | src/tracks/make_tracks.py:116-131 | worked example: pings at seconds 1609459201, 1609459200 and 1609459201 again (same place) give one two-sample track in time order |
| `Driver.BuildTracks` | src/tracks/make_tracks.py:114-131 | the intended loop (line 7): it counts every row read and every row skipped. It returns a fresh, valid track set equal to `Assemble` of the rows, and every track in it is strictly increasing |
| `Driver.RunAsWritten` | src/tracks/make_tracks.py:120-131 | the loop as written: it finishes exactly when every row parsed, and then gives `Assemble` of the rows, all rows read and 0 skipped; otherwise it stops at the first row that failed to parse, after only parsed rows |
| `Driver.SkippedRowCrashesRun` | src/tracks/make_tracks.py:124-131 | on `[Parsed(a), Unparsable, Parsed(b)]` the loop as written stops at row 2, while the intended loop counts one skipped row and builds tracks for both ids |

## Findings

| source | as written | input that shows it | evidently intended | confidence | as-written member | corrected member |
|---|---|---|---|---|---|---|
| src/tracks/make_tracks.py:127-128 | the handler builds its log message with `": " + row`, adding a `str` to the `dict` that `csv.DictReader` yields; that raises `TypeError` inside the `except`, so `rows_skipped += 1` (line 129) never runs and the run ends | rows `[Parsed(a), Unparsable, Parsed(b)]`: the run stops at row 2 and writes no tracks | rows that fail to parse are dropped (docstring, line 7): count them and carry on | high; not executed | `Driver.RunAsWritten`, `Driver.SkippedRowCrashesRun` | `Driver.Assemble`, `Driver.BuildTracks` |

## Left out

- `parse_row` (src/tracks/make_tracks.py:26-44) is not modelled. It calls the date
  parser of `dateutil` and Python's `float()`, and neither is part of this model.
  The driver takes each row's parse outcome as input (`Parsed(ping)` or
  `Unparsable`). As written, it also catches only `TypeError` (line 33), so the
  numeric fallback never runs for strings that are not dates. The fallback also
  names an undefined variable (`timetstamp`, line 37). No timestamp conversion is
  modelled.
- `parse_args` and the rest of the `__main__` block are not modelled: argument
  parsing, opening files, CSV reading, logging the counts, JSON output and exit.
  The input files are read one after another, so the model treats them as one
  concatenated sequence of rows.
- Floating point: samples are exact reals. NaN, rounding and signed zeros are not
  modelled.
- In-place list mutation: each track is a `seq` value in the map. `list.insert`
  becomes a splice, and no aliasing of the list objects is modelled.
- The empty list that `defaultdict` creates when line 57 reads a missing id is not
  modelled as a separate state, because line 67 replaces it in the same call.
- `Tracks.TrackSet.AddPing` requires every track to be sorted (`Valid`). This is
  `bisect`'s own precondition, and every track the code builds meets it. On an
  unsorted list the source still inserts somewhere, and that case is not modelled.
- `Bisect.BisectLeft`: on an unsorted list, the contract states only the bound
  `0 <= j <= len`, not which index is returned.
- The `__main__` block as written never reaches line 114: `loggin.INFO` at line 107
  names an undefined module and raises `NameError`. After the loop, line 143 writes
  the undefined `tracksd_json`, which raises too, so no output is ever written. The
  model starts at the loop and leaves out the output step.
- AssembleMembers: states the intended loop, in which rows that fail to parse are
  dropped. For the code as written it holds only of input where every row parsed;
  otherwise the run stops (see "## Findings" and `Driver.RunAsWritten`).
- AssembleOrderIndependent: states the intended loop. For the code as written it
  holds only of row sequences where every row parsed, for the same reason.
- SkippedCount: counts rejected rows as the intended loop does. As written, the
  counter at line 129 is never reached.
- BuildTracks: the intended loop. As written, the loop stops at the first row that
  fails to parse (`Driver.RunAsWritten`).
- src/cartopy/cartopy1.py (a plotting script) is not part of this model.
