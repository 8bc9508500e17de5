# Camelot-wheel compatibility graph, in Dafny

A model of the pure core of a DJ tool that links music tracks that can be mixed together:

- **Key arithmetic on the Camelot wheel** (`CamelotKey` in `src/utils.py`).
  - A key is a root and a ring: `a` is minor, `b` is major.
  - There are two primitive moves: rotation (`_add`) and the ring switch (`_switch`).
  - Five mixing rules are built from them: `perfect`, `boost`, `scale`, `diag` and `special`.
  - The static table `KEY_TO_CAMELOT_KEY` maps labels such as "A Minor" to wheel positions.
- **The compatibility graph** (`TrackGraph.build_graph` in `src/graph.py`).
  - The tracks are stably sorted by BPM and swept once.
  - A forward-only tail cursor evicts tracks whose BPM is below `bpm - ceil(bpm * bpm_range)`.
  - The window of remaining tracks is bucketed by wheel position.
  - Each track receives every windowed track whose key is among its selected pairings. The track then joins the window.
- **The saved form of a graph** (`to_json` / `from_json`), at the level of records.
  - `to_json` produces a list of `(track fields, [neighbour fields])` pairs.
  - `from_json` reads such a list back into a graph.

Modules, one per concept:

| file | module | contents |
|---|---|---|
| `wrappers.dfy` | `Wrappers` | `Option`, `Result` |
| `camelot.dfy` | `Camelot` | `CamelotKey`, `Add` (`_add`), `Switch` (`_switch`), the five rules and their exact characterisations on the wheel |
| `keytable.dfy` | `KeyTable` | the 34-entry label table, dictionary lookup, and a circle-of-fifths reference definition the table is proved against |
| `tracks.dfy` | `Tracks` | `TrackInfo`, `TrackMeta`, the input dictionary as a sequence of distinct entries |
| `bpmsort.dfy` | `BpmSort` | the stable sort by BPM, on input positions |
| `trackgraph.dfy` | `TrackGraph` | the declarative graph `CompatibilityGraph`, the sweep (`EvictBelow`, `AddMatches`, `Sweep`), `BuildGraph`, and the proof that the sweep computes the declarative graph |
| `scenarios.dfy` | `Scenarios` | two small worked graphs |
| `persist.dfy` | `Persist` | record encode (`ToRecords`) and decode (`FromRecords`), and their round trip |

Central results:

- `TrackGraph.BuildGraph` fails with `NoRuleSelected` or `RangeOutOfBounds` exactly as the two assertions of `build_graph` do.
- It fails with `MissingFromWindow` exactly when some track's threshold lies above its own BPM. That is the `KeyError` the eviction `remove` raises once the tail reaches the current track.
- Otherwise it returns `CompatibilityGraph`. There, `b` is a neighbour of `a` iff all of the following hold:
  - `b` comes strictly before `a` in the stable BPM order;
  - `bpm(b) >= bpm(a) - ceil(bpm(a) * range)`;
  - `b`'s key is among `a`'s pairings.
- `Persist.ToRecords` followed by `Persist.FromRecords` gives back the graph. This holds for every iteration order of the dictionary and of the sets.

Modelling choices:

- `bpm_range` is an exact fraction `num / den` with `den > 0`. Its ceiling is `(bpm * num + den - 1) / den`. Dafny's division rounds down for a positive divisor, so this is also right for negative BPMs.
- BPMs are unbounded integers, and negative BPMs are not excluded. With a range in [0, 1] the threshold never decreases as the BPM grows, for every integer BPM (`TrackGraph.ThresholdMonotone`). A negative BPM can still put a track's threshold above its own BPM, and the model returns the error that the source raises.
- Python's `sorted` is stable. It is modelled as an insertion sort of input positions that compares BPMs only. The sort is proved to list the positions in `Before` order: BPM first, then input position.
- The `defaultdict`s are maps read through `Bucket`, where a missing key reads as empty. Empty buckets that a read creates in the source are not represented. They are never observable in the result.
- Dictionary and set iteration orders are not modelled. They appear as explicit enumerations: ghost out-parameters of `Persist.ToRecords`, and parameters of `Persist.RoundTrip`.

Every input track gets an entry in the result, possibly an empty set: once a rule is selected, `graph[track].update(...)` runs at least once per track (src/graph.py:34, 59-60). `CompatibilityGraph` and `BuildGraph` state this (`g.Keys == TrackSet(s)`).

## Model

| member | source | states |
|---|---|---|
| Camelot.Add | src/utils.py:59-60 | rotation by any integer `n` gives a root in 1..12, keeps the ring, and lands on the root congruent to `root + n` modulo 12 |
| Camelot.Switch | src/utils.py:62-66 | the switch keeps the root and changes the ring |
| Camelot.Perfect | src/utils.py:42-43 | `perfect` lists three keys, all on `k`'s ring, with `k` itself in the middle |
| Camelot.Boost | src/utils.py:45-46 | `boost` is a valid key on the same ring, two steps clockwise |
| Camelot.Scale | src/utils.py:48-49 | `scale` has the same root and the other ring, so it never equals `k` |
| Camelot.Diag | src/utils.py:51-53 | `diag` is on the other ring, one step back for a minor key and one step forward for a major key |
| Camelot.Special | src/utils.py:55-57 | `special` is seven steps on the same ring, then three (minor) or nine (major) steps on the other ring |
| Camelot.AddUnique | src/utils.py:59-60 | `_add(n)` is the one valid key on the same ring congruent to `root + n` |
| Camelot.AddAdd | src/utils.py:59-60 | rotating by `m` and then by `n` is rotating by `m + n` |
| Camelot.AddInverse | src/utils.py:59-60 | `_add(n)` followed by `_add(-n)` restores a valid key |
| Camelot.AddWholeTurns | src/utils.py:59-60 | rotation by a multiple of 12 fixes a valid key; 12 wraps to 1 and 1 wraps back to 12 |
| Camelot.SwitchInvolution | src/utils.py:62-66 | switching twice is the identity, and switching commutes with rotation |
| Camelot.PerfectDistinct | src/utils.py:42-43 | for every key the three `perfect` keys are pairwise distinct |
| Camelot.PerfectMembers | src/utils.py:42-43 | a valid key is in `perfect(k)` iff it is on `k`'s ring at most one step away |
| Camelot.BoostMembers | src/utils.py:45-46 | `boost(k)` is k' iff k' is on the same ring exactly two steps clockwise |
| Camelot.ScaleMembers | src/utils.py:48-49 | `scale(k)` is k' iff k' has the same root on the other ring |
| Camelot.DiagMembers | src/utils.py:51-53 | `diag` maps (r, a) to (r - 1, b) and (r, b) to (r + 1, a), both directions of the iff |
| Camelot.DiagInvolution | src/utils.py:51-53 | applying `diag` twice returns a valid key to itself |
| Camelot.SpecialMembers | src/utils.py:55-57 | a valid key is in `special(k)` iff it is +7 on the same ring or +3 (minor) / +9 (major) on the other ring |
| KeyTable.Lookup | src/utils.py:252 | the lookup `KEY_TO_CAMELOT_KEY[key]` in the table of lines 162-199 misses iff no entry has the label, and a hit returns the value of an entry with that label |
| KeyTable.LabelsDistinct | src/utils.py:162-199 | no label occurs twice in the table |
| KeyTable.LookupEntry | src/utils.py:252 | looking up any label of the table gives exactly that entry's value |
| KeyTable.EntryIsCircleOfFifths | src/utils.py:162-199 | every label parses as a key name and its value is that key's circle-of-fifths position: a root in 1..12, ring b for "Major" and ring a for "Minor" |
| KeyTable.Enharmonic | src/utils.py:162-199 | two labels naming the same key, such as "A# Major" and "Bb Major", map to the same position |
| KeyTable.TableCoversWheel | src/utils.py:162-199 | each of the 24 wheel positions is the value of some entry |
| BpmSort.Insert | src/graph.py:39 | inserting a position by BPM alone keeps the list in stable (BPM, then input position) order and adds exactly that position |
| BpmSort.SortOrder | src/graph.py:39 | the sort lists every input position exactly once, in stable BPM order |
| BpmSort.SortByBpm | src/graph.py:39 | `sorted_by_bpm` lists the input items in the stable order: its BPMs never decrease and it includes every input item |
| BpmSort.Layout | src/graph.py:39 | items laid out in a stable order have non-decreasing BPMs and include every input item |
| BpmSort.PositionsFollowBefore | src/graph.py:39 | one place precedes another iff its item sorts before the other's by BPM, then input order |
| BpmSort.PlaceOf | src/graph.py:39 | each input item has exactly one place in the sorted list |
| TrackGraph.Bucket | src/graph.py:36-38 | a read of a `defaultdict(set)`: the stored set under a present key, the empty set under a missing one |
| TrackGraph.Threshold | src/graph.py:42-43 | the eviction bound `bpm - bpm_diff`: `bpm` minus the ceiling of `bpm * range`, pinned by `(bpm - t - 1) * den < bpm * num <= (bpm - t) * den` |
| TrackGraph.CeilDiv | src/graph.py:42 | the ceiling of `x / d`: the least integer `c` with `x <= c * d` |
| TrackGraph.ThresholdMonotone | src/graph.py:42-43 | with a range in [0, 1] the eviction threshold `bpm - ceil(bpm * range)` never decreases as the BPM grows |
| TrackGraph.ThresholdAtMostBpm | src/graph.py:42-43 | for a non-negative BPM the threshold is at most the BPM, so a track is never below its own threshold |
| TrackGraph.Pairings | src/graph.py:47-57 | the pairings are non-empty iff some rule is selected, and a key is among them iff one of the selected rules yields it |
| TrackGraph.PairingsOnWheel | src/graph.py:47-57 | on valid keys the pairings are exactly the keys at the rules' wheel distances and rings |
| TrackGraph.CompatibilityGraph | src/graph.py:36-63 | the intended graph: an entry for every input track and nothing else, each holding exactly the tracks compatible with it |
| TrackGraph.NeighbourIff | src/graph.py:39-62 | b is in a's entry iff b strictly precedes a in stable BPM order, b's BPM reaches a's threshold, and b's key is among a's pairings |
| TrackGraph.NoSelfNeighbour | src/graph.py:59-62 | no track is its own neighbour, and every neighbour is an input track |
| TrackGraph.EqualBpmDirected | src/graph.py:39-62 | never are two tracks each other's neighbours; with equal BPMs, the earlier input track never receives the later, and the later receives the earlier iff threshold and keys allow it |
| TrackGraph.NonNegativeNeverOvershoots | src/graph.py:42-44 | with non-negative BPMs and a range in [0, 1] no track's threshold exceeds its own BPM |
| TrackGraph.SweptStep | src/graph.py:59-60 | entering the current track's neighbours extends the graph of the first `i` sorted tracks to the first `i + 1` |
| TrackGraph.Evict | src/graph.py:43-45 | the tail track is in its key's bucket, and removing it leaves exactly the tracks from `tail + 1` to `i` in the window |
| TrackGraph.TailPresent | src/graph.py:43-44 | the tail track is in the window only while the tail is behind the current track |
| TrackGraph.Admit | src/graph.py:62 | adding the current track to its bucket extends the window by one sorted position |
| TrackGraph.MatchOneMore | src/graph.py:59-60 | one more pairing key adds exactly that key's bucket to the matches |
| TrackGraph.MatchesAreNeighbours | src/graph.py:43-60 | after eviction, the window tracks whose key is a pairing are exactly the earlier sorted tracks that reach the threshold and match a pairing |
| TrackGraph.SortedTracks | src/graph.py:39 | the sorted list has distinct tracks and non-decreasing BPMs |
| TrackGraph.SortedTrackSet | src/graph.py:39 | the sorted list holds the input's tracks |
| TrackGraph.SortedOvershoots | src/graph.py:39-44 | some sorted track is below its own threshold iff some input track is |
| TrackGraph.SortedNeighboursAgree | src/graph.py:39-62 | the neighbours computed over sorted positions are the declarative neighbours of the input item placed there |
| TrackGraph.EntryAgrees | src/graph.py:36-63 | the swept entry of every input track is its declarative neighbour set |
| TrackGraph.SweepIsCompatibilityGraph | src/graph.py:36-63 | a complete sweep over the sorted list is the declarative graph over the input |
| TrackGraph.EvictBelow | src/graph.py:43-45 | the eviction loop succeeds iff the current track reaches its threshold; the tail then only moves forward, never passes the current track, and the window still holds exactly the tracks from the tail on |
| TrackGraph.AddMatches | src/graph.py:59-60 | the matching loop adds to the current track's entry exactly the window tracks whose key is a pairing, creating the entry |
| TrackGraph.SweepAdvance | src/graph.py:40-62 | one round of the sweep re-establishes the window, threshold and graph invariants at the next position |
| TrackGraph.ThresholdsAdvance | src/graph.py:42-45 | evicted tracks stay below the next, higher threshold, and the current track reached its own |
| TrackGraph.SweptEntry | src/graph.py:59-60 | the entry made for the current track is its set of sorted neighbours |
| TrackGraph.Sweep | src/graph.py:36-62 | the sweep fails iff some sorted track is below its own threshold, and otherwise returns every sorted track with its neighbours |
| TrackGraph.BuildGraph | src/graph.py:16-63 | the two assertion failures, the `KeyError` exactly when some track overshoots, and otherwise exactly `CompatibilityGraph` |
| Scenarios.SameKeyPairs | src/utils.py:42-43 | every key pairs with itself under `perfect` |
| Scenarios.GapCompatible | src/graph.py:39-62 | at 120/122/150 BPM with a range of 1/10, only the 122 track reaches back, to the 120 track |
| Scenarios.GapNeighbours | src/graph.py:39-62 | the neighbour sets of the three tracks: only the 122 track has a neighbour, the 120 track |
| Scenarios.TempoGap | src/graph.py:36-63 | the graph of the 120/122/150 example is `{a: {}, b: {a}, c: {}}`, with empty entries kept |
| Scenarios.TieNeighbours | src/graph.py:39-62 | under a zero range, of two tracks of equal BPM and key only the later has a neighbour |
| Scenarios.EqualTempoPair | src/graph.py:36-63 | the graph of two equal-BPM tracks on one key is `{x: {}, y: {x}}` |
| Persist.AsFields | src/graph.py:68 | `asdict` of a track has exactly the three field names as keys |
| Persist.FromFields | src/graph.py:83 | `TrackInfo(**d)` succeeds iff the keys are exactly the field names |
| Persist.FieldsRoundTrip | src/graph.py:67-84 | reading back a written track gives the track |
| Persist.FieldsExact | src/graph.py:83 | a dictionary that reads as a track is that track's written form |
| Persist.DecodeAll | src/graph.py:84 | the neighbour set is read iff every dictionary has exactly the field names |
| Persist.DecodeAllMembers | src/graph.py:84 | the decoded set holds exactly the tracks the dictionaries read as |
| Persist.FromRecords | src/graph.py:81-85 | loading fails iff some dictionary does not read as a track, and the failure is the bad-fields error |
| Persist.FromRecordsSnoc | src/graph.py:82-84 | one more record enters its track with its decoded neighbours, replacing an earlier entry |
| Persist.RecordKeys | src/graph.py:81-85 | the loaded graph has an entry for exactly the tracks of the records |
| Persist.LastRecordWins | src/graph.py:81-85 | a track's loaded entry comes from the last record that names it |
| Persist.Write | src/graph.py:68 | the inner list `[asdict(nbr) for nbr in nbrs]` has one entry per neighbour of the enumeration (element by element in `Persist.WriteAt`) |
| Persist.Encode | src/graph.py:67-70 | the outer list of `to_json` has one record per track of the enumeration (element by element in `Persist.EncodeAt`) |
| Persist.EncodeAt | src/graph.py:67-70 | the `i`-th record is the `i`-th track with its neighbours written in their iteration order |
| Persist.WriteAt | src/graph.py:68 | the inner list holds each neighbour's fields in iteration order |
| Persist.ReadWrite | src/graph.py:68-84 | reading back a written neighbour list gives its set of elements |
| Persist.ReadEncode | src/graph.py:65-85 | reading back the records of some tracks gives the graph on those tracks, in any order and even with repeats |
| Persist.RoundTrip | src/graph.py:65-85 | reading back the records of every track gives back the graph, with set-equal entries and empty entries kept |
| Persist.WriteSet | src/graph.py:68 | the inner list enumerates the set once per element and reads back as the set |
| Persist.EncodeOneMore | src/graph.py:67-70 | writing one more track appends its record and keeps the enumeration exact |
| Persist.WrittenOneMore | src/graph.py:67-70 | writing one more remaining track keeps the records those of an enumeration of the tracks written so far |
| Persist.ToRecords | src/graph.py:65-70 | `to_json` writes one record per graph entry, for some iteration order of the tracks, with each neighbour set listed once per element; the records load back to the same graph |

## Left out

- JSON text, paths and files in `to_json`/`from_json` (`mkdir`, `open`, `json.dump`, `json.load`) are file I/O. Only the record lists are modelled. JSON values are all strings here, because the fields of `TrackInfo` are strings.
- `math.ceil(meta.bpm * bpm_range)` works in binary floating point (src/graph.py:42). The model uses an exact fraction. When the floating-point product is not exact the two can differ by one. For example, `100 * 0.07` is `7.000000000000001` in binary floating point, so `math.ceil` gives 8 and the threshold 92, where the exact fraction 7/100 gives 7 and the threshold 93.
- Python's dictionary and set iteration orders are not modelled. They appear as enumerations that the proofs quantify over.
- `CamelotKey.__repr__` (src/utils.py:68-69) only formats text.
- `src/client.py`, `src/cli.py` and `src/builder.py` are not part of this model. They hold authentication, a browser driver, command-line wiring and a driver script, with no logic of the core.
- `fetch_current_user`, `fetch_current_user_playlists` and `fetch_unique_tracks` in `src/utils.py` are not modelled. They paginate network API responses.
- `scrape_track_metadata_beatport` and `scrape_track` in `src/utils.py` are not modelled. They are concurrent browser scraping. Their one use of the key table, a `KEY_TO_CAMELOT_KEY[key]` lookup, is `KeyTable.Lookup`, with a miss as `None` instead of a `KeyError`.
- The `TrackMeta.key` label is carried but never compared, as in the source.
- Camelot.PerfectMembers, Camelot.AddInverse, Camelot.AddWholeTurns, Camelot.DiagInvolution and TrackGraph.PairingsOnWheel require a valid key `k`. For a root outside 1..12, `_add` normalises the root, so these equalities do not hold: `CamelotKey(1, A)` is not in `Perfect(CamelotKey(13, A))` although 13 and 1 are congruent modulo 12. The source only builds valid keys. Camelot.BoostMembers, Camelot.DiagMembers and Camelot.SpecialMembers need only the candidate key to be valid.
- The concurrency of the scraping collaborators is left out. The core is sequential.
