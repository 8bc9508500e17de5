/**
 * The compatibility graph: for every track, the tracks that come earlier in
 * the stable BPM order, are within the track's BPM tolerance and whose key
 * is among the track's selected pairings. It is built by one sweep over the
 * sorted items with a forward-only eviction cursor.
 */
module TrackGraph {
  import opened Wrappers
  import opened Camelot
  import opened Tracks
  import opened BpmSort

  /** The five rule flags of `build_graph`. */
  datatype Rules = Rules(perfect: bool, boost: bool, scale: bool, diag: bool, special: bool)

  predicate AnyRule(rules: Rules) {
    rules.perfect || rules.boost || rules.scale || rules.diag || rules.special
  }

  type Positive = n: int | n > 0 witness 1

  /** `bpm_range` as the exact fraction `num / den`. */
  datatype Ratio = Ratio(num: int, den: Positive)

  predicate InUnitInterval(range: Ratio) {
    0 <= range.num <= range.den
  }

  /** The ways `build_graph` fails: its two assertions, and the `KeyError`
      of removing a track that is not in its window bucket. */
  datatype BuildError = NoRuleSelected | RangeOutOfBounds | MissingFromWindow

  type Graph = map<TrackInfo, set<TrackInfo>>

  /** The sliding window: tracks bucketed by their wheel position. */
  type Window = map<CamelotKey, set<TrackInfo>>

  /** A bucket of a `defaultdict(set)`: missing keys read as empty. */
  function Bucket<K, V>(m: map<K, set<V>>, k: K): (b: set<V>)
    ensures k in m ==> b == m[k]
    ensures k !in m ==> b == {}
  {
    if k in m then m[k] else {}
  }

  /** The ceiling of `x / d`. */
  function CeilDiv(x: int, d: Positive): (c: int)
    ensures (c - 1) * d < x <= c * d
  {
    var q := (x + d - 1) / d;
    assert x + d - 1 == d * q + (x + d - 1) % d;
    assert (q - 1) * d == q * d - d;
    q
  }

  /** Tracks below this BPM are evicted before a track of BPM `bpm` is
      matched: `bpm - ceil(bpm * range)`. */
  function Threshold(bpm: int, range: Ratio): (t: int)
    ensures (bpm - t - 1) * range.den < bpm * range.num <= (bpm - t) * range.den
  {
    bpm - CeilDiv(bpm * range.num, range.den)
  }

  /** For a range in [0, 1] the threshold never decreases as the BPM grows,
      for negative BPMs too. So a track evicted for one threshold is below
      every later one, which is why one forward pass suffices. */
  lemma ThresholdMonotone(b1: int, b2: int, range: Ratio)
    requires InUnitInterval(range)
    requires b1 <= b2
    ensures Threshold(b1, range) <= Threshold(b2, range)
  {
    var p, q := range.num, range.den;
    var c1, c2 := CeilDiv(b1 * p, q), CeilDiv(b2 * p, q);
    assert (b2 - b1) * p <= (b2 - b1) * q by {
      assert 0 <= b2 - b1 && p <= q;
      MulMonotone(b2 - b1, p, q);
    }
    assert (c2 - 1 - c1) * q < (b2 - b1) * q by {
      assert (c2 - 1 - c1) * q == (c2 - 1) * q - c1 * q;
      assert (b2 - b1) * p == b2 * p - b1 * p;
    }
    if c2 - 1 - c1 >= b2 - b1 {
      MulMonotone(q, b2 - b1, c2 - 1 - c1);
    }
  }

  lemma MulMonotone(a: int, b: int, c: int)
    requires 0 <= a && b <= c
    ensures a * b <= a * c
  {
    assert a * c - a * b == a * (c - b);
  }

  /** With a non-negative BPM and a range in [0, 1], the threshold is at
      most the BPM itself, so a track never evicts itself. */
  lemma ThresholdAtMostBpm(bpm: int, range: Ratio)
    requires InUnitInterval(range) && bpm >= 0
    ensures Threshold(bpm, range) <= bpm
  {
    assert bpm * range.num >= 0 by {
      MulMonotone(bpm, 0, range.num);
    }
  }

  /** The key pairings: the selected rules' keys, in the order the rules
      are tested. */
  function Pairings(k: CamelotKey, rules: Rules): (r: seq<CamelotKey>)
    ensures |r| > 0 <==> AnyRule(rules)
    ensures forall k' :: k' in r <==>
              (rules.perfect && k' in Perfect(k)) || (rules.boost && k' == Boost(k)) ||
              (rules.scale && k' == Scale(k)) || (rules.diag && k' == Diag(k)) ||
              (rules.special && k' in Special(k))
  {
    (if rules.perfect then Perfect(k) else [])
    + (if rules.boost then [Boost(k)] else [])
    + (if rules.scale then [Scale(k)] else [])
    + (if rules.diag then [Diag(k)] else [])
    + (if rules.special then Special(k) else [])
  }

  /** On valid keys the pairings are a statement about the wheel: how many
      steps clockwise the candidate is, and on which ring. */
  lemma PairingsOnWheel(k: CamelotKey, k': CamelotKey, rules: Rules)
    requires Valid(k) && Valid(k')
    ensures k' in Pairings(k, rules) <==>
      var same, d := k'.suff == k.suff, Offset(k.root, k'.root);
      (rules.perfect && same && d in {11, 0, 1}) ||
      (rules.boost && same && d == 2) ||
      (rules.scale && !same && d == 0) ||
      (rules.diag && !same && d == (if k.suff == A then 11 else 1)) ||
      (rules.special && ((same && d == 7) || (!same && d == (if k.suff == A then 3 else 9))))
  {
    PerfectMembers(k, k');
    BoostMembers(k, k');
    DiagMembers(k, k');
    SpecialMembers(k, k');
    assert Offset(k.root, k'.root) == 0 <==> k.root == k'.root by {
      ModTwelve(k'.root - k.root);
    }
  }

  // ---------------------------------------------------------------------
  // The declarative graph, over positions of the input.

  /** Input item `y` is a neighbour of input item `x`: it comes strictly
      earlier in the stable BPM order, its BPM is at or above `x`'s
      threshold, and its key is among `x`'s pairings. */
  predicate Compatible(s: seq<Entry>, rules: Rules, range: Ratio, x: nat, y: nat)
    requires x < |s| && y < |s|
  {
    && Before(s, y, x)
    && s[y].meta.bpm >= Threshold(s[x].meta.bpm, range)
    && s[y].meta.camelotKey in Pairings(s[x].meta.camelotKey, rules)
  }

  function NeighbourSet(s: seq<Entry>, rules: Rules, range: Ratio, x: nat): set<TrackInfo>
    requires x < |s|
  {
    set y | 0 <= y < |s| && Compatible(s, rules, range, x, y) :: s[y].track
  }

  /** The graph `build_graph` is meant to produce: an entry for every input
      track, holding exactly its compatible tracks. */
  function CompatibilityGraph(s: seq<Entry>, rules: Rules, range: Ratio): (g: Graph)
    requires DistinctTracks(s)
    ensures g.Keys == TrackSet(s)
    ensures forall x :: 0 <= x < |s| ==> g[s[x].track] == NeighbourSet(s, rules, range, x)
  {
    map x | 0 <= x < |s| :: s[x].track := NeighbourSet(s, rules, range, x)
  }

  /** Some track's threshold lies above its own BPM (only possible for a
      negative BPM): the sweep then tries to evict the current track. */
  predicate Overshoots(s: seq<Entry>, range: Ratio) {
    exists x :: 0 <= x < |s| && s[x].meta.bpm < Threshold(s[x].meta.bpm, range)
  }

  /** The characterisation of the graph, by input position: the track of
      `y` is in the entry of the track of `x` exactly when `y` is compatible
      with `x`. */
  lemma NeighbourIff(s: seq<Entry>, rules: Rules, range: Ratio, x: nat, y: nat)
    requires DistinctTracks(s)
    requires x < |s| && y < |s|
    ensures s[y].track in CompatibilityGraph(s, rules, range)[s[x].track] <==> Compatible(s, rules, range, x, y)
  {
    if s[y].track in NeighbourSet(s, rules, range, x) {
      var z :| 0 <= z < |s| && Compatible(s, rules, range, x, z) && s[z].track == s[y].track;
      assert z == y;
    }
  }

  /** No track is its own neighbour, and every neighbour is an input track. */
  lemma NoSelfNeighbour(s: seq<Entry>, rules: Rules, range: Ratio, t: TrackInfo)
    requires DistinctTracks(s)
    requires t in CompatibilityGraph(s, rules, range)
    ensures t !in CompatibilityGraph(s, rules, range)[t]
    ensures CompatibilityGraph(s, rules, range)[t] <= TrackSet(s)
  {
    var x :| 0 <= x < |s| && s[x].track == t;
    NeighbourIff(s, rules, range, x, x);
  }

  /** The graph is directed: of two tracks, at most one is a neighbour of
      the other. Among tracks of equal BPM, the earlier in the input never
      receives the later, and the later receives the earlier exactly when
      the key rules allow it and the earlier clears the threshold. */
  lemma EqualBpmDirected(s: seq<Entry>, rules: Rules, range: Ratio, x: nat, y: nat)
    requires DistinctTracks(s)
    requires x < y < |s|
    ensures !(s[y].track in CompatibilityGraph(s, rules, range)[s[x].track] &&
              s[x].track in CompatibilityGraph(s, rules, range)[s[y].track])
    ensures s[x].meta.bpm == s[y].meta.bpm ==>
              s[y].track !in CompatibilityGraph(s, rules, range)[s[x].track]
    ensures s[x].meta.bpm == s[y].meta.bpm ==>
              (s[x].track in CompatibilityGraph(s, rules, range)[s[y].track] <==>
                 s[x].meta.bpm >= Threshold(s[y].meta.bpm, range) &&
                 s[x].meta.camelotKey in Pairings(s[y].meta.camelotKey, rules))
  {
    NeighbourIff(s, rules, range, x, y);
    NeighbourIff(s, rules, range, y, x);
  }

  /** With non-negative BPMs and a range in [0, 1] no track overshoots, so
      the sweep never fails. */
  lemma NonNegativeNeverOvershoots(s: seq<Entry>, range: Ratio)
    requires InUnitInterval(range)
    requires forall x :: 0 <= x < |s| ==> s[x].meta.bpm >= 0
    ensures !Overshoots(s, range)
  {
    forall x | 0 <= x < |s| ensures s[x].meta.bpm >= Threshold(s[x].meta.bpm, range) {
      ThresholdAtMostBpm(s[x].meta.bpm, range);
    }
  }

  // ---------------------------------------------------------------------
  // The sweep, over positions of the sorted list.

  /** The tracks at sorted positions `lo..hi` whose key is `k`. */
  ghost function InWindow(sorted: seq<Entry>, lo: nat, hi: nat, k: CamelotKey): set<TrackInfo>
    requires lo <= hi <= |sorted|
  {
    set j | lo <= j < hi && sorted[j].meta.camelotKey == k :: sorted[j].track
  }

  /** The tracks at sorted positions `lo..hi` whose key is among `keys`. */
  ghost function Matching(sorted: seq<Entry>, lo: nat, hi: nat, keys: seq<CamelotKey>): set<TrackInfo>
    requires lo <= hi <= |sorted|
  {
    set j | lo <= j < hi && sorted[j].meta.camelotKey in keys :: sorted[j].track
  }

  /** The window holds exactly the tracks at sorted positions `lo..hi`,
      each in its own key's bucket. */
  ghost predicate WindowHolds(w: Window, sorted: seq<Entry>, lo: nat, hi: nat)
    requires lo <= hi <= |sorted|
  {
    forall k :: Bucket(w, k) == InWindow(sorted, lo, hi, k)
  }

  /** The neighbours of sorted position `i`, over sorted positions. */
  ghost function SortedNeighbours(sorted: seq<Entry>, rules: Rules, range: Ratio, i: nat): set<TrackInfo>
    requires i < |sorted|
  {
    set j | 0 <= j < i && sorted[j].meta.bpm >= Threshold(sorted[i].meta.bpm, range)
              && sorted[j].meta.camelotKey in Pairings(sorted[i].meta.camelotKey, rules)
          :: sorted[j].track
  }

  ghost predicate NonDecreasing(sorted: seq<Entry>) {
    forall p, q :: 0 <= p < q < |sorted| ==> sorted[p].meta.bpm <= sorted[q].meta.bpm
  }

  /** The tracks at sorted positions below `i`. */
  ghost function TracksBelow(sorted: seq<Entry>, i: nat): set<TrackInfo>
    requires i <= |sorted|
  {
    set j | 0 <= j < i :: sorted[j].track
  }

  /** The graph holds exactly the entries of the first `i` sorted tracks,
      each with its neighbours. */
  ghost predicate Swept(graph: Graph, sorted: seq<Entry>, rules: Rules, range: Ratio, i: nat)
    requires i <= |sorted|
  {
    && graph.Keys == TracksBelow(sorted, i)
    && forall j :: 0 <= j < i ==> graph[sorted[j].track] == SortedNeighbours(sorted, rules, range, j)
  }

  /** Entering the current track's neighbours extends the swept prefix. */
  lemma SweptStep(graph: Graph, sorted: seq<Entry>, rules: Rules, range: Ratio, i: nat)
    requires DistinctTracks(sorted)
    requires i < |sorted|
    requires Swept(graph, sorted, rules, range, i)
    ensures sorted[i].track !in graph
    ensures Swept(graph[sorted[i].track := SortedNeighbours(sorted, rules, range, i)], sorted, rules, range, i + 1)
  {
    var t := sorted[i].track;
    var g' := graph[t := SortedNeighbours(sorted, rules, range, i)];
    assert TracksBelow(sorted, i + 1) == TracksBelow(sorted, i) + {t};
    forall j | 0 <= j < i + 1 ensures g'[sorted[j].track] == SortedNeighbours(sorted, rules, range, j) {
      if j < i {
        assert sorted[j].track != t;
      }
    }
  }

  /** Evicting the track at the tail keeps the window exact. */
  lemma Evict(w: Window, sorted: seq<Entry>, tail: nat, i: nat)
    requires DistinctTracks(sorted)
    requires tail < i <= |sorted|
    requires WindowHolds(w, sorted, tail, i)
    ensures sorted[tail].track in Bucket(w, sorted[tail].meta.camelotKey)
    ensures WindowHolds(w[sorted[tail].meta.camelotKey :=
                            Bucket(w, sorted[tail].meta.camelotKey) - {sorted[tail].track}],
                        sorted, tail + 1, i)
  {
    var key := sorted[tail].meta.camelotKey;
    var w' := w[key := Bucket(w, key) - {sorted[tail].track}];
    assert sorted[tail].track in InWindow(sorted, tail, i, key);
    forall k ensures Bucket(w', k) == InWindow(sorted, tail + 1, i, k) {
      assert Bucket(w, k) == InWindow(sorted, tail, i, k);
    }
  }

  /** The track at the tail is in the window only while the tail is behind
      the current position. */
  lemma TailPresent(w: Window, sorted: seq<Entry>, tail: nat, i: nat)
    requires tail <= i < |sorted|
    requires WindowHolds(w, sorted, tail, i)
    ensures sorted[tail].track in Bucket(w, sorted[tail].meta.camelotKey) ==> tail < i
  {
  }

  /** Adding the current track extends the window by one position. */
  lemma Admit(w: Window, sorted: seq<Entry>, tail: nat, i: nat)
    requires tail <= i < |sorted|
    requires WindowHolds(w, sorted, tail, i)
    ensures WindowHolds(w[sorted[i].meta.camelotKey :=
                            Bucket(w, sorted[i].meta.camelotKey) + {sorted[i].track}],
                        sorted, tail, i + 1)
  {
    var key := sorted[i].meta.camelotKey;
    var w' := w[key := Bucket(w, key) + {sorted[i].track}];
    forall k ensures Bucket(w', k) == InWindow(sorted, tail, i + 1, k) {
      assert Bucket(w, k) == InWindow(sorted, tail, i, k);
    }
  }

  /** One more pairing key adds that key's bucket to the matches. */
  lemma MatchOneMore(w: Window, sorted: seq<Entry>, tail: nat, i: nat, keys: seq<CamelotKey>, p: nat)
    requires tail <= i <= |sorted|
    requires WindowHolds(w, sorted, tail, i)
    requires p < |keys|
    ensures Matching(sorted, tail, i, keys[..p + 1])
            == Matching(sorted, tail, i, keys[..p]) + Bucket(w, keys[p])
  {
    assert keys[..p + 1] == keys[..p] + [keys[p]];
    assert Bucket(w, keys[p]) == InWindow(sorted, tail, i, keys[p]);
  }

  /** After eviction, the window's matches are the sorted neighbours. */
  lemma MatchesAreNeighbours(sorted: seq<Entry>, rules: Rules, range: Ratio, tail: nat, i: nat)
    requires NonDecreasing(sorted)
    requires tail <= i < |sorted|
    requires forall j :: 0 <= j < tail ==> sorted[j].meta.bpm < Threshold(sorted[i].meta.bpm, range)
    requires sorted[tail].meta.bpm >= Threshold(sorted[i].meta.bpm, range)
    ensures Matching(sorted, tail, i, Pairings(sorted[i].meta.camelotKey, rules))
            == SortedNeighbours(sorted, rules, range, i)
  {
  }

  /** The items as the sort lays them out. */
  ghost predicate LaidOut(s: seq<Entry>, order: seq<nat>, sorted: seq<Entry>) {
    && SortedOrder(s, order, |s|)
    && |sorted| == |s|
    && forall p :: 0 <= p < |s| ==> sorted[p] == s[order[p]]
  }

  /** The sorted list holds every input item once: its tracks are distinct
      and its BPMs do not decrease. */
  lemma SortedTracks(s: seq<Entry>, order: seq<nat>, sorted: seq<Entry>)
    requires DistinctTracks(s) && LaidOut(s, order, sorted)
    ensures DistinctTracks(sorted)
    ensures NonDecreasing(sorted)
  {
    forall p, q | 0 <= p < q < |sorted| ensures sorted[p].track != sorted[q].track {
      assert Before(s, order[p], order[q]);
    }
    Layout(s, order, sorted);
  }

  /** The sorted list has the input's tracks. */
  lemma SortedTrackSet(s: seq<Entry>, order: seq<nat>, sorted: seq<Entry>)
    requires LaidOut(s, order, sorted)
    ensures TracksBelow(sorted, |sorted|) == TrackSet(s)
  {
    forall t | t in TrackSet(s) ensures t in TracksBelow(sorted, |sorted|) {
      var x :| 0 <= x < |s| && s[x].track == t;
      var p := PlaceOf(s, order, x);
      assert sorted[p].track == t;
    }
  }

  /** The sorted list overshoots exactly when the input does. */
  lemma SortedOvershoots(s: seq<Entry>, order: seq<nat>, sorted: seq<Entry>, range: Ratio)
    requires LaidOut(s, order, sorted)
    ensures Overshoots(s, range) <==>
              exists p :: 0 <= p < |sorted| && sorted[p].meta.bpm < Threshold(sorted[p].meta.bpm, range)
  {
    if Overshoots(s, range) {
      var x :| 0 <= x < |s| && s[x].meta.bpm < Threshold(s[x].meta.bpm, range);
      var p := PlaceOf(s, order, x);
      assert sorted[p] == s[x];
    }
  }

  /** The neighbours of a sorted position are those of the input item
      placed there: "strictly earlier in the sorted list" is `Before`. */
  lemma SortedNeighboursAgree(s: seq<Entry>, rules: Rules, range: Ratio, order: seq<nat>, sorted: seq<Entry>, p: nat)
    requires LaidOut(s, order, sorted)
    requires p < |sorted|
    ensures SortedNeighbours(sorted, rules, range, p) == NeighbourSet(s, rules, range, order[p])
  {
    var x := order[p];
    forall t | t in SortedNeighbours(sorted, rules, range, p)
      ensures t in NeighbourSet(s, rules, range, x)
    {
      var j :| 0 <= j < p && sorted[j].meta.bpm >= Threshold(sorted[p].meta.bpm, range)
               && sorted[j].meta.camelotKey in Pairings(sorted[p].meta.camelotKey, rules)
               && sorted[j].track == t;
      PositionsFollowBefore(s, order, j, p);
      assert Compatible(s, rules, range, x, order[j]);
    }
    forall t | t in NeighbourSet(s, rules, range, x)
      ensures t in SortedNeighbours(sorted, rules, range, p)
    {
      var y :| 0 <= y < |s| && Compatible(s, rules, range, x, y) && s[y].track == t;
      var j := PlaceOf(s, order, y);
      PositionsFollowBefore(s, order, j, p);
      assert sorted[j].track == t;
    }
  }

  /** The swept entry of an input track is its neighbour set. */
  lemma EntryAgrees(s: seq<Entry>, rules: Rules, range: Ratio, order: seq<nat>, sorted: seq<Entry>,
                    g: Graph, x: nat)
    requires LaidOut(s, order, sorted)
    requires Swept(g, sorted, rules, range, |sorted|)
    requires x < |s|
    ensures s[x].track in g && g[s[x].track] == NeighbourSet(s, rules, range, x)
  {
    var p := PlaceOf(s, order, x);
    SortedNeighboursAgree(s, rules, range, order, sorted, p);
    assert sorted[p].track in TracksBelow(sorted, |sorted|);
  }

  /** What the sweep returns over the sorted list is the declarative graph
      over the input. */
  lemma SweepIsCompatibilityGraph(s: seq<Entry>, rules: Rules, range: Ratio, order: seq<nat>, sorted: seq<Entry>, g: Graph)
    requires DistinctTracks(s) && LaidOut(s, order, sorted)
    requires Swept(g, sorted, rules, range, |sorted|)
    ensures g == CompatibilityGraph(s, rules, range)
  {
    SortedTrackSet(s, order, sorted);
    var c := CompatibilityGraph(s, rules, range);
    assert g.Keys == TrackSet(s) == c.Keys;
    forall t | t in c ensures g[t] == c[t] {
      var x :| 0 <= x < |s| && s[x].track == t;
      EntryAgrees(s, rules, range, order, sorted, g, x);
    }
  }

  /** The eviction loop: advance the tail past every track below the
      threshold, removing each from its bucket. It fails, as the source's
      `remove` does, when the tail reaches the current track, which is not
      yet in the window. */
  method EvictBelow(sorted: seq<Entry>, window: Window, tail: nat, i: nat, threshold: int)
    returns (ok: bool, window': Window, tail': nat)
    requires DistinctTracks(sorted) && NonDecreasing(sorted)
    requires tail <= i < |sorted|
    requires WindowHolds(window, sorted, tail, i)
    requires forall j :: 0 <= j < tail ==> sorted[j].meta.bpm < threshold
    ensures ok <==> sorted[i].meta.bpm >= threshold
    ensures ok ==> tail <= tail' <= i && WindowHolds(window', sorted, tail', i)
    ensures ok ==> forall j :: 0 <= j < tail' ==> sorted[j].meta.bpm < threshold
    ensures ok ==> sorted[tail'].meta.bpm >= threshold
  {
    window', tail' := window, tail;
    while sorted[tail'].meta.bpm < threshold
      invariant tail <= tail' <= i
      invariant WindowHolds(window', sorted, tail', i)
      invariant forall j :: 0 <= j < tail' ==> sorted[j].meta.bpm < threshold
      decreases i - tail'
    {
      var out := sorted[tail'];
      var bucket := Bucket(window', out.meta.camelotKey);
      TailPresent(window', sorted, tail', i);
      if out.track !in bucket {
        return false, window', tail';
      }
      Evict(window', sorted, tail', i);
      window' := window'[out.meta.camelotKey := bucket - {out.track}];
      tail' := tail' + 1;
    }
    ok := true;
  }

  /** The matching loop: every pairing key adds its window bucket to the
      current track's entry, which is created on first use. */
  method AddMatches(graph: Graph, track: TrackInfo, window: Window, pairings: seq<CamelotKey>,
                    ghost sorted: seq<Entry>, ghost tail: nat, ghost i: nat)
    returns (graph': Graph)
    requires tail <= i <= |sorted|
    requires WindowHolds(window, sorted, tail, i)
    requires |pairings| > 0
    ensures graph' == graph[track := Bucket(graph, track) + Matching(sorted, tail, i, pairings)]
  {
    graph' := graph;
    assert Matching(sorted, tail, i, pairings[..0]) == {};
    for p := 0 to |pairings|
      invariant p == 0 ==> graph' == graph
      invariant p > 0 ==> graph' == graph[track := Bucket(graph, track) + Matching(sorted, tail, i, pairings[..p])]
    {
      MatchOneMore(window, sorted, tail, i, pairings, p);
      var before := Bucket(graph', track);
      assert before == Bucket(graph, track) + Matching(sorted, tail, i, pairings[..p]);
      assert before + Bucket(window, pairings[p])
          == Bucket(graph, track) + Matching(sorted, tail, i, pairings[..p + 1]);
      graph' := graph'[track := before + Bucket(window, pairings[p])];
    }
    assert pairings[..|pairings|] == pairings;
  }

  /** What holds of the sweep before position `i`: the window covers
      `tail..i`, everything before the tail is below the current threshold,
      no track so far overshoots, and the graph is swept up to `i`. */
  ghost predicate SweepState(graph: Graph, window: Window, tail: nat, sorted: seq<Entry>,
                             rules: Rules, range: Ratio, i: nat)
    requires i <= |sorted|
  {
    && tail <= i
    && WindowHolds(window, sorted, tail, i)
    && (i < |sorted| ==>
          forall j :: 0 <= j < tail ==> sorted[j].meta.bpm < Threshold(sorted[i].meta.bpm, range))
    && (forall j :: 0 <= j < i ==> sorted[j].meta.bpm >= Threshold(sorted[j].meta.bpm, range))
    && Swept(graph, sorted, rules, range, i)
  }

  /** One round of the sweep, after a successful eviction: entering the
      matches and admitting the current track re-establishes the state at
      the next position. */
  lemma SweepAdvance(graph: Graph, window: Window, tail: nat, sorted: seq<Entry>,
                     rules: Rules, range: Ratio, i: nat, graph': Graph, window': Window)
    requires DistinctTracks(sorted) && NonDecreasing(sorted) && InUnitInterval(range)
    requires tail <= i < |sorted|
    requires WindowHolds(window, sorted, tail, i)
    requires forall j :: 0 <= j < tail ==> sorted[j].meta.bpm < Threshold(sorted[i].meta.bpm, range)
    requires sorted[tail].meta.bpm >= Threshold(sorted[i].meta.bpm, range)
    requires forall j :: 0 <= j < i ==> sorted[j].meta.bpm >= Threshold(sorted[j].meta.bpm, range)
    requires Swept(graph, sorted, rules, range, i)
    requires graph' == graph[sorted[i].track := Bucket(graph, sorted[i].track) +
                        Matching(sorted, tail, i, Pairings(sorted[i].meta.camelotKey, rules))]
    requires window' == window[sorted[i].meta.camelotKey :=
                         Bucket(window, sorted[i].meta.camelotKey) + {sorted[i].track}]
    ensures SweepState(graph', window', tail, sorted, rules, range, i + 1)
  {
    SweptEntry(graph, sorted, rules, range, tail, i, graph');
    Admit(window, sorted, tail, i);
    ThresholdsAdvance(sorted, range, tail, i);
  }

  /** The threshold facts of the sweep carry over to the next position:
      the current track was not below its own threshold, and the next,
      higher threshold is above everything already evicted. */
  lemma ThresholdsAdvance(sorted: seq<Entry>, range: Ratio, tail: nat, i: nat)
    requires NonDecreasing(sorted) && InUnitInterval(range)
    requires tail <= i < |sorted|
    requires forall j :: 0 <= j < tail ==> sorted[j].meta.bpm < Threshold(sorted[i].meta.bpm, range)
    requires sorted[tail].meta.bpm >= Threshold(sorted[i].meta.bpm, range)
    requires forall j :: 0 <= j < i ==> sorted[j].meta.bpm >= Threshold(sorted[j].meta.bpm, range)
    ensures i + 1 < |sorted| ==>
              forall j :: 0 <= j < tail ==> sorted[j].meta.bpm < Threshold(sorted[i + 1].meta.bpm, range)
    ensures forall j :: 0 <= j < i + 1 ==> sorted[j].meta.bpm >= Threshold(sorted[j].meta.bpm, range)
  {
    assert sorted[tail].meta.bpm <= sorted[i].meta.bpm;
    if i + 1 < |sorted| {
      ThresholdMonotone(sorted[i].meta.bpm, sorted[i + 1].meta.bpm, range);
    }
  }

  /** The entry the matching loop makes for the current track is its
      sorted neighbours. */
  lemma SweptEntry(graph: Graph, sorted: seq<Entry>, rules: Rules, range: Ratio, tail: nat, i: nat, graph': Graph)
    requires DistinctTracks(sorted) && NonDecreasing(sorted)
    requires tail <= i < |sorted|
    requires forall j :: 0 <= j < tail ==> sorted[j].meta.bpm < Threshold(sorted[i].meta.bpm, range)
    requires sorted[tail].meta.bpm >= Threshold(sorted[i].meta.bpm, range)
    requires Swept(graph, sorted, rules, range, i)
    requires graph' == graph[sorted[i].track := Bucket(graph, sorted[i].track) +
                        Matching(sorted, tail, i, Pairings(sorted[i].meta.camelotKey, rules))]
    ensures Swept(graph', sorted, rules, range, i + 1)
  {
    SweptStep(graph, sorted, rules, range, i);
    MatchesAreNeighbours(sorted, rules, range, tail, i);
    assert Bucket(graph, sorted[i].track) == {};
  }

  /** The sweep over the sorted items. */
  method Sweep(sorted: seq<Entry>, rules: Rules, range: Ratio) returns (res: Result<Graph, BuildError>)
    requires DistinctTracks(sorted) && NonDecreasing(sorted)
    requires AnyRule(rules) && InUnitInterval(range)
    ensures res.Err? <==>
              exists p :: 0 <= p < |sorted| && sorted[p].meta.bpm < Threshold(sorted[p].meta.bpm, range)
    ensures res.Err? ==> res.error == MissingFromWindow
    ensures res.Ok? ==> Swept(res.value, sorted, rules, range, |sorted|)
  {
    var graph: Graph := map[];
    var window: Window := map[];
    var tail: nat := 0;
    for i := 0 to |sorted|
      invariant SweepState(graph, window, tail, sorted, rules, range, i)
    {
      var track, meta := sorted[i].track, sorted[i].meta;
      var threshold := Threshold(meta.bpm, range);
      var ok;
      ok, window, tail := EvictBelow(sorted, window, tail, i, threshold);
      if !ok {
        return Err(MissingFromWindow);
      }
      var pairings := Pairings(meta.camelotKey, rules);
      ghost var before, admitted := graph, window;
      graph := AddMatches(graph, track, window, pairings, sorted, tail, i);
      window := window[meta.camelotKey := Bucket(window, meta.camelotKey) + {track}];
      SweepAdvance(before, admitted, tail, sorted, rules, range, i, graph, window);
    }
    return Ok(graph);
  }

  /** `build_graph`: the two assertions, the stable sort by BPM, then the
      sweep. */
  method BuildGraph(s: seq<Entry>, rules: Rules, range: Ratio) returns (res: Result<Graph, BuildError>)
    requires DistinctTracks(s)
    ensures !AnyRule(rules) ==> res == Err(NoRuleSelected)
    ensures AnyRule(rules) && !InUnitInterval(range) ==> res == Err(RangeOutOfBounds)
    ensures AnyRule(rules) && InUnitInterval(range) ==>
              (res == Err(MissingFromWindow) <==> Overshoots(s, range))
    ensures AnyRule(rules) && InUnitInterval(range) && !Overshoots(s, range) ==>
              res == Ok(CompatibilityGraph(s, rules, range))
  {
    if !AnyRule(rules) {
      return Err(NoRuleSelected);
    }
    if !InUnitInterval(range) {
      return Err(RangeOutOfBounds);
    }
    ghost var order := SortOrder(s, |s|);
    var sorted := SortByBpm(s);
    SortedTracks(s, order, sorted);
    SortedOvershoots(s, order, sorted, range);
    res := Sweep(sorted, rules, range);
    if res.Ok? {
      SweepIsCompatibilityGraph(s, rules, range, order, sorted, res.value);
    }
  }
}
