/**
 * Two small worked graphs: a tempo gap that empties the window, and two
 * tracks of equal tempo and key under a zero range. The tracks and the key
 * are arbitrary; only the BPMs are fixed.
 */
module Scenarios {
  import opened Camelot
  import opened Tracks
  import opened BpmSort
  import opened TrackGraph

  const PerfectOnly := Rules(true, false, false, false, false)

  /** Every key pairs with itself under `perfect`. */
  lemma SameKeyPairs(k: CamelotKey)
    ensures k in Pairings(k, PerfectOnly)
  {
    assert Pairings(k, PerfectOnly)[1] == k;
  }

  /** Three tracks on one key with BPMs 120, 122 and 150. */
  function Gap(a: TrackInfo, b: TrackInfo, c: TrackInfo, k: CamelotKey): seq<Entry> {
    [Entry(a, TrackMeta(120, k, "")), Entry(b, TrackMeta(122, k, "")), Entry(c, TrackMeta(150, k, ""))]
  }

  /** With a range of one tenth only the 122 track reaches back, to the 120
      track: its threshold is 122 - 13 = 109, and the 150 track's threshold
      of 135 is above both earlier tracks. */
  lemma GapCompatible(a: TrackInfo, b: TrackInfo, c: TrackInfo, k: CamelotKey, x: nat, y: nat)
    requires x < 3 && y < 3
    ensures Compatible(Gap(a, b, c, k), PerfectOnly, Ratio(1, 10), x, y) <==> x == 1 && y == 0
  {
    var range := Ratio(1, 10);
    assert Threshold(120, range) == 108;
    assert Threshold(122, range) == 109;
    assert Threshold(150, range) == 135;
    SameKeyPairs(k);
  }

  /** The neighbour sets of the first scenario. */
  lemma GapNeighbours(a: TrackInfo, b: TrackInfo, c: TrackInfo, k: CamelotKey, x: nat)
    requires x < 3
    ensures NeighbourSet(Gap(a, b, c, k), PerfectOnly, Ratio(1, 10), x) == if x == 1 then {a} else {}
  {
    var s := Gap(a, b, c, k);
    forall y | 0 <= y < 3 ensures Compatible(s, PerfectOnly, Ratio(1, 10), x, y) <==> x == 1 && y == 0 {
      GapCompatible(a, b, c, k, x, y);
    }
    if x == 1 {
      assert s[0].track == a;
      assert a in NeighbourSet(s, PerfectOnly, Ratio(1, 10), x);
    }
  }

  /** The first scenario's graph is `{a: {}, b: {a}, c: {}}`, and the sweep
      does not fail on it. */
  lemma TempoGap(a: TrackInfo, b: TrackInfo, c: TrackInfo, k: CamelotKey)
    requires a != b && a != c && b != c
    ensures !Overshoots(Gap(a, b, c, k), Ratio(1, 10))
    ensures var g := CompatibilityGraph(Gap(a, b, c, k), PerfectOnly, Ratio(1, 10));
            g.Keys == {a, b, c} && g[a] == {} && g[b] == {a} && g[c] == {}
  {
    var s := Gap(a, b, c, k);
    assert s[0].track == a && s[1].track == b && s[2].track == c;
    assert TrackSet(s) == {a, b, c};
    forall x | 0 <= x < |s| ensures s[x].meta.bpm >= 0 {
      assert x == 0 || x == 1 || x == 2;
    }
    NonNegativeNeverOvershoots(s, Ratio(1, 10));
    GapNeighbours(a, b, c, k, 0);
    GapNeighbours(a, b, c, k, 1);
    GapNeighbours(a, b, c, k, 2);
  }

  /** Two tracks of equal BPM on one key. */
  function Tie(x: TrackInfo, y: TrackInfo, k: CamelotKey): seq<Entry> {
    [Entry(x, TrackMeta(124, k, "")), Entry(y, TrackMeta(124, k, ""))]
  }

  /** The neighbour sets of the second scenario: under a zero range the
      threshold is the BPM itself. */
  lemma TieNeighbours(x: TrackInfo, y: TrackInfo, k: CamelotKey, i: nat)
    requires i < 2
    ensures NeighbourSet(Tie(x, y, k), PerfectOnly, Ratio(0, 1), i) == if i == 1 then {x} else {}
  {
    var s := Tie(x, y, k);
    assert Threshold(124, Ratio(0, 1)) == 124;
    SameKeyPairs(k);
    forall j | 0 <= j < 2 ensures Compatible(s, PerfectOnly, Ratio(0, 1), i, j) <==> i == 1 && j == 0 {
    }
    if i == 1 {
      assert s[0].track == x;
      assert x in NeighbourSet(s, PerfectOnly, Ratio(0, 1), i);
    }
  }

  /** The second scenario's graph is `{x: {}, y: {x}}`: the track later in
      the input has the earlier as its neighbour, the earlier has none. */
  lemma EqualTempoPair(x: TrackInfo, y: TrackInfo, k: CamelotKey)
    requires x != y
    ensures var g := CompatibilityGraph(Tie(x, y, k), PerfectOnly, Ratio(0, 1));
            g.Keys == {x, y} && g[x] == {} && g[y] == {x}
  {
    var s := Tie(x, y, k);
    assert s[0].track == x && s[1].track == y;
    assert TrackSet(s) == {x, y};
    TieNeighbours(x, y, k, 0);
    TieNeighbours(x, y, k, 1);
  }
}
