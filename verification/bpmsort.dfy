/**
 * The stable sort of the input items by BPM. The sort is modelled on the
 * positions of the input, so that "comes earlier in the sorted order" can
 * be related to the input order of tracks with equal BPM.
 */
module BpmSort {
  import opened Tracks

  /** Input item `x` is placed before input item `y` by a stable sort on
      BPM: lower BPM first, and input order among equal BPMs. */
  predicate Before(s: seq<Entry>, x: nat, y: nat)
    requires x < |s| && y < |s|
  {
    s[x].meta.bpm < s[y].meta.bpm || (s[x].meta.bpm == s[y].meta.bpm && x < y)
  }

  /** `order` lists input positions below `n`, each of them once, in
      stable BPM order. */
  predicate SortedOrder(s: seq<Entry>, order: seq<nat>, n: nat)
    requires n <= |s|
  {
    && |order| == n
    && (forall p :: 0 <= p < |order| ==> order[p] < n)
    && (forall x :: 0 <= x < n ==> x in order)
    && (forall p, q :: 0 <= p < q < |order| ==> Before(s, order[p], order[q]))
  }

  /** Inserts the new position `x` into a sorted list of earlier positions:
      it goes in front of the first position with a strictly higher BPM, so
      after every position with the same BPM. Only BPMs are compared. */
  function Insert(s: seq<Entry>, order: seq<nat>, x: nat): (r: seq<nat>)
    requires x < |s|
    requires forall p :: 0 <= p < |order| ==> order[p] < x
    requires forall p, q :: 0 <= p < q < |order| ==> Before(s, order[p], order[q])
    ensures |r| == |order| + 1
    ensures forall y :: y in r <==> y in order || y == x
    ensures forall p :: 0 <= p < |r| ==> r[p] <= x
    ensures forall p, q :: 0 <= p < q < |r| ==> Before(s, r[p], r[q])
  {
    if |order| == 0 then [x]
    else if s[x].meta.bpm < s[order[0]].meta.bpm then
      assert forall q :: 0 < q < |order| ==> Before(s, order[0], order[q]);
      [x] + order
    else
      var rest := Insert(s, order[1..], x);
      assert forall y :: y in order[1..] ==> y in order;
      assert forall q :: 0 <= q < |rest| ==> rest[q] in order[1..] || rest[q] == x;
      assert forall q :: 0 < q < |order| ==> Before(s, order[0], order[q]);
      [order[0]] + rest
  }

  /** The sorted order of the first `n` input items, by insertion. */
  function SortOrder(s: seq<Entry>, n: nat): (order: seq<nat>)
    requires n <= |s|
    ensures SortedOrder(s, order, n)
  {
    if n == 0 then []
    else
      var prefix := SortOrder(s, n - 1);
      var r := Insert(s, prefix, n - 1);
      assert forall x :: 0 <= x < n ==> x in r by {
        forall x | 0 <= x < n ensures x in r {
          if x < n - 1 { assert x in prefix; }
        }
      }
      r
  }

  /** The list `sorted_by_bpm`: the input items in sorted order. */
  function SortByBpm(s: seq<Entry>): (sorted: seq<Entry>)
    ensures |sorted| == |s|
    ensures forall p :: 0 <= p < |s| ==> sorted[p] == s[SortOrder(s, |s|)[p]]
    ensures forall p, q :: 0 <= p < q < |sorted| ==> sorted[p].meta.bpm <= sorted[q].meta.bpm
    ensures forall x :: 0 <= x < |s| ==> s[x] in sorted
  {
    var order := SortOrder(s, |s|);
    var sorted := seq(|s|, p requires 0 <= p < |s| => s[order[p]]);
    Layout(s, order, sorted);
    sorted
  }

  /** Items laid out in a stable order have non-decreasing BPMs and include
      every input item. */
  lemma Layout(s: seq<Entry>, order: seq<nat>, sorted: seq<Entry>)
    requires SortedOrder(s, order, |s|)
    requires |sorted| == |s|
    requires forall p :: 0 <= p < |s| ==> sorted[p] == s[order[p]]
    ensures forall p, q :: 0 <= p < q < |sorted| ==> sorted[p].meta.bpm <= sorted[q].meta.bpm
    ensures forall x :: 0 <= x < |s| ==> s[x] in sorted
  {
    forall p, q | 0 <= p < q < |sorted| ensures sorted[p].meta.bpm <= sorted[q].meta.bpm {
      assert Before(s, order[p], order[q]);
    }
    forall x | 0 <= x < |s| ensures s[x] in sorted {
      var p := PlaceOf(s, order, x);
      assert sorted[p] == s[x];
    }
  }

  /** Positions in a stably sorted order compare as the items do. */
  lemma PositionsFollowBefore(s: seq<Entry>, order: seq<nat>, p: nat, q: nat)
    requires SortedOrder(s, order, |s|)
    requires p < |order| && q < |order|
    ensures p < q <==> Before(s, order[p], order[q])
  {
    if q < p {
      assert Before(s, order[q], order[p]);
    }
  }

  /** Every input position has exactly one place in a sorted order. */
  lemma PlaceOf(s: seq<Entry>, order: seq<nat>, x: nat) returns (p: nat)
    requires SortedOrder(s, order, |s|)
    requires x < |s|
    ensures p < |order| && order[p] == x
    ensures forall q :: 0 <= q < |order| && order[q] == x ==> q == p
  {
    assert x in order;
    p :| 0 <= p < |order| && order[p] == x;
    forall q | 0 <= q < |order| && order[q] == x ensures q == p {
      PositionsFollowBefore(s, order, p, q);
      PositionsFollowBefore(s, order, q, p);
    }
  }
}
