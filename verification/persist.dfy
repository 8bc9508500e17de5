/**
 * The saved form of a graph, at the level of records: a list of
 * `(track, [neighbour])` pairs in which every track is written as the
 * field dictionary of its dataclass. Writing the list out as JSON text and
 * reading it back are not part of this model.
 */
module Persist {
  import opened Wrappers
  import opened Tracks
  import opened TrackGraph

  /** A dataclass as a dictionary from field names to values. */
  type Fields = map<string, string>

  /** The field names of `TrackInfo`. */
  const FieldNames: set<string> := {"name", "artist", "id"}

  /** One saved item: a track and the list of its neighbours. */
  datatype Record = Record(track: Fields, nbrs: seq<Fields>)

  /** `TrackInfo(**d)` raises for a missing or an unexpected keyword. */
  datatype DecodeError = BadFields

  /** `dataclasses.asdict` on a track. */
  function AsFields(t: TrackInfo): (d: Fields)
    ensures d.Keys == FieldNames
  {
    map["name" := t.name, "artist" := t.artist, "id" := t.id]
  }

  /** `TrackInfo(**d)`: defined exactly when the keys are the field names. */
  function FromFields(d: Fields): (r: Option<TrackInfo>)
    ensures r.Some? <==> d.Keys == FieldNames
  {
    if d.Keys == FieldNames then Some(TrackInfo(d["name"], d["artist"], d["id"])) else None
  }

  /** Reading back a written track gives the track. */
  lemma FieldsRoundTrip(t: TrackInfo)
    ensures FromFields(AsFields(t)) == Some(t)
  {
    var d := AsFields(t);
    assert d["name"] == t.name && d["artist"] == t.artist && d["id"] == t.id;
  }

  /** A dictionary that reads as a track is that track's written form, so
      distinct tracks are written differently. */
  lemma FieldsExact(d: Fields, t: TrackInfo)
    requires FromFields(d) == Some(t)
    ensures AsFields(t) == d
  {
    var e := AsFields(t);
    assert e.Keys == d.Keys;
    forall f | f in d ensures e[f] == d[f] {
      assert f == "name" || f == "artist" || f == "id";
    }
  }

  /** The set comprehension of `from_json`: every dictionary must read as a
      track. */
  function DecodeAll(fs: seq<Fields>): (r: Option<set<TrackInfo>>)
    ensures r.Some? <==> forall i :: 0 <= i < |fs| ==> fs[i].Keys == FieldNames
  {
    if |fs| == 0 then Some({})
    else
      var init := fs[..|fs| - 1];
      assert forall i :: 0 <= i < |fs| - 1 ==> init[i] == fs[i];
      match DecodeAll(init)
      case None => None
      case Some(ts) =>
        match FromFields(fs[|fs| - 1])
        case None => None
        case Some(t) => Some(ts + {t})
  }

  /** The decoded set holds exactly the tracks the dictionaries read as. */
  lemma {:induction false} DecodeAllMembers(fs: seq<Fields>, t: TrackInfo)
    requires DecodeAll(fs).Some?
    ensures t in DecodeAll(fs).value <==> exists i :: 0 <= i < |fs| && FromFields(fs[i]) == Some(t)
  {
    if |fs| > 0 {
      var init := fs[..|fs| - 1];
      assert forall i :: 0 <= i < |fs| - 1 ==> init[i] == fs[i];
      DecodeAllMembers(init, t);
      if t in DecodeAll(init).value {
        var i :| 0 <= i < |init| && FromFields(init[i]) == Some(t);
        assert FromFields(fs[i]) == Some(t);
      }
    }
  }

  predicate WellFormed(rec: Record) {
    && rec.track.Keys == FieldNames
    && forall i :: 0 <= i < |rec.nbrs| ==> rec.nbrs[i].Keys == FieldNames
  }

  /** `from_json` after parsing: the records in order, a later record for
      the same track replacing an earlier one. It fails exactly when some
      dictionary does not read as a track. */
  function FromRecords(recs: seq<Record>): (r: Result<Graph, DecodeError>)
    ensures r.Ok? <==> forall i :: 0 <= i < |recs| ==> WellFormed(recs[i])
    ensures r.Err? ==> r.error == BadFields
  {
    if |recs| == 0 then Ok(map[])
    else
      var init, rec := recs[..|recs| - 1], recs[|recs| - 1];
      assert forall i :: 0 <= i < |recs| - 1 ==> init[i] == recs[i];
      match FromRecords(init)
      case Err(e) => Err(e)
      case Ok(g) =>
        match FromFields(rec.track)
        case None => Err(BadFields)
        case Some(t) =>
          match DecodeAll(rec.nbrs)
          case None => Err(BadFields)
          case Some(ns) => Ok(g[t := ns])
  }

  /** Decoding one more record enters its track with its neighbours,
      replacing an earlier entry for the same track. */
  lemma FromRecordsSnoc(recs: seq<Record>, rec: Record, t: TrackInfo, ns: set<TrackInfo>)
    requires FromRecords(recs).Ok?
    requires FromFields(rec.track) == Some(t) && DecodeAll(rec.nbrs) == Some(ns)
    ensures FromRecords(recs + [rec]) == Ok(FromRecords(recs).value[t := ns])
  {
    assert (recs + [rec])[..|recs|] == recs;
  }

  /** The decoded graph has an entry for exactly the tracks of the records. */
  lemma {:induction false} RecordKeys(recs: seq<Record>, t: TrackInfo)
    requires FromRecords(recs).Ok?
    ensures t in FromRecords(recs).value <==> exists i :: 0 <= i < |recs| && FromFields(recs[i].track) == Some(t)
  {
    if |recs| > 0 {
      var init := recs[..|recs| - 1];
      assert forall i :: 0 <= i < |recs| - 1 ==> init[i] == recs[i];
      RecordKeys(init, t);
      if t in FromRecords(init).value {
        var i :| 0 <= i < |init| && FromFields(init[i].track) == Some(t);
        assert FromFields(recs[i].track) == Some(t);
      }
    }
  }

  /** The entry of a track comes from the last record that names it. */
  lemma {:induction false} LastRecordWins(recs: seq<Record>, i: nat)
    requires FromRecords(recs).Ok?
    requires i < |recs|
    requires forall j :: i < j < |recs| ==> FromFields(recs[j].track) != FromFields(recs[i].track)
    ensures FromFields(recs[i].track).value in FromRecords(recs).value
    ensures FromRecords(recs).value[FromFields(recs[i].track).value] == DecodeAll(recs[i].nbrs).value
  {
    var n := |recs| - 1;
    var init, rec := recs[..n], recs[n];
    assert recs == init + [rec];
    assert WellFormed(rec);
    assert FromRecords(init).Ok? by {
      assert forall j :: 0 <= j < n ==> init[j] == recs[j];
    }
    FromRecordsSnoc(init, rec, FromFields(rec.track).value, DecodeAll(rec.nbrs).value);
    if i < n {
      assert init[i] == recs[i];
      LastRecordWins(init, i);
    }
  }

  // ---------------------------------------------------------------------
  // Writing. The iteration orders of the graph's dictionary and of each
  // neighbour set are not modelled; they appear as explicit enumerations.

  /** The elements of a sequence, collected from the front. It is written
      recursively, rather than as `set x | x in s`, so that the inductions of
      `ReadWrite` and `ReadEncode` can unfold it one element at a time. */
  function Elems(s: seq<TrackInfo>): set<TrackInfo> {
    if |s| == 0 then {} else Elems(s[..|s| - 1]) + {s[|s| - 1]}
  }

  /** The collected elements are those of the sequence. */
  lemma {:induction false} ElemsMembers(s: seq<TrackInfo>, x: TrackInfo)
    ensures x in Elems(s) <==> x in s
  {
    if |s| > 0 {
      var init := s[..|s| - 1];
      ElemsMembers(init, x);
      assert s == init + [s[|s| - 1]];
    }
  }

  predicate Distinct(s: seq<TrackInfo>) {
    forall i, j :: 0 <= i < j < |s| ==> s[i] != s[j]
  }

  /** `[asdict(nbr) for nbr in nbrs]` for the iteration order `order`. */
  function Write(order: seq<TrackInfo>): (fs: seq<Fields>)
    ensures |fs| == |order|
  {
    if |order| == 0 then [] else Write(order[..|order| - 1]) + [AsFields(order[|order| - 1])]
  }

  /** The record list of `to_json`, for the iteration order `order` of the
      graph's tracks and the iteration order `nbrs[i]` of the neighbours of
      `order[i]`. */
  function Encode(order: seq<TrackInfo>, nbrs: seq<seq<TrackInfo>>): (recs: seq<Record>)
    requires |nbrs| == |order|
    ensures |recs| == |order|
  {
    if |order| == 0 then []
    else
      var n := |order| - 1;
      Encode(order[..n], nbrs[..n]) + [Record(AsFields(order[n]), Write(nbrs[n]))]
  }

  /** The `i`-th record is the `i`-th track with its written neighbours. */
  lemma {:induction false} EncodeAt(order: seq<TrackInfo>, nbrs: seq<seq<TrackInfo>>, i: nat)
    requires |nbrs| == |order| && i < |order|
    ensures Encode(order, nbrs)[i] == Record(AsFields(order[i]), Write(nbrs[i]))
    ensures Write(nbrs[i]) == seq(|nbrs[i]|, j requires 0 <= j < |nbrs[i]| => AsFields(nbrs[i][j]))
  {
    var n := |order| - 1;
    if i < n {
      EncodeAt(order[..n], nbrs[..n], i);
    }
    WriteAt(nbrs[i]);
  }

  lemma {:induction false} WriteAt(order: seq<TrackInfo>)
    ensures Write(order) == seq(|order|, j requires 0 <= j < |order| => AsFields(order[j]))
  {
    if |order| > 0 {
      WriteAt(order[..|order| - 1]);
    }
  }

  /** Reading back a written list of neighbours gives its elements. */
  lemma {:induction false} ReadWrite(order: seq<TrackInfo>)
    ensures DecodeAll(Write(order)) == Some(Elems(order))
  {
    if |order| > 0 {
      var n := |order| - 1;
      var fs := Write(order);
      assert fs[..n] == Write(order[..n]);
      ReadWrite(order[..n]);
      FieldsRoundTrip(order[n]);
    }
  }

  /** The part of `g` on the tracks `ks`. */
  function Restrict(g: Graph, ks: set<TrackInfo>): (r: Graph)
    ensures r.Keys == g.Keys * ks
  {
    map t | t in g && t in ks :: g[t]
  }

  /** Reading back the records written for some of the tracks gives the
      graph on those tracks, whatever the order and even with repeats. */
  lemma {:induction false} ReadEncode(g: Graph, order: seq<TrackInfo>, nbrs: seq<seq<TrackInfo>>)
    requires |nbrs| == |order|
    requires forall i :: 0 <= i < |order| ==> order[i] in g && Elems(nbrs[i]) == g[order[i]]
    ensures FromRecords(Encode(order, nbrs)) == Ok(Restrict(g, Elems(order)))
  {
    if |order| > 0 {
      var n := |order| - 1;
      var t := order[n];
      var init := Encode(order[..n], nbrs[..n]);
      assert Encode(order, nbrs) == init + [Record(AsFields(t), Write(nbrs[n]))];
      assert Elems(order) == Elems(order[..n]) + {t};
      assert FromRecords(init) == Ok(Restrict(g, Elems(order[..n]))) by {
        ReadEncode(g, order[..n], nbrs[..n]);
      }
      FieldsRoundTrip(t);
      ReadWrite(nbrs[n]);
      FromRecordsSnoc(init, Record(AsFields(t), Write(nbrs[n])), t, g[t]);
      RestrictOneMore(g, Elems(order[..n]), t);
    }
  }

  /** Entering a track's own entry extends the restriction by that track. */
  lemma RestrictOneMore(g: Graph, ks: set<TrackInfo>, t: TrackInfo)
    requires t in g
    ensures Restrict(g, ks)[t := g[t]] == Restrict(g, ks + {t})
  {
  }

  /** Reading back the written form of a graph gives the graph, with every
      neighbour set equal and the tracks without neighbours kept. */
  lemma RoundTrip(g: Graph, order: seq<TrackInfo>, nbrs: seq<seq<TrackInfo>>)
    requires Elems(order) == g.Keys
    requires |nbrs| == |order|
    requires forall i :: 0 <= i < |order| ==> order[i] in g && Elems(nbrs[i]) == g[order[i]]
    ensures FromRecords(Encode(order, nbrs)) == Ok(g)
  {
    ReadEncode(g, order, nbrs);
    assert Restrict(g, g.Keys) == g;
  }

  /** The inner list comprehension of `to_json`: the neighbours in some
      iteration order, each written out. */
  method WriteSet(ns: set<TrackInfo>) returns (fs: seq<Fields>, ghost order: seq<TrackInfo>)
    ensures Elems(order) == ns && Distinct(order)
    ensures fs == Write(order)
    ensures DecodeAll(fs) == Some(ns)
  {
    fs, order := [], [];
    var rest := ns;
    while rest != {}
      invariant rest <= ns
      invariant Elems(order) == ns - rest
      invariant Distinct(order)
      invariant fs == Write(order)
      decreases |rest|
    {
      var n :| n in rest;
      ElemsMembers(order, n);
      assert (order + [n])[..|order|] == order;
      fs, order := fs + [AsFields(n)], order + [n];
      rest := rest - {n};
    }
    ReadWrite(order);
  }

  /** `order` lists tracks of `g` once each, and `nbrs[i]` lists the
      neighbours of `order[i]` once each, as iterating a set does. */
  predicate Enumerated(g: Graph, order: seq<TrackInfo>, nbrs: seq<seq<TrackInfo>>) {
    && |nbrs| == |order|
    && Distinct(order)
    && (forall i :: 0 <= i < |order| ==> order[i] in g && Elems(nbrs[i]) == g[order[i]])
    && forall i :: 0 <= i < |nbrs| ==> Distinct(nbrs[i])
  }

  /** Writing one more track appends its record. */
  lemma EncodeOneMore(g: Graph, order: seq<TrackInfo>, nbrs: seq<seq<TrackInfo>>, t: TrackInfo, nbrOrder: seq<TrackInfo>)
    requires Enumerated(g, order, nbrs)
    requires t in g && t !in Elems(order) && Elems(nbrOrder) == g[t] && Distinct(nbrOrder)
    ensures Enumerated(g, order + [t], nbrs + [nbrOrder])
    ensures Elems(order + [t]) == Elems(order) + {t}
    ensures Encode(order + [t], nbrs + [nbrOrder]) == Encode(order, nbrs) + [Record(AsFields(t), Write(nbrOrder))]
  {
    assert (order + [t])[..|order|] == order;
    assert (nbrs + [nbrOrder])[..|order|] == nbrs;
    ElemsMembers(order, t);
  }

  /** The state of `ToRecords` with the tracks `rest` still to write: the
      records so far are those of an enumeration of the other tracks. */
  ghost predicate Written(g: Graph, rest: set<TrackInfo>, recs: seq<Record>,
                          order: seq<TrackInfo>, nbrs: seq<seq<TrackInfo>>) {
    && rest <= g.Keys
    && |recs| + |rest| == |g.Keys|
    && Elems(order) == g.Keys - rest
    && Enumerated(g, order, nbrs)
    && recs == Encode(order, nbrs)
  }

  /** Writing one more of the remaining tracks moves it out of `rest`. */
  lemma WrittenOneMore(g: Graph, rest: set<TrackInfo>, recs: seq<Record>,
                       order: seq<TrackInfo>, nbrs: seq<seq<TrackInfo>>, t: TrackInfo, nbrOrder: seq<TrackInfo>)
    requires Written(g, rest, recs, order, nbrs)
    requires t in rest && Elems(nbrOrder) == g[t] && Distinct(nbrOrder)
    ensures Written(g, rest - {t}, recs + [Record(AsFields(t), Write(nbrOrder))], order + [t], nbrs + [nbrOrder])
  {
    assert t !in Elems(order);
    EncodeOneMore(g, order, nbrs, t, nbrOrder);
  }

  /** `to_json` before printing: one record per graph entry, for some
      iteration order of the tracks and of each neighbour set. */
  method ToRecords(g: Graph) returns (recs: seq<Record>, ghost order: seq<TrackInfo>, ghost nbrs: seq<seq<TrackInfo>>)
    ensures Elems(order) == g.Keys && Enumerated(g, order, nbrs)
    ensures recs == Encode(order, nbrs)
    ensures |recs| == |g|
    ensures FromRecords(recs) == Ok(g)
  {
    recs, order, nbrs := [], [], [];
    var rest := g.Keys;
    while rest != {}
      invariant Written(g, rest, recs, order, nbrs)
      decreases |rest|
    {
      var t :| t in rest;
      var fs, nbrOrder := WriteSet(g[t]);
      WrittenOneMore(g, rest, recs, order, nbrs, t, nbrOrder);
      recs, order, nbrs := recs + [Record(AsFields(t), fs)], order + [t], nbrs + [nbrOrder];
      rest := rest - {t};
    }
    RoundTrip(g, order, nbrs);
  }
}
