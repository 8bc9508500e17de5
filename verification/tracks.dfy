/** The value types the graph is built over. */
module Tracks {
  import opened Camelot

  /** A track's identity; equal exactly when all three fields are equal. */
  datatype TrackInfo = TrackInfo(name: string, artist: string, id: string)

  /** Per-track attributes: the tempo, the wheel position and the human
      readable key label (carried for display only). */
  datatype TrackMeta = TrackMeta(bpm: int, camelotKey: CamelotKey, key: string)

  /** One item of the input dictionary. */
  datatype Entry = Entry(track: TrackInfo, meta: TrackMeta)

  /** The input is a dictionary, so no track occurs twice. */
  predicate DistinctTracks(entries: seq<Entry>) {
    forall i, j :: 0 <= i < j < |entries| ==> entries[i].track != entries[j].track
  }

  /** The set of tracks of the input. */
  function TrackSet(entries: seq<Entry>): (ts: set<TrackInfo>)
    ensures forall i :: 0 <= i < |entries| ==> entries[i].track in ts
    ensures forall t :: t in ts ==> exists i :: 0 <= i < |entries| && entries[i].track == t
  {
    set i | 0 <= i < |entries| :: entries[i].track
  }
}
