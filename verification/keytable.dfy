/**
 * The static table from key labels such as "A Minor" to wheel positions,
 * and its agreement with the circle of fifths.
 */
module KeyTable {
  import opened Wrappers
  import opened Camelot

  /** The dictionary literal, entry by entry in its written order: majors on
      ring B, minors on ring A, with both enharmonic spellings of each black
      key. */
  const KeyToCamelotKey: seq<(string, CamelotKey)> := [
    ("A Major", CamelotKey(11, B)),
    ("A# Major", CamelotKey(6, B)),
    ("Bb Major", CamelotKey(6, B)),
    ("B Major", CamelotKey(1, B)),
    ("C Major", CamelotKey(8, B)),
    ("C# Major", CamelotKey(3, B)),
    ("Db Major", CamelotKey(3, B)),
    ("D Major", CamelotKey(10, B)),
    ("D# Major", CamelotKey(5, B)),
    ("Eb Major", CamelotKey(5, B)),
    ("E Major", CamelotKey(12, B)),
    ("F Major", CamelotKey(7, B)),
    ("F# Major", CamelotKey(2, B)),
    ("Gb Major", CamelotKey(2, B)),
    ("G Major", CamelotKey(9, B)),
    ("G# Major", CamelotKey(4, B)),
    ("Ab Major", CamelotKey(4, B)),
    ("A Minor", CamelotKey(8, A)),
    ("A# Minor", CamelotKey(3, A)),
    ("Bb Minor", CamelotKey(3, A)),
    ("B Minor", CamelotKey(10, A)),
    ("C Minor", CamelotKey(5, A)),
    ("C# Minor", CamelotKey(12, A)),
    ("Db Minor", CamelotKey(12, A)),
    ("D Minor", CamelotKey(7, A)),
    ("D# Minor", CamelotKey(2, A)),
    ("Eb Minor", CamelotKey(2, A)),
    ("E Minor", CamelotKey(9, A)),
    ("F Minor", CamelotKey(4, A)),
    ("F# Minor", CamelotKey(11, A)),
    ("Gb Minor", CamelotKey(11, A)),
    ("G Minor", CamelotKey(6, A)),
    ("G# Minor", CamelotKey(1, A)),
    ("Ab Minor", CamelotKey(1, A))
  ]

  /** Dictionary lookup; in a dictionary literal a later entry for the same
      label would win, so the search runs from the end. A miss is `None`. */
  function Lookup(text: string, entries: seq<(string, CamelotKey)> := KeyToCamelotKey): (r: Option<CamelotKey>)
    ensures r.None? <==> forall i :: 0 <= i < |entries| ==> entries[i].0 != text
    ensures r.Some? ==> exists i :: 0 <= i < |entries| && entries[i] == (text, r.value)
  {
    if |entries| == 0 then None
    else if entries[|entries| - 1].0 == text then Some(entries[|entries| - 1].1)
    else Lookup(text, entries[..|entries| - 1])
  }

  datatype Mode = Major | Minor

  /** What a label names: a pitch class (C = 0, in semitones) and a mode. */
  datatype KeyName = KeyName(pitch: int, mode: Mode)

  /** Pitch class of a natural note letter. */
  function LetterPitch(c: char): Option<int> {
    match c
    case 'C' => Some(0)
    case 'D' => Some(2)
    case 'E' => Some(4)
    case 'F' => Some(5)
    case 'G' => Some(7)
    case 'A' => Some(9)
    case 'B' => Some(11)
    case _ => None
  }

  /** Reads a label of the form `<letter>[#|b] <Major|Minor>`, character by
      character. */
  function ParseLabel(text: string): (r: Option<KeyName>)
    ensures r.Some? ==> 0 <= r.value.pitch < 12
  {
    if |text| < 7 || LetterPitch(text[0]).None? then None
    else
      var acc := if text[1] == '#' then 1 else if text[1] == 'b' then -1 else 0;
      var at := if acc == 0 then 1 else 2;  // where " Major" or " Minor" starts
      var pitch := (LetterPitch(text[0]).value + acc) % 12;
      if |text| != at + 6 || text[at] != ' ' || text[at + 1] != 'M' || text[at + 4] != 'o' || text[at + 5] != 'r' then None
      else if text[at + 2] == 'a' && text[at + 3] == 'j' then Some(KeyName(pitch, Major))
      else if text[at + 2] == 'i' && text[at + 3] == 'n' then Some(KeyName(pitch, Minor))
      else None
  }

  /** The wheel position of a key from first principles: each fifth up
      (seven semitones) is one step clockwise, C major sits at 8b, and a
      minor key shares its position with the relative major three
      semitones above it. */
  function FifthsKey(name: KeyName): (k: CamelotKey)
    ensures Valid(k)
    ensures k.suff == if name.mode == Major then B else A
  {
    var majorPitch := if name.mode == Major then name.pitch else name.pitch + 3;
    CamelotKey((7 * majorPitch + 7) % 12 + 1, if name.mode == Major then B else A)
  }

  /** An entry agrees with the circle of fifths when its label reads as a
      key name whose circle-of-fifths position is the entry's value. */
  predicate Agrees(e: (string, CamelotKey)) {
    ParseLabel(e.0).Some? && e.1 == FifthsKey(ParseLabel(e.0).value)
  }

  // The entries are checked four at a time: each entry costs a label parse
  // and a modular sum, and one lemma over all 34 entries would be too large
  // a single proof obligation.

  /** Entries 0 to 3 agree with the circle of fifths. */
  lemma EntriesAgree0To3(i: nat)
    requires 0 <= i < 4
    ensures Agrees(KeyToCamelotKey[i])
  {
  }

  /** Entries 4 to 7 agree with the circle of fifths. */
  lemma EntriesAgree4To7(i: nat)
    requires 4 <= i < 8
    ensures Agrees(KeyToCamelotKey[i])
  {
  }

  /** Entries 8 to 11 agree with the circle of fifths. */
  lemma EntriesAgree8To11(i: nat)
    requires 8 <= i < 12
    ensures Agrees(KeyToCamelotKey[i])
  {
  }

  /** Entries 12 to 15 agree with the circle of fifths. */
  lemma EntriesAgree12To15(i: nat)
    requires 12 <= i < 16
    ensures Agrees(KeyToCamelotKey[i])
  {
  }

  /** Entries 16 to 19 agree with the circle of fifths. */
  lemma EntriesAgree16To19(i: nat)
    requires 16 <= i < 20
    ensures Agrees(KeyToCamelotKey[i])
  {
  }

  /** Entries 20 to 23 agree with the circle of fifths. */
  lemma EntriesAgree20To23(i: nat)
    requires 20 <= i < 24
    ensures Agrees(KeyToCamelotKey[i])
  {
  }

  /** Entries 24 to 27 agree with the circle of fifths. */
  lemma EntriesAgree24To27(i: nat)
    requires 24 <= i < 28
    ensures Agrees(KeyToCamelotKey[i])
  {
  }

  /** Entries 28 to 30 agree with the circle of fifths. */
  lemma EntriesAgree28To30(i: nat)
    requires 28 <= i < 31
    ensures Agrees(KeyToCamelotKey[i])
  {
  }

  /** Entries 31 to 33 agree with the circle of fifths. */
  lemma EntriesAgree31To33(i: nat)
    requires 31 <= i < 34
    ensures Agrees(KeyToCamelotKey[i])
  {
  }

  /** Every entry's label reads as a key name, and its value is that key's
      circle-of-fifths position: so every value is one of the 24 positions,
      "Major" labels land on ring B and "Minor" labels on ring A. */
  lemma EntryIsCircleOfFifths(i: nat)
    requires i < |KeyToCamelotKey|
    ensures ParseLabel(KeyToCamelotKey[i].0).Some?
    ensures KeyToCamelotKey[i].1 == FifthsKey(ParseLabel(KeyToCamelotKey[i].0).value)
    ensures Valid(KeyToCamelotKey[i].1)
    ensures KeyToCamelotKey[i].1.suff == if ParseLabel(KeyToCamelotKey[i].0).value.mode == Major then B else A
  {
    if i < 4 {
      EntriesAgree0To3(i);
    } else if i < 8 {
      EntriesAgree4To7(i);
    } else if i < 12 {
      EntriesAgree8To11(i);
    } else if i < 16 {
      EntriesAgree12To15(i);
    } else if i < 20 {
      EntriesAgree16To19(i);
    } else if i < 24 {
      EntriesAgree20To23(i);
    } else if i < 28 {
      EntriesAgree24To27(i);
    } else if i < 31 {
      EntriesAgree28To30(i);
    } else {
      EntriesAgree31To33(i);
    }
  }

  /** No label occurs twice in the table, so which entry a lookup finds
      does not matter: every label has exactly one value. */
  lemma LabelsDistinct(i: nat, j: nat)
    requires i < j < |KeyToCamelotKey|
    ensures KeyToCamelotKey[i].0 != KeyToCamelotKey[j].0
  {
    if j < 17 {
      MajorLabelsDistinct(i, j);
    } else if 17 <= i {
      MinorLabelsDistinct(i, j);
    } else {
      // A label determines its value, and the two values lie on different rings.
      EntryIsCircleOfFifths(i);
      EntryIsCircleOfFifths(j);
      assert KeyToCamelotKey[i].1.suff == B && KeyToCamelotKey[j].1.suff == A;
    }
  }

  /** The 17 "Major" labels are pairwise distinct. */
  lemma MajorLabelsDistinct(i: nat, j: nat)
    requires i < j < 17
    ensures KeyToCamelotKey[i].0 != KeyToCamelotKey[j].0
  {
  }

  /** The 17 "Minor" labels are pairwise distinct. */
  lemma MinorLabelsDistinct(i: nat, j: nat)
    requires 17 <= i < j < |KeyToCamelotKey|
    ensures KeyToCamelotKey[i].0 != KeyToCamelotKey[j].0
  {
  }

  /** Looking up any label of the table gives that entry's value. */
  lemma LookupEntry(i: nat)
    requires i < |KeyToCamelotKey|
    ensures Lookup(KeyToCamelotKey[i].0) == Some(KeyToCamelotKey[i].1)
  {
    var r := Lookup(KeyToCamelotKey[i].0);
    var j :| 0 <= j < |KeyToCamelotKey| && KeyToCamelotKey[j] == (KeyToCamelotKey[i].0, r.value);
    if i < j {
      LabelsDistinct(i, j);
    } else if j < i {
      LabelsDistinct(j, i);
    }
  }

  /** Enharmonic spellings ("A# Major" and "Bb Major") name the same key and
      so are given the same wheel position. */
  lemma Enharmonic(i: nat, j: nat)
    requires i < |KeyToCamelotKey| && j < |KeyToCamelotKey|
    requires ParseLabel(KeyToCamelotKey[i].0) == ParseLabel(KeyToCamelotKey[j].0)
    ensures KeyToCamelotKey[i].1 == KeyToCamelotKey[j].1
  {
    EntryIsCircleOfFifths(i);
    EntryIsCircleOfFifths(j);
  }

  /** The 34 entries cover all 24 wheel positions. */
  lemma TableCoversWheel(k: CamelotKey)
    requires Valid(k)
    ensures exists i :: 0 <= i < |KeyToCamelotKey| && KeyToCamelotKey[i].1 == k
  {
    if k.suff == B {
      if k.root == 1 {
        assert KeyToCamelotKey[3].1 == k;
      } else if k.root == 2 {
        assert KeyToCamelotKey[12].1 == k;
      } else if k.root == 3 {
        assert KeyToCamelotKey[5].1 == k;
      } else if k.root == 4 {
        assert KeyToCamelotKey[15].1 == k;
      } else if k.root == 5 {
        assert KeyToCamelotKey[8].1 == k;
      } else if k.root == 6 {
        assert KeyToCamelotKey[1].1 == k;
      } else if k.root == 7 {
        assert KeyToCamelotKey[11].1 == k;
      } else if k.root == 8 {
        assert KeyToCamelotKey[4].1 == k;
      } else if k.root == 9 {
        assert KeyToCamelotKey[14].1 == k;
      } else if k.root == 10 {
        assert KeyToCamelotKey[7].1 == k;
      } else if k.root == 11 {
        assert KeyToCamelotKey[0].1 == k;
      } else {
        assert KeyToCamelotKey[10].1 == k;
      }
    } else {
      if k.root == 1 {
        assert KeyToCamelotKey[32].1 == k;
      } else if k.root == 2 {
        assert KeyToCamelotKey[25].1 == k;
      } else if k.root == 3 {
        assert KeyToCamelotKey[18].1 == k;
      } else if k.root == 4 {
        assert KeyToCamelotKey[28].1 == k;
      } else if k.root == 5 {
        assert KeyToCamelotKey[21].1 == k;
      } else if k.root == 6 {
        assert KeyToCamelotKey[31].1 == k;
      } else if k.root == 7 {
        assert KeyToCamelotKey[24].1 == k;
      } else if k.root == 8 {
        assert KeyToCamelotKey[17].1 == k;
      } else if k.root == 9 {
        assert KeyToCamelotKey[27].1 == k;
      } else if k.root == 10 {
        assert KeyToCamelotKey[20].1 == k;
      } else if k.root == 11 {
        assert KeyToCamelotKey[29].1 == k;
      } else {
        assert KeyToCamelotKey[22].1 == k;
      }
    }
  }
}
