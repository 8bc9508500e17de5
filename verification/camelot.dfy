/**
 * Positions on the Camelot wheel and the five harmonic-mixing rules built
 * from two primitive moves: rotation around the wheel and the switch between
 * the minor ("a") and major ("b") rings.
 */
module Camelot {

  /** The ring of the wheel: `A` is the minor ring, `B` the major ring. */
  datatype Suffix = A | B

  /** A wheel position. As in the source, `root` is a plain integer; the
      positions that occur are those with `Valid`. */
  datatype CamelotKey = CamelotKey(root: int, suff: Suffix)

  /** The 24 wheel positions: a root in 1..12 on either ring. */
  predicate Valid(k: CamelotKey) {
    1 <= k.root <= 12
  }

  /** How many steps clockwise `to` lies from `from`, as a number in 0..11. */
  function Offset(from: int, to: int): (d: int)
    ensures 0 <= d < 12
  {
    (to - from) % 12
  }

  /** Rotation by `n` steps: 1-based modular arithmetic on the root, so the
      result never has root 0 and wraps from 12 to 1 and from 1 to 12. */
  function Add(k: CamelotKey, n: int): (r: CamelotKey)
    ensures Valid(r)
    ensures r.suff == k.suff
    ensures Offset(k.root + n, r.root) == 0
  {
    k.(root := (k.root + n - 1) % 12 + 1)
  }

  /** The other ring at the same root. */
  function Switch(k: CamelotKey): (r: CamelotKey)
    ensures r.root == k.root
    ensures r.suff != k.suff
  {
    k.(suff := if k.suff == B then A else B)
  }

  /** The neighbours on the same ring and the key itself. */
  function Perfect(k: CamelotKey): (r: seq<CamelotKey>)
    ensures |r| == 3 && r[1] == k
    ensures forall i :: 0 <= i < |r| ==> r[i].suff == k.suff
  {
    [Add(k, -1), k, Add(k, 1)]
  }

  /** Two steps clockwise on the same ring. */
  function Boost(k: CamelotKey): (r: CamelotKey)
    ensures Valid(r) && r.suff == k.suff
    ensures Offset(k.root, r.root) == 2
  {
    Add(k, 2)
  }

  /** The relative major or minor: same root, other ring. */
  function Scale(k: CamelotKey): (r: CamelotKey)
    ensures r.root == k.root && r.suff != k.suff
    ensures r != k
  {
    Switch(k)
  }

  /** One step towards the relative side, then the other ring: minor keys
      step back, major keys step forward. */
  function Diag(k: CamelotKey): (r: CamelotKey)
    ensures Valid(r) && r.suff != k.suff
    ensures Offset(k.root, r.root) == if k.suff == A then 11 else 1
  {
    var step := if k.suff == A then -1 else 1;
    Switch(Add(k, step))
  }

  /** Seven steps on the same ring, and three (minor) or nine (major) steps
      on the other ring. */
  function Special(k: CamelotKey): (r: seq<CamelotKey>)
    ensures |r| == 2
    ensures Valid(r[0]) && r[0].suff == k.suff && Offset(k.root, r[0].root) == 7
    ensures Valid(r[1]) && r[1].suff != k.suff
    ensures Offset(k.root, r[1].root) == if k.suff == A then 3 else 9
  {
    var step := if k.suff == A then 3 else 9;
    [Add(k, 7), Switch(Add(k, step))]
  }

  /** Two numbers give the same wheel root exactly when they are congruent
      modulo 12. The quotients are named so that the argument stays linear. */
  lemma SameRoot(x: int, y: int)
    ensures (x - 1) % 12 + 1 == (y - 1) % 12 + 1 <==> Offset(x, y) == 0
  {
    var qx, qy, qd := (x - 1) / 12, (y - 1) / 12, (y - x) / 12;
    assert x - 1 == 12 * qx + (x - 1) % 12;
    assert y - 1 == 12 * qy + (y - 1) % 12;
    assert y - x == 12 * qd + (y - x) % 12;
  }

  /** `Add` hits the one valid key on the same ring at the right distance. */
  lemma AddUnique(k: CamelotKey, n: int, k': CamelotKey)
    requires Valid(k')
    ensures Add(k, n) == k' <==> k'.suff == k.suff && Offset(k.root + n, k'.root) == 0
  {
    SameRoot(k.root + n, k'.root);
    assert (k'.root - 1) % 12 + 1 == k'.root;
  }

  /** Rotating by `m` then by `n` is rotating by `m + n`. */
  lemma AddAdd(k: CamelotKey, m: int, n: int)
    ensures Add(Add(k, m), n) == Add(k, m + n)
  {
    var r := Add(k, m);
    SameRoot(k.root + m, r.root);
    SameRoot(r.root + n, k.root + m + n);
  }

  /** A valid key is restored by rotating back. */
  lemma AddInverse(k: CamelotKey, n: int)
    requires Valid(k)
    ensures Add(Add(k, n), -n) == k
  {
    AddAdd(k, n, -n);
    assert (k.root - 1) % 12 + 1 == k.root;
  }

  /** Rotation by a whole number of turns fixes every valid key; the wrap
      points of the wheel go from 12 to 1 and from 1 to 12. */
  lemma AddWholeTurns(k: CamelotKey, t: int)
    requires Valid(k)
    ensures Add(k, 12 * t) == k
    ensures Add(CamelotKey(12, k.suff), 1) == CamelotKey(1, k.suff)
    ensures Add(CamelotKey(1, k.suff), -1) == CamelotKey(12, k.suff)
  {
    SameRoot(k.root + 12 * t, k.root);
    assert (k.root - 1) % 12 + 1 == k.root;
  }

  /** Switching twice is the identity, and switching commutes with rotation. */
  lemma SwitchInvolution(k: CamelotKey, n: int)
    ensures Switch(Switch(k)) == k
    ensures Switch(Add(k, n)) == Add(Switch(k), n)
  {
  }

  /** A rotation by `n` lands on `to` exactly when `to` lies `n` steps
      (modulo 12) clockwise of `from`. */
  lemma ShiftedOffset(from: int, to: int, n: int)
    ensures Offset(from + n, to) == 0 <==> Offset(from, to) == n % 12
  {
    var d := to - from;
    var q1, q2, q3 := (d - n) / 12, d / 12, n / 12;
    assert d - n == 12 * q1 + (d - n) % 12;
    assert d == 12 * q2 + d % 12;
    assert n == 12 * q3 + n % 12;
  }

  /** `%` by 12 near the wheel: what every lemma about valid keys below
      needs, stated without division. */
  lemma ModTwelve(x: int)
    requires -12 <= x < 24
    ensures x % 12 == if x < 0 then x + 12 else if x < 12 then x else x - 12
  {
  }

  /** `Perfect` lists three distinct keys. */
  lemma PerfectDistinct(k: CamelotKey)
    ensures Perfect(k)[0] != Perfect(k)[1] && Perfect(k)[1] != Perfect(k)[2]
    ensures Perfect(k)[0] != Perfect(k)[2]
  {
    var p := Perfect(k);
    ShiftedOffset(k.root, p[0].root, -1);
    ShiftedOffset(k.root, p[2].root, 1);
    ShiftedOffset(k.root, k.root, 0);
  }

  /** A valid key is in `Perfect(k)` exactly when it is on the same ring as
      `k` and at most one step away from it. */
  lemma PerfectMembers(k: CamelotKey, k': CamelotKey)
    requires Valid(k) && Valid(k')
    ensures k' in Perfect(k) <==>
              k'.suff == k.suff && Offset(k.root, k'.root) in {11, 0, 1}
  {
    ModTwelve(k.root - 2);
    ModTwelve(k.root);
    ModTwelve(k'.root - k.root);
    assert k' in Perfect(k) <==> k' == Add(k, -1) || k' == k || k' == Add(k, 1);
  }

  /** `Boost` is the one valid key two steps clockwise on the same ring. */
  lemma BoostMembers(k: CamelotKey, k': CamelotKey)
    requires Valid(k')
    ensures Boost(k) == k' <==> k'.suff == k.suff && Offset(k.root, k'.root) == 2
  {
    AddUnique(k, 2, k');
    ShiftedOffset(k.root, k'.root, 2);
  }

  /** `Scale` is exactly the key at the same root on the other ring. */
  lemma ScaleMembers(k: CamelotKey, k': CamelotKey)
    ensures Scale(k) == k' <==> k'.root == k.root && k'.suff != k.suff
  {
  }

  /** `Diag` takes (r, a) to (r - 1, b) and (r, b) to (r + 1, a). */
  lemma DiagMembers(k: CamelotKey, k': CamelotKey)
    requires Valid(k')
    ensures Diag(k) == k' <==>
              k'.suff != k.suff && Offset(k.root, k'.root) == if k.suff == A then 11 else 1
  {
    var step := if k.suff == A then -1 else 1;
    AddUnique(k, step, Switch(k'));
    ShiftedOffset(k.root, k'.root, step);
  }

  /** Applying `Diag` twice returns a valid key to itself. */
  lemma DiagInvolution(k: CamelotKey)
    requires Valid(k)
    ensures Diag(Diag(k)) == k
  {
    var d := Diag(k);
    ModTwelve(k.root - 2);
    ModTwelve(k.root);
    ModTwelve(d.root - 2);
    ModTwelve(d.root);
  }

  /** A valid key is in `Special(k)` exactly when it is seven steps clockwise
      on the same ring, or three (minor) or nine (major) steps clockwise on
      the other ring. */
  lemma SpecialMembers(k: CamelotKey, k': CamelotKey)
    requires Valid(k')
    ensures k' in Special(k) <==>
              (k'.suff == k.suff && Offset(k.root, k'.root) == 7) ||
              (k'.suff != k.suff && Offset(k.root, k'.root) == if k.suff == A then 3 else 9)
  {
    var step := if k.suff == A then 3 else 9;
    AddUnique(k, 7, k');
    ShiftedOffset(k.root, k'.root, 7);
    AddUnique(k, step, Switch(k'));
    ShiftedOffset(k.root, k'.root, step);
    assert k' in Special(k) <==> k' == Special(k)[0] || k' == Special(k)[1];
  }
}
