/**
 The identity decision taken for every face found in a camera frame.

 The face library supplies, for one query face, its distance to every
 gallery descriptor and a "matches" flag per descriptor; both are inputs
 here, aligned with the gallery's list of names. The decision picks the
 first index of minimum distance (numpy's argmin) and reports that
 gallery name only when that index is flagged, and "Unknown" otherwise.
 */
module Matcher {

  /** The label drawn on a face that was not recognised. */
  const Unknown: string := "Unknown"

  /** k is the first position at which d takes its minimum value. */
  ghost predicate IsFirstMin(d: seq<real>, k: int) {
    && 0 <= k < |d|
    && (forall j :: 0 <= j < |d| ==> d[k] <= d[j])
    && (forall j :: 0 <= j < k ==> d[k] < d[j])
  }

  /** A sequence has at most one first minimum. */
  lemma FirstMinUnique(d: seq<real>, k1: int, k2: int)
    requires IsFirstMin(d, k1) && IsFirstMin(d, k2)
    ensures k1 == k2
  {
    assert d[k1] == d[k2];
  }

  /** numpy's argmin over a non-empty sequence: ties go to the earliest index. */
  function ArgMin(d: seq<real>): (k: nat)
    requires |d| > 0
    ensures IsFirstMin(d, k)
  {
    if |d| == 1 then 0
    else
      var k := ArgMin(d[..|d| - 1]);
      if d[|d| - 1] < d[k] then |d| - 1 else k
  }

  /** A query's readings line up with the gallery: one distance and one flag per name. */
  predicate Aligned(names: seq<string>, distances: seq<real>, matches: seq<bool>) {
    |distances| == |names| && |matches| == |names|
  }

  /** The name given to one detected face. */
  function Identify(names: seq<string>, distances: seq<real>, matches: seq<bool>): (name: string)
    requires Aligned(names, distances, matches)
    ensures |names| == 0 ==> name == Unknown
    ensures name == Unknown || name in names
  {
    if |distances| > 0 then
      var best := ArgMin(distances);
      if matches[best] then names[best] else Unknown
    else
      Unknown
  }

  /**
   The decision is made at the closest descriptor, ties broken by gallery
   order: the name at the first minimum if it is flagged, and "Unknown" if
   it is not, however the other entries are flagged.
   */
  lemma IdentifyDecidesAtFirstClosest(names: seq<string>, distances: seq<real>, matches: seq<bool>, k: int)
    requires Aligned(names, distances, matches)
    requires IsFirstMin(distances, k)
    ensures Identify(names, distances, matches) == if matches[k] then names[k] else Unknown
  {
    FirstMinUnique(distances, k, ArgMin(distances));
  }

  /**
   Closest wins, not first matching: when the closest entry is unflagged the
   face is "Unknown", even if another, farther entry is flagged.
   */
  lemma ClosestWinsOverFirstMatching(names: seq<string>, distances: seq<real>, matches: seq<bool>, j: int)
    requires Aligned(names, distances, matches)
    requires 0 <= j < |distances| && matches[j]
    requires exists i :: 0 <= i < |distances| && distances[i] < distances[j] && !matches[i]
    requires forall i :: 0 <= i < |distances| && matches[i] ==> distances[j] <= distances[i]
    ensures Identify(names, distances, matches) == Unknown
  {
    var k := ArgMin(distances);
    var i :| 0 <= i < |distances| && distances[i] < distances[j] && !matches[i];
    assert distances[k] <= distances[i] < distances[j];
    assert !matches[k];
  }

  /**
   Only the flag at the closest entry matters: two flag vectors that agree
   there give the same decision.
   */
  lemma OnlyClosestFlagMatters(names: seq<string>, distances: seq<real>, m1: seq<bool>, m2: seq<bool>, k: int)
    requires Aligned(names, distances, m1) && Aligned(names, distances, m2)
    requires IsFirstMin(distances, k) && m1[k] == m2[k]
    ensures Identify(names, distances, m1) == Identify(names, distances, m2)
  {
    IdentifyDecidesAtFirstClosest(names, distances, m1, k);
    IdentifyDecidesAtFirstClosest(names, distances, m2, k);
  }

  /** The flags a distance tolerance gives: an entry matches when it is within the tolerance. */
  predicate FlaggedByTolerance(distances: seq<real>, matches: seq<bool>, tolerance: real) {
    |matches| == |distances| &&
    forall i :: 0 <= i < |distances| ==> matches[i] == (distances[i] <= tolerance)
  }

  /**
   With tolerance-derived flags, a face is recognised exactly when some
   gallery entry lies within the tolerance, and it is then given the name
   of the first closest entry.
   */
  lemma ToleranceDecision(names: seq<string>, distances: seq<real>, matches: seq<bool>, tolerance: real)
    requires Aligned(names, distances, matches)
    requires FlaggedByTolerance(distances, matches, tolerance)
    ensures (forall i :: 0 <= i < |distances| ==> tolerance < distances[i]) ==>
              Identify(names, distances, matches) == Unknown
    ensures (exists i :: 0 <= i < |distances| && distances[i] <= tolerance) ==>
              exists k :: IsFirstMin(distances, k) && Identify(names, distances, matches) == names[k]
  {
    if |distances| > 0 {
      var k := ArgMin(distances);
      if i :| 0 <= i < |distances| && distances[i] <= tolerance {
        assert distances[k] <= distances[i];
        assert matches[k];
      } else {
        assert !matches[k];
      }
    }
  }

  /**
   A query whose descriptor coincides with a gallery entry (distance 0,
   distances never negative, tolerance not negative) is recognised, under
   the name of the first entry at distance 0, which is that entry itself
   unless an earlier entry is also at distance 0.
   */
  lemma ExactDescriptorRecognised(names: seq<string>, distances: seq<real>, matches: seq<bool>, tolerance: real, i: int)
    requires Aligned(names, distances, matches)
    requires FlaggedByTolerance(distances, matches, tolerance) && 0.0 <= tolerance
    requires forall j :: 0 <= j < |distances| ==> 0.0 <= distances[j]
    requires 0 <= i < |distances| && distances[i] == 0.0
    ensures exists k :: 0 <= k <= i && distances[k] == 0.0 && Identify(names, distances, matches) == names[k]
    ensures (forall j :: 0 <= j < i ==> distances[j] != 0.0) ==> Identify(names, distances, matches) == names[i]
  {
    var k := ArgMin(distances);
    assert distances[k] <= distances[i];
    assert distances[k] == 0.0 && matches[k];
    assert k <= i;
  }
}
