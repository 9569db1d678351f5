/** The places in a sequence whose elements pass a test. */
module Positions {

  ghost predicate Increasing(p: seq<nat>) {
    forall i, j :: 0 <= i < j < |p| ==> p[i] < p[j]
  }

  /** In rising order, all places from k on that pass, and no others. */
  ghost predicate ArePlaces<T>(p: seq<nat>, s: seq<T>, test: T -> bool, k: nat) {
    && Increasing(p)
    && (forall j :: 0 <= j < |p| ==> k <= p[j] < |s| && test(s[p[j]]))
    && (forall i: nat :: k <= i < |s| && test(s[i]) ==> i in p)
  }

  function PlacesFrom<T>(s: seq<T>, test: T -> bool, k: nat): seq<nat>
    requires k <= |s|
    decreases |s| - k
  {
    if k == |s| then []
    else
      var later := PlacesFrom(s, test, k + 1);
      if test(s[k]) then [k] + later else later
  }

  lemma {:induction false} PlacesAre<T>(s: seq<T>, test: T -> bool, k: nat)
    requires k <= |s|
    ensures ArePlaces(PlacesFrom(s, test, k), s, test, k)
    decreases |s| - k
  {
    if k < |s| {
      PlacesAre(s, test, k + 1);
    }
  }

  function Places<T>(s: seq<T>, test: T -> bool): (p: seq<nat>)
    ensures ArePlaces(p, s, test, 0)
  {
    PlacesAre(s, test, 0);
    PlacesFrom(s, test, 0)
  }

  lemma {:induction false} SamePlaces<T>(s: seq<T>, s': seq<T>, test: T -> bool, k: nat)
    requires k <= |s| == |s'| && forall i :: k <= i < |s| ==> test(s'[i]) == test(s[i])
    ensures PlacesFrom(s', test, k) == PlacesFrom(s, test, k)
    decreases |s| - k
  {
    if k < |s| {
      SamePlaces(s, s', test, k + 1);
    }
  }

  lemma {:induction false} PlacesOneMore<T>(s: seq<T>, x: T, test: T -> bool, k: nat)
    requires k <= |s|
    ensures PlacesFrom(s + [x], test, k) == PlacesFrom(s, test, k) + if test(x) then [|s|] else []
    decreases |s| - k
  {
    if k < |s| {
      PlacesOneMore(s, x, test, k + 1);
    } else {
      assert PlacesFrom(s + [x], test, k + 1) == [];
    }
  }
}
