/** `GetClosestValidNeighbor`: the nearest unobstructed hex around an
    obstructed one, searched ring by ring. */
module ClosestValid {
  import opened HexCore
  import opened Enumerable
  import opened HexRanges

  /** Every hex within `radius` of `center` is obstructed. */
  ghost predicate Blocked(center: Hex, radius: int, invalid: seq<Hex>) {
    forall x :: GridDistance(x, center) <= radius ==> x in invalid
  }

  /** `Randomize` reorders its input arbitrarily: the shuffle is supplied by
      the caller, and may be any function that permutes every list. */
  ghost predicate IsShuffle(shuffle: seq<Hex> -> seq<Hex>) {
    forall s :: multiset(shuffle(s)) == multiset(s)
  }

  lemma ShuffleKeeps(shuffle: seq<Hex> -> seq<Hex>, s: seq<Hex>)
    requires IsShuffle(shuffle)
    ensures |shuffle(s)| == |s|
    ensures forall x :: x in shuffle(s) <==> x in s
  {
    var t := shuffle(s);
    assert multiset(t) == multiset(s);
    assert |multiset(t)| == |multiset(s)|;
    forall x
      ensures x in t <==> x in s
    {
      assert x in t <==> x in multiset(t);
      assert x in s <==> x in multiset(s);
    }
  }

  /** `OrderBy(key).FirstOrDefault()` on a non-empty list: the sort is
      stable, so this is the first element of least key. */
  function FirstNearest(s: seq<Hex>, key: Hex -> int): (k: nat)
    requires s != []
    ensures k < |s|
    ensures forall j :: 0 <= j < |s| ==> key(s[k]) <= key(s[j])
    ensures forall j :: 0 <= j < k ==> key(s[k]) < key(s[j])
  {
    if |s| == 1 then 0
    else
      var k := FirstNearest(s[1..], key);
      assert forall j :: 1 <= j < |s| ==> s[j] == s[1..][j - 1];
      if key(s[0]) <= key(s[1..][k]) then 0 else k + 1
  }

  /** `HexRange(i).Except(invalidPositions)`: the free hexes within `i`. */
  function FreeWithin(center: Hex, i: int, invalid: seq<Hex>): (s: seq<Hex>)
    ensures forall x :: x in s <==> GridDistance(x, center) <= i && x !in invalid
    ensures NoDuplicates(s)
  {
    Except(HexRange(center, i, false), invalid)
  }

  /** The free hexes come in `HexRange` order, each at its first occurrence. */
  lemma FreeWithinOrder(center: Hex, i: int, invalid: seq<Hex>)
    ensures FreeWithin(center, i, invalid) == FirstOccurrences(HexRange(center, i, false), invalid)
  {
    ExceptIsFirstOccurrences(HexRange(center, i, false), invalid);
  }

  /** An obstructed hex looks at `HexRange(i)` for `i = 1..maxRange` and, at the
      first radius with a free hex, returns the first nearest of the shuffled
      free hexes; an unobstructed hex, or one with nothing free within
      `maxRange`, gets `Invalid`. The result is a free hex at the least radius
      that has one. */
  method GetClosestValidNeighbor(center: Hex, invalidPositions: seq<Hex>, maxRange: int,
                                 shuffle: seq<Hex> -> seq<Hex>) returns (r: Hex)
    requires IsShuffle(shuffle)
    ensures center !in invalidPositions ==> r == Invalid
    ensures center in invalidPositions && Blocked(center, maxRange, invalidPositions) ==> r == Invalid
    ensures center in invalidPositions && !Blocked(center, maxRange, invalidPositions) ==>
      && r !in invalidPositions
      && 1 <= GridDistance(r, center) <= maxRange
      && Blocked(center, GridDistance(r, center) - 1, invalidPositions)
    ensures IsValid(r) ==> center in invalidPositions && !Blocked(center, maxRange, invalidPositions)
    ensures (&& center in invalidPositions && !Blocked(center, maxRange, invalidPositions)
             && (Invalid in invalidPositions || GridDistance(Invalid, center) > maxRange))
            ==> IsValid(r)
  {
    if center !in invalidPositions {
      return Invalid;
    }
    var i := 1;
    while i <= maxRange
      invariant 1 <= i
      invariant Blocked(center, i - 1, invalidPositions)
    {
      var found, picked := SearchRing(center, i, invalidPositions, shuffle);
      if found {
        return picked;
      }
      i := i + 1;
    }
    StillBlocked(center, i - 1, maxRange, invalidPositions);
    r := Invalid;
  }

  /** One pass of the loop: the free hexes within radius `i`, shuffled, and the
      first nearest of them if there is one. With everything within `i - 1`
      obstructed, the hex picked is free and exactly at radius `i`; when
      nothing is picked, everything within `i` is obstructed. */
  method SearchRing(center: Hex, i: int, invalid: seq<Hex>, shuffle: seq<Hex> -> seq<Hex>)
    returns (found: bool, r: Hex)
    requires IsShuffle(shuffle)
    requires 1 <= i && Blocked(center, i - 1, invalid)
    ensures found ==> r !in invalid && GridDistance(r, center) == i
    ensures !found ==> Blocked(center, i, invalid)
  {
    var neighbors := FreeWithin(center, i, invalid);
    if |neighbors| > 0 {
      var shuffled := shuffle(neighbors);
      ShuffleNonEmpty(shuffle, neighbors);
      var k := FirstNearest(shuffled, x => GridDistance(x, center));
      r := shuffled[k];
      PickedIsFree(center, i, invalid, shuffle, r);
      return true, r;
    }
    NothingFree(center, i, invalid, neighbors);
    return false, Invalid;
  }

  lemma ShuffleNonEmpty(shuffle: seq<Hex> -> seq<Hex>, s: seq<Hex>)
    requires IsShuffle(shuffle) && s != []
    ensures shuffle(s) != []
  {
    ShuffleKeeps(shuffle, s);
  }

  /** Any hex the shuffle of the free hexes within `i` yields is free and,
      when everything within `i - 1` is obstructed, at distance exactly `i`. */
  lemma PickedIsFree(center: Hex, i: int, invalid: seq<Hex>, shuffle: seq<Hex> -> seq<Hex>, r: Hex)
    requires IsShuffle(shuffle)
    requires Blocked(center, i - 1, invalid)
    requires r in shuffle(FreeWithin(center, i, invalid))
    ensures r !in invalid && GridDistance(r, center) == i
  {
    ShuffleKeeps(shuffle, FreeWithin(center, i, invalid));
  }

  lemma NothingFree(center: Hex, i: int, invalid: seq<Hex>, neighbors: seq<Hex>)
    requires neighbors == FreeWithin(center, i, invalid)
    requires |neighbors| == 0
    ensures Blocked(center, i, invalid)
  {
  }

  lemma StillBlocked(center: Hex, i: int, maxRange: int, invalid: seq<Hex>)
    requires maxRange <= i
    requires Blocked(center, i, invalid)
    ensures Blocked(center, maxRange, invalid)
  {
  }
}
