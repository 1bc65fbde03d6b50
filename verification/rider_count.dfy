/**
 * The rider counter: pairs every bike box with at most one helmet box,
 * greedily and in input order, and counts the bikes that got a helmet and
 * the bikes that did not.
 *
 * `GreedyPairing` is the reference definition of the pairing, one bike at a
 * time; `Count` is the imperative algorithm, with its working copy of the
 * helmet list, proved to compute the same counts.
 */
module RiderCount {
  import opened Opt
  import opened Geometry

  /** `k` is the index of the first helmet in `hs` that lies in the bike's zone. */
  predicate IsFirstMatch(bike: Box, hs: seq<Box>, ef: real, k: nat)
  {
    k < |hs| && Matches(bike, hs[k], ef) && forall m :: 0 <= m < k ==> !Matches(bike, hs[m], ef)
  }

  /** The index of the first helmet of `hs` in the bike's zone, if there is one. */
  function FirstMatch(bike: Box, hs: seq<Box>, ef: real): (r: Option<nat>)
    ensures r.Some? ==> IsFirstMatch(bike, hs, ef, r.value)
    ensures r.None? <==> forall k :: 0 <= k < |hs| ==> !Matches(bike, hs[k], ef)
    decreases |hs|
  {
    if hs == [] then None
    else if Matches(bike, hs[0], ef) then Some(0)
    else
      match FirstMatch(bike, hs[1..], ef)
      case None => None
      case Some(k) => Some(k + 1)
  }

  /** There is only one first match. */
  lemma FirstMatchUnique(bike: Box, hs: seq<Box>, ef: real, k: nat)
    requires IsFirstMatch(bike, hs, ef, k)
    ensures FirstMatch(bike, hs, ef) == Some(k)
  {
  }

  /** Python's `list.remove(x)`: deletes the first element equal to `x`. */
  function RemoveFirst<T(==)>(s: seq<T>, x: T): (r: seq<T>)
    requires x in s
    ensures |r| == |s| - 1
  {
    if s[0] == x then s[1..] else [s[0]] + RemoveFirst(s[1..], x)
  }

  /** `list.remove` takes exactly one copy of the value out of the list. */
  lemma {:induction false} RemoveFirstMultiset<T>(s: seq<T>, x: T)
    requires x in s
    ensures multiset(RemoveFirst(s, x)) == multiset(s) - multiset{x}
  {
    assert s == [s[0]] + s[1..];
    if s[0] != x {
      RemoveFirstMultiset(s[1..], x);
    }
  }

  /** Removing the first occurrence of `x` is deleting it at its first index. */
  lemma {:induction false} RemoveFirstAt<T>(s: seq<T>, x: T, k: nat)
    requires k < |s| && s[k] == x
    requires forall m :: 0 <= m < k ==> s[m] != x
    ensures RemoveFirst(s, x) == s[..k] + s[k + 1..]
  {
    if k == 0 {
      assert s[..0] + s[1..] == s[1..];
    } else {
      var tail := s[1..];
      RemoveFirstAt(tail, x, k - 1);
      assert RemoveFirst(s, x) == [s[0]] + (tail[..k - 1] + tail[k..]);
      assert [s[0]] + (tail[..k - 1] + tail[k..]) == s[..k] + s[k + 1..] by {
        assert [s[0]] + tail[..k - 1] == s[..k];
        assert tail[k..] == s[k + 1..];
      }
    }
  }

  /**
   * The state of the pairing after some bikes: the two counters, the helmets
   * not yet consumed, and for every bike so far the helmet it consumed.
   */
  datatype Tally = Tally(withHelmet: nat, withoutHelmet: nat, left: seq<Box>, taken: seq<Option<Box>>)

  /** Processes one more bike: it consumes the first remaining helmet in its zone, if any. */
  function Step(t: Tally, bike: Box, ef: real): (t': Tally)
  {
    match FirstMatch(bike, t.left, ef)
    case None => Tally(t.withHelmet, t.withoutHelmet + 1, t.left, t.taken + [None])
    case Some(k) =>
      Tally(t.withHelmet + 1, t.withoutHelmet, t.left[..k] + t.left[k + 1..], t.taken + [Some(t.left[k])])
  }

  /** The entry that one step records for its bike. */
  lemma StepTakes(t: Tally, bike: Box, ef: real)
    ensures |Step(t, bike, ef).taken| == |t.taken| + 1
    ensures Step(t, bike, ef).taken[|t.taken|]
            == match FirstMatch(bike, t.left, ef) case None => None case Some(k) => Some(t.left[k])
  {
  }

  /** The greedy first-match pairing of `bikes`, in order, against `helmets`. */
  function GreedyPairing(bikes: seq<Box>, helmets: seq<Box>, ef: real): (t: Tally)
    ensures |t.taken| == |bikes|
    decreases |bikes|
  {
    if bikes == [] then Tally(0, 0, helmets, [])
    else Step(GreedyPairing(bikes[..|bikes| - 1], helmets, ef), bikes[|bikes| - 1], ef)
  }

  /** The helmets that were consumed, in the order of the bikes that took them. */
  function Worn(taken: seq<Option<Box>>): (worn: seq<Box>)
  {
    if taken == [] then []
    else
      Worn(taken[..|taken| - 1]) + match taken[|taken| - 1] case None => [] case Some(h) => [h]
  }

  /** Every bike lands in exactly one of the two counters. */
  lemma {:induction false} EachBikeCountedOnce(bikes: seq<Box>, helmets: seq<Box>, ef: real)
    ensures GreedyPairing(bikes, helmets, ef).withHelmet + GreedyPairing(bikes, helmets, ef).withoutHelmet == |bikes|
    ensures GreedyPairing(bikes, helmets, ef).withHelmet == |Worn(GreedyPairing(bikes, helmets, ef).taken)|
  {
    if bikes != [] {
      var prefix := bikes[..|bikes| - 1];
      EachBikeCountedOnce(prefix, helmets, ef);
      var t := GreedyPairing(bikes, helmets, ef);
      assert t.taken[..|t.taken| - 1] == GreedyPairing(prefix, helmets, ef).taken;
    }
  }

  lemma WornSnoc(taken: seq<Option<Box>>, x: Option<Box>)
    ensures Worn(taken + [x]) == Worn(taken) + match x case None => [] case Some(h) => [h]
  {
    assert (taken + [x])[..|taken|] == taken;
  }

  /** One step moves at most one helmet from the leftover list to the consumed ones. */
  lemma StepConservesHelmets(t: Tally, bike: Box, ef: real)
    ensures multiset(Step(t, bike, ef).left) + multiset(Worn(Step(t, bike, ef).taken))
            == multiset(t.left) + multiset(Worn(t.taken))
    ensures |Step(t, bike, ef).left| + Step(t, bike, ef).withHelmet == |t.left| + t.withHelmet
  {
    match FirstMatch(bike, t.left, ef)
    case None =>
      WornSnoc(t.taken, None);
    case Some(k) =>
      WornSnoc(t.taken, Some(t.left[k]));
      assert t.left == t.left[..k] + [t.left[k]] + t.left[k + 1..];
  }

  /**
   * No helmet is used twice: the consumed helmets and the leftover ones
   * together are exactly the input helmets, and the leftover list is
   * shorter than the input by the number of helmeted bikes.
   */
  lemma {:induction false} HelmetsConsumedOnce(bikes: seq<Box>, helmets: seq<Box>, ef: real)
    ensures multiset(GreedyPairing(bikes, helmets, ef).left) + multiset(Worn(GreedyPairing(bikes, helmets, ef).taken))
            == multiset(helmets)
    ensures |GreedyPairing(bikes, helmets, ef).left| + GreedyPairing(bikes, helmets, ef).withHelmet == |helmets|
  {
    if bikes != [] {
      var prefix := bikes[..|bikes| - 1];
      HelmetsConsumedOnce(prefix, helmets, ef);
      StepConservesHelmets(GreedyPairing(prefix, helmets, ef), bikes[|bikes| - 1], ef);
    }
  }

  /** Every consumed helmet lies in the zone of the bike that consumed it. */
  lemma {:induction false} WornHelmetMatchesItsBike(bikes: seq<Box>, helmets: seq<Box>, ef: real, i: nat)
    requires i < |bikes| && GreedyPairing(bikes, helmets, ef).taken[i].Some?
    ensures Matches(bikes[i], GreedyPairing(bikes, helmets, ef).taken[i].value, ef)
  {
    var prefix := bikes[..|bikes| - 1];
    if i < |bikes| - 1 {
      WornHelmetMatchesItsBike(prefix, helmets, ef, i);
    }
  }

  /** The pairing of a prefix of the bikes is the start of the pairing of all of them. */
  lemma {:induction false} PairingOfPrefix(bikes: seq<Box>, helmets: seq<Box>, ef: real, i: nat)
    requires i <= |bikes|
    ensures GreedyPairing(bikes[..i], helmets, ef).taken == GreedyPairing(bikes, helmets, ef).taken[..i]
    decreases |bikes|
  {
    if i < |bikes| {
      var prefix := bikes[..|bikes| - 1];
      PairingOfPrefix(prefix, helmets, ef, i);
      assert prefix[..i] == bikes[..i];
    } else {
      assert bikes[..i] == bikes;
    }
  }

  /** The pairing of one more bike is one more step. */
  lemma PairingExtends(bikes: seq<Box>, helmets: seq<Box>, ef: real, i: nat)
    requires i < |bikes|
    ensures GreedyPairing(bikes[..i + 1], helmets, ef) == Step(GreedyPairing(bikes[..i], helmets, ef), bikes[i], ef)
  {
    assert bikes[..i + 1][..i] == bikes[..i];
  }

  /**
   * Greedy first match: bike `i` goes without a helmet exactly when no
   * helmet still unconsumed after the earlier bikes lies in its zone, and
   * otherwise takes the first such helmet.
   */
  lemma TakenIsFirstRemainingMatch(bikes: seq<Box>, helmets: seq<Box>, ef: real, i: nat)
    requires i < |bikes|
    ensures var before := GreedyPairing(bikes[..i], helmets, ef).left;
            GreedyPairing(bikes, helmets, ef).taken[i].None?
            <==> forall k :: 0 <= k < |before| ==> !Matches(bikes[i], before[k], ef)
    ensures var before := GreedyPairing(bikes[..i], helmets, ef).left;
            GreedyPairing(bikes, helmets, ef).taken[i].Some? ==>
            exists k: nat :: IsFirstMatch(bikes[i], before, ef, k) && before[k] == GreedyPairing(bikes, helmets, ef).taken[i].value
  {
    var before := GreedyPairing(bikes[..i], helmets, ef).left;
    var taken := GreedyPairing(bikes, helmets, ef).taken[i];
    PairingOfPrefix(bikes, helmets, ef, i + 1);
    PairingExtends(bikes, helmets, ef, i);
    StepTakes(GreedyPairing(bikes[..i], helmets, ef), bikes[i], ef);
    assert taken == GreedyPairing(bikes[..i + 1], helmets, ef).taken[i];
    match FirstMatch(bikes[i], before, ef)
    case None =>
      assert taken == None;
    case Some(k) =>
      assert taken == Some(before[k]);
      assert IsFirstMatch(bikes[i], before, ef, k);
  }

  /** With no helmets at all, every bike is counted as unhelmeted. */
  lemma {:induction false} NoHelmetsAllUnhelmeted(bikes: seq<Box>, ef: real)
    ensures GreedyPairing(bikes, [], ef).withHelmet == 0
    ensures GreedyPairing(bikes, [], ef).withoutHelmet == |bikes|
    ensures GreedyPairing(bikes, [], ef).left == []
  {
    if bikes != [] {
      NoHelmetsAllUnhelmeted(bikes[..|bikes| - 1], ef);
    }
  }

  /** Two lists of boxes that describe the same rectangles, position by position. */
  predicate SameRects(a: seq<Box>, b: seq<Box>)
  {
    |a| == |b| && forall k :: 0 <= k < |a| ==> SameRect(a[k], b[k])
  }

  lemma {:induction false} FirstMatchSameRects(bike: Box, bike': Box, hs: seq<Box>, hs': seq<Box>, ef: real)
    requires SameRect(bike, bike') && SameRects(hs, hs')
    ensures FirstMatch(bike, hs, ef) == FirstMatch(bike', hs', ef)
    decreases |hs|
  {
    if hs != [] {
      MatchesDependsOnlyOnRects(bike, bike', hs[0], hs'[0], ef);
      FirstMatchSameRects(bike, bike', hs[1..], hs'[1..], ef);
    }
  }

  lemma DeleteSameRects(a: seq<Box>, b: seq<Box>, k: nat)
    requires SameRects(a, b) && k < |a|
    ensures SameRects(a[..k] + a[k + 1..], b[..k] + b[k + 1..])
  {
    var a', b' := a[..k] + a[k + 1..], b[..k] + b[k + 1..];
    forall m | 0 <= m < |a'|
      ensures SameRect(a'[m], b'[m])
    {
      if m < k {
        assert a'[m] == a[m] && b'[m] == b[m];
      } else {
        assert a'[m] == a[m + 1] && b'[m] == b[m + 1];
      }
    }
  }

  /** One step keeps two tallies in step when their bikes and leftover helmets are the same rectangles. */
  lemma StepSameRects(t: Tally, t': Tally, bike: Box, bike': Box, ef: real)
    requires t.withHelmet == t'.withHelmet && t.withoutHelmet == t'.withoutHelmet
    requires SameRects(t.left, t'.left) && SameRect(bike, bike')
    ensures Step(t, bike, ef).withHelmet == Step(t', bike', ef).withHelmet
    ensures Step(t, bike, ef).withoutHelmet == Step(t', bike', ef).withoutHelmet
    ensures SameRects(Step(t, bike, ef).left, Step(t', bike', ef).left)
  {
    FirstMatchSameRects(bike, bike', t.left, t'.left, ef);
    match FirstMatch(bike, t.left, ef)
    case None =>
    case Some(k) =>
      DeleteSameRects(t.left, t'.left, k);
  }

  /**
   * The counts do not depend on how the corners of any bike or helmet box
   * were written down: only the rectangles matter.
   */
  lemma {:induction false} CountIgnoresCornerOrder(bikes: seq<Box>, bikes': seq<Box>, helmets: seq<Box>, helmets': seq<Box>, ef: real)
    requires SameRects(bikes, bikes') && SameRects(helmets, helmets')
    ensures GreedyPairing(bikes, helmets, ef).withHelmet == GreedyPairing(bikes', helmets', ef).withHelmet
    ensures GreedyPairing(bikes, helmets, ef).withoutHelmet == GreedyPairing(bikes', helmets', ef).withoutHelmet
    ensures SameRects(GreedyPairing(bikes, helmets, ef).left, GreedyPairing(bikes', helmets', ef).left)
    decreases |bikes|
  {
    if bikes != [] {
      var n := |bikes| - 1;
      var prefix, prefix' := bikes[..n], bikes'[..n];
      assert SameRects(prefix, prefix') by {
        forall m | 0 <= m < n ensures SameRect(prefix[m], prefix'[m]) {
          assert prefix[m] == bikes[m] && prefix'[m] == bikes'[m];
        }
      }
      CountIgnoresCornerOrder(prefix, prefix', helmets, helmets', ef);
      StepSameRects(GreedyPairing(prefix, helmets, ef), GreedyPairing(prefix', helmets', ef), bikes[n], bikes'[n], ef);
    }
  }

  /** One bike box with its helmet zone, used by the examples below. */
  const Bike100 := Box(100, 100, 200, 200)
  /** A helmet inside the zone of `Bike100`: it starts 20 pixels above the bike's bottom edge. */
  const HelmetLow := Box(120, 180, 180, 250)

  /** Two identical bikes and one helmet that fits both: the helmet is counted once. */
  lemma {:induction false} OneHelmetServesOneBike()
    ensures GreedyPairing([Bike100, Bike100], [HelmetLow], DefaultExpandingFactor).withHelmet == 1
    ensures GreedyPairing([Bike100, Bike100], [HelmetLow], DefaultExpandingFactor).withoutHelmet == 1
  {
    var ef := DefaultExpandingFactor;
    assert Matches(Bike100, HelmetLow, ef);
    assert [Bike100, Bike100][..1] == [Bike100];
    assert [Bike100][..0] == [];
    var start := GreedyPairing([], [HelmetLow], ef);
    assert start == Tally(0, 0, [HelmetLow], []);
    assert FirstMatch(Bike100, [HelmetLow], ef) == Some(0);
    var first := GreedyPairing([Bike100], [HelmetLow], ef);
    assert first == Step(start, Bike100, ef);
    assert first == Tally(1, 0, [], [Some(HelmetLow)]);
    assert FirstMatch(Bike100, [], ef) == None;
    assert GreedyPairing([Bike100, Bike100], [HelmetLow], ef) == Step(first, Bike100, ef);
  }

  /**
   * The result depends on the order of the bikes: a wide bike that comes
   * first takes the helmet that the narrow bike needed.
   */
  lemma {:induction false} PairingDependsOnBikeOrder()
    ensures GreedyPairing([Bike100, Box(0, 100, 400, 200)], [HelmetLow, Box(300, 180, 380, 250)], DefaultExpandingFactor).withHelmet == 2
    ensures GreedyPairing([Box(0, 100, 400, 200), Bike100], [HelmetLow, Box(300, 180, 380, 250)], DefaultExpandingFactor).withHelmet == 1
  {
    var ef := DefaultExpandingFactor;
    var wide, far := Box(0, 100, 400, 200), Box(300, 180, 380, 250);
    assert Matches(Bike100, HelmetLow, ef);
    assert Matches(wide, HelmetLow, ef);
    assert Matches(wide, far, ef);
    assert !Matches(Bike100, far, ef);
    assert [Bike100, wide][..1] == [Bike100];
    assert [wide, Bike100][..1] == [wide];
    assert [Bike100][..0] == [] && [wide][..0] == [];
    var hs := [HelmetLow, far];
    var start := Tally(0, 0, hs, []);
    assert GreedyPairing([], hs, ef) == start;
    assert hs[..0] + hs[1..] == [far];
    // narrow bike first: it takes the first helmet, the wide bike the second
    assert FirstMatch(Bike100, hs, ef) == Some(0);
    var a1 := GreedyPairing([Bike100], hs, ef);
    assert a1 == Step(start, Bike100, ef) == Tally(1, 0, [far], [Some(HelmetLow)]);
    assert FirstMatch(wide, [far], ef) == Some(0);
    assert GreedyPairing([Bike100, wide], hs, ef) == Step(a1, wide, ef);
    // wide bike first: it takes the first helmet, and the second is outside the narrow bike's zone
    assert FirstMatch(wide, hs, ef) == Some(0);
    var b1 := GreedyPairing([wide], hs, ef);
    assert b1 == Step(start, wide, ef) == Tally(1, 0, [far], [Some(HelmetLow)]);
    assert FirstMatch(Bike100, [far], ef) == None;
    assert GreedyPairing([wide, Bike100], hs, ef) == Step(b1, Bike100, ef);
  }

  /**
   * The example in the routine's documentation, evaluated under the window
   * the code actually tests: both helmets lie above the bikes, outside the
   * window that starts at `by2 - h*ef`, so neither bike gets a helmet.
   */
  lemma {:induction false} DocumentedExampleUnderCode()
    ensures GreedyPairing([Bike100, Box(300, 300, 400, 400)], [Box(120, 50, 180, 90), Box(320, 250, 380, 290)], DefaultExpandingFactor).withHelmet == 0
    ensures GreedyPairing([Bike100, Box(300, 300, 400, 400)], [Box(120, 50, 180, 90), Box(320, 250, 380, 290)], DefaultExpandingFactor).withoutHelmet == 2
  {
    var ef := DefaultExpandingFactor;
    var bike2, h1, h2 := Box(300, 300, 400, 400), Box(120, 50, 180, 90), Box(320, 250, 380, 290);
    assert !Matches(Bike100, h1, ef) && !Matches(Bike100, h2, ef);
    assert !Matches(bike2, h1, ef) && !Matches(bike2, h2, ef);
    assert [Bike100, bike2][..1] == [Bike100];
    assert [Bike100][..0] == [];
    var hs := [h1, h2];
    assert GreedyPairing([], hs, ef) == Tally(0, 0, hs, []);
    assert FirstMatch(Bike100, hs, ef) == None;
    var a1 := GreedyPairing([Bike100], hs, ef);
    assert a1 == Tally(0, 1, hs, [None]);
    assert FirstMatch(bike2, hs, ef) == None;
    assert GreedyPairing([Bike100, bike2], hs, ef) == Step(a1, bike2, ef);
  }

  /** What the scan of `Count` establishes when it stops at the helmet at index `j`. */
  lemma ConsumeFirstMatch(bike: Box, hs: seq<Box>, ef: real, j: nat)
    requires j < |hs| && Matches(bike, hs[j], ef)
    requires forall k :: 0 <= k < j ==> !Matches(bike, hs[k], ef)
    ensures FirstMatch(bike, hs, ef) == Some(j)
    ensures RemoveFirst(hs, hs[j]) == hs[..j] + hs[j + 1..]
  {
    FirstMatchUnique(bike, hs, ef, j);
    RemoveFirstAt(hs, hs[j], j);
  }

  /**
   * The counting routine. `helmetsIn` is copied into a working list; each
   * bike in turn scans the working list, and the first helmet inside its
   * zone is removed from it and counts the bike as helmeted.
   */
  method Count(bikes: seq<Box>, helmetsIn: seq<Box>, ef: real) returns (countHelmet: nat, countNoHelmet: nat)
    ensures countHelmet == GreedyPairing(bikes, helmetsIn, ef).withHelmet
    ensures countNoHelmet == GreedyPairing(bikes, helmetsIn, ef).withoutHelmet
    ensures countHelmet + countNoHelmet == |bikes|
    ensures countHelmet <= |helmetsIn|
    ensures helmetsIn == [] ==> countHelmet == 0 && countNoHelmet == |bikes|
  {
    var helmets := helmetsIn;
    countHelmet, countNoHelmet := 0, 0;
    for i := 0 to |bikes|
      invariant GreedyPairing(bikes[..i], helmetsIn, ef).withHelmet == countHelmet
      invariant GreedyPairing(bikes[..i], helmetsIn, ef).withoutHelmet == countNoHelmet
      invariant GreedyPairing(bikes[..i], helmetsIn, ef).left == helmets
    {
      var bike := bikes[i];
      var found := false;
      ghost var scanned := helmets;
      for j := 0 to |helmets|
        invariant helmets == scanned && !found
        invariant forall k :: 0 <= k < j ==> !Matches(bike, scanned[k], ef)
      {
        var helmet := helmets[j];
        var b := Normalize(bike);
        var h := Normalize(helmet);
        if OutsideHorizontally(b, h, ef) {
          assert !Matches(bike, scanned[j], ef);
          continue;
        }
        if OutsideVertically(b, h, ef) {
          assert !Matches(bike, scanned[j], ef);
          continue;
        }
        assert Matches(bike, helmet, ef);
        countHelmet := countHelmet + 1;
        ConsumeFirstMatch(bike, helmets, ef, j);
        helmets := RemoveFirst(helmets, helmet);
        found := true;
        break;
      }
      PairingExtends(bikes, helmetsIn, ef, i);
      if !found {
        countNoHelmet := countNoHelmet + 1;
      }
    }
    assert bikes[..|bikes|] == bikes;
    EachBikeCountedOnce(bikes, helmetsIn, ef);
    HelmetsConsumedOnce(bikes, helmetsIn, ef);
    if helmetsIn == [] {
      NoHelmetsAllUnhelmeted(bikes, ef);
    }
  }
}
