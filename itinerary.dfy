/**
 * The itinerary selector of the desktop back end (`do_the_job`): score every place of the
 * requested category by tag overlap, keep the categories that have candidates, form every
 * one-place-per-category combination, rank the combinations by a cost mixing the length of
 * the round trip through them with their mean score, and return the places of the cheapest,
 * the earliest one among equals.
 *
 * The great-circle distance is a parameter `dist`: nothing is required of it.
 */
module Itinerary {
  import opened Wrappers
  import opened Places
  import opened Sequences
  import StableSort
  import Product
  import Arith

  type Distance = (Location, Location) -> real

  /** One scored candidate per surviving category, in request order. */
  type Combination = seq<PlaceScoring>

  /** Each catalog holds places of its own category only, as the embedded data files do. */
  predicate WellTyped(catalogs: Catalogs)
  {
    && (forall p | p in catalogs.museum.items :: p.ptype == Museum)
    && (forall p | p in catalogs.history.items :: p.ptype == Historical)
    && (forall p | p in catalogs.restaurant.items :: p.ptype == Restaurant)
  }

  /**
   * The catalog a request draws from is chosen by the requested category alone; over
   * well-typed catalogs, every place it offers has the requested category.
   */
  function CatalogFor(t: PlaceType, catalogs: Catalogs): (r: Catalog)
    ensures r in [catalogs.museum, catalogs.history, catalogs.restaurant]
    ensures WellTyped(catalogs) ==> forall p | p in r.items :: p.ptype == t
  {
    match t
    case Museum => catalogs.museum
    case Historical => catalogs.history
    case Restaurant => catalogs.restaurant
  }

  /** Every place of `items` scored for `info`, keeping those whose score is positive. */
  function Candidates(info: PlaceInfo, items: seq<Place>): (r: seq<PlaceScoring>)
    ensures forall k | 0 <= k < |r| :: r[k].place in items && r[k].score == Score(r[k].place, info)
    ensures forall k | 0 <= k < |r| :: r[k].score >= 1
  {
    if items == [] then []
    else
      var scored := PlaceScoring(items[0], Score(items[0], info));
      var rest := Candidates(info, items[1..]);
      if scored.score > 0 then [scored] + rest else rest
  }

  /** No place of the catalog with a positive score is left out. */
  lemma {:induction false} CandidatesComplete(info: PlaceInfo, items: seq<Place>, p: Place)
    requires p in items && Score(p, info) > 0
    ensures PlaceScoring(p, Score(p, info)) in Candidates(info, items)
  {
    if items[0] != p {
      CandidatesComplete(info, items[1..], p);
    }
  }

  /** The candidates keep the catalog's order. */
  lemma {:induction false} CandidatesKeepOrder(info: PlaceInfo, items: seq<Place>)
    ensures IsSubseq(PlacesOf(Candidates(info, items)), items)
  {
    if items != [] {
      CandidatesKeepOrder(info, items[1..]);
      var rest := Candidates(info, items[1..]);
      var scored := PlaceScoring(items[0], Score(items[0], info));
      if scored.score > 0 {
        assert PlacesOf([scored] + rest) == [items[0]] + PlacesOf(rest);
      }
    }
  }

  /** The candidates' places, one catalog entry at a time. */
  lemma CandidatesStep(info: PlaceInfo, items: seq<Place>)
    requires items != []
    ensures multiset(PlacesOf(Candidates(info, items))) ==
              (if Score(items[0], info) > 0 then multiset{items[0]} else multiset{}) +
              multiset(PlacesOf(Candidates(info, items[1..])))
  {
    var rest := Candidates(info, items[1..]);
    var scored := PlaceScoring(items[0], Score(items[0], info));
    if scored.score > 0 {
      assert PlacesOf(Candidates(info, items)) == [items[0]] + PlacesOf(rest);
    }
  }

  /** Every copy of a place scoring above zero becomes a candidate; nothing else does. */
  lemma {:induction false} CandidatesCount(info: PlaceInfo, items: seq<Place>)
    ensures forall p :: multiset(PlacesOf(Candidates(info, items)))[p] ==
              if Score(p, info) > 0 then multiset(items)[p] else 0
  {
    if items != [] {
      CandidatesCount(info, items[1..]);
      assert multiset(items) == multiset{items[0]} + multiset(items[1..]) by {
        assert items == [items[0]] + items[1..];
      }
      CandidatesStep(info, items);
    }
  }

  /** The candidates of one request, from the catalog of its category. */
  function CandidatesFor(info: PlaceInfo, catalogs: Catalogs): seq<PlaceScoring>
  {
    Candidates(info, CatalogFor(info.ptype, catalogs).items)
  }

  /** The candidate list of every request, before empty lists are dropped. */
  function AllCandidateLists(infos: seq<PlaceInfo>, catalogs: Catalogs): (r: seq<seq<PlaceScoring>>)
    ensures |r| == |infos| && forall i | 0 <= i < |infos| :: r[i] == CandidatesFor(infos[i], catalogs)
    ensures forall i, k | 0 <= i < |r| && 0 <= k < |r[i]| ::
              && r[i][k].place in CatalogFor(infos[i].ptype, catalogs).items
              && r[i][k].score == Score(r[i][k].place, infos[i])
              && r[i][k].score >= 1
  {
    seq(|infos|, i requires 0 <= i < |infos| => CandidatesFor(infos[i], catalogs))
  }

  /** The candidate lists of the requests, without the empty ones. */
  function SurvivingLists(infos: seq<PlaceInfo>, catalogs: Catalogs): (r: seq<seq<PlaceScoring>>)
    ensures |r| <= |infos|
    ensures forall i | 0 <= i < |r| :: |r[i]| > 0
    ensures forall i, k | 0 <= i < |r| && 0 <= k < |r[i]| :: r[i][k].score >= 1
  {
    if infos == [] then []
    else
      var c := CandidatesFor(infos[0], catalogs);
      var rest := SurvivingLists(infos[1..], catalogs);
      if |c| > 0 then [c] + rest else rest
  }

  /** Each surviving list is the candidate list of one of the requests. */
  lemma {:induction false} SurvivorsComeFromRequests(infos: seq<PlaceInfo>, catalogs: Catalogs, i: nat)
    requires i < |SurvivingLists(infos, catalogs)|
    ensures exists j | 0 <= j < |infos| :: SurvivingLists(infos, catalogs)[i] == CandidatesFor(infos[j], catalogs)
  {
    var c := CandidatesFor(infos[0], catalogs);
    var whole, rest := SurvivingLists(infos, catalogs), SurvivingLists(infos[1..], catalogs);
    assert whole == if |c| > 0 then [c] + rest else rest;
    if |c| > 0 && i == 0 {
      assert whole[0] == CandidatesFor(infos[0], catalogs);
    } else {
      var i' := if |c| > 0 then i - 1 else i;
      assert i' < |rest| && whole[i] == rest[i'];
      SurvivorsComeFromRequests(infos[1..], catalogs, i');
      var j :| 0 <= j < |infos[1..]| && rest[i'] == CandidatesFor(infos[1..][j], catalogs);
      assert infos[1..][j] == infos[j + 1];
      assert whole[i] == CandidatesFor(infos[j + 1], catalogs);
    }
  }

  /** Only the requests without candidates are dropped. */
  lemma {:induction false} SurvivorsComplete(infos: seq<PlaceInfo>, catalogs: Catalogs, j: nat)
    requires j < |infos| && CandidatesFor(infos[j], catalogs) != []
    ensures CandidatesFor(infos[j], catalogs) in SurvivingLists(infos, catalogs)
  {
    if j > 0 {
      SurvivorsComplete(infos[1..], catalogs, j - 1);
      assert infos[1..][j - 1] == infos[j];
    }
  }

  /** The surviving lists keep the order of the requests. */
  lemma {:induction false} SurvivorsKeepOrder(infos: seq<PlaceInfo>, catalogs: Catalogs)
    ensures IsSubseq(SurvivingLists(infos, catalogs), AllCandidateLists(infos, catalogs))
  {
    if infos != [] {
      SurvivorsKeepOrder(infos[1..], catalogs);
      var all := AllCandidateLists(infos, catalogs);
      assert all[1..] == AllCandidateLists(infos[1..], catalogs);
    }
  }

  /** The leg from stop `i` to the next stop, the last stop leading back to the first. */
  function Leg(a: Combination, i: nat, dist: Distance): real
    requires i < |a|
  {
    dist(a[i].place.location, a[(i + 1) % |a|].place.location)
  }

  /** The legs from stop `i` on; no leg is negative when no distance is. */
  function LegsFrom(a: Combination, i: nat, dist: Distance): (r: real)
    requires i <= |a|
    ensures (forall p, q :: dist(p, q) >= 0.0) ==> r >= 0.0
    ensures i == |a| ==> r == 0.0
    decreases |a| - i
  {
    if i == |a| then 0.0 else Leg(a, i, dist) + LegsFrom(a, i + 1, dist)
  }

  /** The length of the round trip through the stops of a combination, in their order. */
  function RouteLength(a: Combination, dist: Distance): (r: real)
    ensures (forall p, q :: dist(p, q) >= 0.0) ==> r >= 0.0
    ensures a == [] ==> r == 0.0
  {
    LegsFrom(a, 0, dist)
  }

  /** The open path through the stops: every leg but the one back to the start. */
  function OpenPath(a: Combination, dist: Distance): real
  {
    if |a| <= 1 then 0.0 else dist(a[0].place.location, a[1].place.location) + OpenPath(a[1..], dist)
  }

  lemma {:induction false} LegsFromIsOpenPathPlusReturn(a: Combination, i: nat, dist: Distance)
    requires i < |a|
    ensures LegsFrom(a, i, dist) == OpenPath(a[i..], dist) + dist(a[|a| - 1].place.location, a[0].place.location)
    decreases |a| - i
  {
    var n := |a|;
    Arith.ModOfSuccessor(i, n);
    if i == n - 1 {
      assert Leg(a, i, dist) == dist(a[n - 1].place.location, a[0].place.location);
      assert |a[i..]| == 1;
    } else {
      LegsFromIsOpenPathPlusReturn(a, i + 1, dist);
      var path := a[i..];
      assert path[1..] == a[i + 1..];
      assert Leg(a, i, dist) == dist(path[0].place.location, path[1].place.location);
    }
  }

  /** The route is the open path through the stops plus the leg back to the first stop. */
  lemma RouteIsClosedTour(a: Combination, dist: Distance)
    requires |a| > 0
    ensures RouteLength(a, dist) == OpenPath(a, dist) + dist(a[|a| - 1].place.location, a[0].place.location)
    ensures |a| == 1 ==> RouteLength(a, dist) == dist(a[0].place.location, a[0].place.location)
  {
    LegsFromIsOpenPathPlusReturn(a, 0, dist);
    assert a[0..] == a;
  }

  /** A combination the cost is defined on: non-empty, every score at least one. */
  predicate WellScored(a: Combination)
  {
    |a| > 0 && forall i | 0 <= i < |a| :: a[i].score >= 1
  }

  /** The scale the source divides the route length by (commented as 20 km). */
  const MaxDistance: real := 20.0
  const DistanceWeight: real := 0.7
  const ScoreWeight: real := 0.3
  const ScoreScale: real := 3.0

  /** The sum of `(score - 1) / 3` over the stops. `score - 1` is a natural number: no underflow. */
  function ScoreTermSum(a: Combination): real
    requires forall i | 0 <= i < |a| :: a[i].score >= 1
  {
    if a == [] then 0.0
    else
      var lowered: nat := a[0].score - 1;
      (lowered as real) / ScoreScale + ScoreTermSum(a[1..])
  }

  function TotalScore(a: Combination): nat
  {
    if a == [] then 0 else a[0].score + TotalScore(a[1..])
  }

  lemma {:induction false} ScoreTermSumIsShiftedTotal(a: Combination)
    requires forall i | 0 <= i < |a| :: a[i].score >= 1
    ensures TotalScore(a) >= |a|
    ensures ScoreTermSum(a) == ((TotalScore(a) - |a|) as real) / ScoreScale
  {
    if a != [] {
      ScoreTermSumIsShiftedTotal(a[1..]);
    }
  }

  /**
   * The mean normalised score of the stops: the total score in excess of one per stop, over
   * three times the number of stops. Never negative, since every stop scores at least one.
   */
  function MeanScore(a: Combination): (r: real)
    requires WellScored(a)
    ensures TotalScore(a) >= |a|
    ensures r == ((TotalScore(a) - |a|) as real) / (ScoreScale * (|a| as real))
    ensures r >= 0.0
  {
    ScoreTermSumIsShiftedTotal(a);
    var excess := (TotalScore(a) - |a|) as real;
    var n := |a| as real;
    assert ScoreTermSum(a) / n == excess / (ScoreScale * n) by {
      Arith.DivideTwice(excess, ScoreScale, n);
    }
    ScoreTermSum(a) / n
  }

  /**
   * The ranking cost: lower is better. In closed form, 0.035 per unit of route length less
   * 0.1 per point of total score above one per stop, averaged over the stops.
   */
  function Cost(a: Combination, dist: Distance): (r: real)
    requires WellScored(a)
    ensures r == 0.035 * RouteLength(a, dist) - 0.1 * ((TotalScore(a) - |a|) as real) / (|a| as real)
  {
    var route, mean := RouteLength(a, dist), MeanScore(a);
    var excess, n := (TotalScore(a) - |a|) as real, |a| as real;
    assert ScoreWeight * mean == 0.1 * excess / n by {
      WeightedMean(excess, n);
    }
    DistanceWeight * (route / MaxDistance) - ScoreWeight * mean
  }

  lemma WeightedMean(e: real, n: real)
    requires n > 0.0
    ensures ScoreWeight * (e / (ScoreScale * n)) == 0.1 * e / n
  {
    var q := e / (ScoreScale * n);
    assert q * (ScoreScale * n) == e;
    assert (0.1 * e / n) * n == 0.1 * e;
  }

  /**
   * The sign convention of the cost: between combinations of the same size, a route that is
   * no longer and a total score that is no lower never cost more, and either strict
   * improvement costs strictly less.
   */
  lemma CostMonotone(a: Combination, b: Combination, dist: Distance)
    requires WellScored(a) && WellScored(b) && |a| == |b|
    requires RouteLength(a, dist) <= RouteLength(b, dist) && TotalScore(a) >= TotalScore(b)
    ensures Cost(a, dist) <= Cost(b, dist)
    ensures RouteLength(a, dist) < RouteLength(b, dist) || TotalScore(a) > TotalScore(b) ==>
              Cost(a, dist) < Cost(b, dist)
  {
    ScoreTermSumIsShiftedTotal(a);
    ScoreTermSumIsShiftedTotal(b);
    var n := |a| as real;
    var sa, sb := ScoreTermSum(a), ScoreTermSum(b);
    assert sa >= sb;
    DivideMonotone(sb, sa, n);
  }

  lemma DivideMonotone(x: real, y: real, n: real)
    requires n > 0.0 && x <= y
    ensures x / n <= y / n
    ensures x < y ==> x / n < y / n
  {
    assert y / n - x / n == (y - x) / n;
  }

  /** The ranking key handed to the sort. */
  function CostKey(dist: Distance): Combination --> real
  {
    a requires WellScored(a) => Cost(a, dist)
  }

  /**
   * The selection: the stable sort by cost followed by taking the head, the places of the
   * winning combination in request order. `None` when no category has a candidate: the
   * source then takes the head of the product of no lists, whose outcome depends on the
   * version of the iterator library (a panic, or an empty itinerary).
   */
  function DoTheJob(analyse: PromptAnalyse, catalogs: Catalogs, dist: Distance): (r: Option<seq<Place>>)
    ensures r.None? <==> SurvivingLists(analyse.placeInfos, catalogs) == []
    ensures r.Some? ==> |r.value| == |SurvivingLists(analyse.placeInfos, catalogs)|
    ensures r.Some? ==> forall i | 0 <= i < |r.value| ::
              r.value[i] in PlacesOf(SurvivingLists(analyse.placeInfos, catalogs)[i])
  {
    var lists := SurvivingLists(analyse.placeInfos, catalogs);
    if lists == [] then None
    else
      var combos := Product.MultiCartesianProduct(lists);
      RankableCombos(lists, dist);
      var ranked := StableSort.Sort(combos, CostKey(dist));
      var best := ranked[0];
      assert best in combos by {
        assert best in multiset(ranked);
      }
      ChoicePlaces(best, lists);
      Some(PlacesOf(best))
  }

  /** The places of a choice, one from each list, come from the matching lists. */
  lemma ChoicePlaces(c: Combination, lists: seq<seq<PlaceScoring>>)
    requires Product.IsChoice(c, lists)
    ensures |PlacesOf(c)| == |lists|
    ensures forall i | 0 <= i < |c| :: PlacesOf(c)[i] in PlacesOf(lists[i])
  {
    forall i | 0 <= i < |c| ensures PlacesOf(c)[i] in PlacesOf(lists[i]) {
      var j :| 0 <= j < |lists[i]| && lists[i][j] == c[i];
      assert PlacesOf(lists[i])[j] == c[i].place;
    }
  }

  /** Every combination of surviving lists has a cost, and there is at least one. */
  lemma RankableCombos(lists: seq<seq<PlaceScoring>>, dist: Distance)
    requires |lists| >= 1
    requires forall i | 0 <= i < |lists| :: |lists[i]| > 0
    requires forall i, k | 0 <= i < |lists| && 0 <= k < |lists[i]| :: lists[i][k].score >= 1
    ensures |Product.MultiCartesianProduct(lists)| > 0
    ensures forall k | 0 <= k < |Product.MultiCartesianProduct(lists)| ::
              WellScored(Product.MultiCartesianProduct(lists)[k])
    ensures StableSort.KeysDefined(Product.MultiCartesianProduct(lists), CostKey(dist))
  {
    Product.ProductSizePositive(lists);
    var combos := Product.MultiCartesianProduct(lists);
    forall k | 0 <= k < |combos| ensures WellScored(combos[k]) {
      var c := combos[k];
      assert Product.IsChoice(c, lists);
      forall i | 0 <= i < |c| ensures c[i].score >= 1 {
        var j :| 0 <= j < |lists[i]| && lists[i][j] == c[i];
      }
    }
  }

  /**
   * `combos[w]` costs no more than any combination and strictly less than every earlier
   * one: the combination a stable sort by cost puts first.
   */
  ghost predicate EarliestCheapest(combos: seq<Combination>, dist: Distance, w: nat)
    requires forall k | 0 <= k < |combos| :: WellScored(combos[k])
  {
    && w < |combos|
    && (forall k | 0 <= k < |combos| :: Cost(combos[w], dist) <= Cost(combos[k], dist))
    && (forall k | 0 <= k < w :: Cost(combos[w], dist) < Cost(combos[k], dist))
  }

  /**
   * What the selection returns: the places of the earliest combination, in product order,
   * whose cost is no greater than that of any other combination.
   */
  lemma DoTheJobPicksEarliestCheapest(analyse: PromptAnalyse, catalogs: Catalogs, dist: Distance)
    requires SurvivingLists(analyse.placeInfos, catalogs) != []
    ensures var combos := Product.MultiCartesianProduct(SurvivingLists(analyse.placeInfos, catalogs));
            && |combos| > 0
            && (forall k | 0 <= k < |combos| :: WellScored(combos[k]))
            && exists w | 0 <= w < |combos| ::
                 && DoTheJob(analyse, catalogs, dist) == Some(PlacesOf(combos[w]))
                 && EarliestCheapest(combos, dist, w)
  {
    var lists := SurvivingLists(analyse.placeInfos, catalogs);
    var combos := Product.MultiCartesianProduct(lists);
    var key := CostKey(dist);
    RankableCombos(lists, dist);
    DoTheJobIsHeadOfRanking(analyse, catalogs, dist);
    StableSort.SortHeadIsFirstMin(combos, key);
    var w := StableSort.FirstMinIndex(combos, key);
    CheapestByKey(combos, dist, w);
    assert DoTheJob(analyse, catalogs, dist) == Some(PlacesOf(combos[w]));
  }

  /** The first minimum by the ranking key is the first minimum by cost. */
  lemma CheapestByKey(combos: seq<Combination>, dist: Distance, w: nat)
    requires forall k | 0 <= k < |combos| :: WellScored(combos[k])
    requires StableSort.KeysDefined(combos, CostKey(dist))
    requires StableSort.IsFirstMin(combos, CostKey(dist), w)
    ensures EarliestCheapest(combos, dist, w)
  {
    var key := CostKey(dist);
    forall k | 0 <= k < |combos|
      ensures key(combos[k]) == Cost(combos[k], dist)
    {
    }
  }

  /** The selection gives up exactly when no request has a single candidate. */
  lemma NoSelectionIffNoCandidates(analyse: PromptAnalyse, catalogs: Catalogs, dist: Distance)
    ensures DoTheJob(analyse, catalogs, dist).None? <==>
              forall j | 0 <= j < |analyse.placeInfos| :: CandidatesFor(analyse.placeInfos[j], catalogs) == []
  {
    var infos := analyse.placeInfos;
    if SurvivingLists(infos, catalogs) != [] {
      SurvivorsComeFromRequests(infos, catalogs, 0);
    }
    forall j | 0 <= j < |infos| && CandidatesFor(infos[j], catalogs) != []
      ensures SurvivingLists(infos, catalogs) != []
    {
      SurvivorsComplete(infos, catalogs, j);
    }
  }

  /**
   * One museum request and one restaurant request against a museum catalog of two places and
   * a restaurant catalog of one, all three with a positive score. When every distance is
   * zero, the strictly better-scored museum wins.
   */
  lemma BetterMuseumWinsAtZeroDistance(analyse: PromptAnalyse, catalogs: Catalogs, dist: Distance,
                                       m1: Place, m2: Place, r1: Place)
    requires |analyse.placeInfos| == 2
    requires analyse.placeInfos[0].ptype == Museum && analyse.placeInfos[1].ptype == Restaurant
    requires catalogs.museum.items == [m1, m2] && catalogs.restaurant.items == [r1]
    requires Score(m1, analyse.placeInfos[0]) > Score(m2, analyse.placeInfos[0]) > 0
    requires Score(r1, analyse.placeInfos[1]) > 0
    requires forall p, q :: dist(p, q) == 0.0
    ensures DoTheJob(analyse, catalogs, dist) == Some([m1, r1])
  {
    var infos := analyse.placeInfos;
    var s1, s2, sr := PlaceScoring(m1, Score(m1, infos[0])), PlaceScoring(m2, Score(m2, infos[0])), PlaceScoring(r1, Score(r1, infos[1]));
    ScenarioCandidates(infos, catalogs, m1, m2, r1);
    BetterComboChosen(analyse, catalogs, dist, s1, s2, sr);
    assert PlacesOf([s1, sr]) == [m1, r1];
  }

  /** With zero distances, of the two combinations sharing `sr`, the better-scored one wins. */
  lemma BetterComboChosen(analyse: PromptAnalyse, catalogs: Catalogs, dist: Distance,
                          s1: PlaceScoring, s2: PlaceScoring, sr: PlaceScoring)
    requires SurvivingLists(analyse.placeInfos, catalogs) == [[s1, s2], [sr]]
    requires s1.score > s2.score >= 1 && sr.score >= 1
    requires forall p, q :: dist(p, q) == 0.0
    ensures DoTheJob(analyse, catalogs, dist) == Some(PlacesOf([s1, sr]))
  {
    ScenarioRanking(s1, s2, sr, dist);
    DoTheJobOfKnownRanking(analyse, catalogs, dist, [[s1, s2], [sr]], [[s1, sr], [s2, sr]]);
  }

  /**
   * Two museums, one tagged {a, b} and one {a}, and a restaurant tagged {c}; the request
   * asks for a museum about a or b and a restaurant about c. With every distance zero, the
   * museum tagged {a, b} is chosen.
   */
  lemma TwoMuseumsOneRestaurant(analyse: PromptAnalyse, catalogs: Catalogs, dist: Distance,
                                m1: Place, m2: Place, r1: Place)
    requires analyse.placeInfos == [PlaceInfo(Museum, ["a", "b"]), PlaceInfo(Restaurant, ["c"])]
    requires m1.tags == ["a", "b"] && m2.tags == ["a"] && r1.tags == ["c"]
    requires catalogs.museum.items == [m1, m2] && catalogs.restaurant.items == [r1]
    requires forall p, q :: dist(p, q) == 0.0
    ensures DoTheJob(analyse, catalogs, dist) == Some([m1, r1])
  {
    var infos := analyse.placeInfos;
    assert Score(m1, infos[0]) == 2;
    assert Score(m2, infos[0]) == 1;
    assert Score(r1, infos[1]) == 1;
    BetterMuseumWinsAtZeroDistance(analyse, catalogs, dist, m1, m2, r1);
  }

  lemma ScenarioRanking(s1: PlaceScoring, s2: PlaceScoring, sr: PlaceScoring, dist: Distance)
    requires s1.score > s2.score >= 1 && sr.score >= 1
    requires forall p, q :: dist(p, q) == 0.0
    ensures StableSort.KeysDefined(Product.Combos([[s1, s2], [sr]]), CostKey(dist))
    ensures StableSort.Sort(Product.Combos([[s1, s2], [sr]]), CostKey(dist)) == [[s1, sr], [s2, sr]]
  {
    CombosOfTwoByOne(s1, s2, sr);
    ScenarioCosts(s1, s2, sr, dist);
    SortTwo([s1, sr], [s2, sr], CostKey(dist));
  }

  /** `DoTheJob` once the surviving lists and the ranking of their combinations are known. */
  lemma DoTheJobOfKnownRanking(analyse: PromptAnalyse, catalogs: Catalogs, dist: Distance,
                               lists: seq<seq<PlaceScoring>>, ranked: seq<Combination>)
    requires SurvivingLists(analyse.placeInfos, catalogs) == lists && lists != []
    requires StableSort.KeysDefined(Product.Combos(lists), CostKey(dist))
    requires StableSort.Sort(Product.Combos(lists), CostKey(dist)) == ranked
    ensures |ranked| > 0 && DoTheJob(analyse, catalogs, dist) == Some(PlacesOf(ranked[0]))
  {
    DoTheJobIsHeadOfRanking(analyse, catalogs, dist);
  }

  lemma DoTheJobIsHeadOfRanking(analyse: PromptAnalyse, catalogs: Catalogs, dist: Distance)
    requires SurvivingLists(analyse.placeInfos, catalogs) != []
    ensures var combos := Product.Combos(SurvivingLists(analyse.placeInfos, catalogs));
            && StableSort.KeysDefined(combos, CostKey(dist))
            && |StableSort.Sort(combos, CostKey(dist))| > 0
            && DoTheJob(analyse, catalogs, dist) == Some(PlacesOf(StableSort.Sort(combos, CostKey(dist))[0]))
  {
    RankableCombos(SurvivingLists(analyse.placeInfos, catalogs), dist);
  }

  lemma ScenarioCandidates(infos: seq<PlaceInfo>, catalogs: Catalogs, m1: Place, m2: Place, r1: Place)
    requires |infos| == 2 && infos[0].ptype == Museum && infos[1].ptype == Restaurant
    requires catalogs.museum.items == [m1, m2] && catalogs.restaurant.items == [r1]
    requires Score(m1, infos[0]) > 0 && Score(m2, infos[0]) > 0 && Score(r1, infos[1]) > 0
    ensures SurvivingLists(infos, catalogs) ==
              [[PlaceScoring(m1, Score(m1, infos[0])), PlaceScoring(m2, Score(m2, infos[0]))],
               [PlaceScoring(r1, Score(r1, infos[1]))]]
  {
    var s1, s2, sr := PlaceScoring(m1, Score(m1, infos[0])), PlaceScoring(m2, Score(m2, infos[0])), PlaceScoring(r1, Score(r1, infos[1]));
    assert [m1, m2][1..] == [m2] && [m2][1..] == [] && [r1][1..] == [];
    assert Candidates(infos[0], [m2]) == [s2];
    assert CandidatesFor(infos[0], catalogs) == [s1, s2];
    assert CandidatesFor(infos[1], catalogs) == [sr] by {
      assert CatalogFor(Restaurant, catalogs).items == [r1];
      assert Candidates(infos[1], []) == [];
    }
    assert infos[1..][1..] == [];
    assert SurvivingLists(infos[1..], catalogs) == [[sr]];
  }

  lemma CombosOfTwoByOne(x: PlaceScoring, y: PlaceScoring, z: PlaceScoring)
    ensures Product.Combos([[x, y], [z]]) == [[x, z], [y, z]]
  {
    var lists := [[x, y], [z]];
    assert Product.Combos<PlaceScoring>([]) == [[]];
    assert Product.Combos(lists[1..]) == [[z]] by {
      assert lists[1..] == [[z]] && lists[1..][1..] == [];
      var pz := Product.PrependEach(z, [[]]);
      assert |pz| == 1 && pz[0] == [z] + [] == [z];
      assert pz == [[z]];
      assert Product.CombosFrom([z], [[]]) == [[z]];
    }
    var py, px := Product.PrependEach(y, [[z]]), Product.PrependEach(x, [[z]]);
    assert |py| == 1 && py[0] == [y] + [z] == [y, z];
    assert |px| == 1 && px[0] == [x] + [z] == [x, z];
    assert py == [[y, z]] && px == [[x, z]];
    assert [y][1..] == [] && [x, y][1..] == [y];
    assert Product.CombosFrom([y], [[z]]) == [[y, z]];
  }

  lemma ScenarioCosts(s1: PlaceScoring, s2: PlaceScoring, sr: PlaceScoring, dist: Distance)
    requires s1.score > s2.score >= 1 && sr.score >= 1
    requires forall p, q :: dist(p, q) == 0.0
    ensures WellScored([s1, sr]) && WellScored([s2, sr])
    ensures Cost([s1, sr], dist) < Cost([s2, sr], dist)
  {
    ZeroDistanceRoute(s1, sr, dist);
    ZeroDistanceRoute(s2, sr, dist);
    assert [s1, sr][1..] == [sr] && [s2, sr][1..] == [sr] && [sr][1..] == [];
    assert TotalScore([s1, sr]) == s1.score + TotalScore([sr]);
    assert TotalScore([s2, sr]) == s2.score + TotalScore([sr]);
    CostMonotone([s1, sr], [s2, sr], dist);
  }

  lemma SortTwo(a: Combination, b: Combination, key: Combination --> real)
    requires key.requires(a) && key.requires(b) && key(a) < key(b)
    ensures StableSort.Sort([a, b], key) == [a, b]
  {
    assert [a, b][1..] == [b] && [b][1..] == [];
    assert StableSort.Sort([b], key) == [b];
  }

  lemma ZeroDistanceRoute(x: PlaceScoring, y: PlaceScoring, dist: Distance)
    requires forall p, q :: dist(p, q) == 0.0
    ensures RouteLength([x, y], dist) == 0.0
  {
    assert LegsFrom([x, y], 2, dist) == 0.0;
    assert LegsFrom([x, y], 1, dist) == 0.0;
  }
}
