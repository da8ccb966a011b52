/**
 * The front end's suggestion logic (src/lib.rs, and its older copy src/app.rs): the flat
 * list of all places, the per-request candidate filter that builds one `Suggestion` per
 * request, and the `next` / `prev` buttons that move the selected place of a suggestion.
 */
module Suggestions {
  import opened Wrappers
  import opened Places
  import opened Sequences
  import opened MachineInt
  import Arith

  /** All places of the three catalogs: historical sites, then museums, then restaurants. */
  function AllPlaces(catalogs: Catalogs): (r: seq<Place>)
    ensures |r| == |catalogs.history.items| + |catalogs.museum.items| + |catalogs.restaurant.items|
  {
    catalogs.history.items + catalogs.museum.items + catalogs.restaurant.items
  }

  /** Every catalog entry occurs in the flat list, at its offset. */
  lemma AllPlacesLayout(catalogs: Catalogs)
    ensures var h, m := |catalogs.history.items|, |catalogs.museum.items|;
            var r := AllPlaces(catalogs);
            (forall i | 0 <= i < h :: r[i] == catalogs.history.items[i]) &&
            (forall i | 0 <= i < m :: r[h + i] == catalogs.museum.items[i]) &&
            (forall i | 0 <= i < |catalogs.restaurant.items| :: r[h + m + i] == catalogs.restaurant.items[i])
  {
  }

  lemma AllPlacesMembers(catalogs: Catalogs, p: Place)
    ensures p in AllPlaces(catalogs) <==>
              p in catalogs.history.items || p in catalogs.museum.items || p in catalogs.restaurant.items
  {
  }

  /**
   * A place is offered for a request when its type is wanted and one of its tags is
   * mentioned; the filter agrees with the back end's scoring, a matching place being one of
   * the wanted type that scores at least 1.
   */
  predicate Matches(p: Place, info: PlaceInfo)
    ensures Matches(p, info) <==> p.ptype == info.ptype && Score(p, info) >= 1
  {
    TagMentionedIffScored(p, info);
    p.ptype == info.ptype && exists i | 0 <= i < |p.tags| :: p.tags[i] in info.tags
  }

  /** Some tag of the place is mentioned exactly when the place scores at least 1. */
  lemma TagMentionedIffScored(p: Place, info: PlaceInfo)
    ensures (exists i | 0 <= i < |p.tags| :: p.tags[i] in info.tags) <==> Score(p, info) >= 1
  {
    if exists i | 0 <= i < |p.tags| :: p.tags[i] in info.tags {
      var i :| 0 <= i < |p.tags| && p.tags[i] in info.tags;
      assert p.tags[i] in p.tags;
    }
    if Score(p, info) >= 1 {
      var t :| t in p.tags && t in info.tags;
      var i :| 0 <= i < |p.tags| && p.tags[i] == t;
    }
  }

  /** The matching places for one request, in catalog order. */
  function MatchingPlaces(info: PlaceInfo, all: seq<Place>): (r: seq<Place>)
    ensures forall p :: p in r <==> p in all && Matches(p, info)
    ensures IsSubseq(r, all)
  {
    if all == [] then []
    else
      var rest := MatchingPlaces(info, all[1..]);
      assert forall p :: p in all <==> p == all[0] || p in all[1..] by {
        assert all == [all[0]] + all[1..];
      }
      if Matches(all[0], info) then [all[0]] + rest else rest
  }

  /** The filter keeps every copy of a matching place and no copy of any other. */
  lemma {:induction false} MatchingPlacesCount(info: PlaceInfo, all: seq<Place>)
    ensures forall p :: multiset(MatchingPlaces(info, all))[p] == if Matches(p, info) then multiset(all)[p] else 0
  {
    if all != [] {
      MatchingPlacesCount(info, all[1..]);
      assert all == [all[0]] + all[1..];
      assert multiset(all) == multiset{all[0]} + multiset(all[1..]);
    }
  }

  /** A suggestion: the candidate places for one request and the one currently shown. */
  datatype Suggestion = Suggestion(places: seq<Place>, selectedPlace: Place)

  /** The first request (by index) for which no place matched; taking `f[0]` panics there. */
  datatype AskError = NoMatchingPlace(request: nat)

  /**
   * One suggestion per request, selecting the first candidate; fails at the first request
   * without any candidate.
   */
  function SuggestionsFor(infos: seq<PlaceInfo>, all: seq<Place>): (r: Result<seq<Suggestion>, AskError>)
    ensures r.Success? <==> forall i | 0 <= i < |infos| :: MatchingPlaces(infos[i], all) != []
    ensures r.Success? ==> |r.value| == |infos|
    ensures r.Success? ==> forall i | 0 <= i < |infos| :: r.value[i].places == MatchingPlaces(infos[i], all)
    ensures r.Success? ==> forall i | 0 <= i < |infos| :: r.value[i].places != [] && r.value[i].selectedPlace == r.value[i].places[0]
    ensures r.Failure? ==>
              && r.error.request < |infos|
              && MatchingPlaces(infos[r.error.request], all) == []
              && forall i | 0 <= i < r.error.request :: MatchingPlaces(infos[i], all) != []
  {
    if infos == [] then Success([])
    else
      var f := MatchingPlaces(infos[0], all);
      if f == [] then Failure(NoMatchingPlace(0))
      else
        match SuggestionsFor(infos[1..], all)
        case Failure(NoMatchingPlace(k)) =>
          assert forall i | 1 <= i <= k :: infos[i] == infos[1..][i - 1];
          Failure(NoMatchingPlace(k + 1))
        case Success(tail) =>
          assert forall i | 1 <= i < |infos| :: infos[i] == infos[1..][i - 1];
          Success([Suggestion(f, f[0])] + tail)
  }

  /** The suggestions for a parsed answer, drawn from all catalogs. */
  function AskAi(analyse: PromptAnalyse, catalogs: Catalogs): (r: Result<seq<Suggestion>, AskError>)
    ensures r.Success? ==> |r.value| == |analyse.placeInfos|
    ensures r.Success? ==> forall i, p | 0 <= i < |r.value| ::
              p in r.value[i].places <==>
                p in AllPlaces(catalogs) && p.ptype == analyse.placeInfos[i].ptype &&
                Score(p, analyse.placeInfos[i]) >= 1
  {
    SuggestionsFor(analyse.placeInfos, AllPlaces(catalogs))
  }

  /** Every suggestion `AskAi` builds shows its first candidate, found at index 0. */
  lemma AskAiSelectsFirst(analyse: PromptAnalyse, catalogs: Catalogs, i: nat)
    requires AskAi(analyse, catalogs).Success? && i < |AskAi(analyse, catalogs).value|
    ensures var s := AskAi(analyse, catalogs).value[i];
            Position(s.places, s.selectedPlace) == Some(0)
  {
  }

  /** The candidates of each suggestion keep the catalogs' order. */
  lemma AskAiKeepsOrder(analyse: PromptAnalyse, catalogs: Catalogs, i: nat)
    requires AskAi(analyse, catalogs).Success? && i < |AskAi(analyse, catalogs).value|
    ensures IsSubseq(AskAi(analyse, catalogs).value[i].places, AllPlaces(catalogs))
  {
  }

  /** `position`: the first index whose place is equal (by identity) to `sel`. */
  function Position(places: seq<Place>, sel: Place): (r: Option<nat>)
    ensures r.Some? ==> r.value < |places| && SamePlace(places[r.value], sel)
    ensures r.Some? ==> forall j | 0 <= j < r.value :: !SamePlace(places[j], sel)
    ensures r.None? <==> forall j | 0 <= j < |places| :: !SamePlace(places[j], sel)
  {
    if places == [] then None
    else if SamePlace(places[0], sel) then Some(0)
    else
      match Position(places[1..], sel)
      case None =>
        assert forall j | 1 <= j < |places| :: places[j] == places[1..][j - 1];
        None
      case Some(k) =>
        assert forall j | 1 <= j <= k :: places[j] == places[1..][j - 1];
        Some(k + 1)
  }

  /** No two candidates are equal by identity. */
  predicate DistinctIdentities(places: seq<Place>)
  {
    forall i, j | 0 <= i < j < |places| :: !SamePlace(places[i], places[j])
  }

  lemma PositionOfDistinct(places: seq<Place>, k: nat)
    requires DistinctIdentities(places) && k < |places|
    ensures Position(places, places[k]) == Some(k)
  {
    var r := Position(places, places[k]);
    assert SamePlace(places[k], places[k]);
    assert r.Some? && r.value <= k;
    assert SamePlace(places[r.value], places[k]);
  }

  /**
   * The index `next` moves to, computed as the source does: `(index + 1) % len` in `isize`,
   * cast to `usize`, then reduced `% len` again.
   */
  function NextIndex(index: nat, len: nat): (r: nat)
    requires index < len <= IsizeMax
    ensures r < len
    ensures index + 1 < len ==> r == index + 1
    ensures index + 1 == len ==> r == 0
  {
    var m := RemTruncating((index + 1) as isize, len as isize);
    Arith.ModOfSuccessor(index, len);
    assert m as int == (index + 1) % len;
    var u := AsUsize(m);
    Arith.ModSmall(u as int, len);
    RemUnsigned(u, len as usize) as nat
  }

  /**
   * The index `prev` moves to, computed as the source does: `(index - 1) % len` in `isize`,
   * cast to `usize`, then reduced `% len` again. From index 0 the signed remainder is -1,
   * whose cast is `2^W - 1`.
   */
  function PrevIndex(index: nat, len: nat): (r: nat)
    requires index < len <= IsizeMax
    ensures r < len
    ensures index >= 1 ==> r == index - 1
    ensures index == 0 ==> r == UsizeMax % len
  {
    var m := RemTruncating(index as isize - 1, len as isize);
    if index >= 1 then
      Arith.ModSmall(index - 1, len);
      assert m as int == index - 1;
      RemUnsigned(AsUsize(m), len as usize) as nat
    else if len == 1 then
      assert m == 0;
      Arith.ModSmall(0, 1);
      Arith.DivModUnique(UsizeMax, 1, UsizeMax, 0);
      RemUnsigned(AsUsize(m), len as usize) as nat
    else
      Arith.ModSmall(1, len);
      assert m == -1;
      MinusOneAsUsize();
      RemUnsigned(AsUsize(m), len as usize) as nat
  }

  /** The intended `prev`: one step back, wrapping from the first index to the last. */
  function PrevCyclicIndex(index: nat, len: nat): (r: nat)
    requires index < len
    ensures r < len
    ensures index >= 1 ==> r == index - 1
    ensures index == 0 ==> r == len - 1
  {
    (index + len - 1) % len
  }

  /** `prev` from the first index reaches the last exactly when the length is a power of two. */
  lemma PrevFromFirstIsLastIffPowerOfTwo(len: nat)
    requires 1 <= len <= IsizeMax
    ensures PrevIndex(0, len) == len - 1 <==> Arith.IsPowerOfTwo(len)
  {
    UsizeModulusIsPow2();
    Arith.Pow2Grows(31, 32);
    Arith.Pow2Add(31, 1);
    Arith.AllOnesRemainder(PointerBits, len);
  }

  /** With three candidates, `prev` from the first one stays on the first one. */
  lemma PrevFromFirstOfThreeStays()
    ensures PrevIndex(0, 3) == 0
    ensures PrevCyclicIndex(0, 3) == 2
  {
  }

  /** As written, `next` then `prev` returns to the start, except from the last of a non-power-of-two list. */
  lemma NextThenPrevIndex(index: nat, len: nat)
    requires index < len <= IsizeMax
    ensures PrevIndex(NextIndex(index, len), len) == index <==>
              index + 1 < len || Arith.IsPowerOfTwo(len)
  {
    if index + 1 == len {
      PrevFromFirstIsLastIffPowerOfTwo(len);
    } else {
      assert len != 1;
      assert Arith.IsPowerOfTwo(1) by {
        assert Arith.Pow2(0) == 1;
      }
    }
  }

  /** The corrected `prev` undoes `next`, and `next` undoes it. */
  lemma NextThenPrevCyclicIndex(index: nat, len: nat)
    requires index < len <= IsizeMax
    ensures PrevCyclicIndex(NextIndex(index, len), len) == index
    ensures NextIndex(PrevCyclicIndex(index, len), len) == index
  {
  }

  /** The place `next` selects, or `None` where the source panics (selection not found). */
  function NextSelection(places: seq<Place>, selected: Place): (r: Option<Place>)
    requires |places| <= IsizeMax
    ensures r.Some? <==> exists j | 0 <= j < |places| :: SamePlace(places[j], selected)
    ensures r.Some? ==> r.value in places
  {
    match Position(places, selected)
    case None => None
    case Some(i) => Some(places[NextIndex(i, |places|)])
  }

  /** The place `prev` selects as written, or `None` where the source panics. */
  function PrevSelection(places: seq<Place>, selected: Place): (r: Option<Place>)
    requires |places| <= IsizeMax
    ensures r.Some? <==> exists j | 0 <= j < |places| :: SamePlace(places[j], selected)
    ensures r.Some? ==> r.value in places
  {
    match Position(places, selected)
    case None => None
    case Some(i) => Some(places[PrevIndex(i, |places|)])
  }

  /** The place the corrected `prev` selects, or `None` where the source panics. */
  function PrevCyclicSelection(places: seq<Place>, selected: Place): (r: Option<Place>)
    requires |places| <= IsizeMax
    ensures r.Some? <==> exists j | 0 <= j < |places| :: SamePlace(places[j], selected)
    ensures r.Some? ==> r.value in places
  {
    match Position(places, selected)
    case None => None
    case Some(i) => Some(places[PrevCyclicIndex(i, |places|)])
  }

  /** With distinct candidates, the corrected `prev` after `next` shows the same place again. */
  lemma NextThenPrevCyclicRestores(places: seq<Place>, k: nat)
    requires |places| <= IsizeMax && DistinctIdentities(places) && k < |places|
    ensures NextSelection(places, places[k]).Some?
    ensures PrevCyclicSelection(places, NextSelection(places, places[k]).value) == Some(places[k])
  {
    PositionOfDistinct(places, k);
    var n := NextIndex(k, |places|);
    PositionOfDistinct(places, n);
    NextThenPrevCyclicIndex(k, |places|);
  }

  /**
   * As written, `prev` after `next` from the last of `len` distinct candidates shows the
   * last one again only when `len` is a power of two.
   */
  lemma NextThenPrevFromLast(places: seq<Place>)
    requires 1 <= |places| <= IsizeMax && DistinctIdentities(places)
    ensures NextSelection(places, places[|places| - 1]).Some?
    ensures var back := PrevSelection(places, NextSelection(places, places[|places| - 1]).value);
            back == Some(places[|places| - 1]) <==> Arith.IsPowerOfTwo(|places|)
  {
    var len := |places|;
    PositionOfDistinct(places, len - 1);
    PositionOfDistinct(places, NextIndex(len - 1, len));
    NextThenPrevIndex(len - 1, len);
    var back := PrevIndex(NextIndex(len - 1, len), len);
    if places[back] == places[len - 1] {
      assert SamePlace(places[back], places[len - 1]);
    }
  }

  /** What a button press did: moved the selection, or hit the source's `unwrap` panic. */
  datatype Outcome = Moved | Panicked

  /**
   * A suggestion as the interface holds it: `next` and `prev` overwrite the selected place
   * in place and never touch the candidates.
   */
  class SuggestionField {
    var places: seq<Place>
    var selected: Place

    /** A vector never holds more than `isize::MAX` elements. */
    ghost predicate Valid()
      reads this
    {
      |places| <= IsizeMax
    }

    function Value(): Suggestion
      reads this
    {
      Suggestion(places, selected)
    }

    constructor (s: Suggestion)
      requires |s.places| <= IsizeMax
      ensures Valid() && Value() == s
    {
      places := s.places;
      selected := s.selectedPlace;
    }

    /** `iter().position(...)`: a front-to-back scan for the selected place. */
    method FindSelected() returns (index: Option<nat>)
      ensures index == Position(places, selected)
    {
      var i := 0;
      while i < |places|
        invariant 0 <= i <= |places|
        invariant forall j | 0 <= j < i :: !SamePlace(places[j], selected)
      {
        if SamePlace(places[i], selected) {
          return Some(i);
        }
        i := i + 1;
      }
      return None;
    }

    method Next() returns (outcome: Outcome)
      requires Valid()
      modifies this
      ensures Valid() && places == old(places)
      ensures outcome == Panicked <==> NextSelection(places, old(selected)).None?
      ensures outcome == Panicked ==> selected == old(selected)
      ensures outcome == Moved ==> selected == NextSelection(places, old(selected)).value
      ensures outcome == Moved ==> selected in places
    {
      var found := FindSelected();
      if found.None? {
        return Panicked;
      }
      selected := places[NextIndex(found.value, |places|)];
      return Moved;
    }

    /** `prev` as written: see `PrevIndex` for where it lands from the first candidate. */
    method Prev() returns (outcome: Outcome)
      requires Valid()
      modifies this
      ensures Valid() && places == old(places)
      ensures outcome == Panicked <==> PrevSelection(places, old(selected)).None?
      ensures outcome == Panicked ==> selected == old(selected)
      ensures outcome == Moved ==> selected == PrevSelection(places, old(selected)).value
      ensures outcome == Moved ==> selected in places
    {
      var found := FindSelected();
      if found.None? {
        return Panicked;
      }
      selected := places[PrevIndex(found.value, |places|)];
      return Moved;
    }

    /** `prev` with the intended wrap-around from the first candidate to the last. */
    method PrevCyclic() returns (outcome: Outcome)
      requires Valid()
      modifies this
      ensures Valid() && places == old(places)
      ensures outcome == Panicked <==> PrevCyclicSelection(places, old(selected)).None?
      ensures outcome == Panicked ==> selected == old(selected)
      ensures outcome == Moved ==> selected == PrevCyclicSelection(places, old(selected)).value
      ensures outcome == Moved ==> selected in places
    {
      var found := FindSelected();
      if found.None? {
        return Panicked;
      }
      selected := places[PrevCyclicIndex(found.value, |places|)];
      return Moved;
    }
  }
}
