/**
 * The data model shared by the front end (src/lib.rs, src/app.rs) and the desktop
 * back end (src-tauri/src/lib.rs): place categories and their Persian labels, places
 * with their deliberately narrow identity, the requests produced by the language
 * model, and the tag-overlap score.
 */
module Places {
  import opened Wrappers

  /** The three place categories. */
  datatype PlaceType = Museum | Historical | Restaurant

  /** The fixed label of each category, used both for display and for (de)serialisation. */
  function Label(t: PlaceType): string
  {
    match t
    case Museum => "موزه"
    case Historical => "مکان تاریخی"
    case Restaurant => "رستوران"
  }

  /** Parsing a label: exactly the three labels are accepted, anything else is an error. */
  function ParseLabel(s: string): (r: Option<PlaceType>)
    ensures r.Some? ==> Label(r.value) == s
    ensures r.None? ==> forall t: PlaceType :: Label(t) != s
  {
    if s == Label(Museum) then Some(Museum)
    else if s == Label(Historical) then Some(Historical)
    else if s == Label(Restaurant) then Some(Restaurant)
    else None
  }

  lemma LabelsDistinct(t: PlaceType, u: PlaceType)
    ensures Label(t) == Label(u) <==> t == u
  {
  }

  lemma LabelRoundTrip(t: PlaceType, s: string)
    ensures ParseLabel(Label(t)) == Some(t)
    ensures ParseLabel(s) == Some(t) <==> s == Label(t)
  {
  }

  /** A coordinate pair: longitude `x`, latitude `y`. Floats are modelled as reals. */
  datatype Location = Location(x: real, y: real)

  datatype Place = Place(
    title: string,
    category: string,
    ptype: PlaceType,
    region: string,
    neighbourhood: string,
    location: Location,
    tags: seq<string>)

  /**
   * Place equality as the source defines it: title and type only. It agrees with the key the
   * hash is computed from, so equal places hash equally.
   */
  predicate SamePlace(a: Place, b: Place)
    ensures SamePlace(a, b) <==> IdentityKey(a) == IdentityKey(b)
  {
    a.title == b.title && a.ptype == b.ptype
  }

  /** What the hash implementation feeds to the hasher, in order: the title, then the type. */
  function IdentityKey(p: Place): (string, PlaceType)
  {
    (p.title, p.ptype)
  }

  /** The hash of a place under any hasher, seen as a function of what it is fed. */
  function PlaceHash<H>(p: Place, hasher: (string, PlaceType) -> H): H
  {
    hasher(IdentityKey(p).0, IdentityKey(p).1)
  }

  /** Hash is consistent with equality: equal places hash equally under every hasher. */
  lemma SamePlaceHashesEqual<H>(a: Place, b: Place, hasher: (string, PlaceType) -> H)
    requires SamePlace(a, b)
    ensures PlaceHash(a, hasher) == PlaceHash(b, hasher)
  {
  }

  /** Place equality is an equivalence relation, as `Eq` demands. */
  lemma SamePlaceIsEquivalence(a: Place, b: Place, c: Place)
    ensures SamePlace(a, a)
    ensures SamePlace(a, b) ==> SamePlace(b, a)
    ensures SamePlace(a, b) && SamePlace(b, c) ==> SamePlace(a, c)
  {
  }

  /** Every field other than title and type is ignored by place equality. */
  lemma SamePlaceIgnoresDetails(p: Place, category: string, region: string, neighbourhood: string,
                                location: Location, tags: seq<string>)
    ensures SamePlace(p, p.(category := category, region := region, neighbourhood := neighbourhood,
                            location := location, tags := tags))
  {
  }

  /** One entry of the language model's answer: a wanted category and tags relevant to it. */
  datatype PlaceInfo = PlaceInfo(ptype: PlaceType, tags: seq<string>)

  /** The parsed answer. `totalCount` is carried but never read by the selection logic. */
  datatype PromptAnalyse = PromptAnalyse(placeInfos: seq<PlaceInfo>, totalCount: Option<nat>)

  /** One loaded data file: its tag vocabulary (only shown to the language model) and its places. */
  datatype Catalog = Catalog(tagPool: seq<string>, items: seq<Place>)

  /** The three data files the application embeds: historical sites, museums, restaurants. */
  datatype Catalogs = Catalogs(history: Catalog, museum: Catalog, restaurant: Catalog)

  /** A candidate with its relevance score. */
  datatype PlaceScoring = PlaceScoring(place: Place, score: nat)

  function PlacesOf(s: seq<PlaceScoring>): (r: seq<Place>)
    ensures |r| == |s| && forall i | 0 <= i < |s| :: r[i] == s[i].place
  {
    seq(|s|, i requires 0 <= i < |s| => s[i].place)
  }

  /** Equality of scored candidates: same place identity and same score. */
  predicate SameScoring(a: PlaceScoring, b: PlaceScoring)
  {
    SamePlace(a.place, b.place) && a.score == b.score
  }

  lemma SameScoringIgnoresDetails(a: PlaceScoring, b: PlaceScoring)
    ensures SameScoring(a, b) <==> IdentityKey(a.place) == IdentityKey(b.place) && a.score == b.score
  {
  }

  /**
   * The number of entries of `tags` (a vector, so counted with multiplicity) that occur
   * in `wanted`.
   */
  function CountShared(tags: seq<string>, wanted: seq<string>): (n: nat)
    ensures n <= |tags|
    ensures n > 0 <==> exists t :: t in tags && t in wanted
  {
    if tags == [] then 0
    else (if tags[0] in wanted then 1 else 0) + CountShared(tags[1..], wanted)
  }

  /** The score of a place for a request: how many of its tags the request mentions. */
  function Score(p: Place, info: PlaceInfo): (r: nat)
    ensures r <= |p.tags|
    ensures r > 0 <==> exists t :: t in p.tags && t in info.tags
  {
    CountShared(p.tags, info.tags)
  }

  /**
   * The count is taken over positions, so a tag a place lists twice counts twice: it is the
   * number of indices whose tag is wanted.
   */
  lemma {:induction false} CountSharedCountsPositions(tags: seq<string>, wanted: seq<string>)
    ensures CountShared(tags, wanted) == |set i | 0 <= i < |tags| && tags[i] in wanted|
  {
    var whole := set i | 0 <= i < |tags| && tags[i] in wanted;
    if tags == [] {
      assert whole == {};
    } else {
      var n := |tags|;
      var init, last := tags[..n - 1], tags[n - 1];
      assert tags == init + [last];
      CountSharedCountsPositions(init, wanted);
      CountSharedOfSnoc(init, last, wanted);
      var inInit := set i | 0 <= i < |init| && init[i] in wanted;
      assert n - 1 !in inInit;
      if last in wanted {
        assert whole == inInit + {n - 1};
      } else {
        assert whole == inInit;
      }
    }
  }

  /** Appending a tag adds one to the count exactly when that tag is wanted. */
  lemma {:induction false} CountSharedOfSnoc(tags: seq<string>, t: string, wanted: seq<string>)
    ensures CountShared(tags + [t], wanted) == CountShared(tags, wanted) + if t in wanted then 1 else 0
  {
    if tags != [] {
      assert (tags + [t])[1..] == tags[1..] + [t];
      CountSharedOfSnoc(tags[1..], t, wanted);
    }
  }

  predicate Distinct<T(==)>(s: seq<T>)
  {
    forall i, j :: 0 <= i < j < |s| ==> s[i] != s[j]
  }

  /** When a place lists each tag once, its score is the size of the tag-set intersection. */
  lemma {:induction false} CountSharedIsIntersectionSize(tags: seq<string>, wanted: seq<string>)
    requires Distinct(tags)
    ensures CountShared(tags, wanted) == |set t | t in tags && t in wanted|
  {
    if tags == [] {
      assert (set t | t in tags && t in wanted) == {};
    } else {
      var rest := tags[1..];
      DistinctTail(tags);
      CountSharedIsIntersectionSize(rest, wanted);
      SharedOfCons(tags, wanted);
    }
  }

  lemma DistinctTail<T>(s: seq<T>)
    requires Distinct(s) && s != []
    ensures Distinct(s[1..]) && s[0] !in s[1..]
  {
    var rest := s[1..];
    forall i, j | 0 <= i < j < |rest| ensures rest[i] != rest[j] {
      assert rest[i] == s[i + 1] && rest[j] == s[j + 1];
    }
    forall j | 0 <= j < |rest| ensures rest[j] != s[0] {
      assert rest[j] == s[j + 1];
    }
  }

  /** The shared tags of a non-empty list: those of its tail, plus its head when wanted. */
  lemma SharedOfCons(tags: seq<string>, wanted: seq<string>)
    requires tags != []
    ensures var tail := set t | t in tags[1..] && t in wanted;
      (set t | t in tags && t in wanted) == if tags[0] in wanted then tail + {tags[0]} else tail
  {
    assert tags == [tags[0]] + tags[1..];
  }
}
