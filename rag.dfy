/**
 * The pure helpers of the retrieval-augmented chat prototype (src/groq_impl.rs): cutting a
 * text into fixed-size chunks, keeping a bounded conversation history, and the
 * placeholder retrieval step whose similarity scores are all equal.
 */
module Rag {
  import opened Wrappers
  import opened Sequences
  import StableSort
  import Arith

  function Min(a: nat, b: nat): nat
  {
    if a <= b then a else b
  }

  /** `chars().chunks(size)` for a positive size: consecutive pieces of `size` characters. */
  function Chunks(text: string, size: nat): (r: seq<string>)
    requires size > 0
    ensures Concat(r) == text
    ensures forall i | 0 <= i < |r| :: 1 <= |r[i]| <= size
    ensures forall i | 0 <= i < |r| - 1 :: |r[i]| == size
    decreases |text|
  {
    if text == [] then []
    else if |text| <= size then [text]
    else
      var rest := Chunks(text[size..], size);
      assert text == text[..size] + text[size..];
      [text[..size]] + rest
  }

  /**
   * `split_text_into_chunks`: the chunks of the text's characters, or `None` where the
   * source panics (`slice::chunks` rejects a chunk size of zero).
   */
  function SplitTextIntoChunks(text: string, chunkSize: nat): (r: Option<seq<string>>)
    ensures r.None? <==> chunkSize == 0
    ensures r.Some? ==> Concat(r.value) == text
    ensures r.Some? ==> forall i | 0 <= i < |r.value| - 1 :: |r.value[i]| == chunkSize
    ensures r.Some? && r.value != [] ==> 1 <= |r.value[|r.value| - 1]| <= chunkSize
    ensures r.Some? ==> (r.value == [] <==> text == [])
  {
    if chunkSize == 0 then None else Some(Chunks(text, chunkSize))
  }

  /** There are `ceil(n / size)` chunks for a text of `n` characters. */
  lemma {:induction false} ChunkCount(text: string, size: nat)
    requires size > 0
    ensures |Chunks(text, size)| == (|text| + size - 1) / size
    decreases |text|
  {
    var n := |text|;
    if text == [] {
      Arith.ModSmall(size - 1, size);
      Arith.DivModUnique(size - 1, size, 0, size - 1);
    } else if n <= size {
      Arith.DivModUnique(n + size - 1, size, 1, n - 1);
    } else {
      ChunkCount(text[size..], size);
      Arith.DivAddMultiple(1, (n - size) + size - 1, size);
      assert 1 * size + ((n - size) + size - 1) == n + size - 1;
    }
  }

  /**
   * `maintain_conversational_context`: a full history (`len >= max`) loses its oldest entry
   * (`pop_front` on an empty deque does nothing), then the response is appended.
   */
  method MaintainConversationalContext(response: string, history: seq<string>, maxLength: nat)
    returns (h: seq<string>)
    ensures |history| < maxLength ==> h == history + [response]
    ensures |history| >= maxLength && history != [] ==> h == history[1..] + [response]
    ensures |history| >= maxLength && history == [] ==> h == [response]
    ensures |h| >= 1 && h[|h| - 1] == response
    ensures 1 <= maxLength && |history| <= maxLength ==> |h| <= maxLength
  {
    h := history;
    if |h| >= maxLength {
      if h != [] {
        h := h[1..];
      }
    }
    h := h + [response];
  }

  /** The largest number of entries the history keeps: at least the newest response. */
  function Capacity(maxLength: nat): nat
  {
    if maxLength == 0 then 1 else maxLength
  }

  /**
   * The conversation loop's history, starting empty and maintained after every response
   * with the given bound: it always holds the newest responses, as many as fit.
   */
  method ContextAfterTurns(responses: seq<string>, maxLength: nat) returns (h: seq<string>)
    ensures h == responses[|responses| - Min(|responses|, Capacity(maxLength))..]
  {
    h := [];
    var t := 0;
    while t < |responses|
      invariant 0 <= t <= |responses|
      invariant h == responses[t - Min(t, Capacity(maxLength))..t]
    {
      SlideWindow(responses, t, maxLength);
      h := MaintainConversationalContext(responses[t], h, maxLength);
      t := t + 1;
    }
  }

  /** One more response moves the window of the newest responses by one place, or widens it. */
  lemma SlideWindow(responses: seq<string>, t: nat, maxLength: nat)
    requires t < |responses|
    ensures var h := responses[t - Min(t, Capacity(maxLength))..t];
            var h' := responses[t + 1 - Min(t + 1, Capacity(maxLength))..t + 1];
            && (|h| < maxLength ==> h' == h + [responses[t]])
            && (|h| >= maxLength && h != [] ==> h' == h[1..] + [responses[t]])
            && (|h| >= maxLength && h == [] ==> h' == [responses[t]])
  {
    var c := Capacity(maxLength);
    var lo, lo' := t - Min(t, c), t + 1 - Min(t + 1, c);
    var h, h' := responses[lo..t], responses[lo'..t + 1];
    if |h| < maxLength {
      assert lo' == lo;
      assert h' == h + [responses[t]];
    } else if h != [] {
      assert lo' == lo + 1;
      assert h' == h[1..] + [responses[t]];
    } else {
      assert lo' == t;
    }
  }

  /**
   * `retrieve_relevant_chunks`: the query is put in front of the chunks, every chunk gets the
   * placeholder similarity 1.0, chunk indices are sorted stably by decreasing similarity and
   * the first `topK` chunks of that ranking are returned. With equal scores the ranking is
   * the original order.
   */
  method RetrieveRelevantChunks(chunks: seq<string>, query: string, topK: nat) returns (r: seq<string>)
    ensures r == chunks[..Min(topK, |chunks|)]
  {
    var corpus := [query] + chunks;
    var similarity: seq<real> := seq(|corpus| - 1, _ => 1.0);
    assert |similarity| == |chunks|;
    var ranked := RankByDecreasingSimilarity(similarity);
    assert forall i | 0 <= i < |ranked| :: ranked[i] == i by {
      EqualSimilarityKeepsOrder(similarity, 1.0);
    }
    var k := Min(topK, |ranked|);
    r := PickChunks(chunks, ranked[..k]);
  }

  /** The chunks at the given indices, in the order of the indices. */
  function PickChunks(chunks: seq<string>, indices: seq<nat>): (r: seq<string>)
    requires forall i | 0 <= i < |indices| :: indices[i] < |chunks|
    ensures |r| == |indices| && forall i | 0 <= i < |indices| :: r[i] == chunks[indices[i]]
  {
    if indices == [] then [] else [chunks[indices[0]]] + PickChunks(chunks, indices[1..])
  }

  /** The sort key: higher similarity first. */
  function SimilarityKey(similarity: seq<real>): nat -> real
  {
    (i: nat) => if i < |similarity| then -similarity[i] else 0.0
  }

  /** The indices of `similarity`, stably sorted so that higher similarity comes first. */
  function RankByDecreasingSimilarity(similarity: seq<real>): (r: seq<nat>)
    ensures |r| == |similarity|
    ensures forall i | 0 <= i < |r| :: r[i] < |similarity|
    ensures forall i, j | 0 <= i < j < |r| :: similarity[r[i]] >= similarity[r[j]]
  {
    var indices: seq<nat> := seq(|similarity|, i => i);
    var ranked := StableSort.Sort(indices, SimilarityKey(similarity));
    SortedBySimilarity(similarity, indices, ranked);
    ranked
  }

  lemma SortedBySimilarity(similarity: seq<real>, indices: seq<nat>, ranked: seq<nat>)
    requires indices == seq(|similarity|, i => i)
    requires multiset(ranked) == multiset(indices)
    requires StableSort.KeysDefined(ranked, SimilarityKey(similarity))
    requires StableSort.SortedBy(ranked, SimilarityKey(similarity))
    ensures forall i | 0 <= i < |ranked| :: ranked[i] < |similarity|
    ensures forall i, j | 0 <= i < j < |ranked| :: similarity[ranked[i]] >= similarity[ranked[j]]
  {
    var key := SimilarityKey(similarity);
    forall i | 0 <= i < |ranked|
      ensures ranked[i] < |similarity|
    {
      assert ranked[i] in multiset(ranked);
      assert ranked[i] in indices;
    }
    forall i, j | 0 <= i < j < |ranked|
      ensures similarity[ranked[i]] >= similarity[ranked[j]]
    {
      assert key(ranked[i]) <= key(ranked[j]);
    }
  }

  /** The ranking holds every index exactly once. */
  lemma RankingIsPermutation(similarity: seq<real>)
    ensures multiset(RankByDecreasingSimilarity(similarity)) == multiset(seq(|similarity|, i => i))
  {
    var indices: seq<nat> := seq(|similarity|, i => i);
    assert multiset(StableSort.Sort(indices, SimilarityKey(similarity))) == multiset(indices);
  }

  /** When every similarity is the same, the ranking is the original order. */
  lemma EqualSimilarityKeepsOrder(similarity: seq<real>, c: real)
    requires forall i | 0 <= i < |similarity| :: similarity[i] == c
    ensures RankByDecreasingSimilarity(similarity) == seq(|similarity|, i => i)
  {
    var indices: seq<nat> := seq(|similarity|, i => i);
    StableSort.SortEqualKeysIsIdentity(indices, SimilarityKey(similarity), -c);
  }
}
