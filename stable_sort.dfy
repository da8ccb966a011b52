/**
 * A stable sort by a real-valued key, the model of Rust's `sort_by` and itertools'
 * `sorted_by` (both stable) when the comparator compares one key per element. It is
 * written as insertion sort: every stable sort by the same total preorder yields the
 * same sequence, so the choice of algorithm does not show in the results.
 */
module StableSort {

  /** The key is defined on every element of `s`. */
  ghost predicate KeysDefined<T>(s: seq<T>, key: T --> real)
  {
    forall i | 0 <= i < |s| :: key.requires(s[i])
  }

  ghost predicate SortedBy<T>(s: seq<T>, key: T --> real)
    requires KeysDefined(s, key)
  {
    forall i, j | 0 <= i < j < |s| :: key(s[i]) <= key(s[j])
  }

  /**
   * Inserts `x` in front of the first element whose key is not smaller: `x` stays ahead of
   * the elements with an equal key, which is what keeps the sort stable.
   */
  function Insert<T>(x: T, s: seq<T>, key: T --> real): (r: seq<T>)
    requires key.requires(x) && KeysDefined(s, key)
    ensures |r| == |s| + 1
    ensures multiset(r) == multiset(s) + multiset{x}
    ensures forall i | 0 <= i < |r| :: r[i] == x || r[i] in s
    ensures r[0] == x || (s != [] && r[0] == s[0])
  {
    if s == [] || key(x) <= key(s[0]) then [x] + s
    else
      assert s == [s[0]] + s[1..];
      [s[0]] + Insert(x, s[1..], key)
  }

  lemma {:induction false} InsertSorted<T>(x: T, s: seq<T>, key: T --> real)
    requires key.requires(x) && KeysDefined(s, key) && SortedBy(s, key)
    ensures KeysDefined(Insert(x, s, key), key) && SortedBy(Insert(x, s, key), key)
  {
    InsertKeysDefined(x, s, key);
    if s == [] || key(x) <= key(s[0]) {
      assert forall i | 0 <= i < |s| :: key(x) <= key(s[i]) by {
        forall i | 0 <= i < |s| ensures key(x) <= key(s[i]) {
          if i > 0 {
            assert key(s[0]) <= key(s[i]);
          }
        }
      }
      PrependSorted(x, s, key);
    } else {
      var rest := s[1..];
      SortedTail(s, key);
      InsertSorted(x, rest, key);
      var t := Insert(x, rest, key);
      assert forall i | 0 <= i < |t| :: key(s[0]) <= key(t[i]) by {
        forall i | 0 <= i < |t| ensures key(s[0]) <= key(t[i]) {
          if t[i] != x {
            var k :| 0 <= k < |rest| && rest[k] == t[i];
          }
        }
      }
      PrependSorted(s[0], t, key);
    }
  }

  lemma InsertKeysDefined<T>(x: T, s: seq<T>, key: T --> real)
    requires key.requires(x) && KeysDefined(s, key)
    ensures KeysDefined(Insert(x, s, key), key)
  {
    var r := Insert(x, s, key);
    forall i | 0 <= i < |r| ensures key.requires(r[i]) {
      if r[i] != x {
        var k :| 0 <= k < |s| && s[k] == r[i];
      }
    }
  }

  /** The tail of a sorted sequence is sorted, with keys no smaller than the head's. */
  lemma SortedTail<T>(s: seq<T>, key: T --> real)
    requires KeysDefined(s, key) && SortedBy(s, key) && s != []
    ensures KeysDefined(s[1..], key) && SortedBy(s[1..], key)
    ensures forall i | 0 <= i < |s[1..]| :: key(s[0]) <= key(s[1..][i])
  {
    var rest := s[1..];
    forall i | 0 <= i < |rest| ensures key.requires(rest[i]) && key(s[0]) <= key(rest[i]) {
      assert rest[i] == s[i + 1];
    }
    forall i, j | 0 <= i < j < |rest| ensures key(rest[i]) <= key(rest[j]) {
      assert rest[i] == s[i + 1] && rest[j] == s[j + 1];
    }
  }

  /** Putting an element with the smallest key in front of a sorted sequence keeps it sorted. */
  lemma PrependSorted<T>(y: T, t: seq<T>, key: T --> real)
    requires key.requires(y) && KeysDefined(t, key) && SortedBy(t, key)
    requires forall i | 0 <= i < |t| :: key(y) <= key(t[i])
    ensures KeysDefined([y] + t, key) && SortedBy([y] + t, key)
  {
    var r := [y] + t;
    forall i | 0 <= i < |r| ensures key.requires(r[i]) {
      if i > 0 {
        assert r[i] == t[i - 1];
      }
    }
    forall i, j | 0 <= i < j < |r| ensures key(r[i]) <= key(r[j]) {
      assert r[j] == t[j - 1];
      if i > 0 {
        assert r[i] == t[i - 1];
      }
    }
  }

  /** The stable sort: each element is inserted ahead of the equal-key elements that follow it. */
  function Sort<T>(s: seq<T>, key: T --> real): (r: seq<T>)
    requires KeysDefined(s, key)
    ensures |r| == |s|
    ensures multiset(r) == multiset(s)
    ensures KeysDefined(r, key) && SortedBy(r, key)
  {
    if s == [] then []
    else
      var t := Sort(s[1..], key);
      InsertSorted(s[0], t, key);
      assert s == [s[0]] + s[1..];
      Insert(s[0], t, key)
  }

  /** `k` is the earliest position holding a smallest key. */
  ghost predicate IsFirstMin<T>(s: seq<T>, key: T --> real, k: nat)
    requires KeysDefined(s, key)
  {
    && k < |s|
    && (forall j | 0 <= j < |s| :: key(s[k]) <= key(s[j]))
    && (forall j | 0 <= j < k :: key(s[k]) < key(s[j]))
  }

  lemma FirstMinIsUnique<T>(s: seq<T>, key: T --> real, k: nat, m: nat)
    requires KeysDefined(s, key) && IsFirstMin(s, key, k) && IsFirstMin(s, key, m)
    ensures k == m
  {
    assert key(s[k]) == key(s[m]);
  }

  function FirstMinIndex<T>(s: seq<T>, key: T --> real): (k: nat)
    requires KeysDefined(s, key) && |s| > 0
    ensures IsFirstMin(s, key, k)
  {
    if |s| == 1 then 0
    else
      var k' := FirstMinIndex(s[1..], key);
      if key(s[0]) <= key(s[1..][k']) then 0 else k' + 1
  }

  /**
   * The head of the stable sort is the earliest element with a smallest key: taking the
   * first element after a stable sort picks the first minimum in the original order.
   */
  lemma {:induction false} SortHeadIsFirstMin<T>(s: seq<T>, key: T --> real)
    requires KeysDefined(s, key) && |s| > 0
    ensures Sort(s, key)[0] == s[FirstMinIndex(s, key)]
  {
    if |s| > 1 {
      SortHeadIsFirstMin(s[1..], key);
    }
  }

  /** When every key is the same, the stable sort leaves the sequence as it was. */
  lemma {:induction false} SortEqualKeysIsIdentity<T>(s: seq<T>, key: T --> real, c: real)
    requires KeysDefined(s, key)
    requires forall i | 0 <= i < |s| :: key(s[i]) == c
    ensures Sort(s, key) == s
  {
    if s != [] {
      var rest := s[1..];
      assert forall i | 0 <= i < |rest| :: rest[i] == s[i + 1];
      SortEqualKeysIsIdentity(rest, key, c);
      assert s == [s[0]] + rest;
    }
  }
}
