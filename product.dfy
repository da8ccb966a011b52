/**
 * itertools' `multi_cartesian_product`: every way of taking one element from each list,
 * in the order of a multi-radix counter whose last digit turns fastest.
 */
module Product {
  import Arith

  /** The number of combinations: the product of the list lengths. */
  function ProductSize<T>(lists: seq<seq<T>>): nat
  {
    if lists == [] then 1 else |lists[0]| * ProductSize(lists[1..])
  }

  /** How far apart two combinations are that differ by one step in list `i`. */
  function Stride<T>(lists: seq<seq<T>>, i: nat): nat
    requires i < |lists|
  {
    ProductSize(lists[i + 1..])
  }

  /** `c` takes one element from each list, in list order. */
  ghost predicate IsChoice<T>(c: seq<T>, lists: seq<seq<T>>)
  {
    |c| == |lists| && forall i | 0 <= i < |c| :: c[i] in lists[i]
  }

  function PrependEach<T>(x: T, tails: seq<seq<T>>): (r: seq<seq<T>>)
    ensures |r| == |tails|
    ensures forall k | 0 <= k < |r| :: r[k] == [x] + tails[k]
  {
    if tails == [] then [] else [[x] + tails[0]] + PrependEach(x, tails[1..])
  }

  /** For each head in order, that head followed by each tail in order. */
  function CombosFrom<T>(heads: seq<T>, tails: seq<seq<T>>): (r: seq<seq<T>>)
  {
    if heads == [] then [] else PrependEach(heads[0], tails) + CombosFrom(heads[1..], tails)
  }

  /** The product of any number of lists; the product of no list is one empty combination. */
  function Combos<T>(lists: seq<seq<T>>): seq<seq<T>>
  {
    if lists == [] then [[]] else CombosFrom(lists[0], Combos(lists[1..]))
  }

  /**
   * The product as the source uses it, on at least one list (what itertools does with no
   * list at all has changed between its versions).
   */
  function MultiCartesianProduct<T>(lists: seq<seq<T>>): (r: seq<seq<T>>)
    requires |lists| >= 1
    ensures |r| == ProductSize(lists)
    ensures forall k | 0 <= k < |r| :: IsChoice(r[k], lists)
  {
    CombosSize(lists);
    CombosSound(lists);
    Combos(lists)
  }

  lemma {:induction false} CombosFromIndex<T>(heads: seq<T>, tails: seq<seq<T>>, k: nat)
    requires |tails| > 0 && k < |CombosFrom(heads, tails)|
    ensures k / |tails| < |heads|
    ensures CombosFrom(heads, tails)[k] == [heads[k / |tails|]] + tails[k % |tails|]
  {
    var n := |tails|;
    assert heads != [];
    var front := PrependEach(heads[0], tails);
    var back := CombosFrom(heads[1..], tails);
    assert CombosFrom(heads, tails) == front + back;
    if k < n {
      Arith.DivModUnique(k, n, 0, k);
      assert (front + back)[k] == front[k];
    } else {
      var k' := k - n;
      assert k' < |back|;
      CombosFromIndex(heads[1..], tails, k');
      Arith.DivModStep(k, n);
      var d := k' / n;
      assert d + 1 == k / n && d < |heads[1..]|;
      assert heads[1..][d] == heads[d + 1];
      assert (front + back)[k] == back[k'];
    }
  }

  lemma {:induction false} CombosFromSize<T>(heads: seq<T>, tails: seq<seq<T>>)
    ensures |CombosFrom(heads, tails)| == |heads| * |tails|
  {
    if heads != [] {
      CombosFromSize(heads[1..], tails);
    }
  }

  lemma {:induction false} CombosSize<T>(lists: seq<seq<T>>)
    ensures |Combos(lists)| == ProductSize(lists)
  {
    if lists != [] {
      CombosSize(lists[1..]);
      CombosFromSize(lists[0], Combos(lists[1..]));
    }
  }

  lemma {:induction false} CombosFromMembers<T>(heads: seq<T>, tails: seq<seq<T>>, c: seq<T>)
    ensures c in CombosFrom(heads, tails) <==> |c| > 0 && c[0] in heads && c[1..] in tails
  {
    if heads != [] {
      CombosFromMembers(heads[1..], tails, c);
      var front := PrependEach(heads[0], tails);
      if c in front {
        var k :| 0 <= k < |front| && front[k] == c;
        assert c[1..] == tails[k];
      }
      if |c| > 0 && c[0] == heads[0] && c[1..] in tails {
        var k :| 0 <= k < |tails| && tails[k] == c[1..];
        assert front[k] == c;
      }
    }
  }

  /** Every combination takes one element from each list. */
  lemma {:induction false} CombosSound<T>(lists: seq<seq<T>>)
    ensures forall k | 0 <= k < |Combos(lists)| :: IsChoice(Combos(lists)[k], lists)
  {
    if lists != [] {
      CombosSound(lists[1..]);
      var tails := Combos(lists[1..]);
      forall k | 0 <= k < |Combos(lists)| ensures IsChoice(Combos(lists)[k], lists) {
        var c := Combos(lists)[k];
        CombosFromMembers(lists[0], tails, c);
        var k' :| 0 <= k' < |tails| && tails[k'] == c[1..];
        assert IsChoice(c[1..], lists[1..]);
        forall i | 0 <= i < |c| ensures c[i] in lists[i] {
          if i > 0 {
            assert c[i] == c[1..][i - 1];
          }
        }
      }
    }
  }

  /** Every way of taking one element from each list occurs among the combinations. */
  lemma {:induction false} CombosComplete<T>(lists: seq<seq<T>>, c: seq<T>)
    requires IsChoice(c, lists)
    ensures c in Combos(lists)
  {
    if lists == [] {
      assert c == [];
    } else {
      assert IsChoice(c[1..], lists[1..]) by {
        forall i | 0 <= i < |c[1..]| ensures c[1..][i] in lists[1..][i] {
          assert c[1..][i] == c[i + 1];
        }
      }
      CombosComplete(lists[1..], c[1..]);
      CombosFromMembers(lists[0], Combos(lists[1..]), c);
    }
  }

  lemma {:induction false} ProductSizeAppend<T>(a: seq<seq<T>>, b: seq<seq<T>>)
    ensures ProductSize(a + b) == ProductSize(a) * ProductSize(b)
  {
    if a == [] {
      assert a + b == b;
    } else {
      assert (a + b)[0] == a[0] && (a + b)[1..] == a[1..] + b;
      ProductSizeAppend(a[1..], b);
      var x, y, z := |a[0]|, ProductSize(a[1..]), ProductSize(b);
      assert ProductSize(a + b) == x * (y * z);
      assert x * (y * z) == (x * y) * z;
    }
  }

  lemma {:induction false} ProductSizePositive<T>(lists: seq<seq<T>>)
    ensures ProductSize(lists) > 0 <==> forall i | 0 <= i < |lists| :: |lists[i]| > 0
  {
    if lists != [] {
      ProductSizePositive(lists[1..]);
      if ProductSize(lists) > 0 {
        forall i | 0 <= i < |lists| ensures |lists[i]| > 0 {
          if i > 0 {
            assert lists[i] == lists[1..][i - 1];
          }
        }
      }
      if forall i | 0 <= i < |lists| :: |lists[i]| > 0 {
        assert forall i | 0 <= i < |lists[1..]| :: lists[1..][i] == lists[i + 1];
      }
    }
  }

  /** The `k`-th combination starts with its head's digit and continues with a tail combination. */
  lemma CombosHead<T>(lists: seq<seq<T>>, k: nat)
    requires |lists| > 0 && k < ProductSize(lists)
    ensures ProductSize(lists[1..]) > 0 && |Combos(lists)| == ProductSize(lists)
    ensures k / ProductSize(lists[1..]) < |lists[0]|
    ensures k % ProductSize(lists[1..]) < |Combos(lists[1..])|
    ensures Combos(lists)[k] ==
              [lists[0][k / ProductSize(lists[1..])]] + Combos(lists[1..])[k % ProductSize(lists[1..])]
  {
    var s := ProductSize(lists[1..]);
    assert s > 0;
    CombosSize(lists);
    CombosSize(lists[1..]);
    CombosFromIndex(lists[0], Combos(lists[1..]), k);
  }

  /** Splitting the product of the later lists around list `i`. */
  lemma StrideSplit<T>(lists: seq<seq<T>>, i: nat)
    requires 0 < i < |lists|
    ensures ProductSize(lists[1..]) ==
              ProductSize(lists[1..][..i - 1]) * (|lists[i]| * Stride(lists, i))
    ensures Stride(lists[1..], i - 1) == Stride(lists, i)
  {
    var rest := lists[1..];
    assert rest == rest[..i - 1] + ([lists[i]] + lists[i + 1..]);
    ProductSizeAppend(rest[..i - 1], [lists[i]] + lists[i + 1..]);
    assert ([lists[i]] + lists[i + 1..])[1..] == lists[i + 1..];
    assert rest[i - 1 + 1..] == lists[i + 1..];
  }

  /**
   * The order of the combinations: the `k`-th one takes from list `i` the element whose
   * index is digit `i` of `k` written in the mixed radix of the list lengths, the last
   * list being the least significant digit.
   */
  lemma {:induction false} CombosOrder<T>(lists: seq<seq<T>>, k: nat, i: nat)
    requires k < ProductSize(lists) && i < |lists|
    ensures |Combos(lists)| == ProductSize(lists) && |Combos(lists)[k]| == |lists|
    ensures Stride(lists, i) > 0 && |lists[i]| > 0
    ensures Combos(lists)[k][i] == lists[i][(k / Stride(lists, i)) % |lists[i]|]
  {
    CombosSound(lists);
    CombosHead(lists, k);
    assert IsChoice(Combos(lists)[k], lists);
    var s := ProductSize(lists[1..]);
    if i == 0 {
      Arith.DivModUnique(k / s, |lists[0]|, 0, k / s);
    } else {
      CombosOrder(lists[1..], k % s, i - 1);
      StrideSplit(lists, i);
      TailDigit(k, s, ProductSize(lists[1..][..i - 1]), |lists[i]|, Stride(lists, i));
    }
  }

  lemma TailDigit(k: nat, s: nat, m: nat, n: nat, t: nat)
    requires s == m * (n * t) && s > 0 && n > 0 && t > 0
    ensures ((k % s) / t) % n == (k / t) % n
  {
    assert m > 0;
    assert m * n * t == m * (n * t);
    Arith.DigitOfRemainder(k, m, n, t);
  }

  /** The product's combinations taken together are exactly the ways of choosing. */
  lemma ProductIsAllChoices<T>(lists: seq<seq<T>>, c: seq<T>)
    requires |lists| >= 1
    ensures c in MultiCartesianProduct(lists) <==> IsChoice(c, lists)
  {
    if IsChoice(c, lists) {
      CombosComplete(lists, c);
    }
  }
}
