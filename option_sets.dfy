/**
 * Option sets and their normalised key.
 *
 * A variant's options are a category -> value dictionary.  Its items, in the
 * dictionary's insertion order, are a sequence of (category, value) pairs.
 * The matcher keys both sides by the items sorted with the host language's
 * tuple order, so that two dictionaries holding the same pairs in a different
 * order produce the same key.
 */
module OptionSets {

  type Pair = (string, string)

  /** The items of an option dictionary, in insertion order. */
  type Options = seq<Pair>

  /** The normalised key: the items in ascending tuple order. */
  type Key = seq<Pair>

  /** Categories are the keys of a dictionary, so no category occurs twice. */
  predicate IsDict(opts: Options) {
    forall i, j :: 0 <= i < j < |opts| ==> opts[i].0 != opts[j].0
  }

  // ---------------------------------------------------------------------------
  // String and tuple order
  // ---------------------------------------------------------------------------

  /** String "<": lexicographic by code point, a proper prefix being smaller. */
  predicate StrLt(a: string, b: string)
    decreases |a|
  {
    if |a| == 0 then |b| > 0
    else |b| > 0 && (a[0] < b[0] || (a[0] == b[0] && StrLt(a[1..], b[1..])))
  }

  lemma {:induction false} StrLtIrreflexive(a: string)
    ensures !StrLt(a, a)
    decreases |a|
  {
    if |a| > 0 {
      StrLtIrreflexive(a[1..]);
    }
  }

  lemma {:induction false} StrLtTransitive(a: string, b: string, c: string)
    requires StrLt(a, b) && StrLt(b, c)
    ensures StrLt(a, c)
    decreases |a|
  {
    if |a| > 0 && a[0] == b[0] && b[0] == c[0] {
      StrLtTransitive(a[1..], b[1..], c[1..]);
    }
  }

  lemma {:induction false} StrLtTotal(a: string, b: string)
    requires a != b
    ensures StrLt(a, b) || StrLt(b, a)
    decreases |a|
  {
    if |a| > 0 && |b| > 0 && a[0] == b[0] {
      assert a == [a[0]] + a[1..] && b == [b[0]] + b[1..];
      StrLtTotal(a[1..], b[1..]);
    }
  }

  lemma StrLtAsymmetric(a: string, b: string)
    requires StrLt(a, b)
    ensures !StrLt(b, a)
  {
  }

  /** Tuple "<" on (category, value): by category, then by value. */
  predicate PairLt(p: Pair, q: Pair) {
    StrLt(p.0, q.0) || (p.0 == q.0 && StrLt(p.1, q.1))
  }

  predicate PairLe(p: Pair, q: Pair) {
    p == q || PairLt(p, q)
  }

  lemma PairLeTransitive(p: Pair, q: Pair, r: Pair)
    requires PairLe(p, q) && PairLe(q, r)
    ensures PairLe(p, r)
  {
    if p != q && q != r {
      if StrLt(p.0, q.0) && StrLt(q.0, r.0) {
        StrLtTransitive(p.0, q.0, r.0);
      } else if p.0 == q.0 && q.0 == r.0 {
        StrLtTransitive(p.1, q.1, r.1);
      }
    }
  }

  lemma PairLeTotal(p: Pair, q: Pair)
    ensures PairLe(p, q) || PairLe(q, p)
  {
    if p.0 != q.0 {
      StrLtTotal(p.0, q.0);
    } else if p.1 != q.1 {
      StrLtTotal(p.1, q.1);
    }
  }

  lemma PairLeAntisymmetric(p: Pair, q: Pair)
    requires PairLe(p, q) && PairLe(q, p)
    ensures p == q
  {
    if p != q {
      if StrLt(p.0, q.0) {
        if StrLt(q.0, p.0) { StrLtAsymmetric(p.0, q.0); } else { StrLtIrreflexive(p.0); }
      } else {
        if StrLt(q.0, p.0) { StrLtIrreflexive(q.0); } else { StrLtAsymmetric(p.1, q.1); }
      }
    }
  }

  // ---------------------------------------------------------------------------
  // Sorting the items
  // ---------------------------------------------------------------------------

  predicate Sorted(s: seq<Pair>) {
    forall i, j :: 0 <= i < j < |s| ==> PairLe(s[i], s[j])
  }

  lemma SortedCons(a: Pair, t: seq<Pair>)
    requires Sorted(t)
    requires forall x :: x in t ==> PairLe(a, x)
    ensures Sorted([a] + t)
  {
  }

  /** Inserts p before the first element not below it. */
  function Insert(p: Pair, s: seq<Pair>): seq<Pair>
    decreases |s|
  {
    if |s| == 0 then [p]
    else if PairLe(p, s[0]) then [p] + s
    else [s[0]] + Insert(p, s[1..])
  }

  /** Inserting into a sorted sequence keeps it sorted and adds exactly p. */
  lemma {:induction false} InsertSorted(p: Pair, s: seq<Pair>)
    requires Sorted(s)
    ensures Sorted(Insert(p, s))
    ensures multiset(Insert(p, s)) == multiset(s) + multiset{p}
    decreases |s|
  {
    if |s| == 0 {
    } else if PairLe(p, s[0]) {
      forall x | x in s ensures PairLe(p, x) {
        PairLeTransitive(p, s[0], x);
      }
      SortedCons(p, s);
    } else {
      PairLeTotal(p, s[0]);
      InsertSorted(p, s[1..]);
      var t := Insert(p, s[1..]);
      assert s == [s[0]] + s[1..];
      forall x | x in t ensures PairLe(s[0], x) {
        assert x in multiset(t);
      }
      SortedCons(s[0], t);
    }
  }

  /** The items in ascending tuple order (insertion sort). */
  function SortItems(s: seq<Pair>): seq<Pair>
    decreases |s|
  {
    if |s| == 0 then [] else Insert(s[0], SortItems(s[1..]))
  }

  /** The sorted items are in ascending tuple order and a permutation of the input. */
  lemma {:induction false} SortItemsSorted(s: seq<Pair>)
    ensures Sorted(SortItems(s))
    ensures multiset(SortItems(s)) == multiset(s)
    decreases |s|
  {
    if |s| > 0 {
      SortItemsSorted(s[1..]);
      InsertSorted(s[0], SortItems(s[1..]));
      assert s == [s[0]] + s[1..];
    }
  }

  /** The normalised option-set key of inventory_sync.py:33 and :38. */
  function OptionKey(opts: Options): Key {
    SortItems(opts)
  }

  // ---------------------------------------------------------------------------
  // The key is canonical
  // ---------------------------------------------------------------------------

  /** The head of a non-empty sorted sequence is below every one of its elements. */
  lemma SortedHeadIsLeast(x: seq<Pair>, e: Pair)
    requires Sorted(x) && e in multiset(x)
    ensures |x| > 0 && PairLe(x[0], e)
  {
  }

  lemma MultisetOfTail(x: seq<Pair>)
    requires |x| > 0
    ensures multiset(x) == multiset{x[0]} + multiset(x[1..])
  {
    assert x == [x[0]] + x[1..];
  }

  /** Two sorted sequences with the same elements are the same sequence. */
  lemma {:induction false} SortedUnique(x: seq<Pair>, y: seq<Pair>)
    requires Sorted(x) && Sorted(y)
    requires multiset(x) == multiset(y)
    ensures x == y
    decreases |x|
  {
    if |x| == 0 {
      assert |multiset(y)| == 0;
    } else {
      assert x[0] in multiset(x);
      SortedHeadIsLeast(y, x[0]);
      SortedHeadIsLeast(x, y[0]);
      PairLeAntisymmetric(x[0], y[0]);
      MultisetOfTail(x);
      MultisetOfTail(y);
      assert multiset(x[1..]) == multiset(x) - multiset{x[0]};
      assert multiset(y[1..]) == multiset(y) - multiset{y[0]};
      SortedUnique(x[1..], y[1..]);
      assert x == [x[0]] + x[1..] && y == [y[0]] + y[1..];
    }
  }

  /** Whatever sorts the items produces OptionKey: it is the only sorted permutation. */
  lemma OptionKeyIsTheSortedItems(opts: Options, k: seq<Pair>)
    requires Sorted(k) && multiset(k) == multiset(opts)
    ensures OptionKey(opts) == k
  {
    SortItemsSorted(opts);
    SortedUnique(OptionKey(opts), k);
  }

  /** Keys agree exactly when the two item lists are permutations of each other. */
  lemma OptionKeyIgnoresOrder(a: Options, b: Options)
    ensures OptionKey(a) == OptionKey(b) <==> multiset(a) == multiset(b)
  {
    SortItemsSorted(a);
    SortItemsSorted(b);
    if multiset(a) == multiset(b) {
      SortedUnique(OptionKey(a), OptionKey(b));
    }
  }

  lemma {:induction false} DictMultiplicity(opts: Options, p: Pair)
    requires IsDict(opts)
    ensures multiset(opts)[p] == if p in opts then 1 else 0
    decreases |opts|
  {
    if |opts| > 0 {
      var t := opts[1..];
      assert opts == [opts[0]] + t;
      assert IsDict(t) by {
        forall i, j | 0 <= i < j < |t| ensures t[i].0 != t[j].0 {
          assert t[i] == opts[i + 1] && t[j] == opts[j + 1];
        }
      }
      DictMultiplicity(t, p);
      if p == opts[0] {
        assert p !in t by {
          forall j | 0 <= j < |t| ensures t[j] != p {
            assert t[j] == opts[j + 1];
          }
        }
      }
    }
  }

  /**
   * For two option dictionaries, the keys agree exactly when they hold the same
   * (category, value) pairs, in whatever order.
   */
  lemma DictKeyIgnoresOrder(a: Options, b: Options)
    requires IsDict(a) && IsDict(b)
    ensures OptionKey(a) == OptionKey(b) <==> (forall p :: p in a <==> p in b)
  {
    OptionKeyIgnoresOrder(a, b);
    if forall p :: p in a <==> p in b {
      forall p ensures multiset(a)[p] == multiset(b)[p] {
        DictMultiplicity(a, p);
        DictMultiplicity(b, p);
      }
      assert multiset(a) == multiset(b);
    }
    if multiset(a) == multiset(b) {
      forall p ensures p in a <==> p in b {
        assert p in a <==> p in multiset(a);
        assert p in b <==> p in multiset(b);
      }
    }
  }
}
