/** The orders the serializer sorts keys by, and insertion sort over a given
    order (the model of `Array.prototype.sort` and of the key order of
    `Object.keys`). */
module Ordering {
  import opened Bytes

  /** Byte-wise lexicographic order, the order of the default `sort()` on ASCII keys. */
  predicate LexLess(a: ByteString, b: ByteString)
  {
    if |a| == 0 then |b| > 0
    else if |b| == 0 then false
    else if a[0] != b[0] then a[0] < b[0]
    else LexLess(a[1..], b[1..])
  }

  ghost predicate StrictTotalOrder(lt: (ByteString, ByteString) -> bool)
  {
    && (forall a :: !lt(a, a))
    && (forall a, b, c :: lt(a, b) && lt(b, c) ==> lt(a, c))
    && (forall a, b :: a != b ==> lt(a, b) || lt(b, a))
  }

  /** Strictly increasing under `lt`. */
  ghost predicate Sorted(lt: (ByteString, ByteString) -> bool, s: seq<ByteString>)
  {
    forall i, j :: 0 <= i < j < |s| ==> lt(s[i], s[j])
  }

  function Insert(lt: (ByteString, ByteString) -> bool, x: ByteString, s: seq<ByteString>): (r: seq<ByteString>)
    ensures multiset(r) == multiset(s) + multiset{x}
  {
    if s == [] || lt(x, s[0]) then [x] + s
    else
      assert s == [s[0]] + s[1..];
      [s[0]] + Insert(lt, x, s[1..])
  }

  /** Insertion sort. */
  function Sort(lt: (ByteString, ByteString) -> bool, s: seq<ByteString>): (r: seq<ByteString>)
    ensures multiset(r) == multiset(s)
  {
    if s == [] then []
    else
      assert s == [s[0]] + s[1..];
      Insert(lt, s[0], Sort(lt, s[1..]))
  }

  /** The elements of `s` kept by `keep`, in their order. */
  function Filter(keep: ByteString -> bool, s: seq<ByteString>): (r: seq<ByteString>)
    ensures forall x :: x in r <==> x in s && keep(x)
  {
    if s == [] then [] else (if keep(s[0]) then [s[0]] else []) + Filter(keep, s[1..])
  }

  /** The elements of `s` that `keep` refuses, in their order. */
  function Reject(keep: ByteString -> bool, s: seq<ByteString>): (r: seq<ByteString>)
    ensures forall x :: x in r <==> x in s && !keep(x)
  {
    if s == [] then [] else (if keep(s[0]) then [] else [s[0]]) + Reject(keep, s[1..])
  }

  lemma {:induction false} LexIrreflexive(a: ByteString)
    ensures !LexLess(a, a)
  {
    if |a| > 0 { LexIrreflexive(a[1..]); }
  }

  lemma {:induction false} LexTransitive(a: ByteString, b: ByteString, c: ByteString)
    requires LexLess(a, b) && LexLess(b, c)
    ensures LexLess(a, c)
  {
    if |a| > 0 && |b| > 0 && |c| > 0 && a[0] == b[0] && b[0] == c[0] {
      LexTransitive(a[1..], b[1..], c[1..]);
    }
  }

  lemma {:induction false} LexConnected(a: ByteString, b: ByteString)
    requires a != b
    ensures LexLess(a, b) || LexLess(b, a)
  {
    if |a| > 0 && |b| > 0 && a[0] == b[0] {
      assert a == [a[0]] + a[1..] && b == [b[0]] + b[1..];
      LexConnected(a[1..], b[1..]);
    }
  }

  /** The lexicographic order is a strict total order. */
  lemma LexIsStrictTotal()
    ensures StrictTotalOrder(LexLess)
  {
    forall a { LexIrreflexive(a); }
    forall a, b, c | LexLess(a, b) && LexLess(b, c) { LexTransitive(a, b, c); }
    forall a, b | a != b { LexConnected(a, b); }
  }

  lemma {:induction false} FilterPartition(keep: ByteString -> bool, s: seq<ByteString>)
    ensures multiset(Filter(keep, s)) + multiset(Reject(keep, s)) == multiset(s)
  {
    if s != [] {
      FilterPartition(keep, s[1..]);
      assert s == [s[0]] + s[1..];
    }
  }

  lemma {:induction false} InsertSorted(lt: (ByteString, ByteString) -> bool, x: ByteString, s: seq<ByteString>)
    requires StrictTotalOrder(lt) && Sorted(lt, s) && x !in s
    ensures Sorted(lt, Insert(lt, x, s))
  {
    if s == [] || lt(x, s[0]) {
    } else {
      assert lt(s[0], x);
      var t := Insert(lt, x, s[1..]);
      InsertSorted(lt, x, s[1..]);
      forall y | y in t ensures lt(s[0], y) {
        assert y in multiset(t);
      }
    }
  }

  /** Sorting distinct keys yields them in strictly increasing order. */
  lemma {:induction false} SortSorted(lt: (ByteString, ByteString) -> bool, s: seq<ByteString>)
    requires StrictTotalOrder(lt) && Distinct(s)
    ensures Sorted(lt, Sort(lt, s))
  {
    if s != [] {
      SortSorted(lt, s[1..]);
      assert s[0] !in multiset(Sort(lt, s[1..]));
      InsertSorted(lt, s[0], Sort(lt, s[1..]));
    }
  }

  /** A strictly sorted sequence is determined by its elements. */
  lemma {:induction false} SortedUnique(lt: (ByteString, ByteString) -> bool, a: seq<ByteString>, b: seq<ByteString>)
    requires StrictTotalOrder(lt) && Sorted(lt, a) && Sorted(lt, b)
    requires forall x :: x in a <==> x in b
    ensures a == b
  {
    assert a != [] ==> a[0] in a && a[0] in b;
    assert b != [] ==> b[0] in b && b[0] in a;
    if a != [] && b != [] {
      var k :| 0 <= k < |b| && b[k] == a[0];
      var m :| 0 <= m < |a| && a[m] == b[0];
      assert a[0] == b[0];
      forall x ensures x in a[1..] <==> x in b[1..] {
        if x in a[1..] {
          var i :| 1 <= i < |a| && a[i] == x;
          assert lt(a[0], x) && x in a;
          var j :| 0 <= j < |b| && b[j] == x;
          assert j != 0;
          assert b[1..][j - 1] == x;
        }
        if x in b[1..] {
          var i :| 1 <= i < |b| && b[i] == x;
          assert lt(b[0], x) && x in b;
          var j :| 0 <= j < |a| && a[j] == x;
          assert j != 0;
          assert a[1..][j - 1] == x;
        }
      }
      SortedUnique(lt, a[1..], b[1..]);
      assert a == [a[0]] + a[1..] && b == [b[0]] + b[1..];
    }
  }

  lemma SortElements(lt: (ByteString, ByteString) -> bool, s: seq<ByteString>)
    ensures forall x :: x in Sort(lt, s) <==> x in s
  {
    var r := Sort(lt, s);
    forall x ensures x in r <==> x in s {
      assert x in r <==> x in multiset(r);
      assert x in s <==> x in multiset(s);
    }
  }

  /** Two distinct orderings of the same keys sort to the same sequence. */
  lemma SortCanonical(lt: (ByteString, ByteString) -> bool, s: seq<ByteString>, t: seq<ByteString>)
    requires StrictTotalOrder(lt) && Distinct(s) && Distinct(t)
    requires forall x :: x in s <==> x in t
    ensures Sort(lt, s) == Sort(lt, t)
  {
    SortSorted(lt, s);
    SortSorted(lt, t);
    SortElements(lt, s);
    SortElements(lt, t);
    SortedUnique(lt, Sort(lt, s), Sort(lt, t));
  }

  /** An ECMAScript array index: the canonical decimal form of an integer below
      2^32 - 1 (no sign, no leading zero). */
  predicate IsArrayIndex(k: ByteString)
  {
    && |k| > 0
    && (forall i :: 0 <= i < |k| ==> '0' <= k[i] <= '9')
    && (k[0] != '0' || |k| == 1)
    && (|k| < 10 || (|k| == 10 && LexLess(k, "4294967295")))
  }

  /** Numeric order on canonical decimal strings: the shorter is the smaller,
      and equal lengths compare digit by digit. */
  predicate NumericLess(a: ByteString, b: ByteString)
  {
    |a| < |b| || (|a| == |b| && LexLess(a, b))
  }

  lemma NumericIsStrictTotal()
    ensures StrictTotalOrder(NumericLess)
  {
    LexIsStrictTotal();
  }

  /** The order `Object.keys` reports for an object whose string keys were
      created in the order `created`: array indices first, in numeric order, then
      the other keys in creation order. */
  function OwnKeys(created: seq<ByteString>): (r: seq<ByteString>)
    ensures multiset(r) == multiset(created)
  {
    FilterPartition(IsArrayIndex, created);
    Sort(NumericLess, Filter(IsArrayIndex, created)) + Reject(IsArrayIndex, created)
  }

  lemma {:induction false} FilterDistinct(keep: ByteString -> bool, s: seq<ByteString>)
    requires Distinct(s)
    ensures Distinct(Filter(keep, s))
  {
    if s != [] {
      FilterDistinct(keep, s[1..]);
      assert s[0] !in s[1..];
    }
  }

  /** A permutation of a sequence without repetitions has none either. */
  lemma PermutationDistinct(s: seq<ByteString>, t: seq<ByteString>)
    requires multiset(s) == multiset(t) && Distinct(s)
    ensures Distinct(t)
  {
    forall i, j | 0 <= i < j < |t| ensures t[i] != t[j] {
      if t[i] == t[j] {
        var x := t[i];
        assert multiset(t[..j]) + multiset(t[j..]) == multiset(t) by { assert t == t[..j] + t[j..]; }
        assert x in multiset(t[..j]) && x in multiset(t[j..]);
        assert multiset(t)[x] >= 2;
        DistinctCount(s, x);
        assert false;
      }
    }
  }

  lemma {:induction false} DistinctCount(s: seq<ByteString>, x: ByteString)
    requires Distinct(s)
    ensures multiset(s)[x] <= 1
  {
    if s != [] {
      DistinctCount(s[1..], x);
      assert s == [s[0]] + s[1..];
      assert s[0] !in s[1..];
    }
  }

  /** `Object.keys` lists each own key once, and nothing else. */
  lemma OwnKeysElements(created: seq<ByteString>)
    requires Distinct(created)
    ensures Distinct(OwnKeys(created))
    ensures forall x :: x in OwnKeys(created) <==> x in created
  {
    var r := OwnKeys(created);
    PermutationDistinct(created, r);
    forall x ensures x in r <==> x in created {
      assert x in r <==> x in multiset(r);
      assert x in created <==> x in multiset(created);
    }
  }

  /** `Object.keys` puts the array indices first, in increasing numeric order,
      and keeps the other keys in the order they were created. */
  lemma OwnKeysOrder(created: seq<ByteString>)
    requires Distinct(created)
    ensures var n := |Filter(IsArrayIndex, created)|;
      && n <= |OwnKeys(created)|
      && (forall i :: 0 <= i < n ==> IsArrayIndex(OwnKeys(created)[i]))
      && Sorted(NumericLess, OwnKeys(created)[..n])
      && OwnKeys(created)[n..] == Reject(IsArrayIndex, created)
  {
    var indices := Filter(IsArrayIndex, created);
    FilterDistinct(IsArrayIndex, created);
    NumericIsStrictTotal();
    SortSorted(NumericLess, indices);
    SortElements(NumericLess, indices);
    var sorted := Sort(NumericLess, indices);
    assert |sorted| == |indices| by { assert |multiset(sorted)| == |multiset(indices)|; }
    assert OwnKeys(created)[..|indices|] == sorted;
    forall i | 0 <= i < |indices| ensures IsArrayIndex(OwnKeys(created)[i]) {
      assert sorted[i] in sorted;
    }
  }

  /** The order in which `Object.keys` reports keys created in lexicographic
      order: array indices before other keys, indices by numeric value, other
      keys lexicographically. */
  predicate KeyOrder(a: ByteString, b: ByteString)
  {
    if IsArrayIndex(a) then !IsArrayIndex(b) || NumericLess(a, b)
    else !IsArrayIndex(b) && LexLess(a, b)
  }

  lemma KeyOrderIsStrictTotal()
    ensures StrictTotalOrder(KeyOrder)
  {
    LexIsStrictTotal();
    NumericIsStrictTotal();
  }

  lemma {:induction false} FilterSorted(lt: (ByteString, ByteString) -> bool, keep: ByteString -> bool, s: seq<ByteString>)
    requires Sorted(lt, s)
    ensures Sorted(lt, Filter(keep, s))
  {
    if s != [] {
      FilterSorted(lt, keep, s[1..]);
      var rest := Filter(keep, s[1..]);
      forall x | x in rest ensures lt(s[0], x) {
        var j :| 0 <= j < |s[1..]| && s[1..][j] == x;
        assert s[j + 1] == x;
      }
    }
  }

  lemma {:induction false} RejectSorted(lt: (ByteString, ByteString) -> bool, keep: ByteString -> bool, s: seq<ByteString>)
    requires Sorted(lt, s)
    ensures Sorted(lt, Reject(keep, s))
  {
    if s != [] {
      RejectSorted(lt, keep, s[1..]);
      var rest := Reject(keep, s[1..]);
      forall x | x in rest ensures lt(s[0], x) {
        var j :| 0 <= j < |s[1..]| && s[1..][j] == x;
        assert s[j + 1] == x;
      }
    }
  }

  /** Keys created in lexicographic order are reported in `KeyOrder`. */
  lemma OwnKeysSorted(created: seq<ByteString>)
    requires Distinct(created) && Sorted(LexLess, created)
    ensures Sorted(KeyOrder, OwnKeys(created))
  {
    var r := OwnKeys(created);
    var n := |Filter(IsArrayIndex, created)|;
    OwnKeysOrder(created);
    var others := Reject(IsArrayIndex, created);
    RejectSorted(LexLess, IsArrayIndex, created);
    forall i, j | 0 <= i < j < |r| ensures KeyOrder(r[i], r[j]) {
      if j < n {
        assert r[..n][i] == r[i] && r[..n][j] == r[j];
      } else if i < n {
        assert r[n..][j - n] == r[j];
        assert r[j] in others;
      } else {
        assert r[n..][i - n] == r[i] && r[n..][j - n] == r[j];
        assert r[j] in others;
      }
    }
  }
}
