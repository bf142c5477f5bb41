/**
 * The order in which raster query results are reported: the `sortTilesIn`
 * comparator over tile IDs, the stable sort that `Array.prototype.sort`
 * performs with it, and the in-place array sort that implements it.
 */
module TileSort {

  /** The tile's position in the tile pyramid. */
  datatype CanonicalTileID = CanonicalTileID(z: nat, x: int, y: int)

  /** A tile ID with its overscaled zoom and its world-wrap copy. */
  datatype OverscaledTileID = OverscaledTileID(overscaledZ: int, wrap: int, canonical: CanonicalTileID)

  /**
   * A loaded tile: this module's view of the tile class of `source/tile.js`
   * (also seen, with other fields, by `LineProgram`); `uid` stands for the
   * tile object's identity, which decides what it samples.
   */
  datatype Tile = Tile(uid: nat, tileID: OverscaledTileID)

  /** What the tile enumerator found out about the intersection of the query with a tile. */
  type IntersectionDetail

  /** One entry of the list `tilesIn` returns. */
  datatype TileResult = TileResult(tile: Tile, tileID: OverscaledTileID, detail: IntersectionDetail)

  type SortKey = (int, int, int, int)

  /** The comparator's keys, most significant first. */
  function Key(r: TileResult): SortKey
  {
    (r.tileID.overscaledZ, r.tileID.canonical.y, r.tileID.wrap, r.tileID.canonical.x)
  }

  /** Strict lexicographic order on key tuples, written out independently of the comparator. */
  predicate LexLess(k: SortKey, l: SortKey)
  {
    || k.0 < l.0
    || (k.0 == l.0 && k.1 < l.1)
    || (k.0 == l.0 && k.1 == l.1 && k.2 < l.2)
    || (k.0 == l.0 && k.1 == l.1 && k.2 == l.2 && k.3 < l.3)
  }

  /** JavaScript `x || y` on numbers that are integers: 0 is the only falsy one. */
  function NumberOr(x: int, y: int): int
  {
    if x != 0 then x else y
  }

  /** `sortTilesIn`: the first non-zero key difference, or 0. */
  function SortTilesIn(a: TileResult, b: TileResult): int
  {
    var idA := a.tileID;
    var idB := b.tileID;
    NumberOr(idA.overscaledZ - idB.overscaledZ,
      NumberOr(idA.canonical.y - idB.canonical.y,
        NumberOr(idA.wrap - idB.wrap,
          idA.canonical.x - idB.canonical.x)))
  }

  lemma SortTilesInZero(a: TileResult, b: TileResult)
    ensures SortTilesIn(a, b) == 0 <==> Key(a) == Key(b)
  {
  }

  lemma SortTilesInNegative(a: TileResult, b: TileResult)
    ensures SortTilesIn(a, b) < 0 <==> LexLess(Key(a), Key(b))
  {
  }

  lemma SortTilesInReflexive(a: TileResult)
    ensures SortTilesIn(a, a) == 0
  {
  }

  lemma SortTilesInAntisymmetric(a: TileResult, b: TileResult)
    ensures SortTilesIn(a, b) == -SortTilesIn(b, a)
  {
  }

  lemma SortTilesInTransitive(a: TileResult, b: TileResult, c: TileResult)
    ensures SortTilesIn(a, b) <= 0 && SortTilesIn(b, c) <= 0 ==> SortTilesIn(a, c) <= 0
    ensures SortTilesIn(a, b) < 0 && SortTilesIn(b, c) <= 0 ==> SortTilesIn(a, c) < 0
    ensures SortTilesIn(a, b) <= 0 && SortTilesIn(b, c) < 0 ==> SortTilesIn(a, c) < 0
  {
  }

  /** Non-decreasing under the comparator. */
  ghost predicate Sorted(s: seq<TileResult>)
  {
    forall i, j :: 0 <= i < j < |s| ==> SortTilesIn(s[i], s[j]) <= 0
  }

  /**
   * Inserts `x` into `t` after every element that does not compare greater,
   * scanning from the right as an insertion sort does.
   */
  function Insert(t: seq<TileResult>, x: TileResult): seq<TileResult>
    decreases |t|
  {
    if t == [] then [x]
    else if SortTilesIn(t[|t| - 1], x) <= 0 then t + [x]
    else Insert(t[..|t| - 1], x) + [t[|t| - 1]]
  }

  /** Insertion sort, taking the elements from left to right. */
  function StableSort(s: seq<TileResult>): seq<TileResult>
    decreases |s|
  {
    if s == [] then [] else Insert(StableSort(s[..|s| - 1]), s[|s| - 1])
  }

  /** The elements of `s` whose key is `k`, in their order in `s`. */
  function KeyRun(s: seq<TileResult>, k: SortKey): seq<TileResult>
    decreases |s|
  {
    if s == [] then []
    else KeyRun(s[..|s| - 1], k) + (if Key(s[|s| - 1]) == k then [s[|s| - 1]] else [])
  }

  /** The two sequences hold the same elements of each key, in the same order. */
  ghost predicate SameRuns(s: seq<TileResult>, t: seq<TileResult>)
  {
    forall k :: KeyRun(s, k) == KeyRun(t, k)
  }

  lemma {:induction false} KeyRunSnoc(s: seq<TileResult>, x: TileResult, k: SortKey)
    ensures KeyRun(s + [x], k) == KeyRun(s, k) + (if Key(x) == k then [x] else [])
  {
    assert (s + [x])[..|s|] == s;
  }

  lemma {:induction false} InsertPermutes(t: seq<TileResult>, x: TileResult)
    ensures |Insert(t, x)| == |t| + 1
    ensures multiset(Insert(t, x)) == multiset(t) + multiset{x}
    decreases |t|
  {
    if t != [] && SortTilesIn(t[|t| - 1], x) > 0 {
      var init := t[..|t| - 1];
      InsertPermutes(init, x);
      assert t == init + [t[|t| - 1]];
    }
  }

  /** Appending an element that no element compares above keeps a sequence sorted. */
  lemma AppendSorted(t: seq<TileResult>, x: TileResult)
    requires Sorted(t) && t != [] && SortTilesIn(t[|t| - 1], x) <= 0
    ensures Sorted(t + [x])
  {
    var r := t + [x];
    forall i, j | 0 <= i < j < |r| ensures SortTilesIn(r[i], r[j]) <= 0 {
      if j == |t| && i < |t| - 1 {
        SortTilesInTransitive(t[i], t[|t| - 1], x);
      }
    }
  }

  /** Every element of `Insert(init, x)` compares at most `last` when `init`'s do and `x` compares below it. */
  lemma {:induction false} InsertBelow(init: seq<TileResult>, x: TileResult, last: TileResult)
    requires forall y :: y in init ==> SortTilesIn(y, last) <= 0
    requires SortTilesIn(last, x) > 0
    ensures forall y :: y in Insert(init, x) ==> SortTilesIn(y, last) <= 0
  {
    InsertPermutes(init, x);
    forall y | y in Insert(init, x) ensures SortTilesIn(y, last) <= 0 {
      assert y in multiset(init) + multiset{x};
      if y == x {
        SortTilesInAntisymmetric(x, last);
      }
    }
  }

  lemma {:induction false} InsertSorted(t: seq<TileResult>, x: TileResult)
    requires Sorted(t)
    ensures Sorted(Insert(t, x))
    decreases |t|
  {
    if t == [] {
    } else if SortTilesIn(t[|t| - 1], x) <= 0 {
      AppendSorted(t, x);
    } else {
      var init, last := t[..|t| - 1], t[|t| - 1];
      assert Sorted(init);
      InsertSorted(init, x);
      forall y | y in init ensures SortTilesIn(y, last) <= 0 {
        var i :| 0 <= i < |init| && init[i] == y;
        assert t[i] == y;
      }
      InsertBelow(init, x, last);
      var ins := Insert(init, x);
      var r := ins + [last];
      forall i, j | 0 <= i < j < |r| ensures SortTilesIn(r[i], r[j]) <= 0 {
        if j == |ins| {
          assert r[i] in ins;
        }
      }
    }
  }

  lemma {:induction false} InsertKeyRun(t: seq<TileResult>, x: TileResult, k: SortKey)
    ensures KeyRun(Insert(t, x), k) == KeyRun(t, k) + (if Key(x) == k then [x] else [])
    decreases |t|
  {
    if t == [] {
      KeyRunSnoc([], x, k);
    } else if SortTilesIn(t[|t| - 1], x) <= 0 {
      KeyRunSnoc(t, x, k);
    } else {
      var init, last := t[..|t| - 1], t[|t| - 1];
      assert t == init + [last];
      InsertKeyRun(init, x, k);
      KeyRunSnoc(Insert(init, x), last, k);
      KeyRunSnoc(init, last, k);
      SortTilesInZero(last, x);
    }
  }

  /** The sort returns a non-decreasing permutation of its input. */
  lemma {:induction false} StableSortCorrect(s: seq<TileResult>)
    ensures Sorted(StableSort(s))
    ensures |StableSort(s)| == |s|
    ensures multiset(StableSort(s)) == multiset(s)
    decreases |s|
  {
    if s != [] {
      var init, last := s[..|s| - 1], s[|s| - 1];
      assert s == init + [last];
      StableSortCorrect(init);
      InsertSorted(StableSort(init), last);
      InsertPermutes(StableSort(init), last);
    }
  }

  /** Elements with equal keys keep their input order. */
  lemma {:induction false} StableSortStable(s: seq<TileResult>, k: SortKey)
    ensures KeyRun(StableSort(s), k) == KeyRun(s, k)
    decreases |s|
  {
    if s != [] {
      var init, last := s[..|s| - 1], s[|s| - 1];
      assert s == init + [last];
      StableSortStable(init, k);
      InsertKeyRun(StableSort(init), last, k);
      KeyRunSnoc(init, last, k);
    }
  }

  /** Sorting an input that is already in order changes nothing. */
  lemma {:induction false} StableSortOfSorted(s: seq<TileResult>)
    requires Sorted(s)
    ensures StableSort(s) == s
    decreases |s|
  {
    if s != [] {
      var init, last := s[..|s| - 1], s[|s| - 1];
      assert s == init + [last];
      assert Sorted(init);
      StableSortOfSorted(init);
      if init != [] {
        assert SortTilesIn(init[|init| - 1], last) <= 0;
      }
    }
  }

  lemma {:induction false} KeyRunMember(s: seq<TileResult>, k: SortKey, y: TileResult)
    requires y in KeyRun(s, k)
    ensures y in s && Key(y) == k
    decreases |s|
  {
    var init := s[..|s| - 1];
    assert s == init + [s[|s| - 1]];
    if y in KeyRun(init, k) {
      KeyRunMember(init, k, y);
    }
  }

  lemma KeyRunOfLast(s: seq<TileResult>)
    requires s != []
    ensures KeyRun(s, Key(s[|s| - 1])) != []
  {
  }

  /** Every element of a sorted sequence compares at most its last element. */
  lemma BelowLast(s: seq<TileResult>, y: TileResult)
    requires Sorted(s) && y in s
    ensures SortTilesIn(y, s[|s| - 1]) <= 0
  {
    var i :| 0 <= i < |s| && s[i] == y;
    if i == |s| - 1 {
      SortTilesInReflexive(y);
    }
  }

  /** Some element of `s` has key `k` when `KeyRun(s, k)` is non-empty; it compares at most the last one. */
  lemma KeyBelowLast(s: seq<TileResult>, y: TileResult)
    requires Sorted(s) && KeyRun(s, Key(y)) != []
    ensures SortTilesIn(y, s[|s| - 1]) <= 0
  {
    var run := KeyRun(s, Key(y));
    var z := run[|run| - 1];
    KeyRunMember(s, Key(y), z);
    BelowLast(s, z);
  }

  /** The run of the last element's key ends with that element. */
  lemma KeyRunEndsWithLast(s: seq<TileResult>)
    requires s != []
    ensures var run := KeyRun(s, Key(s[|s| - 1]));
      run != [] && run[|run| - 1] == s[|s| - 1]
  {
  }

  /** Sorted arrangements with the same key runs end in the same element. */
  lemma SameLast(t1: seq<TileResult>, t2: seq<TileResult>)
    requires Sorted(t1) && Sorted(t2) && t1 != [] && t2 != []
    requires SameRuns(t1, t2)
    ensures t1[|t1| - 1] == t2[|t2| - 1]
  {
    var a, b := t1[|t1| - 1], t2[|t2| - 1];
    KeyRunEndsWithLast(t1);
    KeyRunEndsWithLast(t2);
    assert KeyRun(t1, Key(a)) == KeyRun(t2, Key(a));
    assert KeyRun(t1, Key(b)) == KeyRun(t2, Key(b));
    KeyBelowLast(t2, a);
    KeyBelowLast(t1, b);
    SortTilesInAntisymmetric(a, b);
    SortTilesInZero(a, b);
    assert Key(a) == Key(b);
  }

  /** Dropping the same last element keeps the key runs equal. */
  lemma SameInitRuns(t1: seq<TileResult>, t2: seq<TileResult>)
    requires t1 != [] && t2 != [] && t1[|t1| - 1] == t2[|t2| - 1]
    requires SameRuns(t1, t2)
    ensures SameRuns(t1[..|t1| - 1], t2[..|t2| - 1])
  {
    var init1, init2, a := t1[..|t1| - 1], t2[..|t2| - 1], t1[|t1| - 1];
    assert t1 == init1 + [a] && t2 == init2 + [a];
    forall k ensures KeyRun(init1, k) == KeyRun(init2, k) {
      assert KeyRun(t1, k) == KeyRun(t2, k);
      KeyRunSnoc(init1, a, k);
      KeyRunSnoc(init2, a, k);
      var r1, r2, e := KeyRun(init1, k), KeyRun(init2, k), if Key(a) == k then [a] else [];
      assert r1 + e == r2 + e;
      assert r1 == (r1 + e)[..|r1|] && r2 == (r2 + e)[..|r2|];
    }
  }

  /**
   * Two sorted arrangements that keep each key's elements in the same order
   * are the same sequence.
   */
  lemma {:induction false} SortedArrangementUnique(t1: seq<TileResult>, t2: seq<TileResult>)
    requires Sorted(t1) && Sorted(t2)
    requires SameRuns(t1, t2)
    ensures t1 == t2
    decreases |t1| + |t2|
  {
    if t1 == [] && t2 == [] {
    } else if t1 == [] {
      KeyRunOfLast(t2);
      assert false;
    } else if t2 == [] {
      KeyRunOfLast(t1);
      assert false;
    } else {
      SameLast(t1, t2);
      SameInitRuns(t1, t2);
      SortedPrefix(t1, |t1| - 1);
      SortedPrefix(t2, |t2| - 1);
      SortedArrangementUnique(t1[..|t1| - 1], t2[..|t2| - 1]);
      assert t1 == t1[..|t1| - 1] + [t1[|t1| - 1]];
      assert t2 == t2[..|t2| - 1] + [t2[|t2| - 1]];
    }
  }

  /**
   * The model's sort is the only stable sort: any non-decreasing arrangement
   * of the input that keeps equal-keyed elements in input order is it.
   */
  lemma StableSortUnique(s: seq<TileResult>, t: seq<TileResult>)
    requires Sorted(t)
    requires SameRuns(t, s)
    ensures t == StableSort(s)
  {
    StableSortCorrect(s);
    forall k ensures KeyRun(t, k) == KeyRun(StableSort(s), k) {
      StableSortStable(s, k);
    }
    assert SameRuns(t, StableSort(s));
    SortedArrangementUnique(t, StableSort(s));
  }

  lemma SortedRemove(t: seq<TileResult>, j: nat)
    requires Sorted(t) && j < |t|
    ensures Sorted(t[..j] + t[j + 1..])
  {
    var r := t[..j] + t[j + 1..];
    forall a, b | 0 <= a < b < |r| ensures SortTilesIn(r[a], r[b]) <= 0 {
      var ia := if a < j then a else a + 1;
      var ib := if b < j then b else b + 1;
      assert r[a] == t[ia] && r[b] == t[ib];
    }
  }

  /** In a sorted sequence, everything between two elements of key `k` has key `k`. */
  lemma Squeezed(t: seq<TileResult>, j: nat, i: nat)
    requires Sorted(t) && j <= i < |t|
    requires Key(t[j]) == Key(t[|t| - 1])
    ensures Key(t[i]) == Key(t[j])
  {
    assert SortTilesIn(t[j], t[i]) <= 0 || i == j;
    assert SortTilesIn(t[i], t[|t| - 1]) <= 0 || i == |t| - 1;
    SortTilesInAntisymmetric(t[i], t[|t| - 1]);
  }

  /** Removing one element from a sorted sequence shifts the keys after it by one place. */
  lemma RemoveKeys(t: seq<TileResult>, j: nat)
    requires Sorted(t) && j < |t|
    requires Key(t[j]) == Key(t[|t| - 1])
    ensures var t' := t[..j] + t[j + 1..];
      forall i :: 0 <= i < |t'| ==> Key(t'[i]) == Key(t[i])
  {
    var t' := t[..j] + t[j + 1..];
    forall i | 0 <= i < |t'| ensures Key(t'[i]) == Key(t[i]) {
      if j <= i {
        Squeezed(t, j, i);
        Squeezed(t, j, i + 1);
        assert t'[i] == t[i + 1];
      }
    }
  }

  /** Taking the last element off `s` and the same element off `t` keeps the multisets equal. */
  lemma RemoveOne(s: seq<TileResult>, t: seq<TileResult>, j: nat)
    requires multiset(s) == multiset(t) && s != [] && j < |t| && t[j] == s[|s| - 1]
    ensures multiset(s[..|s| - 1]) == multiset(t[..j] + t[j + 1..])
  {
    var x := t[j];
    var s', lo, hi := s[..|s| - 1], t[..j], t[j + 1..];
    assert s == s' + [x];
    assert t == lo + [x] + hi;
    calc {
      multiset(s') + multiset{x};
      multiset(s);
      multiset(t);
      multiset(lo) + multiset{x} + multiset(hi);
      multiset(lo + hi) + multiset{x};
    }
    assert multiset(s') == multiset(s') + multiset{x} - multiset{x};
    assert multiset(lo + hi) == multiset(lo + hi) + multiset{x} - multiset{x};
  }

  /** The last elements of two sorted sequences with the same elements have equal keys. */
  lemma LastKeysEqual(s: seq<TileResult>, t: seq<TileResult>)
    requires Sorted(s) && Sorted(t) && |s| == |t| > 0
    requires multiset(s) == multiset(t)
    ensures Key(s[|s| - 1]) == Key(t[|t| - 1])
  {
    var a, b := s[|s| - 1], t[|t| - 1];
    assert a in multiset(t) && b in multiset(s);
    BelowLast(t, a);
    BelowLast(s, b);
    SortTilesInAntisymmetric(a, b);
    SortTilesInZero(a, b);
  }

  /**
   * Two sorted sequences holding the same elements have the same key at
   * every position: they can differ only by reordering equal-keyed elements.
   */
  lemma {:induction false} SortedSameKeys(s: seq<TileResult>, t: seq<TileResult>)
    requires Sorted(s) && Sorted(t)
    requires multiset(s) == multiset(t)
    ensures |s| == |t|
    ensures forall i :: 0 <= i < |s| ==> Key(s[i]) == Key(t[i])
    decreases |s|
  {
    assert |multiset(s)| == |s| && |multiset(t)| == |t|;
    if s != [] {
      var n := |s|;
      LastKeysEqual(s, t);
      assert s[n - 1] in multiset(t);
      var j :| 0 <= j < n && t[j] == s[n - 1];
      var s', t' := s[..n - 1], t[..j] + t[j + 1..];
      RemoveOne(s, t, j);
      SortedPrefix(s, n - 1);
      SortedRemove(t, j);
      SortedSameKeys(s', t');
      RemoveKeys(t, j);
      forall i | 0 <= i < n ensures Key(s[i]) == Key(t[i]) {
        if i < n - 1 {
          assert s[i] == s'[i];
          assert Key(s'[i]) == Key(t'[i]);
        }
      }
    }
  }

  lemma SortedPrefix(s: seq<TileResult>, n: nat)
    requires Sorted(s) && n <= |s|
    ensures Sorted(s[..n])
  {
  }

  /**
   * Reordering the enumerated tiles before the sort changes the sorted
   * result only by reordering tiles whose keys are all equal.
   */
  lemma SortPermutationInvariant(s1: seq<TileResult>, s2: seq<TileResult>)
    requires multiset(s1) == multiset(s2)
    ensures multiset(StableSort(s1)) == multiset(StableSort(s2))
    ensures |StableSort(s1)| == |StableSort(s2)|
    ensures forall i :: 0 <= i < |StableSort(s1)| ==> Key(StableSort(s1)[i]) == Key(StableSort(s2)[i])
  {
    StableSortCorrect(s1);
    StableSortCorrect(s2);
    SortedSameKeys(StableSort(s1), StableSort(s2));
  }

  /** When no two enumerated tiles share a key, the order does not depend on the enumeration order at all. */
  lemma SortDeterministic(s1: seq<TileResult>, s2: seq<TileResult>)
    requires multiset(s1) == multiset(s2)
    requires forall x, y :: x in s1 && y in s1 && Key(x) == Key(y) ==> x == y
    ensures StableSort(s1) == StableSort(s2)
  {
    SortPermutationInvariant(s1, s2);
    StableSortCorrect(s1);
    StableSortCorrect(s2);
    var r1, r2 := StableSort(s1), StableSort(s2);
    forall i | 0 <= i < |r1| ensures r1[i] == r2[i] {
      assert r1[i] in multiset(s1);
      assert r2[i] in multiset(s1);
    }
  }

  /** A tile result whose tile carries the same ID; used by the example below. */
  function ResultAt(uid: nat, z: int, y: int, wrap: int, x: int, d: IntersectionDetail): (r: TileResult)
    ensures Key(r) == (z, y, wrap, x)
  {
    var id := OverscaledTileID(z, wrap, CanonicalTileID(if z < 0 then 0 else z, x, y));
    TileResult(Tile(uid, id), id, d)
  }

  /** Ascending overscaled zoom first, then ascending y, whatever the enumeration order. */
  lemma OrderExample(d: IntersectionDetail)
    ensures var a, b, c := ResultAt(0, 2, 1, 0, 3, d), ResultAt(1, 1, 5, 0, 0, d), ResultAt(2, 2, 0, 0, 9, d);
      StableSort([a, b, c]) == [b, c, a]
  {
    var a, b, c := ResultAt(0, 2, 1, 0, 3, d), ResultAt(1, 1, 5, 0, 0, d), ResultAt(2, 2, 0, 0, 9, d);
    assert [a, b, c][..2] == [a, b] && [a, b][..1] == [a];
    assert [a][..0] == [] && [a][..1] == [a] && [b, a][..1] == [b];
    assert StableSort([a]) == [a];
    assert SortTilesIn(a, b) > 0 && SortTilesIn(a, c) > 0 && SortTilesIn(b, c) < 0;
    assert Insert([a], b) == Insert([], b) + [a];
    assert StableSort([a, b]) == [b, a];
    assert Insert([b, a], c) == Insert([b], c) + [a];
  }

  /**
   * `Insert` puts `x` right after the last element that compares at most `x`:
   * everything after position `j` compares greater and the element before it does not.
   */
  lemma {:induction false} InsertAt(prefix: seq<TileResult>, j: nat, x: TileResult)
    requires j <= |prefix|
    requires j == 0 || SortTilesIn(prefix[j - 1], x) <= 0
    requires forall k :: j <= k < |prefix| ==> SortTilesIn(prefix[k], x) > 0
    ensures Insert(prefix, x) == prefix[..j] + [x] + prefix[j..]
    decreases |prefix|
  {
    if j == |prefix| {
      assert prefix[..j] == prefix && prefix[j..] == [];
    } else {
      var init, last := prefix[..|prefix| - 1], prefix[|prefix| - 1];
      assert SortTilesIn(last, x) > 0;
      InsertAt(init, j, x);
      assert prefix[..j] == init[..j];
      assert prefix[j..] == init[j..] + [last];
    }
  }

  /**
   * The inner loop of the insertion sort: shifts the elements of the sorted
   * prefix `a[..i]` that compare greater than `a[i]` one place right and
   * puts `a[i]` in the gap.
   */
  method InsertInPlace(a: array<TileResult>, i: nat)
    requires i < a.Length
    modifies a
    ensures a[..i + 1] == Insert(old(a[..i]), old(a[i]))
    ensures a[i + 1..] == old(a[i + 1..])
  {
    ghost var prefix := a[..i];
    var x := a[i];
    var j := i;
    while j > 0 && SortTilesIn(a[j - 1], x) > 0
      invariant 0 <= j <= i
      invariant forall k :: 0 <= k < j ==> a[k] == prefix[k]
      invariant forall k :: j < k <= i ==> a[k] == prefix[k - 1]
      invariant forall k :: i < k < a.Length ==> a[k] == old(a[k])
      invariant forall k :: j <= k < i ==> SortTilesIn(prefix[k], x) > 0
    {
      a[j] := a[j - 1];
      j := j - 1;
    }
    a[j] := x;
    InsertAt(prefix, j, x);
    assert a[..i + 1] == prefix[..j] + [x] + prefix[j..] by {
      forall k | 0 <= k <= i ensures a[..i + 1][k] == (prefix[..j] + [x] + prefix[j..])[k] {
        if k < j {
        } else if k > j {
        }
      }
    }
  }

  /**
   * `tileResults.sort(sortTilesIn)`: sorts the array in place. The engine's
   * algorithm is not visible; the result of a stable sort is unique
   * (StableSortUnique), so an insertion sort produces the same array.
   */
  method SortInPlace(a: array<TileResult>)
    modifies a
    ensures a[..] == StableSort(old(a[..]))
  {
    ghost var input := a[..];
    var i := 0;
    while i < a.Length
      invariant 0 <= i <= a.Length
      invariant a[..i] == StableSort(input[..i])
      invariant a[i..] == input[i..]
    {
      assert a[i + 1..] == input[i + 1..] by {
        assert a[i..][1..] == a[i + 1..] && input[i..][1..] == input[i + 1..];
      }
      assert a[i] == input[i];
      InsertInPlace(a, i);
      assert input[..i + 1][..i] == input[..i];
      i := i + 1;
    }
    assert a[..] == a[..a.Length] && input == input[..a.Length];
  }
}
