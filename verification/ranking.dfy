/**
 * The percentile filters' specification: ordering pixels by one attribute
 * (the NDVI and Ts comparators), reversal, the kept count
 * Math.round(n * p / 100 + 0.4), and what the kept prefix is.
 */
module Ranking {
  import opened Grid

  /** The attribute a comparator orders by. */
  datatype Attr = Ndvi | Ts

  function Key(p: Pixel, a: Attr): real
  {
    match a
    case Ndvi => p.ndvi
    case Ts => p.ts
  }

  predicate SortedBy(s: seq<Pixel>, a: Attr)
  {
    forall i, j :: 0 <= i < j < |s| ==> Key(s[i], a) <= Key(s[j], a)
  }

  predicate DescendingBy(s: seq<Pixel>, a: Attr)
  {
    forall i, j :: 0 <= i < j < |s| ==> Key(s[i], a) >= Key(s[j], a)
  }

  /** Places x before the first element whose key is not smaller, so earlier equal elements stay first. */
  function Insert(x: Pixel, s: seq<Pixel>, a: Attr): seq<Pixel>
  {
    if s == [] then [x]
    else if Key(x, a) <= Key(s[0], a) then [x] + s
    else [s[0]] + Insert(x, s[1..], a)
  }

  /** A stable ascending sort (the order the list sort with an attribute comparator produces). */
  function SortBy(s: seq<Pixel>, a: Attr): seq<Pixel>
  {
    if s == [] then [] else Insert(s[0], SortBy(s[1..], a), a)
  }

  function Reverse(s: seq<Pixel>): (r: seq<Pixel>)
  {
    if s == [] then [] else Reverse(s[1..]) + [s[0]]
  }

  /** Java's Math.round for the values met here: the nearest integer, halves rounded up. */
  function Round(x: real): int
  {
    (x + 0.5).Floor
  }

  /** How many entries a filter keeps out of n for a percentage p. */
  function FilterCount(n: nat, p: real): int
  {
    Round((n as real) * (p / 100.0) + 0.4)
  }

  /** The pixels with strictly positive NDVI, in order. */
  function PositiveNdvi(s: seq<Pixel>): seq<Pixel>
  {
    if s == [] then []
    else PositiveNdvi(s[..|s| - 1]) + (if s[|s| - 1].ndvi <= 0.0 then [] else [s[|s| - 1]])
  }

  /** Removes the first occurrence of x, as a list's remove(Object) does. */
  function RemoveFirst(s: seq<Pixel>, x: Pixel): seq<Pixel>
  {
    if s == [] then []
    else if s[0] == x then s[1..]
    else [s[0]] + RemoveFirst(s[1..], x)
  }

  /** The filters' results: a prefix of the sorted (or sorted and reversed) pool. */
  function Smallest(s: seq<Pixel>, a: Attr, p: real): seq<Pixel>
    requires 0.0 <= p <= 100.0
  {
    FilterCountBounds(|s|, p);
    SortByPermutation(s, a);
    SortBy(s, a)[..FilterCount(|s|, p)]
  }

  function Biggest(s: seq<Pixel>, a: Attr, p: real): seq<Pixel>
    requires 0.0 <= p <= 100.0
  {
    FilterCountBounds(|s|, p);
    ReverseLength(SortBy(s, a));
    SortByPermutation(s, a);
    Reverse(SortBy(s, a))[..FilterCount(|s|, p)]
  }

  function SmallestPositiveNdvi(s: seq<Pixel>, p: real): seq<Pixel>
    requires 0.0 <= p <= 100.0
  {
    var t := PositiveNdvi(SortBy(s, Ndvi));
    FilterCountBounds(|t|, p);
    t[..FilterCount(|t|, p)]
  }

  // ---------------------------------------------------------------- counts

  /** A filter keeps between 0 and n entries, so reading the first FilterCount entries stays in range. */
  lemma FilterCountBounds(n: nat, p: real)
    requires 0.0 <= p <= 100.0
    ensures 0 <= FilterCount(n, p) <= n
  {
    var x := (n as real) * (p / 100.0);
    assert 0.0 <= x <= n as real by {
      assert 0.0 <= p / 100.0 <= 1.0;
      assert (n as real) - x == (n as real) * (1.0 - p / 100.0);
    }
  }

  /** The +0.4 bias and rounding: 5% of one pixel keeps none, 10% of 23 keeps 3, 50% of 6 keeps 3. */
  lemma FilterCountExamples()
    ensures FilterCount(1, 5.0) == 0
    ensures FilterCount(23, 10.0) == 3
    ensures FilterCount(6, 50.0) == 3
    ensures FilterCount(0, 20.0) == 0
  {
  }

  // ---------------------------------------------------------------- sorting

  lemma {:induction false} InsertPermutation(x: Pixel, s: seq<Pixel>, a: Attr)
    ensures multiset(Insert(x, s, a)) == multiset(s) + multiset{x}
  {
    if s == [] {
      assert Insert(x, s, a) == [x];
    } else {
      var head, tail := s[0], s[1..];
      assert s == [head] + tail;
      if Key(x, a) <= Key(head, a) {
        assert Insert(x, s, a) == [x] + s;
      } else {
        var ins := Insert(x, tail, a);
        InsertPermutation(x, tail, a);
        assert Insert(x, s, a) == [head] + ins;
        assert multiset([head] + ins) == multiset{head} + multiset(ins);
        assert multiset(s) == multiset{head} + multiset(tail);
      }
    }
  }

  lemma {:induction false} InsertSorted(x: Pixel, s: seq<Pixel>, a: Attr)
    requires SortedBy(s, a)
    ensures SortedBy(Insert(x, s, a), a)
    ensures |Insert(x, s, a)| == |s| + 1
    ensures Insert(x, s, a)[0] == x || (s != [] && Insert(x, s, a)[0] == s[0])
  {
    if s != [] && Key(x, a) > Key(s[0], a) {
      var t := Insert(x, s[1..], a);
      InsertSorted(x, s[1..], a);
      assert Key(s[0], a) <= Key(t[0], a);
      assert Insert(x, s, a) == [s[0]] + t;
    }
  }

  /** The sort orders by the attribute and keeps every pixel, with its multiplicity. */
  lemma SortByPermutation(s: seq<Pixel>, a: Attr)
    ensures SortedBy(SortBy(s, a), a)
    ensures multiset(SortBy(s, a)) == multiset(s)
    ensures |SortBy(s, a)| == |s|
  {
    SortBySorted(s, a);
    SortByMultiset(s, a);
  }

  lemma {:induction false} SortBySorted(s: seq<Pixel>, a: Attr)
    ensures SortedBy(SortBy(s, a), a)
    ensures |SortBy(s, a)| == |s|
  {
    if s != [] {
      SortBySorted(s[1..], a);
      InsertSorted(s[0], SortBy(s[1..], a), a);
    }
  }

  lemma {:induction false} SortByMultiset(s: seq<Pixel>, a: Attr)
    ensures multiset(SortBy(s, a)) == multiset(s)
  {
    if s != [] {
      var rest := SortBy(s[1..], a);
      SortByMultiset(s[1..], a);
      InsertPermutation(s[0], rest, a);
      assert multiset(s) == multiset{s[0]} + multiset(s[1..]) by {
        assert s == [s[0]] + s[1..];
      }
    }
  }

  lemma {:induction false} ReverseLength(s: seq<Pixel>)
    ensures |Reverse(s)| == |s|
  {
    if s != [] {
      ReverseLength(s[1..]);
    }
  }

  /** Reversal puts entry i at position |s| - 1 - i. */
  lemma {:induction false} ReverseAt(s: seq<Pixel>)
    ensures |Reverse(s)| == |s|
    ensures forall i :: 0 <= i < |s| ==> Reverse(s)[i] == s[|s| - 1 - i]
  {
    if s != [] {
      ReverseAt(s[1..]);
    }
  }

  lemma {:induction false} ReversePermutation(s: seq<Pixel>)
    ensures multiset(Reverse(s)) == multiset(s)
  {
    if s != [] {
      ReversePermutation(s[1..]);
      assert s == [s[0]] + s[1..];
    }
  }

  /** Reversing an ascending list gives a descending one. */
  lemma ReverseDescending(s: seq<Pixel>, a: Attr)
    requires SortedBy(s, a)
    ensures DescendingBy(Reverse(s), a)
  {
    ReverseAt(s);
  }

  // ---------------------------------------------------------------- NDVI clean-up

  /** The clean-up keeps every pixel with positive NDVI, as often as it occurs, and nothing else. */
  lemma {:induction false} PositiveNdviMembers(s: seq<Pixel>)
    ensures forall x :: multiset(PositiveNdvi(s))[x] == if x.ndvi > 0.0 then multiset(s)[x] else 0
  {
    if s != [] {
      var init := s[..|s| - 1];
      PositiveNdviMembers(init);
      assert s == init + [s[|s| - 1]];
    }
  }

  /** Every pixel the clean-up keeps has positive NDVI. */
  lemma PositiveNdviPositive(s: seq<Pixel>)
    ensures forall k :: 0 <= k < |PositiveNdvi(s)| ==> PositiveNdvi(s)[k].ndvi > 0.0
  {
    PositiveNdviMembers(s);
    forall k | 0 <= k < |PositiveNdvi(s)| ensures PositiveNdvi(s)[k].ndvi > 0.0 {
      assert PositiveNdvi(s)[k] in multiset(PositiveNdvi(s));
    }
  }

  /** Keeping the positive pixels preserves the relative order of a sorted list. */
  lemma {:induction false} PositiveNdviSorted(s: seq<Pixel>, a: Attr)
    requires SortedBy(s, a)
    ensures SortedBy(PositiveNdvi(s), a)
  {
    if s != [] {
      var init := s[..|s| - 1];
      PositiveNdviSorted(init, a);
      PositiveNdviSubset(init);
    }
  }

  lemma {:induction false} PositiveNdviSubset(s: seq<Pixel>)
    ensures forall k :: 0 <= k < |PositiveNdvi(s)| ==> PositiveNdvi(s)[k] in s
  {
    if s != [] {
      PositiveNdviSubset(s[..|s| - 1]);
    }
  }

  /** Removing the first occurrence of a pixel that is absent from the front part leaves the front part alone. */
  lemma {:induction false} RemoveFirstAfter(front: seq<Pixel>, back: seq<Pixel>, x: Pixel)
    requires x !in front
    ensures RemoveFirst(front + back, x) == front + RemoveFirst(back, x)
  {
    if front != [] {
      RemoveFirstAfter(front[1..], back, x);
      assert (front + back)[1..] == front[1..] + back;
    } else {
      assert front + back == back;
    }
  }

  // ---------------------------------------------------------------- what the filters keep

  /**
   * The "smallest" filter keeps FilterCount(n, p) pixels of the pool, and no
   * dropped pixel has a smaller key than a kept one.
   */
  lemma SmallestKeepsLowest(s: seq<Pixel>, a: Attr, p: real)
    requires 0.0 <= p <= 100.0
    ensures |Smallest(s, a, p)| == FilterCount(|s|, p)
    ensures multiset(Smallest(s, a, p)) <= multiset(s)
    ensures forall x, y ::
      (x in Smallest(s, a, p) && y in multiset(s) - multiset(Smallest(s, a, p))) ==> Key(x, a) <= Key(y, a)
  {
    var t := SortBy(s, a);
    SortByPermutation(s, a);
    FilterCountBounds(|s|, p);
    var c := FilterCount(|s|, p);
    PrefixSplit(t, c);
    forall x, y | x in t[..c] && y in multiset(s) - multiset(t[..c]) ensures Key(x, a) <= Key(y, a) {
      assert y in t[c..];
      var i :| 0 <= i < c && t[i] == x;
      var j :| 0 <= j < |t| - c && t[c..][j] == y;
      assert t[c + j] == y;
    }
  }

  /**
   * The "biggest" filter keeps FilterCount(n, p) pixels of the pool, and no
   * dropped pixel has a bigger key than a kept one.
   */
  lemma BiggestKeepsHighest(s: seq<Pixel>, a: Attr, p: real)
    requires 0.0 <= p <= 100.0
    ensures |Biggest(s, a, p)| == FilterCount(|s|, p)
    ensures multiset(Biggest(s, a, p)) <= multiset(s)
    ensures forall x, y ::
      (x in Biggest(s, a, p) && y in multiset(s) - multiset(Biggest(s, a, p))) ==> Key(x, a) >= Key(y, a)
  {
    var t := SortBy(s, a);
    SortByPermutation(s, a);
    var r := Reverse(t);
    ReversePermutation(t);
    ReverseDescending(t, a);
    ReverseLength(t);
    FilterCountBounds(|s|, p);
    var c := FilterCount(|s|, p);
    PrefixSplit(r, c);
    DescendingPrefixDominates(r, c, a);
    forall x, y | x in r[..c] && y in multiset(s) - multiset(r[..c]) ensures Key(x, a) >= Key(y, a) {
      assert y in r[c..];
    }
  }

  /** In a descending list, every entry of a prefix has a key at least that of every later entry. */
  lemma DescendingPrefixDominates(r: seq<Pixel>, c: int, a: Attr)
    requires DescendingBy(r, a) && 0 <= c <= |r|
    ensures forall x, y :: x in r[..c] && y in r[c..] ==> Key(x, a) >= Key(y, a)
  {
    forall x, y | x in r[..c] && y in r[c..] ensures Key(x, a) >= Key(y, a) {
      var i :| 0 <= i < c && r[i] == x;
      var j :| 0 <= j < |r| - c && r[c..][j] == y;
      assert r[c + j] == y;
    }
  }

  /**
   * The NDVI "smallest" filter keeps only positive-NDVI pixels of the pool and
   * counts its percentage on those alone.
   */
  lemma SmallestPositiveNdviSize(s: seq<Pixel>, p: real)
    requires 0.0 <= p <= 100.0
    ensures |SmallestPositiveNdvi(s, p)| == FilterCount(|PositiveNdvi(s)|, p)
    ensures multiset(SmallestPositiveNdvi(s, p)) <= multiset(s)
    ensures forall k :: 0 <= k < |SmallestPositiveNdvi(s, p)| ==> SmallestPositiveNdvi(s, p)[k].ndvi > 0.0
  {
    var sorted := SortBy(s, Ndvi);
    SortByPermutation(s, Ndvi);
    var t := PositiveNdvi(sorted);
    PositiveNdviPositive(sorted);
    PositiveNdviSameCount(s, sorted);
    PositiveNdviMembers(sorted);
    FilterCountBounds(|t|, p);
    var c := FilterCount(|t|, p);
    var r := t[..c];
    assert r == SmallestPositiveNdvi(s, p);
    PrefixSplit(t, c);
    assert multiset(t) <= multiset(s) by {
      forall x ensures multiset(t)[x] <= multiset(s)[x] { }
    }
  }

  /** No positive-NDVI pixel that the NDVI "smallest" filter drops has a smaller NDVI than a kept one. */
  lemma SmallestPositiveNdviKeepsLowest(s: seq<Pixel>, p: real)
    requires 0.0 <= p <= 100.0
    ensures forall x, y ::
      (x in SmallestPositiveNdvi(s, p) && y in multiset(PositiveNdvi(s)) - multiset(SmallestPositiveNdvi(s, p)))
      ==> x.ndvi <= y.ndvi
  {
    var sorted := SortBy(s, Ndvi);
    SortByPermutation(s, Ndvi);
    var t := PositiveNdvi(sorted);
    PositiveNdviSorted(sorted, Ndvi);
    PositiveNdviMembers(sorted);
    PositiveNdviMembers(s);
    assert multiset(t) == multiset(PositiveNdvi(s));
    FilterCountBounds(|t|, p);
    var c := FilterCount(|t|, p);
    var r := t[..c];
    assert r == SmallestPositiveNdvi(s, p);
    forall x, y | x in r && y in multiset(t) - multiset(r) ensures x.ndvi <= y.ndvi {
      SortedPrefixBelow(t, c, Ndvi, x, y);
    }
  }

  /** In an ascending list, an entry of a prefix is not above an entry left over after it, duplicates included. */
  lemma SortedPrefixBelow(t: seq<Pixel>, c: int, a: Attr, x: Pixel, y: Pixel)
    requires SortedBy(t, a) && 0 <= c <= |t|
    requires x in t[..c] && y in multiset(t) - multiset(t[..c])
    ensures Key(x, a) <= Key(y, a)
  {
    PrefixSplit(t, c);
    assert y in multiset(t[c..]);
    assert y in t[c..];
    var i :| 0 <= i < c && t[i] == x;
    var j :| 0 <= j < |t| - c && t[c..][j] == y;
    assert t[c + j] == y;
  }

  /** Two orderings of the same pixels keep the same number of positive-NDVI pixels. */
  lemma PositiveNdviSameCount(s: seq<Pixel>, sorted: seq<Pixel>)
    requires multiset(sorted) == multiset(s)
    ensures |PositiveNdvi(sorted)| == |PositiveNdvi(s)|
  {
    PositiveNdviMembers(sorted);
    PositiveNdviMembers(s);
    assert multiset(PositiveNdvi(sorted)) == multiset(PositiveNdvi(s));
    assert |multiset(PositiveNdvi(sorted))| == |multiset(PositiveNdvi(s))|;
  }

  /** A prefix and the rest of a list split its multiset. */
  lemma PrefixSplit(t: seq<Pixel>, c: int)
    requires 0 <= c <= |t|
    ensures multiset(t[..c]) + multiset(t[c..]) == multiset(t)
  {
    assert t[..c] + t[c..] == t;
  }
}
