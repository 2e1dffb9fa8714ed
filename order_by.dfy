/** The meaning of `ORDER BY <column> DESC` in SQLite: the selected rows in
    non-increasing order of the column. SQLite leaves the order among equal
    keys unspecified; `SortDesc` returns one such order. Where keys may tie,
    only its contract (sorted, same multiset) describes what SQLite returns;
    where keys are distinct, `DescendingOrderUnique` shows that there is only
    one such order. */
module OrderBy {

  /** `s` is in non-increasing order of `key`. */
  predicate SortedDesc<T>(s: seq<T>, key: T -> int) {
    forall i, j :: 0 <= i < j < |s| ==> key(s[i]) >= key(s[j])
  }

  /** The keys of `s` strictly increase along the sequence. */
  predicate StrictlyAscending<T>(s: seq<T>, key: T -> int) {
    forall i, j :: 0 <= i < j < |s| ==> key(s[i]) < key(s[j])
  }

  function Reversed<T>(s: seq<T>): (r: seq<T>)
    ensures |r| == |s|
    ensures forall i :: 0 <= i < |s| ==> r[i] == s[|s| - 1 - i]
  {
    if s == [] then [] else Reversed(s[1..]) + [s[0]]
  }

  /** Inserts `x` into the sorted `s`, in front of every element whose key
      does not exceed its own. */
  function InsertDesc<T>(x: T, s: seq<T>, key: T -> int): (r: seq<T>)
    requires SortedDesc(s, key)
    ensures SortedDesc(r, key)
    ensures multiset(r) == multiset(s) + multiset{x}
    ensures r[0] == x || (s != [] && r[0] == s[0])
  {
    if s == [] then [x]
    else if key(x) >= key(s[0]) then
      ConsSorted(x, s, key);
      [x] + s
    else
      assert s == [s[0]] + s[1..];
      var rest := InsertDesc(x, s[1..], key);
      ConsSorted(s[0], rest, key);
      [s[0]] + rest
  }

  /** Putting an element no smaller than the head in front keeps the order. */
  lemma ConsSorted<T>(h: T, t: seq<T>, key: T -> int)
    requires SortedDesc(t, key)
    requires t != [] ==> key(h) >= key(t[0])
    ensures SortedDesc([h] + t, key)
  {
    var r := [h] + t;
    forall i, j | 0 <= i < j < |r| ensures key(r[i]) >= key(r[j]) {
      if i == 0 && j > 1 {
        assert key(t[0]) >= key(t[j - 1]);
      }
    }
  }

  /** The rows of `s` ordered by `key`, largest first. */
  function SortDesc<T>(s: seq<T>, key: T -> int): (r: seq<T>)
    ensures SortedDesc(r, key)
    ensures multiset(r) == multiset(s)
  {
    if s == [] then []
    else
      assert s == [s[0]] + s[1..];
      InsertDesc(s[0], SortDesc(s[1..], key), key)
  }

  /** An element whose key is below every key of `s` goes last. */
  lemma {:induction false} InsertBelowAll<T>(x: T, s: seq<T>, key: T -> int)
    requires SortedDesc(s, key)
    requires forall y :: y in s ==> key(x) < key(y)
    ensures InsertDesc(x, s, key) == s + [x]
  {
    if s != [] {
      assert s[0] in s;
      InsertBelowAll(x, s[1..], key);
      assert s == [s[0]] + s[1..];
    }
  }

  /** When the keys strictly increase along the input, the descending order
      is determined and is the input reversed: the last row comes first. */
  lemma {:induction false} AscendingSortsToReversed<T>(s: seq<T>, key: T -> int)
    requires StrictlyAscending(s, key)
    ensures SortDesc(s, key) == Reversed(s)
  {
    if s != [] {
      var tail := s[1..];
      assert StrictlyAscending(tail, key);
      AscendingSortsToReversed(tail, key);
      var sorted := SortDesc(tail, key);
      forall y | y in sorted ensures key(s[0]) < key(y) {
        assert y in multiset(sorted);
        assert y in tail;
      }
      InsertBelowAll(s[0], sorted, key);
    }
  }

  /** With strictly ascending keys there is exactly one descending order:
      every sorted rearrangement of `s` is `s` reversed. */
  lemma {:induction false} DescendingOrderUnique<T>(s: seq<T>, r: seq<T>, key: T -> int)
    requires StrictlyAscending(s, key)
    requires SortedDesc(r, key)
    requires multiset(r) == multiset(s)
    ensures r == Reversed(s)
    decreases |s|
  {
    if s != [] {
      var init := s[..|s| - 1];
      LastComesFirst(s, r, key);
      RemoveHead(s, r);
      assert StrictlyAscending(init, key);
      assert SortedDesc(r[1..], key);
      DescendingOrderUnique(init, r[1..], key);
      ReversedSnoc(s, r);
    }
  }

  /** The last element of a strictly ascending `s` heads its descending order. */
  lemma LastComesFirst<T>(s: seq<T>, r: seq<T>, key: T -> int)
    requires StrictlyAscending(s, key)
    requires SortedDesc(r, key)
    requires multiset(r) == multiset(s)
    requires s != []
    ensures r != [] && r[0] == s[|s| - 1]
  {
    var n := |s|;
    assert s[n - 1] in multiset(r);
    assert r[0] in multiset(s) by {
      assert r[0] in r;
    }
    var j :| 0 <= j < n && s[j] == r[0];
    HeadIsLargest(r, key, s[n - 1]);
    assert j == n - 1;
  }

  lemma RemoveHead<T>(s: seq<T>, r: seq<T>)
    requires multiset(r) == multiset(s)
    requires s != [] && r != [] && r[0] == s[|s| - 1]
    ensures multiset(r[1..]) == multiset(s[..|s| - 1])
  {
    var init := s[..|s| - 1];
    assert r == [r[0]] + r[1..];
    assert s == init + [r[0]];
    calc {
      multiset(r[1..]);
      multiset(r) - multiset{r[0]};
      multiset(init + [r[0]]) - multiset{r[0]};
      multiset(init);
    }
  }

  lemma ReversedSnoc<T>(s: seq<T>, r: seq<T>)
    requires s != [] && r != [] && r[0] == s[|s| - 1]
    requires r[1..] == Reversed(s[..|s| - 1])
    ensures r == Reversed(s)
  {
    var n := |s|;
    forall i | 0 <= i < n ensures r[i] == Reversed(s)[i] {
      if i > 0 {
        assert r[i] == r[1..][i - 1];
      }
    }
  }

  /** The first element of a non-empty sorted sequence has the largest key. */
  lemma HeadIsLargest<T>(s: seq<T>, key: T -> int, y: T)
    requires SortedDesc(s, key)
    requires y in s
    ensures key(s[0]) >= key(y)
  {
    var j :| 0 <= j < |s| && s[j] == y;
    if j > 0 {
      assert key(s[0]) >= key(s[j]);
    }
  }

  /** An element whose key exceeds every other key heads the descending order. */
  lemma LargestComesFirst<T>(s: seq<T>, rest: seq<T>, x: T, key: T -> int)
    requires SortedDesc(s, key)
    requires multiset(s) == multiset(rest + [x])
    requires forall y :: y in rest ==> key(y) < key(x)
    ensures s != [] && s[0] == x
  {
    assert x in rest + [x];
    assert x in multiset(s);
    HeadIsLargest(s, key, x);
    assert s[0] in multiset(rest + [x]);
    if s[0] in rest {
      assert false;
    }
  }

  /** Two rows with different keys come out larger first. */
  lemma SortTwo<T>(lo: T, hi: T, key: T -> int)
    requires key(lo) < key(hi)
    ensures SortDesc([lo, hi], key) == [hi, lo]
  {
    var s := [lo, hi];
    assert s[1..] == [hi];
    assert [hi][1..] == [];
    assert SortDesc([hi], key) == [hi];
    InsertBelowAll(lo, [hi], key);
  }
}
