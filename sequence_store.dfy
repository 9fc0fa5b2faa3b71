/** The Sequence Store: the mutable array of numeric keys that both sorts
    work on, its one mutator (swapping two slots), and the facts about
    sortedness, distinct keys and permutations that the partitions and the
    drivers rely on. */
module SequenceStore {

  /** s is in non-decreasing order. */
  predicate Sorted(s: seq<int>) {
    forall i, j :: 0 <= i < j < |s| ==> s[i] <= s[j]
  }

  /** No key occurs twice in s. */
  predicate Distinct(s: seq<int>) {
    forall i, j :: 0 <= i < j < |s| ==> s[i] != s[j]
  }

  /** t arises from s by rearranging the slots low..high (inclusive) only:
      the same keys overall, and every slot outside the range untouched. */
  predicate PermutedWithin(s: seq<int>, t: seq<int>, low: int, high: int) {
    |s| == |t| && multiset(s) == multiset(t) &&
    forall k :: 0 <= k < |s| && !(low <= k <= high) ==> s[k] == t[k]
  }

  /** Exchanges the keys in slots i and j; with i == j nothing changes. */
  method Swap(a: array<int>, i: int, j: int)
    requires 0 <= i < a.Length && 0 <= j < a.Length
    modifies a
    ensures a[i] == old(a[j]) && a[j] == old(a[i])
    ensures forall k :: 0 <= k < a.Length && k != i && k != j ==> a[k] == old(a[k])
    ensures i == j ==> a[..] == old(a[..])
    ensures multiset(a[..]) == multiset(old(a[..]))
  {
    var t := a[i];
    a[i] := a[j];
    a[j] := t;
  }

  /** The keys of s are those before low, those of low..high and those
      after high. */
  lemma {:induction false} MultisetSplit(s: seq<int>, low: int, high: int)
    requires 0 <= low <= high + 1 <= |s|
    ensures multiset(s) == multiset(s[..low]) + multiset(s[low..high + 1]) + multiset(s[high + 1..])
  {
    assert s == s[..low] + s[low..high + 1] + s[high + 1..];
  }

  /** When only the range low..high may differ, the whole sequences hold the
      same keys exactly when the two ranges do. */
  lemma {:induction false} PermutedRange(s: seq<int>, t: seq<int>, low: int, high: int)
    requires |s| == |t| && 0 <= low <= high + 1 <= |s|
    requires forall k :: 0 <= k < |s| && !(low <= k <= high) ==> s[k] == t[k]
    ensures multiset(s) == multiset(t) <==> multiset(s[low..high + 1]) == multiset(t[low..high + 1])
  {
    MultisetSplit(s, low, high);
    MultisetSplit(t, low, high);
    assert s[..low] == t[..low];
    assert s[high + 1..] == t[high + 1..];
    var outside := multiset(s[..low]) + multiset(s[high + 1..]);
    assert multiset(s[low..high + 1]) == multiset(s) - outside;
    assert multiset(t[low..high + 1]) == multiset(t) - outside;
  }

  /** Every key that a rearrangement of low..high leaves in that range was
      already somewhere in that range. */
  lemma PermutedFrom(s: seq<int>, t: seq<int>, low: int, high: int)
    requires PermutedWithin(s, t, low, high) && 0 <= low <= high + 1 <= |s|
    ensures forall k :: low <= k <= high ==> exists m :: low <= m <= high && t[k] == s[m]
  {
    PermutedRange(s, t, low, high);
    forall k | low <= k <= high
      ensures exists m :: low <= m <= high && t[k] == s[m]
    {
      assert t[k] == t[low..high + 1][k - low];
      assert t[k] in multiset(s[low..high + 1]);
      var i :| 0 <= i < high + 1 - low && s[low..high + 1][i] == t[k];
      assert s[low + i] == t[k];
    }
  }

  /** Two different slots holding the same key make that key occur at least
      twice. */
  lemma {:induction false} TwoSlotsCount(s: seq<int>, i: int, j: int)
    requires 0 <= i < j < |s| && s[i] == s[j]
    ensures multiset(s)[s[i]] >= 2
  {
    assert s == s[..i] + [s[i]] + s[i + 1..j] + [s[j]] + s[j + 1..];
  }

  /** A sequence has distinct keys exactly when no key occurs in it more
      than once. */
  lemma {:induction false} DistinctIffCountsAtMostOne(s: seq<int>)
    ensures Distinct(s) <==> forall x :: multiset(s)[x] <= 1
    decreases |s|
  {
    if Distinct(s) {
      if |s| > 0 {
        assert Distinct(s[1..]) by {
          forall i, j | 0 <= i < j < |s[1..]| ensures s[1..][i] != s[1..][j] {
            assert s[1..][i] == s[i + 1] && s[1..][j] == s[j + 1];
          }
        }
        DistinctIffCountsAtMostOne(s[1..]);
        assert s == [s[0]] + s[1..];
        assert s[0] !in s[1..] by {
          forall j | 0 <= j < |s[1..]| ensures s[1..][j] != s[0] {
            assert s[1..][j] == s[j + 1];
          }
        }
        forall x ensures multiset(s)[x] <= 1 {
          assert multiset(s)[x] == multiset([s[0]])[x] + multiset(s[1..])[x];
        }
      }
    } else {
      var i, j :| 0 <= i < j < |s| && s[i] == s[j];
      TwoSlotsCount(s, i, j);
    }
  }

  /** Rearranging keys keeps them distinct. */
  lemma DistinctPermuted(s: seq<int>, t: seq<int>)
    requires multiset(s) == multiset(t) && Distinct(s)
    ensures Distinct(t)
  {
    DistinctIffCountsAtMostOne(s);
    DistinctIffCountsAtMostOne(t);
  }

  /** Two sorted arrangements of the same keys start with the same key,
      their least one. */
  lemma SortedHeadsAgree(s: seq<int>, t: seq<int>)
    requires Sorted(s) && Sorted(t) && multiset(s) == multiset(t) && |s| > 0 && |t| > 0
    ensures s[0] == t[0]
  {
    assert s[0] in multiset(t);
    var i :| 0 <= i < |t| && t[i] == s[0];
    assert t[0] in multiset(s);
    var j :| 0 <= j < |s| && s[j] == t[0];
  }

  /** There is only one sorted arrangement of a multiset of keys. */
  lemma {:induction false} SortedPermutationUnique(s: seq<int>, t: seq<int>)
    requires Sorted(s) && Sorted(t) && multiset(s) == multiset(t)
    ensures s == t
    decreases |s|
  {
    assert |s| == |t| by {
      assert |multiset(s)| == |s| && |multiset(t)| == |t|;
    }
    if |s| > 0 {
      SortedHeadsAgree(s, t);
      assert s == [s[0]] + s[1..];
      assert t == [t[0]] + t[1..];
      assert multiset(s[1..]) == multiset(s) - multiset{s[0]};
      assert multiset(t[1..]) == multiset(t) - multiset{t[0]};
      SortedPermutationUnique(s[1..], t[1..]);
    }
  }

  /** Joining two sorted pieces of s that a value v separates (everything
      left of m at most v, everything from m on at least v) gives a sorted
      piece. */
  lemma SortedJoin(s: seq<int>, lo: int, m: int, hi: int, v: int)
    requires 0 <= lo <= m <= hi <= |s|
    requires Sorted(s[lo..m]) && Sorted(s[m..hi])
    requires forall k :: lo <= k < m ==> s[k] <= v
    requires forall k :: m <= k < hi ==> v <= s[k]
    ensures Sorted(s[lo..hi])
  {
    forall i, j | 0 <= i < j < hi - lo ensures s[lo..hi][i] <= s[lo..hi][j] {
      if j < m - lo {
        assert s[lo..m][i] <= s[lo..m][j];
      } else if m - lo <= i {
        assert s[m..hi][i - (m - lo)] <= s[m..hi][j - (m - lo)];
      }
    }
  }

  /** A sorted range that is rearranged into a sorted range again is left
      exactly as it was. */
  lemma SortedRangeFixed(s: seq<int>, t: seq<int>, low: int, high: int)
    requires PermutedWithin(s, t, low, high) && 0 <= low <= high + 1 <= |s|
    requires Sorted(s[low..high + 1]) && Sorted(t[low..high + 1])
    ensures s == t
  {
    PermutedRange(s, t, low, high);
    SortedPermutationUnique(s[low..high + 1], t[low..high + 1]);
    forall k | low <= k <= high ensures s[k] == t[k] {
      assert s[k] == s[low..high + 1][k - low];
    }
  }
}
