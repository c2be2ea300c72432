/** Recovering an unknown line marker as a known newline marker that it
    starts with (`sortedNLMarkers` and the loop over it in both loaders). */
module Recovery {
  import opened Outcomes

  /** Where `x` goes in a list already in descending length order: after
      every longer entry and before the first one no longer than it.
      `SortByLengthDesc` inserts each entry into the sorted rest of the
      list, which holds only entries that came after it, so entries of
      equal length keep their original order, as Python's stable
      `sorted(..., key=len, reverse=True)` keeps them. */
  function Insert(x: string, sorted: seq<string>): (r: seq<string>)
    ensures multiset(r) == multiset(sorted) + multiset{x}
    ensures |r| == |sorted| + 1
  {
    if sorted == [] || |sorted[0]| <= |x| then [x] + sorted
    else
      assert sorted == [sorted[0]] + sorted[1..];
      [sorted[0]] + Insert(x, sorted[1..])
  }

  /** `sorted(markers, key=len, reverse=True)`. */
  function SortByLengthDesc(markers: seq<string>): (r: seq<string>)
    ensures multiset(r) == multiset(markers)
  {
    if markers == [] then []
    else
      assert markers == [markers[0]] + markers[1..];
      Insert(markers[0], SortByLengthDesc(markers[1..]))
  }

  predicate LengthDescending(s: seq<string>) {
    forall i, j | 0 <= i < j < |s| :: |s[i]| >= |s[j]|
  }

  lemma {:induction false} InsertDescending(x: string, sorted: seq<string>)
    requires LengthDescending(sorted)
    ensures LengthDescending(Insert(x, sorted))
  {
    if sorted == [] || |sorted[0]| <= |x| {
    } else {
      InsertDescending(x, sorted[1..]);
      var r := Insert(x, sorted);
      var tail := Insert(x, sorted[1..]);
      assert r == [sorted[0]] + tail;
      forall k | 0 <= k < |tail|
        ensures |sorted[0]| >= |tail[k]|
      {
        assert tail[k] in multiset(tail);
        assert tail[k] in multiset(sorted[1..]) + multiset{x};
        if tail[k] != x {
          assert tail[k] in multiset(sorted[1..]);
          var m :| 0 <= m < |sorted[1..]| && sorted[1..][m] == tail[k];
          assert sorted[m + 1] == tail[k];
        }
      }
    }
  }

  /** The candidates come longest first. */
  lemma {:induction false} SortedDescending(markers: seq<string>)
    ensures LengthDescending(SortByLengthDesc(markers))
  {
    if markers != [] {
      SortedDescending(markers[1..]);
      InsertDescending(markers[0], SortByLengthDesc(markers[1..]));
    }
  }

  /** The entries of `s` whose length is `n`, in their order in `s`. */
  function WithLength(s: seq<string>, n: nat): seq<string> {
    if s == [] then []
    else (if |s[0]| == n then [s[0]] else []) + WithLength(s[1..], n)
  }

  /** Every entry that `Insert` puts in front of `x` is longer than `x`, so
      among the entries of any one length `x` comes first, and the others
      keep their order. */
  lemma {:induction false} InsertWithLength(x: string, sorted: seq<string>, n: nat)
    ensures WithLength(Insert(x, sorted), n) == (if |x| == n then [x] else []) + WithLength(sorted, n)
  {
    if sorted == [] || |sorted[0]| <= |x| {
      assert ([x] + sorted)[1..] == sorted;
    } else {
      var tail := Insert(x, sorted[1..]);
      var head: seq<string> := if |sorted[0]| == n then [sorted[0]] else [];
      var mine: seq<string> := if |x| == n then [x] else [];
      InsertWithLength(x, sorted[1..], n);
      assert Insert(x, sorted) == [sorted[0]] + tail;
      assert ([sorted[0]] + tail)[1..] == tail;
      assert WithLength(Insert(x, sorted), n) == head + (mine + WithLength(sorted[1..], n));
      assert WithLength(sorted, n) == head + WithLength(sorted[1..], n);
      assert head == [] || mine == [];
    }
  }

  /** Markers of equal length keep the order they came in, as Python's
      stable `sorted` keeps them. */
  lemma {:induction false} TiesKeepOrder(markers: seq<string>, n: nat)
    ensures WithLength(SortByLengthDesc(markers), n) == WithLength(markers, n)
  {
    if markers != [] {
      TiesKeepOrder(markers[1..], n);
      InsertWithLength(markers[0], SortByLengthDesc(markers[1..]), n);
    }
  }

  /** The first candidate that the marker starts with, as the loop over
      `sortedNLMarkers` finds it. */
  function FirstPrefix(candidates: seq<string>, marker: string): (r: Option<string>)
    ensures r.Some? ==> r.value in candidates && r.value <= marker
    ensures r.None? <==> forall k | k in candidates :: !(k <= marker)
  {
    if candidates == [] then None
    else if candidates[0] <= marker then Some(candidates[0])
    else
      assert forall k | k in candidates :: k == candidates[0] || k in candidates[1..];
      FirstPrefix(candidates[1..], marker)
  }

  /** On a longest-first list the first prefix found is a longest one. */
  lemma {:induction false} FirstPrefixLongest(candidates: seq<string>, marker: string)
    requires LengthDescending(candidates)
    requires FirstPrefix(candidates, marker).Some?
    ensures forall k | k in candidates && k <= marker :: |k| <= |FirstPrefix(candidates, marker).value|
  {
    if !(candidates[0] <= marker) {
      assert LengthDescending(candidates[1..]);
      FirstPrefixLongest(candidates[1..], marker);
      forall k | k in candidates && k <= marker
        ensures |k| <= |FirstPrefix(candidates, marker).value|
      {
        if k != candidates[0] {
          assert k in candidates[1..];
        }
      }
    }
  }

  /** Two prefixes of the same marker with the same length are equal, so the
      recovered marker is THE longest known newline marker the unknown
      marker starts with, whatever order equal lengths came in. */
  lemma RecoveredIsLongest(newlineMarkers: seq<string>, marker: string, k: string)
    requires FirstPrefix(SortByLengthDesc(newlineMarkers), marker) == Some(k)
    ensures k in newlineMarkers && k <= marker
    ensures forall k' | k' in newlineMarkers && k' <= marker :: |k'| < |k| || k' == k
  {
    var sorted := SortByLengthDesc(newlineMarkers);
    SortedDescending(newlineMarkers);
    FirstPrefixLongest(sorted, marker);
    assert k in multiset(sorted);
    forall k' | k' in newlineMarkers && k' <= marker
      ensures |k'| < |k| || k' == k
    {
      assert k' in multiset(newlineMarkers);
      assert k' in sorted;
      if |k'| == |k| {
        assert k' == marker[..|k|] == k;
      }
    }
  }

  /** No recovery happens exactly when no known newline marker is a prefix. */
  lemma NoRecoveryIff(newlineMarkers: seq<string>, marker: string)
    ensures FirstPrefix(SortByLengthDesc(newlineMarkers), marker).None? <==>
      forall k | k in newlineMarkers :: !(k <= marker)
  {
    var sorted := SortByLengthDesc(newlineMarkers);
    forall k ensures k in newlineMarkers <==> k in sorted {
      assert k in newlineMarkers <==> k in multiset(newlineMarkers);
      assert k in sorted <==> k in multiset(sorted);
    }
  }
}
