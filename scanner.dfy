/** getMarkerListFromText: finding the markers in one line of USFM text. */
module MarkerScan {
  import opened Outcomes
  import opened PyStrings

  /** One marker found: the text after the backslash up to the next space or
      '*', the character that ended it (" ", "*" or "" at the end of the
      text), and the index of its backslash. */
  datatype MarkerHit = MarkerHit(marker: string, next: string, index: nat)

  /** The index of the first ' ' or '*' at or after `iy`, or the length. */
  function MarkerEnd(text: string, iy: nat): (r: nat)
    requires iy <= |text|
    ensures iy <= r <= |text|
    ensures r < |text| ==> text[r] == ' ' || text[r] == '*'
    ensures forall k | iy <= k < r :: text[k] != ' ' && text[k] != '*'
    decreases |text| - iy
  {
    if iy == |text| || text[iy] == ' ' || text[iy] == '*' then iy else MarkerEnd(text, iy + 1)
  }

  /** What the backslash at `ix` contributes: nothing when a space or '*'
      follows it, a bare backslash entry when it ends the text, and otherwise
      the marker it opens. */
  function HitAt(text: string, ix: nat): Option<MarkerHit>
    requires ix < |text| && text[ix] == '\\'
  {
    if ix + 1 == |text| then Some(MarkerHit("\\", "", ix))
    else if text[ix + 1] == ' ' || text[ix + 1] == '*' then None
    else
      var end := MarkerEnd(text, ix + 2);
      Some(MarkerHit(text[ix + 1..end], if end < |text| then [text[end]] else "", ix))
  }

  /** Whether the backslash at `ix` yields an entry. */
  predicate Yields(text: string, ix: nat) {
    ix < |text| && text[ix] == '\\' && !(ix + 1 < |text| && (text[ix + 1] == ' ' || text[ix + 1] == '*'))
  }

  /** The entries of the backslashes at or after `from`, in order. */
  function Scan(text: string, from: nat): seq<MarkerHit>
    decreases |text| - from
  {
    if from >= |text| then []
    else if text[from] != '\\' then Scan(text, from + 1)
    else HitList(HitAt(text, from)) + Scan(text, from + 1)
  }

  function HitList(h: Option<MarkerHit>): seq<MarkerHit> {
    if h.Some? then [h.value] else []
  }

  function MarkerList(text: string): seq<MarkerHit> {
    Scan(text, 0)
  }

  /** Scanning from `from` starts at the first backslash found from there. */
  lemma {:induction false} ScanSkip(text: string, from: nat)
    ensures Find(text, '\\', from) == -1 ==> Scan(text, from) == []
    ensures Find(text, '\\', from) != -1 ==> Scan(text, from) == Scan(text, Find(text, '\\', from))
    decreases |text| - from
  {
    if from < |text| && text[from] != '\\' {
      ScanSkip(text, from + 1);
    }
  }

  lemma ScanStep(text: string, ix: nat, before: seq<MarkerHit>, all: seq<MarkerHit>)
    requires ix < |text| && text[ix] == '\\'
    requires all == before + Scan(text, ix)
    ensures all == (before + HitList(HitAt(text, ix))) + Scan(text, ix + 1)
  {
  }

  /** The inner loop of the scanner: what the backslash at `ix` yields. */
  method MarkerAt(text: string, ix: nat) returns (hit: Option<MarkerHit>)
    requires ix < |text| && text[ix] == '\\'
    ensures hit == HitAt(text, ix)
  {
    var textLength := |text|;
    var marker := "";
    var iy := ix + 1;
    if iy < textLength {
      var c1 := text[iy];
      if c1 == ' ' {
        return None;  // an invalid "\ ", logged by the source
      } else if c1 == '*' {
        return None;  // an invalid "\*", logged by the source
      }
      marker := marker + [c1];
      iy := iy + 1;
      while iy < textLength
        invariant ix + 2 <= iy <= |text|
        invariant marker == text[ix + 1..iy]
        invariant MarkerEnd(text, ix + 2) == MarkerEnd(text, iy)
      {
        var c := text[iy];
        if c == ' ' {
          return Some(MarkerHit(marker, " ", ix));
        } else if c == '*' {
          return Some(MarkerHit(marker, "*", ix));
        }
        marker := marker + [c];
        iy := iy + 1;
      }
      return Some(MarkerHit(marker, "", ix));
    }
    // a backslash at the end of the line, logged by the source
    return Some(MarkerHit("\\", "", ix));
  }

  /** The scanning loop: find each backslash in turn and keep what it yields. */
  method GetMarkerListFromText(text: string) returns (result: seq<MarkerHit>)
    ensures result == MarkerList(text)
  {
    ghost var all := MarkerList(text);
    result := [];
    var ix := Find(text, '\\', 0);
    ScanSkip(text, 0);
    while ix != -1
      invariant ix == -1 ==> result == all
      invariant ix != -1 ==> 0 <= ix < |text| && text[ix] == '\\' && all == result + Scan(text, ix)
      decreases if ix == -1 then 0 else |text| + 1 - ix
    {
      var hit := MarkerAt(text, ix);
      ScanStep(text, ix, result, all);
      result := result + HitList(hit);
      ScanSkip(text, ix + 1);
      ix := Find(text, '\\', ix + 1);
    }
  }
}

/** What the scanner's entries mean. */
module MarkerScanProofs {
  import opened Outcomes
  import opened PyStrings
  import opened MarkerScan

  /** Each entry of `Scan(text, from)` is the entry of a yielding backslash
      at or after `from`. */
  lemma {:induction false} ScanSound(text: string, from: nat)
    ensures forall h | h in Scan(text, from) ::
      from <= h.index && Yields(text, h.index) && HitAt(text, h.index) == Some(h)
    decreases |text| - from
  {
    if from < |text| {
      ScanSound(text, from + 1);
    }
  }

  /** The number of backslashes at or after `from`. */
  function Backslashes(text: string, from: nat): nat
    decreases |text| - from
  {
    if from >= |text| then 0 else (if text[from] == '\\' then 1 else 0) + Backslashes(text, from + 1)
  }

  /** Each backslash gives at most one entry. */
  lemma {:induction false} ScanBounded(text: string, from: nat)
    ensures |Scan(text, from)| <= Backslashes(text, from)
    decreases |text| - from
  {
    if from < |text| {
      ScanBounded(text, from + 1);
    }
  }

  predicate Increasing(r: seq<MarkerHit>) {
    forall i, j | 0 <= i < j < |r| :: r[i].index < r[j].index
  }

  lemma ConsIncreasing(h: MarkerHit, rest: seq<MarkerHit>)
    requires Increasing(rest)
    requires forall g | g in rest :: h.index < g.index
    ensures Increasing([h] + rest)
  {
    var r := [h] + rest;
    forall i, j | 0 <= i < j < |r|
      ensures r[i].index < r[j].index
    {
      assert r[j] == rest[j - 1];
      if i > 0 {
        assert r[i] == rest[i - 1];
      } else {
        assert rest[j - 1] in rest;
      }
    }
  }

  /** The entries come in the order of their backslashes. */
  lemma {:induction false} ScanOrdered(text: string, from: nat)
    ensures Increasing(Scan(text, from))
    decreases |text| - from
  {
    if from < |text| {
      ScanOrdered(text, from + 1);
      if text[from] == '\\' && HitAt(text, from).Some? {
        ScanSound(text, from + 1);
        ConsIncreasing(HitAt(text, from).value, Scan(text, from + 1));
      }
    }
  }

  /** Every yielding backslash at or after `from` has its entry. */
  lemma {:induction false} ScanComplete(text: string, from: nat, jx: nat)
    requires from <= jx && Yields(text, jx)
    ensures exists i | 0 <= i < |Scan(text, from)| :: Scan(text, from)[i].index == jx
    decreases |text| - from
  {
    var r := Scan(text, from);
    var rest := Scan(text, from + 1);
    if jx == from {
      assert r[0].index == jx;
    } else {
      ScanComplete(text, from + 1, jx);
      var i :| 0 <= i < |rest| && rest[i].index == jx;
      if text[from] == '\\' && HitAt(text, from).Some? {
        assert r[i + 1] == rest[i];
      } else {
        assert r[i] == rest[i];
      }
    }
  }

  /** A backslash yields an entry of the scan exactly when it is not followed
      by a space or '*'; the entries come in text order. */
  lemma MarkerListEntries(text: string)
    ensures Increasing(MarkerList(text))
    ensures var r := MarkerList(text);
      (forall ix: nat :: (exists i | 0 <= i < |r| :: r[i].index == ix) <==> Yields(text, ix))
  {
    var r := MarkerList(text);
    ScanOrdered(text, 0);
    ScanSound(text, 0);
    forall ix: nat
      ensures (exists i | 0 <= i < |r| :: r[i].index == ix) <==> Yields(text, ix)
    {
      if Yields(text, ix) {
        ScanComplete(text, 0, ix);
      }
      if exists i | 0 <= i < |r| :: r[i].index == ix {
        var i :| 0 <= i < |r| && r[i].index == ix;
        assert r[i] in r;
      }
    }
  }

  /** The shape of each entry: a bare backslash at the end of the text, or the
      non-empty run of characters up to the next space or '*'. */
  lemma MarkerListShapes(text: string, i: nat)
    requires i < |MarkerList(text)|
    ensures var h := MarkerList(text)[i];
      && h.index < |text| && text[h.index] == '\\'
      && h.next in {" ", "*", ""}
      && (h.index + 1 == |text| ==> h == MarkerHit("\\", "", h.index))
      && (h.index + 1 < |text| ==>
            && h.marker != [] && h.index + 1 + |h.marker| <= |text|
            && h.marker == text[h.index + 1..h.index + 1 + |h.marker|]
            && (forall k | 0 <= k < |h.marker| :: h.marker[k] != ' ' && h.marker[k] != '*')
            && (h.next == "" <==> h.index + 1 + |h.marker| == |text|)
            && (h.next != "" ==> h.next == [text[h.index + 1 + |h.marker|]]))
  {
    ScanSound(text, 0);
    var h := MarkerList(text)[i];
    assert h in MarkerList(text);
  }

  /** Text without backslashes contributes no entries. */
  lemma {:induction false} ScanSkipsPlainText(text: string, from: nat, to: nat)
    requires from <= to <= |text|
    requires forall k | from <= k < to :: text[k] != '\\'
    ensures Scan(text, from) == Scan(text, to)
    decreases |text| - from
  {
    if from < to {
      ScanSkipsPlainText(text, from + 1, to);
    }
  }

  /** A marker ended by a space. */
  lemma HitBeforeSpace(text: string, ix: nat, end: nat)
    requires ix + 1 < end < |text| && text[ix] == '\\' && text[end] == ' '
    requires forall k | ix + 1 <= k < end :: text[k] != ' ' && text[k] != '*'
    ensures HitAt(text, ix) == Some(MarkerHit(text[ix + 1..end], " ", ix))
    ensures Scan(text, ix) == [MarkerHit(text[ix + 1..end], " ", ix)] + Scan(text, ix + 1)
  {
    MarkerEndAt(text, ix + 2, end);
  }

  lemma {:induction false} MarkerEndAt(text: string, iy: nat, end: nat)
    requires iy <= end < |text| && (text[end] == ' ' || text[end] == '*')
    requires forall k | iy <= k < end :: text[k] != ' ' && text[k] != '*'
    ensures MarkerEnd(text, iy) == end
    decreases end - iy
  {
    if iy < end {
      MarkerEndAt(text, iy + 1, end);
    }
  }

  /** A backslash between two words opens a marker, so `\v 3 text` gives
      one entry. */
  lemma VerseExample(t: string)
    requires t == "\\v 3 text"
    ensures MarkerList(t) == [MarkerHit("v", " ", 0)]
  {
    HitBeforeSpace(t, 0, 2);
    assert t[1..2] == "v";
    ScanSkipsPlainText(t, 1, |t|);
    assert Scan(t, |t|) == [];
  }

  /** The scanner ends a marker only at a space or a star, so in
      `a \v~5 b` the no-break space is part of the marker `v` U+00A0 `5`. */
  lemma NoBreakInsideMarker(t: string)
    requires t == "a \\v\U{00A0}5 b"
    ensures MarkerList(t) == [MarkerHit("v\U{00A0}5", " ", 2)]
  {
    ScanSkipsPlainText(t, 0, 2);
    HitBeforeSpace(t, 2, 6);
    assert t[3..6] == "v\U{00A0}5";
    ScanSkipsPlainText(t, 3, |t|);
    assert Scan(t, |t|) == [];
  }
}
