/** What the USFM loader promises about the lines it records. */
module UsfmBookProofs {
  import opened Outcomes
  import opened PyStrings
  import opened Markers
  import opened MarkerScan
  import opened MarkerScanProofs
  import opened Lines
  import opened Recovery
  import opened UsfmBook

  /** The markers of the embedded newline markers among the scanner's
      entries, in order. */
  function NewlineMarkers(reg: Registry, hits: seq<MarkerHit>): seq<string> {
    if hits == [] then []
    else if hits[0].marker != "\\" && reg.IsNewlineMarker(hits[0].marker) then [hits[0].marker] + NewlineMarkers(reg, hits[1..])
    else NewlineMarkers(reg, hits[1..])
  }

  /** The number of free-standing backslashes among the entries. */
  function FreeBackslashes(hits: seq<MarkerHit>): nat {
    if hits == [] then 0 else (if hits[0].marker == "\\" then 1 else 0) + FreeBackslashes(hits[1..])
  }

  function LineMarkers(lines: seq<Line>): seq<string> {
    if lines == [] then [] else [lines[0].marker] + LineMarkers(lines[1..])
  }

  lemma {:induction false} LineMarkersAppend(a: seq<Line>, b: seq<Line>)
    ensures LineMarkers(a + b) == LineMarkers(a) + LineMarkers(b)
  {
    if a != [] {
      assert (a + b)[1..] == a[1..] + b;
      LineMarkersAppend(a[1..], b);
    } else {
      assert a + b == b;
    }
  }

  /** Text without a backslash has no markers in it. */
  lemma {:induction false} NoBackslashNoHits(text: string, from: nat)
    requires '\\' !in text
    ensures Scan(text, from) == []
    decreases |text| - from
  {
    if from < |text| {
      assert text[from] in text;
      NoBackslashNoHits(text, from + 1);
    }
  }

  /** The splitting loop only appends: the lines it adds carry the held
      marker and then each embedded newline marker in turn, and the marker
      left for the final segment is the last of these. */
  lemma {:induction false} SplitAllMarkers(reg: Registry, c: string, v: string, text: string, st: SplitState, hits: seq<MarkerHit>)
    ensures var r := SplitAll(reg, c, v, text, st, hits);
      && |st.out.lines| <= |r.out.lines| && r.out.lines[..|st.out.lines|] == st.out.lines
      && LineMarkers(r.out.lines[|st.out.lines|..]) + [r.marker] == [st.marker] + NewlineMarkers(reg, hits)
    decreases |hits|
  {
    if hits == [] {
      assert st.out.lines[|st.out.lines|..] == [];
    } else {
      var st1 := SplitStep(reg, c, v, text, st, hits[0]);
      SplitAllMarkers(reg, c, v, text, st1, hits[1..]);
      var r := SplitAll(reg, c, v, text, st, hits);
      var n := |st.out.lines|;
      var n1 := |st1.out.lines|;
      if hits[0].marker != "\\" && reg.IsNewlineMarker(hits[0].marker) {
        assert st1.out.lines == st.out.lines + [Line(st.marker, Segment(text, st.ix, hits[0].index))];
        assert r.out.lines[..n1] == st1.out.lines;
        assert r.out.lines[..n] == st.out.lines;
        assert r.out.lines[n..] == [Line(st.marker, Segment(text, st.ix, hits[0].index))] + r.out.lines[n1..];
        LineMarkersAppend([Line(st.marker, Segment(text, st.ix, hits[0].index))], r.out.lines[n1..]);
      } else {
        assert st1.out.lines == st.out.lines && st1.marker == st.marker;
      }
    }
  }

  /** `doAppendLine` appends one line per embedded newline marker plus one,
      and keeps the lines already recorded. Their markers are the held
      marker followed by the embedded newline markers, in text order. */
  lemma AppendLineMarkers(reg: Registry, c: string, v: string, marker: string, text: string, out: Out)
    ensures var r := AppendLineSpec(reg, c, v, marker, text, out);
      && |out.lines| <= |r.lines| && r.lines[..|out.lines|] == out.lines
      && LineMarkers(r.lines[|out.lines|..]) == [marker] + NewlineMarkers(reg, MarkerList(text))
  {
    var r := AppendLineSpec(reg, c, v, marker, text, out);
    if '\\' !in text {
      NoBackslashNoHits(text, 0);
      assert r.lines[|out.lines|..] == [Line(marker, text)];
    } else {
      var st := SplitAll(reg, c, v, text, SplitState(0, marker, out), MarkerList(text));
      SplitAllMarkers(reg, c, v, text, SplitState(0, marker, out), MarkerList(text));
      var last := Line(st.marker, if st.ix != 0 then Slice(text, st.ix, |text|) else text);
      assert r.lines == st.out.lines + [last];
      assert r.lines[|out.lines|..] == st.out.lines[|out.lines|..] + [last];
      LineMarkersAppend(st.out.lines[|out.lines|..], [last]);
    }
  }

  lemma {:induction false} LineMarkersLength(lines: seq<Line>)
    ensures |LineMarkers(lines)| == |lines|
  {
    if lines != [] {
      LineMarkersLength(lines[1..]);
    }
  }

  /** So the number of lines appended is one more than the number of
      embedded newline markers. */
  lemma AppendLineCount(reg: Registry, c: string, v: string, marker: string, text: string, out: Out)
    ensures |AppendLineSpec(reg, c, v, marker, text, out).lines| == |out.lines| + 1 + |NewlineMarkers(reg, MarkerList(text))|
  {
    var r := AppendLineSpec(reg, c, v, marker, text, out);
    AppendLineMarkers(reg, c, v, marker, text, out);
    LineMarkersLength(r.lines[|out.lines|..]);
  }

  /** Where no embedded marker is a newline marker, the line is saved as it
      is, and each free-standing backslash adds one priority error of
      weight 100. */
  lemma {:induction false} SplitAllNoNewline(reg: Registry, c: string, v: string, text: string, st: SplitState, hits: seq<MarkerHit>)
    requires NewlineMarkers(reg, hits) == []
    ensures var r := SplitAll(reg, c, v, text, st, hits);
      && r.ix == st.ix && r.marker == st.marker && r.out.lines == st.out.lines
      && |r.out.prios| == |st.out.prios| + FreeBackslashes(hits)
      && r.out.prios[..|st.out.prios|] == st.out.prios
      && forall k | |st.out.prios| <= k < |r.out.prios| :: r.out.prios[k] == PriorityError(100, c, v)
    decreases |hits|
  {
    if hits != [] {
      var st1 := SplitStep(reg, c, v, text, st, hits[0]);
      SplitAllNoNewline(reg, c, v, text, st1, hits[1..]);
      var r := SplitAll(reg, c, v, text, st, hits);
      var n := |st.out.prios|;
      if hits[0].marker == "\\" {
        assert st1.out.prios == st.out.prios + [PriorityError(100, c, v)];
        assert r.out.prios[..|st1.out.prios|] == st1.out.prios;
        assert r.out.prios[..n] == st.out.prios;
      }
    }
  }

  lemma FreeBackslashKeepsLine(reg: Registry, c: string, v: string, marker: string, text: string, out: Out)
    requires NewlineMarkers(reg, MarkerList(text)) == []
    ensures var r := AppendLineSpec(reg, c, v, marker, text, out);
      && r.lines == out.lines + [Line(marker, text)]
      && |r.prios| == |out.prios| + FreeBackslashes(MarkerList(text))
      && r.prios[..|out.prios|] == out.prios
      && forall k | |out.prios| <= k < |r.prios| :: r.prios[k] == PriorityError(100, c, v)
  {
    if '\\' in text {
      SplitAllNoNewline(reg, c, v, text, SplitState(0, marker, out), MarkerList(text));
    } else {
      NoBackslashNoHits(text, 0);
    }
  }

  /** The scanner finds the two verse markers of the worked example. */
  lemma ExampleHits(t: string)
    requires t == "a \\v 5 b \\v 6 c"
    ensures MarkerList(t) == [MarkerHit("v", " ", 2), MarkerHit("v", " ", 9)]
  {
    ScanSkipsPlainText(t, 0, 2);
    HitBeforeSpace(t, 2, 4);
    assert t[3..4] == "v";
    ScanSkipsPlainText(t, 3, 9);
    HitBeforeSpace(t, 9, 11);
    assert t[10..11] == "v";
    ScanSkipsPlainText(t, 10, |t|);
    assert Scan(t, |t|) == [];
  }

  /** The worked example of splitting: `\p a \v b` gives two lines, the
      first stripped of its trailing space, with the weight 96 error of a
      newline marker found inside a line. */
  lemma SplitExample(reg: Registry, out: Out, t: string)
    requires reg.IsNewlineMarker("v")
    requires t == "a \\v b"
    ensures AppendLineSpec(reg, "0", "0", "p", t, out)
      == out.AddError(96, NewlineInLine, "0", "0").AddLine("p", "a").AddLine("v", "b")
  {
    var h := MarkerHit("v", " ", 2);
    ScanSkipsPlainText(t, 0, 2);
    HitBeforeSpace(t, 2, 4);
    assert t[3..4] == "v";
    ScanSkipsPlainText(t, 3, |t|);
    assert Scan(t, |t|) == [];
    assert MarkerList(t) == [h];
    assert t[2] == '\\';
    StripOneSpace(t[0..2]);
    assert t[0..2][..1] == "a" && t[5..] == "b";
    var s0 := SplitState(0, "p", out);
    var s1 := SplitStep(reg, "0", "0", t, s0, h);
    assert s1 == SplitState(5, "v", out.AddError(96, NewlineInLine, "0", "0").AddLine("p", "a"));
    assert SplitAll(reg, "0", "0", t, s1, []) == s1;
    assert SplitAll(reg, "0", "0", t, s0, [h]) == s1;
  }

  /** The scanner finds the two verse markers of the three-segment example. */
  lemma ThreeHits(t: string)
    requires t == "hello \\v 5 world \\v 6 end"
    ensures MarkerList(t) == [MarkerHit("v", " ", 6), MarkerHit("v", " ", 17)]
    ensures t[6] == '\\'
  {
    ThreeHitsFirst(t);
    ThreeHitsSecond(t);
  }

  lemma ThreeHitsFirst(t: string)
    requires t == "hello \\v 5 world \\v 6 end"
    ensures Scan(t, 0) == [MarkerHit("v", " ", 6)] + Scan(t, 7)
  {
    ScanSkipsPlainText(t, 0, 6);
    HitBeforeSpace(t, 6, 8);
    assert t[7..8] == "v";
  }

  lemma ThreeHitsSecond(t: string)
    requires t == "hello \\v 5 world \\v 6 end"
    ensures Scan(t, 7) == [MarkerHit("v", " ", 17)]
  {
    ScanSkipsPlainText(t, 7, 17);
    HitBeforeSpace(t, 17, 19);
    assert t[18..19] == "v";
    ScanSkipsPlainText(t, 18, |t|);
    assert Scan(t, |t|) == [];
  }

  /** The three pieces of the three-segment example, as the splitter cuts them. */
  lemma ThreePieces(t: string)
    requires t == "hello \\v 5 world \\v 6 end"
    ensures Segment(t, 0, 6) == "hello" && Segment(t, 9, 17) == "5 world" && Slice(t, 20, |t|) == "6 end"
  {
    StripOneSpace(t[0..6]);
    assert t[0..6][..5] == "hello";
    StripOneSpace(t[9..17]);
    assert t[9..17][..7] == "5 world";
    assert t[20..] == "6 end";
  }

  /** The three-segment worked example: `\p hello \v 5 world \v 6 end`
      gives (p, hello), (v, 5 world) and (v, 6 end), and the weight 96
      error is recorded once, for the first embedded marker only. */
  lemma SplitThreeExample(reg: Registry, out: Out, t: string)
    requires reg.IsNewlineMarker("v")
    requires t == "hello \\v 5 world \\v 6 end"
    ensures AppendLineSpec(reg, "0", "0", "p", t, out)
      == out.AddError(96, NewlineInLine, "0", "0").AddLine("p", "hello").AddLine("v", "5 world").AddLine("v", "6 end")
  {
    var h1, h2 := MarkerHit("v", " ", 6), MarkerHit("v", " ", 17);
    ThreeHits(t);
    ThreePieces(t);
    assert t[6] == '\\';
    var s0 := SplitState(0, "p", out);
    var s1 := SplitStep(reg, "0", "0", t, s0, h1);
    assert s1 == SplitState(9, "v", out.AddError(96, NewlineInLine, "0", "0").AddLine("p", "hello"));
    var s2 := SplitStep(reg, "0", "0", t, s1, h2);
    assert s2 == SplitState(20, "v", s1.out.AddLine("v", "5 world"));
    assert SplitAll(reg, "0", "0", t, s2, []) == s2;
    assert SplitAll(reg, "0", "0", t, s1, [h2]) == s2;
    assert [h1, h2][1..] == [h2];
  }

  lemma StripOneSpace(s: string)
    requires |s| >= 2 && s[|s| - 1] == ' ' && !IsSpace(s[|s| - 2])
    ensures RStrip(s) == s[..|s| - 1]
  {
  }

  /** After a load every held line that was saved started with a newline
      marker: the loader's invariant. */
  ghost predicate HeldNewline(reg: Registry, st: Asm) {
    && (st.lastMarker == "" || reg.IsNewlineMarker(st.lastMarker))
    && forall l | l in st.out.lines :: reg.IsNewlineMarker(l.marker)
  }

  lemma NewlineMarkersAreNewline(reg: Registry, hits: seq<MarkerHit>)
    ensures forall m | m in NewlineMarkers(reg, hits) :: reg.IsNewlineMarker(m)
  {
  }

  lemma LineMarkersIndex(lines: seq<Line>, k: nat)
    requires k < |lines|
    ensures |LineMarkers(lines)| == |lines| && LineMarkers(lines)[k] == lines[k].marker
  {
    LineMarkersLength(lines);
    if k > 0 {
      LineMarkersIndex(lines[1..], k - 1);
    }
  }

  /** A line list made of newline-marked old lines followed by lines whose
      markers are all newline markers holds only newline-marked lines. */
  lemma NewlineTail(reg: Registry, old_: seq<Line>, lines: seq<Line>, ms: seq<string>)
    requires |old_| <= |lines| && lines[..|old_|] == old_
    requires LineMarkers(lines[|old_|..]) == ms
    requires forall m | m in ms :: reg.IsNewlineMarker(m)
    requires forall l | l in old_ :: reg.IsNewlineMarker(l.marker)
    ensures forall l | l in lines :: reg.IsNewlineMarker(l.marker)
  {
    var added := lines[|old_|..];
    forall l | l in lines
      ensures reg.IsNewlineMarker(l.marker)
    {
      var k :| 0 <= k < |lines| && lines[k] == l;
      if k < |old_| {
        assert lines[..|old_|][k] == l;
        assert l in old_;
      } else {
        LineMarkersIndex(added, k - |old_|);
        assert added[k - |old_|] == l;
        assert l.marker == ms[k - |old_|];
      }
    }
  }

  /** Saving a line held under a newline marker records only lines that
      start with newline markers. */
  lemma AppendLineKeepsNewline(reg: Registry, c: string, v: string, marker: string, text: string, out: Out)
    requires reg.IsNewlineMarker(marker)
    requires forall l | l in out.lines :: reg.IsNewlineMarker(l.marker)
    ensures forall l | l in AppendLineSpec(reg, c, v, marker, text, out).lines :: reg.IsNewlineMarker(l.marker)
  {
    var r := AppendLineSpec(reg, c, v, marker, text, out);
    AppendLineMarkers(reg, c, v, marker, text, out);
    NewlineMarkersAreNewline(reg, MarkerList(text));
    var ms := [marker] + NewlineMarkers(reg, MarkerList(text));
    NewlineTail(reg, out.lines, r.lines, ms);
  }

  lemma AssembleKeepsNewline(reg: Registry, st: Asm, marker: string, text: string)
    requires reg.Valid() && HeldNewline(reg, st)
    ensures HeldNewline(reg, Assemble(reg, SortedNewlineMarkers(reg), st, marker, text))
  {
    var sorted := SortedNewlineMarkers(reg);
    if st.lastMarker != "" {
      AppendLineKeepsNewline(reg, st.c, st.v, st.lastMarker, st.lastText, st.out);
      var st1 := st.(out := st.out.AddError(100, UnknownAtStart, st.c, st.v));
      AppendLineKeepsNewline(reg, st.c, st.v, st.lastMarker, st.lastText, st1.out);
    }
    if !reg.IsNewlineMarker(marker) && !InternalStart(reg, marker) {
      match FirstPrefix(sorted, marker)
      case None =>
      case Some(k) =>
        assert k in multiset(sorted);
        assert k in reg.combinedNewlineMarkersList;
    }
  }

  lemma {:induction false} LoadAllKeepsNewline(reg: Registry, st: Asm, lines: seq<Line>)
    requires reg.Valid() && HeldNewline(reg, st)
    ensures HeldNewline(reg, LoadAll(reg, SortedNewlineMarkers(reg), st, lines))
    decreases |lines|
  {
    if lines != [] {
      var line := lines[0];
      var sorted := SortedNewlineMarkers(reg);
      if line.marker == "c" && line.text != "" {
        AssembleKeepsNewline(reg, st.(c := FirstWord(line.text), v := "0"), line.marker, line.text);
      } else if line.marker == "v" && line.text != "" {
        AssembleKeepsNewline(reg, st.(v := FirstWord(line.text), c := if st.c == "0" then "1" else st.c), line.marker, line.text);
      } else if line.marker != "restore" {
        AssembleKeepsNewline(reg, st, line.marker, line.text);
      }
      LoadAllKeepsNewline(reg, LoadStep(reg, sorted, st, line), lines[1..]);
    }
  }

  /** Every logical line a load records starts with a newline marker, when
      the registry is consistent and the book's earlier lines did. */
  lemma LoadRecordsNewlineLines(reg: Registry, physical: seq<Line>, lines0: seq<Line>, prios0: seq<PriorityError>)
    requires reg.Valid()
    requires forall l | l in lines0 :: reg.IsNewlineMarker(l.marker)
    ensures forall l | l in LoadSpec(reg, physical, lines0, prios0).lines :: reg.IsNewlineMarker(l.marker)
  {
    var init := Asm("0", "0", "", "", Out(lines0, prios0, []));
    LoadAllKeepsNewline(reg, init, physical);
    var fin := LoadAll(reg, SortedNewlineMarkers(reg), init, physical);
    if fin.lastMarker != "" {
      AppendLineKeepsNewline(reg, fin.c, fin.v, fin.lastMarker, fin.lastText, fin.out);
    }
  }

  function WithoutRestore(lines: seq<Line>): seq<Line> {
    if lines == [] then []
    else if lines[0].marker == "restore" then WithoutRestore(lines[1..])
    else [lines[0]] + WithoutRestore(lines[1..])
  }

  /** `restore` lines have no effect at all on the assembly. */
  lemma {:induction false} RestoreIgnored(reg: Registry, sorted: seq<string>, st: Asm, lines: seq<Line>)
    ensures LoadAll(reg, sorted, st, lines) == LoadAll(reg, sorted, st, WithoutRestore(lines))
    decreases |lines|
  {
    if lines != [] {
      RestoreIgnored(reg, sorted, LoadStep(reg, sorted, st, lines[0]), lines[1..]);
      if lines[0].marker != "restore" {
        assert ([lines[0]] + WithoutRestore(lines[1..]))[1..] == WithoutRestore(lines[1..]);
      }
    }
  }

  /** An empty file records the "totally empty" note and no line: the `rem`
      line is set up only after the final save. The source's message names
      only the book; the note's 0:0 position is just the loader's starting
      position, which every `LoadNote` carries. */
  lemma EmptyFileNoLine(reg: Registry, lines0: seq<Line>, prios0: seq<PriorityError>)
    ensures LoadSpec(reg, [], lines0, prios0) == Out(lines0, prios0, [LoadNote(EmptyFile, "0", "0")])
  {
  }

  /** Lines that all start with internal markers are merged into a held line
      that never exists, so nothing is recorded. */
  lemma {:induction false} InternalOnlyNoLines(reg: Registry, sorted: seq<string>, st: Asm, lines: seq<Line>)
    requires st.lastMarker == ""
    requires forall l | l in lines :: !reg.IsNewlineMarker(l.marker) && InternalStart(reg, l.marker)
    ensures var r := LoadAll(reg, sorted, st, lines); r.lastMarker == "" && r.out.lines == st.out.lines
    decreases |lines|
  {
    if lines != [] {
      assert lines[0] in lines;
      assert forall l | l in lines[1..] :: l in lines;
      InternalOnlyNoLines(reg, sorted, LoadStep(reg, sorted, st, lines[0]), lines[1..]);
    }
  }

  lemma InternalOnlyLoad(reg: Registry, physical: seq<Line>, lines0: seq<Line>, prios0: seq<PriorityError>)
    requires forall l | l in physical :: !reg.IsNewlineMarker(l.marker) && InternalStart(reg, l.marker)
    ensures LoadSpec(reg, physical, lines0, prios0).lines == lines0
  {
    InternalOnlyNoLines(reg, SortedNewlineMarkers(reg), Asm("0", "0", "", "", Out(lines0, prios0, [])), physical);
  }

  /** A non-empty verse line is held as the new current line. */
  lemma VerseHeld(reg: Registry, sorted: seq<string>, st: Asm, t: string)
    requires reg.IsNewlineMarker("v") && t != ""
    ensures var r := LoadStep(reg, sorted, st, Line("v", t));
      r.lastMarker == "v" && r.lastText == t
  {
  }

  /** A footnote line is glued to the held line with no space before it. */
  lemma FootnoteGlued(reg: Registry, sorted: seq<string>, st: Asm, t: string)
    requires !reg.IsNewlineMarker("f") && reg.IsInternalMarker("f")
    ensures var r := LoadStep(reg, sorted, st, Line("f", t));
      r.lastMarker == st.lastMarker && r.lastText == st.lastText + "\\f " + t
  {
    assert InternalStart(reg, "f");
  }

  /** A footnote line is merged into the held verse line without a space. */
  lemma FootnoteMergeExample(reg: Registry, st: Asm, t1: string, t2: string)
    requires reg.IsNewlineMarker("v") && !reg.IsNewlineMarker("f") && reg.IsInternalMarker("f")
    requires t1 == "1 a" && t2 == "b"
    ensures var r := LoadAll(reg, SortedNewlineMarkers(reg), st, [Line("v", t1), Line("f", t2)]);
      r.lastMarker == "v" && r.lastText == t1 + "\\f " + t2
  {
    var sorted := SortedNewlineMarkers(reg);
    var s1 := LoadStep(reg, sorted, st, Line("v", t1));
    VerseHeld(reg, sorted, st, t1);
    var s2 := LoadStep(reg, sorted, s1, Line("f", t2));
    FootnoteGlued(reg, sorted, s1, t2);
    assert [Line("v", t1), Line("f", t2)][1..] == [Line("f", t2)];
    assert LoadAll(reg, sorted, s2, []) == s2;
    assert LoadAll(reg, sorted, s1, [Line("f", t2)]) == s2;
  }

  /** Any other internal marker gets a separating space. */
  lemma InternalMergeAddsSpace(reg: Registry, sorted: seq<string>, st: Asm, marker: string, text: string)
    requires marker != "f" && marker != "c" && marker != "v" && marker != "restore"
    requires !reg.IsNewlineMarker(marker) && InternalStart(reg, marker)
    requires !EndsWith(st.lastText, ' ')
    ensures var r := LoadStep(reg, sorted, st, Line(marker, text));
      && r.lastMarker == st.lastMarker
      && r.lastText == st.lastText + " \\" + marker + " " + text
      && r.out == st.out.AddError(27, InternalAtStart, st.c, st.v)
  {
  }

  /** An unknown marker that starts with no known newline marker: the line
      is dropped, with a weight 100 error. */
  lemma UnknownDropped(reg: Registry, st: Asm, marker: string, text: string)
    requires marker != "c" && marker != "v" && marker != "restore"
    requires !reg.IsNewlineMarker(marker) && !InternalStart(reg, marker)
    requires forall k | k in reg.combinedNewlineMarkersList :: !(k <= marker)
    ensures LoadStep(reg, SortedNewlineMarkers(reg), st, Line(marker, text))
      == st.(out := st.out.AddError(100, UnknownAtStart, st.c, st.v))
  {
    NoRecoveryIff(reg.combinedNewlineMarkersList, marker);
  }

  /** An unknown marker that starts with a known newline marker becomes the
      longest such marker, with the rest of the unknown marker moved into
      the text; the held line was saved first, after the weight 100 error. */
  lemma UnknownRecovered(reg: Registry, st: Asm, marker: string, text: string)
    requires marker != "c" && marker != "v" && marker != "restore"
    requires !reg.IsNewlineMarker(marker) && !InternalStart(reg, marker)
    requires exists k | k in reg.combinedNewlineMarkersList :: k <= marker
    ensures var r := LoadStep(reg, SortedNewlineMarkers(reg), st, Line(marker, text));
      && r.lastMarker in reg.combinedNewlineMarkersList && r.lastMarker <= marker
      && r.lastText == marker[|r.lastMarker|..] + " " + text
      && (forall k | k in reg.combinedNewlineMarkersList && k <= marker :: |k| < |r.lastMarker| || k == r.lastMarker)
      && |r.out.prios| > |st.out.prios| && r.out.prios[|st.out.prios|] == PriorityError(100, st.c, st.v)
  {
    var sorted := SortedNewlineMarkers(reg);
    NoRecoveryIff(reg.combinedNewlineMarkersList, marker);
    var st1 := st.(out := st.out.AddError(100, UnknownAtStart, st.c, st.v));
    var k := FirstPrefix(sorted, marker).value;
    RecoveredIsLongest(reg.combinedNewlineMarkersList, marker, k);
    var fl := Flush(reg, st1);
    assert |st1.out.prios| <= |fl.prios| && fl.prios[..|st1.out.prios|] == st1.out.prios by {
      if st.lastMarker != "" {
        AppendLinePriosGrow(reg, st.c, st.v, st.lastMarker, st.lastText, st1.out);
      }
    }
    assert fl.prios[|st.out.prios|] == fl.prios[..|st1.out.prios|][|st.out.prios|];
  }

  /** The splitting loop only appends to the priority errors. */
  lemma {:induction false} SplitAllPriosGrow(reg: Registry, c: string, v: string, text: string, st: SplitState, hits: seq<MarkerHit>)
    ensures var r := SplitAll(reg, c, v, text, st, hits);
      |st.out.prios| <= |r.out.prios| && r.out.prios[..|st.out.prios|] == st.out.prios
    decreases |hits|
  {
    if hits != [] {
      var st1 := SplitStep(reg, c, v, text, st, hits[0]);
      SplitAllPriosGrow(reg, c, v, text, st1, hits[1..]);
      var r := SplitAll(reg, c, v, text, st, hits);
      assert st1.out.prios[..|st.out.prios|] == st.out.prios;
      assert r.out.prios[..|st1.out.prios|][..|st.out.prios|] == r.out.prios[..|st.out.prios|];
    }
  }

  lemma AppendLinePriosGrow(reg: Registry, c: string, v: string, marker: string, text: string, out: Out)
    ensures var r := AppendLineSpec(reg, c, v, marker, text, out);
      |out.prios| <= |r.prios| && r.prios[..|out.prios|] == out.prios
  {
    if '\\' in text {
      SplitAllPriosGrow(reg, c, v, text, SplitState(0, marker, out), MarkerList(text));
    }
  }

  lemma {:induction false} LoadAllSnoc(reg: Registry, sorted: seq<string>, st: Asm, lines: seq<Line>, line: Line)
    ensures LoadAll(reg, sorted, st, lines + [line]) == LoadStep(reg, sorted, LoadAll(reg, sorted, st, lines), line)
    decreases |lines|
  {
    if lines == [] {
      assert [] + [line] == [line];
    } else {
      assert (lines + [line])[1..] == lines[1..] + [line];
      LoadAllSnoc(reg, sorted, LoadStep(reg, sorted, st, lines[0]), lines[1..], line);
    }
  }

  /** The final held line is saved: a file ending in a plain newline-marker
      line records that line last. */
  lemma LastLineSaved(reg: Registry, physical: seq<Line>, last: Line, lines0: seq<Line>, prios0: seq<PriorityError>)
    requires reg.IsNewlineMarker(last.marker) && last.marker != "restore" && last.marker != ""
    requires '\\' !in last.text
    ensures var r := LoadSpec(reg, physical + [last], lines0, prios0);
      |r.lines| > 0 && r.lines[|r.lines| - 1] == last
  {
    var sorted := SortedNewlineMarkers(reg);
    var init := Asm("0", "0", "", "", Out(lines0, prios0, []));
    LoadAllSnoc(reg, sorted, init, physical, last);
  }

  /** A line the loader has already assembled: a newline marker other than
      the restore pseudo-marker, with no backslash left in its text. */
  predicate Logical(reg: Registry, l: Line) {
    reg.IsNewlineMarker(l.marker) && l.marker != "restore" && l.marker != "" && '\\' !in l.text
  }

  /** Saving a backslash-free held line records it as it is, whatever the
      current chapter and verse. */
  lemma FlushPlain(reg: Registry, st: Asm)
    requires st.lastMarker != "" ==> '\\' !in st.lastText
    ensures Flush(reg, st).lines == st.out.lines + (if st.lastMarker != "" then [Line(st.lastMarker, st.lastText)] else [])
  {
  }

  /** Loading a logical line saves the held line and holds the new one. */
  lemma StepLogical(reg: Registry, sorted: seq<string>, st: Asm, l: Line)
    requires st.lastMarker != "" ==> '\\' !in st.lastText
    requires Logical(reg, l)
    ensures var r := LoadStep(reg, sorted, st, l);
      r.lastMarker == l.marker && r.lastText == l.text && r.out.lines == Flush(reg, st).lines &&
      Flush(reg, r).lines == Flush(reg, st).lines + [l]
  {
    var st' := if l.marker == "c" && l.text != "" then st.(c := FirstWord(l.text), v := "0")
      else if l.marker == "v" && l.text != "" then st.(v := FirstWord(l.text), c := if st.c == "0" then "1" else st.c)
      else st;
    assert LoadStep(reg, sorted, st, l) == Assemble(reg, sorted, st', l.marker, l.text);
    FlushPlain(reg, st);
    FlushPlain(reg, st');
    FlushPlain(reg, LoadStep(reg, sorted, st, l));
  }

  lemma AppendCons(before: seq<Line>, lines: seq<Line>)
    requires lines != []
    ensures before + [lines[0]] + lines[1..] == before + lines
  {
    assert lines == [lines[0]] + lines[1..];
  }

  /** Re-assembling lines that are already logical gives them back
      unchanged, after whatever line was held. */
  lemma {:induction false} LoadAllIdem(reg: Registry, sorted: seq<string>, st: Asm, lines: seq<Line>)
    requires st.lastMarker != "" ==> '\\' !in st.lastText
    requires forall l | l in lines :: Logical(reg, l)
    ensures Flush(reg, LoadAll(reg, sorted, st, lines)).lines == Flush(reg, st).lines + lines
    decreases |lines|
  {
    if lines == [] {
      assert Flush(reg, st).lines + lines == Flush(reg, st).lines;
    } else {
      var st1 := LoadStep(reg, sorted, st, lines[0]);
      var r := LoadAll(reg, sorted, st1, lines[1..]);
      assert LoadAll(reg, sorted, st, lines) == r;
      StepLogical(reg, sorted, st, lines[0]);
      LoadAllIdem(reg, sorted, st1, lines[1..]);
      AppendCons(Flush(reg, st).lines, lines);
    }
  }

  /** Loading is idempotent: a file whose lines are already logical loads
      to exactly those lines, after any lines already recorded. */
  lemma LoadIdempotent(reg: Registry, physical: seq<Line>, lines0: seq<Line>, prios0: seq<PriorityError>)
    requires forall l | l in physical :: Logical(reg, l)
    ensures LoadSpec(reg, physical, lines0, prios0).lines == lines0 + physical
  {
    var init := Asm("0", "0", "", "", Out(lines0, prios0, []));
    LoadAllIdem(reg, SortedNewlineMarkers(reg), init, physical);
  }
}
