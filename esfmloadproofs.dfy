/** What the ESFM loader promises: the verse counter before the first
    chapter, the held line that can always be saved, the lines it records,
    and the way physical lines are merged. */
module EsfmLoadProofs {
  import opened Outcomes
  import opened PyStrings
  import opened Markers
  import opened MarkerScan
  import opened Lines
  import opened Recovery
  import opened EsfmTags
  import opened EsfmPre
  import opened EsfmPreProofs
  import opened UsfmBook
  import opened UsfmBookProofs
  import opened EsfmLoad
  import MarkerScanProofs

  // ----- the position -----

  /** Assembly never moves the position. */
  lemma AssembleKeepsPosition(reg: Registry, sorted: seq<string>, st: EAsm, marker: string, text: string)
    ensures var r := EAssemble(reg, sorted, st, marker, text); r.c == st.c && r.v == st.v
  {
  }

  lemma ProcessKeepsPosition(reg: Registry, sorted: seq<string>, env: Env, st: EAsm, line: Line)
    ensures var r := EProcess(reg, sorted, env, st, line); r.c == st.c && r.v == st.v
  {
    if line.marker !in env.ignored {
      var p := Preprocess(PreCtx(env, st), line.text, st.sem, st.strongs, st.out);
      AssembleKeepsPosition(reg, sorted, st.(sem := p.sem, strongs := p.strongs, out := p.out), line.marker, p.result);
    } else {
      AssembleKeepsPosition(reg, sorted, st, line.marker, line.text);
    }
  }

  /** Before the first chapter the verse is a number that `int` can read. */
  predicate CountingVerses(st: EAsm) {
    st.c == "-1" ==> ParseInt(st.v).Some?
  }

  lemma StepCounts(reg: Registry, sorted: seq<string>, env: Env, st: EAsm, line: Line)
    requires CountingVerses(st)
    ensures CountingVerses(ELoadStep(reg, sorted, env, st, line))
  {
    if st.failed {
    } else if line.marker == "c" && line.text != "" {
      ProcessKeepsPosition(reg, sorted, env, st.(c := FirstWord(line.text), v := "0"), line);
      ParseIntRoundTrip(0);
    } else if line.marker == "v" && line.text != "" {
      ProcessKeepsPosition(reg, sorted, env, st.(v := FirstWord(line.text), c := if st.c == "-1" then "1" else st.c), line);
    } else if st.c == "-1" && line.marker != "intro" {
      var n := ParseInt(st.v).value;
      ProcessKeepsPosition(reg, sorted, env, st.(v := IntToString(n + 1)), line);
      ParseIntRoundTrip(n + 1);
    } else if line.marker != "restore" {
      ProcessKeepsPosition(reg, sorted, env, st, line);
    }
  }

  /** The counter can never make `int(V)` raise: the load starts at a
      number and every step keeps one there. */
  lemma {:induction false} LoadAllCounts(reg: Registry, sorted: seq<string>, env: Env, st: EAsm, lines: seq<Line>)
    requires CountingVerses(st)
    ensures CountingVerses(ELoadAll(reg, sorted, env, st, lines))
    decreases |lines|
  {
    if lines != [] {
      StepCounts(reg, sorted, env, st, lines[0]);
      LoadAllCounts(reg, sorted, env, ELoadStep(reg, sorted, env, st, lines[0]), lines[1..]);
    }
  }

  lemma StartCounts(lines0: seq<Line>, prios0: seq<PriorityError>, sem: SemDict, strongs: StrDict)
    ensures CountingVerses(EStart(lines0, prios0, sem, strongs))
    ensures ParseInt(EStart(lines0, prios0, sem, strongs).v) == Some(-1)
  {
    assert IntToString(-1) == "-1";
    ParseIntRoundTrip(-1);
  }

  /** A header line that is neither a chapter, a verse nor `intro`. */
  predicate HeaderLine(line: Line) {
    line.marker != "c" && line.marker != "v" && line.marker != "intro"
  }

  /** Before the first chapter, a header line advances the verse counter. */
  lemma CountStep(reg: Registry, sorted: seq<string>, env: Env, st: EAsm, line: Line)
    requires !st.failed && st.c == "-1" && HeaderLine(line) && ParseInt(st.v).Some?
    ensures var r := ELoadStep(reg, sorted, env, st, line);
      !r.failed ==> r.c == "-1" && r.v == IntToString(ParseInt(st.v).value + 1)
  {
    ProcessKeepsPosition(reg, sorted, env, st.(v := IntToString(ParseInt(st.v).value + 1)), line);
  }

  /** One header line before the first chapter advances the verse by one. */
  lemma HeaderStep(reg: Registry, sorted: seq<string>, env: Env, st: EAsm, k: int, line: Line)
    requires !st.failed && st.c == "-1" && st.v == IntToString(k) && HeaderLine(line)
    ensures var r := ELoadStep(reg, sorted, env, st, line);
      !r.failed ==> r.c == "-1" && r.v == IntToString(k + 1)
  {
    ParseIntRoundTrip(k);
    CountStep(reg, sorted, env, st, line);
  }

  /** Each line is a header line. */
  predicate AllHeaders(lines: seq<Line>)
    decreases |lines|
  {
    lines != [] ==> HeaderLine(lines[0]) && AllHeaders(lines[1..])
  }

  lemma {:induction false} AllHeadersFrom(lines: seq<Line>)
    requires forall i | 0 <= i < |lines| :: HeaderLine(lines[i])
    ensures AllHeaders(lines)
    decreases |lines|
  {
    if lines != [] {
      assert forall i | 0 <= i < |lines[1..]| :: lines[1..][i] == lines[i + 1];
      AllHeadersFrom(lines[1..]);
    }
  }

  /** The verse count after the first line and the rest is the count
      after all of them. */
  lemma CountedTail(r: EAsm, k: int, n: nat, m: nat)
    requires m == n + 1
    requires !r.failed ==> r.c == "-1" && r.v == IntToString(k + 1 + n)
    ensures !r.failed ==> r.c == "-1" && r.v == IntToString(k + m)
  {
    assert k + 1 + n == k + m;
  }

  /** The rest of the header lines, after the first one's step. */
  lemma {:induction false} HeaderLinesCounted(reg: Registry, sorted: seq<string>, env: Env, st: EAsm, k: int, lines: seq<Line>)
    requires !st.failed ==> st.c == "-1" && st.v == IntToString(k)
    requires AllHeaders(lines)
    ensures var r := ELoadAll(reg, sorted, env, st, lines);
      !r.failed ==> r.c == "-1" && r.v == IntToString(k + |lines|)
    decreases |lines|
  {
    if lines != [] {
      if st.failed {
        ELoadAllFailed(reg, sorted, env, st, lines);
      } else {
        var st1 := ELoadStep(reg, sorted, env, st, lines[0]);
        var r := ELoadAll(reg, sorted, env, st1, lines[1..]);
        assert ELoadAll(reg, sorted, env, st, lines) == r;
        HeaderStep(reg, sorted, env, st, k, lines[0]);
        HeaderLinesCounted(reg, sorted, env, st1, k + 1, lines[1..]);
        CountedTail(r, k, |lines[1..]|, |lines|);
      }
    }
  }

  /** So the first line of a file, unless it is `intro` or a chapter or
      verse line, is at -1:0, and the n-th such header line at -1:n-1. */
  lemma HeaderPositions(reg: Registry, env: Env, lines: seq<Line>, lines0: seq<Line>, prios0: seq<PriorityError>,
                        sem: SemDict, strongs: StrDict)
    requires forall i | 0 <= i < |lines| :: HeaderLine(lines[i])
    ensures var r := ELoadAll(reg, SortedNewlineMarkers(reg), env, EStart(lines0, prios0, sem, strongs), lines);
      !r.failed ==> r.c == "-1" && r.v == IntToString(|lines| - 1)
  {
    assert IntToString(-1) == "-1";
    AllHeadersFrom(lines);
    HeaderLinesCounted(reg, SortedNewlineMarkers(reg), env, EStart(lines0, prios0, sem, strongs), -1, lines);
  }

  /** A `restore` line is skipped exactly when a chapter or verse has been
      seen; before that it is counted and processed like any other line. */
  lemma RestoreSkippedIff(reg: Registry, sorted: seq<string>, env: Env, st: EAsm, text: string)
    requires !st.failed && CountingVerses(st)
    ensures ELoadStep(reg, sorted, env, st, Line("restore", text)) == st <==> st.c != "-1"
  {
    if st.c == "-1" {
      var n := ParseInt(st.v).value;
      CountStep(reg, sorted, env, st, Line("restore", text));
      ParseIntRoundTrip(n + 1);
    }
  }

  // ----- the held line -----

  /** The held marker, if any, is a marker the registry knows. */
  predicate Held(reg: Registry, st: EAsm) {
    st.lastMarker == "" || reg.IsValidMarker(st.lastMarker)
  }

  /** Saving a held line cannot raise: a valid marker has a standard form. */
  lemma FlushSucceeds(reg: Registry, st: EAsm)
    requires Held(reg, st) && !st.failed
    ensures !EFlush(reg, st).failed
  {
  }

  /** The recovered marker of an unknown line is a known newline marker. */
  lemma RecoveredValid(reg: Registry, marker: string)
    requires reg.Valid()
    requires FirstPrefix(SortedNewlineMarkers(reg), marker).Some?
    ensures reg.IsValidMarker(FirstPrefix(SortedNewlineMarkers(reg), marker).value)
  {
    var k := FirstPrefix(SortedNewlineMarkers(reg), marker).value;
    assert k in multiset(SortedNewlineMarkers(reg));
    assert k in reg.combinedNewlineMarkersList;
  }

  /** With valid tables, assembly never raises, keeps a known marker held
      and leaves the tag dictionaries alone. */
  lemma AssembleSafe(reg: Registry, st: EAsm, marker: string, text: string)
    requires reg.Valid() && Held(reg, st) && !st.failed
    ensures var r := EAssemble(reg, SortedNewlineMarkers(reg), st, marker, text);
      && !r.failed && Held(reg, r) && r.sem == st.sem && r.strongs == st.strongs
  {
    var sorted := SortedNewlineMarkers(reg);
    if !reg.IsNewlineMarker(marker) && !InternalStart(reg, marker) && !NoteStart(reg, marker) {
      if FirstPrefix(sorted, marker).Some? {
        RecoveredValid(reg, marker);
        FlushSucceeds(reg, st.(out := st.out.AddError(100, UnknownAtStart, st.c, st.v)));
      }
    }
  }

  /** A line the preprocessor leaves alone: an ignored header line, or one
      with no tag, brace or underline. */
  predicate Untagged(env: Env, line: Line) {
    line.marker in env.ignored || forall k | 0 <= k < |line.text| :: line.text[k] !in "={}_"
  }

  lemma ProcessSafe(reg: Registry, env: Env, st: EAsm, line: Line)
    requires reg.Valid() && Held(reg, st) && !st.failed && Untagged(env, line)
    ensures var r := EProcess(reg, SortedNewlineMarkers(reg), env, st, line);
      && !r.failed && Held(reg, r) && r.sem == st.sem && r.strongs == st.strongs
  {
    if line.marker !in env.ignored {
      PlainTextUnchanged(PreCtx(env, st), line.text, st.sem, st.strongs, st.out);
      var p := Preprocess(PreCtx(env, st), line.text, st.sem, st.strongs, st.out);
      AssembleSafe(reg, st.(sem := p.sem, strongs := p.strongs, out := p.out), line.marker, p.result);
    } else {
      AssembleSafe(reg, st, line.marker, line.text);
    }
  }

  /** The state a line is processed in, once the position has been
      tracked, for a load that counts verses and has not failed. */
  function Tracked(st: EAsm, line: Line): (r: EAsm)
    requires CountingVerses(st)
    ensures r.lastMarker == st.lastMarker && r.lastText == st.lastText && r.out == st.out && r.failed == st.failed
    ensures r.sem == st.sem && r.strongs == st.strongs
  {
    if line.marker == "c" && line.text != "" then st.(c := FirstWord(line.text), v := "0")
    else if line.marker == "v" && line.text != "" then st.(v := FirstWord(line.text), c := if st.c == "-1" then "1" else st.c)
    else if st.c == "-1" && line.marker != "intro" then st.(v := IntToString(ParseInt(st.v).value + 1))
    else st
  }

  lemma StepSafe(reg: Registry, env: Env, st: EAsm, line: Line)
    requires reg.Valid() && Held(reg, st) && CountingVerses(st) && !st.failed && Untagged(env, line)
    ensures var r := ELoadStep(reg, SortedNewlineMarkers(reg), env, st, line);
      && !r.failed && Held(reg, r) && r.sem == st.sem && r.strongs == st.strongs
  {
    if line.marker == "restore" && st.c != "-1" {
      assert ELoadStep(reg, SortedNewlineMarkers(reg), env, st, line) == st;
    } else {
      var st' := Tracked(st, line);
      assert ELoadStep(reg, SortedNewlineMarkers(reg), env, st, line) == EProcess(reg, SortedNewlineMarkers(reg), env, st', line);
      ProcessSafe(reg, env, st', line);
    }
  }

  lemma {:induction false} LoadAllSafe(reg: Registry, env: Env, st: EAsm, lines: seq<Line>)
    requires reg.Valid() && Held(reg, st) && CountingVerses(st) && !st.failed
    requires forall k | 0 <= k < |lines| :: Untagged(env, lines[k])
    ensures var r := ELoadAll(reg, SortedNewlineMarkers(reg), env, st, lines);
      && !r.failed && Held(reg, r) && r.sem == st.sem && r.strongs == st.strongs
    decreases |lines|
  {
    if lines != [] {
      var sorted := SortedNewlineMarkers(reg);
      StepSafe(reg, env, st, lines[0]);
      StepCounts(reg, sorted, env, st, lines[0]);
      LoadAllSafe(reg, env, ELoadStep(reg, sorted, env, st, lines[0]), lines[1..]);
    }
  }

  /** With valid tables, a file with no ESFM tagging loads without an
      exception, and leaves the Bible's tag dictionaries as they were:
      `doaddLine` and the verse counter cannot raise, only the
      preprocessor's assertions can. */
  lemma UntaggedFileLoads(reg: Registry, env: Env, physical: seq<Line>, lines0: seq<Line>, prios0: seq<PriorityError>,
                          sem: SemDict, strongs: StrDict)
    requires reg.Valid()
    requires forall k | 0 <= k < |physical| :: Untagged(env, physical[k])
    ensures var e := ELoadSpec(reg, env, physical, lines0, prios0, sem, strongs);
      !e.failed && e.sem == sem && e.strongs == strongs
  {
    var st := EStart(lines0, prios0, sem, strongs);
    StartCounts(lines0, prios0, sem, strongs);
    LoadAllSafe(reg, env, st, physical);
    FlushSucceeds(reg, ELoadAll(reg, SortedNewlineMarkers(reg), env, st, physical));
  }

  /** An empty file records the "totally empty" note and no line. The
      source's message names only the book; the note's -1:-1 position is
      just the loader's starting position, which every `LoadNote` carries. */
  lemma EmptyFileNote(reg: Registry, env: Env, lines0: seq<Line>, prios0: seq<PriorityError>, sem: SemDict, strongs: StrDict)
    ensures ELoadSpec(reg, env, [], lines0, prios0, sem, strongs)
      == EStart(lines0, prios0, sem, strongs).(out := Out(lines0, prios0, [LoadNote(EmptyFile, "-1", "-1")]))
  {
  }

  // ----- merging physical lines -----

  /** A line starting with an internal marker is appended to the held
      line, after a space unless the held text already ends in one. This
      branch is tried before the note branch, so a marker that is both gets
      weight 27 and the space even when it is `f`. */
  lemma InternalMerge(reg: Registry, sorted: seq<string>, st: EAsm, marker: string, text: string)
    requires !reg.IsNewlineMarker(marker) && InternalStart(reg, marker)
    ensures var r := EAssemble(reg, sorted, st, marker, text);
      && r.lastMarker == st.lastMarker
      && r.lastText == st.lastText + (if EndsWith(st.lastText, ' ') then "" else " ") + "\\" + marker + " " + text
      && r.out.lines == st.out.lines && r.out.prios == st.out.prios + [PriorityError(27, st.c, st.v)]
  {
  }

  /** A line starting with a note marker is appended the same way, with
      weight 26, except that a footnote `f` is joined without a space. */
  lemma NoteMerge(reg: Registry, sorted: seq<string>, st: EAsm, marker: string, text: string)
    requires !reg.IsNewlineMarker(marker) && !InternalStart(reg, marker) && NoteStart(reg, marker)
    ensures var r := EAssemble(reg, sorted, st, marker, text);
      && r.lastMarker == st.lastMarker
      && r.lastText == st.lastText + (if EndsWith(st.lastText, ' ') || marker == "f" then "" else " ") + "\\" + marker + " " + text
      && r.out.lines == st.out.lines && r.out.prios == st.out.prios + [PriorityError(26, st.c, st.v)]
  {
  }

  // ----- saving a logical line -----

  /** The hanging-underline check only ever adds a note, and adds one
      exactly when the text has an underline and unequal numbers of `_ `
      and ` _`. */
  lemma UnderlineNoteIff(out: Out, text: string, c: string, v: string)
    ensures var r := UnderlineNote(out, text, c, v);
      && r.lines == out.lines && r.prios == out.prios
      && (r.notes != out.notes <==> '_' in text && CountPair(text, '_', ' ') != CountPair(text, ' ', '_'))
      && (r.notes != out.notes ==> |r.notes| == |out.notes| + 1)
  {
  }

  /** The standard forms of the embedded newline markers, in order. */
  function StandardNewlineMarkers(reg: Registry, hits: seq<MarkerHit>): seq<string> {
    if hits == [] then []
    else if hits[0].marker != "\\" && reg.IsNewlineMarker(hits[0].marker) then
      [reg.ToStandardMarker(hits[0].marker).value] + StandardNewlineMarkers(reg, hits[1..])
    else StandardNewlineMarkers(reg, hits[1..])
  }

  lemma {:induction false} StandardNewlineMarkersLength(reg: Registry, hits: seq<MarkerHit>)
    ensures |StandardNewlineMarkers(reg, hits)| == |NewlineMarkers(reg, hits)|
  {
    if hits != [] {
      StandardNewlineMarkersLength(reg, hits[1..]);
    }
  }

  /** The splitting loop only appends lines: they carry the held marker and
      then the standard form of each embedded newline marker in turn. */
  lemma {:induction false} ESplitAllMarkers(reg: Registry, c: string, v: string, text: string, st: SplitState, hits: seq<MarkerHit>)
    ensures var r := ESplitAll(reg, c, v, text, st, hits);
      && |st.out.lines| <= |r.out.lines| && r.out.lines[..|st.out.lines|] == st.out.lines
      && LineMarkers(r.out.lines[|st.out.lines|..]) + [r.marker] == [st.marker] + StandardNewlineMarkers(reg, hits)
    decreases |hits|
  {
    if hits == [] {
      assert st.out.lines[|st.out.lines|..] == [];
    } else {
      var st1 := ESplitStep(reg, c, v, text, st, hits[0]);
      ESplitAllMarkers(reg, c, v, text, st1, hits[1..]);
      var r := ESplitAll(reg, c, v, text, st, hits);
      var n := |st.out.lines|;
      var n1 := |st1.out.lines|;
      if hits[0].marker != "\\" && reg.IsNewlineMarker(hits[0].marker) {
        var seg := Line(st.marker, Segment(text, st.ix, hits[0].index));
        assert st1.out.lines == st.out.lines + [seg];
        assert r.out.lines[..n1] == st1.out.lines;
        assert r.out.lines[..n] == st.out.lines;
        assert r.out.lines[n..] == [seg] + r.out.lines[n1..];
        LineMarkersAppend([seg], r.out.lines[n1..]);
      } else {
        assert st1.out.lines == st.out.lines && st1.marker == st.marker;
      }
    }
  }

  /** The markers of the lines `doaddLine` appends for a text with markers
      inside. */
  lemma SplitLineMarkers(reg: Registry, c: string, v: string, std: string, t: string, out: Out, out1: Out)
    requires '\\' in t && out1.lines == out.lines
    ensures var st := ESplitAll(reg, c, v, t, SplitState(0, std, out1), MarkerList(t));
      var r := UnderlineNote(st.out, if st.ix != 0 then Slice(t, st.ix, |t|) else t, c, v)
                 .AddLine(st.marker, if st.ix != 0 then Slice(t, st.ix, |t|) else t);
      && |out.lines| <= |r.lines| && r.lines[..|out.lines|] == out.lines
      && LineMarkers(r.lines[|out.lines|..]) == [std] + StandardNewlineMarkers(reg, MarkerList(t))
  {
    var st := ESplitAll(reg, c, v, t, SplitState(0, std, out1), MarkerList(t));
    ESplitAllMarkers(reg, c, v, t, SplitState(0, std, out1), MarkerList(t));
    var rest := if st.ix != 0 then Slice(t, st.ix, |t|) else t;
    var last := Line(st.marker, rest);
    var r := UnderlineNote(st.out, rest, c, v).AddLine(st.marker, rest);
    UnderlineNoteIff(st.out, rest, c, v);
    assert r.lines == st.out.lines + [last];
    assert r.lines[|out.lines|..] == st.out.lines[|out.lines|..] + [last];
    LineMarkersAppend(st.out.lines[|out.lines|..], [last]);
  }

  /** `doaddLine` raises exactly for a marker with no standard form.
      Otherwise it appends one line per embedded newline marker plus one,
      keeping the lines already recorded; their markers are the standard
      forms of the held marker and of the embedded newline markers. */
  lemma EAppendLineMarkers(reg: Registry, c: string, v: string, marker: string, text: string, out: Out)
    ensures var r := EAppendSpec(reg, c, v, marker, text, out);
      && (r.Ok? <==> reg.ToStandardMarker(marker).Ok?)
      && (r.Ok? ==>
            && |out.lines| <= |r.value.lines| && r.value.lines[..|out.lines|] == out.lines
            && LineMarkers(r.value.lines[|out.lines|..])
                 == [reg.ToStandardMarker(marker).value] + StandardNewlineMarkers(reg, MarkerList(ReplaceChar(text, '~', NoBreakSpace))))
  {
    var t := ReplaceChar(text, '~', NoBreakSpace);
    if reg.ToStandardMarker(marker).Ok? {
      var std := reg.ToStandardMarker(marker).value;
      var out1 := if std != marker then out.AddError(90, UnnumberedMarker, c, v) else out;
      if '\\' !in t {
        NoBackslashNoHits(t, 0);
        UnderlineNoteIff(out1, t, c, v);
        assert EAppendSpec(reg, c, v, marker, text, out).value == UnderlineNote(out1, t, c, v).AddLine(std, t);
      } else {
        SplitLineMarkers(reg, c, v, std, t, out, out1);
      }
    }
  }

  /** So the number of lines `doaddLine` appends is one more than the
      number of embedded newline markers. */
  lemma EAppendLineCount(reg: Registry, c: string, v: string, marker: string, text: string, out: Out)
    requires reg.ToStandardMarker(marker).Ok?
    ensures var r := EAppendSpec(reg, c, v, marker, text, out);
      r.Ok? && |r.value.lines| == |out.lines| + 1 + |NewlineMarkers(reg, MarkerList(ReplaceChar(text, '~', NoBreakSpace)))|
  {
    var r := EAppendSpec(reg, c, v, marker, text, out);
    EAppendLineMarkers(reg, c, v, marker, text, out);
    LineMarkersLength(r.value.lines[|out.lines|..]);
    StandardNewlineMarkersLength(reg, MarkerList(ReplaceChar(text, '~', NoBreakSpace)));
  }

  /** A line without markers inside is saved whole, with each `~` turned
      into a no-break space, under the marker's standard form; a marker that was not
      standard is reported with weight 90. */
  lemma SavedWhole(reg: Registry, c: string, v: string, marker: string, text: string, out: Out)
    requires '\\' !in text && reg.ToStandardMarker(marker).Ok?
    ensures var r := EAppendSpec(reg, c, v, marker, text, out);
      var std := reg.ToStandardMarker(marker).value;
      && r.Ok? && r.value.lines == out.lines + [Line(std, ReplaceChar(text, '~', NoBreakSpace))]
      && '~' !in r.value.lines[|out.lines|].text
      && r.value.prios == out.prios + (if std != marker then [PriorityError(90, c, v)] else [])
  {
    var t := ReplaceChar(text, '~', NoBreakSpace);
    assert forall k | 0 <= k < |t| :: t[k] != '~';
  }

  /** `~` is saved as a no-break space, not an ordinary one. */
  lemma TildeSavedAsNoBreak(reg: Registry, c: string, v: string, t: string, out: Out)
    requires reg.ToStandardMarker("p") == Ok("p") && t == "x~y"
    ensures EAppendSpec(reg, c, v, "p", t, out) == Ok(out.AddLine("p", "x\U{00A0}y"))
  {
    assert ReplaceChar(t, '~', NoBreakSpace) == "x\U{00A0}y";
  }

  /** A no-break space does not close a hanging underline, so `x_~y` gets
      no underline note. */
  lemma TildeNotUnderlineSpace(reg: Registry, c: string, v: string, t: string, out: Out)
    requires reg.ToStandardMarker("p") == Ok("p") && t == "x_~y"
    ensures EAppendSpec(reg, c, v, "p", t, out) == Ok(out.AddLine("p", "x_\U{00A0}y"))
  {
    var t1 := ReplaceChar(t, '~', NoBreakSpace);
    assert t1 == "x_\U{00A0}y";
    assert CountPair(t1, '_', ' ') == 0;
    assert CountPair(t1, ' ', '_') == 0;
  }

  /** A line whose only scanner entry is not a newline marker, and which
      has no underline, is saved whole. */
  lemma OneInlineHitSavedWhole(reg: Registry, c: string, v: string, marker: string, t0: string, t: string, h: MarkerHit, out: Out)
    requires reg.ToStandardMarker(marker) == Ok(marker)
    requires t == ReplaceChar(t0, '~', NoBreakSpace)
    requires '\\' in t && '_' !in t && MarkerList(t) == [h]
    requires h.marker != "\\" && !reg.IsNewlineMarker(h.marker)
    ensures EAppendSpec(reg, c, v, marker, t0, out) == Ok(out.AddLine(marker, t))
  {
    var st0 := SplitState(0, marker, out);
    assert ESplitStep(reg, c, v, t, st0, h) == st0;
    assert [h][1..] == [];
    assert ESplitAll(reg, c, v, t, st0, [h]) == st0;
  }

  lemma TildeVerseText(t: string, saved: string)
    requires t == "a \\v~5 b" && saved == "a \\v\U{00A0}5 b"
    ensures ReplaceChar(t, '~', NoBreakSpace) == saved
    ensures saved[2] == '\\' && '_' !in saved
  {
    var r := ReplaceChar(t, '~', NoBreakSpace);
    assert |r| == |saved| == 8;
    forall k | 0 <= k < 8
      ensures r[k] == saved[k]
    {
      assert r[k] == if t[k] == '~' then NoBreakSpace else t[k];
    }
  }

  /** Hence `a \v~5 b` is not split at the verse marker: it is saved whole,
      as long as that marker is not a newline marker. */
  lemma TildeVerseNotSplit(reg: Registry, c: string, v: string, t: string, saved: string, out: Out)
    requires reg.ToStandardMarker("p") == Ok("p") && !reg.IsNewlineMarker("v\U{00A0}5")
    requires t == "a \\v~5 b" && saved == "a \\v\U{00A0}5 b"
    ensures EAppendSpec(reg, c, v, "p", t, out) == Ok(out.AddLine("p", saved))
  {
    TildeVerseText(t, saved);
    MarkerScanProofs.NoBreakInsideMarker(saved);
    OneInlineHitSavedWhole(reg, c, v, "p", t, saved, MarkerHit("v\U{00A0}5", " ", 2), out);
  }

  // ----- reloading lines already in standard form -----

  /** A line the loader would record as it is: a standard newline marker
      other than `restore`, and text with no tag, brace, underline, `~` or
      backslash. */
  predicate ELogical(reg: Registry, l: Line) {
    && reg.IsNewlineMarker(l.marker) && l.marker != "restore" && l.marker != ""
    && reg.ToStandardMarker(l.marker) == Ok(l.marker)
    && forall k | 0 <= k < |l.text| :: l.text[k] !in "={}_~\\"
  }

  /** The held line as it would be recorded, if there is one. */
  function HeldLines(st: EAsm): seq<Line> {
    if st.lastMarker != "" then [Line(st.lastMarker, st.lastText)] else []
  }

  /** Text that saving leaves as it is: no `~` and no backslash. */
  predicate PlainText(s: string) {
    forall k | 0 <= k < |s| :: s[k] != '~' && s[k] != '\\'
  }

  /** A running load that holds, if anything, a line it would record as it
      is. */
  predicate HeldPlain(reg: Registry, st: EAsm) {
    && !st.failed && CountingVerses(st)
    && (st.lastMarker != "" ==>
          && reg.ToStandardMarker(st.lastMarker) == Ok(st.lastMarker)
          && PlainText(st.lastText))
  }

  /** Saving such a held line records it unchanged. */
  lemma EFlushPlain(reg: Registry, st: EAsm)
    requires !st.failed
    requires st.lastMarker != "" ==>
      && reg.ToStandardMarker(st.lastMarker) == Ok(st.lastMarker)
      && PlainText(st.lastText)
    ensures !EFlush(reg, st).failed && EFlush(reg, st).out.lines == st.out.lines + HeldLines(st)
  {
    if st.lastMarker != "" {
      assert '\\' !in st.lastText;
      SavedWhole(reg, st.c, st.v, st.lastMarker, st.lastText, st.out);
      assert ReplaceChar(st.lastText, '~', NoBreakSpace) == st.lastText;
    }
  }

  /** Processing a logical line saves the held line and holds the new one. */
  lemma EProcessLogical(reg: Registry, sorted: seq<string>, env: Env, st: EAsm, l: Line)
    requires !st.failed
    requires st.lastMarker != "" ==>
      && reg.ToStandardMarker(st.lastMarker) == Ok(st.lastMarker)
      && PlainText(st.lastText)
    requires ELogical(reg, l)
    ensures var r := EProcess(reg, sorted, env, st, l);
      && !r.failed && r.c == st.c && r.v == st.v && r.lastMarker == l.marker && r.lastText == l.text
      && r.out.lines == st.out.lines + HeldLines(st)
  {
    EFlushPlain(reg, st);
    if l.marker !in env.ignored {
      PlainTextUnchanged(PreCtx(env, st), l.text, st.sem, st.strongs, st.out);
      var p := Preprocess(PreCtx(env, st), l.text, st.sem, st.strongs, st.out);
      var st1 := st.(sem := p.sem, strongs := p.strongs, out := p.out);
      assert st1.out == st.out && p.result == l.text;
      EFlushPlain(reg, st1);
    }
  }

  /** One logical line keeps the load running, holds that line, and records
      the one held before it. */
  lemma EStepLogical(reg: Registry, sorted: seq<string>, env: Env, st: EAsm, l: Line)
    requires HeldPlain(reg, st) && ELogical(reg, l)
    ensures var r := ELoadStep(reg, sorted, env, st, l);
      && HeldPlain(reg, r) && HeldLines(r) == [l] && r.out.lines == st.out.lines + HeldLines(st)
  {
    StepCounts(reg, sorted, env, st, l);
    var st' := Tracked(st, l);
    assert ELoadStep(reg, sorted, env, st, l) == EProcess(reg, sorted, env, st', l);
    EProcessLogical(reg, sorted, env, st', l);
  }

  /** The bookkeeping of one induction step: what was recorded plus the
      held line grows by the step's line, then by the rest. */
  lemma Regroup(rLines: seq<Line>, rHeld: seq<Line>, sLines: seq<Line>, sHeld: seq<Line>, before: seq<Line>, lines: seq<Line>)
    requires lines != []
    requires sLines == before && sHeld == [lines[0]]
    requires rLines + rHeld == sLines + sHeld + lines[1..]
    ensures rLines + rHeld == before + lines
  {
    assert lines == [lines[0]] + lines[1..];
  }

  /** Loading logical lines records exactly those lines, after the held
      one. */
  lemma {:induction false} ELoadAllLogical(reg: Registry, sorted: seq<string>, env: Env, st: EAsm, lines: seq<Line>)
    requires HeldPlain(reg, st)
    requires forall k | 0 <= k < |lines| :: ELogical(reg, lines[k])
    ensures var r := ELoadAll(reg, sorted, env, st, lines);
      && HeldPlain(reg, r) && r.out.lines + HeldLines(r) == st.out.lines + HeldLines(st) + lines
    decreases |lines|
  {
    if lines == [] {
      assert st.out.lines + HeldLines(st) + lines == st.out.lines + HeldLines(st);
    } else {
      var st1 := ELoadStep(reg, sorted, env, st, lines[0]);
      var r := ELoadAll(reg, sorted, env, st1, lines[1..]);
      assert ELoadAll(reg, sorted, env, st, lines) == r;
      EStepLogical(reg, sorted, env, st, lines[0]);
      ELoadAllLogical(reg, sorted, env, st1, lines[1..]);
      Regroup(r.out.lines, HeldLines(r), st1.out.lines, HeldLines(st1), st.out.lines + HeldLines(st), lines);
    }
  }

  /** When the lines run out holding a plain line, the final flush records
      it and nothing fails. */
  lemma FinishPlain(reg: Registry, env: Env, physical: seq<Line>, lines0: seq<Line>, prios0: seq<PriorityError>,
                    sem: SemDict, strongs: StrDict)
    requires HeldPlain(reg, ELoadAll(reg, SortedNewlineMarkers(reg), env, EStart(lines0, prios0, sem, strongs), physical))
    ensures var fin := ELoadAll(reg, SortedNewlineMarkers(reg), env, EStart(lines0, prios0, sem, strongs), physical);
      var e := ELoadSpec(reg, env, physical, lines0, prios0, sem, strongs);
      !e.failed && e.out.lines == fin.out.lines + HeldLines(fin)
  {
    EFlushPlain(reg, ELoadAll(reg, SortedNewlineMarkers(reg), env, EStart(lines0, prios0, sem, strongs), physical));
  }

  /** Loading is idempotent on lines already in standard, untagged form:
      such a file loads without an exception to exactly its own lines,
      after any lines already recorded. */
  lemma ELoadIdempotent(reg: Registry, env: Env, physical: seq<Line>, lines0: seq<Line>, prios0: seq<PriorityError>,
                        sem: SemDict, strongs: StrDict)
    requires forall k | 0 <= k < |physical| :: ELogical(reg, physical[k])
    ensures var e := ELoadSpec(reg, env, physical, lines0, prios0, sem, strongs);
      !e.failed && e.out.lines == lines0 + physical
  {
    var st := EStart(lines0, prios0, sem, strongs);
    StartCounts(lines0, prios0, sem, strongs);
    assert HeldPlain(reg, st) && st.out.lines + HeldLines(st) == lines0;
    ELoadAllLogical(reg, SortedNewlineMarkers(reg), env, st, physical);
    FinishPlain(reg, env, physical, lines0, prios0, sem, strongs);
  }
}
