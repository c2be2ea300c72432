/** The USFM loader: physical `(marker, text)` lines are combined into
    logical lines, each starting with a newline (paragraph-level) marker,
    holding one line back so that a following internal-marker line can be
    merged into it. */
module UsfmBook {
  import opened Outcomes
  import opened PyStrings
  import opened Markers
  import opened MarkerScan
  import opened Lines
  import opened Recovery

  /** The state of the splitting loop of `doAppendLine`: where the next
      segment starts, the marker it will carry, and what was recorded. */
  datatype SplitState = SplitState(ix: nat, marker: string, out: Out)

  /** One scanner entry inside a line being saved. A free-standing backslash
      is reported and left in the text; an embedded newline marker ends the
      current segment (reported only for the first split) and starts the
      next. Other markers stay in the text. */
  function SplitStep(reg: Registry, c: string, v: string, text: string, st: SplitState, h: MarkerHit): SplitState {
    if h.marker == "\\" then
      st.(out := st.out.AddError(100, FreeBackslash, c, v))
    else if reg.IsNewlineMarker(h.marker) then
      var out := if st.ix == 0 then st.out.AddError(96, NewlineInLine, c, v) else st.out;
      SplitState(NextStart(h.index, h.marker, h.next), h.marker,
                 out.AddLine(st.marker, Segment(text, st.ix, h.index)))
    else st
  }

  function SplitAll(reg: Registry, c: string, v: string, text: string, st: SplitState, hits: seq<MarkerHit>): SplitState
    decreases |hits|
  {
    if hits == [] then st else SplitAll(reg, c, v, text, SplitStep(reg, c, v, text, st, hits[0]), hits[1..])
  }

  /** `doAppendLine(marker, text)`: what saving one logical line records. */
  function AppendLineSpec(reg: Registry, c: string, v: string, marker: string, text: string, out: Out): Out {
    if '\\' !in text then out.AddLine(marker, text)
    else
      var st := SplitAll(reg, c, v, text, SplitState(0, marker, out), MarkerList(text));
      st.out.AddLine(st.marker, if st.ix != 0 then Slice(text, st.ix, |text|) else text)
  }

  /** The loader's state between physical lines: the current chapter and
      verse, the held line, and what was recorded. */
  datatype Asm = Asm(c: string, v: string, lastMarker: string, lastText: string, out: Out)

  /** A line that starts with an internal marker or its closing form. */
  predicate InternalStart(reg: Registry, marker: string) {
    reg.IsInternalMarker(marker) || (EndsWith(marker, '*') && reg.IsInternalMarker(marker[..|marker| - 1]))
  }

  /** Saves the held line, if there is one. */
  function Flush(reg: Registry, st: Asm): Out {
    if st.lastMarker != "" then AppendLineSpec(reg, st.c, st.v, st.lastMarker, st.lastText, st.out) else st.out
  }

  /** What one physical line does once the position has been tracked. */
  function Assemble(reg: Registry, sorted: seq<string>, st: Asm, marker: string, text: string): Asm {
    if reg.IsNewlineMarker(marker) then
      Asm(st.c, st.v, marker, text, Flush(reg, st))
    else if InternalStart(reg, marker) then
      var held := if !EndsWith(st.lastText, ' ') && marker != "f" then st.lastText + " " else st.lastText;
      st.(lastText := held + "\\" + marker + " " + text, out := st.out.AddError(27, InternalAtStart, st.c, st.v))
    else
      var st1 := st.(out := st.out.AddError(100, UnknownAtStart, st.c, st.v));
      match FirstPrefix(sorted, marker)
      case None => st1
      case Some(k) =>
        Asm(st.c, st.v, k, marker[|k|..] + " " + text, Flush(reg, st1).AddNote(ChangedUnknown(k), st.c, st.v))
  }

  /** One physical line: chapter and verse tracking, `restore` lines
      skipped, then assembly. */
  function LoadStep(reg: Registry, sorted: seq<string>, st: Asm, line: Line): Asm {
    if line.marker == "c" && line.text != "" then
      Assemble(reg, sorted, st.(c := FirstWord(line.text), v := "0"), line.marker, line.text)
    else if line.marker == "v" && line.text != "" then
      Assemble(reg, sorted, st.(v := FirstWord(line.text), c := if st.c == "0" then "1" else st.c), line.marker, line.text)
    else if line.marker == "restore" then st
    else Assemble(reg, sorted, st, line.marker, line.text)
  }

  function LoadAll(reg: Registry, sorted: seq<string>, st: Asm, lines: seq<Line>): Asm
    decreases |lines|
  {
    if lines == [] then st else LoadAll(reg, sorted, LoadStep(reg, sorted, st, lines[0]), lines[1..])
  }

  /** `sortedNLMarkers`: the combined newline markers, longest first. */
  function SortedNewlineMarkers(reg: Registry): seq<string> {
    SortByLengthDesc(reg.combinedNewlineMarkersList)
  }

  /** `load` over the physical lines, starting from the book's lines and
      priority errors in `out` and an empty note list. */
  function LoadSpec(reg: Registry, physical: seq<Line>, lines0: seq<Line>, prios0: seq<PriorityError>): Out {
    var fin := LoadAll(reg, SortedNewlineMarkers(reg), Asm("0", "0", "", "", Out(lines0, prios0, [])), physical);
    var out := Flush(reg, fin);
    if physical == [] then out.AddNote(EmptyFile, fin.c, fin.v) else out
  }

  class UsfmBibleBook {
    var rawLines: seq<Line>
    var priorityErrors: seq<PriorityError>
    /** The 'Load Errors' entry of the book's error dictionary. */
    var loadErrors: Option<seq<LoadNote>>

    constructor ()
      ensures rawLines == [] && priorityErrors == [] && loadErrors == None
    {
      rawLines := [];
      priorityErrors := [];
      loadErrors := None;
    }

    /** The base class's `appendLine`, taken as appending to the book. */
    method AppendLine(marker: string, text: string)
      modifies this
      ensures rawLines == old(rawLines) + [Line(marker, text)]
      ensures priorityErrors == old(priorityErrors) && loadErrors == old(loadErrors)
    {
      rawLines := rawLines + [Line(marker, text)];
    }

    /** The base class's `addPriorityError`, without the message. */
    method AddPriorityError(weight: nat, c: string, v: string)
      modifies this
      ensures priorityErrors == old(priorityErrors) + [PriorityError(weight, c, v)]
      ensures rawLines == old(rawLines) && loadErrors == old(loadErrors)
    {
      priorityErrors := priorityErrors + [PriorityError(weight, c, v)];
    }

    /** `doAppendLine`: `notes0` is the load's `loadErrors` list, returned
        extended; `c` and `v` are the position the load has reached. */
    method DoAppendLine(reg: Registry, c: string, v: string, marker0: string, text0: string, notes0: seq<LoadNote>)
      returns (notes: seq<LoadNote>)
      modifies this
      ensures Out(rawLines, priorityErrors, notes)
        == AppendLineSpec(reg, c, v, marker0, text0, Out(old(rawLines), old(priorityErrors), notes0))
      ensures loadErrors == old(loadErrors)
    {
      var marker, text := marker0, text0;
      notes := notes0;
      if '\\' in text {
        var markerList := GetMarkerListFromText(text);
        var ix: nat := 0;
        ghost var all := SplitAll(reg, c, v, text, SplitState(0, marker, Out(rawLines, priorityErrors, notes)), markerList);
        var i := 0;
        while i < |markerList|
          invariant 0 <= i <= |markerList|
          invariant all == SplitAll(reg, c, v, text, SplitState(ix, marker, Out(rawLines, priorityErrors, notes)), markerList[i..])
          invariant loadErrors == old(loadErrors)
        {
          var h := markerList[i];
          assert markerList[i..][1..] == markerList[i + 1..];
          if h.marker == "\\" {
            notes := notes + [LoadNote(FreeBackslash, c, v)];
            AddPriorityError(100, c, v);
          } else if reg.IsNewlineMarker(h.marker) {
            if ix == 0 {
              notes := notes + [LoadNote(NewlineInLine, c, v)];
              AddPriorityError(96, c, v);
            }
            var thisText := RStrip(Slice(text, ix, h.index));
            AppendLine(marker, thisText);
            ix := h.index + 1 + |h.marker| + |h.next|;
            marker := h.marker;
          }
          i := i + 1;
        }
        if ix != 0 {
          text := Slice(text, ix, |text|);
        }
      }
      AppendLine(marker, text);
    }

    /** The chapter/verse tracking and assembly of one physical line, as the
        body of the load loop does it. */
    method LoadLine(reg: Registry, sorted: seq<string>, st: Asm, line: Line) returns (r: Asm)
      modifies this
      requires st.out.lines == rawLines && st.out.prios == priorityErrors
      ensures r == LoadStep(reg, sorted, st, line)
      ensures rawLines == r.out.lines && priorityErrors == r.out.prios
      ensures loadErrors == old(loadErrors)
    {
      var c, v := st.c, st.v;
      var lastMarker, lastText := st.lastMarker, st.lastText;
      var notes := st.out.notes;
      var marker, text := line.marker, line.text;
      if marker == "c" && text != "" {
        c, v := FirstWord(text), "0";
      } else if marker == "v" && text != "" {
        v := FirstWord(text);
        if c == "0" {
          c := "1";  // a single-chapter book without an explicit chapter 1
        }
      } else if marker == "restore" {
        return st;
      }
      ghost var tracked := Asm(c, v, lastMarker, lastText, st.out);
      assert LoadStep(reg, sorted, st, line) == Assemble(reg, sorted, tracked, marker, text);
      if reg.IsNewlineMarker(marker) {
        if lastMarker != "" {
          notes := DoAppendLine(reg, c, v, lastMarker, lastText, notes);
        }
        lastMarker, lastText := marker, text;
      } else if reg.IsInternalMarker(marker) || (EndsWith(marker, '*') && reg.IsInternalMarker(marker[..|marker| - 1])) {
        notes := notes + [LoadNote(InternalAtStart, c, v)];
        AddPriorityError(27, c, v);
        if !EndsWith(lastText, ' ') && marker != "f" {
          lastText := lastText + " ";
        }
        lastText := lastText + "\\" + marker + " " + text;
      } else {
        notes := notes + [LoadNote(UnknownAtStart, c, v)];
        AddPriorityError(100, c, v);
        ghost var unknown := Asm(c, v, lastMarker, lastText, Out(rawLines, priorityErrors, notes));
        var j := 0;
        while j < |sorted|
          invariant 0 <= j <= |sorted|
          invariant FirstPrefix(sorted, marker) == FirstPrefix(sorted[j..], marker)
          invariant rawLines == unknown.out.lines && priorityErrors == unknown.out.prios && notes == unknown.out.notes
          invariant lastMarker == unknown.lastMarker && lastText == unknown.lastText
          invariant loadErrors == old(loadErrors)
        {
          var tryMarker := sorted[j];
          assert sorted[j..][1..] == sorted[j + 1..];
          if tryMarker <= marker {
            if lastMarker != "" {
              notes := DoAppendLine(reg, c, v, lastMarker, lastText, notes);
            }
            lastMarker, lastText := tryMarker, marker[|tryMarker|..] + " " + text;
            notes := notes + [LoadNote(ChangedUnknown(tryMarker), c, v)];
            break;
          }
          j := j + 1;
        }
      }
      r := Asm(c, v, lastMarker, lastText, Out(rawLines, priorityErrors, notes));
    }

    /** `load`, given the file's physical lines. */
    method Load(reg: Registry, physical: seq<Line>)
      modifies this
      ensures var out := LoadSpec(reg, physical, old(rawLines), old(priorityErrors));
        && rawLines == out.lines && priorityErrors == out.prios
        && loadErrors == if out.notes != [] then Some(out.notes) else old(loadErrors)
    {
      var sorted := SortByLengthDesc(reg.combinedNewlineMarkersList);
      var st := Asm("0", "0", "", "", Out(rawLines, priorityErrors, []));
      ghost var all := LoadAll(reg, sorted, st, physical);
      var i := 0;
      while i < |physical|
        invariant 0 <= i <= |physical|
        invariant all == LoadAll(reg, sorted, st, physical[i..])
        invariant st.out.lines == rawLines && st.out.prios == priorityErrors
        invariant loadErrors == old(loadErrors)
      {
        assert physical[i..][1..] == physical[i + 1..];
        st := LoadLine(reg, sorted, st, physical[i]);
        i := i + 1;
      }
      var notes := st.out.notes;
      if st.lastMarker != "" {
        notes := DoAppendLine(reg, st.c, st.v, st.lastMarker, st.lastText, notes);
      }
      if physical == [] {
        notes := notes + [LoadNote(EmptyFile, st.c, st.v)];
      }
      if notes != [] {
        loadErrors := Some(notes);
      }
    }
  }
}
