/** The ESFM loader: the USFM loader's line assembly, with each physical
    line first passed through the ESFM preprocessor, unnumbered markers
    rejected, `~` turned into a no-break space and unbalanced hanging underlines
    noted when a logical line is saved. */
module EsfmLoad {
  import opened Outcomes
  import opened PyStrings
  import opened Markers
  import opened MarkerScan
  import opened Lines
  import opened Recovery
  import opened EsfmTags
  import opened EsfmPre
  import opened UsfmBook

  /** What the loader takes from outside the book: its code, the header
      markers whose lines are not preprocessed, and the character classes
      the preprocessor uses. */
  datatype Env = Env(bbb: string, ignored: set<string>, punct: set<char>, dashes: set<char>)

  /** What `doaddLine` writes for each `~`: U+00A0, the no-break space. */
  const NoBreakSpace: char := '\U{00A0}'

  /** One scanner entry inside a line being saved, as in the USFM loader,
      except that the marker carried on to the next segment is put in its
      standard form, and a change is reported with weight 90. */
  function ESplitStep(reg: Registry, c: string, v: string, text: string, st: SplitState, h: MarkerHit): SplitState {
    if h.marker == "\\" then
      st.(out := st.out.AddError(100, FreeBackslash, c, v))
    else if reg.IsNewlineMarker(h.marker) then
      var out := if st.ix == 0 then st.out.AddError(96, NewlineInLine, c, v) else st.out;
      var out1 := out.AddLine(st.marker, Segment(text, st.ix, h.index));
      var std := reg.ToStandardMarker(h.marker).value;
      SplitState(NextStart(h.index, h.marker, h.next), std,
                 if std != h.marker then out1.AddError(90, UnnumberedInLine, c, v) else out1)
    else st
  }

  function ESplitAll(reg: Registry, c: string, v: string, text: string, st: SplitState, hits: seq<MarkerHit>): SplitState
    decreases |hits|
  {
    if hits == [] then st else ESplitAll(reg, c, v, text, ESplitStep(reg, c, v, text, st, hits[0]), hits[1..])
  }

  /** The check for balanced hanging underlines: a note, and no priority
      error, when `_ ` and ` _` occur a different number of times. */
  function UnderlineNote(out: Out, text: string, c: string, v: string): Out {
    if '_' !in text then out
    else
      var left, right := CountPair(text, '_', ' '), CountPair(text, ' ', '_');
      if left > right then out.AddNote(TooManyOpeningUnderlines, c, v)
      else if left < right then out.AddNote(TooManyClosingUnderlines, c, v)
      else out
  }

  /** `doaddLine(marker, text)`: what saving one logical line records. A
      marker with no standard form is a KeyError. */
  function EAppendSpec(reg: Registry, c: string, v: string, marker0: string, text0: string, out: Out): Result<Out> {
    var text := ReplaceChar(text0, '~', NoBreakSpace);
    match reg.ToStandardMarker(marker0)
    case Err(e) => Err(e)
    case Ok(marker) =>
      var out1 := if marker != marker0 then out.AddError(90, UnnumberedMarker, c, v) else out;
      if '\\' !in text then Ok(UnderlineNote(out1, text, c, v).AddLine(marker, text))
      else
        var st := ESplitAll(reg, c, v, text, SplitState(0, marker, out1), MarkerList(text));
        var rest := if st.ix != 0 then Slice(text, st.ix, |text|) else text;
        Ok(UnderlineNote(st.out, rest, c, v).AddLine(st.marker, rest))
  }

  /** The loader's state between physical lines: the position, the held
      line, what was recorded, the Bible's two tag dictionaries, and whether
      an exception has stopped the load. */
  datatype EAsm = EAsm(c: string, v: string, lastMarker: string, lastText: string,
                       out: Out, sem: SemDict, strongs: StrDict, failed: bool)

  /** Saves the held line, if there is one; an exception stops the load
      with nothing recorded for that line. */
  function EFlush(reg: Registry, st: EAsm): (r: EAsm)
    ensures r.c == st.c && r.v == st.v && r.lastMarker == st.lastMarker && r.lastText == st.lastText
    ensures r.sem == st.sem && r.strongs == st.strongs
  {
    if st.lastMarker == "" then st
    else
      match EAppendSpec(reg, st.c, st.v, st.lastMarker, st.lastText, st.out)
      case Err(_) => st.(failed := true)
      case Ok(out) => st.(out := out)
  }

  /** A line that starts with a note marker or its closing form. */
  predicate NoteStart(reg: Registry, marker: string) {
    reg.IsNoteMarker(marker) || (EndsWith(marker, '*') && reg.IsNoteMarker(marker[..|marker| - 1]))
  }

  /** What one preprocessed physical line does to the held line. Internal
      markers are tested before note markers; only the note branch spares
      `f` the joining space. */
  function EAssemble(reg: Registry, sorted: seq<string>, st: EAsm, marker: string, text: string): EAsm {
    if reg.IsNewlineMarker(marker) then
      var f := EFlush(reg, st);
      if f.failed then f else f.(lastMarker := marker, lastText := text)
    else if InternalStart(reg, marker) then
      var held := if !EndsWith(st.lastText, ' ') then st.lastText + " " else st.lastText;
      st.(lastText := held + "\\" + marker + " " + text, out := st.out.AddError(27, InternalAtStart, st.c, st.v))
    else if NoteStart(reg, marker) then
      var held := if !EndsWith(st.lastText, ' ') && marker != "f" then st.lastText + " " else st.lastText;
      st.(lastText := held + "\\" + marker + " " + text, out := st.out.AddError(26, NoteAtStart, st.c, st.v))
    else
      var st1 := st.(out := st.out.AddError(100, UnknownAtStart, st.c, st.v));
      match FirstPrefix(sorted, marker)
      case None => st1
      case Some(k) =>
        var f := EFlush(reg, st1);
        if f.failed then f
        else f.(lastMarker := k, lastText := marker[|k|..] + " " + text, out := f.out.AddNote(ChangedUnknown(k), st.c, st.v))
  }

  /** The preprocessor's context at the loader's current position. */
  function PreCtx(env: Env, st: EAsm): Ctx {
    Ctx(env.bbb, st.c, st.v, env.punct, env.dashes)
  }

  /** A physical line once the position has been tracked: preprocessed
      unless its marker is an ignored header marker, then assembled. A
      failing assertion in the preprocessor stops the load, keeping what
      the pass had already recorded. */
  function EProcess(reg: Registry, sorted: seq<string>, env: Env, st: EAsm, line: Line): EAsm {
    if line.marker in env.ignored then EAssemble(reg, sorted, st, line.marker, line.text)
    else
      var p := Preprocess(PreCtx(env, st), line.text, st.sem, st.strongs, st.out);
      var st1 := st.(sem := p.sem, strongs := p.strongs, out := p.out);
      if p.failed then st1.(failed := true) else EAssemble(reg, sorted, st1, line.marker, p.result)
  }

  /** One physical line: chapter and verse tracking (before the first
      chapter or verse every line but `intro` counts as a new verse), then
      `restore` lines skipped, then processing. */
  function ELoadStep(reg: Registry, sorted: seq<string>, env: Env, st: EAsm, line: Line): EAsm {
    if st.failed then st
    else if line.marker == "c" && line.text != "" then
      EProcess(reg, sorted, env, st.(c := FirstWord(line.text), v := "0"), line)
    else if line.marker == "v" && line.text != "" then
      EProcess(reg, sorted, env, st.(v := FirstWord(line.text), c := if st.c == "-1" then "1" else st.c), line)
    else if st.c == "-1" && line.marker != "intro" then
      match ParseInt(st.v)
      case None => st.(failed := true)
      case Some(n) => EProcess(reg, sorted, env, st.(v := IntToString(n + 1)), line)
    else if line.marker == "restore" then st
    else EProcess(reg, sorted, env, st, line)
  }

  function ELoadAll(reg: Registry, sorted: seq<string>, env: Env, st: EAsm, lines: seq<Line>): EAsm
    decreases |lines|
  {
    if lines == [] then st else ELoadAll(reg, sorted, env, ELoadStep(reg, sorted, env, st, lines[0]), lines[1..])
  }

  /** The state the load starts in: position -1:-1, nothing held. */
  function EStart(lines0: seq<Line>, prios0: seq<PriorityError>, sem: SemDict, strongs: StrDict): EAsm {
    EAsm("-1", "-1", "", "", Out(lines0, prios0, []), sem, strongs, false)
  }

  /** `load` over the physical lines: the final flush, and the note for an
      empty file. */
  function ELoadSpec(reg: Registry, env: Env, physical: seq<Line>, lines0: seq<Line>, prios0: seq<PriorityError>,
                     sem: SemDict, strongs: StrDict): EAsm {
    var fin := ELoadAll(reg, SortedNewlineMarkers(reg), env, EStart(lines0, prios0, sem, strongs), physical);
    var done := if fin.failed then fin else EFlush(reg, fin);
    if physical == [] && !done.failed then done.(out := done.out.AddNote(EmptyFile, done.c, done.v)) else done
  }

  /** Once an exception has stopped the load, later lines change nothing. */
  lemma {:induction false} ELoadAllFailed(reg: Registry, sorted: seq<string>, env: Env, st: EAsm, lines: seq<Line>)
    requires st.failed
    ensures ELoadAll(reg, sorted, env, st, lines) == st
    decreases |lines|
  {
    if lines != [] {
      ELoadAllFailed(reg, sorted, env, ELoadStep(reg, sorted, env, st, lines[0]), lines[1..]);
    }
  }
}
