/** `ESFMBibleBook`: loading one ESFM book, with the preprocessor's
    character loop, the two tag savers, `doaddLine` and the line loop of
    `load` written as the loops and in-place updates they are, each proved
    against the functions of `EsfmTags`, `EsfmPre` and `EsfmLoad`. */
module EsfmBook {
  import opened Outcomes
  import opened PyStrings
  import opened Markers
  import opened MarkerScan
  import opened Lines
  import opened Recovery
  import opened EsfmTags
  import opened EsfmPre
  import opened EsfmPreProofs
  import opened UsfmBook
  import opened EsfmLoad

  /** The local variables of the preprocessor's character loop. */
  datatype Locals = Locals(
    braced: bool, underlined: bool,
    word: string, group: string, bracedText: string, tag: string,
    hang: nat, last: string, result: string)

  /** The preprocessor's state made of the loop's locals and the state
      they share with the rest of the load. */
  function Pack(loc: Locals, sem: SemDict, strongs: StrDict, out: Out, failed: bool): Pre {
    Pre(loc.braced, loc.underlined, loc.word, loc.group, loc.bracedText, loc.tag, loc.hang, loc.last, loc.result,
        sem, strongs, out, failed)
  }

  /** The local variables of the load loop: the position, the held line,
      and the `loadErrors` list. */
  datatype Cursor = Cursor(c: string, v: string, lastMarker: string, lastText: string, notes: seq<LoadNote>)

  class EsfmBibleBook {
    const bbb: string
    /** The Bible whose `semanticDict` and `StrongsDict` the load fills. */
    const container: EsfmBible
    var rawLines: seq<Line>
    var priorityErrors: seq<PriorityError>
    /** The 'Load Errors' entry of the book's error dictionary. */
    var loadErrors: Option<seq<LoadNote>>

    constructor (containerBible: EsfmBible, code: string)
      ensures container == containerBible && bbb == code
      ensures rawLines == [] && priorityErrors == [] && loadErrors == None
    {
      bbb := code;
      container := containerBible;
      rawLines := [];
      priorityErrors := [];
      loadErrors := None;
    }

    /** The preprocessor's state as `EsfmPre` describes it: the loop's
        locals, the Bible's dictionaries and the book's records. */
    ghost function PreState(loc: Locals, notes: seq<LoadNote>, failed: bool): Pre
      reads this, container
    {
      Pack(loc, container.semanticDict, container.strongsDict, Out(rawLines, priorityErrors, notes), failed)
    }

    /** The loader's state as `EsfmLoad` describes it. */
    ghost function LoadState(cur: Cursor, failed: bool): EAsm
      reads this, container
    {
      EAsm(cur.c, cur.v, cur.lastMarker, cur.lastText, Out(rawLines, priorityErrors, cur.notes),
           container.semanticDict, container.strongsDict, failed)
    }

    /** The base class's `addLine`, taken as appending to the book. */
    method AddLine(marker: string, text: string)
      modifies this
      ensures rawLines == old(rawLines) + [Line(marker, text)]
      ensures priorityErrors == old(priorityErrors) && loadErrors == old(loadErrors)
    {
      rawLines := rawLines + [Line(marker, text)];
    }

    /** The base class's `addPriorityError`, without the message. */
    method AddPriorityError(weight: nat, c: string, v: string)
      modifies this
      ensures priorityErrors == old(priorityErrors) + [PriorityError(weight, c, v)]
      ensures rawLines == old(rawLines) && loadErrors == old(loadErrors)
    {
      priorityErrors := priorityErrors + [PriorityError(weight, c, v)];
    }

    /** `saveSemanticTag`: updates the Bible's semantic dictionary in place
        and returns the `\sem` field. */
    method SaveSemanticTag(c: string, v: string, word: string, tag: string, notes0: seq<LoadNote>)
      returns (field: string, notes: seq<LoadNote>)
      requires SemanticTagAccepted(word, tag)
      modifies this, container
      ensures var s := SemanticTag(old(container.semanticDict), Out(old(rawLines), old(priorityErrors), notes0), bbb, c, v, word, tag);
        && container.semanticDict == s.dict && Out(rawLines, priorityErrors, notes) == s.out && field == s.field
      ensures container.strongsDict == old(container.strongsDict) && loadErrors == old(loadErrors)
    {
      notes := notes0;
      var tagMarker, tagContent := tag[1], tag[2..];
      if tagMarker !in SemanticTags {
        notes := notes + [LoadNote(UnknownTag, c, v)];
        AddPriorityError(15, c, v);
        container.semanticDict := container.semanticDict.(tagErrors := container.semanticDict.tagErrors + [RefWord(bbb, c, v, tag[1..])]);
      }
      if tagContent == "" {
        tagContent := word;
      }
      var thisDict := container.semanticDict;
      if tagMarker in thisDict.found && tagContent in thisDict.found[tagMarker] {
        container.semanticDict := thisDict.(found := Append(thisDict.found, tagMarker, tagContent, RefWord(bbb, c, v, word)));
      } else {
        notes := notes + [LoadNote(UnknownTagContent, c, v)];
        AddPriorityError(15, c, v);
        var entry := if word == tagContent then Ref(bbb, c, v) else RefWord(bbb, c, v, word);
        container.semanticDict := thisDict.(missing := Append(thisDict.missing, tagMarker, tagContent, entry));
      }
      if word == tagContent {
        return "\\sem " + [tagMarker] + " " + word + "\\sem*", notes;
      }
      field := "\\sem " + [tagMarker] + " " + word + "=" + tagContent + "\\sem*";
    }

    /** `saveStrongsTag`: updates the Bible's Strong's dictionary in place,
        promoting a plain gloss to a list, and returns the `\str` field. */
    method SaveStrongsTag(c: string, v: string, word: string, tag: string, notes0: seq<LoadNote>)
      returns (field: string, notes: seq<LoadNote>)
      requires StrongsTagAccepted(word, tag)
      modifies this, container
      ensures var s := StrongsTag(old(container.strongsDict), Out(old(rawLines), old(priorityErrors), notes0), bbb, c, v, word, tag);
        && container.strongsDict == s.dict && Out(rawLines, priorityErrors, notes) == s.out && field == s.field
      ensures container.semanticDict == old(container.semanticDict) && loadErrors == old(loadErrors)
    {
      notes := notes0;
      var tagMarker, tagContent := tag[2], tag[3..];
      if tagMarker !in StrongsTags {
        notes := notes + [LoadNote(UnknownTag, c, v)];
        AddPriorityError(10, c, v);
        container.strongsDict := container.strongsDict.(tagErrors := container.strongsDict.tagErrors + [RefWord(bbb, c, v, tag[1..])]);
      }
      if tagContent == "" {
        tagContent := word;
      }
      var thisDict := container.strongsDict;
      if tagMarker in thisDict.found && tagContent in thisDict.found[tagMarker] {
        var thisEntry := thisDict.found[tagMarker][tagContent];
        var items := if thisEntry.Plain? then [Original(thisEntry.gloss)] else thisEntry.items;
        var inner := thisDict.found[tagMarker][tagContent := Listed(items + [Occurrence(RefWord(bbb, c, v, word))])];
        container.strongsDict := thisDict.(found := thisDict.found[tagMarker := inner]);
      } else {
        notes := notes + [LoadNote(UnknownTagContent, c, v)];
        AddPriorityError(10, c, v);
        var entry := if word == tagContent then Ref(bbb, c, v) else RefWord(bbb, c, v, word);
        container.strongsDict := thisDict.(missing := Append(thisDict.missing, tagMarker, tagContent, entry));
      }
      field := "\\str " + [tagMarker] + " " + tagContent + "=" + word + "\\str*";
    }

    /** The hanging-underline bookkeeping at the head of the loop body. */
    method HangChar(ctx: Ctx, loc: Locals, ch: char, notes0: seq<LoadNote>)
      returns (r: Locals, notes: seq<LoadNote>, ok: bool)
      modifies this
      ensures PreState(r, notes, !ok) == HangPart(ctx, old(PreState(loc, notes0, false)), ch)
      ensures loadErrors == old(loadErrors)
    {
      r, notes, ok := loc, notes0, true;
      if ch == ' ' {
        if loc.last == "_" {
          if loc.hang + 1 >= 3 {
            return loc, notes, false;  // the assertion on the count fails
          }
          r := r.(hang := loc.hang + 1);
        }
        if loc.last != "_" && !loc.underlined && loc.hang != 0 {
          r := r.(group := "");
        }
      } else if ch == '_' && loc.last == " " {
        var count: int := loc.hang - 1;
        if count < 0 {
          notes := notes + [LoadNote(MissingUnderlineStart, ctx.c, ctx.v)];
          AddPriorityError(10, ctx.c, ctx.v);
          count := 0;  // recover
        }
        r := r.(hang := count);
      }
    }

    /** Saves the tag a terminator ends: a Strong's tag for the underline
        group or the word, a semantic tag for the braced text or the word,
        and nothing but a log entry when there is nothing to tag. */
    method SaveTagged(ctx: Ctx, loc: Locals, notes0: seq<LoadNote>)
      returns (r: Locals, notes: seq<LoadNote>, ok: bool)
      requires ctx.bbb == bbb && |loc.tag| > 1
      modifies this, container
      ensures PreState(r, notes, !ok) == SaveTag(ctx, old(PreState(loc, notes0, false)))
      ensures loadErrors == old(loadErrors)
    {
      r, notes, ok := loc, notes0, true;
      if r.tag[1] == 'S' {
        var subject := if r.group != "" then r.group else r.word;
        if !StrongsTagAccepted(subject, r.tag) {
          return r, notes, false;  // an assertion of saveStrongsTag fails
        }
        var field;
        field, notes := SaveStrongsTag(ctx.c, ctx.v, subject, r.tag, notes);
        r := r.(result := r.result + field, group := "", underlined := false);
      } else if r.bracedText != "" || r.word != "" {
        var subject := if r.bracedText != "" then r.bracedText else r.word;
        if !SemanticTagAccepted(subject, r.tag) {
          return r, notes, false;  // an assertion of saveSemanticTag fails
        }
        var field;
        field, notes := SaveSemanticTag(ctx.c, ctx.v, subject, r.tag, notes);
        r := r.(result := r.result + field);
      }
    }

    /** What follows a saved tag: an underline terminator is written as a
        space and opens a group, `=` starts a consecutive tag, and any other
        terminator is written out and clears the word. */
    method WriteTerminator(loc: Locals, ch: char, ghost sem: SemDict, ghost strongs: StrDict, ghost out: Out)
      returns (r: Locals)
      ensures Pack(r, sem, strongs, out, false) == AfterTag(Pack(loc, sem, strongs, out, false), ch)
    {
      r := loc;
      var written: string := [ch];
      if ch == '_' {
        if !r.underlined {  // the group is just starting
          r := r.(group := r.group + r.word + [ch], underlined := true);
        }
        written := " ";
      } else if ch != '=' {
        r := r.(underlined := false);
      }
      if written == "=" {
        r := r.(tag := written);  // a consecutive tag starts
      } else {
        r := r.(word := "", bracedText := "", tag := "");
        if written != "}" {
          r := r.(result := r.result + written);
        }
      }
    }

    /** A character that ends an open tag: the underline group is extended,
        the tag is saved, and the terminator is written out. */
    method EndTag(ctx: Ctx, loc: Locals, ch: char, notes0: seq<LoadNote>)
      returns (r: Locals, notes: seq<LoadNote>, ok: bool)
      requires ctx.bbb == bbb && loc.tag != "" && Ends(ctx, ch)
      modifies this, container
      ensures PreState(r, notes, !ok) == EmitPart(ctx, old(PreState(loc, notes0, false)), ch)
      ensures loadErrors == old(loadErrors)
    {
      r, notes, ok := loc, notes0, true;
      if r.underlined {
        r := r.(group := r.group + r.word);
        if ch == '_' {
          r := r.(group := r.group + [ch]);
        } else {
          r := r.(underlined := false);
        }
      }
      assert PreState(r, notes, false) == Grouped(old(PreState(loc, notes0, false)), ch);
      if |r.tag| > 1 {
        r, notes, ok := SaveTagged(ctx, r, notes);
        if !ok {
          return;
        }
        r := WriteTerminator(r, ch, container.semanticDict, container.strongsDict, Out(rawLines, priorityErrors, notes));
      } else {
        notes := notes + [LoadNote(ShortTag, ctx.c, ctx.v)];
        AddPriorityError(21, ctx.c, ctx.v);
      }
    }

    /** The output half of the loop body. */
    method EmitChar(ctx: Ctx, loc: Locals, ch: char, notes0: seq<LoadNote>)
      returns (r: Locals, notes: seq<LoadNote>, ok: bool)
      requires ctx.bbb == bbb
      modifies this, container
      ensures PreState(r, notes, !ok) == EmitPart(ctx, old(PreState(loc, notes0, false)), ch)
      ensures loadErrors == old(loadErrors)
    {
      if loc.tag != "" {
        if ch in " _=" || ch in ctx.punct {
          r, notes, ok := EndTag(ctx, loc, ch, notes0);
        } else {
          r, notes, ok := loc.(tag := loc.tag + [ch]), notes0, true;  // still in the tag
        }
        return;
      }
      r, notes, ok := loc, notes0, true;
      if ch == '=' {
        r := r.(tag := [ch]);
        return;
      }
      var written: string := [ch];
      if ch == '{' {
        if (r.last != "" && r.last != " ") || r.tag != "" || r.braced || r.bracedText != "" {
          notes := notes + [LoadNote(UnexpectedBrace, ctx.c, ctx.v)];
          AddPriorityError(20, ctx.c, ctx.v);
        }
        r := r.(braced := true);
        written := "";  // nothing goes into the result
      } else if ch in " _" || ch in ctx.dashes {
        if r.underlined {
          r := r.(group := r.group + r.word);
          if ch == '_' {
            r := r.(group := r.group + [ch]);
          } else {
            r := r.(underlined := false);
          }
        } else if ch == ' ' {
          r := r.(underlined := false);
        } else if ch == '_' {
          if r.hang == 0 {  // not a hanging underline
            r := r.(group := r.group + r.word + [ch]);
          }
          r := r.(underlined := true);
        }
        r := r.(word := "");
      } else if ch != '}' {
        r := r.(word := r.word + [ch]);
      }
      if written != "}" {
        r := r.(result := r.result + written);
      }
    }

    /** One pass of the character loop. */
    method PreprocessChar(ctx: Ctx, loc: Locals, ch: char, notes0: seq<LoadNote>)
      returns (r: Locals, notes: seq<LoadNote>, ok: bool)
      requires ctx.bbb == bbb
      modifies this, container
      ensures PreState(r, notes, !ok) == PreStep(ctx, old(PreState(loc, notes0, false)), ch)
      ensures loadErrors == old(loadErrors)
    {
      r, notes, ok := HangChar(ctx, loc, ch, notes0);
      if !ok {
        return;
      }
      if r.braced {
        if ch == '}' {
          r := r.(braced := false);
        } else {
          r := r.(bracedText := r.bracedText + [if ch == ' ' then '_' else ch]);
        }
      }
      r, notes, ok := EmitChar(ctx, r, ch, notes);
      if !ok {
        return;
      }
      r := r.(last := [ch]);
    }

    /** `ESFMPreprocessing`: the character loop over one line. `ok` is false
        when one of its assertions failed. */
    method Preprocess(ctx: Ctx, text: string, notes0: seq<LoadNote>)
      returns (result: string, notes: seq<LoadNote>, ok: bool)
      requires ctx.bbb == bbb
      modifies this, container
      ensures var p := EsfmPre.Preprocess(ctx, text, old(container.semanticDict), old(container.strongsDict),
                                          Out(old(rawLines), old(priorityErrors), notes0));
        && ok == !p.failed && result == p.result && Out(rawLines, priorityErrors, notes) == p.out
        && container.semanticDict == p.sem && container.strongsDict == p.strongs
      ensures loadErrors == old(loadErrors)
    {
      var loc := Locals(false, false, "", "", "", "", 0, "", "");
      notes, ok := notes0, true;
      ghost var all := Run(ctx, text, 0, PreState(loc, notes, false));
      var j := 0;
      while j < |text| && ok
        invariant j <= |text|
        invariant all == Run(ctx, text, j, PreState(loc, notes, !ok))
        invariant loadErrors == old(loadErrors)
      {
        RunStep(ctx, text, j, PreState(loc, notes, false));
        loc, notes, ok := PreprocessChar(ctx, loc, text[j], notes);
        j := j + 1;
      }
      result := loc.result;
    }

    /** The loop of `doaddLine` over the markers inside a line: each
        embedded newline marker ends a segment, which is saved, and the
        next segment carries its standard form. */
    method SplitLine(reg: Registry, c: string, v: string, text: string, marker0: string, notes0: seq<LoadNote>)
      returns (ix: nat, marker: string, notes: seq<LoadNote>)
      modifies this
      ensures SplitState(ix, marker, Out(rawLines, priorityErrors, notes))
        == ESplitAll(reg, c, v, text, SplitState(0, marker0, Out(old(rawLines), old(priorityErrors), notes0)), MarkerList(text))
      ensures loadErrors == old(loadErrors)
    {
      var markerList := GetMarkerListFromText(text);
      ix, marker, notes := 0, marker0, notes0;
      ghost var all := ESplitAll(reg, c, v, text, SplitState(0, marker, Out(rawLines, priorityErrors, notes)), markerList);
      var i := 0;
      while i < |markerList|
        invariant 0 <= i <= |markerList|
        invariant all == ESplitAll(reg, c, v, text, SplitState(ix, marker, Out(rawLines, priorityErrors, notes)), markerList[i..])
        invariant loadErrors == old(loadErrors)
      {
        var h := markerList[i];
        assert markerList[i..][1..] == markerList[i + 1..];
        if h.marker == "\\" {
          notes := notes + [LoadNote(FreeBackslash, c, v)];
          AddPriorityError(100, c, v);
        } else if reg.IsNewlineMarker(h.marker) {
          if ix == 0 {
            notes := notes + [LoadNote(NewlineInLine, c, v)];
            AddPriorityError(96, c, v);
          }
          var thisText := RStrip(Slice(text, ix, h.index));
          AddLine(marker, thisText);
          ix := h.index + 1 + |h.marker| + |h.next|;
          marker := reg.ToStandardMarker(h.marker).value;
          if marker != h.marker {
            notes := notes + [LoadNote(UnnumberedInLine, c, v)];
            AddPriorityError(90, c, v);
          }
        }
        i := i + 1;
      }
    }

    /** `doaddLine`: saves one logical line, splitting it at embedded
        newline markers. `ok` is false when a marker has no standard form. */
    method DoAddLine(reg: Registry, c: string, v: string, marker0: string, text0: string, notes0: seq<LoadNote>)
      returns (notes: seq<LoadNote>, ok: bool)
      modifies this
      ensures var r := EAppendSpec(reg, c, v, marker0, text0, Out(old(rawLines), old(priorityErrors), notes0));
        && ok == r.Ok?
        && (ok ==> Out(rawLines, priorityErrors, notes) == r.value)
        && (!ok ==> rawLines == old(rawLines) && priorityErrors == old(priorityErrors) && notes == notes0)
      ensures loadErrors == old(loadErrors)
    {
      notes := notes0;
      var text := ReplaceChar(text0, '~', NoBreakSpace);
      var standard := reg.ToStandardMarker(marker0);
      if standard.Err? {
        return notes, false;  // a KeyError
      }
      var marker := standard.value;
      if marker != marker0 {
        notes := notes + [LoadNote(UnnumberedMarker, c, v)];
        AddPriorityError(90, c, v);
      }
      if '\\' in text {
        var ix;
        ix, marker, notes := SplitLine(reg, c, v, text, marker, notes);
        if ix != 0 {
          text := Slice(text, ix, |text|);  // the final part of the line
        }
      }
      if '_' in text {
        var leftCount, rightCount := CountPair(text, '_', ' '), CountPair(text, ' ', '_');
        if leftCount > rightCount {
          notes := notes + [LoadNote(TooManyOpeningUnderlines, c, v)];
        } else if leftCount < rightCount {
          notes := notes + [LoadNote(TooManyClosingUnderlines, c, v)];
        }
      }
      AddLine(marker, text);
      ok := true;
    }

    /** What one preprocessed physical line does to the held line. */
    method AssembleLine(reg: Registry, sorted: seq<string>, cur: Cursor, marker: string, text: string)
      returns (r: Cursor, ok: bool)
      modifies this
      ensures LoadState(r, !ok) == EAssemble(reg, sorted, old(LoadState(cur, false)), marker, text)
      ensures loadErrors == old(loadErrors)
    {
      var c, v := cur.c, cur.v;
      var lastMarker, lastText, notes := cur.lastMarker, cur.lastText, cur.notes;
      ok := true;
      if reg.IsNewlineMarker(marker) {
        if lastMarker != "" {
          notes, ok := DoAddLine(reg, c, v, lastMarker, lastText, notes);
          if !ok {
            return cur, false;
          }
        }
        lastMarker, lastText := marker, text;
      } else if reg.IsInternalMarker(marker) || (EndsWith(marker, '*') && reg.IsInternalMarker(marker[..|marker| - 1])) {
        notes := notes + [LoadNote(InternalAtStart, c, v)];
        AddPriorityError(27, c, v);
        if !EndsWith(lastText, ' ') {
          lastText := lastText + " ";
        }
        lastText := lastText + "\\" + marker + " " + text;
      } else if reg.IsNoteMarker(marker) || (EndsWith(marker, '*') && reg.IsNoteMarker(marker[..|marker| - 1])) {
        notes := notes + [LoadNote(NoteAtStart, c, v)];
        AddPriorityError(26, c, v);
        if !EndsWith(lastText, ' ') && marker != "f" {
          lastText := lastText + " ";  // but not before a footnote
        }
        lastText := lastText + "\\" + marker + " " + text;
      } else {
        notes := notes + [LoadNote(UnknownAtStart, c, v)];
        AddPriorityError(100, c, v);
        var unknown := Cursor(c, v, lastMarker, lastText, notes);
        ghost var st1 := LoadState(unknown, false);
        var j := 0;
        while j < |sorted|
          invariant 0 <= j <= |sorted|
          invariant FirstPrefix(sorted, marker) == FirstPrefix(sorted[j..], marker)
          invariant LoadState(unknown, false) == st1 && Cursor(c, v, lastMarker, lastText, notes) == unknown
          invariant loadErrors == old(loadErrors)
        {
          var tryMarker := sorted[j];
          assert sorted[j..][1..] == sorted[j + 1..];
          if tryMarker <= marker {
            if lastMarker != "" {
              notes, ok := DoAddLine(reg, c, v, lastMarker, lastText, notes);
              if !ok {
                return unknown, false;
              }
            }
            lastMarker, lastText := tryMarker, marker[|tryMarker|..] + " " + text;
            notes := notes + [LoadNote(ChangedUnknown(tryMarker), c, v)];
            break;
          }
          j := j + 1;
        }
      }
      r := Cursor(c, v, lastMarker, lastText, notes);
    }

    /** The body of the load loop: position tracking, preprocessing and
        assembly of one physical line. `ok` is false when an exception
        stopped the load. */
    method LoadLine(reg: Registry, sorted: seq<string>, env: Env, cur: Cursor, line: Line)
      returns (r: Cursor, ok: bool)
      requires env.bbb == bbb
      modifies this, container
      ensures LoadState(r, !ok) == ELoadStep(reg, sorted, env, old(LoadState(cur, false)), line)
      ensures loadErrors == old(loadErrors)
    {
      var c, v := cur.c, cur.v;
      var marker, originalText := line.marker, line.text;
      if marker == "c" && originalText != "" {
        c, v := FirstWord(originalText), "0";
      } else if marker == "v" && originalText != "" {
        v := FirstWord(originalText);
        if c == "-1" {
          c := "1";  // a single-chapter book without an explicit chapter 1
        }
      } else if c == "-1" && marker != "intro" {
        var n := ParseInt(v);
        if n.None? {
          return cur, false;  // `int(V)` raises
        }
        v := IntToString(n.value + 1);
      } else if marker == "restore" {
        return cur, true;
      }
      var tracked := Cursor(c, v, cur.lastMarker, cur.lastText, cur.notes);
      ghost var st := LoadState(tracked, false);
      assert ELoadStep(reg, sorted, env, old(LoadState(cur, false)), line) == EProcess(reg, sorted, env, st, line);
      var text := originalText;
      if marker !in env.ignored {
        var notes;
        text, notes, ok := Preprocess(Ctx(bbb, c, v, env.punct, env.dashes), originalText, tracked.notes);
        tracked := tracked.(notes := notes);
        if !ok {
          return tracked, false;
        }
      }
      r, ok := AssembleLine(reg, sorted, tracked, marker, text);
    }

    /** `load`, given the file's physical lines, the header markers that are
        not preprocessed and the character classes of the preprocessor.
        `ok` is false when an exception stopped the load; then what was
        recorded up to that point stays, and no 'Load Errors' are set. */
    method Load(reg: Registry, ignored: set<string>, punct: set<char>, dashes: set<char>, physical: seq<Line>)
      returns (ok: bool)
      modifies this, container
      ensures var e := ELoadSpec(reg, Env(bbb, ignored, punct, dashes), physical, old(rawLines), old(priorityErrors),
                                 old(container.semanticDict), old(container.strongsDict));
        && ok == !e.failed
        && rawLines == e.out.lines && priorityErrors == e.out.prios
        && container.semanticDict == e.sem && container.strongsDict == e.strongs
        && loadErrors == if ok && e.out.notes != [] then Some(e.out.notes) else old(loadErrors)
    {
      var sorted := SortByLengthDesc(reg.combinedNewlineMarkersList);
      var env := Env(bbb, ignored, punct, dashes);
      var cur := Cursor("-1", "-1", "", "", []);  // so the first line is at -1:0
      ghost var all := ELoadAll(reg, sorted, env, LoadState(cur, false), physical);
      ok := true;
      var i := 0;
      while i < |physical| && ok
        invariant 0 <= i <= |physical|
        invariant all == ELoadAll(reg, sorted, env, LoadState(cur, !ok), physical[i..])
        invariant loadErrors == old(loadErrors)
      {
        assert physical[i..][1..] == physical[i + 1..];
        cur, ok := LoadLine(reg, sorted, env, cur, physical[i]);
        i := i + 1;
      }
      if !ok {
        ELoadAllFailed(reg, sorted, env, LoadState(cur, true), physical[i..]);
        return;
      }
      var notes := cur.notes;
      if cur.lastMarker != "" {
        notes, ok := DoAddLine(reg, cur.c, cur.v, cur.lastMarker, cur.lastText, notes);
        if !ok {
          return;
        }
      }
      if physical == [] {
        notes := notes + [LoadNote(EmptyFile, cur.c, cur.v)];
      }
      if notes != [] {
        loadErrors := Some(notes);
      }
    }
  }
}
