/** The output of the line assemblers: logical lines, weighted priority
    errors and load-error notes, each tagged with the chapter and verse that
    were current when it was recorded. */
module Lines {
  import opened PyStrings

  /** One logical line: a paragraph-level marker and its text. */
  datatype Line = Line(marker: string, text: string)

  /** An entry of `addPriorityError(weight, C, V, message)`; the message
      text is not modelled. */
  datatype PriorityError = PriorityError(weight: nat, c: string, v: string)

  /** What each entry of the `loadErrors` list reports. */
  datatype NoteKind =
    | FreeBackslash            // a backslash not opening a marker, inside a line
    | NewlineInLine            // a newline marker inside a line; the line is split
    | InternalAtStart          // a physical line starting with an internal marker
    | NoteAtStart              // a physical line starting with a note marker
    | UnknownAtStart           // a physical line starting with an unknown marker
    | ChangedUnknown(to: string) // that marker was recovered as a known newline marker
    | EmptyFile
    | UnnumberedMarker         // a line marker that is not in standard form
    | UnnumberedInLine         // an embedded newline marker that is not in standard form
    | TooManyOpeningUnderlines // more '_ ' than ' _' in a line
    | TooManyClosingUnderlines // more ' _' than '_ ' in a line
    | UnknownTag               // an ESFM tag whose category letter is not known
    | UnknownTagContent        // an ESFM tag whose content is not in the dictionary
    | MissingUnderlineStart    // a ' _' with no open '_ ' before it
    | ShortTag                 // an ESFM tag of just '='
    | UnexpectedBrace          // an opening brace that cannot start a braced group

  datatype LoadNote = LoadNote(kind: NoteKind, c: string, v: string)

  /** Everything the assemblers record: the book's lines and priority
      errors, and the load's note list. */
  datatype Out = Out(lines: seq<Line>, prios: seq<PriorityError>, notes: seq<LoadNote>) {
    function AddLine(marker: string, text: string): Out {
      Out(lines + [Line(marker, text)], prios, notes)
    }

    function AddError(weight: nat, kind: NoteKind, c: string, v: string): Out {
      Out(lines, prios + [PriorityError(weight, c, v)], notes + [LoadNote(kind, c, v)])
    }

    function AddPriority(weight: nat, c: string, v: string): Out {
      Out(lines, prios + [PriorityError(weight, c, v)], notes)
    }

    function AddNote(kind: NoteKind, c: string, v: string): Out {
      Out(lines, prios, notes + [LoadNote(kind, c, v)])
    }
  }

  /** The text of a line split off before the embedded marker at `index`:
      `text[ix:index].rstrip()`. */
  function Segment(text: string, ix: nat, index: nat): (r: string)
    ensures |r| <= |text|
    ensures ix <= index <= |text| ==> r <= text[ix..index]
  {
    RStrip(Slice(text, ix, index))
  }

  /** Where the text after an embedded marker starts: past the backslash,
      the marker and the character that ended it. */
  function NextStart(index: nat, marker: string, next: string): nat {
    index + 1 + |marker| + |next|
  }

  /** `s.endswith(suffix)` for a one-character suffix. */
  predicate EndsWith(s: string, ch: char) {
    |s| > 0 && s[|s| - 1] == ch
  }
}
