# BibleOrgSys line assembly, ESFM tagging and book orders in Dafny

This project models the core of BibleOrgSys. That core turns USFM-marked
Bible text (Unified Standard Format Markers) and its ESFM extension into
logical lines, and it answers questions about book orders. It has four parts.

- **The marker registry and the in-text scanner** (`USFMMarkers`).
  - The registry is a read-only value built from already loaded tables.
    It classifies markers: valid, newline, internal, deprecated, plus the
    flag queries.
  - It converts markers between raw and standard spellings (`q` and `q1`).
  - It builds the occurs-in, newline, character-marker and note-set lists.
  - `getMarkerListFromText` finds every backslash marker in a line,
    together with its terminator and its position.
- **The USFM line assembler** (`USFMBibleBook.load` and `doAppendLine`).
  - This is a class holding `rawLines`, `priorityErrors` and `loadErrors`.
  - Its load loop keeps one logical line held back. A newline marker flushes
    the held line, an internal marker is merged into it, and an unknown
    marker is recovered by the longest known newline-marker prefix or
    dropped.
  - On a flush, the held line is split at every embedded newline marker.
- **The ESFM assembler and tag preprocessor** (`ESFMBibleBook`).
  - A per-character pass rewrites `word=Tag`, `{braced words}=Tag` and
    underline groups into `\sem …\sem*` and `\str …\str*` fields.
  - On the way it fills the containing Bible's semantic and Strong's
    dictionaries: found occurrences, `Missing` and `Tag errors`.
  - The assembler then does what the USFM one does, and in addition:
    - it has a note-marker branch;
    - it converts markers to their standard spelling;
    - it turns `~` into U+00A0, the no-break space, which neither the
      marker scanner nor the underline counts treat as a space;
    - it checks that hanging underlines balance.
- **Book orders** (`BibleBookOrders`).
  - One system answers queries over a list of three-letter book codes and
    its two index maps: position, book at a position, next book, and
    ordering.
  - The collection of systems counts the systems that equal a given scheme,
    or contain it as an order-preserving subset.

## How the model is built

Each Python method that updates state step by step is a Dafny `method` with
a `while` loop. That covers `getMarkerListFromText`, `getOccursInList`,
`getCharacterMarkersList`, both `load` loops, `doAppendLine`/`doaddLine`,
`ESFMPreprocessing` and `checkBookOrderSystem`. Each method is proved equal
to a specification function, and the behaviour the source promises is proved
as lemmas about that function. The book classes are Dafny classes whose
fields are the Python attributes. The ESFM book's container is an `EsfmBible`
object that holds the two tag dictionaries, and the book updates it in place.

How Python's runtime is modelled:
- **Exceptions.** A Python exception is an error value: `Result`/`Option`
  (`KeyError`, `AssertionError`), or an `ok`/`failed` flag when it stops a
  load.
- **Load errors.** Each message a loader appends to `loadErrors` becomes a
  `LoadNote` kind with the C:V position the loader holds at that point. The
  `logging.*` calls, such as the warnings in `checkBookOrderSystem`, are not
  modelled.
- **Errors the loaders record.** They are kept as data: `priorityErrors` is
  a sequence of `(weight, C, V)` entries, and `loadErrors` is the sequence of
  notes (`None` when there are none).
- **Physical lines.** The lines read from a file are supplied as a sequence
  of `(marker, text)` pairs.
- **Unseen globals.** Some collaborators are not shown in the source. These
  become parameters:
  - the loaded marker tables (the `Registry` datatype);
  - the note-marker predicate;
  - `OFTEN_IGNORED_USFM_HEADER_MARKERS`;
  - `ALL_WORD_PUNCT_CHARS`;
  - `DASH_CHARS`.

The scanner's entry is one record, `MarkerHit(marker, next, index)`, holding
the 3-tuple that `getMarkerListFromText` returns (USFMMarkers.py:358-365).
The two assemblers do not read those 3-tuples as they are: their loops
(USFMBibleBook.py:83, ESFMBibleBook.py:389) unpack seven names from each
entry, `insideMarker, iMIndex, nextSignificantChar, …`. As written, that
unpacking raises ValueError on the first line that holds a backslash. The
model reads each entry by field name instead, and splits lines with
`ix = index + 1 + |marker| + |next|`, which is what the names in those loops
say they expect.

Apart from that unpacking, where the behaviour as written differs from what
the documentation suggests, the model follows the code, in these places:
- **The Strong's field.** It is always `\str X content=word\str*`, even when
  the word equals the content (ESFMBibleBook.py:209).
- **A tag still open at the end of a line.** It is dropped, because the loop
  ends without a flush (ESFMBibleBook.py:337-362). So `Elohim=G=SH430`
  becomes `Elohim\sem G Elohim\sem*` (`EsfmPreProofs.TrailingTagDropped`).
- **The inline example at ESFMBibleBook.py:261-262.** It shows `559=said`.
  With the code as written, the hanging count is decremented before the test
  at line 324, so the underline group, and with it the word in the field, is
  `_said`. `EsfmPreExample.ExampleRewrite` proves the whole rewritten line:
  `And_ Elohim\sem G Elohim\sem*\str H 430=Elohim\str* _said\str H 559=_said\str*:`.
- **Options of `getNewlineMarkersList`.** `'Raw'` returns
  `numberedNewlineMarkersList` and `'Numbered'` returns `newlineMarkersList`
  (USFMMarkers.py:310-311).
- **A USFM internal merge of `f`.** It adds no separating space, so
  `\v 1 a` followed by `\f b` holds `1 a\f b` (USFMBibleBook.py:137-139).
- **An empty USFM file.** It records a load error but appends no `rem` line,
  because the assignment at USFMBibleBook.py:164 comes after the final flush
  at line 159.
- **An ESFM `restore` line before the first chapter or verse.** It is
  processed, not skipped: the `C == '-1'` test at ESFMBibleBook.py:448
  precedes the `restore` test.
- **The standard/raw round trip.** It need not be unique: an already standard
  `q2` goes through its raw form `q`, and comes back as `q1`.
- **The book-order subset test.** It allows a scheme to repeat a book,
  because indices need only be non-decreasing (BibleBookOrders.py:185-193).

## Model

| member | source | states |
|---|---|---|
| Markers.Registry.IsValidMarker | USFMMarkers.py:203-209 | true exactly for the spellings of combinedMarkerDict (also `__contains__`); with consistent tables a valid marker has a described raw form, which is valid too |
| Markers.Registry.IsDeprecatedMarker | USFMMarkers.py:221-223 | true exactly when the marker occurs in deprecatedMarkersList, with no validity test first |
| Markers.Registry.ToRawMarker | USFMMarkers.py:271-273 | succeeds exactly on valid markers, and gives a described raw marker that is itself valid |
| Markers.Registry.ToStandardMarker | USFMMarkers.py:275-282 | the conversion entry if there is one, else the marker itself if valid, else KeyError; the result is a valid marker |
| Markers.Registry.IsNewlineMarker | USFMMarkers.py:211-214 | true exactly when the marker is valid and its raw form is in the combined newline list; never true for an unknown marker |
| Markers.Registry.IsInternalMarker | USFMMarkers.py:216-219 | true exactly when the marker is valid and its raw form is in the internal list |
| Markers.Registry.IsCompulsoryMarker | USFMMarkers.py:225-228 | false for unknown markers, otherwise the raw marker's compulsory flag |
| Markers.Registry.IsNumberableMarker | USFMMarkers.py:230-233 | false for unknown markers, otherwise the numberable flag |
| Markers.Registry.IsNestingMarker | USFMMarkers.py:235-238 | false for unknown markers, otherwise the nests flag |
| Markers.Registry.IsPrinted | USFMMarkers.py:240-243 | false for unknown markers, otherwise the printed flag |
| Markers.Registry.MarkerShouldBeClosed | USFMMarkers.py:245-256 | NotAMarker (False) exactly for invalid markers; N, S or A iff the stored value is No, Optional or Always; an error for any other stored value |
| Markers.Registry.MarkerShouldHaveContent | USFMMarkers.py:258-269 | the same three-way answer for Never, Sometimes and Always |
| Markers.Registry.MarkerOccursIn | USFMMarkers.py:284-286 | succeeds exactly on valid markers, with the raw marker's occurs-in zone |
| Markers.Registry.GetNewlineMarkersList | USFMMarkers.py:306-312 | fails exactly on options other than Raw, Numbered and Combined; each option's list, as written |
| Markers.GetTypicalNoteSets | USFMMarkers.py:332-337 | the footnote sets, the cross-reference sets, both concatenated, or None for any other selection |
| Markers.FirstOccurrences | USFMMarkers.py:297-304 | the distinct entries of a list, without duplicates and with exactly the list's members |
| Markers.GetOccursInList | USFMMarkers.py:297-304 | the raw markers' zones, each once, in the order they are first met; no duplicates; every raw marker's zone is in the list; every entry is some raw marker's zone |
| Markers.GetCharacterMarkersList | USFMMarkers.py:319-330 | the loop's result equals the character-marker list built from the internal markers |
| MarkersProofs.RawClassifiedAlike | USFMMarkers.py:211-219 | a marker and its raw form get the same newline and internal answers |
| MarkersProofs.StandardKeepsRaw | USFMMarkers.py:271-282 | converting to the standard spelling keeps the raw marker |
| MarkersProofs.StandardIdempotent | USFMMarkers.py:275-282 | the standard spelling converts to itself |
| MarkersProofs.RawThenStandardNotUnique | USFMMarkers.py:271-282 | a concrete registry in which q2 is standard while its raw form converts to q1 |
| MarkersProofs.DeprecatedNeedNotBeValid | USFMMarkers.py:207-223 | a concrete registry in which a listed deprecated marker is not a valid spelling, and so is neither a newline nor an internal marker |
| MarkersProofs.CharacterMarkersOkIff | USFMMarkers.py:319-330 | the list is built iff every internal marker is f, x, or valid and, when end markers are asked for, always closed if it occurs in text |
| MarkersProofs.CharacterMarkersSound | USFMMarkers.py:319-330 | every entry is a text-zone internal marker other than f and x (with the backslash when asked), or its end marker when asked |
| MarkersProofs.CharacterMarkersComplete | USFMMarkers.py:319-330 | every such marker is in the list and, with end markers, is immediately followed by marker + `*` |
| MarkerScan.MarkerAt | USFMMarkers.py:349-365 | the inner loop's entry for one backslash equals the entry rule: none before a space or `*`, a bare backslash at the end, otherwise the marker up to the next space or `*` |
| MarkerScan.GetMarkerListFromText | USFMMarkers.py:339-370 | the loop's result equals the scan of the text from its first backslash |
| MarkerScanProofs.MarkerListEntries | USFMMarkers.py:344-367 | indices strictly increase, and an index appears iff it is a backslash not followed by a space or `*` |
| MarkerScanProofs.MarkerListShapes | USFMMarkers.py:349-365 | each entry points at a backslash; a trailing backslash gives (`\`, "", ix); otherwise the marker is non-empty, free of spaces and `*`, is the text after the backslash, and its terminator is the next character or "" exactly at the end |
| MarkerScanProofs.ScanBounded | USFMMarkers.py:345-367 | there are no more entries than backslashes |
| MarkerScanProofs.ScanOrdered | USFMMarkers.py:344-367 | entry indices strictly increase |
| MarkerScanProofs.ScanComplete | USFMMarkers.py:344-367 | every yielding backslash has an entry |
| MarkerScanProofs.VerseExample | USFMMarkers.py:339-370 | `\v 3 text` gives exactly the entry (v, " ", 0) |
| MarkerScanProofs.NoBreakInsideMarker | USFMMarkers.py:339-370 | in `a \v` U+00A0 `5 b` the no-break space is part of the marker: one entry (`v` U+00A0 `5`, " ", 2) |
| Recovery.SortByLengthDesc | USFMBibleBook.py:44 | the sorted list is a permutation of the newline markers |
| Recovery.SortedDescending | USFMBibleBook.py:44 | the sorted list is in descending length order |
| Recovery.TiesKeepOrder | USFMBibleBook.py:44 | for every length n, the sorted candidates of length n are exactly the input's markers of length n, in their input order, as Python's stable sort keeps them |
| Recovery.FirstPrefix | USFMBibleBook.py:143-148 | a found candidate is a prefix of the marker; none is found iff no candidate is a prefix |
| Recovery.RecoveredIsLongest | USFMBibleBook.py:143-148 | the recovered marker is a newline marker that prefixes the unknown one, and no other such prefix is as long |
| Recovery.NoRecoveryIff | USFMBibleBook.py:143-157 | recovery fails iff no newline marker is a prefix |
| PyStrings.Find | USFMMarkers.py:345-367 | str.find: -1 iff the character is absent from `from` on, else its first index there |
| PyStrings.RStrip | USFMBibleBook.py:93 | str.rstrip: a prefix that ends in a non-space, and only whitespace (every character `str.isspace` accepts) was removed |
| PyStrings.LeadingSpaces | USFMBibleBook.py:121-123 | the length of the leading whitespace that `split()` skips |
| PyStrings.FirstWord | USFMBibleBook.py:121-123 | `split()[0]`: the run of non-space characters right after the leading whitespace, ended by whitespace or the end of the text; non-empty iff the text has a word |
| PyStrings.WideSpaceExamples | USFMBibleBook.py:93-123 | the no-break space is stripped by rstrip, and the file separator ends a word |
| PyStrings.ReplaceChar | ESFMBibleBook.py:379 | str.replace of one character: same length, and every occurrence replaced |
| PyStrings.CountPair | ESFMBibleBook.py:414 | str.count of a two-character string: zero iff the pair never occurs |
| PyStrings.CountPairCounts | ESFMBibleBook.py:414 | str.count of a two-character string is the number of positions where the pair starts |
| PyStrings.Slice | USFMBibleBook.py:93-99 | Python slicing with clamped bounds |
| PyStrings.ParseIntRoundTrip | ESFMBibleBook.py:448 | `int(str(i)) == i` for every integer, so the header verse counter can be advanced |
| UsfmBook.UsfmBibleBook.constructor | USFMBibleBook.py:53-60 | a new book has no lines, no priority errors and no load errors |
| UsfmBook.UsfmBibleBook.AppendLine | USFMBibleBook.py:94-100 | appends exactly one line and changes nothing else |
| UsfmBook.UsfmBibleBook.AddPriorityError | USFMBibleBook.py:87-91 | appends exactly one (weight, C, V) entry and changes nothing else |
| UsfmBook.UsfmBibleBook.DoAppendLine | USFMBibleBook.py:76-101 | the split loop's lines, errors and notes equal the split specification for the line |
| UsfmBook.UsfmBibleBook.LoadLine | USFMBibleBook.py:117-158 | one loop iteration equals the load step, and the book's fields track its output |
| UsfmBook.UsfmBibleBook.Load | USFMBibleBook.py:63-168 | the book's new lines and priority errors are those of the load specification; loadErrors is set iff a note was recorded |
| UsfmBookProofs.AppendLineMarkers | USFMBibleBook.py:80-100 | doAppendLine keeps the earlier lines, and the new lines' markers are the line's marker followed by each embedded newline marker |
| UsfmBookProofs.AppendLineCount | USFMBibleBook.py:80-100 | it appends exactly 1 + the number of embedded newline markers the scanner finds in the text |
| UsfmBookProofs.SplitExample | USFMBibleBook.py:88-99 | (p, `a \v b`) gives (p, a) and (v, b), with the weight-96 error |
| UsfmBookProofs.SplitThreeExample | USFMBibleBook.py:80-100 | (p, `hello \v 5 world \v 6 end`) gives (p, hello), (v, 5 world) and (v, 6 end), with the weight-96 error recorded once |
| UsfmBookProofs.FreeBackslashKeepsLine | USFMBibleBook.py:84-87 | without embedded newline markers the line is kept whole, with one weight-100 error per free backslash |
| UsfmBookProofs.AppendLinePriosGrow | USFMBibleBook.py:80-100 | priority errors are only appended |
| UsfmBookProofs.LoadRecordsNewlineLines | USFMBibleBook.py:117-159 | every line a load records carries a newline marker |
| UsfmBookProofs.RestoreIgnored | USFMBibleBook.py:125 | dropping restore lines does not change the load |
| UsfmBookProofs.EmptyFileNoLine | USFMBibleBook.py:159-164 | an empty file records only the empty-file note and no line; the note's 0:0 position is the model's own bookkeeping, as the source's message names only the book |
| UsfmBookProofs.InternalOnlyLoad | USFMBibleBook.py:129-142 | internal lines before any newline marker are never written |
| UsfmBookProofs.VerseHeld | USFMBibleBook.py:122-130 | a non-empty `\v` line, a newline marker, becomes the held line with its text unchanged |
| UsfmBookProofs.FootnoteGlued | USFMBibleBook.py:131-142 | a `\f` line is appended to the held text as `\f ` plus its text, with no space before it, and the held marker is kept |
| UsfmBookProofs.FootnoteMergeExample | USFMBibleBook.py:131-142 | `\f` is merged into the held verse without a separating space |
| UsfmBookProofs.InternalMergeAddsSpace | USFMBibleBook.py:131-142 | any other internal marker is merged after one space, with weight 27, and the held marker is kept |
| UsfmBookProofs.UnknownDropped | USFMBibleBook.py:143-157 | an unknown marker without a newline-marker prefix drops the line, with weight 100 |
| UsfmBookProofs.UnknownRecovered | USFMBibleBook.py:143-157 | otherwise the held line becomes (k, rest + " " + text) for the longest prefix k, after a weight-100 error |
| UsfmBookProofs.LastLineSaved | USFMBibleBook.py:159 | the final held line is flushed after the loop |
| UsfmBookProofs.LoadAllIdem | USFMBibleBook.py:117-130 | re-assembling lines that already start with a newline marker (not `restore`) and hold no backslash, after a held backslash-free line, records exactly the held line and then those lines, in order |
| UsfmBookProofs.LoadIdempotent | USFMBibleBook.py:113-159 | loading is idempotent: a file of already-logical lines loads to exactly the lines recorded before plus those lines, unchanged |
| EsfmTags.Append | ESFMBibleBook.py:151-162 | appending to one (category, content) list changes no other list |
| EsfmTags.SemanticTag | ESFMBibleBook.py:122-167 | an unknown category goes to Tag errors with weight 15; a found pair gets (B,C,V,word), otherwise Missing gets (B,C,V) or (B,C,V,word); nothing else changes; the field names the content only when it differs from the word |
| EsfmTags.Record | ESFMBibleBook.py:190-196 | a plain Strong's entry is promoted to a list before the occurrence is appended; the other entries are kept |
| EsfmTags.StrongsTag | ESFMBibleBook.py:170-210 | category tag[2] and content tag[3:]; a category not in HG goes to Tag errors with weight 10; unknown content goes to Missing; the field is always `\str X content=word\str*` |
| EsfmTags.EsfmBible.constructor | ESFMBibleBook.py:59-70 | the container starts with the given dictionaries |
| EsfmPre.HangPart | ESFMBibleBook.py:235-254 | the hanging-underline update changes only the count, the group, the errors and the failure flag |
| EsfmPre.SaveTag | ESFMBibleBook.py:263-298 | the tag is saved for the group or word (Strong's) or the braced text or word (semantic); it fails exactly when an assertion of the save fails |
| EsfmPre.PreStep | ESFMBibleBook.py:225-339 | a failed pass takes no step, and no step adds a line |
| EsfmPreProofs.HangingUnderlines | ESFMBibleBook.py:235-254 | the count equals the number of `_ ` minus ` _` seen (reset at zero); the pass fails iff that count ever reaches 3 |
| EsfmPreProofs.PlainTextUnchanged | ESFMBibleBook.py:299-338 | text without `=`, `{` or `}` is returned unchanged and the dictionaries are untouched |
| EsfmPreProofs.TrailingTagDropped | ESFMBibleBook.py:337-362 | a tag still open at the end of the text is not written |
| EsfmPreProofs.EmitFails | ESFMBibleBook.py:263-298 | emitting fails iff a Strong's tag ends with an empty subject or is shorter than three characters |
| EsfmPreProofs.FailureCauses | ESFMBibleBook.py:225-298 | a step fails iff the hanging count would reach 3, or a Strong's tag assertion fails |
| EsfmPreProofs.ReachableWf | ESFMBibleBook.py:216-339 | every reachable state of the pass is well formed |
| EsfmPreProofs.StrongsTaggedWord | ESFMBibleBook.py:263-298 | `word=SH430 ` writes the word, then the Strong's field, then a space, with the dictionary updated by saveStrongsTag |
| EsfmPreProofs.SemanticTaggedWord | ESFMBibleBook.py:263-298 | `word=G ` writes the word, then the semantic field, then a space, with the dictionary updated by saveSemanticTag |
| EsfmPreExample.SemanticKnown | ESFMBibleBook.py:122-167 | a known category and word record no error and give the plain `\sem` field |
| EsfmPreExample.StrongsKnown | ESFMBibleBook.py:170-210 | a known letter and number record no error, give `\str X n=word\str*`, and keep the dictionary's keys |
| EsfmPreExample.HangingChain | ESFMBibleBook.py:225-339 | `w1_ w2=g=Sh1n1 _w3=Sh2n2p` with known entries, from any state between words: the semantic and first Strong's fields are written for w2, the second Strong's field for the group `_w3`; nothing fails and no error is recorded |
| EsfmPreExample.ExampleRewrite | ESFMBibleBook.py:216-362 | `And_ Elohim=G=SH430 _said=SH559:`, with G Elohim, H 430 and H 559 known, becomes `And_ Elohim\sem G Elohim\sem*\str H 430=Elohim\str* _said\str H 559=_said\str*:`, with no error |
| EsfmPreGroups.BraceStep | ESFMBibleBook.py:304-310 | `{` outside a tag is not written and opens a braced group; after a character other than a space, inside a group or with braced text pending, it records weight 20 and the pass goes on |
| EsfmPreGroups.BraceCharStep | ESFMBibleBook.py:256-258 | inside braces a plain character is written as typed and collected, a space as `_` |
| EsfmPreGroups.BraceCloseStep | ESFMBibleBook.py:256-257 | `}` closes the braced group and is not written |
| EsfmPreGroups.BracedEndStep | ESFMBibleBook.py:275-276 | a space ending a semantic tag after a braced group saves the tag for the braced text, not the word, and writes the field and the space |
| EsfmPreGroups.SemanticUnderStep | ESFMBibleBook.py:280-284 | a `_` ending a semantic tag writes the field and then a space in place of the `_`, and opens an underline group holding the word and the `_` |
| EsfmPreGroups.ShortTagStep | ESFMBibleBook.py:293-296 | a terminator after a bare `=` records weight 21, writes nothing, and leaves the tag open; the pass goes on |
| EsfmPreGroups.BraceRun | ESFMBibleBook.py:256-258 | a run of braced characters is written as typed and collected with its spaces turned into `_` |
| EsfmPreGroups.BracedGroup | ESFMBibleBook.py:256-258 | `{words}` between words writes only the words, with the braced text pending and the group closed |
| EsfmPreGroups.BracedTaggedWord | ESFMBibleBook.py:256-310 | `{w1 w2 …}=Xc ` writes the words without the braces, then the semantic field for the braced text with spaces as `_`, then the space; the text is recorded under the tag |
| EsfmPreGroups.SemanticTaggedUnder | ESFMBibleBook.py:263-298 | `w=Xc_` writes the word, the semantic field and a space, records the word, and leaves the group `w_` open |
| EsfmPreGroups.BracedLine | ESFMBibleBook.py:216-362 | a whole line of one braced group with a semantic tag is rewritten as `BracedTaggedWord` says |
| EsfmPreGroups.BracedExample | ESFMBibleBook.py:216-362 | `{a b}=G ` becomes `a b`, the semantic field for `a_b`, and a space; `a_b` is recorded under G and nothing fails |
| EsfmLoad.EFlush | ESFMBibleBook.py:456-458 | a flush changes neither the position nor the held line nor the dictionaries |
| EsfmLoad.ELoadAllFailed | ESFMBibleBook.py:427-506 | once an exception has stopped the load, later lines change nothing |
| EsfmLoadProofs.ProcessKeepsPosition | ESFMBibleBook.py:452-497 | processing a line never changes C and V |
| EsfmLoadProofs.HeaderPositions | ESFMBibleBook.py:437-448 | before the first chapter, the k-th line (counting from 0) is at -1:k |
| EsfmLoadProofs.RestoreSkippedIff | ESFMBibleBook.py:444-450 | a restore line changes nothing iff the first chapter or verse has been seen |
| EsfmLoadProofs.LoadAllSafe | ESFMBibleBook.py:444-497 | untagged lines never stop the load and leave the dictionaries alone |
| EsfmLoadProofs.UntaggedFileLoads | ESFMBibleBook.py:427-506 | a file of untagged lines loads without failure |
| EsfmLoadProofs.EmptyFileNote | ESFMBibleBook.py:499-504 | an empty file records only the empty-file note; its -1:-1 position is the model's own bookkeeping, as the source's message names only the book |
| EsfmLoadProofs.ELoadAllLogical | ESFMBibleBook.py:440-458 | loading lines with a standard newline marker (not `restore`) and no tag, brace, underline, `~` or backslash keeps the load running and records exactly the held line and then those lines |
| EsfmLoadProofs.ELoadIdempotent | ESFMBibleBook.py:427-506 | loading is idempotent on such lines: the file loads without an exception to exactly the lines recorded before plus its own lines, unchanged |
| EsfmLoadProofs.InternalMerge | ESFMBibleBook.py:459-470 | an internal marker is merged after a space unless the held text ends in one, with weight 27 |
| EsfmLoadProofs.NoteMerge | ESFMBibleBook.py:471-482 | a note marker is merged the same way, except that `f` gets no space, with weight 26 |
| EsfmLoadProofs.UnderlineNoteIff | ESFMBibleBook.py:412-420 | the underline check adds a note iff `_ ` and ` _` counts differ, and never changes the lines |
| EsfmLoadProofs.EAppendLineMarkers | ESFMBibleBook.py:379-410 | doaddLine fails iff the marker has no standard form; the new lines' markers are its standard form followed by the standard form of each newline marker the scanner finds once `~` is U+00A0 |
| EsfmLoadProofs.EAppendLineCount | ESFMBibleBook.py:386-422 | it appends exactly 1 + (number of newline markers the scanner finds once `~` is U+00A0) lines |
| EsfmLoadProofs.SavedWhole | ESFMBibleBook.py:379-422 | a line without backslashes is saved whole in standard form, with each `~` replaced by U+00A0 and none left, with weight 90 iff the marker changed |
| EsfmLoadProofs.TildeSavedAsNoBreak | ESFMBibleBook.py:379 | `x~y` is saved as `x` U+00A0 `y` |
| EsfmLoadProofs.TildeNotUnderlineSpace | ESFMBibleBook.py:379-422 | `x_~y` is saved with no underline note, since U+00A0 is not the space of `_ ` |
| EsfmLoadProofs.OneInlineHitSavedWhole | ESFMBibleBook.py:388-422 | a line whose only marker is not a newline marker and that has no underline is saved whole |
| EsfmLoadProofs.TildeVerseNotSplit | ESFMBibleBook.py:379-422 | `a \v~5 b` is saved whole, since its marker is `v` U+00A0 `5` |
| EsfmBook.EsfmBibleBook.constructor | ESFMBibleBook.py:59-70 | a new book belongs to its Bible and has no lines or errors |
| EsfmBook.EsfmBibleBook.AddLine | ESFMBibleBook.py:422 | appends exactly one line |
| EsfmBook.EsfmBibleBook.AddPriorityError | ESFMBibleBook.py:144 | appends exactly one (weight, C, V) entry |
| EsfmBook.EsfmBibleBook.SaveSemanticTag | ESFMBibleBook.py:122-167 | the container's semantic dictionary, the errors and the field are the semantic-tag specification's; the Strong's dictionary is unchanged |
| EsfmBook.EsfmBibleBook.SaveStrongsTag | ESFMBibleBook.py:170-210 | the same for the Strong's dictionary |
| EsfmBook.EsfmBibleBook.HangChar | ESFMBibleBook.py:235-254 | the in-place update equals HangPart |
| EsfmBook.EsfmBibleBook.SaveTagged | ESFMBibleBook.py:263-298 | equals SaveTag |
| EsfmBook.EsfmBibleBook.WriteTerminator | ESFMBibleBook.py:284-298 | equals the after-tag update |
| EsfmBook.EsfmBibleBook.EndTag | ESFMBibleBook.py:263-298 | equals the emit step at a tag terminator |
| EsfmBook.EsfmBibleBook.EmitChar | ESFMBibleBook.py:256-338 | equals the emit step |
| EsfmBook.EsfmBibleBook.PreprocessChar | ESFMBibleBook.py:225-339 | one loop iteration equals PreStep |
| EsfmBook.EsfmBibleBook.Preprocess | ESFMBibleBook.py:89-362 | the pass's result, errors and both container dictionaries equal the preprocessing specification; ok iff no assertion failed |
| EsfmBook.EsfmBibleBook.SplitLine | ESFMBibleBook.py:386-410 | the split loop equals the ESFM split specification |
| EsfmBook.EsfmBibleBook.DoAddLine | ESFMBibleBook.py:366-423 | on success the new state equals doaddLine's specification, which writes `~` as U+00A0; on a KeyError nothing changes |
| EsfmBook.EsfmBibleBook.AssembleLine | ESFMBibleBook.py:456-497 | equals the assembly step |
| EsfmBook.EsfmBibleBook.LoadLine | ESFMBibleBook.py:441-497 | one loop iteration equals the load step, whose flush saves `~` as U+00A0 |
| EsfmBook.EsfmBibleBook.Load | ESFMBibleBook.py:427-506 | lines, priority errors and dictionaries are the load specification's, with `~` saved as U+00A0; loadErrors set iff the load finished with notes |
| BookOrders.IndexOf | BibleBookOrders.py:185-186 | list.index: the first position of a present book, at \|list\| when absent |
| BookOrders.BookOrderSystem.ContainsBook | BibleBookOrders.py:271-275 | AssertionError iff the code is not three characters, otherwise membership |
| BookOrders.BookOrderSystem.GetBookOrderPosition | BibleBookOrders.py:282-286 | AssertionError, then KeyError for an absent book; otherwise a position p in 1..n with books[p-1] == the book |
| BookOrders.BookOrderSystem.GetBookAtOrderPosition | BibleBookOrders.py:288-291 | Ok iff 1 <= n <= number of books, then books[n-1]; KeyError otherwise |
| BookOrders.BookOrderSystem.GetNextBook | BibleBookOrders.py:298-303 | the book after the given one, or None when it is last |
| BookOrders.BookOrderSystem.CorrectlyOrdered | BibleBookOrders.py:305-310 | true iff the first book comes before the second |
| BookOrders.NumBooksCounts | BibleBookOrders.py:255-263 | the list has no repeats, and its length equals both map sizes |
| BookOrders.PositionRoundTrip | BibleBookOrders.py:282-291 | the book at a book's position is that book |
| BookOrders.BookAtRoundTrip | BibleBookOrders.py:282-291 | the position of the book at n is n |
| BookOrders.ContainsIffPosition | BibleBookOrders.py:271-286 | a book is contained iff it has a position |
| BookOrders.OrderIrreflexive | BibleBookOrders.py:305-310 | no book comes before itself |
| BookOrders.OrderTransitive | BibleBookOrders.py:305-310 | the order is transitive |
| BookOrders.OrderTotal | BibleBookOrders.py:305-310 | of two different books exactly one comes first |
| BookOrders.NextIsSuccessor | BibleBookOrders.py:298-310 | the next book comes after the given one, with no book in between |
| BookOrders.NoNextIffLast | BibleBookOrders.py:298-303 | there is no next book iff the book is last |
| BookOrders.Systems.Len | BibleBookOrders.py:108-112 | the common size of the two tables, AssertionError when they differ |
| BookOrders.Systems.Contains | BibleBookOrders.py:114-117 | membership of the system name |
| BookOrders.Systems.AvailableNames | BibleBookOrders.py:119-122 | exactly the contained names, without repeats |
| BookOrders.Systems.GetBookOrderSystem | BibleBookOrders.py:124-131 | the two maps and list of a known system, making a valid system; None for an unknown name |
| BookOrders.Systems.NumBooks | BibleBookOrders.py:133-136 | KeyError exactly for an unknown system |
| BookOrders.Systems.ContainsBook | BibleBookOrders.py:138-141 | KeyError exactly for an unknown system |
| BookOrders.Systems.GetBookOrderList | BibleBookOrders.py:143-146 | KeyError exactly for an unknown system |
| BookOrders.OpenSystem | BibleBookOrders.py:233-240 | opening succeeds exactly for a known system name and gives a valid system of that name |
| BookOrders.LenCounts | BibleBookOrders.py:108-112 | the collection's length is the number of systems |
| BookOrders.OpenedAgrees | BibleBookOrders.py:133-146 | the collection's per-name queries agree with the opened system's |
| BookOrders.SubsetIff | BibleBookOrders.py:179-197 | the subset loop accepts iff every scheme book is present at non-decreasing indices |
| BookOrders.InOrderPairs | BibleBookOrders.py:179-197 | in an accepted scheme every earlier book has an index no greater than every later one |
| BookOrders.ExactIsSubset | BibleBookOrders.py:164-197 | a system's own list passes the subset test |
| BookOrders.SubsetRespectsOrder | BibleBookOrders.py:179-197 | distinct books of an accepted scheme are correctly ordered in the system |
| BookOrders.MatchedMembers | BibleBookOrders.py:163-197 | a system is matched iff it equals the scheme or passes the subset test, and none is counted twice |
| BookOrders.MatchedValid | BibleBookOrders.py:163-197 | with consistent tables, matched iff the scheme is an in-order subset |
| BookOrders.IsSubset | BibleBookOrders.py:179-197 | the loop's verdict equals the subset specification and the in-order property |
| BookOrders.CheckBookOrderSystem | BibleBookOrders.py:148-220 | AssertionError iff the name or scheme is empty or no system is loaded; otherwise the matched codes and their count |

## Left out

- File reading (`SFMFile`, `ESFMFile`) and the building of books from folders are not modelled: the physical lines are an input sequence.
- Pickle and XML loading (`USFMMarkers.loadData`, `BibleBookOrderSystems.loadData`) are not modelled: the loaded tables are given values.
- Logging, `print`, verbosity checks, the strict and debugging flags, `halt`, `__str__`, `demo` and `main` are left out, because they produce only side output. A `loadErrors` message is a `LoadNote` kind with its position, and not its text.
- The marker registry's `__len__`, `getMarkerEnglishName`, `getMarkerDescription` and `getInternalMarkersList` are plain table reads and are not modelled; `__contains__` is `IsValidMarker`.
- The module-level assertions that the note sets have no duplicates (USFMMarkers.py:138-139) are not proved: comparing every pair of the 180 constant sets is too costly for the verifier.
- `isNoteMarker` is not defined in the registry's source; it is a given set of markers.
- `OFTEN_IGNORED_USFM_HEADER_MARKERS`, `ALL_WORD_PUNCT_CHARS` and `DASH_CHARS` come from globals that are not part of this model; they are parameters.
- `ESFMPreprocessing`'s `marker` argument is unused by the pass itself and is not modelled.
- `saveWord` only asserts that a word has no spaces, which the pass never violates; it is not modelled.
- `startsWithUnderline` never becomes true, so its branch is dead and not modelled; `firstWordFlag` only feeds `saveWord` and is left out too.
- The seven-name unpacking of the scanner's 3-tuples (USFMBibleBook.py:83, ESFMBibleBook.py:389) raises ValueError as written on every line holding a backslash; the model reads the entries by field name, so it does not capture that failure.
- Markers.Registry.Valid: assumes the loaded tables are consistent (every spelling maps to a described raw marker, and the newline and conversion lists name valid markers). With inconsistent tables the source's lookups raise KeyError; the model does not capture those failures.
- PyStrings.FirstWord: `text.split()[0]` on a text of spaces raises IndexError in the source; the model gives the empty word instead.
- EsfmLoadProofs.ELoadIdempotent: covers only lines in standard form with no tag, brace, underline or `~`. A line with `~` is not its own load, because the `~` is saved as a no-break space. Saved ESFM output does not reload unchanged in general: the `\str H n=word\str*` fields the pass writes contain `=`, which the pass reads again as a tag.
- PyStrings.ParseInt: models `int()` only on an optional `-` followed by digits, which is all the loader ever passes it.
- The Python exceptions are modelled as values: a failed assertion or KeyError in a load sets a flag and stops the load, keeping what was recorded before it.
- BookOrders.BookOrderSystem.Valid assumes that positions run 1..n with the maps inverse to the list; the converter that builds the tables (BibleBookOrdersConverter.py, not part of this model) only asserts equal sizes.
- `BibleBookOrderSystem.__len__`/`numBooks` and `__contains__`/`containsBook` do the same thing, and each pair is modelled once; `getBookOrderSystemName` and `getBookOrderList` are field reads.
- `checkBookOrderSystem`'s check of each book code against `BibleBooksCodes` (not part of this model) only logs, and is left out, as are its messages, the loop that only builds a message, and its printing and file export (BibleBookOrders.py:201-217).
- BibleBookOrdersConverter.py, ISO_639_3_Languages.py, TheWordBible.py, OpenSongXMLBible.py and the generated C tables are not part of this model.
