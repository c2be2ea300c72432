/** The USFM marker registry: table lookups over the dictionaries and lists
    that the registry loads once (from a pickle or XML file, which is not part
    of this model) and never changes afterwards. */
module Markers {
  import opened Outcomes
  import NoteSets

  /** One entry of `rawMarkerDict`. `closed` and `hasContent` hold the words
      of the marker table ("No"/"Optional"/"Always",
      "Never"/"Sometimes"/"Always"); anything else is a table error. */
  datatype MarkerInfo = MarkerInfo(
    compulsoryFlag: bool,
    numberableFlag: bool,
    nestsFlag: bool,
    printedFlag: bool,
    closed: string,
    hasContent: string,
    occursIn: string,
    nameEnglish: string,
    description: string)

  /** The answers of markerShouldBeClosed / markerShouldHaveContent:
      "N", "S", "A", or False for a marker that is not valid. */
  datatype Policy = Never | Sometimes | Always | NotAMarker {
    function Code(): string
      requires !NotAMarker?
    {
      match this
      case Never => "N"
      case Sometimes => "S"
      case Always => "A"
    }
  }

  /** Reads a policy word of the marker table; `never` and `sometimes` are the
      table's words for those two answers. An unknown word raises KeyError. */
  function ReadPolicy(word: string, never: string, sometimes: string): Result<Policy> {
    if word == never then Ok(Never)
    else if word == "Always" then Ok(Always)
    else if word == sometimes then Ok(Sometimes)
    else Err(KeyError)
  }

  datatype Registry = Registry(
    rawMarkerDict: map<string, MarkerInfo>,
    rawMarkerOrder: seq<string>,            // the iteration order of rawMarkerDict
    combinedMarkerDict: map<string, string>, // every valid spelling -> its raw marker
    conversionDict: map<string, string>,     // raw marker -> standard (numbered) spelling
    combinedNewlineMarkersList: seq<string>,
    numberedNewlineMarkersList: seq<string>,
    newlineMarkersList: seq<string>,
    internalMarkersList: seq<string>,
    deprecatedMarkersList: seq<string>,
    noteMarkers: set<string>)                // what isNoteMarker accepts
  {
    /** The consistency of the loaded tables that the lookups rely on. */
    ghost predicate Valid() {
      // every spelling maps to a described raw marker, which is itself a spelling of itself
      && (forall m | m in combinedMarkerDict :: combinedMarkerDict[m] in rawMarkerDict)
      && (forall m | m in combinedMarkerDict ::
            combinedMarkerDict[m] in combinedMarkerDict
            && combinedMarkerDict[combinedMarkerDict[m]] == combinedMarkerDict[m])
      // newline markers and standard spellings are valid markers
      && (forall m | m in combinedNewlineMarkersList :: m in combinedMarkerDict)
      // the combined newline list holds the raw form of each marker it holds
      && (forall m | m in combinedNewlineMarkersList :: combinedMarkerDict[m] in combinedNewlineMarkersList)
      && (forall m | m in conversionDict :: conversionDict[m] in combinedMarkerDict)
      // rawMarkerOrder enumerates exactly the keys of rawMarkerDict
      && (forall m | m in rawMarkerOrder :: m in rawMarkerDict)
      && (forall m | m in rawMarkerDict :: m in rawMarkerOrder)
    }

    /** The conversion table takes each raw marker it knows to a spelling of
        that same raw marker. */
    ghost predicate StandardForms() {
      forall m | m in conversionDict ::
        && m in combinedMarkerDict && combinedMarkerDict[m] == m
        && conversionDict[m] in combinedMarkerDict
        && combinedMarkerDict[conversionDict[m]] == m
    }

    /** `isValidMarker` and `__contains__`: a spelling of the combined table.
        With consistent tables a valid marker has a described raw form that
        is valid too. */
    function IsValidMarker(m: string): (r: bool)
      ensures r <==> m in combinedMarkerDict
      ensures Valid() && r ==> combinedMarkerDict[m] in rawMarkerDict && combinedMarkerDict[m] in combinedMarkerDict
    {
      m in combinedMarkerDict
    }

    function ToRawMarker(m: string): (r: Result<string>)
      ensures r.Ok? <==> IsValidMarker(m)
      ensures Valid() && r.Ok? ==> r.value in rawMarkerDict && IsValidMarker(r.value)
    {
      if m in combinedMarkerDict then Ok(combinedMarkerDict[m]) else Err(KeyError)
    }

    function ToStandardMarker(m: string): (r: Result<string>)
      ensures r.Ok? <==> m in conversionDict || IsValidMarker(m)
      ensures m in conversionDict ==> r == Ok(conversionDict[m])
      ensures m !in conversionDict && IsValidMarker(m) ==> r == Ok(m)
      ensures Valid() && r.Ok? ==> IsValidMarker(r.value)
    {
      if m in conversionDict then Ok(conversionDict[m])
      else if m in combinedMarkerDict then Ok(m)
      else Err(KeyError)
    }

    /** The description of a valid marker's raw form. */
    function Info(m: string): MarkerInfo
      requires Valid() && IsValidMarker(m)
    {
      rawMarkerDict[combinedMarkerDict[m]]
    }

    function IsNewlineMarker(m: string): (r: bool)
      ensures r ==> IsValidMarker(m)
      ensures r <==> IsValidMarker(m) && ToRawMarker(m).value in combinedNewlineMarkersList
    {
      m in combinedMarkerDict && combinedMarkerDict[m] in combinedNewlineMarkersList
    }

    function IsInternalMarker(m: string): (r: bool)
      ensures r ==> IsValidMarker(m)
      ensures r <==> IsValidMarker(m) && ToRawMarker(m).value in internalMarkersList
    {
      m in combinedMarkerDict && combinedMarkerDict[m] in internalMarkersList
    }

    /** Unlike the other classifiers this one is a plain list membership: it
        does not check that the marker is valid first. */
    function IsDeprecatedMarker(m: string): (r: bool)
      ensures r <==> exists i | 0 <= i < |deprecatedMarkersList| :: deprecatedMarkersList[i] == m
    {
      m in deprecatedMarkersList
    }

    /** The registry's note-marker classification (footnote and cross-reference
        openers), taken as given. */
    predicate IsNoteMarker(m: string) {
      m in noteMarkers
    }

    function IsCompulsoryMarker(m: string): (r: bool)
      requires Valid()
      ensures r ==> IsValidMarker(m)
      ensures IsValidMarker(m) ==> r == Info(m).compulsoryFlag
    {
      if m !in combinedMarkerDict then false else Info(m).compulsoryFlag
    }

    function IsNumberableMarker(m: string): (r: bool)
      requires Valid()
      ensures r ==> IsValidMarker(m)
      ensures IsValidMarker(m) ==> r == Info(m).numberableFlag
    {
      if m !in combinedMarkerDict then false else Info(m).numberableFlag
    }

    function IsNestingMarker(m: string): (r: bool)
      requires Valid()
      ensures r ==> IsValidMarker(m)
      ensures IsValidMarker(m) ==> r == Info(m).nestsFlag
    {
      if m !in combinedMarkerDict then false else Info(m).nestsFlag
    }

    function IsPrinted(m: string): (r: bool)
      requires Valid()
      ensures r ==> IsValidMarker(m)
      ensures IsValidMarker(m) ==> r == Info(m).printedFlag
    {
      if m !in combinedMarkerDict then false else Info(m).printedFlag
    }

    function MarkerShouldBeClosed(m: string): (r: Result<Policy>)
      requires Valid()
      ensures r == Ok(NotAMarker) <==> !IsValidMarker(m)
      ensures IsValidMarker(m) ==>
        && (r == Ok(Never) <==> Info(m).closed == "No")
        && (r == Ok(Sometimes) <==> Info(m).closed == "Optional")
        && (r == Ok(Always) <==> Info(m).closed == "Always")
        && (r.Err? <==> Info(m).closed !in {"No", "Optional", "Always"})
    {
      if m !in combinedMarkerDict then Ok(NotAMarker)
      else ReadPolicy(Info(m).closed, "No", "Optional")
    }

    function MarkerShouldHaveContent(m: string): (r: Result<Policy>)
      requires Valid()
      ensures r == Ok(NotAMarker) <==> !IsValidMarker(m)
      ensures IsValidMarker(m) ==>
        && (r == Ok(Never) <==> Info(m).hasContent == "Never")
        && (r == Ok(Sometimes) <==> Info(m).hasContent == "Sometimes")
        && (r == Ok(Always) <==> Info(m).hasContent == "Always")
        && (r.Err? <==> Info(m).hasContent !in {"Never", "Sometimes", "Always"})
    {
      if m !in combinedMarkerDict then Ok(NotAMarker)
      else ReadPolicy(Info(m).hasContent, "Never", "Sometimes")
    }

    function MarkerOccursIn(m: string): (r: Result<string>)
      requires Valid()
      ensures r.Ok? <==> IsValidMarker(m)
      ensures r.Ok? ==> r.value == Info(m).occursIn
    {
      if m !in combinedMarkerDict then Err(KeyError) else Ok(Info(m).occursIn)
    }

    /** As written, 'Raw' hands out the numbered list and 'Numbered' the raw
        list; any other option fails the assertion. */
    function GetNewlineMarkersList(option: string): (r: Result<seq<string>>)
      ensures r.Err? <==> option !in {"Raw", "Numbered", "Combined"}
      ensures option == "Combined" ==> r == Ok(combinedNewlineMarkersList)
      ensures option == "Raw" ==> r == Ok(numberedNewlineMarkersList)
      ensures option == "Numbered" ==> r == Ok(newlineMarkersList)
    {
      if option == "Combined" then Ok(combinedNewlineMarkersList)
      else if option == "Raw" then Ok(numberedNewlineMarkersList)
      else if option == "Numbered" then Ok(newlineMarkersList)
      else Err(AssertionError)
    }
  }

  /** getTypicalNoteSets: the footnote sets, the cross-reference sets, or
      both; any other selection gives None. */
  function GetTypicalNoteSets(select: string): (r: Option<seq<seq<string>>>)
    ensures r.Some? <==> select in {"fn", "xr", "All"}
    ensures select == "fn" ==> r == Some(NoteSets.FootnoteSets)
    ensures select == "xr" ==> r == Some(NoteSets.XrefSets)
    ensures select == "All" ==> r == Some(NoteSets.FootnoteSets + NoteSets.XrefSets)
  {
    if select == "fn" then Some(NoteSets.FootnoteSets)
    else if select == "xr" then Some(NoteSets.XrefSets)
    else if select == "All" then Some(NoteSets.FootnoteSets + NoteSets.XrefSets)
    else None
  }

  predicate NoDuplicates<T(==)>(s: seq<T>) {
    forall i, j | 0 <= i < j < |s| :: s[i] != s[j]
  }

  /** The distinct entries of `s`, each where it first occurs. */
  function FirstOccurrences(s: seq<string>): (r: seq<string>)
    ensures NoDuplicates(r)
    ensures forall z :: z in r <==> z in s
  {
    if s == [] then []
    else
      var r := FirstOccurrences(s[..|s| - 1]);
      assert forall z :: z in s <==> z in s[..|s| - 1] || z == s[|s| - 1];
      if s[|s| - 1] in r then r else r + [s[|s| - 1]]
  }

  /** The zone of each raw marker, in the dictionary's order. */
  ghost function Zones(reg: Registry): seq<string>
    requires reg.Valid()
  {
    seq(|reg.rawMarkerOrder|, k requires 0 <= k < |reg.rawMarkerOrder| => reg.rawMarkerDict[reg.rawMarkerOrder[k]].occursIn)
  }

  /** getOccursInList: every zone a raw marker occurs in, each once, in the
      order they are first met. */
  method GetOccursInList(reg: Registry) returns (oiList: seq<string>)
    requires reg.Valid()
    ensures oiList == FirstOccurrences(Zones(reg))
    ensures NoDuplicates(oiList)
    ensures forall m | m in reg.rawMarkerDict :: reg.rawMarkerDict[m].occursIn in oiList
    ensures forall z | z in oiList :: exists m | m in reg.rawMarkerDict :: reg.rawMarkerDict[m].occursIn == z
  {
    oiList := [];
    var i := 0;
    while i < |reg.rawMarkerOrder|
      invariant 0 <= i <= |reg.rawMarkerOrder|
      invariant oiList == FirstOccurrences(Zones(reg)[..i])
    {
      var marker := reg.rawMarkerOrder[i];
      var occursIn := reg.rawMarkerDict[marker].occursIn;
      assert Zones(reg)[..i + 1][..i] == Zones(reg)[..i];
      if occursIn !in oiList {
        oiList := oiList + [occursIn];
      }
      i := i + 1;
    }
    assert Zones(reg)[..i] == Zones(reg);
    forall m | m in reg.rawMarkerDict
      ensures reg.rawMarkerDict[m].occursIn in oiList
    {
      var k :| 0 <= k < |reg.rawMarkerOrder| && reg.rawMarkerOrder[k] == m;
      assert Zones(reg)[k] == reg.rawMarkerDict[m].occursIn;
    }
    forall z | z in oiList
      ensures exists m | m in reg.rawMarkerDict :: reg.rawMarkerDict[m].occursIn == z
    {
      var k :| 0 <= k < |Zones(reg)| && Zones(reg)[k] == z;
      assert reg.rawMarkerOrder[k] in reg.rawMarkerDict;
    }
  }

  /** The entries getCharacterMarkersList adds for one internal marker. */
  function CharacterEntries(reg: Registry, marker: string, includeBackslash: bool, includeEndMarkers: bool): Result<seq<string>>
    requires reg.Valid()
  {
    if marker == "f" || marker == "x" then Ok([])
    else match reg.MarkerOccursIn(marker)
      case Err(e) => Err(e)
      case Ok(zone) =>
        if zone != "Text" then Ok([])
        else
          var adj := if includeBackslash then "\\" + marker else marker;
          if !includeEndMarkers then Ok([adj])
          else match reg.MarkerShouldBeClosed(marker)
            case Err(e) => Err(e)
            case Ok(p) => if p == Always then Ok([adj, adj + "*"]) else Err(AssertionError)
  }

  /** getCharacterMarkersList over a list of internal markers, propagating the
      first failure. */
  function CharacterMarkers(reg: Registry, markers: seq<string>, includeBackslash: bool, includeEndMarkers: bool): Result<seq<string>>
    requires reg.Valid()
  {
    if markers == [] then Ok([])
    else match CharacterEntries(reg, markers[0], includeBackslash, includeEndMarkers)
      case Err(e) => Err(e)
      case Ok(first) => Prepend(first, CharacterMarkers(reg, markers[1..], includeBackslash, includeEndMarkers))
  }

  function Prepend(front: seq<string>, r: Result<seq<string>>): Result<seq<string>> {
    match r
    case Ok(rest) => Ok(front + rest)
    case Err(e) => Err(e)
  }

  lemma PrependAppend(a: seq<string>, b: seq<string>, r: Result<seq<string>>)
    ensures Prepend(a, Prepend(b, r)) == Prepend(a + b, r)
  {
    if r.Ok? {
      assert a + (b + r.value) == (a + b) + r.value;
    }
  }

  method GetCharacterMarkersList(reg: Registry, includeBackslash: bool, includeEndMarkers: bool) returns (r: Result<seq<string>>)
    requires reg.Valid()
    ensures r == CharacterMarkers(reg, reg.internalMarkersList, includeBackslash, includeEndMarkers)
  {
    var result: seq<string> := [];
    var list := reg.internalMarkersList;
    var i := 0;
    assert list[0..] == list;
    assert Prepend([], CharacterMarkers(reg, list, includeBackslash, includeEndMarkers))
      == CharacterMarkers(reg, list, includeBackslash, includeEndMarkers) by {
      var cm := CharacterMarkers(reg, list, includeBackslash, includeEndMarkers);
      if cm.Ok? {
        assert [] + cm.value == cm.value;
      }
    }
    while i < |list|
      invariant 0 <= i <= |list|
      invariant CharacterMarkers(reg, list, includeBackslash, includeEndMarkers)
        == Prepend(result, CharacterMarkers(reg, list[i..], includeBackslash, includeEndMarkers))
    {
      var marker := list[i];
      assert list[i..][1..] == list[i + 1..];
      ghost var entries := CharacterEntries(reg, marker, includeBackslash, includeEndMarkers);
      ghost var rest := CharacterMarkers(reg, list[i + 1..], includeBackslash, includeEndMarkers);
      assert CharacterMarkers(reg, list[i..], includeBackslash, includeEndMarkers)
        == if entries.Err? then Err(entries.error) else Prepend(entries.value, rest);
      ghost var before := result;
      if marker != "f" && marker != "x" {
        var zone := reg.MarkerOccursIn(marker);
        if zone.Err? {
          assert entries == Err(zone.error);
          return Err(zone.error);
        }
        if zone.value == "Text" {
          var adjMarker := if includeBackslash then "\\" + marker else marker;
          result := result + [adjMarker];
          if includeEndMarkers {
            var closed := reg.MarkerShouldBeClosed(marker);
            if closed.Err? {
              assert entries == Err(closed.error);
              return Err(closed.error);
            }
            if closed.value != Always {
              assert entries == Err(AssertionError);
              return Err(AssertionError);
            }
            result := result + [adjMarker + "*"];
            assert result[|before|..] == [adjMarker, adjMarker + "*"];
          } else {
            assert result[|before|..] == [adjMarker];
          }
        } else {
          assert result[|before|..] == [];
        }
      } else {
        assert result[|before|..] == [];
      }
      assert entries == Ok(result[|before|..]);
      PrependAppend(before, result[|before|..], rest);
      assert before + result[|before|..] == result;
      i := i + 1;
    }
    assert list[i..] == [];
    assert result + [] == result;
    r := Ok(result);
  }
}

/** What the registry lookups promise when the tables are consistent. */
module MarkersProofs {
  import opened Outcomes
  import opened Markers

  /** Converting to the standard spelling never changes which marker is meant. */
  lemma StandardKeepsRaw(reg: Registry, m: string)
    requires reg.Valid() && reg.StandardForms() && reg.IsValidMarker(m)
    ensures reg.ToStandardMarker(m).Ok?
    ensures reg.ToRawMarker(reg.ToStandardMarker(m).value) == reg.ToRawMarker(m)
  {
  }

  /** A marker and its raw form are classified alike, since both
      classifiers look at the raw form. */
  lemma RawClassifiedAlike(reg: Registry, m: string)
    requires reg.Valid() && reg.IsValidMarker(m)
    ensures reg.IsNewlineMarker(reg.ToRawMarker(m).value) == reg.IsNewlineMarker(m)
    ensures reg.IsInternalMarker(reg.ToRawMarker(m).value) == reg.IsInternalMarker(m)
  {
  }

  /** The standard spelling is a fixed point of the conversion. */
  lemma StandardIdempotent(reg: Registry, m: string)
    requires reg.Valid() && reg.StandardForms() && reg.IsValidMarker(m)
    ensures reg.ToStandardMarker(reg.ToStandardMarker(m).value) == reg.ToStandardMarker(m)
  {
    if m in reg.conversionDict {
      var s := reg.conversionDict[m];
      if s in reg.conversionDict {
        assert reg.combinedMarkerDict[s] == s;
        assert reg.combinedMarkerDict[s] == m;
      }
    }
  }

  /** Going through the raw form reaches the standard spelling of the raw
      marker, which need not be the given standard spelling: `q2` is already
      standard, while its raw marker `q` converts to `q1`. */
  lemma RawThenStandardNotUnique()
    ensures var reg := Registry(
              map["q" := MarkerInfo(false, true, false, true, "No", "Always", "Poetry", "Poetry", "")],
              ["q"], map["q" := "q", "q1" := "q", "q2" := "q"], map["q" := "q1"],
              ["q"], ["q1"], ["q"], [], [], {});
            && reg.Valid() && reg.StandardForms()
            && reg.ToStandardMarker("q2") == Ok("q2")
            && reg.ToStandardMarker(reg.ToRawMarker("q2").value) == Ok("q1")
  {
  }

  /** The deprecated test does not go through the combined table: a listed
      marker that is not a valid spelling is still deprecated, and is
      neither a newline nor an internal marker. */
  lemma DeprecatedNeedNotBeValid()
    ensures var reg := Registry(
              map["p" := MarkerInfo(false, false, false, true, "No", "Always", "Text", "Paragraph", "")],
              ["p"], map["p" := "p"], map[], ["p"], [], ["p"], [], ["pr"], {});
            && reg.Valid()
            && reg.IsDeprecatedMarker("pr") && !reg.IsValidMarker("pr")
            && !reg.IsNewlineMarker("pr") && !reg.IsInternalMarker("pr")
  {
    var reg := Registry(
      map["p" := MarkerInfo(false, false, false, true, "No", "Always", "Text", "Paragraph", "")],
      ["p"], map["p" := "p"], map[], ["p"], [], ["p"], [], ["pr"], {});
    assert reg.deprecatedMarkersList[0] == "pr";
  }

  function Adjusted(marker: string, includeBackslash: bool): string {
    if includeBackslash then "\\" + marker else marker
  }

  /** The character markers: internal markers other than f and x that occur
      in running text. */
  ghost predicate CharacterMarker(reg: Registry, m: string)
    requires reg.Valid()
  {
    m != "f" && m != "x" && reg.IsValidMarker(m) && reg.Info(m).occursIn == "Text"
  }

  /** When an internal marker makes getCharacterMarkersList fail. */
  ghost predicate Acceptable(reg: Registry, m: string, includeEndMarkers: bool)
    requires reg.Valid()
  {
    m == "f" || m == "x" ||
    (reg.IsValidMarker(m) && (includeEndMarkers && reg.Info(m).occursIn == "Text" ==> reg.Info(m).closed == "Always"))
  }

  /** The list is built exactly when no internal marker is unknown and, when
      end markers are asked for, every character marker is always closed. */
  lemma {:induction false} CharacterMarkersOkIff(reg: Registry, markers: seq<string>, b: bool, e: bool)
    requires reg.Valid()
    ensures CharacterMarkers(reg, markers, b, e).Ok? <==> forall j | 0 <= j < |markers| :: Acceptable(reg, markers[j], e)
  {
    if markers != [] {
      CharacterMarkersOkIff(reg, markers[1..], b, e);
      assert forall j | 1 <= j < |markers| :: markers[j] == markers[1..][j - 1];
      if CharacterMarkers(reg, markers, b, e).Ok? {
        forall j | 0 <= j < |markers|
          ensures Acceptable(reg, markers[j], e)
        {
          if j > 0 {
            assert markers[1..][j - 1] == markers[j];
          }
        }
      }
    }
  }

  /** `s` is the entry of a character marker in `markers`, or (when asked)
      its end marker. */
  ghost predicate EntryFor(reg: Registry, markers: seq<string>, s: string, b: bool, e: bool)
    requires reg.Valid()
  {
    exists j | 0 <= j < |markers| ::
      && CharacterMarker(reg, markers[j])
      && (s == Adjusted(markers[j], b) || (e && s == Adjusted(markers[j], b) + "*"))
  }

  /** Every entry is a character marker, or (when asked) its end marker. */
  lemma {:induction false} CharacterMarkersSound(reg: Registry, markers: seq<string>, b: bool, e: bool)
    requires reg.Valid() && CharacterMarkers(reg, markers, b, e).Ok?
    ensures forall s | s in CharacterMarkers(reg, markers, b, e).value :: EntryFor(reg, markers, s, b, e)
  {
    if markers != [] {
      var first := CharacterEntries(reg, markers[0], b, e).value;
      CharacterMarkersSound(reg, markers[1..], b, e);
      var rest := CharacterMarkers(reg, markers[1..], b, e).value;
      var r := CharacterMarkers(reg, markers, b, e).value;
      assert r == first + rest;
      forall s | s in r
        ensures EntryFor(reg, markers, s, b, e)
      {
        if s in first {
          assert CharacterMarker(reg, markers[0]);
        } else {
          assert EntryFor(reg, markers[1..], s, b, e);
          var j :| 0 <= j < |markers[1..]| && CharacterMarker(reg, markers[1..][j]) &&
            (s == Adjusted(markers[1..][j], b) || (e && s == Adjusted(markers[1..][j], b) + "*"));
          assert markers[1..][j] == markers[j + 1];
        }
      }
    }
  }

  /** Every character marker appears, and with end markers each one is
      immediately followed by its end marker. */
  lemma {:induction false} CharacterMarkersComplete(reg: Registry, markers: seq<string>, b: bool, e: bool, j: nat)
    requires reg.Valid() && CharacterMarkers(reg, markers, b, e).Ok?
    requires j < |markers| && CharacterMarker(reg, markers[j])
    ensures var r := CharacterMarkers(reg, markers, b, e).value;
      exists k | 0 <= k < |r| :: r[k] == Adjusted(markers[j], b) && (e ==> k + 1 < |r| && r[k + 1] == r[k] + "*")
  {
    var first := CharacterEntries(reg, markers[0], b, e).value;
    var rest := CharacterMarkers(reg, markers[1..], b, e).value;
    var r := CharacterMarkers(reg, markers, b, e).value;
    assert r == first + rest;
    if j == 0 {
      assert r[0] == Adjusted(markers[0], b);
      if e {
        assert r[1] == r[0] + "*";
      }
    } else {
      assert markers[1..][j - 1] == markers[j];
      CharacterMarkersComplete(reg, markers[1..], b, e, j - 1);
      var k :| 0 <= k < |rest| && rest[k] == Adjusted(markers[j], b) && (e ==> k + 1 < |rest| && rest[k + 1] == rest[k] + "*");
      assert r[|first| + k] == rest[k];
      if e {
        assert r[|first| + k + 1] == rest[k + 1];
      }
    }
  }
}
