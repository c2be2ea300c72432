/** The ESFM tag dictionaries of a Bible and what saving one tag does to
    them: `saveSemanticTag` and `saveStrongsTag`. */
module EsfmTags {
  import opened Lines

  /** The category letters a semantic tag may carry; `S` is last because a
      Strong's tag must come last when a word carries several tags. */
  const SemanticTags: string := "AGLOPQTS"
  /** The category letters of a Strong's tag: Hebrew and Greek. */
  const StrongsTags: string := "HG"

  /** A place in the text, `(BBB, C, V)`, or a place and a word,
      `(BBB, C, V, word)`. */
  datatype Ref = Ref(bbb: string, c: string, v: string) | RefWord(bbb: string, c: string, v: string, word: string)

  /** category letter -> tag content -> the places recorded for it. */
  type Table = map<char, map<string, seq<Ref>>>

  /** What a table holds for one category and content; a missing key reads
      as the empty list. */
  function Entries(t: Table, cat: char, content: string): seq<Ref> {
    if cat in t && content in t[cat] then t[cat][content] else []
  }

  /** Appends `r` to the list of `(cat, content)`, creating the inner
      dictionary and the list when they are missing. */
  function Append(t: Table, cat: char, content: string, r: Ref): (u: Table)
    ensures cat in u && content in u[cat]
    ensures Entries(u, cat, content) == Entries(t, cat, content) + [r]
    ensures forall c2, k2 | c2 != cat || k2 != content :: Entries(u, c2, k2) == Entries(t, c2, k2)
    ensures u.Keys == t.Keys + {cat}
  {
    var inner := if cat in t then t[cat] else map[];
    t[cat := inner[content := Entries(t, cat, content) + [r]]]
  }

  /** The semantic dictionary: the known categories, the `'Tag errors'`
      list and the `'Missing'` dictionary. A key the source creates on
      first use reads here as an empty list or dictionary. */
  datatype SemDict = SemDict(found: Table, tagErrors: seq<Ref>, missing: Table)

  /** An entry of the Strong's dictionary: the gloss string it was loaded
      with, or the list it is promoted to once an occurrence is recorded. */
  datatype StrongsEntry = Plain(gloss: string) | Listed(items: seq<StrongsItem>)
  datatype StrongsItem = Original(gloss: string) | Occurrence(r: Ref)

  datatype StrDict = StrDict(found: map<char, map<string, StrongsEntry>>, tagErrors: seq<Ref>, missing: Table)

  /** The list an entry holds once it has been promoted. */
  function Promoted(e: StrongsEntry): seq<StrongsItem> {
    match e
    case Plain(s) => [Original(s)]
    case Listed(items) => items
  }

  /** The outcome of saving a tag: the changed dictionary, the book's
      output with the errors it recorded, and the character field that
      replaces the tag in the line. */
  datatype TagSave<D> = TagSave(dict: D, out: Out, field: string)

  /** The assertions at the start of `saveSemanticTag`. */
  predicate SemanticTagAccepted(word: string, tag: string) {
    word != [] && ' ' !in word && |tag| >= 2 && tag[0] == '='
  }

  /** The assertions at the start of `saveStrongsTag`. */
  predicate StrongsTagAccepted(word: string, tag: string) {
    word != [] && ' ' !in word && |tag| >= 3 && tag[0] == '=' && tag[1] == 'S'
  }

  /** The content a tag names: what follows the category letter, or the
      word itself when nothing follows it. */
  function Content(word: string, rest: string): (r: string)
    ensures r != [] || word == []
  {
    if rest == [] then word else rest
  }

  /** `saveSemanticTag(BBB, C, V, word, tag)` for a tag `=X…`. */
  function SemanticTag(d: SemDict, out: Out, bbb: string, c: string, v: string, word: string, tag: string): (r: TagSave<SemDict>)
    requires SemanticTagAccepted(word, tag)
    // an unknown category is logged, with weight 15, but the lookup goes on
    ensures r.dict.tagErrors == d.tagErrors + (if tag[1] in SemanticTags then [] else [RefWord(bbb, c, v, tag[1..])])
    // a known (category, content) pair records the word where it was seen ...
    ensures var content := Content(word, tag[2..]);
      if tag[1] in d.found && content in d.found[tag[1]] then
        && Entries(r.dict.found, tag[1], content) == Entries(d.found, tag[1], content) + [RefWord(bbb, c, v, word)]
        && r.dict.missing == d.missing
      else
        // ... and an unknown one goes to 'Missing', without the word when it is the content
        && Entries(r.dict.missing, tag[1], content)
             == Entries(d.missing, tag[1], content) + [if word == content then Ref(bbb, c, v) else RefWord(bbb, c, v, word)]
        && r.dict.found == d.found
    // no other entry changes
    ensures var content := Content(word, tag[2..]);
      forall c2, k2 | c2 != tag[1] || k2 != content ::
        Entries(r.dict.found, c2, k2) == Entries(d.found, c2, k2) && Entries(r.dict.missing, c2, k2) == Entries(d.missing, c2, k2)
    // the errors: one of weight 15 per problem, and no line
    ensures var content := Content(word, tag[2..]);
      var bad := (if tag[1] in SemanticTags then 0 else 1) + (if tag[1] in d.found && content in d.found[tag[1]] then 0 else 1);
      r.out.lines == out.lines && |r.out.prios| == |out.prios| + bad && r.out.prios[..|out.prios|] == out.prios
      && forall k | |out.prios| <= k < |r.out.prios| :: r.out.prios[k] == PriorityError(15, c, v)
    // each problem is also a load error, the unknown category first
    ensures var content := Content(word, tag[2..]);
      r.out.notes == out.notes + (if tag[1] in SemanticTags then [] else [LoadNote(UnknownTag, c, v)])
                               + (if tag[1] in d.found && content in d.found[tag[1]] then [] else [LoadNote(UnknownTagContent, c, v)])
    // the field names the word, and the content only when it differs
    ensures var content := Content(word, tag[2..]);
      r.field == "\\sem " + [tag[1]] + " " + word + (if word == content then "" else "=" + content) + "\\sem*"
  {
    var cat := tag[1];
    var content := Content(word, tag[2..]);
    var d1 := if cat in SemanticTags then d else d.(tagErrors := d.tagErrors + [RefWord(bbb, c, v, tag[1..])]);
    var out1 := if cat in SemanticTags then out else out.AddError(15, UnknownTag, c, v);
    var found := cat in d1.found && content in d1.found[cat];
    var d2 :=
      if found then d1.(found := Append(d1.found, cat, content, RefWord(bbb, c, v, word)))
      else d1.(missing := Append(d1.missing, cat, content, if word == content then Ref(bbb, c, v) else RefWord(bbb, c, v, word)));
    var out2 := if found then out1 else out1.AddError(15, UnknownTagContent, c, v);
    var field := if word == content then "\\sem " + [cat] + " " + word + "\\sem*"
                 else "\\sem " + [cat] + " " + word + "=" + content + "\\sem*";
    TagSave(d2, out2, field)
  }

  /** Records an occurrence under a known Strong's number, promoting a
      plain gloss to a list first. */
  function Record(found: map<char, map<string, StrongsEntry>>, cat: char, content: string, r: Ref): (u: map<char, map<string, StrongsEntry>>)
    requires cat in found && content in found[cat]
    ensures cat in u && content in u[cat]
    ensures u[cat][content] == Listed(Promoted(found[cat][content]) + [Occurrence(r)])
    ensures u.Keys == found.Keys && u[cat].Keys == found[cat].Keys
    ensures forall c2 | c2 in found && c2 != cat :: u[c2] == found[c2]
    ensures forall k2 | k2 in found[cat] && k2 != content :: u[cat][k2] == found[cat][k2]
  {
    found[cat := found[cat][content := Listed(Promoted(found[cat][content]) + [Occurrence(r)])]]
  }

  /** `saveStrongsTag(BBB, C, V, word, tag)` for a tag `=SX…`. */
  function StrongsTag(d: StrDict, out: Out, bbb: string, c: string, v: string, word: string, tag: string): (r: TagSave<StrDict>)
    requires StrongsTagAccepted(word, tag)
    ensures r.dict.tagErrors == d.tagErrors + (if tag[2] in StrongsTags then [] else [RefWord(bbb, c, v, tag[1..])])
    ensures var content := Content(word, tag[3..]);
      if tag[2] in d.found && content in d.found[tag[2]] then
        && r.dict.found == Record(d.found, tag[2], content, RefWord(bbb, c, v, word))
        && r.dict.missing == d.missing
      else
        && Entries(r.dict.missing, tag[2], content)
             == Entries(d.missing, tag[2], content) + [if word == content then Ref(bbb, c, v) else RefWord(bbb, c, v, word)]
        && (forall c2, k2 | c2 != tag[2] || k2 != content :: Entries(r.dict.missing, c2, k2) == Entries(d.missing, c2, k2))
        && r.dict.found == d.found
    ensures var content := Content(word, tag[3..]);
      var bad := (if tag[2] in StrongsTags then 0 else 1) + (if tag[2] in d.found && content in d.found[tag[2]] then 0 else 1);
      r.out.lines == out.lines && |r.out.prios| == |out.prios| + bad && r.out.prios[..|out.prios|] == out.prios
      && forall k | |out.prios| <= k < |r.out.prios| :: r.out.prios[k] == PriorityError(10, c, v)
    ensures var content := Content(word, tag[3..]);
      r.out.notes == out.notes + (if tag[2] in StrongsTags then [] else [LoadNote(UnknownTag, c, v)])
                               + (if tag[2] in d.found && content in d.found[tag[2]] then [] else [LoadNote(UnknownTagContent, c, v)])
    // the field always holds both the content and the word
    ensures r.field == "\\str " + [tag[2]] + " " + Content(word, tag[3..]) + "=" + word + "\\str*"
  {
    var cat := tag[2];
    var content := Content(word, tag[3..]);
    var d1 := if cat in StrongsTags then d else d.(tagErrors := d.tagErrors + [RefWord(bbb, c, v, tag[1..])]);
    var out1 := if cat in StrongsTags then out else out.AddError(10, UnknownTag, c, v);
    var found := cat in d1.found && content in d1.found[cat];
    var d2 :=
      if found then d1.(found := Record(d1.found, cat, content, RefWord(bbb, c, v, word)))
      else d1.(missing := Append(d1.missing, cat, content, if word == content then Ref(bbb, c, v) else RefWord(bbb, c, v, word)));
    var out2 := if found then out1 else out1.AddError(10, UnknownTagContent, c, v);
    TagSave(d2, out2, "\\str " + [cat] + " " + content + "=" + word + "\\str*")
  }

  /** The Bible a book belongs to, which holds the two tag dictionaries that
      loading its books fills in. */
  class EsfmBible {
    var semanticDict: SemDict
    var strongsDict: StrDict

    constructor (sem: SemDict, strongs: StrDict)
      ensures semanticDict == sem && strongsDict == strongs
    {
      semanticDict := sem;
      strongsDict := strongs;
    }
  }
}
