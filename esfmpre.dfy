/** ESFMPreprocessing: the per-character pass that turns ESFM tags
    (`word=Tag`), braced groups (`{several words}=Tag`) and underline
    groups (`went_down`, `and_ … _then`) into `\sem` and `\str` character
    fields, filling the Bible's tag dictionaries on the way. */
module EsfmPre {
  import opened Lines
  import opened EsfmTags

  /** What stays fixed during one line: the book and position used in
      errors and dictionary entries, and the character classes the source
      takes from its globals (`ALL_WORD_PUNCT_CHARS`, `DASH_CHARS`). */
  datatype Ctx = Ctx(bbb: string, c: string, v: string, punct: set<char>, dashes: set<char>)

  /** The loop's variables. `braced` and `underlined` are
      `bracedGroupFlag` and `underlineGroupFlag`; `group` is
      `underlineGroup`; `tag` is `tagText`; `hang` is
      `hangingUnderlineCount`; `last` is `lastChar` ("" before the first
      character). `failed` records that an assertion stopped the pass. */
  datatype Pre = Pre(
    braced: bool, underlined: bool,
    word: string, group: string, bracedText: string, tag: string,
    hang: nat, last: string, result: string,
    sem: SemDict, strongs: StrDict, out: Out, failed: bool)

  function Start(sem: SemDict, strongs: StrDict, out: Out): Pre {
    Pre(false, false, "", "", "", "", 0, "", "", sem, strongs, out, false)
  }

  /** A character that ends a tag. */
  predicate Ends(ctx: Ctx, ch: char) {
    ch in " _=" || ch in ctx.punct
  }

  /** The hanging-underline count: up on `_ `, down on ` _`. The
      increment is asserted to stay below 3; a decrement below zero is
      logged with weight 10 and undone. */
  function HangPart(ctx: Ctx, st: Pre, ch: char): (r: Pre)
    ensures r.word == st.word && r.bracedText == st.bracedText && r.tag == st.tag && r.result == st.result
    ensures r.braced == st.braced && r.underlined == st.underlined && r.last == st.last
    ensures r.sem == st.sem && r.strongs == st.strongs && r.out.lines == st.out.lines
  {
    if ch == ' ' then
      if st.last == "_" then
        if st.hang + 1 >= 3 then st.(failed := true) else st.(hang := st.hang + 1)
      else if !st.underlined && st.hang != 0 then st.(group := "")
      else st
    else if ch == '_' && st.last == " " then
      if st.hang == 0 then st.(out := st.out.AddError(10, MissingUnderlineStart, ctx.c, ctx.v))
      else st.(hang := st.hang - 1)
    else st
  }

  /** Inside braces every character but the closing one is collected, with
      spaces turned into underlines. */
  function BracePart(st: Pre, ch: char): (r: Pre)
    ensures r.word == st.word && r.group == st.group && r.tag == st.tag && r.result == st.result
    ensures r.underlined == st.underlined && r.hang == st.hang && r.last == st.last && r.failed == st.failed
    ensures r.sem == st.sem && r.strongs == st.strongs && r.out == st.out
  {
    if !st.braced then st
    else if ch == '}' then st.(braced := false)
    else st.(bracedText := st.bracedText + [if ch == ' ' then '_' else ch])
  }

  /** The underline group seen by a tag terminator or a word break while
      an underline group is open. */
  function Grouped(st: Pre, ch: char): (r: Pre)
    ensures r.word == st.word && r.bracedText == st.bracedText && r.tag == st.tag && r.result == st.result
    ensures r.hang == st.hang && r.last == st.last && r.failed == st.failed && r.braced == st.braced
    ensures r.sem == st.sem && r.strongs == st.strongs && r.out == st.out
  {
    if !st.underlined then st
    else if ch == '_' then st.(group := st.group + st.word + "_")
    else st.(group := st.group + st.word, underlined := false)
  }

  /** The subject a Strong's tag is saved for: the underline group, or the
      word when there is no group. */
  function StrongsSubject(st: Pre): string {
    if st.group != "" then st.group else st.word
  }

  /** The subject a semantic tag is saved for: the braced text, or the
      word when there is none. */
  function SemanticSubject(st: Pre): string {
    if st.bracedText != "" then st.bracedText else st.word
  }

  /** Saves the tag that a terminator ends: a Strong's tag for the
      underline group or the word, otherwise a semantic tag for the braced
      text or the word. */
  function SaveTag(ctx: Ctx, st: Pre): (r: Pre)
    requires |st.tag| > 1
    ensures r.word == st.word && r.bracedText == st.bracedText && r.tag == st.tag
    ensures r.hang == st.hang && r.last == st.last && r.braced == st.braced
    ensures r.group == st.group || r.group == ""
    ensures r.out.lines == st.out.lines
    ensures r.failed <==> || st.failed
                          || (st.tag[1] == 'S' && !StrongsTagAccepted(StrongsSubject(st), st.tag))
                          || (st.tag[1] != 'S' && (st.bracedText != "" || st.word != "")
                              && !SemanticTagAccepted(SemanticSubject(st), st.tag))
  {
    if st.tag[1] == 'S' then
      var subject := StrongsSubject(st);
      if !StrongsTagAccepted(subject, st.tag) then st.(failed := true)
      else
        var s := StrongsTag(st.strongs, st.out, ctx.bbb, ctx.c, ctx.v, subject, st.tag);
        st.(strongs := s.dict, out := s.out, result := st.result + s.field, group := "", underlined := false)
    else if st.bracedText != "" || st.word != "" then
      var subject := SemanticSubject(st);
      if !SemanticTagAccepted(subject, st.tag) then st.(failed := true)
      else
        var s := SemanticTag(st.sem, st.out, ctx.bbb, ctx.c, ctx.v, subject, st.tag);
        st.(sem := s.dict, out := s.out, result := st.result + s.field)
    else st // a tag with nothing to tag is only logged
  }

  /** After the tag is saved: an underline terminator is written as a
      space and opens an underline group, `=` starts a consecutive tag,
      and any other terminator is written out and clears the word. */
  function AfterTag(st: Pre, ch: char): (r: Pre)
    ensures r.hang == st.hang && r.last == st.last && r.failed == st.failed && r.braced == st.braced
    ensures r.sem == st.sem && r.strongs == st.strongs && r.out == st.out
  {
    if ch == '_' then
      var st1 := if !st.underlined then st.(group := st.group + st.word + "_", underlined := true) else st;
      st1.(word := "", bracedText := "", tag := "", result := st1.result + " ")
    else if ch == '=' then st.(tag := "=")
    else st.(underlined := false, word := "", bracedText := "", tag := "", result := st.result + (if ch != '}' then [ch] else ""))
  }

  /** The output half of one character. */
  function EmitPart(ctx: Ctx, st: Pre, ch: char): (r: Pre)
    ensures r.hang == st.hang && r.last == st.last
    ensures r.out.lines == st.out.lines
  {
    if st.tag != "" then
      if Ends(ctx, ch) then
        var st1 := Grouped(st, ch);
        if |st1.tag| > 1 then
          var st2 := SaveTag(ctx, st1);
          if st2.failed then st2 else AfterTag(st2, ch)
        else st1.(out := st1.out.AddError(21, ShortTag, ctx.c, ctx.v))
      else st.(tag := st.tag + [ch])
    else if ch == '=' then st.(tag := "=")
    else if ch == '{' then
      var bad := (st.last != "" && st.last != " ") || st.tag != "" || st.braced || st.bracedText != "";
      var st1 := if bad then st.(out := st.out.AddError(20, UnexpectedBrace, ctx.c, ctx.v)) else st;
      st1.(braced := true)
    else if ch in " _" || ch in ctx.dashes then
      var st1 :=
        if st.underlined then Grouped(st, ch)
        else if ch == ' ' then st.(underlined := false)
        else if ch == '_' then (if st.hang > 0 then st.(underlined := true) else st.(group := st.group + st.word + "_", underlined := true))
        else st;
      st1.(word := "", result := st1.result + (if ch != '}' then [ch] else ""))
    else if ch == '}' then st
    else st.(word := st.word + [ch], result := st.result + [ch])
  }

  /** One character of the loop. A failed pass takes no further steps. */
  function PreStep(ctx: Ctx, st: Pre, ch: char): (r: Pre)
    ensures st.failed ==> r == st
    ensures r.out.lines == st.out.lines
  {
    if st.failed then st
    else
      var h := HangPart(ctx, st, ch);
      if h.failed then h
      else
        var e := EmitPart(ctx, BracePart(h, ch), ch);
        if e.failed then e else e.(last := [ch])
  }

  /** The characters `text[i..j]`, one step each. */
  function RunTo(ctx: Ctx, text: string, i: nat, j: nat, st: Pre): Pre
    requires i <= j <= |text|
    decreases j - i
  {
    if i == j then st else RunTo(ctx, text, i + 1, j, PreStep(ctx, st, text[i]))
  }

  /** A failed pass stays as it was, and no step adds a line. */
  lemma {:induction false} RunToKeeps(ctx: Ctx, text: string, i: nat, j: nat, st: Pre)
    requires i <= j <= |text|
    ensures st.failed ==> RunTo(ctx, text, i, j, st) == st
    ensures RunTo(ctx, text, i, j, st).out.lines == st.out.lines
    decreases j - i
  {
    if i < j {
      var s1 := PreStep(ctx, st, text[i]);
      RunToKeeps(ctx, text, i + 1, j, s1);
      assert RunTo(ctx, text, i, j, st) == RunTo(ctx, text, i + 1, j, s1);
    }
  }

  /** The characters of `text` from index `i` on. */
  function Run(ctx: Ctx, text: string, i: nat, st: Pre): (r: Pre)
    ensures st.failed ==> r == st
    ensures r.out.lines == st.out.lines
  {
    if i >= |text| then st else RunToKeeps(ctx, text, i, |text|, st); RunTo(ctx, text, i, |text|, st)
  }

  /** `ESFMPreprocessing(BBB, C, V, marker, text)`: the rewritten line is
      the `result` of the final state. */
  function Preprocess(ctx: Ctx, text: string, sem: SemDict, strongs: StrDict, out: Out): Pre {
    Run(ctx, text, 0, Start(sem, strongs, out))
  }
}
