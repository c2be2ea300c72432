/** What the ESFM preprocessor does with braced groups (`{several
    words}=Tag`), with an underline that ends a tag (`word=Tag_`), and
    with the two errors it records without stopping: a misplaced opening
    brace (weight 20) and a tag too short to save (weight 21). */
module EsfmPreGroups {
  import opened Lines
  import opened PyStrings
  import opened EsfmTags
  import opened EsfmPre
  import opened EsfmPreProofs

  // Run ends are passed as variables of their own (`k1 == k + 1`), never
  // as sums.

  // ----- single steps -----

  /** The state after braced characters `s`, collected as `bs`, with last
      word `w`. */
  function Braced(st: Pre, s: string, bs: string, w: string, last: string): Pre {
    st.(bracedText := st.bracedText + bs, result := st.result + s, word := w, last := last)
  }

  /** `{` outside a tag is not copied to the result; it opens a braced
      group. After a character other than a space, inside a group, or
      with braced text still pending, it is recorded with weight 20 and
      the pass goes on. Inside a group the `{` itself is collected. */
  lemma BraceStep(ctx: Ctx, st: Pre)
    requires !st.failed && st.tag == ""
    ensures var bad := (st.last != "" && st.last != " ") || st.braced || st.bracedText != "";
      PreStep(ctx, st, '{')
        == st.(braced := true,
               bracedText := st.bracedText + (if st.braced then "{" else ""),
               out := if bad then st.out.AddError(20, UnexpectedBrace, ctx.c, ctx.v) else st.out,
               last := "{")
  {
  }

  /** Inside braces a character other than `_`, `=` and a brace is
      copied to the result and collected into the braced text, a space
      as `_`. */
  lemma BraceCharStep(ctx: Ctx, st: Pre, ch: char)
    requires !st.failed && st.tag == "" && st.braced && !st.underlined && st.group == "" && st.last != "_"
    requires ch !in "_={}"
    ensures var r := PreStep(ctx, st, ch);
      r == Braced(st, [ch], [if ch == ' ' then '_' else ch], r.word, [ch])
  {
    assert HangPart(ctx, st, ch) == st;
  }

  /** `}` closes the group and is not copied to the result. */
  lemma BraceCloseStep(ctx: Ctx, st: Pre)
    requires !st.failed && st.tag == "" && st.braced && !st.underlined
    ensures var r := PreStep(ctx, st, '}');
      r == st.(braced := false, word := r.word, last := "}")
  {
  }

  /** A space ending a semantic tag after a braced group saves the tag for
      the braced text, whatever the last word is, and writes the field and
      the space. */
  lemma BracedEndStep(ctx: Ctx, st: Pre)
    requires !st.failed && !st.braced && !st.underlined && st.group == "" && st.last != "_"
    requires st.bracedText != "" && ' ' !in st.bracedText
    requires |st.tag| >= 2 && st.tag[0] == '=' && st.tag[1] != 'S'
    ensures var s := SemanticTag(st.sem, st.out, ctx.bbb, ctx.c, ctx.v, st.bracedText, st.tag);
      PreStep(ctx, st, ' ')
        == st.(sem := s.dict, out := s.out, result := st.result + s.field + " ",
               word := "", bracedText := "", tag := "", last := " ")
  {
    assert HangPart(ctx, st, ' ') == st;
    assert Grouped(st, ' ') == st;
  }

  /** `_` ending a semantic tag on a plain word writes the field and then
      a space in place of the `_`, and opens an underline group that holds
      the word and the `_`. */
  lemma SemanticUnderStep(ctx: Ctx, st: Pre)
    requires !st.failed && !st.braced && !st.underlined && st.group == "" && st.bracedText == "" && st.last != " "
    requires SemanticTagAccepted(st.word, st.tag) && st.tag[1] != 'S'
    ensures var s := SemanticTag(st.sem, st.out, ctx.bbb, ctx.c, ctx.v, st.word, st.tag);
      PreStep(ctx, st, '_')
        == st.(sem := s.dict, out := s.out, result := st.result + s.field + " ",
               group := st.word + "_", underlined := true,
               word := "", tag := "", last := "_")
  {
    assert HangPart(ctx, st, '_') == st;
    assert Grouped(st, '_') == st;
  }

  /** A tag that is only `=` when a terminator other than a space or `_`
      arrives is recorded with weight 21; nothing is written, the tag stays
      open and the pass goes on. */
  lemma ShortTagStep(ctx: Ctx, st: Pre, ch: char)
    requires !st.failed && st.tag == "=" && !st.braced && !st.underlined
    requires Ends(ctx, ch) && ch != ' ' && ch != '_'
    ensures PreStep(ctx, st, ch) == st.(out := st.out.AddError(21, ShortTag, ctx.c, ctx.v), last := [ch])
  {
    assert HangPart(ctx, st, ch) == st;
    assert Grouped(st, ch) == st;
  }

  // ----- stretches -----

  lemma ReplaceCharCons(ch: char, s: string)
    ensures ReplaceChar([ch] + s, ' ', '_') == [if ch == ' ' then '_' else ch] + ReplaceChar(s, ' ', '_')
  {
    assert ([ch] + s)[1..] == s;
  }

  /** One braced character followed by more makes one stretch of them. */
  lemma BracedCons(st: Pre, ch: char, c1: string, s: string, bs: string, w1: string, w: string, last1: string, last: string)
    ensures Braced(Braced(st, [ch], c1, w1, last1), s, bs, w, last) == Braced(st, [ch] + s, c1 + bs, w, last)
  {
    assert (st.bracedText + c1) + bs == st.bracedText + (c1 + bs);
    assert (st.result + [ch]) + s == st.result + ([ch] + s);
  }

  /** One step in front of a stretch. */
  lemma StepThen(ctx: Ctx, t: string, i: nat, i1: nat, j: nat, st: Pre, s1: Pre, r: Pre)
    requires i1 == i + 1 && i < j <= |t|
    requires PreStep(ctx, st, t[i]) == s1 && RunTo(ctx, t, i1, j, s1) == r
    ensures RunTo(ctx, t, i, j, st) == r
  {
  }

  /** The braced text of a stretch, character by character. */
  lemma ReplaceSlice(t: string, i: nat, i1: nat, j: nat)
    requires i1 == i + 1 && i < j <= |t|
    ensures t[i..j] == [t[i]] + t[i1..j]
    ensures ReplaceChar(t[i..j], ' ', '_') == [if t[i] == ' ' then '_' else t[i]] + ReplaceChar(t[i1..j], ' ', '_')
  {
    assert t[i..j] == [t[i]] + t[i1..j];
    ReplaceCharCons(t[i], t[i1..j]);
  }

  /** The text inside braces is copied to the result as typed and
      collected into the braced text with its spaces turned into `_`. */
  lemma {:induction false} BraceRun(ctx: Ctx, t: string, i: nat, j: nat, st: Pre)
    requires i <= j <= |t|
    requires forall q | i <= q < j :: t[q] !in "_={}"
    requires !st.failed && st.tag == "" && st.braced && !st.underlined && st.group == "" && st.last != "_"
    ensures var r := RunTo(ctx, t, i, j, st);
      r == Braced(st, t[i..j], ReplaceChar(t[i..j], ' ', '_'), r.word, if i < j then [t[j - 1]] else st.last)
    decreases j - i
  {
    if i == j {
      assert t[i..j] == [];
    } else {
      var i1 := i + 1;
      var c1 := [if t[i] == ' ' then '_' else t[i]];
      var s1 := PreStep(ctx, st, t[i]);
      BraceCharStep(ctx, st, t[i]);
      BraceRun(ctx, t, i1, j, s1);
      var rest := t[i1..j];
      var r := RunTo(ctx, t, i1, j, s1);
      StepThen(ctx, t, i, i1, j, st, s1, r);
      BracedCons(st, t[i], c1, rest, ReplaceChar(rest, ' ', '_'), s1.word, r.word, [t[i]], [t[j - 1]]);
      ReplaceSlice(t, i, i1, j);
    }
  }

  /** `{words}` from a state between words: nothing but the words is
      written, and the braced text is pending, with the group closed. */
  lemma BracedGroup(ctx: Ctx, t: string, b: nat, b1: nat, k: nat, k1: nat, st: Pre)
    requires b1 == b + 1 && k1 == k + 1 && b1 < k < |t|
    requires t[b] == '{' && t[k] == '}' && forall q | b1 <= q < k :: t[q] !in "_={}"
    requires Clear(st) && (st.last == "" || st.last == " ")
    ensures var r := RunTo(ctx, t, b, k1, st);
      r == st.(bracedText := ReplaceChar(t[b1..k], ' ', '_'), result := st.result + t[b1..k],
               word := r.word, last := "}")
  {
    var s1 := st.(braced := true, last := "{");
    BraceStep(ctx, st);
    RunToOne(ctx, t, b, st);
    BraceRun(ctx, t, b1, k, s1);
    var s2 := RunTo(ctx, t, b1, k, s1);
    Then(ctx, t, b, b1, k, st, s1, s2);
    BraceCloseStep(ctx, s2);
    ThenStep(ctx, t, b, k, k1, st, s2, PreStep(ctx, s2, '}'));
  }

  /** A braced group carrying a semantic tag, `{w1 w2 …}=Xc` ended by a
      space: the words are written as typed, without the braces, then the
      tag's field for the braced text with its spaces turned into `_`,
      then the space; that text is recorded under the tag, and the state
      is again between words. */
  lemma BracedTaggedWord(ctx: Ctx, t: string, b: nat, b1: nat, k: nat, k1: nat, m: nat, m1: nat, st: Pre)
    requires b1 == b + 1 && k1 == k + 1 && m1 == m + 1 && b1 < k && k1 + 1 < m < |t|
    requires t[b] == '{' && t[k] == '}' && forall q | b1 <= q < k :: t[q] !in "_={}"
    requires t[k1] == '=' && t[k1 + 1] != 'S' && (forall q | k1 < q < m :: !Ends(ctx, t[q])) && t[m] == ' '
    requires Clear(st) && (st.last == "" || st.last == " ")
    ensures var s := SemanticTag(st.sem, st.out, ctx.bbb, ctx.c, ctx.v, ReplaceChar(t[b1..k], ' ', '_'), t[k1..m]);
      RunTo(ctx, t, b, m1, st) == st.(sem := s.dict, out := s.out, result := st.result + t[b1..k] + s.field + " ", last := " ")
  {
    var bt := ReplaceChar(t[b1..k], ' ', '_');
    BracedGroup(ctx, t, b, b1, k, k1, st);
    var s2 := RunTo(ctx, t, b, k1, st);
    TagFrom(ctx, t, k1, m, s2);
    var s3 := s2.(tag := t[k1..m], last := [t[m - 1]]);
    Then(ctx, t, b, k1, m, st, s2, s3);
    assert !Ends(ctx, t[m - 1]);
    assert |t[k1..m]| >= 2 && t[k1..m][0] == '=' && t[k1..m][1] == t[k1 + 1];
    assert bt != "" && ' ' !in bt;
    BracedEndStep(ctx, s3);
    var s := SemanticTag(st.sem, st.out, ctx.bbb, ctx.c, ctx.v, bt, t[k1..m]);
    ThenStep(ctx, t, b, m, m1, st, s3, PreStep(ctx, s3, ' '));
    assert s3.result + s.field + " " == st.result + t[b1..k] + s.field + " ";
  }

  /** A word whose semantic tag is ended by `_`, `w=Xc_`: the word is
      copied, then the tag's field, then a space in place of the `_`; the
      word is recorded under the tag and an underline group holding `w_`
      is open. */
  lemma SemanticTaggedUnder(ctx: Ctx, t: string, i: nat, j: nat, k: nat, k1: nat, st: Pre)
    requires k1 == k + 1 && TaggedAt(ctx, t, i, j, k) && Clear(st) && t[k] == '_'
    requires t[j + 1] != 'S' && k >= j + 2
    ensures var s := SemanticTag(st.sem, st.out, ctx.bbb, ctx.c, ctx.v, t[i..j], t[j..k]);
      RunTo(ctx, t, i, k1, st)
        == st.(sem := s.dict, out := s.out, result := st.result + t[i..j] + s.field + " ",
               group := t[i..j] + "_", underlined := true, last := "_")
  {
    TaggedPrefix(ctx, t, i, j, k, st);
    TaggedShape(ctx, t, i, j, k);
    var w, g := t[i..j], t[j..k];
    var s3 := st.(word := w, result := st.result + w, tag := g, last := [t[k - 1]]);
    assert !Ends(ctx, t[k - 1]);
    SemanticUnderStep(ctx, s3);
    ThenStep(ctx, t, i, k, k1, st, s3, PreStep(ctx, s3, '_'));
    var s := SemanticTag(st.sem, st.out, ctx.bbb, ctx.c, ctx.v, w, g);
    assert s3.result + s.field + " " == st.result + w + s.field + " ";
  }

  /** The shape of the line `{a b}=G `, by index. */
  predicate BracedLineShape(ctx: Ctx, t: string) {
    && |t| == 8 && t[0] == '{' && t[4] == '}' && t[5] == '=' && t[6] != 'S' && t[7] == ' '
    && (forall q | 1 <= q < 4 :: t[q] !in "_={}")
    && !Ends(ctx, t[6])
  }

  /** A whole line made of one braced group with a semantic tag. */
  lemma BracedLine(ctx: Ctx, t: string, n: nat, st: Pre)
    requires n == |t| && BracedLineShape(ctx, t)
    requires Clear(st) && (st.last == "" || st.last == " ")
    ensures var s := SemanticTag(st.sem, st.out, ctx.bbb, ctx.c, ctx.v, ReplaceChar(t[1..4], ' ', '_'), t[5..7]);
      RunTo(ctx, t, 0, n, st) == st.(sem := s.dict, out := s.out, result := st.result + t[1..4] + s.field + " ", last := " ")
  {
    BracedTaggedWord(ctx, t, 0, 1, 4, 5, 7, 8, st);
  }

  const BracedSample: string := "{a b}=G "

  lemma BracedSampleText(ctx: Ctx)
    requires 'G' !in ctx.punct
    ensures BracedLineShape(ctx, BracedSample)
    ensures BracedSample[1..4] == "a b" && BracedSample[5..7] == "=G"
    ensures ReplaceChar(BracedSample[1..4], ' ', '_') == "a_b"
  {
    assert ReplaceChar("a b", ' ', '_') == "a_b";
  }

  /** The sample line run from any state between words. */
  lemma BracedFrom(ctx: Ctx, t: string, n: nat, st: Pre, words: string, subject: string, tag: string)
    requires t == BracedSample && n == |t| && 'G' !in ctx.punct
    requires words == "a b" && subject == "a_b" && tag == "=G"
    requires Clear(st) && st.last == ""
    ensures var s := SemanticTag(st.sem, st.out, ctx.bbb, ctx.c, ctx.v, subject, tag);
      RunTo(ctx, t, 0, n, st) == st.(sem := s.dict, out := s.out, result := st.result + words + s.field + " ", last := " ")
  {
    BracedSampleText(ctx);
    BracedLine(ctx, t, n, st);
  }

  /** `{a b}=G ` becomes `a b`, the semantic field for `a_b`, and a space;
      `a_b` is recorded under `G`. */
  lemma BracedExample(ctx: Ctx, sem: SemDict, strongs: StrDict, out: Out, words: string, subject: string, tag: string)
    requires 'G' !in ctx.punct && words == "a b" && subject == "a_b" && tag == "=G"
    ensures var s := SemanticTag(sem, out, ctx.bbb, ctx.c, ctx.v, subject, tag);
      var p := Preprocess(ctx, BracedSample, sem, strongs, out);
      && !p.failed && p.result == words + s.field + " "
      && p.sem == s.dict && p.strongs == strongs && p.out == s.out
  {
    var st := Start(sem, strongs, out);
    BracedFrom(ctx, BracedSample, |BracedSample|, st, words, subject, tag);
    var s := SemanticTag(sem, out, ctx.bbb, ctx.c, ctx.v, subject, tag);
    assert "" + words + s.field + " " == words + s.field + " ";
  }
}
