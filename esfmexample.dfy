/** The worked example of the ESFM preprocessor, `And_ Elohim=G=SH430
    _said=SH559:`, followed character by character: a hanging underline,
    a semantic tag chained to a Strong's tag, and a Strong's tag on an
    underline group ended by punctuation. */
module EsfmPreExample {
  import opened Lines
  import opened EsfmTags
  import opened EsfmPre
  import opened EsfmPreProofs

  const Example: string := "And_ " + "Elohim=G=" + "SH430 _" + "said=SH559:"

  /** What the code as written turns the example into. The Strong's field
      of the underline group holds `_said`, because the hanging count has
      gone back to zero when the `_` before `said` is met. */
  const Rewritten: string := "And_ " + "Elohim\\sem G Elohim\\sem*" + "\\str H 430=Elohim\\str* _" + "said\\str H 559=_said\\str*:"

  /** The character classes the example needs: `:` is punctuation, and no
      letter or digit of it is punctuation or a dash. */
  predicate ExampleCtx(ctx: Ctx) {
    && ':' in ctx.punct
    && forall ch | ch in "AndElohimGSH4305said9" :: ch !in ctx.punct && ch !in ctx.dashes
  }

  /** The dictionaries know `G Elohim`, `H 430` and `H 559`. */
  predicate ExampleDicts(sem: SemDict, strongs: StrDict) {
    && 'G' in sem.found && "Elohim" in sem.found['G']
    && 'H' in strongs.found && "430" in strongs.found['H'] && "559" in strongs.found['H']
  }

  // ----- single steps the example takes -----

  /** `_` after a word, with no hanging underline open, starts an
      underline group holding the word. */
  lemma UnderAfterWord(ctx: Ctx, st: Pre)
    requires !st.failed && st.tag == "" && !st.braced && !st.underlined && st.hang == 0 && st.last != " "
    ensures PreStep(ctx, st, '_')
      == st.(group := st.group + st.word + "_", underlined := true, word := "", result := st.result + "_", last := "_")
  {
  }

  /** A space after `_` opens a hanging underline and closes the group. */
  lemma SpaceAfterUnder(ctx: Ctx, st: Pre)
    requires !st.failed && st.tag == "" && !st.braced && st.underlined && st.hang < 2 && st.last == "_"
    ensures PreStep(ctx, st, ' ')
      == st.(hang := st.hang + 1, group := st.group + st.word, underlined := false, word := "", result := st.result + " ", last := " ")
  {
  }

  /** `=` ending a semantic tag writes its field and starts a consecutive
      tag for the same word, whatever underline group is held. */
  lemma SemanticChained(ctx: Ctx, st: Pre)
    requires !st.failed && !st.braced && !st.underlined && st.bracedText == ""
    requires SemanticTagAccepted(st.word, st.tag) && st.tag[1] != 'S'
    ensures var s := SemanticTag(st.sem, st.out, ctx.bbb, ctx.c, ctx.v, st.word, st.tag);
      PreStep(ctx, st, '=') == st.(sem := s.dict, out := s.out, result := st.result + s.field, tag := "=", last := "=")
  {
    assert BracePart(HangPart(ctx, st, '='), '=') == st;
  }

  /** A space ending a Strong's tag while a hanging underline is open:
      the held group is dropped first, so the tag is saved for the word. */
  lemma StrongsAfterHang(ctx: Ctx, st: Pre)
    requires !st.failed && !st.braced && !st.underlined && st.bracedText == "" && st.last != "_" && st.hang != 0
    requires StrongsTagAccepted(st.word, st.tag)
    ensures var s := StrongsTag(st.strongs, st.out, ctx.bbb, ctx.c, ctx.v, st.word, st.tag);
      PreStep(ctx, st, ' ')
        == st.(group := "", strongs := s.dict, out := s.out, result := st.result + s.field + " ",
               word := "", tag := "", last := " ")
  {
    var h := HangPart(ctx, st, ' ');
    assert h == st.(group := "");
    assert BracePart(h, ' ') == h;
    assert Grouped(h, ' ') == h;
  }

  /** ` _` closing the only hanging underline starts a new underline group. */
  lemma UnderClosesHang(ctx: Ctx, st: Pre)
    requires !st.failed && st.tag == "" && !st.braced && !st.underlined && st.hang == 1 && st.last == " " && st.word == ""
    ensures PreStep(ctx, st, '_')
      == st.(hang := 0, group := st.group + "_", underlined := true, result := st.result + "_", last := "_")
  {
  }

  /** Punctuation ending a Strong's tag inside an underline group saves
      the tag for the whole group. */
  lemma StrongsOnGroup(ctx: Ctx, st: Pre, ch: char)
    requires ch in ctx.punct && ch !in " _={}"
    requires !st.failed && !st.braced && st.underlined && st.bracedText == ""
    requires StrongsTagAccepted(st.group + st.word, st.tag)
    ensures var s := StrongsTag(st.strongs, st.out, ctx.bbb, ctx.c, ctx.v, st.group + st.word, st.tag);
      PreStep(ctx, st, ch)
        == st.(group := "", underlined := false, strongs := s.dict, out := s.out, result := st.result + s.field + [ch],
               word := "", tag := "", last := [ch])
  {
    assert BracePart(HangPart(ctx, st, ch), ch) == st;
    var g := Grouped(st, ch);
    assert g == st.(group := st.group + st.word, underlined := false);
    assert StrongsSubject(g) == st.group + st.word;
  }

  // Every lemma below that speaks of a run names the ends of the run as
  // variables of their own (`j1 == j + 1`), never as sums.

  predicate WordChars(ctx: Ctx, t: string, i: nat, j: nat)
    requires i <= j <= |t|
  {
    forall m | i <= m < j :: t[m] !in " _={}" && t[m] !in ctx.dashes
  }

  predicate TagChars(ctx: Ctx, t: string, i: nat, j: nat)
    requires i <= j <= |t|
  {
    forall m | i <= m < j :: !Ends(ctx, t[m])
  }

  /** The characters of a word hold no space. */
  lemma WordHasNoSpace(ctx: Ctx, t: string, i: nat, j: nat)
    requires i < j <= |t| && WordChars(ctx, t, i, j)
    ensures t[i..j] != [] && ' ' !in t[i..j]
  {
    forall m | 0 <= m < j - i ensures t[i..j][m] != ' ' {
      assert t[i..j][m] == t[i + m];
    }
  }

  // ----- the kinds of stretch in the example -----

  /** `w_`: a word and an underline group holding it. */
  lemma WordUnder(ctx: Ctx, t: string, i: nat, j: nat, j1: nat, st: Pre)
    requires j1 == j + 1 && i < j < |t| && t[j] == '_' && WordChars(ctx, t, i, j)
    requires !st.failed && st.tag == "" && !st.braced && !st.underlined && st.hang == 0 && st.word == ""
    ensures RunTo(ctx, t, i, j1, st)
      == st.(group := st.group + t[i..j] + "_", underlined := true, word := "", result := st.result + t[i..j] + "_", last := "_")
  {
    WordRun(ctx, t, i, j, st);
    var s1 := Worded(st, t[i..j], [t[j - 1]]);
    assert st.word + t[i..j] == t[i..j];
    UnderAfterWord(ctx, s1);
    ThenStep(ctx, t, i, j, j1, st, s1, PreStep(ctx, s1, '_'));
  }

  /** `w_ `: a word, an underline group holding it, and a hanging underline. */
  lemma WordUnderSpace(ctx: Ctx, t: string, i: nat, j: nat, j1: nat, j2: nat, st: Pre)
    requires j1 == j + 1 && j2 == j + 2 && i < j && j2 <= |t| && t[j] == '_' && t[j + 1] == ' ' && WordChars(ctx, t, i, j)
    requires !st.failed && st.tag == "" && !st.braced && !st.underlined && st.hang == 0 && st.word == ""
    ensures RunTo(ctx, t, i, j2, st)
      == st.(hang := 1, group := st.group + t[i..j] + "_", underlined := false, word := "",
             result := st.result + t[i..j] + "_" + " ", last := " ")
  {
    WordUnder(ctx, t, i, j, j1, st);
    var s2 := RunTo(ctx, t, i, j1, st);
    SpaceAfterUnder(ctx, s2);
    ThenStep(ctx, t, i, j1, j2, st, s2, PreStep(ctx, s2, ' '));
  }

  /** `w=X=`: a word, its semantic field, and a consecutive tag opened. */
  lemma WordSemanticChained(ctx: Ctx, t: string, i: nat, j: nat, k: nat, k1: nat, st: Pre)
    requires k1 == k + 1 && i < j && j + 1 < k < |t| && t[j] == '=' && t[k] == '=' && t[j + 1] != 'S'
    requires WordChars(ctx, t, i, j) && TagChars(ctx, t, j + 1, k)
    requires !st.failed && st.tag == "" && !st.braced && !st.underlined && st.bracedText == "" && st.word == ""
    ensures var s := SemanticTag(st.sem, st.out, ctx.bbb, ctx.c, ctx.v, t[i..j], t[j..k]);
      RunTo(ctx, t, i, k1, st)
        == st.(word := t[i..j], sem := s.dict, out := s.out, result := st.result + t[i..j] + s.field, tag := "=", last := "=")
  {
    WordRun(ctx, t, i, j, st);
    var s1 := Worded(st, t[i..j], [t[j - 1]]);
    assert st.word + t[i..j] == t[i..j];
    TagFrom(ctx, t, j, k, s1);
    var s2 := s1.(tag := t[j..k], last := [t[k - 1]]);
    Then(ctx, t, i, j, k, st, s1, s2);
    WordHasNoSpace(ctx, t, i, j);
    assert t[j..k][1] == t[j + 1];
    SemanticChained(ctx, s2);
    ThenStep(ctx, t, i, k, k1, st, s2, PreStep(ctx, s2, '='));
  }

  /** `Xn ` after a consecutive `=`: the Strong's field for the word and
      the space. */
  lemma StrongsSpace(ctx: Ctx, t: string, j: nat, k: nat, k1: nat, st: Pre)
    requires k1 == k + 1 && j + 1 < k < |t| && t[j] == 'S' && t[k] == ' ' && TagChars(ctx, t, j, k)
    requires !st.failed && st.tag == "=" && !st.braced && !st.underlined && st.bracedText == "" && st.hang != 0
    requires st.word != [] && ' ' !in st.word
    ensures var s := StrongsTag(st.strongs, st.out, ctx.bbb, ctx.c, ctx.v, st.word, "=" + t[j..k]);
      RunTo(ctx, t, j, k1, st)
        == st.(group := "", strongs := s.dict, out := s.out, result := st.result + s.field + " ", word := "", tag := "", last := " ")
  {
    TagRun(ctx, t, j, k, st);
    var s1 := Tagged(st, t[j..k], [t[k - 1]]);
    assert s1.tag[1] == 'S' && |s1.tag| >= 3;
    StrongsAfterHang(ctx, s1);
    ThenStep(ctx, t, j, k, k1, st, s1, PreStep(ctx, s1, ' '));
  }

  /** `Xn _` after a consecutive `=`: the Strong's field for the word, the
      space, and a new underline group that closes the hanging underline. */
  lemma StrongsSpaceUnder(ctx: Ctx, t: string, j: nat, k: nat, k1: nat, k2: nat, st: Pre)
    requires k1 == k + 1 && k2 == k + 2 && j + 1 < k && k2 <= |t| && t[j] == 'S' && t[k] == ' ' && t[k + 1] == '_' && TagChars(ctx, t, j, k)
    requires !st.failed && st.tag == "=" && !st.braced && !st.underlined && st.bracedText == "" && st.hang == 1
    requires st.word != [] && ' ' !in st.word
    ensures var s := StrongsTag(st.strongs, st.out, ctx.bbb, ctx.c, ctx.v, st.word, "=" + t[j..k]);
      RunTo(ctx, t, j, k2, st)
        == st.(group := "_", strongs := s.dict, out := s.out, result := st.result + s.field + " " + "_",
               word := "", tag := "", hang := 0, underlined := true, last := "_")
  {
    StrongsSpace(ctx, t, j, k, k1, st);
    var s2 := RunTo(ctx, t, j, k1, st);
    UnderClosesHang(ctx, s2);
    ThenStep(ctx, t, j, k1, k2, st, s2, PreStep(ctx, s2, '_'));
  }

  /** `w=SXn` ended by punctuation inside an underline group: the word
      joins the group, and the Strong's tag is saved for the whole group. */
  lemma WordGroupStrongs(ctx: Ctx, t: string, i: nat, j: nat, k: nat, k1: nat, st: Pre)
    requires k1 == k + 1 && i < j && j + 3 <= k < |t| && t[j] == '=' && t[j + 1] == 'S'
    requires WordChars(ctx, t, i, j) && TagChars(ctx, t, j + 1, k) && t[k] in ctx.punct && t[k] !in " _={}"
    requires !st.failed && st.tag == "" && !st.braced && st.underlined && st.bracedText == "" && st.word == ""
    requires ' ' !in st.group
    ensures var s := StrongsTag(st.strongs, st.out, ctx.bbb, ctx.c, ctx.v, st.group + t[i..j], t[j..k]);
      RunTo(ctx, t, i, k1, st)
        == st.(group := "", underlined := false, strongs := s.dict, out := s.out, result := st.result + t[i..j] + s.field + [t[k]],
               word := "", tag := "", last := [t[k]])
  {
    WordRun(ctx, t, i, j, st);
    var s1 := Worded(st, t[i..j], [t[j - 1]]);
    assert st.word + t[i..j] == t[i..j];
    TagFrom(ctx, t, j, k, s1);
    var s2 := s1.(tag := t[j..k], last := [t[k - 1]]);
    Then(ctx, t, i, j, k, st, s1, s2);
    assert ' ' !in st.group + t[i..j] by {
      forall m | 0 <= m < |st.group| + j - i ensures (st.group + t[i..j])[m] != ' ' {
        if m >= |st.group| {
          assert (st.group + t[i..j])[m] == t[i + m - |st.group|];
        }
      }
    }
    assert t[j..k][1] == 'S';
    StrongsOnGroup(ctx, s2, t[k]);
    ThenStep(ctx, t, i, k, k1, st, s2, PreStep(ctx, s2, t[k]));
  }

  // ----- what the tags write when their entries are known -----

  /** The `\sem` field of a word whose tag names no separate content. */
  function SemField(cat: char, word: string): string {
    "\\sem " + [cat] + " " + word + "\\sem*"
  }

  /** The `\str` field of a Strong's number and the words it covers. */
  function StrField(cat: char, num: string, word: string): string {
    "\\str " + [cat] + " " + num + "=" + word + "\\str*"
  }

  /** A known category and a known word: no error, and the plain field. */
  lemma SemanticKnown(d: SemDict, out: Out, bbb: string, c: string, v: string, word: string, tag: string)
    requires SemanticTagAccepted(word, tag) && |tag| == 2
    requires tag[1] in SemanticTags && tag[1] in d.found && word in d.found[tag[1]]
    ensures var s := SemanticTag(d, out, bbb, c, v, word, tag);
      s.out == out && s.field == SemField(tag[1], word)
  {
    var s := SemanticTag(d, out, bbb, c, v, word, tag);
    assert s.out.prios == out.prios;
  }

  /** A known letter and a known number: no error, the field holds both,
      and the dictionary keeps its keys. */
  lemma StrongsKnown(d: StrDict, out: Out, bbb: string, c: string, v: string, word: string, tag: string)
    requires StrongsTagAccepted(word, tag) && |tag| > 3
    requires tag[2] in StrongsTags && tag[2] in d.found && tag[3..] in d.found[tag[2]]
    ensures var s := StrongsTag(d, out, bbb, c, v, word, tag);
      && s.out == out && s.field == StrField(tag[2], tag[3..], word)
      && s.dict.found.Keys == d.found.Keys
      && forall k | k in d.found :: s.dict.found[k].Keys == d.found[k].Keys
  {
    var s := StrongsTag(d, out, bbb, c, v, word, tag);
    assert s.out.prios == out.prios;
  }

  // ----- the pattern of the example, in four stretches -----

  /** `w1_ `: the first word, its underline group and the hanging underline. */
  lemma Stretch1(ctx: Ctx, t: string, i: nat, a: nat, a2: nat, st: Pre)
    requires a2 == a + 2 && i < a && a2 <= |t| && WordChars(ctx, t, i, a) && t[a] == '_' && t[a + 1] == ' '
    requires Clear(st) && st.hang == 0
    ensures RunTo(ctx, t, i, a2, st) == st.(hang := 1, group := t[i..a] + "_", result := st.result + (t[i..a] + "_ "), last := " ")
  {
    WordUnderSpace(ctx, t, i, a, a + 1, a2, st);
    assert st.group + t[i..a] + "_" == t[i..a] + "_";
    assert st.result + t[i..a] + "_" + " " == st.result + (t[i..a] + "_ ");
  }

  /** `w2=g=`: the semantic field of the second word, with a consecutive
      tag opened. */
  lemma Stretch2(ctx: Ctx, t: string, a: nat, b: nat, b3: nat, st: Pre)
    requires b3 == b + 3 && a < b && b3 <= |t| && WordChars(ctx, t, a, b)
    requires t[b] == '=' && t[b + 1] != 'S' && TagChars(ctx, t, b + 1, b + 2) && t[b + 2] == '='
    requires !st.failed && st.tag == "" && !st.braced && !st.underlined && st.bracedText == "" && st.word == ""
    requires t[b + 1] in SemanticTags && t[b + 1] in st.sem.found && t[a..b] in st.sem.found[t[b + 1]]
    ensures var p := RunTo(ctx, t, a, b3, st);
      p == st.(word := t[a..b], sem := p.sem, result := st.result + (t[a..b] + SemField(t[b + 1], t[a..b])), tag := "=", last := "=")
  {
    WordSemanticChained(ctx, t, a, b, b + 2, b3, st);
    WordHasNoSpace(ctx, t, a, b);
    assert t[b..b + 2][1] == t[b + 1];
    SemanticKnown(st.sem, st.out, ctx.bbb, ctx.c, ctx.v, t[a..b], t[b..b + 2]);
  }

  /** `Sh1n1 _`: the Strong's field of the held word, and the new
      underline group that closes the hanging underline. */
  lemma Stretch3(ctx: Ctx, t: string, j: nat, c: nat, c2: nat, st: Pre)
    requires c2 == c + 2 && j + 2 < c && c2 <= |t| && t[j] == 'S' && TagChars(ctx, t, j, c) && t[c] == ' ' && t[c + 1] == '_'
    requires !st.failed && st.tag == "=" && !st.braced && !st.underlined && st.bracedText == "" && st.hang == 1
    requires st.word != [] && ' ' !in st.word
    requires t[j + 1] in StrongsTags && t[j + 1] in st.strongs.found && t[j + 2..c] in st.strongs.found[t[j + 1]]
    ensures var p := RunTo(ctx, t, j, c2, st);
      && p == st.(group := "_", strongs := p.strongs, result := st.result + (StrField(t[j + 1], t[j + 2..c], st.word) + " _"),
                  word := "", tag := "", hang := 0, underlined := true, last := "_")
      && p.strongs.found.Keys == st.strongs.found.Keys
      && forall k | k in st.strongs.found :: p.strongs.found[k].Keys == st.strongs.found[k].Keys
  {
    StrongsSpaceUnder(ctx, t, j, c, c + 1, c2, st);
    var tag := "=" + t[j..c];
    assert tag[2] == t[j + 1] && tag[3..] == t[j + 2..c];
    StrongsKnown(st.strongs, st.out, ctx.bbb, ctx.c, ctx.v, st.word, tag);
  }

  /** `w3=Sh2n2p`: the third word joins the underline group, and the
      Strong's field is written for the group. */
  lemma Stretch4(ctx: Ctx, t: string, c: nat, d: nat, e: nat, e1: nat, st: Pre)
    requires e1 == e + 1 && c < d && d + 3 < e < |t| && WordChars(ctx, t, c, d) && t[d] == '=' && t[d + 1] == 'S' && TagChars(ctx, t, d + 1, e)
    requires t[e] in ctx.punct && t[e] !in " _={}"
    requires !st.failed && st.tag == "" && !st.braced && st.underlined && st.bracedText == "" && st.word == "" && st.group == "_"
    requires t[d + 2] in StrongsTags && t[d + 2] in st.strongs.found && t[d + 3..e] in st.strongs.found[t[d + 2]]
    ensures var p := RunTo(ctx, t, c, e1, st);
      !p.failed && p.out == st.out && p.result == st.result + (t[c..d] + StrField(t[d + 2], t[d + 3..e], "_" + t[c..d]) + [t[e]])
  {
    var w, tag := t[c..d], t[d..e];
    WordHasNoSpace(ctx, t, c, d);
    WordGroupStrongs(ctx, t, c, d, e, e1, st);
    assert tag[2] == t[d + 2] && tag[3..] == t[d + 3..e];
    assert st.group + w == "_" + w;
    StrongsKnown(st.strongs, st.out, ctx.bbb, ctx.c, ctx.v, "_" + w, tag);
    var s := StrongsTag(st.strongs, st.out, ctx.bbb, ctx.c, ctx.v, "_" + w, tag);
    assert st.result + w + s.field + [t[e]] == st.result + (w + s.field + [t[e]]);
  }

  /** `w1_ w2=g=Sh1n1 _w3=Sh2n2p`, the shape of the example. */
  predicate ChainLayout(ctx: Ctx, t: string, i: nat, a: nat, b: nat, c: nat, d: nat, e: nat) {
    && i < a && a + 2 < b && b + 5 < c && c + 2 < d && d + 3 < e < |t|
    && WordChars(ctx, t, i, a) && t[a] == '_' && t[a + 1] == ' '
    && WordChars(ctx, t, a + 2, b) && t[b] == '=' && t[b + 1] != 'S' && TagChars(ctx, t, b + 1, b + 2) && t[b + 2] == '='
    && t[b + 3] == 'S' && TagChars(ctx, t, b + 3, c) && t[c] == ' ' && t[c + 1] == '_'
    && WordChars(ctx, t, c + 2, d) && t[d] == '=' && t[d + 1] == 'S' && TagChars(ctx, t, d + 1, e)
    && t[e] in ctx.punct && t[e] !in " _={}"
  }

  /** The dictionaries know the semantic entry and both Strong's numbers. */
  predicate ChainKnown(t: string, a: nat, b: nat, c: nat, d: nat, e: nat, sem: SemDict, strongs: StrDict)
    requires a <= b && b + 5 < c <= d && d + 3 < e <= |t|
  {
    && t[b + 1] in SemanticTags && t[b + 1] in sem.found && t[a..b] in sem.found[t[b + 1]]
    && t[b + 4] in StrongsTags && t[b + 4] in strongs.found && t[b + 5..c] in strongs.found[t[b + 4]]
    && t[d + 2] in StrongsTags && t[d + 2] in strongs.found && t[d + 3..e] in strongs.found[t[d + 2]]
  }

  /** What the shape is rewritten into. */
  function ChainText(w1: string, w2: string, g: char, h1: char, n1: string, w3: string, h2: char, n2: string, p: char): string {
    (w1 + "_ ") + (w2 + SemField(g, w2)) + (StrField(h1, n1, w2) + " _") + (w3 + StrField(h2, n2, "_" + w3) + [p])
  }

  /** `w1_ w2=g=`: the first two stretches. */
  lemma FirstHalf(ctx: Ctx, t: string, i: nat, a: nat, a2: nat, b: nat, b3: nat, st: Pre)
    requires a2 == a + 2 && b3 == b + 3 && i < a && a2 < b && b3 <= |t| && WordChars(ctx, t, i, a) && t[a] == '_' && t[a + 1] == ' '
    requires WordChars(ctx, t, a2, b) && t[b] == '=' && t[b + 1] != 'S' && TagChars(ctx, t, b + 1, b + 2) && t[b + 2] == '='
    requires t[b + 1] in SemanticTags && t[b + 1] in st.sem.found && t[a2..b] in st.sem.found[t[b + 1]]
    requires Clear(st) && st.hang == 0
    ensures var p := RunTo(ctx, t, i, b3, st);
      p == st.(hang := 1, group := t[i..a] + "_", word := t[a2..b], sem := p.sem,
               result := st.result + (t[i..a] + "_ ") + (t[a2..b] + SemField(t[b + 1], t[a2..b])), tag := "=", last := "=")
  {
    Stretch1(ctx, t, i, a, a2, st);
    var s1 := RunTo(ctx, t, i, a2, st);
    Stretch2(ctx, t, a2, b, b3, s1);
    Then(ctx, t, i, a2, b3, st, s1, RunTo(ctx, t, a2, b3, s1));
  }

  /** `Sh1n1 _w3=Sh2n2p`: the last two stretches. */
  lemma SecondHalf(ctx: Ctx, t: string, j: nat, c: nat, c2: nat, d: nat, e: nat, e1: nat, st: Pre)
    requires c2 == c + 2 && e1 == e + 1 && j + 2 < c && c2 < d && d + 3 < e < |t|
    requires t[j] == 'S' && TagChars(ctx, t, j, c) && t[c] == ' ' && t[c + 1] == '_'
    requires WordChars(ctx, t, c2, d) && t[d] == '=' && t[d + 1] == 'S' && TagChars(ctx, t, d + 1, e)
    requires t[e] in ctx.punct && t[e] !in " _={}"
    requires !st.failed && st.tag == "=" && !st.braced && !st.underlined && st.bracedText == "" && st.hang == 1
    requires st.word != [] && ' ' !in st.word
    requires t[j + 1] in StrongsTags && t[j + 1] in st.strongs.found && t[j + 2..c] in st.strongs.found[t[j + 1]]
    requires t[d + 2] in StrongsTags && t[d + 2] in st.strongs.found && t[d + 3..e] in st.strongs.found[t[d + 2]]
    ensures var p := RunTo(ctx, t, j, e1, st);
      && !p.failed && p.out == st.out
      && p.result == st.result + (StrField(t[j + 1], t[j + 2..c], st.word) + " _")
                     + (t[c2..d] + StrField(t[d + 2], t[d + 3..e], "_" + t[c2..d]) + [t[e]])
  {
    Stretch3(ctx, t, j, c, c2, st);
    var s3 := RunTo(ctx, t, j, c2, st);
    assert t[d + 2] in s3.strongs.found && t[d + 3..e] in s3.strongs.found[t[d + 2]];
    Stretch4(ctx, t, c2, d, e, e1, s3);
    Then(ctx, t, j, c2, e1, st, s3, RunTo(ctx, t, c2, e1, s3));
  }

  /** The two halves one after the other, with the four pieces of the
      result as the stretches write them. */
  lemma ChainRun(ctx: Ctx, t: string, i: nat, a: nat, b: nat, c: nat, d: nat, e: nat, n: nat, a2: nat, b3: nat, c2: nat, st: Pre)
    requires a2 == a + 2 && b3 == b + 3 && c2 == c + 2 && n == e + 1
    requires ChainLayout(ctx, t, i, a, b, c, d, e) && ChainKnown(t, a2, b, c, d, e, st.sem, st.strongs)
    requires Clear(st) && st.hang == 0
    ensures var p := RunTo(ctx, t, i, n, st);
      && !p.failed && p.out == st.out
      && p.result == st.result + (t[i..a] + "_ ") + (t[a2..b] + SemField(t[b + 1], t[a2..b]))
                     + (StrField(t[b + 4], t[b + 5..c], t[a2..b]) + " _") + (t[c2..d] + StrField(t[d + 2], t[d + 3..e], "_" + t[c2..d]) + [t[e]])
  {
    FirstHalf(ctx, t, i, a, a2, b, b3, st);
    var s2 := RunTo(ctx, t, i, b3, st);
    WordHasNoSpace(ctx, t, a2, b);
    SecondHalf(ctx, t, b3, c, c2, d, e, n, s2);
    Then(ctx, t, i, b3, n, st, s2, RunTo(ctx, t, b3, n, s2));
  }

  /** Four pieces appended one by one make their concatenation. */
  lemma AppendFour(r: string, p: string, q: string, u: string, w: string)
    ensures r + p + q + u + w == r + (p + q + u + w)
  {
  }

  /** The shape from any state between words: the semantic tag and the
      first Strong's tag are saved for the second word, the second
      Strong's tag for the underline group `_w3`, and with every entry
      known nothing is recorded in the book's errors. */
  lemma HangingChain(ctx: Ctx, t: string, i: nat, a: nat, b: nat, c: nat, d: nat, e: nat, n: nat, st: Pre)
    requires n == e + 1 && ChainLayout(ctx, t, i, a, b, c, d, e) && ChainKnown(t, a + 2, b, c, d, e, st.sem, st.strongs)
    requires Clear(st) && st.hang == 0
    ensures var p := RunTo(ctx, t, i, n, st);
      && !p.failed && p.out == st.out
      && p.result == st.result + ChainText(t[i..a], t[a + 2..b], t[b + 1], t[b + 4], t[b + 5..c], t[c + 2..d], t[d + 2], t[d + 3..e], t[e])
  {
    ChainRun(ctx, t, i, a, b, c, d, e, n, a + 2, b + 3, c + 2, st);
    AppendFour(st.result, t[i..a] + "_ ", t[a + 2..b] + SemField(t[b + 1], t[a + 2..b]),
               StrField(t[b + 4], t[b + 5..c], t[a + 2..b]) + " _", t[c + 2..d] + StrField(t[d + 2], t[d + 3..e], "_" + t[c + 2..d]) + [t[e]]);
  }

  // ----- the example itself -----

  lemma Piece1(ctx: Ctx, t: string, i: nat)
    requires i + 5 <= |t| && t[i..i + 5] == "And_ " && ExampleCtx(ctx)
    ensures t[i..i + 3] == "And" && t[i + 3] == '_' && t[i + 4] == ' ' && WordChars(ctx, t, i, i + 3)
  {
    forall m | i <= m < i + 5 ensures t[m] == "And_ "[m - i] {
      assert t[m] == t[i..i + 5][m - i];
    }
    assert t[i..i + 3] == t[i..i + 5][..3];
  }

  lemma Piece2(ctx: Ctx, t: string, i: nat)
    requires i + 9 <= |t| && t[i..i + 9] == "Elohim=G=" && ExampleCtx(ctx)
    ensures t[i..i + 6] == "Elohim" && t[i + 6] == '=' && t[i + 7] == 'G' && t[i + 8] == '='
    ensures WordChars(ctx, t, i, i + 6) && TagChars(ctx, t, i + 7, i + 8)
  {
    forall m | i <= m < i + 9 ensures t[m] == "Elohim=G="[m - i] {
      assert t[m] == t[i..i + 9][m - i];
    }
    assert t[i..i + 6] == t[i..i + 9][..6];
  }

  lemma Piece3(ctx: Ctx, t: string, i: nat)
    requires i + 7 <= |t| && t[i..i + 7] == "SH430 _" && ExampleCtx(ctx)
    ensures t[i] == 'S' && t[i + 1] == 'H' && t[i + 2..i + 5] == "430" && t[i + 5] == ' ' && t[i + 6] == '_'
    ensures TagChars(ctx, t, i, i + 5)
  {
    forall m | i <= m < i + 7 ensures t[m] == "SH430 _"[m - i] {
      assert t[m] == t[i..i + 7][m - i];
    }
    assert t[i + 2..i + 5] == t[i..i + 7][2..5];
  }

  lemma Piece4(ctx: Ctx, t: string, i: nat)
    requires i + 11 <= |t| && t[i..i + 11] == "said=SH559:" && ExampleCtx(ctx)
    ensures t[i..i + 4] == "said" && t[i + 4] == '=' && t[i + 5] == 'S' && t[i + 6] == 'H' && t[i + 7..i + 10] == "559" && t[i + 10] == ':'
    ensures WordChars(ctx, t, i, i + 4) && TagChars(ctx, t, i + 5, i + 10)
  {
    forall m | i <= m < i + 11 ensures t[m] == "said=SH559:"[m - i] {
      assert t[m] == t[i..i + 11][m - i];
    }
    assert t[i..i + 4] == t[i..i + 11][..4];
    assert t[i + 7..i + 10] == t[i..i + 11][7..10];
  }

  /** The four pieces of a concatenation, sliced back out. */
  lemma Quarters(p: string, q: string, r: string, s: string)
    ensures var t := p + q + r + s;
      && t[..|p|] == p && t[|p|..|p| + |q|] == q
      && t[|p| + |q|..|p| + |q| + |r|] == r && t[|p| + |q| + |r|..|t|] == s
  {
  }

  /** The example has the shape, broken at 3, 11, 19, 25 and 31. */
  lemma ExampleLayout(ctx: Ctx)
    requires ExampleCtx(ctx)
    ensures |Example| == 32 && ChainLayout(ctx, Example, 0, 3, 11, 19, 25, 31)
    ensures Example[0..3] == "And" && Example[5..11] == "Elohim" && Example[12] == 'G'
    ensures Example[15] == 'H' && Example[16..19] == "430" && Example[21..25] == "said" && Example[27] == 'H' && Example[28..31] == "559"
    ensures Example[31] == ':'
  {
    Quarters("And_ ", "Elohim=G=", "SH430 _", "said=SH559:");
    Piece1(ctx, Example, 0);
    Piece2(ctx, Example, 5);
    Piece3(ctx, Example, 14);
    Piece4(ctx, Example, 21);
  }

  lemma ExampleSemPiece()
    ensures "Elohim" + SemField('G', "Elohim") == "Elohim\\sem G Elohim\\sem*"
  {
  }

  lemma ExampleStrPiece()
    ensures StrField('H', "430", "Elohim") + " _" == "\\str H 430=Elohim\\str* _"
  {
  }

  lemma ExampleGroupPiece()
    ensures "said" + StrField('H', "559", "_" + "said") + [':'] == "said\\str H 559=_said\\str*:"
  {
  }

  /** The rewritten shape, filled in with the example's words. */
  lemma ExampleText()
    ensures ChainText("And", "Elohim", 'G', 'H', "430", "said", 'H', "559", ':') == Rewritten
  {
    ExampleSemPiece();
    ExampleStrPiece();
    ExampleGroupPiece();
  }

  /** The example run from any state between words. */
  lemma ExampleFrom(ctx: Ctx, t: string, n: nat, st: Pre)
    requires t == Example && n == |t| && ExampleCtx(ctx) && ExampleDicts(st.sem, st.strongs) && Clear(st) && st.hang == 0
    ensures var p := RunTo(ctx, t, 0, n, st);
      !p.failed && p.result == st.result + Rewritten && p.out == st.out
  {
    ExampleLayout(ctx);
    assert ChainKnown(t, 5, 11, 19, 25, 31, st.sem, st.strongs);
    HangingChain(ctx, t, 0, 3, 11, 19, 25, 31, n, st);
    ExampleText();
  }

  /** The worked example: with the entries known, the line is rewritten
      into `\sem` and `\str` fields, nothing fails and nothing is recorded
      in the book's errors. */
  lemma ExampleRewrite(ctx: Ctx, sem: SemDict, strongs: StrDict, out: Out)
    requires ExampleCtx(ctx) && ExampleDicts(sem, strongs)
    ensures var p := Preprocess(ctx, Example, sem, strongs, out);
      !p.failed && p.result == Rewritten && p.out == out
  {
    ExampleFrom(ctx, Example, |Example|, Start(sem, strongs, out));
    assert "" + Rewritten == Rewritten;
  }
}
