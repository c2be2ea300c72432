/** What the ESFM preprocessing pass guarantees. */
module EsfmPreProofs {
  import opened Lines
  import opened EsfmTags
  import opened EsfmPre

  /** The pass from `i` on is one step and then the pass from `i + 1`. */
  lemma RunStep(ctx: Ctx, text: string, i: nat, st: Pre)
    requires i < |text|
    ensures Run(ctx, text, i, st) == Run(ctx, text, i + 1, PreStep(ctx, st, text[i]))
  {
  }

  // ----- the hanging-underline count -----

  /** The count after the first `n` characters, read off the text alone:
      one up for each `_ ` pair, one down for each ` _` pair, never below
      zero. */
  function Hang(text: string, n: nat): nat
    requires n <= |text|
  {
    if n == 0 then 0
    else
      var h := Hang(text, n - 1);
      if n >= 2 && text[n - 2] == '_' && text[n - 1] == ' ' then h + 1
      else if n >= 2 && text[n - 2] == ' ' && text[n - 1] == '_' then (if h == 0 then 0 else h - 1)
      else h
  }

  /** `lastChar` after the first `i` characters. */
  function LastOf(text: string, i: nat): string
    requires i <= |text|
  {
    if i == 0 then "" else [text[i - 1]]
  }

  lemma StepHang(ctx: Ctx, text: string, i: nat, st: Pre)
    requires i < |text| && !st.failed
    requires st.last == LastOf(text, i) && st.hang == Hang(text, i) && st.hang < 3
    ensures var r := PreStep(ctx, st, text[i]);
      && (!r.failed ==> r.hang == Hang(text, i + 1) && r.last == LastOf(text, i + 1))
      && (Hang(text, i + 1) >= 3 ==> r.failed)
  {
    var ch := text[i];
    var up := i >= 1 && text[i - 1] == '_' && ch == ' ';
    var down := i >= 1 && text[i - 1] == ' ' && ch == '_';
    assert Hang(text, i + 1) == if up then st.hang + 1 else if down then (if st.hang == 0 then 0 else st.hang - 1) else st.hang;
    assert st.last == "_" <==> i >= 1 && text[i - 1] == '_';
    assert st.last == " " <==> i >= 1 && text[i - 1] == ' ';
    var h := HangPart(ctx, st, ch);
    assert !h.failed ==> h.hang == Hang(text, i + 1);
    assert h.failed <==> Hang(text, i + 1) >= 3;
  }

  lemma {:induction false} HangTracks(ctx: Ctx, text: string, i: nat, st: Pre)
    requires i <= |text|
    requires !st.failed ==> st.last == LastOf(text, i) && st.hang == Hang(text, i)
    requires !st.failed ==> forall m: nat | m <= i :: Hang(text, m) < 3
    ensures var r := Run(ctx, text, i, st);
      && (!r.failed ==> r.hang == Hang(text, |text|) && forall m: nat | m <= |text| :: Hang(text, m) < 3)
      && ((exists m | i < m <= |text| :: Hang(text, m) >= 3) ==> r.failed)
    decreases |text| - i
  {
    if i < |text| {
      var st1 := PreStep(ctx, st, text[i]);
      if !st.failed {
        assert Hang(text, i) < 3;
        StepHang(ctx, text, i, st);
      }
      if !st1.failed {
        assert forall m: nat | m <= i + 1 :: Hang(text, m) < 3 by {
          forall m: nat | m <= i + 1 ensures Hang(text, m) < 3 {
            if m == i + 1 { } else { }
          }
        }
      }
      RunStep(ctx, text, i, st);
      HangTracks(ctx, text, i + 1, st1);
      if exists m | i < m <= |text| :: Hang(text, m) >= 3 {
        var m :| i < m <= |text| && Hang(text, m) >= 3;
        if m == i + 1 {
          assert st1.failed;
        } else {
          assert i + 1 < m;
        }
      }
    }
  }

  /** The pass keeps the count of the text's unclosed `_ ` pairs: when it
      completes, its count is that of the whole text and no prefix reached
      three; and when some prefix reaches three the assertion stops it. */
  lemma HangingUnderlines(ctx: Ctx, text: string, sem: SemDict, strongs: StrDict, out: Out)
    ensures var r := Preprocess(ctx, text, sem, strongs, out);
      && (!r.failed ==> r.hang == Hang(text, |text|) && forall m: nat | m <= |text| :: Hang(text, m) < 3)
      && ((exists m: nat | m <= |text| :: Hang(text, m) >= 3) ==> r.failed)
  {
    HangTracks(ctx, text, 0, Start(sem, strongs, out));
  }

  // ----- text without tags or braces -----

  lemma PlainStep(ctx: Ctx, st: Pre, ch: char)
    requires ch != '=' && ch != '{' && ch != '}'
    requires st.tag == "" && !st.braced && !st.failed
    ensures var r := PreStep(ctx, st, ch);
      && r.tag == "" && !r.braced && r.sem == st.sem && r.strongs == st.strongs
      && (!r.failed ==> r.result == st.result + [ch] && r.last == [ch])
      && (ch != '_' && st.last != "_" ==> !r.failed && r.out == st.out)
  {
  }

  lemma {:induction false} PlainRun(ctx: Ctx, text: string, i: nat, st: Pre)
    requires i <= |text|
    requires forall k | i <= k < |text| :: text[k] != '=' && text[k] != '{' && text[k] != '}'
    requires st.tag == "" && !st.braced
    ensures var r := Run(ctx, text, i, st);
      && r.sem == st.sem && r.strongs == st.strongs
      && (!r.failed ==> r.result == st.result + text[i..])
      && ((forall k | i <= k < |text| :: text[k] != '_') && st.last != "_" && !st.failed ==> !r.failed && r.out == st.out)
    decreases |text| - i
  {
    if i < |text| && !st.failed {
      var st1 := PreStep(ctx, st, text[i]);
      PlainStep(ctx, st, text[i]);
      RunStep(ctx, text, i, st);
      PlainRun(ctx, text, i + 1, st1);
      assert st.result + text[i..] == st.result + [text[i]] + text[i + 1..];
    }
  }

  /** A line with no tag, no brace and no underline is returned unchanged,
      and the dictionaries and the book are left alone; with underlines but
      no tags or braces the text is still unchanged unless the pass stops. */
  lemma PlainTextUnchanged(ctx: Ctx, text: string, sem: SemDict, strongs: StrDict, out: Out)
    requires forall k | 0 <= k < |text| :: text[k] != '=' && text[k] != '{' && text[k] != '}'
    ensures var r := Preprocess(ctx, text, sem, strongs, out);
      && r.sem == sem && r.strongs == strongs
      && (!r.failed ==> r.result == text)
      && ((forall k | 0 <= k < |text| :: text[k] != '_') ==> !r.failed && r.out == out)
  {
    PlainRun(ctx, text, 0, Start(sem, strongs, out));
  }

  // ----- a tag left open at the end of the line -----

  lemma {:induction false} OpenTagRun(ctx: Ctx, text: string, i: nat, st: Pre)
    requires i <= |text|
    requires st.tag != "" && !st.failed
    requires forall k | i <= k < |text| :: !Ends(ctx, text[k])
    ensures var r := Run(ctx, text, i, st);
      && !r.failed && r.tag == st.tag + text[i..]
      && r.result == st.result && r.sem == st.sem && r.strongs == st.strongs && r.out == st.out
    decreases |text| - i
  {
    if i < |text| {
      var st1 := PreStep(ctx, st, text[i]);
      assert st1.tag == st.tag + [text[i]];
      RunStep(ctx, text, i, st);
      OpenTagRun(ctx, text, i + 1, st1);
      assert st.tag + text[i..] == st.tag + [text[i]] + text[i + 1..];
    }
  }

  /** A tag that no terminator ends before the end of the line is dropped
      with everything after it: nothing is written or saved for it. */
  lemma TrailingTagDropped(ctx: Ctx, text: string, i: nat, st: Pre)
    requires i < |text| && text[i] == '='
    requires st.tag == "" && !st.failed
    requires forall k | i < k < |text| :: !Ends(ctx, text[k])
    ensures var r := Run(ctx, text, i, st);
      && !r.failed && r.result == st.result
      && r.sem == st.sem && r.strongs == st.strongs && r.out == st.out
  {
    var st1 := PreStep(ctx, st, text[i]);
    assert st1.tag == "=";
    RunStep(ctx, text, i, st);
    OpenTagRun(ctx, text, i + 1, st1);
  }

  // ----- which assertions can stop the pass -----

  /** What holds before every character: words, underline groups and
      braced text never hold a space, and a tag starts with `=`. */
  predicate Wf(st: Pre) {
    ' ' !in st.word && ' ' !in st.group && ' ' !in st.bracedText && (st.tag == "" || st.tag[0] == '=')
  }

  lemma WfEmitTag(ctx: Ctx, st: Pre, ch: char)
    requires Wf(st) && st.tag != "" && Ends(ctx, ch)
    ensures Wf(EmitPart(ctx, st, ch))
  {
    var g := Grouped(st, ch);
    assert Wf(g);
    if |g.tag| > 1 {
      var s := SaveTag(ctx, g);
      assert Wf(s);
      if !s.failed {
        assert Wf(AfterTag(s, ch));
      }
    }
  }

  lemma WfEmit(ctx: Ctx, st: Pre, ch: char)
    requires Wf(st)
    ensures Wf(EmitPart(ctx, st, ch))
  {
    if st.tag != "" && Ends(ctx, ch) {
      WfEmitTag(ctx, st, ch);
    } else if st.tag == "" && ch in " _" {
      assert Wf(Grouped(st, ch));
    }
  }

  lemma WfStep(ctx: Ctx, st: Pre, ch: char)
    requires Wf(st)
    ensures Wf(PreStep(ctx, st, ch))
  {
    if !st.failed {
      var h := HangPart(ctx, st, ch);
      var b := BracePart(h, ch);
      assert Wf(b);
      WfEmit(ctx, b, ch);
    }
  }

  lemma {:induction false} WfRun(ctx: Ctx, text: string, i: nat, st: Pre)
    requires Wf(st)
    ensures Wf(Run(ctx, text, i, st))
    decreases |text| - i
  {
    if i < |text| {
      WfStep(ctx, st, text[i]);
      RunStep(ctx, text, i, st);
      WfRun(ctx, text, i + 1, PreStep(ctx, st, text[i]));
    }
  }

  lemma EmitFails(ctx: Ctx, st: Pre, ch: char)
    requires Wf(st) && !st.failed
    ensures EmitPart(ctx, st, ch).failed <==>
      (st.tag != "" && Ends(ctx, ch) && |st.tag| > 1 && st.tag[1] == 'S'
       && (StrongsSubject(Grouped(st, ch)) == "" || |st.tag| < 3))
  {
    if st.tag != "" && Ends(ctx, ch) {
      var g := Grouped(st, ch);
      assert Wf(g);
      if |g.tag| > 1 {
        var s := SaveTag(ctx, g);
        if !s.failed {
          assert !AfterTag(s, ch).failed;
        }
      }
    }
  }

  /** In a reachable state a character stops the pass exactly when it is
      the third hanging underline, or when it ends a Strong's tag that has
      no subject or no category letter (`=S`). The semantic tag's
      assertions never fail. */
  lemma FailureCauses(ctx: Ctx, st: Pre, ch: char)
    requires Wf(st) && !st.failed
    ensures var b := BracePart(HangPart(ctx, st, ch), ch);
      PreStep(ctx, st, ch).failed <==>
        || (ch == ' ' && st.last == "_" && st.hang >= 2)
        || (b.tag != "" && Ends(ctx, ch) && |b.tag| > 1 && b.tag[1] == 'S'
            && (StrongsSubject(Grouped(b, ch)) == "" || |b.tag| < 3))
  {
    var h := HangPart(ctx, st, ch);
    var b := BracePart(h, ch);
    assert Wf(b);
    if !h.failed {
      EmitFails(ctx, b, ch);
    }
  }

  /** Every state the pass reaches from the start satisfies `Wf`, so
      `FailureCauses` describes every step. */
  lemma ReachableWf(ctx: Ctx, text: string, i: nat, sem: SemDict, strongs: StrDict, out: Out)
    ensures Wf(Run(ctx, text, i, Start(sem, strongs, out)))
  {
    WfRun(ctx, text, i, Start(sem, strongs, out));
  }

  // ----- worked examples -----

  /** An ordinary character outside tags and braces extends the word. */
  lemma WordStep(ctx: Ctx, st: Pre, ch: char)
    requires !st.failed && st.tag == "" && !st.braced
    requires ch !in " _={}" && ch !in ctx.dashes
    ensures PreStep(ctx, st, ch) == st.(word := st.word + [ch], result := st.result + [ch], last := [ch])
  {
  }

  /** `=` outside a tag opens one. */
  lemma OpenStep(ctx: Ctx, st: Pre)
    requires !st.failed && st.tag == "" && !st.braced
    ensures PreStep(ctx, st, '=') == st.(tag := "=", last := "=")
  {
  }

  /** A character that does not end a tag extends it. */
  lemma TagStep(ctx: Ctx, st: Pre, ch: char)
    requires !st.failed && st.tag != "" && !st.braced && ch != ' ' && ch != '_'
    requires !Ends(ctx, ch)
    ensures PreStep(ctx, st, ch) == st.(tag := st.tag + [ch], last := [ch])
  {
  }

  /** A space ending a Strong's tag on a plain word writes the field and
      the space, and records the word in the Strong's dictionary. */
  lemma StrongsEndStep(ctx: Ctx, st: Pre)
    requires !st.failed && !st.braced && !st.underlined && st.group == "" && st.bracedText == "" && st.last != "_"
    requires StrongsTagAccepted(st.word, st.tag)
    ensures var s := StrongsTag(st.strongs, st.out, ctx.bbb, ctx.c, ctx.v, st.word, st.tag);
      PreStep(ctx, st, ' ')
        == st.(strongs := s.dict, out := s.out, result := st.result + s.field + " ",
               word := "", bracedText := "", tag := "", last := " ")
  {
    assert BracePart(HangPart(ctx, st, ' '), ' ') == st;
    assert Grouped(st, ' ') == st;
  }

  /** A space or `=` ending a semantic tag on a plain word writes the field
      and records the word in the semantic dictionary; after `=` a
      consecutive tag starts for the same word. */
  lemma SemanticEndStep(ctx: Ctx, st: Pre, ch: char)
    requires ch == ' ' || ch == '='
    requires !st.failed && !st.braced && !st.underlined && st.group == "" && st.bracedText == "" && st.last != "_"
    requires SemanticTagAccepted(st.word, st.tag) && st.tag[1] != 'S'
    ensures var s := SemanticTag(st.sem, st.out, ctx.bbb, ctx.c, ctx.v, st.word, st.tag);
      PreStep(ctx, st, ch)
        == if ch == '=' then st.(sem := s.dict, out := s.out, result := st.result + s.field, tag := "=", last := "=")
           else st.(sem := s.dict, out := s.out, result := st.result + s.field + " ",
                    word := "", bracedText := "", tag := "", last := " ")
  {
    assert BracePart(HangPart(ctx, st, ch), ch) == st;
    assert Grouped(st, ch) == st;
  }

  /** Two consecutive stretches of characters make one. */
  lemma {:induction false} RunToCompose(ctx: Ctx, t: string, i: nat, j: nat, k: nat, st: Pre, mid: Pre)
    requires i <= j <= k <= |t|
    requires RunTo(ctx, t, i, j, st) == mid
    ensures RunTo(ctx, t, i, k, st) == RunTo(ctx, t, j, k, mid)
    decreases j - i
  {
    if i < j {
      RunToCompose(ctx, t, i + 1, j, k, PreStep(ctx, st, t[i]), mid);
    }
  }

  lemma RunToOne(ctx: Ctx, t: string, k: nat, st: Pre)
    requires k < |t|
    ensures RunTo(ctx, t, k, k + 1, st) == PreStep(ctx, st, t[k])
  {
  }

  /** Two stretches run one after the other. */
  lemma Then(ctx: Ctx, t: string, i: nat, j: nat, k: nat, st: Pre, mid: Pre, fin: Pre)
    requires i <= j <= k <= |t|
    requires RunTo(ctx, t, i, j, st) == mid && RunTo(ctx, t, j, k, mid) == fin
    ensures RunTo(ctx, t, i, k, st) == fin
  {
    RunToCompose(ctx, t, i, j, k, st, mid);
  }

  /** A stretch followed by one step. */
  lemma ThenStep(ctx: Ctx, t: string, i: nat, k: nat, k1: nat, st: Pre, mid: Pre, fin: Pre)
    requires k1 == k + 1 && i <= k < |t|
    requires RunTo(ctx, t, i, k, st) == mid && PreStep(ctx, mid, t[k]) == fin
    ensures RunTo(ctx, t, i, k1, st) == fin
  {
    RunToCompose(ctx, t, i, k, k1, st, mid);
    RunToOne(ctx, t, k, mid);
  }

  function Worded(st: Pre, w: string, last: string): Pre {
    st.(word := st.word + w, result := st.result + w, last := last)
  }

  /** Ordinary characters outside tags and braces are copied and collected
      into the word. */
  lemma {:induction false} WordRun(ctx: Ctx, t: string, i: nat, j: nat, st: Pre)
    requires i <= j <= |t|
    requires forall m | i <= m < j :: t[m] !in " _={}" && t[m] !in ctx.dashes
    requires !st.failed && st.tag == "" && !st.braced
    ensures RunTo(ctx, t, i, j, st) == Worded(st, t[i..j], if i < j then [t[j - 1]] else st.last)
    decreases j - i
  {
    if i < j {
      WordStep(ctx, st, t[i]);
      var st1 := Worded(st, [t[i]], [t[i]]);
      WordRun(ctx, t, i + 1, j, st1);
      assert st.word + t[i..j] == st1.word + t[i + 1..j];
      assert st.result + t[i..j] == st1.result + t[i + 1..j];
    }
  }

  function Tagged(st: Pre, s: string, last: string): Pre {
    st.(tag := st.tag + s, last := last)
  }

  /** Characters that do not end a tag are collected into it. */
  lemma {:induction false} TagRun(ctx: Ctx, t: string, i: nat, j: nat, st: Pre)
    requires i <= j <= |t|
    requires forall m | i <= m < j :: !Ends(ctx, t[m])
    requires !st.failed && st.tag != "" && !st.braced
    ensures RunTo(ctx, t, i, j, st) == Tagged(st, t[i..j], if i < j then [t[j - 1]] else st.last)
    decreases j - i
  {
    if i < j {
      TagStep(ctx, st, t[i]);
      var st1 := Tagged(st, [t[i]], [t[i]]);
      TagRun(ctx, t, i + 1, j, st1);
      assert st.tag + t[i..j] == st1.tag + t[i + 1..j];
    }
  }

  lemma OpenRun(ctx: Ctx, t: string, j: nat, st: Pre)
    requires j < |t| && t[j] == '='
    requires !st.failed && st.tag == "" && !st.braced
    ensures RunTo(ctx, t, j, j + 1, st) == st.(tag := "=", last := "=")
  {
    OpenStep(ctx, st);
  }

  /** A tag `=…` ended at `k` is collected whole. */
  lemma TagFrom(ctx: Ctx, t: string, j: nat, k: nat, st: Pre)
    requires j < k <= |t| && t[j] == '='
    requires forall m | j < m < k :: !Ends(ctx, t[m])
    requires !st.failed && st.tag == "" && !st.braced
    ensures RunTo(ctx, t, j, k, st) == st.(tag := t[j..k], last := [t[k - 1]])
  {
    OpenRun(ctx, t, j, st);
    var s2 := st.(tag := "=", last := "=");
    TagRun(ctx, t, j + 1, k, s2);
    assert "=" + t[j + 1..k] == t[j..k];
    RunToCompose(ctx, t, j, j + 1, k, st, s2);
  }

  /** The shape of a tagged word `w=…`: the word `t[i..j]`, ended by the
      `=` at `j`, then the rest of a tag up to the terminator at `k`. */
  predicate TaggedAt(ctx: Ctx, t: string, i: nat, j: nat, k: nat) {
    && i < j < k < |t|
    && (forall m | i <= m < j :: t[m] !in " _={}" && t[m] !in ctx.dashes)
    && t[j] == '='
    && (forall m | j < m < k :: !Ends(ctx, t[m]))
  }

  lemma TaggedShape(ctx: Ctx, t: string, i: nat, j: nat, k: nat)
    requires TaggedAt(ctx, t, i, j, k)
    ensures t[i..j] != [] && ' ' !in t[i..j]
    ensures |t[j..k]| == k - j && t[j..k][0] == '=' && (k > j + 1 ==> t[j..k][1] == t[j + 1])
    ensures [t[k - 1]] != "_"
  {
    forall m | 0 <= m < j - i ensures t[i..j][m] != ' ' {
      assert t[i..j][m] == t[i + m];
    }
    if k - 1 > j {
      assert !Ends(ctx, t[k - 1]);
    }
  }

  /** A state between words: no tag, brace or underline group is open. */
  predicate Clear(st: Pre) {
    !st.failed && st.tag == "" && !st.braced && !st.underlined && st.group == "" && st.bracedText == "" && st.word == ""
  }

  /** Up to its terminator, a tagged word is copied to the result and its
      tag is collected. */
  lemma TaggedPrefix(ctx: Ctx, t: string, i: nat, j: nat, k: nat, st: Pre)
    requires TaggedAt(ctx, t, i, j, k) && Clear(st)
    ensures RunTo(ctx, t, i, k, st) == st.(word := t[i..j], result := st.result + t[i..j], tag := t[j..k], last := [t[k - 1]])
  {
    WordRun(ctx, t, i, j, st);
    var s1 := Worded(st, t[i..j], [t[j - 1]]);
    assert st.word + t[i..j] == t[i..j];
    TagFrom(ctx, t, j, k, s1);
    RunToCompose(ctx, t, i, j, k, st, s1);
  }

  lemma StrongsEndRun(ctx: Ctx, t: string, k: nat, st: Pre)
    requires k < |t| && t[k] == ' '
    requires !st.failed && !st.braced && !st.underlined && st.group == "" && st.bracedText == "" && st.last != "_"
    requires StrongsTagAccepted(st.word, st.tag)
    ensures var s := StrongsTag(st.strongs, st.out, ctx.bbb, ctx.c, ctx.v, st.word, st.tag);
      RunTo(ctx, t, k, k + 1, st)
        == st.(strongs := s.dict, out := s.out, result := st.result + s.field + " ",
               word := "", bracedText := "", tag := "", last := " ")
  {
    RunToOne(ctx, t, k, st);
    StrongsEndStep(ctx, st);
  }

  /** A run that reaches a Strong's tag ended by a space goes on to write
      the field. */
  lemma StrongsEndAfter(ctx: Ctx, t: string, i: nat, k: nat, st: Pre, s3: Pre)
    requires i <= k < |t| && t[k] == ' '
    requires RunTo(ctx, t, i, k, st) == s3
    requires !s3.failed && !s3.braced && !s3.underlined && s3.group == "" && s3.bracedText == "" && s3.last != "_"
    requires StrongsTagAccepted(s3.word, s3.tag)
    ensures var s := StrongsTag(s3.strongs, s3.out, ctx.bbb, ctx.c, ctx.v, s3.word, s3.tag);
      RunTo(ctx, t, i, k + 1, st) == s3.(strongs := s.dict, out := s.out, result := s3.result + s.field + " ",
               word := "", bracedText := "", tag := "", last := " ")
  {
    StrongsEndRun(ctx, t, k, s3);
    RunToCompose(ctx, t, i, k, k + 1, st, s3);
  }

  /** A word carrying a Strong's tag, `w=SXn` ended by a space, is copied
      and followed by the tag's field and the space; the word is recorded
      under the tag, and the state is again between words. */
  lemma StrongsTaggedWord(ctx: Ctx, t: string, i: nat, j: nat, k: nat, st: Pre)
    requires TaggedAt(ctx, t, i, j, k) && Clear(st) && t[k] == ' '
    requires t[j + 1] == 'S' && k >= j + 3
    ensures var s := StrongsTag(st.strongs, st.out, ctx.bbb, ctx.c, ctx.v, t[i..j], t[j..k]);
      RunTo(ctx, t, i, k + 1, st) == st.(strongs := s.dict, out := s.out, result := st.result + t[i..j] + s.field + " ", last := " ")
  {
    TaggedPrefix(ctx, t, i, j, k, st);
    TaggedShape(ctx, t, i, j, k);
    var w, g := t[i..j], t[j..k];
    var s3 := st.(word := w, result := st.result + w, tag := g, last := [t[k - 1]]);
    StrongsEndAfter(ctx, t, i, k, st, s3);
    var s := StrongsTag(st.strongs, st.out, ctx.bbb, ctx.c, ctx.v, w, g);
    assert s3.result + s.field + " " == st.result + w + s.field + " ";
  }

  lemma SemanticEndRun(ctx: Ctx, t: string, k: nat, st: Pre)
    requires k < |t| && t[k] == ' '
    requires !st.failed && !st.braced && !st.underlined && st.group == "" && st.bracedText == "" && st.last != "_"
    requires SemanticTagAccepted(st.word, st.tag) && st.tag[1] != 'S'
    ensures var s := SemanticTag(st.sem, st.out, ctx.bbb, ctx.c, ctx.v, st.word, st.tag);
      RunTo(ctx, t, k, k + 1, st)
        == st.(sem := s.dict, out := s.out, result := st.result + s.field + " ",
               word := "", bracedText := "", tag := "", last := " ")
  {
    RunToOne(ctx, t, k, st);
    SemanticEndStep(ctx, st, ' ');
  }

  /** A run that reaches a semantic tag ended by a space goes on to write
      the field. */
  lemma SemanticEndAfter(ctx: Ctx, t: string, i: nat, k: nat, st: Pre, s3: Pre)
    requires i <= k < |t| && t[k] == ' '
    requires RunTo(ctx, t, i, k, st) == s3
    requires !s3.failed && !s3.braced && !s3.underlined && s3.group == "" && s3.bracedText == "" && s3.last != "_"
    requires SemanticTagAccepted(s3.word, s3.tag) && s3.tag[1] != 'S'
    ensures var s := SemanticTag(s3.sem, s3.out, ctx.bbb, ctx.c, ctx.v, s3.word, s3.tag);
      RunTo(ctx, t, i, k + 1, st) == s3.(sem := s.dict, out := s.out, result := s3.result + s.field + " ",
               word := "", bracedText := "", tag := "", last := " ")
  {
    SemanticEndRun(ctx, t, k, s3);
    RunToCompose(ctx, t, i, k, k + 1, st, s3);
  }

  /** A word carrying a semantic tag, `w=Xc` ended by a space, is copied
      and followed by the tag's field and the space; the word is recorded
      under the tag, and the state is again between words. */
  lemma SemanticTaggedWord(ctx: Ctx, t: string, i: nat, j: nat, k: nat, st: Pre)
    requires TaggedAt(ctx, t, i, j, k) && Clear(st) && t[k] == ' '
    requires t[j + 1] != 'S' && k >= j + 2
    ensures var s := SemanticTag(st.sem, st.out, ctx.bbb, ctx.c, ctx.v, t[i..j], t[j..k]);
      RunTo(ctx, t, i, k + 1, st) == st.(sem := s.dict, out := s.out, result := st.result + t[i..j] + s.field + " ", last := " ")
  {
    TaggedPrefix(ctx, t, i, j, k, st);
    TaggedShape(ctx, t, i, j, k);
    var w, g := t[i..j], t[j..k];
    var s3 := st.(word := w, result := st.result + w, tag := g, last := [t[k - 1]]);
    SemanticEndAfter(ctx, t, i, k, st, s3);
    var s := SemanticTag(st.sem, st.out, ctx.bbb, ctx.c, ctx.v, w, g);
    assert s3.result + s.field + " " == st.result + w + s.field + " ";
  }

  lemma RunAfter(ctx: Ctx, t: string, i: nat, j: nat, st: Pre, mid: Pre)
    requires i <= j <= |t|
    requires RunTo(ctx, t, i, j, st) == mid
    ensures Run(ctx, t, i, st) == Run(ctx, t, j, mid)
  {
    RunToCompose(ctx, t, i, j, |t|, st, mid);
  }
}
