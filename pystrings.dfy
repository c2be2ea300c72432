/** The few Python string operations the core relies on, with their Python
    meaning stated as contracts: `str.find`, slicing with clamped bounds,
    `str.rstrip()`, `str.split()[0]`, `str.replace` of one character,
    `str.count` of a two-character pattern, `str(int)` and `int(str)`. */
module PyStrings {
  import opened Outcomes

  /** The characters `str.isspace` accepts, which are also the ones
      `str.rstrip()` and `str.split()` strip and split on: the ASCII
      controls 9-13 and 28-31, the space, and the Unicode spaces and
      line and paragraph separators. */
  predicate IsSpace(ch: char) {
    || ch == ' ' || '\t' <= ch <= '\r' || '\U{001C}' <= ch <= '\U{001F}'
    || ch == '\U{0085}' || ch == '\U{00A0}' || ch == '\U{1680}' || '\U{2000}' <= ch <= '\U{200A}'
    || ch == '\U{2028}' || ch == '\U{2029}' || ch == '\U{202F}' || ch == '\U{205F}' || ch == '\U{3000}'
  }

  function Min(a: nat, b: nat): nat { if a <= b then a else b }

  /** `s[lo:hi]` for non-negative bounds: both bounds are clamped to the
      length, and an empty string results when lo >= hi. */
  function Slice(s: string, lo: nat, hi: nat): (r: string)
    ensures lo <= hi <= |s| ==> r == s[lo..hi]
    ensures hi <= lo || |s| <= lo ==> r == []
    ensures hi >= |s| && lo <= |s| ==> r == s[lo..]
  {
    var h := Min(hi, |s|);
    var l := Min(lo, h);
    s[l..h]
  }

  /** `s.find(ch, from)`: the first index at or after `from` holding `ch`, or -1. */
  function Find(s: string, ch: char, from: nat): (r: int)
    ensures r == -1 <==> forall k | from <= k < |s| :: s[k] != ch
    ensures r != -1 ==> from <= r < |s| && s[r] == ch && forall k | from <= k < r :: s[k] != ch
    decreases |s| - from
  {
    if from >= |s| then -1
    else if s[from] == ch then from
    else Find(s, ch, from + 1)
  }

  /** `s.rstrip()`: the longest prefix of `s` that does not end in whitespace
      and after which only whitespace follows. */
  function RStrip(s: string): (r: string)
    ensures r <= s
    ensures r == [] || !IsSpace(r[|r| - 1])
    ensures forall k | |r| <= k < |s| :: IsSpace(s[k])
  {
    if s != [] && IsSpace(s[|s| - 1]) then RStrip(s[..|s| - 1]) else s
  }

  /** Whether `s` holds a non-whitespace character, i.e. `s.split() != []`. */
  predicate HasWord(s: string) {
    exists k | 0 <= k < |s| :: !IsSpace(s[k])
  }

  function TakeWord(s: string): (r: string)
    ensures r <= s
    ensures forall k | 0 <= k < |r| :: !IsSpace(r[k])
    ensures |r| < |s| ==> IsSpace(s[|r|])
  {
    if s == [] || IsSpace(s[0]) then [] else [s[0]] + TakeWord(s[1..])
  }

  /** The number of whitespace characters `s` starts with. */
  function LeadingSpaces(s: string): (n: nat)
    ensures n <= |s|
    ensures forall k | 0 <= k < n :: IsSpace(s[k])
    ensures n < |s| ==> !IsSpace(s[n])
  {
    if s == [] || !IsSpace(s[0]) then 0 else 1 + LeadingSpaces(s[1..])
  }

  /** `s.split()[0]`, the first whitespace-delimited word: the run of
      non-whitespace characters after the leading whitespace; empty when
      there is none (where Python raises IndexError). */
  function FirstWord(s: string): (r: string)
    ensures forall k | 0 <= k < |r| :: !IsSpace(r[k])
    ensures var n := LeadingSpaces(s); r <= s[n..] && (n + |r| < |s| ==> IsSpace(s[n + |r|]))
    ensures HasWord(s) <==> r != []
  {
    var n := LeadingSpaces(s);
    WordAfterSpaces(s, n);
    TakeWord(s[n..])
  }

  /** After the leading whitespace there is a word exactly when `s` has
      one. */
  lemma WordAfterSpaces(s: string, n: nat)
    requires n == LeadingSpaces(s)
    ensures HasWord(s) <==> n < |s|
  {
    if n < |s| {
      assert !IsSpace(s[n]);
    }
  }

  /** Python's whitespace is wider than ASCII: a no-break space is
      stripped and an information separator ends a word. */
  lemma WideSpaceExamples()
    ensures RStrip("a\U{00A0}") == "a"
    ensures FirstWord("5\U{001C}x") == "5"
  {
    assert "a\U{00A0}"[..1] == "a";
    assert "5\U{001C}x"[1..] == "\U{001C}x";
  }

  /** `s.replace(a, b)` for single characters. */
  function ReplaceChar(s: string, a: char, b: char): (r: string)
    ensures |r| == |s|
    ensures forall k | 0 <= k < |s| :: r[k] == if s[k] == a then b else s[k]
  {
    if s == [] then [] else [if s[0] == a then b else s[0]] + ReplaceChar(s[1..], a, b)
  }

  /** `s.count(p)` for a two-character pattern `[a, b]` with `a != b`:
      such a pattern cannot overlap itself, so this is the number of
      positions where it starts. */
  function CountPair(s: string, a: char, b: char): (n: nat)
    ensures n <= |s|
    ensures n == 0 <==> forall k | 0 <= k < |s| - 1 :: !(s[k] == a && s[k + 1] == b)
  {
    if |s| < 2 then 0
    else (if s[0] == a && s[1] == b then 1 else 0) + CountPair(s[1..], a, b)
  }

  /** The positions where the pair `[a, b]` starts. */
  ghost function PairStarts(s: string, a: char, b: char): set<nat> {
    set k: nat | k < |s| && PairAt(s, a, b, k)
  }

  predicate PairAt(s: string, a: char, b: char, k: nat) {
    k < |s| - 1 && s[k] == a && s[k + 1] == b
  }

  /** Each element of a set of positions moved one place on. */
  ghost function Shifted(ks: set<nat>): set<nat> {
    set k | k in ks :: k + 1
  }

  lemma {:induction false} ShiftedSize(ks: set<nat>)
    ensures |Shifted(ks)| == |ks|
    decreases |ks|
  {
    if ks != {} {
      var k :| k in ks;
      ShiftedSize(ks - {k});
      assert Shifted(ks) == Shifted(ks - {k}) + {k + 1} by {
        forall j | j in Shifted(ks) ensures j in Shifted(ks - {k}) + {k + 1} {
          var i :| i in ks && j == i + 1;
          if i != k {
            assert i in ks - {k};
          }
        }
      }
      assert k + 1 !in Shifted(ks - {k});
    }
  }

  /** The pair starts at 0 or, one place on, where it starts in `s[1..]`. */
  lemma PairStartsCons(s: string, a: char, b: char)
    requires |s| >= 2
    ensures PairStarts(s, a, b) == (if s[0] == a && s[1] == b then {0} else {}) + Shifted(PairStarts(s[1..], a, b))
    ensures 0 !in Shifted(PairStarts(s[1..], a, b))
  {
    var rest := PairStarts(s[1..], a, b);
    forall k: nat | k in PairStarts(s, a, b) && k > 0 ensures k in Shifted(rest) {
      assert PairAt(s[1..], a, b, k - 1);
      assert k - 1 in rest && k == (k - 1) + 1;
    }
    forall k: nat | k in rest ensures k + 1 in PairStarts(s, a, b) {
      assert PairAt(s, a, b, k + 1);
    }
  }

  /** `CountPair` is the number of positions where the pair starts. */
  lemma {:induction false} CountPairCounts(s: string, a: char, b: char)
    ensures CountPair(s, a, b) == |PairStarts(s, a, b)|
    decreases |s|
  {
    if |s| < 2 {
      assert PairStarts(s, a, b) == {};
    } else {
      var rest := PairStarts(s[1..], a, b);
      CountPairCounts(s[1..], a, b);
      ShiftedSize(rest);
      PairStartsCons(s, a, b);
      assert CountPair(s, a, b) == (if s[0] == a && s[1] == b then 1 else 0) + CountPair(s[1..], a, b);
    }
  }

  function DigitChar(d: nat): char
    requires d < 10
  {
    "0123456789"[d]
  }

  function NatToString(n: nat): (r: string)
    ensures r != []
    ensures forall k | 0 <= k < |r| :: '0' <= r[k] <= '9'
  {
    if n < 10 then [DigitChar(n)] else NatToString(n / 10) + [DigitChar(n % 10)]
  }

  /** `str(i)` for an integer. */
  function IntToString(i: int): (r: string)
    ensures r != []
  {
    if i < 0 then "-" + NatToString(-i) else NatToString(i)
  }

  function DigitValue(ch: char): nat
    requires '0' <= ch <= '9'
  {
    ch as int - '0' as int
  }

  /** A non-empty run of decimal digits, read as a number; None otherwise. */
  function ParseNat(s: string): Option<nat>
    decreases |s|
  {
    if s == [] || !('0' <= s[|s| - 1] <= '9') then None
    else if |s| == 1 then Some(DigitValue(s[0]))
    else
      match ParseNat(s[..|s| - 1])
      case None => None
      case Some(n) => Some(n * 10 + DigitValue(s[|s| - 1]))
  }

  /** `int(s)` for an optional minus sign followed by digits; None where
      Python raises ValueError. */
  function ParseInt(s: string): Option<int> {
    if s != [] && s[0] == '-' then
      match ParseNat(s[1..])
      case None => None
      case Some(n) => Some(0 - n as int)
    else
      match ParseNat(s)
      case None => None
      case Some(n) => Some(n as int)
  }

  lemma DigitRoundTrip(d: nat)
    requires d < 10
    ensures '0' <= DigitChar(d) <= '9' && DigitValue(DigitChar(d)) == d
  {
  }

  lemma {:induction false} ParseNatRoundTrip(n: nat)
    ensures ParseNat(NatToString(n)) == Some(n)
  {
    if n < 10 {
      DigitRoundTrip(n);
    } else {
      var q, d := n / 10, n % 10;
      assert n == q * 10 + d;
      ParseNatRoundTrip(q);
      DigitRoundTrip(d);
      var s := NatToString(n);
      assert s == NatToString(q) + [DigitChar(d)];
      assert s[..|s| - 1] == NatToString(q);
    }
  }

  /** Reading back what `str` wrote gives the same integer. */
  lemma ParseIntRoundTrip(i: int)
    ensures ParseInt(IntToString(i)) == Some(i)
  {
    if i < 0 {
      ParseNegative(NatToString(-i), -i);
    } else {
      ParseNonNegative(NatToString(i), i);
    }
  }

  lemma ParseNegative(t: string, n: nat)
    requires t == NatToString(n)
    ensures ParseInt("-" + t) == Some(0 - n as int)
  {
    ParseNatRoundTrip(n);
    assert ("-" + t)[1..] == t;
  }

  lemma ParseNonNegative(t: string, n: nat)
    requires t == NatToString(n)
    ensures ParseInt(t) == Some(n as int)
  {
    ParseNatRoundTrip(n);
    NatToStringDigits(n);
  }

  /** `str` of a natural number starts with a digit. */
  lemma NatToStringDigits(n: nat)
    ensures NatToString(n) != [] && '0' <= NatToString(n)[0] <= '9'
  {
    if n >= 10 {
      NatToStringDigits(n / 10);
    }
  }
}
