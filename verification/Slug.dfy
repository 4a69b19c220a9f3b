/** The slug builder of the gateway chat harness, over any regular alphabet. */
module Slug {
  import opened Text

  const LIMIT: nat := 48
  const FALLBACK := "skill-smoke"

  /** `is_alphanumeric` and `to_lowercase`, which may give more than one character. */
  datatype Alphabet = Alphabet(alnum: char -> bool, lower: char -> string) {
    /** In a slug, what is neither alphanumeric nor a hyphen can only be part of a lower case. */
    predicate Mark(c: char) {
      !alnum(c) && c != '-'
    }

    /** The lower case is one alphanumeric that is its own lower case, and then marks if anything. */
    ghost predicate Lowers(c: char) {
      var low := lower(c);
      && low != "" && alnum(low[0]) && lower(low[0]) == [low[0]]
      && forall i :: 1 <= i < |low| ==> Mark(low[i])
    }

    /** What the slug builder relies on. */
    ghost predicate Regular() {
      && (forall c: char :: alnum(c) ==> Lowers(c))
      && (forall c: char :: UnicodeBlank(c) ==> !alnum(c))
      && !alnum('-')
      && (forall i :: 0 <= i < |FALLBACK| && FALLBACK[i] != '-' ==> Stable(FALLBACK[i]))
    }

    predicate Stable(c: char) {
      alnum(c) && lower(c) == [c]
    }

    /** The lower case is a single character. */
    predicate Simple(c: char) {
      alnum(c) ==> |lower(c)| == 1
    }
  }

  // ---------------------------------------------------------------- two alphabets

  predicate AsciiAlphanumeric(c: char) {
    '0' <= c <= '9' || 'a' <= c <= 'z' || 'A' <= c <= 'Z'
  }

  function AsciiLower(c: char): string {
    if 'A' <= c <= 'Z' then [(c as int + 32) as char] else [c]
  }

  const ASCII := Alphabet(AsciiAlphanumeric, AsciiLower)

  /** U+0130, whose lower case is an i and a combining dot. */
  const CAPITAL_DOTTED_I: char := '\U{0130}'

  predicate DottedAlphanumeric(c: char) {
    c == CAPITAL_DOTTED_I || AsciiAlphanumeric(c)
  }

  function DottedLower(c: char): string {
    if c == CAPITAL_DOTTED_I then "i\U{0307}" else AsciiLower(c)
  }

  const DOTTED := Alphabet(DottedAlphanumeric, DottedLower)

  lemma BlanksAreNotLetters(c: char)
    ensures UnicodeBlank(c) || c == '-' || c == '\U{0307}' ==> !DottedAlphanumeric(c)
  {
  }

  lemma FallbackIsLower(i: nat)
    requires i < |FALLBACK| && FALLBACK[i] != '-'
    ensures 'a' <= FALLBACK[i] <= 'z'
  {
  }

  lemma AsciiIsRegular()
    ensures ASCII.Regular()
  {
    forall c: char
      ensures ASCII.alnum(c) ==> ASCII.Lowers(c)
      ensures UnicodeBlank(c) || c == '-' ==> !ASCII.alnum(c)
    {
      BlanksAreNotLetters(c);
    }
    forall i: nat | i < |FALLBACK| && FALLBACK[i] != '-'
      ensures ASCII.Stable(FALLBACK[i])
    {
      FallbackIsLower(i);
    }
  }

  lemma DottedIsRegular()
    ensures DOTTED.Regular()
  {
    forall c: char
      ensures DOTTED.alnum(c) ==> DOTTED.Lowers(c)
      ensures UnicodeBlank(c) || c == '-' ==> !DOTTED.alnum(c)
    {
      BlanksAreNotLetters(c);
      BlanksAreNotLetters('\U{0307}');
    }
    forall i: nat | i < |FALLBACK| && FALLBACK[i] != '-'
      ensures DOTTED.Stable(FALLBACK[i])
    {
      FallbackIsLower(i);
    }
  }

  // ---------------------------------------------------------------- specification

  predicate IsHyphen(c: char) {
    c == '-'
  }

  /** The maximal alphanumeric runs, in lower case. */
  function Words(ab: Alphabet, s: string): seq<string> {
    if s == "" then []
    else
      var front, c := s[..|s| - 1], s[|s| - 1];
      var words := Words(ab, front);
      if !ab.alnum(c) then words
      else if front != "" && ab.alnum(front[|front| - 1]) && words != [] then
        words[..|words| - 1] + [words[|words| - 1] + ab.lower(c)]
      else words + [ab.lower(c)]
  }

  function Hyphenated(ab: Alphabet, s: string): string {
    Join(Words(ab, s), "-")
  }

  /** At `k`, the text is between a hyphen and its word, or inside one character's lower case. */
  predicate Torn(ab: Alphabet, x: string, k: nat) {
    && 0 < k < |x|
    && (x[k - 1] == '-' || ab.Mark(x[k]))
  }

  function GroupEnd(ab: Alphabet, x: string, j: nat): (r: nat)
    requires j <= |x|
    ensures j <= r <= |x| && !Torn(ab, x, r)
    ensures forall k :: j <= k < r ==> Torn(ab, x, k)
    decreases |x| - j
  {
    if Torn(ab, x, j) then GroupEnd(ab, x, j + 1) else j
  }

  /** The first 48 characters, and as many more as it takes not to tear anything. */
  function Cut(ab: Alphabet, x: string): string {
    if |x| < LIMIT then x else x[..GroupEnd(ab, x, LIMIT)]
  }

  function SlugOf(ab: Alphabet, value: string): string {
    var full := Hyphenated(ab, Trim(UnicodeBlank, value));
    if full == "" then FALLBACK else Cut(ab, full)
  }

  // ---------------------------------------------------------------- one more character

  lemma {:induction false} JoinSnoc(words: seq<string>, w: string)
    requires words != []
    ensures Join(words + [w], "-") == Join(words, "-") + "-" + w
    decreases |words|
  {
    assert (words + [w])[1..] == words[1..] + [w];
    if |words| == 1 {
    } else {
      JoinSnoc(words[1..], w);
    }
  }

  lemma {:induction false} JoinExtendLast(words: seq<string>, w: string)
    requires words != []
    ensures Join(words[..|words| - 1] + [words[|words| - 1] + w], "-") == Join(words, "-") + w
    decreases |words|
  {
    var front, last := words[..|words| - 1], words[|words| - 1];
    if |words| == 1 {
      assert front + [last + w] == [last + w];
    } else {
      assert words == front + [last];
      JoinSnoc(front, last);
      JoinSnoc(front, last + w);
    }
  }

  lemma {:induction false} WordsAreNonEmpty(ab: Alphabet, s: string)
    requires ab.Regular()
    ensures forall i :: 0 <= i < |Words(ab, s)| ==> Words(ab, s)[i] != ""
    ensures Words(ab, s) == [] <==> Hyphenated(ab, s) == ""
    ensures s != "" && ab.alnum(s[|s| - 1]) ==> Words(ab, s) != []
    decreases |s|
  {
    hide UnicodeBlank;
    if s == "" {
    } else {
      WordsAreNonEmpty(ab, s[..|s| - 1]);
      assert ab.alnum(s[|s| - 1]) ==> ab.Lowers(s[|s| - 1]);
    }
    var words := Words(ab, s);
    if words != [] {
      assert words[0] != "";
    }
  }

  /** Separators start a new word only between words. */
  lemma Snoc(ab: Alphabet, s: string, c: char)
    requires ab.Regular()
    ensures Hyphenated(ab, s + [c]) ==
              if !ab.alnum(c) then Hyphenated(ab, s)
              else if s != "" && !ab.alnum(s[|s| - 1]) && Hyphenated(ab, s) != "" then
                Hyphenated(ab, s) + "-" + ab.lower(c)
              else Hyphenated(ab, s) + ab.lower(c)
  {
    var words := Words(ab, s);
    assert (s + [c])[..|s|] == s;
    WordsAreNonEmpty(ab, s);
    hide ab.Regular, UnicodeBlank;
    if ab.alnum(c) {
      if words == [] {
        assert Words(ab, s + [c]) == [ab.lower(c)];
      } else if ab.alnum(s[|s| - 1]) {
        JoinExtendLast(words, ab.lower(c));
      } else {
        JoinSnoc(words, ab.lower(c));
      }
    }
  }

  lemma EmptyText(ab: Alphabet, text: string)
    ensures Hyphenated(ab, text[..0]) == ""
  {
    assert text[..0] == "";
  }

  /** A prefix of the text hyphenates to a prefix, and what follows is not torn from it. */
  lemma {:induction false} HyphenatedPrefix(ab: Alphabet, s: string, i: nat)
    requires ab.Regular() && i <= |s|
    ensures Hyphenated(ab, s[..i]) <= Hyphenated(ab, s)
    ensures var n := |Hyphenated(ab, s[..i])|; n < |Hyphenated(ab, s)| ==> !ab.Mark(Hyphenated(ab, s)[n])
    decreases |s| - i
  {
    hide Hyphenated, UnicodeBlank;
    if i == |s| {
      assert s[..i] == s;
    } else {
      Snoc(ab, s[..i], s[i]);
      assert s[..i] + [s[i]] == s[..i + 1];
      HyphenatedPrefix(ab, s, i + 1);
      assert ab.alnum(s[i]) ==> ab.Lowers(s[i]);
    }
  }

  // ---------------------------------------------------------------- normal form

  /** Runs of lower-case alphanumerics and their marks, with single hyphens between them; a trailing
      hyphen is allowed. */
  predicate Open(ab: Alphabet, x: string) {
    && (forall i :: 0 <= i < |x| && ab.alnum(x[i]) ==> ab.Stable(x[i]))
    && (forall i :: 0 <= i < |x| - 1 && x[i] == '-' ==> ab.alnum(x[i + 1]))
    && (x != "" ==> ab.alnum(x[0]))
  }

  /** As above, and no trailing hyphen either. */
  predicate Normal(ab: Alphabet, x: string) {
    Open(ab, x) && (x != "" ==> x[|x| - 1] != '-')
  }

  /** Nothing but alphanumerics and hyphens. */
  predicate Plain(ab: Alphabet, x: string) {
    forall i :: 0 <= i < |x| ==> !ab.Mark(x[i])
  }

  /** No more than 48 characters, unless the rest cannot be torn off. */
  predicate Fits(ab: Alphabet, x: string) {
    forall k :: LIMIT <= k < |x| ==> Torn(ab, x, k)
  }

  lemma AppendLower(ab: Alphabet, x: string, low: string)
    requires !ab.alnum('-') && Open(ab, x)
    requires low != "" && ab.Stable(low[0]) && forall i :: 1 <= i < |low| ==> ab.Mark(low[i])
    ensures Normal(ab, x + low)
  {
    var y := x + low;
    assert forall i :: 0 <= i < |x| ==> y[i] == x[i];
    assert forall i :: |x| <= i < |y| ==> y[i] == low[i - |x|];
  }

  lemma AppendHyphen(ab: Alphabet, x: string)
    requires !ab.alnum('-') && Normal(ab, x) && x != ""
    ensures Open(ab, x + "-")
  {
    var y := x + "-";
    assert forall i :: 0 <= i < |x| ==> y[i] == x[i];
  }

  lemma {:induction false} HyphenatedIsNormal(ab: Alphabet, s: string)
    requires ab.Regular()
    ensures Normal(ab, Hyphenated(ab, s))
    decreases |s|
  {
    if s == "" {
    } else {
      var front, c := s[..|s| - 1], s[|s| - 1];
      HyphenatedIsNormal(ab, front);
      Snoc(ab, front, c);
      assert front + [c] == s;
      hide Hyphenated, UnicodeBlank, Open;
      var x := Hyphenated(ab, front);
      if ab.alnum(c) {
        assert ab.Lowers(c);
        AppendLower(ab, x, ab.lower(c));
        if x != "" {
          AppendHyphen(ab, x);
          AppendLower(ab, x + "-", ab.lower(c));
        }
      }
    }
  }

  lemma CutIsNormal(ab: Alphabet, x: string)
    requires Normal(ab, x) && x != ""
    ensures Normal(ab, Cut(ab, x)) && Fits(ab, Cut(ab, x)) && Cut(ab, x) != "" && Cut(ab, x) <= x
  {
    var y := Cut(ab, x);
    assert forall i :: 0 <= i < |y| ==> y[i] == x[i];
    if LIMIT <= |y| < |x| {
      assert !Torn(ab, x, |y|);
    }
    assert forall k :: LIMIT <= k < |y| && Torn(ab, x, k) ==> Torn(ab, y, k);
  }

  // ---------------------------------------------------------------- how much is read

  lemma CutIs(ab: Alphabet, full: string, out: string)
    requires out <= full && LIMIT <= |out|
    requires out[|out| - 1] != '-' && (|out| < |full| ==> !ab.Mark(full[|out|]))
    requires forall k :: LIMIT <= k < |out| ==> Torn(ab, out, k)
    ensures out == Cut(ab, full)
  {
    assert forall k :: 0 <= k < |out| ==> full[k] == out[k];
    assert !Torn(ab, full, |out|);
    assert forall k :: LIMIT <= k < |out| && Torn(ab, out, k) ==> Torn(ab, full, k);
    assert GroupEnd(ab, full, LIMIT) == |out|;
  }

  lemma LastGroupIsTorn(ab: Alphabet, before: string, out: string, low: string)
    requires out == before + low || out == before + "-" + low
    requires forall i :: 1 <= i < |low| ==> ab.Mark(low[i])
    requires |before| < LIMIT
    ensures forall k :: LIMIT <= k < |out| ==> Torn(ab, out, k)
  {
    var start := |out| - |low|;
    assert forall k :: start <= k < |out| ==> out[k] == low[k - start];
    forall k | LIMIT <= k < |out|
      ensures Torn(ab, out, k)
    {
      if k == start {
        assert out[k - 1] == '-';
      }
    }
  }

  /** What was built when the limit is first reached is the cut of the whole. */
  lemma CutAtLimit(ab: Alphabet, text: string, i: nat)
    requires ab.Regular()
    requires 0 < i <= |text| && |Hyphenated(ab, text[..i])| >= LIMIT
    requires |Hyphenated(ab, text[..i - 1])| < LIMIT
    ensures Hyphenated(ab, text[..i]) == Cut(ab, Hyphenated(ab, text))
  {
    hide Hyphenated, UnicodeBlank;
    var before, out, full := Hyphenated(ab, text[..i - 1]), Hyphenated(ab, text[..i]), Hyphenated(ab, text);
    HyphenatedPrefix(ab, text, i);
    HyphenatedIsNormal(ab, text[..i]);
    Snoc(ab, text[..i - 1], text[i - 1]);
    assert text[..i - 1] + [text[i - 1]] == text[..i];
    assert ab.Lowers(text[i - 1]);
    LastGroupIsTorn(ab, before, out, ab.lower(text[i - 1]));
    hide ab.Regular, Open;
    CutIs(ab, full, out);
  }

  function KeptFrom(ab: Alphabet, text: string, i: nat): (k: nat)
    requires i <= |text|
    ensures i <= k <= |text|
    ensures forall j :: i <= j < k ==> |Hyphenated(ab, text[..j])| < LIMIT
    ensures k == |text| || |Hyphenated(ab, text[..k])| >= LIMIT
    decreases |text| - i
  {
    if i == |text| || |Hyphenated(ab, text[..i])| >= LIMIT then i else KeptFrom(ab, text, i + 1)
  }

  /** How many characters of the trimmed input the builder takes. */
  function Kept(ab: Alphabet, text: string): (k: nat)
    ensures k <= |text|
  {
    KeptFrom(ab, text, 0)
  }

  lemma CutShort(ab: Alphabet, x: string)
    requires |x| < LIMIT
    ensures Cut(ab, x) == x
  {
  }

  /** The cut is exactly what the characters taken hyphenate to. */
  lemma CutOfKept(ab: Alphabet, text: string)
    requires ab.Regular()
    ensures Cut(ab, Hyphenated(ab, text)) == Hyphenated(ab, text[..Kept(ab, text)])
    ensures var k := Kept(ab, text); k > 0 ==> |Hyphenated(ab, text[..k - 1])| < LIMIT
  {
    var k := Kept(ab, text);
    EmptyText(ab, text);
    hide Hyphenated, Cut;
    if |Hyphenated(ab, text[..k])| >= LIMIT {
      CutAtLimit(ab, text, k);
    } else {
      assert text[..k] == text;
      CutShort(ab, Hyphenated(ab, text));
    }
  }

  // ---------------------------------------------------------------- the builder

  /** The loop over the characters, with its early exit. */
  method Build(ab: Alphabet, text: string) returns (out: string)
    requires ab.Regular()
    ensures out == Cut(ab, Hyphenated(ab, text))
  {
    EmptyText(ab, text);
    hide Hyphenated, Cut, ab.Regular;
    out := "";
    var pendingSeparator := false;
    for i := 0 to |text|
      invariant out == Hyphenated(ab, text[..i]) && |out| < LIMIT
      invariant pendingSeparator == (i > 0 && !ab.alnum(text[i - 1]))
    {
      var ch := text[i];
      Snoc(ab, text[..i], ch);
      assert text[..i] + [ch] == text[..i + 1];
      if ab.alnum(ch) {
        if pendingSeparator && out != "" {
          out := out + "-";
        }
        out := out + ab.lower(ch);
        pendingSeparator := false;
      } else {
        pendingSeparator := true;
      }
      if |out| >= LIMIT {
        CutAtLimit(ab, text, i + 1);
        return;
      }
    }
    assert text[..|text|] == text;
    CutShort(ab, out);
  }

  /** `trim_matches('-')` finds nothing to trim. */
  lemma OutIsTrimmed(ab: Alphabet, text: string)
    requires ab.Regular()
    ensures var out := Cut(ab, Hyphenated(ab, text)); Trim(IsHyphen, out) == out
    ensures Cut(ab, Hyphenated(ab, text)) == "" <==> Hyphenated(ab, text) == ""
  {
    var full := Hyphenated(ab, text);
    HyphenatedIsNormal(ab, text);
    if full != "" {
      CutIsNormal(ab, full);
    }
    hide Hyphenated, UnicodeBlank, GroupEnd;
    TrimOfTrimmed(IsHyphen, Cut(ab, full));
  }

  method SlugComponent(ab: Alphabet, value: string) returns (slug: string)
    requires ab.Regular()
    ensures slug == SlugOf(ab, value)
  {
    hide Hyphenated, Trim, Cut, Trimmed, Open, Normal, ab.Regular;
    var text := Trim(UnicodeBlank, value);
    var out := Build(ab, text);
    OutIsTrimmed(ab, text);
    var trimmed := Trim(IsHyphen, out);
    if trimmed == "" {
      slug := FALLBACK;
    } else {
      slug := trimmed;
    }
  }

  // ---------------------------------------------------------------- what slugs look like

  lemma FallbackIsNormal(ab: Alphabet)
    requires ab.Regular()
    ensures Normal(ab, FALLBACK) && Plain(ab, FALLBACK) && |FALLBACK| < LIMIT
  {
    hide UnicodeBlank;
    assert forall i :: 0 <= i < |FALLBACK| && i != 5 ==> FALLBACK[i] != '-';
    assert forall i :: 0 <= i < |FALLBACK| && i != 5 ==> ab.Stable(FALLBACK[i]);
    assert FALLBACK[5] == '-';
  }

  /** Every slug is in normal form and fits. */
  lemma SlugIsNormal(ab: Alphabet, value: string)
    requires ab.Regular()
    ensures Normal(ab, SlugOf(ab, value)) && SlugOf(ab, value) != "" && Fits(ab, SlugOf(ab, value))
  {
    hide Hyphenated, UnicodeBlank, Cut, Normal, ab.Regular;
    var text := Trim(UnicodeBlank, value);
    FallbackIsNormal(ab);
    HyphenatedIsNormal(ab, text);
    if Hyphenated(ab, text) != "" {
      CutIsNormal(ab, Hyphenated(ab, text));
    }
  }

  /** A slug is longer than the limit exactly when the hyphenated words are and the limit would tear
      them: the 48th character is a hyphen, or the 49th belongs to the 48th. */
  lemma OverLimitIff(ab: Alphabet, value: string)
    ensures var full := Hyphenated(ab, Trim(UnicodeBlank, value));
            |SlugOf(ab, value)| > LIMIT <==> |full| > LIMIT && (full[LIMIT - 1] == '-' || ab.Mark(full[LIMIT]))
  {
    hide Hyphenated, UnicodeBlank, Trim;
  }

  /** The excess is at most the longest lower case: one character, if every lower case is one. */
  lemma LimitPlusWidth(ab: Alphabet, value: string, width: nat)
    requires ab.Regular() && forall c: char :: ab.alnum(c) ==> |ab.lower(c)| <= width
    ensures |SlugOf(ab, value)| <= LIMIT + width
  {
    var text := Trim(UnicodeBlank, value);
    var k := Kept(ab, text);
    CutOfKept(ab, text);
    EmptyText(ab, text);
    hide Hyphenated, UnicodeBlank, Cut, Trim;
    if k > 0 {
      Snoc(ab, text[..k - 1], text[k - 1]);
      assert text[..k - 1] + [text[k - 1]] == text[..k];
    }
  }

  // ---------------------------------------------------------------- idempotence

  lemma AddHyphenBack(x: string)
    requires x != "" && x[|x| - 1] == '-'
    ensures x[..|x| - 1] + "-" == x
  {
  }

  lemma OpenFront(ab: Alphabet, x: string)
    requires ab.Regular() && Open(ab, x) && Plain(ab, x) && x != ""
    ensures var front, c := x[..|x| - 1], x[|x| - 1];
            && !ab.alnum('-')
            && Open(ab, front) && Plain(ab, front)
            && (c == '-' || ab.Stable(c))
            && (front == "" || front[|front| - 1] == '-' ==> ab.Stable(c))
            && (front != "" && front[|front| - 1] != '-' ==> ab.alnum(front[|front| - 1]))
            && (front != "" ==> front[0] != '-' && (front[|front| - 1] == '-' ==> |front| > 1))
  {
    hide UnicodeBlank;
    var front := x[..|x| - 1];
    assert forall i :: 0 <= i < |front| ==> front[i] == x[i];
    assert forall i :: 0 <= i < |x| ==> !ab.Mark(x[i]);
  }

  lemma {:induction false} HyphenatedOfOpen(ab: Alphabet, x: string)
    requires ab.Regular()
    requires Open(ab, x) && Plain(ab, x)
    ensures Hyphenated(ab, x) == if x != "" && x[|x| - 1] == '-' then x[..|x| - 1] else x
    decreases |x|
  {
    hide Hyphenated, UnicodeBlank, ab.Regular, Open, Plain;
    if x == "" {
      EmptyText(ab, x);
      assert x[..0] == x;
    } else {
      var front, c := x[..|x| - 1], x[|x| - 1];
      assert front + [c] == x;
      OpenFront(ab, x);
      Snoc(ab, front, c);
      HyphenatedOfOpen(ab, front);
      if c == '-' {
        assert Hyphenated(ab, x) == front;
      } else if front != "" && front[|front| - 1] == '-' {
        AddHyphenBack(front);
        assert Hyphenated(ab, x) == front[..|front| - 1] + "-" + [c];
      } else {
        assert Hyphenated(ab, x) == front + [c];
      }
    }
  }

  lemma PlainConcat(ab: Alphabet, a: string, b: string)
    ensures Plain(ab, a + b) <==> Plain(ab, a) && Plain(ab, b)
  {
    assert forall i :: 0 <= i < |a| ==> (a + b)[i] == a[i];
    assert forall i :: 0 <= i < |b| ==> (a + b)[|a| + i] == b[i];
  }

  lemma LowerIsPlain(ab: Alphabet, c: char)
    requires ab.alnum(c) && ab.Lowers(c)
    ensures Plain(ab, ab.lower(c)) <==> ab.Simple(c)
  {
    var low := ab.lower(c);
    assert |low| > 1 ==> ab.Mark(low[1]);
  }

  /** Hyphenating adds a mark exactly for a character whose lower case is not a single one. */
  lemma {:induction false} PlainIff(ab: Alphabet, s: string)
    requires ab.Regular()
    ensures Plain(ab, Hyphenated(ab, s)) <==> forall i :: 0 <= i < |s| ==> ab.Simple(s[i])
    decreases |s|
  {
    if s == "" {
    } else {
      var front, c := s[..|s| - 1], s[|s| - 1];
      PlainIff(ab, front);
      Snoc(ab, front, c);
      assert front + [c] == s;
      hide Hyphenated, UnicodeBlank;
      var x := Hyphenated(ab, front);
      assert (forall i :: 0 <= i < |s| ==> ab.Simple(s[i])) <==> Plain(ab, x) && ab.Simple(c);
      if ab.alnum(c) {
        assert ab.Lowers(c);
        PlainConcat(ab, x, ab.lower(c));
        PlainConcat(ab, x, "-");
        PlainConcat(ab, x + "-", ab.lower(c));
        LowerIsPlain(ab, c);
        assert Plain(ab, "-");
      }
    }
  }

  lemma TrimKeepsChars(s: string)
    ensures forall c :: c in Trim(UnicodeBlank, s) ==> c in s
  {
    var a, b := TrimParts(UnicodeBlank, s);
  }

  /** Slugging a text without capitals adds no marks. */
  lemma SlugOfStableIsPlain(ab: Alphabet, x: string)
    requires ab.Regular() && Open(ab, x)
    ensures Plain(ab, SlugOf(ab, x))
  {
    var text := Trim(UnicodeBlank, x);
    TrimKeepsChars(x);
    FallbackIsNormal(ab);
    forall i | 0 <= i < |text|
      ensures ab.Simple(text[i])
    {
      assert text[i] in x;
    }
    PlainIff(ab, text);
    hide Hyphenated, UnicodeBlank;
    assert Cut(ab, Hyphenated(ab, text)) <= Hyphenated(ab, text);
  }

  lemma EndsAreNotBlank(ab: Alphabet, x: string)
    requires ab.Regular() && Normal(ab, x) && Plain(ab, x)
    ensures Trimmed(UnicodeBlank, x)
  {
    if x != "" {
      assert !ab.Mark(x[|x| - 1]);
    }
  }

  lemma CutOfFitting(ab: Alphabet, x: string)
    requires Fits(ab, x)
    ensures Cut(ab, x) == x
  {
  }

  /** The fixed points: slugging a text changes nothing if and only if it is a non-empty, fitting
      normal form without marks. */
  lemma FixedPoints(ab: Alphabet, x: string)
    requires ab.Regular()
    ensures SlugOf(ab, x) == x <==> x != "" && Normal(ab, x) && Plain(ab, x) && Fits(ab, x)
  {
    SlugIsNormal(ab, x);
    if Normal(ab, x) {
      SlugOfStableIsPlain(ab, x);
    }
    if x != "" && Normal(ab, x) && Plain(ab, x) && Fits(ab, x) {
      EndsAreNotBlank(ab, x);
      TrimOfTrimmed(UnicodeBlank, x);
      HyphenatedOfOpen(ab, x);
      CutOfFitting(ab, x);
    }
  }

  lemma EmptyIsPlain(ab: Alphabet)
    ensures Plain(ab, "")
  {
  }

  lemma SlugOfTaken(ab: Alphabet, value: string)
    requires ab.Regular()
    ensures var text := Trim(UnicodeBlank, value);
            SlugOf(ab, value) ==
              if Hyphenated(ab, text) == "" then FALLBACK else Hyphenated(ab, text[..Kept(ab, text)])
  {
    CutOfKept(ab, Trim(UnicodeBlank, value));
  }

  /** Slugging a slug changes nothing if and only if every character taken from the input has a single
      character as its lower case. */
  lemma IdempotentIff(ab: Alphabet, value: string)
    requires ab.Regular()
    ensures var text := Trim(UnicodeBlank, value);
            SlugOf(ab, SlugOf(ab, value)) == SlugOf(ab, value)
            <==> forall i :: 0 <= i < Kept(ab, text) ==> ab.Simple(text[i])
  {
    var text := Trim(UnicodeBlank, value);
    hide Hyphenated, Cut, Trim, UnicodeBlank, SlugOf, Normal, ab.Regular, Plain, Fits;
    var slug, taken := SlugOf(ab, value), text[..Kept(ab, text)];
    SlugIsNormal(ab, value);
    FixedPoints(ab, slug);
    FallbackIsNormal(ab);
    EmptyIsPlain(ab);
    CutOfKept(ab, text);
    PlainIff(ab, taken);
    OutIsTrimmed(ab, text);
    SlugOfTaken(ab, value);
    assert (forall i :: 0 <= i < Kept(ab, text) ==> ab.Simple(text[i]))
        <==> forall i :: 0 <= i < |taken| ==> ab.Simple(taken[i]);
  }

  // ---------------------------------------------------------------- what a slug keeps

  /** The alphanumerics, in lower case. */
  function Letters(ab: Alphabet, s: string): string {
    if s == "" then ""
    else Letters(ab, s[..|s| - 1]) + (if ab.alnum(s[|s| - 1]) then ab.lower(s[|s| - 1]) else "")
  }

  lemma {:induction false} LettersConcat(ab: Alphabet, a: string, b: string)
    ensures Letters(ab, a + b) == Letters(ab, a) + Letters(ab, b)
    decreases |b|
  {
    if b == "" {
      assert a + b == a;
    } else {
      LettersConcat(ab, a, b[..|b| - 1]);
      assert (a + b)[..|a + b| - 1] == a + b[..|b| - 1];
    }
  }

  function WithoutHyphens(x: string): string {
    if x == "" then ""
    else WithoutHyphens(x[..|x| - 1]) + (if x[|x| - 1] == '-' then "" else [x[|x| - 1]])
  }

  lemma {:induction false} WithoutHyphensConcat(a: string, b: string)
    ensures WithoutHyphens(a + b) == WithoutHyphens(a) + WithoutHyphens(b)
    decreases |b|
  {
    if b == "" {
      assert a + b == a;
    } else {
      WithoutHyphensConcat(a, b[..|b| - 1]);
      assert (a + b)[..|a + b| - 1] == a + b[..|b| - 1];
    }
  }

  lemma {:induction false} NoHyphens(x: string)
    requires '-' !in x
    ensures WithoutHyphens(x) == x
    decreases |x|
  {
    if x == "" {
    } else {
      NoHyphens(x[..|x| - 1]);
    }
  }

  lemma LowerHasNoHyphen(ab: Alphabet, c: char)
    requires !ab.alnum('-') && ab.Lowers(c)
    ensures WithoutHyphens(ab.lower(c)) == ab.lower(c)
  {
    var low := ab.lower(c);
    assert forall i :: 0 <= i < |low| ==> low[i] != '-';
    NoHyphens(low);
  }

  lemma HyphenAppended(x: string)
    ensures WithoutHyphens(x + "-") == WithoutHyphens(x)
  {
    assert (x + "-")[..|x|] == x;
  }

  lemma LettersAppended(x: string, low: string)
    requires WithoutHyphens(low) == low
    ensures WithoutHyphens(x + low) == WithoutHyphens(x) + low
    ensures WithoutHyphens(x + "-" + low) == WithoutHyphens(x) + low
  {
    HyphenAppended(x);
    hide WithoutHyphens;
    WithoutHyphensConcat(x, low);
    WithoutHyphensConcat(x + "-", low);
  }

  lemma {:induction false} HyphenatedLetters(ab: Alphabet, s: string)
    requires ab.Regular()
    ensures WithoutHyphens(Hyphenated(ab, s)) == Letters(ab, s)
    decreases |s|
  {
    if s == "" {
    } else {
      var front, c := s[..|s| - 1], s[|s| - 1];
      HyphenatedLetters(ab, front);
      Snoc(ab, front, c);
      assert front + [c] == s;
      if ab.alnum(c) {
        assert ab.Lowers(c);
        LowerHasNoHyphen(ab, c);
        LettersAppended(Hyphenated(ab, front), ab.lower(c));
      }
      hide Hyphenated, WithoutHyphens, UnicodeBlank, ab.Regular;
    }
  }

  lemma LastIsKept(x: string)
    requires x != "" && x[|x| - 1] != '-'
    ensures WithoutHyphens(x) != ""
  {
  }

  lemma {:induction false} BlankHasNoLetters(ab: Alphabet, s: string)
    requires ab.Regular()
    requires AllBlank(UnicodeBlank, s)
    ensures Letters(ab, s) == ""
    decreases |s|
  {
    if s == "" {
    } else {
      assert s[|s| - 1] in s;
      forall c | c in s[..|s| - 1]
        ensures UnicodeBlank(c)
      {
        assert c in s;
      }
      BlankHasNoLetters(ab, s[..|s| - 1]);
    }
  }

  /** Trimming takes no letters away. */
  lemma TrimKeepsLetters(ab: Alphabet, value: string) returns (a: string)
    requires ab.Regular()
    ensures var text := Trim(UnicodeBlank, value);
            && |a| + |text| <= |value| && value[..|a|] == a && value[|a|..|a| + |text|] == text
            && Letters(ab, a) == "" && Letters(ab, value) == Letters(ab, text)
  {
    var b: string;
    a, b := TrimParts(UnicodeBlank, value);
    var text := Trim(UnicodeBlank, value);
    BlankHasNoLetters(ab, a);
    BlankHasNoLetters(ab, b);
    LettersConcat(ab, a + text, b);
    LettersConcat(ab, a, text);
    hide Letters, Trim, UnicodeBlank, ab.Regular;
  }

  /** Except for the fallback, deleting the hyphens of a slug leaves exactly the lower-cased
      alphanumerics of a prefix of the input. */
  lemma SlugKeepsPrefix(ab: Alphabet, value: string) returns (k: nat)
    requires ab.Regular()
    requires Letters(ab, value) != ""
    ensures k <= |value| && WithoutHyphens(SlugOf(ab, value)) == Letters(ab, value[..k])
  {
    hide Letters, Hyphenated, Trim, Cut, WithoutHyphens, UnicodeBlank, ab.Regular, SlugOf;
    var text := Trim(UnicodeBlank, value);
    var a := TrimKeepsLetters(ab, value);
    var taken := Kept(ab, text);
    HyphenatedLetters(ab, text);
    HyphenatedLetters(ab, text[..taken]);
    NoHyphens("");
    SlugOfTaken(ab, value);
    k := |a| + taken;
    assert value[..k] == a + text[..taken];
    LettersConcat(ab, a, text[..taken]);
  }

  lemma NormalKeepsLetters(ab: Alphabet, text: string)
    requires ab.Regular()
    ensures Hyphenated(ab, text) != "" ==> WithoutHyphens(Hyphenated(ab, text)) != ""
  {
    HyphenatedIsNormal(ab, text);
    if Hyphenated(ab, text) != "" {
      LastIsKept(Hyphenated(ab, text));
    }
  }

  /** The fallback is used when the input has no alphanumeric character. */
  lemma FallbackWithoutLetters(ab: Alphabet, value: string)
    requires ab.Regular()
    requires Letters(ab, value) == ""
    ensures SlugOf(ab, value) == FALLBACK
  {
    hide Letters, Hyphenated, Trim, Cut, UnicodeBlank;
    var text := Trim(UnicodeBlank, value);
    var a := TrimKeepsLetters(ab, value);
    HyphenatedLetters(ab, text);
    NormalKeepsLetters(ab, text);
  }

  // ---------------------------------------------------------------- words

  /** A word of the input and what comes before it. */
  datatype Word = Word(gap: string, word: string)

  ghost predicate IsGap(ab: Alphabet, gap: string) {
    forall c :: c in gap ==> !ab.alnum(c)
  }

  ghost predicate IsWord(ab: Alphabet, word: string) {
    word != "" && forall c :: c in word ==> ab.alnum(c)
  }

  /** Words of alphanumerics, with something else between any two. */
  ghost predicate Worded(ab: Alphabet, words: seq<Word>) {
    && (forall i :: 0 <= i < |words| ==>
          IsGap(ab, words[i].gap) && IsWord(ab, words[i].word))
    && (forall i :: 1 <= i < |words| ==> words[i].gap != "")
  }

  function WordText(words: seq<Word>): string {
    if words == [] then ""
    else WordText(words[..|words| - 1]) + words[|words| - 1].gap + words[|words| - 1].word
  }

  function LowerWords(ab: Alphabet, words: seq<Word>): (r: seq<string>)
    ensures |r| == |words|
  {
    if words == [] then []
    else LowerWords(ab, words[..|words| - 1]) + [Letters(ab, words[|words| - 1].word)]
  }

  lemma {:induction false} GapAppended(ab: Alphabet, s: string, gap: string)
    requires ab.Regular() && IsGap(ab, gap)
    ensures Hyphenated(ab, s + gap) == Hyphenated(ab, s)
    decreases |gap|
  {
    hide Hyphenated, ab.Regular;
    if gap == "" {
      assert s + gap == s;
    } else {
      var front, c := gap[..|gap| - 1], gap[|gap| - 1];
      assert c in gap && forall d :: d in front ==> d in gap;
      GapAppended(ab, s, front);
      Snoc(ab, s + front, c);
      assert s + front + [c] == s + gap;
    }
  }

  /** What comes before the first alphanumeric has no effect. */
  lemma {:induction false} GapBefore(ab: Alphabet, gap: string, s: string)
    requires ab.Regular() && IsGap(ab, gap)
    ensures Hyphenated(ab, gap + s) == Hyphenated(ab, s)
    decreases |s|
  {
    EmptyText(ab, s);
    hide Hyphenated, ab.Regular;
    if s == "" {
      GapAppended(ab, "", gap);
      assert gap + s == "" + gap && s[..0] == s;
    } else {
      var front, c := s[..|s| - 1], s[|s| - 1];
      GapBefore(ab, gap, front);
      Snoc(ab, front, c);
      Snoc(ab, gap + front, c);
      assert front + [c] == s && gap + front + [c] == gap + s;
      if front == "" {
        assert s[..0] == front;
      }
    }
  }

  lemma LettersAreSome(ab: Alphabet, word: string)
    requires ab.Regular() && word != "" && ab.alnum(word[|word| - 1])
    ensures Letters(ab, word) != ""
  {
    hide UnicodeBlank;
    assert ab.Lowers(word[|word| - 1]);
  }

  lemma LettersSnoc(ab: Alphabet, front: string, c: char)
    requires ab.alnum(c)
    ensures Letters(ab, front + [c]) == Letters(ab, front) + ab.lower(c)
    ensures Letters(ab, "") == ""
  {
    assert (front + [c])[..|front|] == front;
  }

  /** What is there when a new word starts. */
  function WordStart(ab: Alphabet, s: string): string {
    if Hyphenated(ab, s) == "" then "" else Hyphenated(ab, s) + "-"
  }

  lemma FirstLetter(ab: Alphabet, s: string, c: char)
    requires ab.Regular() && ab.alnum(c)
    requires if s == "" then Hyphenated(ab, s) == "" else !ab.alnum(s[|s| - 1])
    ensures Hyphenated(ab, s + [c]) == WordStart(ab, s) + ab.lower(c)
  {
    hide Hyphenated, ab.Regular;
    Snoc(ab, s, c);
  }

  lemma NextLetter(ab: Alphabet, s: string, c: char)
    requires ab.Regular() && ab.alnum(c) && s != "" && ab.alnum(s[|s| - 1])
    ensures Hyphenated(ab, s + [c]) == Hyphenated(ab, s) + ab.lower(c)
  {
    hide Hyphenated, ab.Regular;
    Snoc(ab, s, c);
  }

  lemma WordFront(ab: Alphabet, word: string)
    requires IsWord(ab, word)
    ensures var front, c := word[..|word| - 1], word[|word| - 1];
            && ab.alnum(c) && front + [c] == word
            && (front != "" ==> IsWord(ab, front) && ab.alnum(front[|front| - 1]))
  {
    var front := word[..|word| - 1];
    assert word[|word| - 1] in word;
    assert forall c :: c in front ==> c in word;
    assert front != "" ==> front[|front| - 1] in front;
  }

  lemma LastOf(a: string, b: string)
    requires b != ""
    ensures (a + b)[|a + b| - 1] == b[|b| - 1]
  {
  }

  lemma {:induction false} WordAppended(ab: Alphabet, s: string, word: string)
    requires ab.Regular() && IsWord(ab, word)
    requires if s == "" then Hyphenated(ab, s) == "" else !ab.alnum(s[|s| - 1])
    ensures Hyphenated(ab, s + word) == WordStart(ab, s) + Letters(ab, word)
    decreases |word|
  {
    var front, c := word[..|word| - 1], word[|word| - 1];
    hide Hyphenated, WordStart, Letters, IsWord, ab.Regular;
    WordFront(ab, word);
    LettersSnoc(ab, front, c);
    Assoc(s, front, [c]);
    if front == "" {
      FirstLetter(ab, s, c);
      assert s + front == s && Letters(ab, front) + ab.lower(c) == ab.lower(c);
    } else {
      WordAppended(ab, s, front);
      LastOf(s, front);
      NextLetter(ab, s + front, c);
      Assoc(WordStart(ab, s), Letters(ab, front), ab.lower(c));
    }
  }

  lemma {:induction false} WordsHyphenate(ab: Alphabet, words: seq<Word>)
    requires ab.Regular() && Worded(ab, words)
    ensures Hyphenated(ab, WordText(words)) == Join(LowerWords(ab, words), "-")
    ensures words != [] ==> Hyphenated(ab, WordText(words)) != ""
    decreases |words|
  {
    EmptyText(ab, "");
    assert ""[..0] == "";
    if words == [] {
    } else {
      var front, last := words[..|words| - 1], words[|words| - 1];
      var before := WordText(front);
      assert Worded(ab, front);
      WordsHyphenate(ab, front);
      hide Hyphenated, ab.Regular;
      GapAppended(ab, before, last.gap);
      var s := before + last.gap;
      if s != "" {
        assert !ab.alnum(s[|s| - 1]) by {
          if last.gap == "" {
            assert |words| == 1;
          } else {
            assert s[|s| - 1] == last.gap[|last.gap| - 1] && last.gap[|last.gap| - 1] in last.gap;
          }
        }
      }
      WordAppended(ab, s, last.word);
      assert last.word[|last.word| - 1] in last.word;
      LettersAreSome(ab, last.word);
      if front != [] {
        JoinSnoc(LowerWords(ab, front), Letters(ab, last.word));
      }
    }
  }

  lemma BlankIsGap(ab: Alphabet, s: string)
    requires ab.Regular() && AllBlank(UnicodeBlank, s)
    ensures IsGap(ab, s)
  {
  }

  lemma TrimKeepsWords(ab: Alphabet, value: string)
    requires ab.Regular()
    ensures Hyphenated(ab, Trim(UnicodeBlank, value)) == Hyphenated(ab, value)
  {
    hide Hyphenated, Trim, ab.Regular;
    var a, b := TrimParts(UnicodeBlank, value);
    var text := Trim(UnicodeBlank, value);
    BlankIsGap(ab, a);
    BlankIsGap(ab, b);
    GapAppended(ab, a + text, b);
    GapBefore(ab, a, text);
  }

  /** The slug of a text is its lower-case words with single hyphens between them: all of that, or the
      first part that has at least 48 characters and tears nothing; and the fallback without a word. */
  lemma SlugOfWords(ab: Alphabet, words: seq<Word>, rest: string)
    requires ab.Regular() && Worded(ab, words) && IsGap(ab, rest)
    ensures var slug, full := SlugOf(ab, WordText(words) + rest), Join(LowerWords(ab, words), "-");
            if words == [] then slug == "skill-smoke"
            else
              && slug <= full && slug != "" && Fits(ab, slug)
              && (slug == full || (|slug| >= 48 && !Torn(ab, full, |slug|)))
  {
    var value := WordText(words) + rest;
    TrimKeepsWords(ab, value);
    GapAppended(ab, WordText(words), rest);
    WordsHyphenate(ab, words);
    HyphenatedIsNormal(ab, Trim(UnicodeBlank, value));
    hide Hyphenated, Trim, ab.Regular, WordText;
    var full := Hyphenated(ab, Trim(UnicodeBlank, value));
    if words != [] {
      CutIsNormal(ab, full);
      hide Normal;
    }
  }

  // ---------------------------------------------------------------- past the limit

  /** 47 letters. */
  function Filler(): (s: string)
    ensures |s| == LIMIT - 1 && forall i :: 0 <= i < |s| ==> s[i] == 's'
  {
    seq(LIMIT - 1, _ => 's')
  }

  /** After 47 letters a hyphen and one more character are pushed together, and the slug exceeds the
      limit by all of that character's lower case. */
  lemma PushedTogether(ab: Alphabet, c: char)
    requires ab.Regular() && ab.alnum(c)
    ensures SlugOf(ab, Filler() + "-" + [c]) == Filler() + "-" + ab.lower(c)
    ensures |SlugOf(ab, Filler() + "-" + [c])| == LIMIT + |ab.lower(c)|
  {
    var front := Filler();
    var value, full := front + "-" + [c], front + "-" + ab.lower(c);
    assert ab.Lowers(c) && ab.Stable(FALLBACK[0]) && FALLBACK[0] == 's';
    assert ab.Stable('s');
    assert Trim(UnicodeBlank, value) == value by {
      assert value[0] == 's' && value[|value| - 1] == c;
      TrimOfTrimmed(UnicodeBlank, value);
    }
    assert Hyphenated(ab, value) == full by {
      hide UnicodeBlank, Hyphenated;
      HyphenatedOfOpen(ab, front);
      Snoc(ab, front, '-');
      Snoc(ab, front + "-", c);
    }
    hide Hyphenated, UnicodeBlank, Trim;
    assert Fits(ab, full) by {
      LastGroupIsTorn(ab, front, full, ab.lower(c));
    }
    CutOfFitting(ab, full);
  }

  /** In ASCII that is one character too many. */
  lemma FortyNine()
    ensures |SlugOf(ASCII, Filler() + "-" + "y")| == 49
  {
    AsciiIsRegular();
    PushedTogether(ASCII, 'y');
  }

  /** A character whose lower case carries a mark: its slug keeps the mark, which the next slugging
      takes for a separator. */
  lemma MarkIsLost(ab: Alphabet, c: char, low: char, mark: char)
    requires ab.Regular() && ab.alnum(c) && ab.lower(c) == [low, mark] && !UnicodeBlank(mark)
    ensures SlugOf(ab, [c]) == [low, mark] && SlugOf(ab, [low, mark]) == [low]
  {
    assert ab.Lowers(c);
    assert ab.lower(c)[0] == low && ab.lower(c)[1] == mark;
    TrimOfTrimmed(UnicodeBlank, [c]);
    TrimOfTrimmed(UnicodeBlank, [low, mark]);
    EmptyText(ab, "");
    hide UnicodeBlank, Trim;
    Snoc(ab, "", c);
    Snoc(ab, "", low);
    Snoc(ab, [low], mark);
    assert "" + [c] == [c] && "" + [low] == [low] && [low] + [mark] == [low, mark];
  }

  /** U+0130 as the whole input, and as the character that reaches the limit. */
  lemma CapitalDottedI()
    ensures SlugOf(DOTTED, [CAPITAL_DOTTED_I]) == "i\U{0307}" && SlugOf(DOTTED, "i\U{0307}") == "i"
    ensures |SlugOf(DOTTED, Filler() + "-" + [CAPITAL_DOTTED_I])| == 50
  {
    DottedIsRegular();
    PushedTogether(DOTTED, CAPITAL_DOTTED_I);
    MarkIsLost(DOTTED, CAPITAL_DOTTED_I, 'i', '\U{0307}');
  }
}
