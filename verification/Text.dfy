/** Text primitives shared by the models: leftmost search, splitting and joining, replacing, and
    trimming.  A string is a sequence of Unicode scalar values. */
module Text {
  datatype Option<+T> = None | Some(value: T)

  lemma Assoc<T>(a: seq<T>, b: seq<T>, c: seq<T>)
    ensures a + (b + c) == a + b + c
  {
  }

  // ---------------------------------------------------------------- searching

  predicate MatchesAt(s: string, sub: string, i: nat) {
    i + |sub| <= |s| && s[i..i + |sub|] == sub
  }

  ghost predicate Contains(s: string, sub: string) {
    exists i: nat :: MatchesAt(s, sub, i)
  }

  function FindFrom(s: string, sub: string, from: nat): (r: Option<nat>)
    requires from <= |s|
    ensures r.Some? ==> from <= r.value && MatchesAt(s, sub, r.value)
    ensures r.Some? ==> forall j: nat :: from <= j < r.value ==> !MatchesAt(s, sub, j)
    ensures r.None? ==> forall j: nat :: from <= j ==> !MatchesAt(s, sub, j)
    decreases |s| - from
  {
    if MatchesAt(s, sub, from) then Some(from)
    else if from == |s| then None
    else FindFrom(s, sub, from + 1)
  }

  /** The leftmost occurrence. */
  function Find(s: string, sub: string): (r: Option<nat>)
    ensures r.Some? <==> Contains(s, sub)
    ensures r.Some? ==> MatchesAt(s, sub, r.value)
    ensures r.Some? ==> forall j: nat :: j < r.value ==> !MatchesAt(s, sub, j)
  {
    FindFrom(s, sub, 0)
  }

  lemma FindIs(s: string, sub: string, i: nat)
    requires MatchesAt(s, sub, i)
    requires forall j: nat :: j < i ==> !MatchesAt(s, sub, j)
    ensures Find(s, sub) == Some(i)
  {
    assert Contains(s, sub);
  }

  /** What follows the text does not move its leftmost occurrence. */
  lemma FindExtends(a: string, b: string, sub: string)
    requires Find(a, sub).Some?
    ensures Find(a + b, sub) == Find(a, sub)
  {
    var i := Find(a, sub).value;
    assert (a + b)[i..i + |sub|] == a[i..i + |sub|];
    forall j: nat | j < i
      ensures !MatchesAt(a + b, sub, j)
    {
      assert !MatchesAt(a, sub, j);
      assert (a + b)[j..j + |sub|] == a[j..j + |sub|];
    }
    FindIs(a + b, sub, i);
  }

  lemma ContainsInMiddle(a: string, m: string, b: string, sub: string)
    ensures Contains(m, sub) ==> Contains(a + m + b, sub)
  {
    if i: nat :| MatchesAt(m, sub, i) {
      assert (a + m + b)[|a| + i..|a| + i + |sub|] == m[i..i + |sub|];
      assert MatchesAt(a + m + b, sub, |a| + i);
    }
  }

  /** A single character occurs as a substring exactly where it is an element. */
  lemma FindChar(s: string, c: char)
    ensures Contains(s, [c]) <==> c in s
    ensures Find(s, [c]).Some? ==>
              var i := Find(s, [c]).value; i < |s| && s[i] == c && c !in s[..i]
  {
    if c in s {
      var i: nat :| i < |s| && s[i] == c;
      assert MatchesAt(s, [c], i);
    }
    if Find(s, [c]).Some? {
      var i := Find(s, [c]).value;
      assert s[i..i + 1][0] == c;
      forall j: nat | j < i
        ensures s[j] != c
      {
        assert !MatchesAt(s, [c], j);
        assert s[j..j + 1] == [s[j]];
      }
    }
  }

  function IndexOf(s: string, c: char): (r: Option<nat>)
    ensures r.Some? ==> r.value < |s| && s[r.value] == c
  {
    if s == "" then None
    else if s[0] == c then Some(0)
    else
      match IndexOf(s[1..], c)
      case None => None
      case Some(i) => Some(i + 1)
  }

  lemma {:induction false} IndexOfIsFirst(s: string, c: char)
    ensures match IndexOf(s, c)
            case None => c !in s
            case Some(i) => forall k :: 0 <= k < i ==> s[k] != c
    decreases |s|
  {
    if s == "" || s[0] == c {
    } else {
      IndexOfIsFirst(s[1..], c);
      assert forall k :: 1 <= k < |s| ==> s[k] == s[1..][k - 1];
    }
  }

  lemma IndexOfIs(s: string, c: char, i: nat)
    requires i < |s| && s[i] == c && forall k :: 0 <= k < i ==> s[k] != c
    ensures IndexOf(s, c) == Some(i)
  {
    IndexOfIsFirst(s, c);
  }

  // ---------------------------------------------------------------- splitting and joining

  /** Leftmost split at a non-empty separator. */
  function Split(s: string, sep: string): (parts: seq<string>)
    requires sep != ""
    ensures |parts| >= 1
    decreases |s|
  {
    match Find(s, sep)
    case None => [s]
    case Some(i) => [s[..i]] + Split(s[i + |sep|..], sep)
  }

  function Join(parts: seq<string>, sep: string): string {
    if parts == [] then ""
    else if |parts| == 1 then parts[0]
    else parts[0] + sep + Join(parts[1..], sep)
  }

  function Concat(parts: seq<string>): string {
    if parts == [] then "" else parts[0] + Concat(parts[1..])
  }

  lemma SplitFirst(s: string, sep: string)
    requires sep != ""
    ensures Split(s, sep) == match Find(s, sep)
                             case None => [s]
                             case Some(i) => [s[..i]] + Split(s[i + |sep|..], sep)
  {
  }

  lemma JoinCons(first: string, later: seq<string>, sep: string)
    requires later != []
    ensures Join([first] + later, sep) == first + sep + Join(later, sep)
  {
    assert ([first] + later)[1..] == later;
  }

  lemma PrefixMatch(s: string, i: nat, sub: string, j: nat)
    requires i <= |s|
    ensures MatchesAt(s[..i], sub, j) ==> MatchesAt(s, sub, j) && j + |sub| <= i
  {
    if j + |sub| <= i {
      assert s[j..j + |sub|] == s[..i][j..j + |sub|];
    }
  }

  lemma FirstPieceFree(s: string, sep: string, i: nat)
    requires sep != "" && Find(s, sep) == Some(i)
    ensures !Contains(s[..i], sep)
  {
    forall j: nat
      ensures !MatchesAt(s[..i], sep, j)
    {
      PrefixMatch(s, i, sep, j);
    }
  }

  lemma {:induction false} SplitPiecesFree(s: string, sep: string)
    requires sep != ""
    ensures forall p :: p in Split(s, sep) ==> !Contains(p, sep)
    decreases |s|
  {
    SplitFirst(s, sep);
    hide Split;
    match Find(s, sep)
    case None =>
    case Some(i) =>
      var first, rest := s[..i], s[i + |sep|..];
      FirstPieceFree(s, sep, i);
      hide Find, Contains, MatchesAt;
      SplitPiecesFree(rest, sep);
      forall p | p in [first] + Split(rest, sep)
        ensures !Contains(p, sep)
      {
        assert p == first || p in Split(rest, sep);
      }
  }

  lemma Regroup(x: string, q: seq<string>, t: seq<string>)
    requires q != []
    ensures var p := [x] + q;
            p[|p| - 1] == q[|q| - 1] && [x] + (q[..|q| - 1] + t) == p[..|p| - 1] + t
  {
    assert ([x] + q)[..|q|] == [x] + q[..|q| - 1];
  }

  lemma SplitStep(a: string, b: string, sep: string, i: nat)
    requires sep != "" && Find(a, sep) == Some(i)
    ensures Split(a + b, sep) == [a[..i]] + Split(a[i + |sep|..] + b, sep)
  {
    hide Find;
    FindExtends(a, b, sep);
    assert (a + b)[..i] == a[..i];
    assert (a + b)[i + |sep|..] == a[i + |sep|..] + b;
  }

  lemma AppendStep(a: string, b: string, sep: string, first: string, rest: string, q: seq<string>)
    requires sep != "" && q == Split(rest, sep)
    requires Split(a, sep) == [first] + q && Split(a + b, sep) == [first] + Split(rest + b, sep)
    requires Split(rest + b, sep) == q[..|q| - 1] + Split(q[|q| - 1] + b, sep)
    ensures var p := Split(a, sep);
            Split(a + b, sep) == p[..|p| - 1] + Split(p[|p| - 1] + b, sep)
  {
    hide Split;
    Regroup(first, q, Split(q[|q| - 1] + b, sep));
  }

  lemma FoundInside(s: string, sub: string)
    ensures Find(s, sub).Some? ==> Find(s, sub).value + |sub| <= |s|
  {
  }

  lemma AppendWhole(a: string, b: string, sep: string)
    requires sep != "" && Split(a, sep) == [a]
    ensures var p := Split(a, sep);
            Split(a + b, sep) == p[..|p| - 1] + Split(p[|p| - 1] + b, sep)
  {
    hide Split;
    assert [a][..0] == [];
  }

  /** Splitting text that arrives in two instalments: all pieces of the first but its last stand,
      and the last is carried over. */
  lemma {:induction false} SplitAppend(a: string, b: string, sep: string)
    requires sep != ""
    ensures var p := Split(a, sep);
            Split(a + b, sep) == p[..|p| - 1] + Split(p[|p| - 1] + b, sep)
    decreases |a|
  {
    var found := Find(a, sep);
    FoundInside(a, sep);
    hide Split, Find, Contains, MatchesAt;
    SplitFirst(a, sep);
    if found.None? {
      AppendWhole(a, b, sep);
    } else {
      var i := found.value;
      var first, rest := a[..i], a[i + |sep|..];
      SplitStep(a, b, sep, i);
      SplitAppend(rest, b, sep);
      AppendStep(a, b, sep, first, rest, Split(rest, sep));
    }
  }

  /** The separator's first occurrence in `p + sep` is the one just appended. */
  ghost predicate Separable(p: string, sep: string) {
    Find(p + sep, sep) == Some(|p|)
  }

  lemma SeparableSplit(p: string, rest: string, sep: string)
    requires sep != "" && Separable(p, sep)
    ensures Split(p + sep + rest, sep) == [p] + Split(rest, sep)
  {
    FindExtends(p + sep, rest, sep);
    var s := p + sep + rest;
    assert s[..|p|] == p && s[|p| + |sep|..] == rest;
  }

  lemma CharSeparable(p: string, c: char)
    requires c !in p
    ensures Separable(p, [c])
  {
    forall j: nat | j < |p|
      ensures !MatchesAt(p + [c], [c], j)
    {
      assert (p + [c])[j..j + 1] == [p[j]];
    }
    assert (p + [c])[|p|..|p| + 1] == [c];
    FindIs(p + [c], [c], |p|);
  }

  lemma JoinHead(parts: seq<string>, sep: string)
    requires parts != []
    ensures Join(parts, sep) == if |parts| == 1 then parts[0] else parts[0] + sep + Join(parts[1..], sep)
  {
  }

  lemma SplitNothing(s: string, c: char)
    requires c !in s
    ensures Split(s, [c]) == [s]
  {
    FindChar(s, c);
  }

  lemma {:induction false} SplitOfJoinChar(parts: seq<string>, c: char)
    requires parts != []
    requires forall p :: p in parts ==> c !in p
    ensures Split(Join(parts, [c]), [c]) == parts
    decreases |parts|
  {
    JoinHead(parts, [c]);
    hide Split, Find, Separable, Contains, Join;
    if |parts| == 1 {
      SplitNothing(parts[0], c);
    } else {
      assert forall p :: p in parts[1..] ==> p in parts;
      SplitOfJoinChar(parts[1..], c);
      CharSeparable(parts[0], c);
      SeparableSplit(parts[0], Join(parts[1..], [c]), [c]);
      assert parts == [parts[0]] + parts[1..];
    }
  }

  /** Replace every leftmost, non-overlapping occurrence. */
  function ReplaceAll(s: string, sub: string, insert: string): string
    requires sub != ""
  {
    Join(Split(s, sub), insert)
  }

  lemma ReplaceStep(s: string, sub: string, insert: string)
    requires sub != ""
    ensures ReplaceAll(s, sub, insert) == match Find(s, sub)
                                          case None => s
                                          case Some(i) => s[..i] + insert + ReplaceAll(s[i + |sub|..], sub, insert)
  {
    SplitFirst(s, sub);
    var found := Find(s, sub);
    if found.Some? {
      var i := found.value;
      var first, rest := s[..i], s[i + |sub|..];
      hide Split, Find, Contains, MatchesAt;
      JoinCons(first, Split(rest, sub), insert);
    }
  }

  /** Replacing the first occurrence, and then in what follows it. */
  lemma ReplaceIs(s: string, sub: string, insert: string, before: string, after: string)
    requires sub != "" && s == before + sub + after && Find(s, sub) == Some(|before|)
    ensures ReplaceAll(s, sub, insert) == before + insert + ReplaceAll(after, sub, insert)
  {
    hide ReplaceAll, Find, Contains, MatchesAt;
    ReplaceStep(s, sub, insert);
    assert s[..|before|] == before && s[|before| + |sub|..] == after;
  }

  // ---------------------------------------------------------------- trimming

  /** The White_Space characters, which Rust's `trim` removes. */
  predicate UnicodeBlank(c: char) {
    var n := c as int;
    0x09 <= n <= 0x0D || n == 0x20 || n == 0x85 || n == 0xA0 || n == 0x1680 || 0x2000 <= n <= 0x200A
    || n == 0x2028 || n == 0x2029 || n == 0x202F || n == 0x205F || n == 0x3000
  }

  /** What ECMAScript's `trim` removes: as above without U+0085, with U+FEFF. */
  predicate JsBlank(c: char) {
    c as int == 0xFEFF || (UnicodeBlank(c) && c as int != 0x85)
  }

  /** The 25 characters with the property White_Space. */
  lemma UnicodeBlankIff(c: char)
    ensures UnicodeBlank(c) <==>
              c as int in {0x09, 0x0A, 0x0B, 0x0C, 0x0D, 0x20, 0x85, 0xA0, 0x1680,
                           0x2000, 0x2001, 0x2002, 0x2003, 0x2004, 0x2005, 0x2006, 0x2007, 0x2008, 0x2009, 0x200A,
                           0x2028, 0x2029, 0x202F, 0x205F, 0x3000}
  {
  }

  /** The 25 characters that ECMAScript calls white space or line ends. */
  lemma JsBlankIff(c: char)
    ensures JsBlank(c) <==>
              c as int in {0x09, 0x0A, 0x0B, 0x0C, 0x0D, 0x20, 0xFEFF, 0xA0, 0x1680,
                           0x2000, 0x2001, 0x2002, 0x2003, 0x2004, 0x2005, 0x2006, 0x2007, 0x2008, 0x2009, 0x200A,
                           0x2028, 0x2029, 0x202F, 0x205F, 0x3000}
  {
  }

  predicate AllBlank(blank: char -> bool, s: string) {
    forall c :: c in s ==> blank(c)
  }

  predicate Trimmed(blank: char -> bool, s: string) {
    s == "" || (!blank(s[0]) && !blank(s[|s| - 1]))
  }

  function TrimStart(blank: char -> bool, s: string): string {
    if s != "" && blank(s[0]) then TrimStart(blank, s[1..]) else s
  }

  function TrimEnd(blank: char -> bool, s: string): string {
    if s != "" && blank(s[|s| - 1]) then TrimEnd(blank, s[..|s| - 1]) else s
  }

  function Trim(blank: char -> bool, s: string): string {
    TrimEnd(blank, TrimStart(blank, s))
  }

  lemma {:induction false} TrimStartParts(blank: char -> bool, s: string) returns (a: string)
    ensures s == a + TrimStart(blank, s) && AllBlank(blank, a)
    ensures TrimStart(blank, s) != "" ==> !blank(TrimStart(blank, s)[0])
    decreases |s|
  {
    a := "";
    if s == "" || !blank(s[0]) {
    } else {
      a := TrimStartParts(blank, s[1..]);
      a := [s[0]] + a;
    }
  }

  lemma {:induction false} TrimEndParts(blank: char -> bool, s: string) returns (b: string)
    ensures s == TrimEnd(blank, s) + b && AllBlank(blank, b)
    ensures TrimEnd(blank, s) != "" ==> !blank(TrimEnd(blank, s)[|TrimEnd(blank, s)| - 1])
    decreases |s|
  {
    b := "";
    if s == "" || !blank(s[|s| - 1]) {
    } else {
      var front, last := s[..|s| - 1], s[|s| - 1];
      b := TrimEndParts(blank, front);
      assert s == TrimEnd(blank, front) + b + [last];
      b := b + [last];
    }
  }

  /** `Trim` removes a blank prefix and a blank suffix and leaves a trimmed middle. */
  lemma TrimParts(blank: char -> bool, s: string) returns (a: string, b: string)
    ensures s == a + Trim(blank, s) + b
    ensures AllBlank(blank, a) && AllBlank(blank, b)
    ensures Trimmed(blank, Trim(blank, s))
  {
    a := TrimStartParts(blank, s);
    var t := TrimStart(blank, s);
    b := TrimEndParts(blank, t);
    if Trim(blank, s) != "" {
      assert t[0] == Trim(blank, s)[0];
    }
  }

  lemma TrimOfTrimmed(blank: char -> bool, s: string)
    requires Trimmed(blank, s)
    ensures Trim(blank, s) == s
  {
  }

  lemma {:induction false} TrimStartExact(blank: char -> bool, a: string, s: string)
    requires AllBlank(blank, a) && s != "" && !blank(s[0])
    ensures TrimStart(blank, a + s) == s
    decreases |a|
  {
    if a == "" {
      assert a + s == s;
    } else {
      assert a[0] in a && (a + s)[1..] == a[1..] + s;
      TrimStartExact(blank, a[1..], s);
    }
  }

  lemma {:induction false} TrimEndExact(blank: char -> bool, s: string, b: string)
    requires AllBlank(blank, b) && s != "" && !blank(s[|s| - 1])
    ensures TrimEnd(blank, s + b) == s
    decreases |b|
  {
    if b == "" {
      assert s + b == s;
    } else {
      var front := b[..|b| - 1];
      assert b[|b| - 1] in b && (s + b)[..|s + b| - 1] == s + front;
      assert forall c :: c in front ==> c in b;
      TrimEndExact(blank, s, front);
    }
  }

  /** Trimming a trimmed text between blanks gives that text. */
  lemma TrimExact(blank: char -> bool, a: string, s: string, b: string)
    requires AllBlank(blank, a) && AllBlank(blank, b) && s != "" && Trimmed(blank, s)
    ensures Trim(blank, a + s + b) == s
  {
    assert a + s + b == a + (s + b);
    TrimStartExact(blank, a, s + b);
    TrimEndExact(blank, s, b);
  }

  lemma TrimIdempotent(blank: char -> bool, s: string)
    ensures Trim(blank, Trim(blank, s)) == Trim(blank, s)
  {
    var a, b := TrimParts(blank, s);
    TrimOfTrimmed(blank, Trim(blank, s));
  }

  // ---------------------------------------------------------------- examples

  /** Texts of different lengths, to tell examples apart. */
  function Name(i: nat): (s: string)
    ensures |s| == i + 1
  {
    seq(i + 1, _ => 'x')
  }
}
