/** The Discord message splitter.  Text is sliced at byte offsets, as in Rust: every slice below
    carries the obligation that its offset is a UTF-8 character boundary. */
module Splitter {
  import opened Text
  import opened Utf8

  const MAX_LENGTH: nat := 2000

  // ---------------------------------------------------------------- searching from the end

  function LastIndex(s: string, c: char): (r: Option<nat>)
    ensures r.Some? ==> r.value < |s| && s[r.value] == c && c !in s[r.value + 1..]
    ensures r.None? ==> c !in s
  {
    if s == "" then None
    else if s[|s| - 1] == c then Some(|s| - 1)
    else
      var r := LastIndex(s[..|s| - 1], c);
      assert r.Some? ==> s[r.value + 1..] == s[..|s| - 1][r.value + 1..] + [s[|s| - 1]];
      r
  }

  /** `rfind`: the byte offset of the last occurrence. */
  function RFind(s: string, c: char): Option<nat> {
    match LastIndex(s, c)
    case None => None
    case Some(i) => Some(ByteLen(s[..i]))
  }

  /** `char_indices().nth(n)`, or the length in bytes. */
  function NthOffset(s: string, n: nat): nat {
    if n < |s| then ByteLen(s[..n]) else ByteLen(s)
  }

  lemma CutAfter(s: string, i: nat)
    requires i < |s| && |EncodeChar(s[i])| == 1
    ensures IsCharBoundary(s, ByteLen(s[..i]) + 1)
    ensures CharsBefore(s, ByteLen(s[..i]) + 1) == i + 1
  {
    hide IsCharBoundary, CharsBefore;
    EncodeConcat(s[..i], [s[i]]);
    assert s[..i + 1] == s[..i] + [s[i]];
    assert Encode([s[i]]) == EncodeChar(s[i]) + Encode("");
    CharsBeforePrefix(s, i + 1);
  }

  // ---------------------------------------------------------------- specification

  /** The length in characters of the first chunk of a text too long to send whole. */
  function BreakLength(s: string): (k: nat)
    requires |s| > MAX_LENGTH
    ensures 1 <= k <= MAX_LENGTH
  {
    var window := s[..MAX_LENGTH];
    var newline, space := LastIndex(window, '\n'), LastIndex(window, ' ');
    if newline.Some? && newline.value >= MAX_LENGTH / 2 then newline.value + 1
    else if space.Some? then space.value + 1
    else MAX_LENGTH
  }

  function FirstLength(s: string): (k: nat)
    requires s != ""
    ensures 1 <= k <= |s| && k <= MAX_LENGTH
  {
    if |s| <= MAX_LENGTH then |s| else BreakLength(s)
  }

  function Chunks(s: string): seq<string>
    decreases |s|
  {
    if s == "" then [] else [s[..FirstLength(s)]] + Chunks(s[FirstLength(s)..])
  }

  function SplitOf(message: string): seq<string> {
    if |message| <= MAX_LENGTH then [message] else Chunks(message)
  }

  // ---------------------------------------------------------------- the splitter

  lemma ChunksFront(sent: seq<string>, s: string)
    requires s != ""
    ensures sent + Chunks(s) == sent + [s[..FirstLength(s)]] + Chunks(s[FirstLength(s)..])
  {
  }

  /** The offsets found by searching the window are boundaries of the window, and one past them is
      a boundary of the whole text. */
  lemma BreakOffset(s: string, window: string, c: char)
    requires window <= s && |EncodeChar(c)| == 1
    ensures RFind(window, c).Some? <==> LastIndex(window, c).Some?
    ensures RFind(window, c).Some? ==>
              var at := RFind(window, c).value;
              var i := LastIndex(window, c).value;
              && IsCharBoundary(window, at)
              && CharsBefore(window, at) == i
              && IsCharBoundary(s, at + 1)
              && CharsBefore(s, at + 1) == i + 1
  {
    hide Encode, IsCharBoundary, CharsBefore, LastIndex;
    match LastIndex(window, c)
    case None =>
    case Some(i) =>
      CharsBeforePrefix(window, i);
      CutAfter(s, i);
      assert window[..i] == s[..i];
  }

  /** Prefer a newline, unless it is in the first half of the window; then a space; then the limit. */
  method BreakEnd(remaining: string, hardSplit: nat) returns (chunkEnd: nat)
    requires |remaining| > MAX_LENGTH
    requires IsCharBoundary(remaining, hardSplit) && CharsBefore(remaining, hardSplit) == MAX_LENGTH
    ensures IsCharBoundary(remaining, chunkEnd)
    ensures CharsBefore(remaining, chunkEnd) == BreakLength(remaining)
  {
    hide Encode, IsCharBoundary, CharsBefore, LastIndex, RFind;
    var searchArea := SliceTo(remaining, hardSplit);
    BreakOffset(remaining, searchArea, '\n');
    BreakOffset(remaining, searchArea, ' ');
    var newline, space := RFind(searchArea, '\n'), RFind(searchArea, ' ');
    if newline.Some? {
      if |SliceTo(searchArea, newline.value)| >= MAX_LENGTH / 2 {
        chunkEnd := newline.value + 1;
      } else {
        chunkEnd := if space.Some? then space.value + 1 else hardSplit;
      }
    } else if space.Some? {
      chunkEnd := space.value + 1;
    } else {
      chunkEnd := hardSplit;
    }
  }

  lemma HardSplitOffset(s: string)
    ensures var n := if |s| <= MAX_LENGTH then |s| else MAX_LENGTH;
            && IsCharBoundary(s, NthOffset(s, MAX_LENGTH))
            && CharsBefore(s, NthOffset(s, MAX_LENGTH)) == n
            && (NthOffset(s, MAX_LENGTH) == ByteLen(s) <==> n == |s|)
  {
    var n := if |s| <= MAX_LENGTH then |s| else MAX_LENGTH;
    assert s[..|s|] == s;
    CharsBeforePrefix(s, n);
    ByteLenGrows(s, n, |s|);
  }

  method ChunkEnd(remaining: string) returns (chunkEnd: nat)
    requires remaining != ""
    ensures IsCharBoundary(remaining, chunkEnd)
    ensures CharsBefore(remaining, chunkEnd) == FirstLength(remaining)
  {
    var hardSplit := NthOffset(remaining, MAX_LENGTH);
    HardSplitOffset(remaining);
    if hardSplit == ByteLen(remaining) {
      chunkEnd := hardSplit;
    } else {
      chunkEnd := BreakEnd(remaining, hardSplit);
    }
  }

  method SplitMessage(message: string) returns (chunks: seq<string>)
    ensures chunks == SplitOf(message)
  {
    if |message| <= MAX_LENGTH {
      return [message];
    }
    hide FirstLength, Chunks, IsCharBoundary, CharsBefore;
    chunks := [];
    var remaining := message;
    assert chunks + Chunks(remaining) == Chunks(message);
    while remaining != ""
      invariant chunks + Chunks(remaining) == Chunks(message)
      decreases |remaining|
    {
      var chunkEnd := ChunkEnd(remaining);
      ChunksFront(chunks, remaining);
      chunks := chunks + [SliceTo(remaining, chunkEnd)];
      remaining := SliceFrom(remaining, chunkEnd);
    }
  }

  // ---------------------------------------------------------------- nothing lost, nothing too long

  lemma {:induction false} ChunksConcat(s: string)
    ensures Concat(Chunks(s)) == s
    ensures forall c :: c in Chunks(s) ==> 1 <= |c| <= MAX_LENGTH
    decreases |s|
  {
    if s == "" {
    } else {
      var k := FirstLength(s);
      ChunksConcat(s[k..]);
      assert s == s[..k] + s[k..];
    }
  }

  /** The chunks rebuild the message, fit Discord's limit, and are non-empty unless the message is. */
  lemma SplitRebuilds(message: string)
    ensures Concat(SplitOf(message)) == message
    ensures forall c :: c in SplitOf(message) ==> |c| <= MAX_LENGTH && (c == "" ==> message == "")
    ensures SplitOf(message) != []
  {
    ChunksConcat(message);
    assert Concat([message]) == message + Concat([]);
  }

  // ---------------------------------------------------------------- where it breaks

  ghost predicate Absent(c: char, s: string, from: nat) {
    forall i :: from <= i < |s| ==> s[i] != c
  }

  /** What a break tells about the window it was chosen in: a newline break is the last newline,
      in the second half; a space break is the last space, and no newline is in the second half;
      a hard break has neither. */
  ghost predicate BreakReason(window: string, k: nat)
    requires |window| == MAX_LENGTH && 1 <= k <= MAX_LENGTH
  {
    if window[k - 1] == '\n' && k > MAX_LENGTH / 2 then
      Absent('\n', window, k)
    else
      && Absent('\n', window, MAX_LENGTH / 2)
      && (if window[k - 1] == ' ' then Absent(' ', window, k) else k == MAX_LENGTH && Absent(' ', window, 0))
  }

  /** `k` characters of `s` were broken off its front for a reason. */
  ghost predicate Justified(s: string, k: nat) {
    && 1 <= k <= MAX_LENGTH < |s|
    && BreakReason(s[..MAX_LENGTH], k)
  }

  lemma LastIndexIsLast(s: string, c: char)
    ensures Absent(c, s, match LastIndex(s, c) case None => 0 case Some(i) => i + 1)
  {
    match LastIndex(s, c)
    case None =>
    case Some(i) =>
      forall j | i + 1 <= j < |s|
        ensures s[j] != c
      {
        assert s[i + 1..][j - (i + 1)] == s[j];
      }
  }

  lemma BreakHasReason(s: string)
    requires |s| > MAX_LENGTH
    ensures Justified(s, BreakLength(s))
  {
    LastIndexIsLast(s[..MAX_LENGTH], '\n');
    LastIndexIsLast(s[..MAX_LENGTH], ' ');
  }

  lemma ChunksStep(s: string)
    requires s != ""
    ensures |Chunks(s)| == 1 + |Chunks(s[FirstLength(s)..])|
    ensures Chunks(s)[0] == s[..FirstLength(s)]
    ensures Chunks(s)[1..] == Chunks(s[FirstLength(s)..])
    ensures |s| <= MAX_LENGTH ==> Chunks(s) == [s]
  {
    if |s| <= MAX_LENGTH {
      assert s[|s|..] == "" && s[..|s|] == s;
    }
  }

  lemma FirstIsJustified(s: string)
    requires s != "" && FirstLength(s) < |s|
    ensures Justified(s, FirstLength(s))
  {
    BreakHasReason(s);
  }

  /** Where a chunk after the first starts. */
  lemma StartOfLaterChunk(s: string, i: nat)
    requires 0 < i < |Chunks(s)|
    requires |Concat(Chunks(s[FirstLength(s)..])[..i - 1])| <= |s| - FirstLength(s)
    ensures var k, start := FirstLength(s), |Concat(Chunks(s[FirstLength(s)..])[..i - 1])|;
            && |Concat(Chunks(s)[..i])| == k + start
            && s[|Concat(Chunks(s)[..i])|..] == s[k..][start..]
  {
    ChunksStep(s);
    hide Chunks, BreakLength, FirstLength;
    var k := FirstLength(s);
    var later := Chunks(s[k..]);
    assert Chunks(s)[..i] == [s[..k]] + later[..i - 1];
    assert ([s[..k]] + later[..i - 1])[1..] == later[..i - 1];
  }

  lemma LaterChunk(s: string, j: nat)
    requires 1 <= j < |Chunks(s)|
    ensures s != "" && |Chunks(s)| == 1 + |Chunks(s[FirstLength(s)..])|
    ensures Chunks(s)[j] == Chunks(s[FirstLength(s)..])[j - 1]
  {
    hide BreakLength, FirstLength;
  }

  lemma FrontChunk(s: string)
    ensures s == "" <==> Chunks(s) == []
    ensures s != "" ==> Chunks(s)[0] == s[..FirstLength(s)]
  {
    hide BreakLength, FirstLength;
  }

  /** Every chunk but the last is the front of what remained, broken off for a reason. */
  lemma {:induction false} EveryBreakHasReason(s: string, i: nat)
    requires i + 1 < |Chunks(s)|
    ensures |Concat(Chunks(s)[..i])| <= |s|
    ensures Chunks(s)[i] <= s[|Concat(Chunks(s)[..i])|..]
    ensures Justified(s[|Concat(Chunks(s)[..i])|..], |Chunks(s)[i]|)
    decreases |s|
  {
    LaterChunk(s, i + 1);
    hide BreakLength, FirstLength, Justified;
    var k := FirstLength(s);
    if i == 0 {
      FrontChunk(s);
      FrontChunk(s[k..]);
      FirstIsJustified(s);
      assert Chunks(s)[..0] == [] && s[0..] == s;
    } else {
      LaterChunk(s, i);
      hide Chunks, Concat;
      EveryBreakHasReason(s[k..], i - 1);
      StartOfLaterChunk(s, i);
    }
  }

  lemma SplitIsChunks(message: string)
    requires message != ""
    ensures SplitOf(message) == Chunks(message)
  {
    ChunksStep(message);
  }

  /** A message is sent whole exactly when it has at most 2000 characters. */
  lemma WholeIff(message: string)
    ensures SplitOf(message) == [message] <==> |message| <= 2000
    ensures |SplitOf(message)| == 1 <==> |message| <= 2000
  {
    if |message| > 2000 {
      ChunksStep(message);
      FrontChunk(message[FirstLength(message)..]);
    }
  }

  /** Of every message, each chunk but the last starts where those before it end, and was broken off for a
      reason, more than 2000 characters being left. */
  lemma BreaksAreJustified(message: string, i: nat)
    requires i + 1 < |SplitOf(message)|
    ensures var start := |Concat(SplitOf(message)[..i])|;
            && start + 2000 < |message|
            && SplitOf(message)[i] <= message[start..]
            && Justified(message[start..], |SplitOf(message)[i]|)
  {
    WholeIff(message);
    SplitIsChunks(message);
    EveryBreakHasReason(message, i);
  }

  /** A non-final chunk that ends in neither a space nor a newline is a full 2000 characters, with no
      space at all and no newline in its second half. */
  lemma HardBreaksAreForced(message: string, i: nat)
    requires i + 1 < |SplitOf(message)|
    requires var c := SplitOf(message)[i]; c != "" ==> c[|c| - 1] != ' ' && c[|c| - 1] != '\n'
    ensures |SplitOf(message)[i]| == 2000
    ensures Absent(' ', SplitOf(message)[i], 0) && Absent('\n', SplitOf(message)[i], 1000)
  {
    BreaksAreJustified(message, i);
    var chunk, start := SplitOf(message)[i], |Concat(SplitOf(message)[..i])|;
    hide SplitOf, Concat;
    assert chunk == message[start..][..|chunk|];
  }

  // ---------------------------------------------------------------- how many chunks

  /** After a space break the next break lies beyond the window just searched. */
  lemma AfterSpaceBreak(s: string)
    requires |s| > MAX_LENGTH
    requires BreakLength(s) <= MAX_LENGTH / 2 || s[BreakLength(s) - 1] != '\n'
    ensures BreakLength(s) + FirstLength(s[BreakLength(s)..]) > MAX_LENGTH
  {
    BreakHasReason(s);
    var k := BreakLength(s);
    var rest := s[k..];
    if |rest| > MAX_LENGTH {
      BreakHasReason(rest);
      var end := k + BreakLength(rest);
      assert rest[..MAX_LENGTH][BreakLength(rest) - 1] == s[end - 1];
      assert forall i :: 0 <= i < MAX_LENGTH ==> s[i] == s[..MAX_LENGTH][i];
    }
  }

  lemma FirstTwoChunks(s: string, k: nat, rest: string)
    requires s != "" && k == FirstLength(s) && rest == s[k..] && rest != ""
    ensures k + FirstLength(rest) >= 1002
    ensures s[k - 1] != '\n' ==> k + FirstLength(rest) >= 2001
  {
    BreakHasReason(s);
    if k <= MAX_LENGTH / 2 || s[k - 1] != '\n' {
      AfterSpaceBreak(s);
    }
  }

  /** Two consecutive chunks total at least 1002 characters, and 2001 unless the first of them is a
      newline break. */
  lemma {:induction false} ConsecutiveChunks(s: string, i: nat)
    requires i + 1 < |Chunks(s)|
    ensures |Chunks(s)[i]| + |Chunks(s)[i + 1]| >= 1002
    ensures Chunks(s)[i] != "" && Chunks(s)[i][|Chunks(s)[i]| - 1] != '\n' ==>
              |Chunks(s)[i]| + |Chunks(s)[i + 1]| >= 2001
    decreases |s|
  {
    hide Chunks, BreakLength, FirstLength;
    LaterChunk(s, i + 1);
    var k := FirstLength(s);
    var rest := s[k..];
    if i > 0 {
      LaterChunk(s, i);
      ConsecutiveChunks(rest, i - 1);
    } else {
      FrontChunk(s);
      FrontChunk(rest);
      FirstTwoChunks(s, k, rest);
    }
  }

  lemma ConsecutivePieces(message: string, i: nat)
    requires i + 1 < |SplitOf(message)|
    ensures |SplitOf(message)[i]| + |SplitOf(message)[i + 1]| >= 1002
    ensures var c := SplitOf(message)[i];
            c != "" && c[|c| - 1] != '\n' ==> |c| + |SplitOf(message)[i + 1]| >= 2001
  {
    WholeIff(message);
    SplitIsChunks(message);
    ConsecutiveChunks(message, i);
  }

  /** The exact cost of splitting: n characters never take more than 1 + 2(n - 1)/2001 chunks.
      A space break may be tiny, but it pairs with its successor to fill a window and one more. */
  lemma {:induction false} ChunkCount(s: string)
    requires s != ""
    ensures 2001 * (|Chunks(s)| - 1) <= 2 * (|s| - 1)
    decreases |s|
  {
    ChunksStep(s);
    if |s| <= MAX_LENGTH {
    } else {
      var k := BreakLength(s);
      var rest := s[k..];
      BreakHasReason(s);
      if k <= MAX_LENGTH / 2 || s[k - 1] != '\n' {
        AfterSpaceBreak(s);
        var next := FirstLength(rest);
        ChunksStep(rest);
        if rest[next..] != "" {
          ChunkCount(rest[next..]);
        }
      } else {
        ChunkCount(rest);
      }
    }
  }

  lemma SplitCount(message: string)
    ensures message != "" ==> |SplitOf(message)| <= 1 + 2 * (|message| - 1) / 2001
    ensures |SplitOf(message)| <= 2 * (|message| / 1002) + 1
  {
    if message != "" {
      ChunkCount(message);
    }
  }

  function Filler(): (s: string)
    ensures |s| == MAX_LENGTH && forall c :: c in s ==> c == 'x'
  {
    seq(MAX_LENGTH, _ => 'x')
  }

  lemma WorstPair(rest: string)
    requires rest != ""
    ensures var s := [' '] + Filler() + rest; |Chunks(s)| == 2 + |Chunks(rest)|
  {
    hide Chunks, BreakLength;
    var s := [' '] + Filler() + rest;
    assert s[0] == ' ' && forall i :: 1 <= i <= MAX_LENGTH ==> s[i] == Filler()[i - 1];
    ChunksStep(s);
    BreakHasReason(s);
    assert BreakLength(s) == 1 by {
      var k := BreakLength(s);
      assert s[..MAX_LENGTH][k - 1] == s[k - 1];
      assert s[..MAX_LENGTH][0] == ' ';
    }
    var after := s[1..];
    assert after == Filler() + rest;
    ChunksStep(after);
    BreakHasReason(after);
    assert BreakLength(after) == MAX_LENGTH by {
      assert after[..MAX_LENGTH] == Filler();
      assert Filler()[BreakLength(after) - 1] == 'x';
    }
    assert after[MAX_LENGTH..] == rest;
  }

  /** `pairs` worst pairs, and then `tail`. */
  function Pairs(pairs: nat, tail: string): string {
    if pairs == 0 then tail else [' '] + Filler() + Pairs(pairs - 1, tail)
  }

  lemma PairHasNoNewline(rest: string)
    requires '\n' !in rest
    ensures '\n' !in [' '] + Filler() + rest && |[' '] + Filler() + rest| == 2001 + |rest|
  {
    hide Filler;
  }

  lemma {:induction false} PairsCount(pairs: nat, tail: string)
    requires 1 <= |tail| <= MAX_LENGTH && '\n' !in tail
    ensures var s := Pairs(pairs, tail);
            |s| == 2001 * pairs + |tail| && '\n' !in s && |Chunks(s)| == 2 * pairs + 1
    decreases pairs
  {
    if pairs == 0 {
      ChunksStep(tail);
      hide Chunks;
    } else {
      hide Chunks, Filler;
      PairsCount(pairs - 1, tail);
      var rest := Pairs(pairs - 1, tail);
      PairHasNoNewline(rest);
      WorstPair(rest);
    }
  }

  /** 1000 letters and a newline are broken off as one chunk. */
  lemma NewlineFirst(rest: string)
    requires '\n' !in rest && |rest| >= 1000
    ensures var s := Filler()[..1000] + "\n" + rest; |Chunks(s)| == 1 + |Chunks(rest)|
  {
    hide Chunks;
    var s := Filler()[..1000] + "\n" + rest;
    var window := s[..MAX_LENGTH];
    ChunksStep(s);
    assert window[1000] == '\n';
    LastIndexIsLast(window, '\n');
    assert forall i :: 1000 < i < MAX_LENGTH ==> window[i] == rest[i - 1001];
    assert BreakLength(s) == 1001;
    assert s[1001..] == rest;
  }

  /** The bound of `SplitCount` is attained for every message that has to be split. */
  lemma Attained(n: nat) returns (message: string)
    requires n > MAX_LENGTH
    ensures |message| == n && |SplitOf(message)| == 1 + 2 * (n - 1) / 2001
  {
    var p := (n - 1) / 2001;
    var m := n - 2001 * p;
    assert 1 <= m <= 2001;
    if m <= 1001 {
      message := Pairs(p, Filler()[..m]);
      PairsCount(p, Filler()[..m]);
      assert 2 * (n - 1) == 2001 * (2 * p) + 2 * (m - 1);
    } else {
      var rest := Pairs(p, Filler()[..m - 1001]);
      PairsCount(p, Filler()[..m - 1001]);
      message := Filler()[..1000] + "\n" + rest;
      NewlineFirst(rest);
      assert 2 * (n - 1) == 2001 * (2 * p + 1) + (2 * (m - 1) - 2001);
    }
    hide Chunks;
  }

  /** The bound of `ChunkCount` is attained, for every odd number of chunks. */
  lemma {:induction false} ChunkCountIsTight(pairs: nat) returns (s: string)
    ensures |Chunks(s)| == 2 * pairs + 1
    ensures 2001 * (|Chunks(s)| - 1) == 2 * (|s| - 1)
  {
    if pairs == 0 {
      s := ['x'];
      ChunksStep(s);
    } else {
      var rest := ChunkCountIsTight(pairs - 1);
      s := [' '] + Filler() + rest;
      WorstPair(rest);
    }
  }
}
