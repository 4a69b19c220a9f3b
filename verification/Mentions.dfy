/** Stripping the bot's mention from an incoming Discord message. */
module Mentions {
  import opened Text

  function PlainTag(id: string): string {
    "<@" + id + ">"
  }

  function NickTag(id: string): string {
    "<@!" + id + ">"
  }

  function MentionTags(id: string): (tags: seq<string>)
    ensures |tags| == 2
  {
    [PlainTag(id), NickTag(id)]
  }

  ghost predicate Mentioned(content: string, id: string) {
    Contains(content, PlainTag(id)) || Contains(content, NickTag(id))
  }

  predicate ContainsBotMention(content: string, id: string)
    ensures ContainsBotMention(content, id) <==> Mentioned(content, id)
    ensures ContainsBotMention(content, id) <==>
              Contains(content, "<@" + id + ">") || Contains(content, "<@!" + id + ">")
  {
    var tags := MentionTags(id);
    Find(content, tags[0]).Some? || Find(content, tags[1]).Some?
  }

  function Stripped(content: string, id: string): string {
    ReplaceAll(ReplaceAll(content, PlainTag(id), " "), NickTag(id), " ")
  }

  function Normalized(content: string, mentionOnly: bool, id: string): Option<string> {
    var text := Trim(UnicodeBlank, if mentionOnly then Stripped(content, id) else content);
    if (mentionOnly && !ContainsBotMention(content, id)) || text == "" then None else Some(text)
  }

  method NormalizeIncomingContent(content: string, mentionOnly: bool, id: string) returns (r: Option<string>)
    ensures r == Normalized(content, mentionOnly, id)
  {
    if content == "" {
      return None;
    }
    if mentionOnly && !ContainsBotMention(content, id) {
      return None;
    }
    var normalized := content;
    if mentionOnly {
      var tags := MentionTags(id);
      for i := 0 to |tags|
        invariant i == 0 ==> normalized == content
        invariant i == 1 ==> normalized == ReplaceAll(content, tags[0], " ")
        invariant i == 2 ==> normalized == Stripped(content, id)
      {
        normalized := ReplaceAll(normalized, tags[i], " ");
      }
    }
    normalized := Trim(UnicodeBlank, normalized);
    if normalized == "" {
      return None;
    }
    return Some(normalized);
  }

  // ---------------------------------------------------------------- replacing creates nothing new

  /** An occurrence lies before the space, after it, or across it. */
  lemma MatchAcrossSpace(p: string, later: string, t: string, i: nat)
    requires t != "" && MatchesAt(p + " " + later, t, i)
    ensures Contains(p, t) || Contains(later, t) || ' ' in t
  {
    var s := p + " " + later;
    if i + |t| <= |p| {
      assert p[i..i + |t|] == s[i..i + |t|];
      assert MatchesAt(p, t, i);
    } else if i > |p| {
      var j := i - |p| - 1;
      assert later[j..j + |t|] == s[i..i + |t|];
      assert MatchesAt(later, t, j);
    } else {
      assert t[|p| - i] == s[|p|];
    }
  }

  /** Joining with spaces cannot create an occurrence of a text without spaces. */
  lemma {:induction false} SpacesCreateNothing(parts: seq<string>, t: string)
    requires t != "" && ' ' !in t
    requires forall p :: p in parts ==> !Contains(p, t)
    ensures !Contains(Join(parts, " "), t)
    decreases |parts|
  {
    if |parts| <= 1 {
    } else {
      var p, later := parts[0], Join(parts[1..], " ");
      SpacesCreateNothing(parts[1..], t);
      forall i: nat
        ensures !MatchesAt(p + " " + later, t, i)
      {
        if MatchesAt(p + " " + later, t, i) {
          MatchAcrossSpace(p, later, t, i);
        }
      }
    }
  }

  /** A piece of a split contains nothing the whole did not. */
  lemma {:induction false} SplitPiecesInside(s: string, sep: string, t: string)
    requires sep != "" && !Contains(s, t)
    ensures forall p :: p in Split(s, sep) ==> !Contains(p, t)
    decreases |s|
  {
    hide Find;
    match Find(s, sep)
    case None =>
    case Some(i) =>
      var rest := s[i + |sep|..];
      assert s[..i + |sep|] + rest + "" == s;
      assert "" + s[..i] + s[i..] == s;
      ContainsInMiddle(s[..i + |sep|], rest, "", t);
      ContainsInMiddle("", s[..i], s[i..], t);
      SplitPiecesInside(rest, sep, t);
  }

  lemma TrimCreatesNothing(s: string, t: string)
    requires !Contains(s, t)
    ensures !Contains(Trim(UnicodeBlank, s), t)
  {
    var a, b := TrimParts(UnicodeBlank, s);
    ContainsInMiddle(a, Trim(UnicodeBlank, s), b, t);
  }

  // ---------------------------------------------------------------- no mention survives

  lemma StrippedIsClean(content: string, id: string)
    requires ' ' !in id
    ensures !Mentioned(Stripped(content, id), id)
  {
    var once := ReplaceAll(content, PlainTag(id), " ");
    SplitPiecesFree(content, PlainTag(id));
    SpacesCreateNothing(Split(content, PlainTag(id)), PlainTag(id));
    SplitPiecesInside(once, NickTag(id), PlainTag(id));
    SplitPiecesFree(once, NickTag(id));
    SpacesCreateNothing(Split(once, NickTag(id)), PlainTag(id));
    SpacesCreateNothing(Split(once, NickTag(id)), NickTag(id));
  }

  /** What a mention-only channel hands on: not empty, trimmed, and free of both mention forms. */
  ghost predicate CleanOutput(out: string, id: string) {
    out != "" && Trimmed(UnicodeBlank, out) && !Mentioned(out, id)
  }

  lemma OutputIsClean(content: string, id: string)
    requires ' ' !in id && Normalized(content, true, id).Some?
    ensures CleanOutput(Normalized(content, true, id).value, id)
  {
    StrippedIsClean(content, id);
    TrimCreatesNothing(Stripped(content, id), PlainTag(id));
    TrimCreatesNothing(Stripped(content, id), NickTag(id));
    var a, b := TrimParts(UnicodeBlank, Stripped(content, id));
  }

  // ---------------------------------------------------------------- what is left of a message

  /** Text followed by one of the two tags. */
  datatype Item = Item(text: string, nick: bool)

  function Tag(nick: bool, id: string): string {
    if nick then NickTag(id) else PlainTag(id)
  }

  /** A message: text pieces with a tag after each but the last. */
  function Message(items: seq<Item>, last: string, id: string): string {
    if items == [] then last else items[0].text + Tag(items[0].nick, id) + Message(items[1..], last, id)
  }

  /** The same text pieces with a space for each tag. */
  function Spaced(items: seq<Item>, last: string): string {
    if items == [] then last else items[0].text + " " + Spaced(items[1..], last)
  }

  /** With the plain tags alone replaced. */
  function NicksLeft(items: seq<Item>, last: string, id: string): string {
    if items == [] then last
    else items[0].text + (if items[0].nick then NickTag(id) else " ") + NicksLeft(items[1..], last, id)
  }

  /** An id that cannot be taken for the end of one tag or the start of another. */
  ghost predicate PlainId(id: string) {
    '<' !in id && '>' !in id && ' ' !in id
  }

  ghost predicate TagFree(items: seq<Item>, last: string, id: string) {
    !Mentioned(last, id) && forall i :: 0 <= i < |items| ==> !Mentioned(items[i].text, id)
  }

  lemma ShiftFind(a: string, rest: string, tag: string)
    requires tag != "" && forall j: nat :: j < |a| ==> !MatchesAt(a + rest, tag, j)
    ensures Find(a + rest, tag) == match Find(rest, tag) case None => None case Some(i) => Some(|a| + i)
  {
    forall j: nat
      ensures MatchesAt(a + rest, tag, |a| + j) <==> MatchesAt(rest, tag, j)
    {
      if j + |tag| <= |rest| {
        assert (a + rest)[|a| + j..|a| + j + |tag|] == rest[j..j + |tag|];
      }
    }
    var found := Find(rest, tag);
    forall j: nat | found.None? || j < |a| + found.value
      ensures !MatchesAt(a + rest, tag, j)
    {
      assert j >= |a| ==> !MatchesAt(rest, tag, j - |a|);
    }
    if found.Some? {
      FindIs(a + rest, tag, |a| + found.value);
    }
  }

  lemma Reassociate(a: string, b: string, c: string, d: string)
    ensures a + (b + c + d) == a + b + c + d
  {
  }

  /** Text in which no occurrence starts is left as it is. */
  lemma ReplaceAfter(a: string, rest: string, tag: string)
    requires tag != "" && forall j: nat :: j < |a| ==> !MatchesAt(a + rest, tag, j)
    ensures ReplaceAll(a + rest, tag, " ") == a + ReplaceAll(rest, tag, " ")
  {
    ShiftFind(a, rest, tag);
    var found := Find(rest, tag);
    if found.None? {
      ReplaceStep(a + rest, tag, " ");
      ReplaceStep(rest, tag, " ");
      hide ReplaceAll, Find, Contains, MatchesAt;
    } else {
      var before, after := rest[..found.value], rest[found.value + |tag|..];
      assert rest == before + tag + after;
      hide ReplaceAll, Find, Contains, MatchesAt;
      ReplaceIs(rest, tag, " ", before, after);
      Reassociate(a, before, tag, after);
      ReplaceIs(a + rest, tag, " ", a + before, after);
      Reassociate(a, before, " ", ReplaceAll(after, tag, " "));
    }
  }

  /** A tag that comes first is replaced. */
  lemma ReplaceFirst(rest: string, tag: string)
    requires tag != ""
    ensures ReplaceAll(tag + rest, tag, " ") == " " + ReplaceAll(rest, tag, " ")
  {
    var s := tag + rest;
    assert s[0..0 + |tag|] == tag;
    FindIs(s, tag, 0);
    hide ReplaceAll, Find, Contains, MatchesAt;
    ReplaceStep(s, tag, " ");
    assert s[..0] == "" && s[|tag|..] == rest;
  }

  /** A tag has one '<', at its start, and one '>', at its end. */
  ghost predicate Bracketed(tag: string) {
    && |tag| >= 2 && tag[0] == '<' && tag[|tag| - 1] == '>'
    && (forall i :: 1 <= i < |tag| ==> tag[i] != '<')
    && (forall i :: 0 <= i < |tag| - 1 ==> tag[i] != '>')
    && ' ' !in tag
  }

  lemma TagsAreBracketed(id: string, nick: bool)
    requires PlainId(id)
    ensures Bracketed(Tag(nick, id))
  {
    var tag := Tag(nick, id);
    var n := if nick then 3 else 2;
    assert forall i :: n <= i < |tag| - 1 ==> tag[i] == id[i - n];
  }

  /** No occurrence of a tag starts in tag-free text and ends beyond it, when a tag or a space follows. */
  lemma NoneInText(text: string, next: string, tag: string, j: nat)
    requires Bracketed(tag) && !Contains(text, tag) && j < |text|
    requires next != "" && (next[0] == '<' || next[0] == ' ')
    ensures !MatchesAt(text + next, tag, j)
  {
    var s := text + next;
    if j + |tag| <= |text| {
      assert s[j..j + |tag|] == text[j..j + |tag|];
      assert !MatchesAt(text, tag, j);
    } else if j + |tag| <= |s| {
      assert s[j..j + |tag|][|text| - j] == next[0];
      assert ' ' !in tag ==> tag[|text| - j] != ' ';
    }
  }

  /** No occurrence of a plain tag starts in a nick tag. */
  lemma NoneInNick(rest: string, id: string, j: nat)
    requires PlainId(id) && j < |NickTag(id)|
    ensures !MatchesAt(NickTag(id) + rest, PlainTag(id), j)
  {
    TagsAreBracketed(id, true);
    TagsAreBracketed(id, false);
    var nick, plain := NickTag(id), PlainTag(id);
    var s := nick + rest;
    if j + |plain| <= |s| {
      if j == 0 {
        assert s[0..|plain|][|plain| - 1] == nick[|plain| - 1];
      } else {
        assert s[j..j + |plain|][0] == nick[j];
      }
    }
  }

  lemma ReplaceNothing(s: string, tag: string)
    requires tag != "" && !Contains(s, tag)
    ensures ReplaceAll(s, tag, " ") == s
  {
    SplitFirst(s, tag);
  }

  /** One text piece and the tag after it, in the first pass. */
  lemma FirstPassStep(item: Item, rest: string, id: string)
    requires PlainId(id) && !Mentioned(item.text, id)
    ensures ReplaceAll(item.text + Tag(item.nick, id) + rest, PlainTag(id), " ") ==
              item.text + (if item.nick then NickTag(id) else " ") + ReplaceAll(rest, PlainTag(id), " ")
  {
    hide ReplaceAll, Contains;
    TagsAreBracketed(id, false);
    TagsAreBracketed(id, true);
    var text, tag, plain := item.text, Tag(item.nick, id), PlainTag(id);
    assert text + tag + rest == text + (tag + rest);
    forall j: nat | j < |text|
      ensures !MatchesAt(text + (tag + rest), plain, j)
    {
      NoneInText(text, tag + rest, plain, j);
    }
    ReplaceAfter(text, tag + rest, plain);
    if item.nick {
      forall j: nat | j < |tag|
        ensures !MatchesAt(tag + rest, plain, j)
      {
        NoneInNick(rest, id, j);
      }
      ReplaceAfter(tag, rest, plain);
    } else {
      ReplaceFirst(rest, plain);
    }
  }

  lemma {:induction false} FirstPass(items: seq<Item>, last: string, id: string)
    requires PlainId(id) && TagFree(items, last, id)
    ensures ReplaceAll(Message(items, last, id), PlainTag(id), " ") == NicksLeft(items, last, id)
    decreases |items|
  {
    if items == [] {
      ReplaceNothing(last, PlainTag(id));
    } else {
      hide ReplaceAll, PlainId, Mentioned;
      FirstPass(items[1..], last, id);
      FirstPassStep(items[0], Message(items[1..], last, id), id);
    }
  }

  /** The same in the second pass, in which only nick tags are left. */
  lemma SecondPassStep(item: Item, rest: string, id: string)
    requires PlainId(id) && !Mentioned(item.text, id)
    ensures ReplaceAll(item.text + (if item.nick then NickTag(id) else " ") + rest, NickTag(id), " ") ==
              item.text + " " + ReplaceAll(rest, NickTag(id), " ")
  {
    hide ReplaceAll, Contains;
    TagsAreBracketed(id, true);
    var text, nick := item.text, NickTag(id);
    var next := (if item.nick then nick else " ") + rest;
    assert text + (if item.nick then nick else " ") + rest == text + next;
    forall j: nat | j < |text|
      ensures !MatchesAt(text + next, nick, j)
    {
      NoneInText(text, next, nick, j);
    }
    ReplaceAfter(text, next, nick);
    if item.nick {
      ReplaceFirst(rest, nick);
    } else {
      assert |nick| <= |next| ==> next[0..|nick|][0] == ' ';
      ReplaceAfter(" ", rest, nick);
    }
  }

  lemma {:induction false} SecondPass(items: seq<Item>, last: string, id: string)
    requires PlainId(id) && TagFree(items, last, id)
    ensures ReplaceAll(NicksLeft(items, last, id), NickTag(id), " ") == Spaced(items, last)
    decreases |items|
  {
    if items == [] {
      ReplaceNothing(last, NickTag(id));
    } else {
      hide ReplaceAll, PlainId, Mentioned;
      SecondPass(items[1..], last, id);
      SecondPassStep(items[0], NicksLeft(items[1..], last, id), id);
    }
  }

  /** Of a message made of tag-free pieces with tags between them, exactly the pieces are left, with
      spaces between them, trimmed; and nothing is returned when that is blank. */
  lemma PiecesSurvive(items: seq<Item>, last: string, id: string)
    requires PlainId(id) && TagFree(items, last, id) && items != []
    ensures var t := Trim(UnicodeBlank, Spaced(items, last));
            Normalized(Message(items, last, id), true, id) == if t == "" then None else Some(t)
  {
    FirstPass(items, last, id);
    SecondPass(items, last, id);
    var content, tag := Message(items, last, id), Tag(items[0].nick, id);
    hide ReplaceAll, Trim;
    ContainsInMiddle(items[0].text, tag, Message(items[1..], last, id), tag);
    assert tag[0..0 + |tag|] == tag;
    assert MatchesAt(tag, tag, 0);
    assert Mentioned(content, id);
  }

  /** Without a mention a mention-only channel hands nothing on. */
  lemma MentionRequired(content: string, id: string)
    ensures Normalized(content, true, id).Some? ==> Mentioned(content, id)
  {
  }

  // ---------------------------------------------------------------- ids with a space

  /** A message that nests one plain tag inside another, around the id's first space. */
  function Nested(id: string, k: nat): string
    requires k <= |id|
  {
    "<@" + id[..k] + PlainTag(id) + id[k + if k < |id| then 1 else 0..] + ">"
  }

  lemma SplitShort(s: string, sep: string)
    requires |s| < |sep|
    ensures Split(s, sep) == [s] && ReplaceAll(s, sep, " ") == s
  {
  }

  lemma ReplaceOnce(front: string, tag: string, back: string)
    requires Find(front + tag + back, tag) == Some(|front|) && |back| < |tag|
    ensures ReplaceAll(front + tag + back, tag, " ") == front + " " + back
  {
    hide Find;
    var s := front + tag + back;
    SplitShort(back, tag);
    assert s[..|front|] == front && s[|front| + |tag|..] == back;
    assert Split(s, tag) == [front] + [back];
    assert ([front] + [back])[1..] == [back];
  }

  lemma FirstTagIsTheInnerOne(front: string, back: string)
    requires ' ' !in front
    ensures var tag := front + " " + back; Find(front + tag + back, tag) == Some(|front|)
  {
    var tag := front + " " + back;
    var s := front + tag + back;
    assert s[|front|..|front| + |tag|] == tag;
    forall j: nat | j < |front|
      ensures !MatchesAt(s, tag, j)
    {
      assert s[j + |front|] == (front + front)[j + |front|];
      assert tag[|front|] == ' ';
    }
    FindIs(s, tag, |front|);
  }

  lemma NestedSurvives(id: string, k: nat)
    requires k < |id| && id[k] == ' ' && ' ' !in id[..k]
    ensures Normalized(Nested(id, k), true, id) == Some(PlainTag(id))
  {
    var tag, front, back := PlainTag(id), "<@" + id[..k], id[k + 1..] + ">";
    var s := Nested(id, k);
    assert s == front + tag + back;
    assert tag == front + " " + back by {
      assert id == id[..k] + " " + id[k + 1..];
    }
    assert Find(s, tag) == Some(|front|) by {
      FirstTagIsTheInnerOne(front, back);
    }
    ReplaceOnce(front, tag, back);
    assert ReplaceAll(s, tag, " ") == tag;
    SplitShort(tag, NickTag(id));
    assert tag[0] == '<' && tag[|tag| - 1] == '>';
    TrimOfTrimmed(UnicodeBlank, tag);
    assert MatchesAt(s, tag, |front|);
  }

  /** Stripping is complete for exactly the ids without a space. */
  lemma CompleteIffNoSpace(id: string)
    ensures ' ' !in id <==>
            forall content :: Normalized(content, true, id).Some? ==>
                                CleanOutput(Normalized(content, true, id).value, id)
  {
    if ' ' in id {
      FindChar(id, ' ');
      var k := Find(id, " ").value;
      NestedSurvives(id, k);
      var tag := PlainTag(id);
      assert tag[0..0 + |tag|] == tag;
      assert MatchesAt(tag, tag, 0);
      assert !CleanOutput(Normalized(Nested(id, k), true, id).value, id);
    } else {
      forall content | Normalized(content, true, id).Some?
        ensures CleanOutput(Normalized(content, true, id).value, id)
      {
        OutputIsClean(content, id);
      }
    }
  }

  /** Without `mention_only` only blank ends are removed. */
  lemma PassThrough(content: string, id: string)
    ensures Normalized(content, false, id).None? <==> AllBlank(UnicodeBlank, content)
    ensures Normalized(content, false, id).Some? ==>
              exists a, b :: AllBlank(UnicodeBlank, a) && AllBlank(UnicodeBlank, b)
                             && content == a + Normalized(content, false, id).value + b
  {
    var a, b := TrimParts(UnicodeBlank, content);
    var t := Trim(UnicodeBlank, content);
    if t == "" {
      assert content == a + b;
    } else {
      assert t[0] in t && t[0] == content[|a|];
    }
  }
}
