/** The attachment-marker parser: `[KIND:target]` spans are lifted out of an outgoing Discord
    message.  Offsets are counted in characters here; the parser only cuts next to brackets. */
module Markers {
  import opened Text

  datatype Kind = Image | Document | Video | Audio | Voice

  /** The parser leaves the label and the MIME type empty. */
  datatype Attachment = Attachment(kind: Kind, target: string)

  function UpperChar(c: char): char {
    if 'a' <= c <= 'z' then (c as int - 32) as char else c
  }

  function AsciiUpper(s: string): (r: string)
    ensures |r| == |s|
    ensures forall i :: 0 <= i < |s| ==> r[i] == UpperChar(s[i])
  {
    seq(|s|, i requires 0 <= i < |s| => UpperChar(s[i]))
  }

  function FromMarker(kind: string): Option<Kind> {
    var name := AsciiUpper(Trim(UnicodeBlank, kind));
    if name == "IMAGE" || name == "PHOTO" then Some(Image)
    else if name == "DOCUMENT" || name == "FILE" then Some(Document)
    else if name == "VIDEO" then Some(Video)
    else if name == "AUDIO" || name == "MUSIC" then Some(Audio)
    else if name == "VOICE" then Some(Voice)
    else None
  }

  /** The text between the brackets. */
  function ParseMarker(inner: string): Option<Attachment> {
    match IndexOf(inner, ':')
    case None => None
    case Some(i) =>
      match FromMarker(inner[..i])
      case None => None
      case Some(kind) =>
        var target := Trim(UnicodeBlank, inner[i + 1..]);
        if target == "" then None else Some(Attachment(kind, target))
  }

  // ---------------------------------------------------------------- what a marker says

  /** The names of a kind. */
  ghost function NamesOf(kind: Kind): set<string> {
    match kind
    case Image => {"IMAGE", "PHOTO"}
    case Document => {"DOCUMENT", "FILE"}
    case Video => {"VIDEO"}
    case Audio => {"AUDIO", "MUSIC"}
    case Voice => {"VOICE"}
  }

  /** The same letters, whatever the case of the first. */
  ghost predicate InAnyCase(s: string, upper: string) {
    |s| == |upper| && forall i :: 0 <= i < |s| ==> s[i] == upper[i] || s[i] as int == upper[i] as int + 32
  }

  /** A name of the kind, in any case and between blanks. */
  ghost predicate Spells(kind: Kind, name: string) {
    exists a, word, b, upper ::
      && name == a + word + b && AllBlank(UnicodeBlank, a) && AllBlank(UnicodeBlank, b)
      && upper in NamesOf(kind) && InAnyCase(word, upper)
  }

  lemma NamesAreLetters(kind: Kind, upper: string)
    requires upper in NamesOf(kind)
    ensures upper != "" && forall i :: 0 <= i < |upper| ==> 'A' <= upper[i] <= 'Z'
  {
  }

  lemma UpperIff(s: string, kind: Kind, upper: string)
    requires upper in NamesOf(kind)
    ensures AsciiUpper(s) == upper <==> InAnyCase(s, upper)
  {
    NamesAreLetters(kind, upper);
    hide NamesOf;
    if InAnyCase(s, upper) {
      assert forall i :: 0 <= i < |s| ==> UpperChar(s[i]) == upper[i];
    }
    if AsciiUpper(s) == upper {
      assert forall i :: 0 <= i < |s| ==> AsciiUpper(s)[i] == UpperChar(s[i]);
    }
  }

  lemma KindOfUpper(name: string, kind: Kind)
    ensures FromMarker(name) == Some(kind) <==> AsciiUpper(Trim(UnicodeBlank, name)) in NamesOf(kind)
  {
    hide AsciiUpper, Trim;
  }

  /** The kind read is the kind that the name spells, and a name that spells none is not recognised. */
  lemma FromMarkerIff(name: string, kind: Kind)
    ensures FromMarker(name) == Some(kind) <==> Spells(kind, name)
  {
    KindOfUpper(name, kind);
    hide FromMarker, NamesOf, AsciiUpper, Trim;
    var t := Trim(UnicodeBlank, name);
    if AsciiUpper(t) in NamesOf(kind) {
      var a, b := TrimParts(UnicodeBlank, name);
      UpperIff(t, kind, AsciiUpper(t));
      assert name == a + t + b;
    }
    if Spells(kind, name) {
      var a, word, b, upper :|
        && name == a + word + b && AllBlank(UnicodeBlank, a) && AllBlank(UnicodeBlank, b)
        && upper in NamesOf(kind) && InAnyCase(word, upper);
      NamesAreLetters(kind, upper);
      assert Trimmed(UnicodeBlank, word);
      TrimExact(UnicodeBlank, a, word, b);
      UpperIff(word, kind, upper);
    }
  }

  lemma ColonFirst(name: string, target: string)
    requires ':' !in name
    ensures var inner := name + ":" + target;
            IndexOf(inner, ':') == Some(|name|) && inner[..|name|] == name && inner[|name| + 1..] == target
  {
    var inner := name + ":" + target;
    assert forall k :: 0 <= k < |name| ==> inner[k] == name[k];
    IndexOfIs(inner, ':', |name|);
  }

  /** What stands between the brackets is a marker exactly when a name of the kind comes before its first
      colon and something not blank after it, which, trimmed, is the target. */
  lemma ParseMarkerIff(inner: string, attachment: Attachment)
    ensures ParseMarker(inner) == Some(attachment) <==>
              exists name, target ::
                && inner == name + ":" + target && ':' !in name && Spells(attachment.kind, name)
                && attachment.target == Trim(UnicodeBlank, target) && attachment.target != ""
  {
    IndexOfIsFirst(inner, ':');
    hide FromMarker, Spells, Trim, IndexOf;
    if ParseMarker(inner) == Some(attachment) {
      var i := IndexOf(inner, ':').value;
      var name, target := inner[..i], inner[i + 1..];
      FromMarkerIff(name, attachment.kind);
      assert inner == name + ":" + target && ':' !in name;
    }
    if name, target :|
         && inner == name + ":" + target && ':' !in name && Spells(attachment.kind, name)
         && attachment.target == Trim(UnicodeBlank, target) && attachment.target != "" {
      ColonFirst(name, target);
      FromMarkerIff(name, attachment.kind);
    }
  }

  // ---------------------------------------------------------------- specification

  /** The first '[' is at `i`, and the first ']' after it at `end`. */
  predicate IsFirstSpan(s: string, i: nat, end: nat) {
    && i < end < |s| && s[i] == '[' && s[end] == ']'
    && (forall k :: 0 <= k < i ==> s[k] != '[')
    && (forall k :: i <= k < end ==> s[k] != ']')
  }

  /** The search for '[' and then for the ']' that closes it. */
  function FirstSpan(s: string): (r: Option<(nat, nat)>)
    ensures r.Some? ==> r.value.0 < r.value.1 < |s|
  {
    match IndexOf(s, '[')
    case None => None
    case Some(i) =>
      match IndexOf(s[i..], ']')
      case None => None
      case Some(j) => Some((i, i + j))
  }

  lemma FirstSpanIsFirst(s: string)
    ensures match FirstSpan(s)
            case Some((i, end)) => IsFirstSpan(s, i, end)
            case None => forall i: nat, end: nat :: !IsFirstSpan(s, i, end)
  {
    IndexOfIsFirst(s, '[');
    match IndexOf(s, '[')
    case None =>
    case Some(i) =>
      IndexOfIsFirst(s[i..], ']');
      assert forall k :: i <= k < |s| ==> s[k] == s[i..][k - i];
  }

  /** Nothing below depends on which markers are recognised. */
  type MarkerParser = string -> Option<Attachment>

  /** A message cut at its bracketed spans; a span is lifted out when it holds an attachment. */
  datatype Scanned =
    | Rest(text: string)
    | Span(before: string, span: string, attachment: Option<Attachment>, later: Scanned)

  function Scan(parse: MarkerParser, s: string): Scanned
    decreases |s|
  {
    match FirstSpan(s)
    case None => Rest(s)
    case Some((i, end)) => Span(s[..i], s[i..end + 1], parse(s[i + 1..end]), Scan(parse, s[end + 1..]))
  }

  /** All text, in order. */
  function Whole(sc: Scanned): string {
    match sc
    case Rest(text) => text
    case Span(before, span, _, later) => before + (span + Whole(later))
  }

  /** The text left when the recognised markers are lifted out. */
  function Kept(sc: Scanned): string {
    match sc
    case Rest(text) => text
    case Span(before, span, None, later) => before + (span + Kept(later))
    case Span(before, _, Some(_), later) => before + Kept(later)
  }

  function Lifted(sc: Scanned): seq<Attachment> {
    match sc
    case Rest(_) => []
    case Span(_, _, None, later) => Lifted(later)
    case Span(_, _, Some(a), later) => [a] + Lifted(later)
  }

  // ---------------------------------------------------------------- the parser

  /** What was gathered so far, and what is still to be scanned, make up the whole. */
  ghost predicate Gathered(text: string, attachments: seq<Attachment>, pending: Scanned, whole: Scanned) {
    text + Kept(pending) == Kept(whole) && attachments + Lifted(pending) == Lifted(whole)
  }

  lemma Reassociate(a: string, b: string, c: string, d: string)
    ensures a + (b + (c + d)) == a + b + c + d
    ensures a + (b + d) == a + b + d
  {
  }

  lemma GatherStep(text: string, attachments: seq<Attachment>, pending: Scanned, whole: Scanned)
    requires pending.Span? && Gathered(text, attachments, pending, whole)
    ensures match pending.attachment
            case None => Gathered(text + pending.before + pending.span, attachments, pending.later, whole)
            case Some(a) => Gathered(text + pending.before, attachments + [a], pending.later, whole)
  {
    Reassociate(text, pending.before, pending.span, Kept(pending.later));
    if pending.attachment.Some? {
      var a := pending.attachment.value;
      assert attachments + ([a] + Lifted(pending.later)) == attachments + [a] + Lifted(pending.later);
    }
  }

  lemma ScanStep(parse: MarkerParser, s: string, i: nat, end: nat)
    requires FirstSpan(s) == Some((i, end))
    ensures Scan(parse, s) == Span(s[..i], s[i..end + 1], parse(s[i + 1..end]), Scan(parse, s[end + 1..]))
  {
  }

  lemma LiftStep(parse: MarkerParser, message: string, cursor: nat,
                 text: string, attachments: seq<Attachment>, i: nat, end: nat)
    requires cursor <= |message| && FirstSpan(message[cursor..]) == Some((i, end))
    requires Gathered(text, attachments, Scan(parse, message[cursor..]), Scan(parse, message))
    ensures var rest := message[cursor..];
            var later := Scan(parse, message[cursor + end + 1..]);
            match parse(rest[i + 1..end])
            case None => Gathered(text + rest[..i] + rest[i..end + 1], attachments, later, Scan(parse, message))
            case Some(a) => Gathered(text + rest[..i], attachments + [a], later, Scan(parse, message))
  {
    var rest := message[cursor..];
    ScanStep(parse, rest, i, end);
    GatherStep(text, attachments, Scan(parse, rest), Scan(parse, message));
    assert rest[end + 1..] == message[cursor + end + 1..];
  }

  lemma ScanEnd(parse: MarkerParser, s: string)
    requires FirstSpan(s).None?
    ensures Scan(parse, s) == Rest(s)
  {
  }

  lemma GatherStart(whole: Scanned)
    ensures Gathered("", [], whole, whole)
  {
  }

  /** The loop over bracketed spans; what follows the cursor afterwards is plain text. */
  method LiftSpans(parse: MarkerParser, message: string)
    returns (cleaned: string, attachments: seq<Attachment>, cursor: nat)
    ensures cursor <= |message|
    ensures Gathered(cleaned, attachments, Rest(message[cursor..]), Scan(parse, message))
  {
    hide Gathered, Kept, Lifted, Scan, FirstSpan, IndexOf;
    cleaned, attachments, cursor := "", [], 0;
    assert message[0..] == message;
    GatherStart(Scan(parse, message));
    while true
      invariant cursor <= |message|
      invariant Gathered(cleaned, attachments, Scan(parse, message[cursor..]), Scan(parse, message))
      decreases |message| - cursor
    {
      var rest := message[cursor..];
      var found := FirstSpan(rest);
      if found.None? {
        // No '[' is left, or the first one has no ']' after it: the rest is text.
        ScanEnd(parse, rest);
        break;
      }
      var (start, end) := found.value;
      LiftStep(parse, message, cursor, cleaned, attachments, start, end);
      cleaned := cleaned + rest[..start];
      var parsed := parse(rest[start + 1..end]);
      if parsed.Some? {
        attachments := attachments + [parsed.value];
      } else {
        cleaned := cleaned + rest[start..end + 1];
      }
      cursor := cursor + end + 1;
    }
  }

  lemma GatherRest(text: string, attachments: seq<Attachment>, rest: string, whole: Scanned)
    requires Gathered(text, attachments, Rest(rest), whole)
    ensures text + rest == Kept(whole) && attachments == Lifted(whole)
    ensures |rest| == 0 ==> text == Kept(whole)
  {
    assert attachments + [] == attachments;
  }

  method LiftMarkers(parse: MarkerParser, message: string) returns (cleaned: string, attachments: seq<Attachment>)
    ensures cleaned == Trim(UnicodeBlank, Kept(Scan(parse, message)))
    ensures attachments == Lifted(Scan(parse, message))
  {
    var cursor;
    cleaned, attachments, cursor := LiftSpans(parse, message);
    GatherRest(cleaned, attachments, message[cursor..], Scan(parse, message));
    if cursor < |message| {
      cleaned := cleaned + message[cursor..];
    }
    cleaned := Trim(UnicodeBlank, cleaned);
  }

  method ParseAttachmentMarkers(message: string) returns (cleaned: string, attachments: seq<Attachment>)
    ensures cleaned == Trim(UnicodeBlank, Kept(Scan(ParseMarker, message)))
    ensures attachments == Lifted(Scan(ParseMarker, message))
  {
    cleaned, attachments := LiftMarkers(ParseMarker, message);
  }

  // ---------------------------------------------------------------- conservation

  /** Every span the scan lifts out is a well-formed marker. */
  ghost predicate LiftsMarkers(parse: MarkerParser, sc: Scanned) {
    sc.Span? ==>
      && |sc.span| >= 2 && sc.span[0] == '[' && sc.span[|sc.span| - 1] == ']'
      && ']' !in sc.span[..|sc.span| - 1]
      && sc.attachment == parse(sc.span[1..|sc.span| - 1])
      && LiftsMarkers(parse, sc.later)
  }

  lemma WholeStep(sc: Scanned, s: string, i: nat, j: nat)
    requires i <= j <= |s|
    requires sc.Span? && sc.before == s[..i] && sc.span == s[i..j] && Whole(sc.later) == s[j..]
    ensures Whole(sc) == s
  {
    assert s == s[..i] + (s[i..j] + s[j..]);
  }

  /** The scan interleaves, in order, the text that is kept and the spans that are lifted: together
      they are the message. */
  lemma {:induction false} Conservation(parse: MarkerParser, s: string)
    ensures Whole(Scan(parse, s)) == s
    decreases |s|
  {
    match FirstSpan(s)
    case None =>
    case Some((i, end)) =>
      Conservation(parse, s[end + 1..]);
      ScanStep(parse, s, i, end);
      WholeStep(Scan(parse, s), s, i, end + 1);
  }

  lemma SpanShape(s: string, i: nat, end: nat)
    requires IsFirstSpan(s, i, end)
    ensures var span := s[i..end + 1];
            && span[0] == '[' && span[|span| - 1] == ']' && ']' !in span[..|span| - 1]
            && span[1..|span| - 1] == s[i + 1..end]
  {
    var span := s[i..end + 1];
    assert forall k :: 0 <= k < |span| ==> span[k] == s[i + k];
  }

  lemma {:induction false} SpansAreMarkers(parse: MarkerParser, s: string)
    ensures LiftsMarkers(parse, Scan(parse, s))
    decreases |s|
  {
    match FirstSpan(s)
    case None =>
    case Some((i, end)) =>
      SpansAreMarkers(parse, s[end + 1..]);
      FirstSpanIsFirst(s);
      SpanShape(s, i, end);
      ScanStep(parse, s, i, end);
  }

  // ---------------------------------------------------------------- idempotence

  /** Nothing to lift anywhere in the text. */
  ghost predicate MarkerFree(parse: MarkerParser, sc: Scanned) {
    sc.Span? ==> sc.attachment.None? && MarkerFree(parse, sc.later)
  }

  lemma {:induction false} MarkerFreeKeepsAll(parse: MarkerParser, sc: Scanned)
    requires MarkerFree(parse, sc)
    ensures Kept(sc) == Whole(sc) && Lifted(sc) == []
  {
    if sc.Rest? {
    } else {
      MarkerFreeKeepsAll(parse, sc.later);
    }
  }

  lemma ShiftFirst(p: string, s: string, i: nat, end: nat)
    requires '[' !in p && IsFirstSpan(s, i, end)
    ensures IsFirstSpan(p + s, |p| + i, |p| + end)
  {
    var t := p + s;
    assert forall k :: 0 <= k < |t| ==> t[k] == if k < |p| then p[k] else s[k - |p|];
  }

  lemma UnshiftFirst(p: string, s: string, i: nat, end: nat)
    requires '[' !in p && IsFirstSpan(p + s, i, end)
    ensures |p| <= i && IsFirstSpan(s, i - |p|, end - |p|)
  {
    var t := p + s;
    assert forall k :: 0 <= k < |s| ==> s[k] == t[k + |p|];
    assert forall k :: 0 <= k < |p| ==> p[k] == t[k];
  }

  lemma TailFirst(s: string, t: string, i: nat, end: nat)
    requires IsFirstSpan(s, i, end) && t == s[i..]
    ensures t[end - i] == ']' && forall k :: 0 <= k < end - i ==> t[k] != ']'
  {
    assert forall k :: 0 <= k < |t| ==> t[k] == s[k + i];
  }

  lemma SpanUnique(s: string, i: nat, end: nat)
    requires IsFirstSpan(s, i, end)
    ensures FirstSpan(s) == Some((i, end))
  {
    var t := s[i..];
    TailFirst(s, t, i, end);
    IndexOfIs(s, '[', i);
    IndexOfIs(t, ']', end - i);
  }

  /** Text without '[' in front, or a tail without ']' behind, changes nothing. */
  lemma ShiftSpan(p: string, s: string)
    requires '[' !in p
    ensures FirstSpan(p + s) == (match FirstSpan(s) case None => None case Some((i, end)) => Some((|p| + i, |p| + end)))
  {
    hide FirstSpan, IndexOf;
    FirstSpanIsFirst(s);
    FirstSpanIsFirst(p + s);
    match FirstSpan(s)
    case Some((i, end)) =>
      ShiftFirst(p, s, i, end);
      SpanUnique(p + s, |p| + i, |p| + end);
    case None =>
      if FirstSpan(p + s).Some? {
        var (i, end) := FirstSpan(p + s).value;
        UnshiftFirst(p, s, i, end);
      }
  }

  lemma PlainPrefix(parse: MarkerParser, p: string, s: string)
    requires '[' !in p
    ensures MarkerFree(parse, Scan(parse, p + s)) <==> MarkerFree(parse, Scan(parse, s))
  {
    hide FirstSpan, IndexOf;
    ShiftSpan(p, s);
    match FirstSpan(s)
    case None =>
    case Some((i, end)) =>
      ScanStep(parse, s, i, end);
      ScanStep(parse, p + s, |p| + i, |p| + end);
      assert (p + s)[|p| + i + 1..|p| + end] == s[i + 1..end];
      assert (p + s)[|p| + end + 1..] == s[end + 1..];
  }

  lemma SpanPrefix(s: string, t: string, i: nat, end: nat)
    requires FirstSpan(s) == Some((i, end))
    ensures FirstSpan(s + t) == Some((i, end))
  {
    FirstSpanIsFirst(s);
    FirstSpanIsFirst(s + t);
    assert forall k :: 0 <= k < |s| ==> (s + t)[k] == s[k];
    assert IsFirstSpan(s + t, i, end);
    SpanUnique(s + t, i, end);
  }

  /** Blank characters are not brackets, so trimming the end hides no bracket. */
  lemma {:induction false} PlainSuffix(parse: MarkerParser, s: string, t: string)
    requires '[' !in t && ']' !in t && MarkerFree(parse, Scan(parse, s + t))
    ensures MarkerFree(parse, Scan(parse, s))
    decreases |s|
  {
    hide FirstSpan, IndexOf;
    match FirstSpan(s)
    case None =>
    case Some((i, end)) =>
      SpanPrefix(s, t, i, end);
      ScanStep(parse, s, i, end);
      ScanStep(parse, s + t, i, end);
      assert (s + t)[i + 1..end] == s[i + 1..end];
      assert (s + t)[end + 1..] == s[end + 1..] + t;
      PlainSuffix(parse, s[end + 1..], t);
  }

  /** A span that was not recognised stays unrecognised. */
  lemma KeepSpan(parse: MarkerParser, s: string, later: string, i: nat, end: nat)
    requires i < end && |s| == end + 1 && parse(s[i + 1..end]).None?
    requires MarkerFree(parse, Scan(parse, later))
    requires IsFirstSpan(s, i, end)
    ensures MarkerFree(parse, Scan(parse, s + later))
  {
    SpanUnique(s, i, end);
    SpanPrefix(s, later, i, end);
    ScanStep(parse, s + later, i, end);
    assert (s + later)[i + 1..end] == s[i + 1..end];
    assert (s + later)[end + 1..] == later;
  }

  lemma KeepOneStep(parse: MarkerParser, s: string, i: nat, end: nat, later: Scanned)
    requires IsFirstSpan(s, i, end)
    requires MarkerFree(parse, Scan(parse, Kept(later)))
    ensures MarkerFree(parse, Scan(parse, Kept(Span(s[..i], s[i..end + 1], parse(s[i + 1..end]), later))))
  {
    var front, tail := s[..end + 1], Kept(later);
    if parse(s[i + 1..end]).Some? {
      PlainPrefix(parse, s[..i], tail);
    } else {
      assert front[i + 1..end] == s[i + 1..end];
      KeepSpan(parse, front, tail, i, end);
      assert front == s[..i] + s[i..end + 1];
      assert front + tail == s[..i] + (s[i..end + 1] + tail);
    }
  }

  /** Lifting markers out never brings a new one together. */
  lemma {:induction false} KeptIsMarkerFree(parse: MarkerParser, s: string)
    ensures MarkerFree(parse, Scan(parse, Kept(Scan(parse, s))))
    decreases |s|
  {
    match FirstSpan(s)
    case None =>
    case Some((i, end)) =>
      var later := Scan(parse, s[end + 1..]);
      KeptIsMarkerFree(parse, s[end + 1..]);
      FirstSpanIsFirst(s);
      ScanStep(parse, s, i, end);
      KeepOneStep(parse, s, i, end, later);
  }

  /** Parsing the cleaned text again returns it unchanged, with no attachments. */
  lemma Idempotence(parse: MarkerParser, message: string)
    ensures var cleaned := Trim(UnicodeBlank, Kept(Scan(parse, message)));
            && Trim(UnicodeBlank, Kept(Scan(parse, cleaned))) == cleaned
            && Lifted(Scan(parse, cleaned)) == []
  {
    var kept := Kept(Scan(parse, message));
    var cleaned := Trim(UnicodeBlank, kept);
    var a, b := TrimParts(UnicodeBlank, kept);
    KeptIsMarkerFree(parse, message);
    assert '[' !in a && '[' !in b && ']' !in b;
    assert kept == a + (cleaned + b);
    PlainPrefix(parse, a, cleaned + b);
    PlainSuffix(parse, cleaned, b);
    MarkerFreeKeepsAll(parse, Scan(parse, cleaned));
    Conservation(parse, cleaned);
    TrimIdempotent(UnicodeBlank, kept);
  }

  // ---------------------------------------------------------------- text before a marker

  /** Text with nothing to lift, whose every '[' has a ']' after it. */
  ghost predicate Complete(sc: Scanned) {
    match sc
    case Rest(text) => '[' !in text
    case Span(_, _, attachment, later) => attachment.None? && Complete(later)
  }

  lemma RestKept(text: string)
    ensures Kept(Rest(text)) == text && Lifted(Rest(text)) == []
  {
  }

  lemma SlicesAfter(p: string, s: string, i: nat, end: nat)
    requires i < end < |s|
    ensures (p + s)[..|p| + i] == p + s[..i]
    ensures (p + s)[|p| + i..|p| + end + 1] == s[i..end + 1]
    ensures (p + s)[|p| + i + 1..|p| + end] == s[i + 1..end]
    ensures (p + s)[|p| + end + 1..] == s[end + 1..]
  {
  }

  lemma PrependText(p: string, before: string, span: string, attachment: Option<Attachment>, later: Scanned)
    ensures Kept(Span(p + before, span, attachment, later)) == p + Kept(Span(before, span, attachment, later))
    ensures Lifted(Span(p + before, span, attachment, later)) == Lifted(Span(before, span, attachment, later))
  {
    Reassociate(p, before, span, Kept(later));
    assert p + (before + Kept(later)) == p + before + Kept(later);
  }

  lemma PlainAppends(parse: MarkerParser, p: string, s: string)
    requires '[' !in p
    ensures Kept(Scan(parse, p + s)) == p + Kept(Scan(parse, s))
    ensures Lifted(Scan(parse, p + s)) == Lifted(Scan(parse, s))
  {
    hide Scan, FirstSpan, IndexOf, Kept, Lifted;
    ShiftSpan(p, s);
    match FirstSpan(s)
    case None =>
      ScanEnd(parse, s);
      ScanEnd(parse, p + s);
      RestKept(s);
      RestKept(p + s);
    case Some((i, end)) =>
      ScanStep(parse, s, i, end);
      ScanStep(parse, p + s, |p| + i, |p| + end);
      SlicesAfter(p, s, i, end);
      PrependText(p, s[..i], s[i..end + 1], parse(s[i + 1..end]), Scan(parse, s[end + 1..]));
  }

  lemma SlicesBefore(p: string, s: string, i: nat, end: nat)
    requires i < end < |p|
    ensures (p + s)[..i] == p[..i]
    ensures (p + s)[i..end + 1] == p[i..end + 1]
    ensures (p + s)[i + 1..end] == p[i + 1..end]
    ensures (p + s)[end + 1..] == p[end + 1..] + s
    ensures p == p[..i] + (p[i..end + 1] + p[end + 1..])
  {
  }

  lemma RegroupText(a: string, b: string, c: string, d: string)
    ensures a + (b + (c + d)) == a + (b + c) + d
  {
  }

  /** Complete text is kept as it is, and what follows it is scanned as if it stood alone. */
  lemma {:induction false} CompleteAppends(parse: MarkerParser, p: string, s: string)
    requires Complete(Scan(parse, p))
    ensures Kept(Scan(parse, p + s)) == p + Kept(Scan(parse, s))
    ensures Lifted(Scan(parse, p + s)) == Lifted(Scan(parse, s))
    decreases |p|
  {
    match FirstSpan(p)
    case None =>
      ScanEnd(parse, p);
      PlainAppends(parse, p, s);
    case Some((i, end)) =>
      hide Scan, FirstSpan, IndexOf;
      SpanPrefix(p, s, i, end);
      ScanStep(parse, p, i, end);
      ScanStep(parse, p + s, i, end);
      SlicesBefore(p, s, i, end);
      CompleteAppends(parse, p[end + 1..], s);
      RegroupText(p[..i], p[i..end + 1], p[end + 1..], Kept(Scan(parse, s)));
  }

  // ---------------------------------------------------------------- printing and parsing back

  /** Text followed by a marker. */
  datatype Item = Item(text: string, kind: Kind, name: string, target: string)

  function Inner(item: Item): string {
    item.name + ":" + item.target
  }

  function PrintItem(item: Item): string {
    item.text + "[" + Inner(item) + "]"
  }

  function Print(items: seq<Item>, last: string): string {
    if items == [] then last else PrintItem(items[0]) + Print(items[1..], last)
  }

  /** A name that spells the kind, a target that is not blank and has no ']', and text that holds no
      marker of its own and leaves no bracket open. */
  ghost predicate Printable(item: Item) {
    && Complete(Scan(ParseMarker, item.text))
    && Spells(item.kind, item.name)
    && Trim(UnicodeBlank, item.target) != "" && ']' !in item.target
  }

  function AttachmentOf(item: Item): Attachment {
    Attachment(item.kind, Trim(UnicodeBlank, item.target))
  }

  function Texts(items: seq<Item>, last: string): string {
    if items == [] then last else items[0].text + Texts(items[1..], last)
  }

  function Attachments(items: seq<Item>): seq<Attachment> {
    if items == [] then [] else [AttachmentOf(items[0])] + Attachments(items[1..])
  }

  /** A name holds no punctuation. */
  lemma NameIsPlain(kind: Kind, name: string)
    requires Spells(kind, name)
    ensures ':' !in name && ']' !in name
  {
    var a, word, b, upper :|
      && name == a + word + b && AllBlank(UnicodeBlank, a) && AllBlank(UnicodeBlank, b)
      && upper in NamesOf(kind) && InAnyCase(word, upper);
    NamesAreLetters(kind, upper);
    hide NamesOf;
    assert forall c :: c in word ==> c != ':' && c != ']';
    assert !UnicodeBlank(':') && !UnicodeBlank(']');
  }

  lemma InnerParses(item: Item)
    requires Printable(item)
    ensures ParseMarker(Inner(item)) == Some(AttachmentOf(item)) && ']' !in Inner(item)
  {
    hide ParseMarker, Spells, Scan, Complete;
    NameIsPlain(item.kind, item.name);
    ParseMarkerIff(Inner(item), AttachmentOf(item));
  }

  lemma MarkerIsFirstSpan(inner: string, rest: string)
    requires ']' !in inner
    ensures var s, end := "[" + inner + "]" + rest, 1 + |inner|;
            && FirstSpan(s) == Some((0, end))
            && s[..0] == "" && s[1..end] == inner && s[end + 1..] == rest
  {
    var s, end := "[" + inner + "]" + rest, 1 + |inner|;
    assert forall k :: 0 < k < end ==> s[k] == inner[k - 1];
    SpanUnique(s, 0, end);
  }

  /** What makes one printed item parse back. */
  ghost predicate ParsesBack(parse: MarkerParser, item: Item) {
    && Complete(Scan(parse, item.text)) && ']' !in Inner(item)
    && parse(Inner(item)) == Some(AttachmentOf(item))
  }

  lemma MarkerIsLifted(parse: MarkerParser, inner: string, rest: string)
    requires ']' !in inner && parse(inner).Some?
    ensures var marker := "[" + inner + "]" + rest;
            && Kept(Scan(parse, marker)) == Kept(Scan(parse, rest))
            && Lifted(Scan(parse, marker)) == [parse(inner).value] + Lifted(Scan(parse, rest))
  {
    var marker, end := "[" + inner + "]" + rest, 1 + |inner|;
    MarkerIsFirstSpan(inner, rest);
    ScanStep(parse, marker, 0, end);
    hide FirstSpan, IndexOf, Scan;
    var before, span, later := marker[..0], marker[0..end + 1], Scan(parse, rest);
    assert Scan(parse, marker) == Span(before, span, parse(inner), later);
    assert Kept(Scan(parse, marker)) == "" + Kept(later);
  }

  lemma PrintedItemScans(parse: MarkerParser, item: Item, rest: string)
    requires ParsesBack(parse, item)
    ensures var sc := Scan(parse, PrintItem(item) + rest);
            && Kept(sc) == item.text + Kept(Scan(parse, rest))
            && Lifted(sc) == [AttachmentOf(item)] + Lifted(Scan(parse, rest))
  {
    hide FirstSpan, IndexOf, Complete, Kept, Lifted, Scan;
    var marker := "[" + Inner(item) + "]" + rest;
    MarkerIsLifted(parse, Inner(item), rest);
    CompleteAppends(parse, item.text, marker);
    assert PrintItem(item) + rest == item.text + marker;
  }

  lemma {:induction false} PrintScans(parse: MarkerParser, items: seq<Item>, last: string)
    requires forall i :: 0 <= i < |items| ==> ParsesBack(parse, items[i])
    requires MarkerFree(parse, Scan(parse, last))
    ensures Kept(Scan(parse, Print(items, last))) == Texts(items, last)
    ensures Lifted(Scan(parse, Print(items, last))) == Attachments(items)
    decreases |items|
  {
    hide FirstSpan, IndexOf;
    if items == [] {
      MarkerFreeKeepsAll(parse, Scan(parse, last));
      Conservation(parse, last);
    } else {
      PrintScans(parse, items[1..], last);
      PrintedItemScans(parse, items[0], Print(items[1..], last));
    }
  }

  /** Printed markers come back as exactly those attachments, in order, and the text around them as
      the text that is left.  Only the last piece of text may leave a bracket open. */
  lemma PrintParses(items: seq<Item>, last: string)
    requires forall i :: 0 <= i < |items| ==> Printable(items[i])
    requires MarkerFree(ParseMarker, Scan(ParseMarker, last))
    ensures Kept(Scan(ParseMarker, Print(items, last))) == Texts(items, last)
    ensures Lifted(Scan(ParseMarker, Print(items, last))) == Attachments(items)
  {
    forall i | 0 <= i < |items|
      ensures ParsesBack(ParseMarker, items[i])
    {
      InnerParses(items[i]);
    }
    PrintScans(ParseMarker, items, last);
  }
}
