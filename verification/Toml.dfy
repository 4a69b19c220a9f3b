/** The client-side TOML printer, against a reader of TOML 1.0.0 basic strings and arrays. */
module Toml {
  import opened Text

  // ---------------------------------------------------------------- the printer

  /** Two replace-alls, backslashes first. */
  function EscapeToml(s: string): string {
    ReplaceAll(ReplaceAll(s, "\\", "\\\\"), "\"", "\\\"")
  }

  function Quote(s: string): string {
    "\"" + EscapeToml(s) + "\""
  }

  function Quoted(items: seq<string>): (r: seq<string>)
    ensures |r| == |items|
  {
    if items == [] then [] else [Quote(Trim(JsBlank, items[0]))] + Quoted(items[1..])
  }

  function TomlList(items: seq<string>): string {
    if items == [] then "[]" else "[" + Join(Quoted(items), ", ") + "]"
  }

  // ---------------------------------------------------------------- one pass

  function EscapeChar(c: char): string {
    if c == '\\' then "\\\\" else if c == '"' then "\\\"" else [c]
  }

  function EscapeOnce(s: string): string {
    if s == "" then "" else EscapeChar(s[0]) + EscapeOnce(s[1..])
  }

  /** Replace one character everywhere. */
  function Substitute(s: string, c: char, insert: string): string {
    if s == "" then "" else (if s[0] == c then insert else [s[0]]) + Substitute(s[1..], c, insert)
  }

  lemma SubstituteCons(s: string, c: char, insert: string)
    requires s != ""
    ensures Substitute(s, c, insert) == (if s[0] == c then insert else [s[0]]) + Substitute(s[1..], c, insert)
  {
  }

  lemma {:induction false} SubstituteConcat(a: string, b: string, c: char, insert: string)
    ensures Substitute(a + b, c, insert) == Substitute(a, c, insert) + Substitute(b, c, insert)
    decreases |a|
  {
    if a == "" {
      assert a + b == b;
    } else {
      SubstituteCons(a, c, insert);
      SubstituteCons(a + b, c, insert);
      hide Substitute;
      assert (a + b)[0] == a[0] && (a + b)[1..] == a[1..] + b;
      SubstituteConcat(a[1..], b, c, insert);
      var first := if a[0] == c then insert else [a[0]];
      Assoc(first, Substitute(a[1..], c, insert), Substitute(b, c, insert));
    }
  }

  lemma {:induction false} SubstituteNothing(s: string, c: char, insert: string)
    requires c !in s
    ensures Substitute(s, c, insert) == s
    decreases |s|
  {
    if s == "" {
    } else {
      SubstituteNothing(s[1..], c, insert);
    }
  }

  lemma SubstituteAt(s: string, c: char, insert: string, i: nat)
    requires i < |s| && s[i] == c && c !in s[..i]
    ensures Substitute(s, c, insert) == s[..i] + insert + Substitute(s[i + 1..], c, insert)
  {
    SubstituteNothing(s[..i], c, insert);
    SubstituteConcat(s[..i], s[i..], c, insert);
    assert s == s[..i] + s[i..] && s[i..][1..] == s[i + 1..];
  }

  lemma {:induction false} ReplaceIsSubstitute(s: string, c: char, insert: string)
    ensures ReplaceAll(s, [c], insert) == Substitute(s, c, insert)
    decreases |s|
  {
    FindChar(s, c);
    match Find(s, [c])
    case None =>
      SubstituteNothing(s, c, insert);
    case Some(i) =>
      hide Find, Split, Join, Substitute, ReplaceAll;
      ReplaceIsSubstitute(s[i + 1..], c, insert);
      SubstituteAt(s, c, insert, i);
      ReplaceStep(s, [c], insert);
  }

  lemma EscapeOneChar(c: char)
    ensures Substitute(if c == '\\' then "\\\\" else [c], '"', "\\\"") == EscapeChar(c)
  {
    var first := if c == '\\' then "\\\\" else [c];
    if c == '"' {
      assert first[1..] == "";
    } else {
      SubstituteNothing(first, '"', "\\\"");
    }
  }

  lemma {:induction false} TwoPasses(s: string)
    ensures Substitute(Substitute(s, '\\', "\\\\"), '"', "\\\"") == EscapeOnce(s)
    decreases |s|
  {
    if s == "" {
    } else {
      var first := if s[0] == '\\' then "\\\\" else [s[0]];
      TwoPasses(s[1..]);
      SubstituteConcat(first, Substitute(s[1..], '\\', "\\\\"), '"', "\\\"");
      EscapeOneChar(s[0]);
    }
  }

  /** The order of the two passes is right: together they escape each character once. */
  lemma EscapeIsOnePass(s: string)
    ensures EscapeToml(s) == EscapeOnce(s)
  {
    ReplaceIsSubstitute(s, '\\', "\\\\");
    ReplaceIsSubstitute(Substitute(s, '\\', "\\\\"), '"', "\\\"");
    TwoPasses(s);
  }

  // ---------------------------------------------------------------- a reader

  datatype Read<T> = Read(value: T, rest: string)

  /** Control characters that a basic string must not hold raw: all but tab. */
  predicate Forbidden(c: char) {
    (c as int < 0x20 && c != '\t') || c as int == 0x7F
  }

  function HexDigit(c: char): Option<nat> {
    if '0' <= c <= '9' then Some(c as int - '0' as int)
    else if 'A' <= c <= 'F' then Some(c as int - 'A' as int + 10)
    else if 'a' <= c <= 'f' then Some(c as int - 'a' as int + 10)
    else None
  }

  function HexValue(s: string): Option<nat> {
    if s == "" then Some(0)
    else
      match (HexValue(s[..|s| - 1]), HexDigit(s[|s| - 1]))
      case (Some(n), Some(d)) => Some(16 * n + d)
      case _ => None
  }

  function ScalarOf(digits: string): Option<char> {
    match HexValue(digits)
    case None => None
    case Some(n) => if n < 0xD800 || 0xE000 <= n < 0x11_0000 then Some(n as char) else None
  }

  /** What an escape stands for, and its length after the backslash. */
  function Unescape(s: string): (r: Option<(char, nat)>)
    ensures r.Some? ==> 1 <= r.value.1 <= |s|
  {
    if s == "" then None
    else if s[0] == '"' || s[0] == '\\' then Some((s[0], 1))
    else if s[0] == 'b' then Some((8 as char, 1))
    else if s[0] == 't' then Some(('\t', 1))
    else if s[0] == 'n' then Some(('\n', 1))
    else if s[0] == 'f' then Some((12 as char, 1))
    else if s[0] == 'r' then Some(('\r', 1))
    else if s[0] == 'u' && |s| >= 5 then
      (match ScalarOf(s[1..5]) case None => None case Some(c) => Some((c, 5)))
    else if s[0] == 'U' && |s| >= 9 then
      (match ScalarOf(s[1..9]) case None => None case Some(c) => Some((c, 9)))
    else None
  }

  function Prepend(c: char, r: Option<Read<string>>): Option<Read<string>> {
    match r
    case None => None
    case Some(Read(value, rest)) => Some(Read([c] + value, rest))
  }

  /** The characters up to the closing quote. */
  function ReadChars(s: string): (r: Option<Read<string>>)
    ensures r.Some? ==> |r.value.rest| < |s|
    decreases |s|
  {
    if s == "" then None
    else if s[0] == '"' then Some(Read("", s[1..]))
    else if s[0] == '\\' then
      match Unescape(s[1..])
      case None => None
      case Some((c, k)) => Prepend(c, ReadChars(s[1 + k..]))
    else if Forbidden(s[0]) then None
    else Prepend(s[0], ReadChars(s[1..]))
  }

  /** A basic string; three quotes would open a multi-line string, which is not one. */
  function ReadString(s: string): (r: Option<Read<string>>)
    ensures r.Some? ==> |r.value.rest| < |s|
  {
    if s == "" || s[0] != '"' || (|s| >= 3 && s[..3] == "\"\"\"") then None else ReadChars(s[1..])
  }

  predicate ArrayBlank(c: char) {
    c == ' ' || c == '\t' || c == '\n' || c == '\r'
  }

  lemma {:induction false} TrimStartShortens(s: string)
    ensures |TrimStart(ArrayBlank, s)| <= |s|
    decreases |s|
  {
    if s == "" || !ArrayBlank(s[0]) {
    } else {
      TrimStartShortens(s[1..]);
    }
  }

  /** The items of an array of basic strings, and its closing bracket; a trailing comma is allowed. */
  function ReadItems(s: string): Option<Read<seq<string>>>
    decreases |s|
  {
    var t := TrimStart(ArrayBlank, s);
    TrimStartShortens(s);
    if t != "" && t[0] == ']' then Some(Read([], t[1..]))
    else
      match ReadString(t)
      case None => None
      case Some(Read(item, after)) =>
        var u := TrimStart(ArrayBlank, after);
        TrimStartShortens(after);
        if u != "" && u[0] == ']' then Some(Read([item], u[1..]))
        else if u != "" && u[0] == ',' then
          (match ReadItems(u[1..])
           case None => None
           case Some(Read(items, rest)) => Some(Read([item] + items, rest)))
        else None
  }

  function ReadArray(s: string): Option<Read<seq<string>>> {
    if s == "" || s[0] != '[' then None else ReadItems(s[1..])
  }

  // ---------------------------------------------------------------- strings read back

  ghost predicate Printable(s: string) {
    forall c :: c in s ==> !Forbidden(c)
  }

  lemma CloseQuote(rest: string)
    ensures ReadChars("\"" + rest) == Some(Read("", rest))
  {
    assert ("\"" + rest)[1..] == rest;
  }

  lemma PrintableCons(s: string)
    requires s != ""
    ensures Printable(s) <==> !Forbidden(s[0]) && Printable(s[1..])
  {
    assert s == [s[0]] + s[1..];
  }

  lemma ReadOneChar(c: char, later: string)
    ensures ReadChars(EscapeChar(c) + later) == if Forbidden(c) then None else Prepend(c, ReadChars(later))
  {
    var t := EscapeChar(c) + later;
    if c == '\\' || c == '"' {
      assert t[0] == '\\' && t[1..][0] == c && t[2..] == later;
    } else {
      assert t[0] == c && t[1..] == later;
    }
  }

  lemma {:induction false} EscapedReads(s: string, rest: string)
    ensures ReadChars(EscapeOnce(s) + "\"" + rest) == if Printable(s) then Some(Read(s, rest)) else None
    decreases |s|
  {
    hide ReadChars, Forbidden, EscapeChar;
    if s == "" {
      assert EscapeOnce(s) + "\"" + rest == "\"" + rest;
      CloseQuote(rest);
    } else {
      hide Printable;
      var later := EscapeOnce(s[1..]) + "\"" + rest;
      PrintableCons(s);
      EscapedReads(s[1..], rest);
      assert EscapeOnce(s) + "\"" + rest == EscapeChar(s[0]) + later;
      ReadOneChar(s[0], later);
      assert s == [s[0]] + s[1..];
    }
  }

  lemma NotThreeQuotes(s: string, rest: string)
    requires rest == "" || rest[0] != '"'
    ensures var t := "\"" + EscapeOnce(s) + "\"" + rest; |t| >= 3 ==> t[..3] != "\"\"\""
  {
    var t := "\"" + EscapeOnce(s) + "\"" + rest;
    if s == "" {
      assert |t| >= 3 ==> t[2] == rest[0] && t[..3][2] == t[2];
    } else {
      assert t[1] == EscapeChar(s[0])[0];
      assert |t| >= 3 ==> t[..3][1] == t[1];
    }
  }

  /** Reading a quoted string consumes exactly the literal and returns the string, if and only if it
      holds no control character other than tab. */
  lemma QuoteReadsBack(s: string, rest: string)
    requires rest == "" || rest[0] != '"'
    ensures ReadString(Quote(s) + rest) == Some(Read(s, rest)) <==> Printable(s)
    ensures !Printable(s) ==> ReadString(Quote(s) + rest) == None
  {
    var t := Quote(s) + rest;
    EscapeIsOnePass(s);
    EscapedReads(s, rest);
    assert t[1..] == EscapeOnce(s) + "\"" + rest;
    NotThreeQuotes(s, rest);
  }

  // ---------------------------------------------------------------- lists read back

  function TrimmedItems(items: seq<string>): (r: seq<string>)
    ensures |r| == |items|
  {
    if items == [] then [] else [Trim(JsBlank, items[0])] + TrimmedItems(items[1..])
  }

  ghost predicate AllPrintable(items: seq<string>) {
    forall i :: 0 <= i < |items| ==> Printable(items[i])
  }

  lemma QuoteStarts(s: string)
    ensures Quote(s) != "" && Quote(s)[0] == '"'
  {
  }

  lemma ReadItemStep(item: string, after: string)
    requires after != "" && after[0] != '"' && !ArrayBlank(after[0])
    ensures ReadItems(Quote(item) + after) ==
              if !Printable(item) then None
              else if after[0] == ']' then Some(Read([item], after[1..]))
              else if after[0] != ',' then None
              else match ReadItems(after[1..])
                   case None => None
                   case Some(Read(items, rest)) => Some(Read([item] + items, rest))
  {
    hide Quote, ReadString, Printable;
    var t := Quote(item) + after;
    QuoteStarts(item);
    QuoteReadsBack(item, after);
    assert t[0] == '"';
    assert TrimStart(ArrayBlank, t) == t;
    assert TrimStart(ArrayBlank, after) == after;
  }

  lemma AllPrintableCons(item: string, items: seq<string>)
    ensures AllPrintable([item] + items) <==> Printable(item) && AllPrintable(items)
  {
    var all := [item] + items;
    assert all[0] == item && forall i :: 0 <= i < |items| ==> all[i + 1] == items[i];
  }

  lemma NothingToPrint()
    ensures AllPrintable([])
  {
  }

  lemma SkipOneSpace(s: string)
    ensures ReadItems(" " + s) == ReadItems(s)
  {
    assert (" " + s)[1..] == s;
  }

  lemma {:induction false} ItemsReadBack(items: seq<string>, rest: string)
    requires items != []
    ensures ReadItems(Join(Quoted(items), ", ") + "]" + rest)
         == if AllPrintable(TrimmedItems(items)) then Some(Read(TrimmedItems(items), rest)) else None
    decreases |items|
  {
    hide Quote, ReadString, ReadItems, Trim, Printable, AllPrintable;
    var item := Trim(JsBlank, items[0]);
    var text := Join(Quoted(items), ", ") + "]" + rest;
    AllPrintableCons(item, TrimmedItems(items[1..]));
    if |items| == 1 {
      NothingToPrint();
      assert Quoted(items) == [Quote(item)] && TrimmedItems(items) == [item];
      assert text == Quote(item) + ("]" + rest);
      ReadItemStep(item, "]" + rest);
      assert ("]" + rest)[1..] == rest;
    } else {
      var tail := Join(Quoted(items[1..]), ", ") + "]" + rest;
      JoinCons(Quote(item), Quoted(items[1..]), ", ");
      assert text == Quote(item) + (", " + tail);
      ReadItemStep(item, ", " + tail);
      ItemsReadBack(items[1..], rest);
      assert (", " + tail)[1..] == " " + tail;
      SkipOneSpace(tail);
      assert TrimmedItems(items) == [item] + TrimmedItems(items[1..]);
    }
  }

  lemma CloseEmpty(rest: string)
    ensures ReadItems("]" + rest) == Some(Read([], rest))
  {
    assert ("]" + rest)[1..] == rest;
  }

  /** Reading a printed list returns the trimmed items, whatever commas, brackets, quotes or
      backslashes they hold, if and only if none holds a control character other than tab. */
  lemma ListReadsBack(items: seq<string>, rest: string)
    ensures ReadArray(TomlList(items) + rest) == Some(Read(TrimmedItems(items), rest))
            <==> AllPrintable(TrimmedItems(items))
  {
    hide ReadItems, AllPrintable, Join, Quoted;
    var t := TomlList(items) + rest;
    if items == [] {
      NothingToPrint();
      CloseEmpty(rest);
      assert t[1..] == "]" + rest && ("]" + rest)[1..] == rest;
    } else {
      assert t[1..] == Join(Quoted(items), ", ") + "]" + rest;
      ItemsReadBack(items, rest);
    }
  }

  // ---------------------------------------------------------------- the channel section

  /** A catalogue field: its key, and whether its type is "list". */
  datatype Field = Field(key: string, isList: bool)

  /** `parseInt` followed by printing: None for NaN. */
  type NumberPrinter = string -> Option<string>

  predicate IsNumeric(key: string) {
    key == "port"
  }

  function NonEmpty(items: seq<string>): seq<string> {
    if items == [] then []
    else (if items[0] != "" then [items[0]] else []) + NonEmpty(items[1..])
  }

  /** The items a comma-separated value stands for. */
  function ListItems(value: string): seq<string> {
    NonEmpty(TrimmedItems(Split(value, ",")))
  }

  function FieldLine(f: Field, value: string, number: NumberPrinter): Option<string> {
    if value == "" then None
    else if f.isList then Some(f.key + " = " + TomlList(ListItems(value)))
    else if IsNumeric(f.key) then
      match number(value) case None => None case Some(n) => Some(f.key + " = " + n)
    else Some(f.key + " = " + Quote(value))
  }

  function ValueOf(values: map<string, string>, key: string): string {
    if key in values then values[key] else ""
  }

  function FieldLines(fields: seq<Field>, values: map<string, string>, number: NumberPrinter): seq<string> {
    if fields == [] then []
    else
      var last := fields[|fields| - 1];
      FieldLines(fields[..|fields| - 1], values, number)
      + (match FieldLine(last, ValueOf(values, last.key), number) case None => [] case Some(line) => [line])
  }

  method EmitFields(fields: seq<Field>, values: map<string, string>, number: NumberPrinter)
    returns (lines: seq<string>)
    ensures lines == FieldLines(fields, values, number)
  {
    lines := [];
    for i := 0 to |fields|
      invariant lines == FieldLines(fields[..i], values, number)
    {
      hide TomlList, ListItems, Quote;
      var field := fields[i];
      assert fields[..i + 1][..i] == fields[..i];
      if field.key !in values || values[field.key] == "" {
        continue;
      }
      var value := values[field.key];
      if field.isList {
        lines := lines + [field.key + " = " + TomlList(ListItems(value))];
      } else if IsNumeric(field.key) {
        var num := number(value);
        if num.Some? {
          lines := lines + [field.key + " = " + num.value];
        }
      } else {
        lines := lines + [field.key + " = " + Quote(value)];
      }
    }
    assert fields[..|fields|] == fields;
  }

  // ---------------------------------------------------------------- which lines

  /** A field has a line exactly when it has a value, which, for a port that is no list, is a number. */
  lemma LineIff(f: Field, value: string, number: NumberPrinter)
    ensures FieldLine(f, value, number).Some? <==>
              value != "" && (f.isList || f.key != "port" || number(value).Some?)
  {
  }

  ghost function LineOf(f: Field, values: map<string, string>, number: NumberPrinter): Option<string> {
    FieldLine(f, if f.key in values then values[f.key] else "", number)
  }

  /** Line `j` is that of field `at[j]`, in the order of the fields, and the other fields have none. */
  ghost predicate Placed(lines: seq<string>, at: seq<nat>, fields: seq<Field>, values: map<string, string>,
                         number: NumberPrinter) {
    && |at| == |lines|
    && (forall j :: 0 <= j < |at| ==> at[j] < |fields| && LineOf(fields[at[j]], values, number) == Some(lines[j]))
    && (forall i, j :: 0 <= i < j < |at| ==> at[i] < at[j])
    && (forall i :: 0 <= i < |fields| && LineOf(fields[i], values, number).Some? ==> i in at)
  }

  lemma PlaceSkip(lines: seq<string>, at: seq<nat>, front: seq<Field>, last: Field, values: map<string, string>,
                  number: NumberPrinter)
    requires Placed(lines, at, front, values, number) && LineOf(last, values, number).None?
    ensures Placed(lines, at, front + [last], values, number)
  {
    hide LineOf;
    var fields := front + [last];
    forall i | 0 <= i < |fields| && LineOf(fields[i], values, number).Some?
      ensures i in at
    {
      assert i < |front| && fields[i] == front[i];
    }
  }

  lemma PlaceAdd(lines: seq<string>, at: seq<nat>, front: seq<Field>, last: Field, values: map<string, string>,
                 number: NumberPrinter, line: string)
    requires Placed(lines, at, front, values, number) && LineOf(last, values, number) == Some(line)
    ensures Placed(lines + [line], at + [|front|], front + [last], values, number)
  {
    hide LineOf;
    var fields, all := front + [last], at + [|front|];
    forall i | 0 <= i < |fields| && LineOf(fields[i], values, number).Some?
      ensures i in all
    {
      if i < |front| {
        assert fields[i] == front[i] && i in at;
      } else {
        assert all[|at|] == i;
      }
    }
  }

  /** The lines are those of the fields that have one, once each and in order. */
  lemma {:induction false} LinesInOrder(fields: seq<Field>, values: map<string, string>, number: NumberPrinter)
    returns (at: seq<nat>)
    ensures Placed(FieldLines(fields, values, number), at, fields, values, number)
    decreases |fields|
  {
    if fields == [] {
      at := [];
    } else {
      hide FieldLine, Placed;
      var front, last := fields[..|fields| - 1], fields[|fields| - 1];
      assert fields == front + [last];
      var before := FieldLines(front, values, number);
      at := LinesInOrder(front, values, number);
      match LineOf(last, values, number)
      case None =>
        PlaceSkip(before, at, front, last, values, number);
        assert before + [] == before;
      case Some(line) =>
        PlaceAdd(before, at, front, last, values, number, line);
        at := at + [|front|];
    }
  }

  // ---------------------------------------------------------------- fields read back

  /** The items meant by the pieces between commas: those that are not blank, without blank ends. */
  ghost function Meant(pieces: seq<string>): seq<string> {
    if pieces == [] then []
    else (if AllBlank(JsBlank, pieces[0]) then [] else [Trim(JsBlank, pieces[0])]) + Meant(pieces[1..])
  }

  lemma BlankIff(piece: string)
    ensures Trim(JsBlank, piece) == "" <==> AllBlank(JsBlank, piece)
  {
    var a, b := TrimParts(JsBlank, piece);
    var t := Trim(JsBlank, piece);
    if t == "" {
      assert piece == a + b;
    } else {
      assert piece[|a|] == t[0];
    }
  }

  lemma {:induction false} NonEmptyMeans(pieces: seq<string>)
    ensures NonEmpty(TrimmedItems(pieces)) == Meant(pieces)
    decreases |pieces|
  {
    if pieces == [] {
    } else {
      hide Trim, AllBlank;
      BlankIff(pieces[0]);
      NonEmptyMeans(pieces[1..]);
      assert TrimmedItems(pieces) == [Trim(JsBlank, pieces[0])] + TrimmedItems(pieces[1..]);
    }
  }

  /** A comma-separated value stands for what its pieces mean. */
  lemma ListMeans(pieces: seq<string>)
    requires pieces != [] && forall p :: p in pieces ==> ',' !in p
    ensures ListItems(Join(pieces, ",")) == Meant(pieces)
  {
    SplitOfJoinChar(pieces, ',');
    NonEmptyMeans(pieces);
  }

  /** A value as a reader of the configuration sees it: an array, a string, or something bare. */
  datatype Value = Items(items: seq<string>) | Scalar(text: string) | Bare(text: string)

  /** Read a line that assigns to the key. */
  function ReadField(key: string, line: string): Option<Value> {
    var prefix := key + " = ";
    if !(prefix <= line) then None
    else
      var body := line[|prefix|..];
      if body != "" && body[0] == '[' then
        match ReadArray(body)
        case None => None
        case Some(Read(items, rest)) => if rest == "" then Some(Items(items)) else None
      else if body != "" && body[0] == '"' then
        match ReadString(body)
        case None => None
        case Some(Read(text, rest)) => if rest == "" then Some(Scalar(text)) else None
      else Some(Bare(body))
  }

  lemma LineBody(key: string, body: string)
    ensures var line := key + " = " + body;
            key + " = " <= line && line[|key + " = "|..] == body
  {
  }

  lemma {:induction false} MeantTrimmed(pieces: seq<string>)
    ensures TrimmedItems(Meant(pieces)) == Meant(pieces)
    decreases |pieces|
  {
    if pieces == [] {
    } else {
      MeantTrimmed(pieces[1..]);
      TrimIdempotent(JsBlank, pieces[0]);
      hide Trim, AllBlank;
      var item, later := Trim(JsBlank, pieces[0]), Meant(pieces[1..]);
      assert ([item] + later)[1..] == later && [] + later == later;
    }
  }

  /** A list field reads back as the items meant by the pieces of its value, if and only if they hold no
      control character other than tab. */
  lemma ListFieldReadsBack(f: Field, pieces: seq<string>, number: NumberPrinter)
    requires f.isList && pieces != [] && Join(pieces, ",") != "" && forall p :: p in pieces ==> ',' !in p
    ensures FieldLine(f, Join(pieces, ","), number).Some?
    ensures ReadField(f.key, FieldLine(f, Join(pieces, ","), number).value) == Some(Items(Meant(pieces)))
            <==> AllPrintable(Meant(pieces))
  {
    ListMeans(pieces);
    MeantTrimmed(pieces);
    var items := Meant(pieces);
    var body := TomlList(items);
    assert body[0] == '[';
    hide Meant, ListItems, ReadArray, ReadString, TomlList, AllPrintable, Join;
    LineBody(f.key, body);
    assert body + "" == body;
    ListReadsBack(items, "");
  }

  /** A text field reads back as exactly the value typed in, under the same condition. */
  lemma TextFieldReadsBack(f: Field, value: string, number: NumberPrinter)
    requires !f.isList && f.key != "port" && value != ""
    ensures FieldLine(f, value, number).Some?
    ensures ReadField(f.key, FieldLine(f, value, number).value) == Some(Scalar(value)) <==> Printable(value)
  {
    var body := Quote(value);
    QuoteStarts(value);
    hide ReadArray, ReadString, Quote, Printable;
    LineBody(f.key, body);
    assert body + "" == body;
    QuoteReadsBack(value, "");
  }

  /** The port reads back as the bare number that its value stands for. */
  lemma PortReadsBack(f: Field, value: string, number: NumberPrinter)
    requires !f.isList && f.key == "port" && value != "" && number(value).Some?
    requires var n := number(value).value; n == "" || (n[0] != '[' && n[0] != '"')
    ensures FieldLine(f, value, number).Some?
    ensures ReadField(f.key, FieldLine(f, value, number).value) == Some(Bare(number(value).value))
  {
    hide ReadArray, ReadString;
    LineBody(f.key, number(value).value);
  }
}
