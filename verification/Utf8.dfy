/** UTF-8 (RFC 3629): the bytes behind a Rust `str`, and its character boundaries. */
module Utf8 {
  import opened Text

  type byte = n: nat | n < 256

  predicate IsContinuation(b: byte) {
    0x80 <= b < 0xC0
  }

  function EncodeChar(c: char): (bs: seq<byte>)
    ensures 1 <= |bs| <= 4
    ensures !IsContinuation(bs[0])
    ensures forall i :: 1 <= i < |bs| ==> IsContinuation(bs[i])
  {
    var n := c as int;
    if n < 0x80 then [n]
    else if n < 0x800 then [0xC0 + n / 0x40, 0x80 + n % 0x40]
    else if n < 0x1_0000 then [0xE0 + n / 0x1000, 0x80 + n / 0x40 % 0x40, 0x80 + n % 0x40]
    else [0xF0 + n / 0x4_0000, 0x80 + n / 0x1000 % 0x40, 0x80 + n / 0x40 % 0x40, 0x80 + n % 0x40]
  }

  /** The bits that a byte carries beside its mark. */
  function Bits(b: byte, mark: nat): int {
    b as int - mark
  }

  /** The bits of a character, as section 3 of RFC 3629 lays them out. */
  lemma EncodedBits(c: char)
    ensures var bs, n := EncodeChar(c), c as int;
            match |bs|
            case 1 => n <= 0x7F && n == bs[0]
            case 2 => 0x80 <= n <= 0x7FF && n == 0x40 * Bits(bs[0], 0xC0) + Bits(bs[1], 0x80)
            case 3 =>
              && 0x800 <= n <= 0xFFFF
              && n == 0x1000 * Bits(bs[0], 0xE0) + 0x40 * Bits(bs[1], 0x80) + Bits(bs[2], 0x80)
            case _ =>
              && |bs| == 4 && n >= 0x1_0000
              && n == 0x4_0000 * Bits(bs[0], 0xF0) + 0x1000 * Bits(bs[1], 0x80)
                      + 0x40 * Bits(bs[2], 0x80) + Bits(bs[3], 0x80)
  {
    var n := c as int;
    assert n == n / 0x40 * 0x40 + n % 0x40;
    assert n / 0x40 == n / 0x1000 * 0x40 + n / 0x40 % 0x40;
    assert n / 0x1000 == n / 0x4_0000 * 0x40 + n / 0x1000 % 0x40;
  }

  function Encode(s: string): seq<byte> {
    if s == "" then [] else EncodeChar(s[0]) + Encode(s[1..])
  }

  function Tail(b: byte): nat
    requires IsContinuation(b)
  {
    b - 0x80
  }

  predicate IsScalar(n: int) {
    0 <= n < 0xD800 || 0xE000 <= n < 0x11_0000
  }

  /** The first character of a byte string and its width: rejects overlong forms, surrogates,
      values past U+10FFFF, stray continuation bytes and truncated sequences. */
  function DecodeFirst(bs: seq<byte>): (r: Option<(char, nat)>)
    requires bs != []
    ensures r.Some? ==> 1 <= r.value.1 <= |bs|
  {
    var b := bs[0];
    if b < 0x80 then
      Some((b as char, 1))
    else if 0xC0 <= b < 0xE0 && |bs| >= 2 && IsContinuation(bs[1]) then
      var n := (b - 0xC0) * 0x40 + Tail(bs[1]);
      if n < 0x80 then None else Some((n as char, 2))
    else if 0xE0 <= b < 0xF0 && |bs| >= 3 && IsContinuation(bs[1]) && IsContinuation(bs[2]) then
      var n := (b - 0xE0) * 0x1000 + Tail(bs[1]) * 0x40 + Tail(bs[2]);
      if n < 0x800 || !IsScalar(n) then None else Some((n as char, 3))
    else if 0xF0 <= b < 0xF8 && |bs| >= 4
            && IsContinuation(bs[1]) && IsContinuation(bs[2]) && IsContinuation(bs[3]) then
      var n := (b - 0xF0) * 0x4_0000 + Tail(bs[1]) * 0x1000 + Tail(bs[2]) * 0x40 + Tail(bs[3]);
      if n < 0x1_0000 || !IsScalar(n) then None else Some((n as char, 4))
    else
      None
  }

  lemma Digits3(a: nat, b: nat, c: nat)
    requires b < 0x40 && c < 0x40
    ensures var n := a * 0x1000 + b * 0x40 + c;
            n / 0x1000 == a && n / 0x40 % 0x40 == b && n % 0x40 == c
  {
    var n := a * 0x1000 + b * 0x40 + c;
    assert n / 0x40 == a * 0x40 + b;
  }

  lemma Digits4(a: nat, b: nat, c: nat, d: nat)
    requires b < 0x40 && c < 0x40 && d < 0x40
    ensures var n := a * 0x4_0000 + b * 0x1000 + c * 0x40 + d;
            n / 0x4_0000 == a && n / 0x1000 % 0x40 == b && n / 0x40 % 0x40 == c && n % 0x40 == d
  {
    var n := a * 0x4_0000 + b * 0x1000 + c * 0x40 + d;
    assert n / 0x40 == a * 0x1000 + b * 0x40 + c;
    assert n / 0x1000 == a * 0x40 + b;
    Digits3(a, b, c);
  }

  lemma DecodeFirstSound(bs: seq<byte>)
    requires bs != [] && DecodeFirst(bs).Some?
    ensures var (c, k) := DecodeFirst(bs).value; EncodeChar(c) == bs[..k]
  {
    var (c, k) := DecodeFirst(bs).value;
    if k == 3 {
      Digits3(bs[0] - 0xE0, Tail(bs[1]), Tail(bs[2]));
    } else if k == 4 {
      Digits4(bs[0] - 0xF0, Tail(bs[1]), Tail(bs[2]), Tail(bs[3]));
    }
  }

  function Decode(bs: seq<byte>): Option<string> {
    if bs == [] then Some("")
    else
      match DecodeFirst(bs)
      case None => None
      case Some((c, k)) =>
        match Decode(bs[k..])
        case None => None
        case Some(rest) => Some([c] + rest)
  }

  lemma DecodeFirstOfEncoded(c: char, rest: seq<byte>)
    ensures DecodeFirst(EncodeChar(c) + rest) == Some((c, |EncodeChar(c)|))
  {
    var n := c as int;
    assert n == n / 0x40 * 0x40 + n % 0x40;
    assert n / 0x40 == n / 0x1000 * 0x40 + n / 0x40 % 0x40;
    assert n / 0x1000 == n / 0x4_0000 * 0x40 + n / 0x1000 % 0x40;
  }

  lemma {:induction false} DecodeOfEncode(s: string)
    ensures Decode(Encode(s)) == Some(s)
    decreases |s|
  {
    if s == "" {
    } else {
      var bs, k := Encode(s), |EncodeChar(s[0])|;
      DecodeFirstOfEncoded(s[0], Encode(s[1..]));
      DecodeOfEncode(s[1..]);
      assert bs[k..] == Encode(s[1..]);
      assert s == [s[0]] + s[1..];
    }
  }

  lemma {:induction false} EncodeOfDecode(bs: seq<byte>)
    requires Decode(bs).Some?
    ensures Encode(Decode(bs).value) == bs
    decreases |bs|
  {
    hide DecodeFirst, EncodeChar;
    if bs == [] {
    } else {
      var (c, k) := DecodeFirst(bs).value;
      DecodeFirstSound(bs);
      EncodeOfDecode(bs[k..]);
      assert bs == bs[..k] + bs[k..];
    }
  }

  /** `from_utf8` accepts exactly the encodings of strings, and inverts them. */
  lemma DecodeExact(bs: seq<byte>, s: string)
    ensures Decode(bs) == Some(s) <==> Encode(s) == bs
  {
    if Decode(bs) == Some(s) {
      EncodeOfDecode(bs);
    }
    DecodeOfEncode(s);
  }

  // ---------------------------------------------------------------- byte offsets

  function ByteLen(s: string): nat {
    |Encode(s)|
  }

  lemma EncodeCons(s: string)
    requires s != ""
    ensures Encode(s) == EncodeChar(s[0]) + Encode(s[1..])
  {
  }

  lemma {:induction false} EncodeConcat(a: string, b: string)
    ensures Encode(a + b) == Encode(a) + Encode(b)
    decreases |a|
  {
    hide EncodeChar;
    if a == "" {
      assert a + b == b;
    } else {
      EncodeCons(a);
      EncodeCons(a + b);
      hide Encode;
      EncodeConcat(a[1..], b);
      assert (a + b)[0] == a[0] && (a + b)[1..] == a[1..] + b;
      Assoc(EncodeChar(a[0]), Encode(a[1..]), Encode(b));
    }
  }

  lemma EncodePrefix(s: string, i: nat)
    requires i <= |s|
    ensures Encode(s) == Encode(s[..i]) + Encode(s[i..])
  {
    hide Encode;
    EncodeConcat(s[..i], s[i..]);
    assert s == s[..i] + s[i..];
  }

  /** `str::is_char_boundary`, on the bytes. */
  predicate IsCharBoundary(s: string, offset: nat) {
    var bs := Encode(s);
    offset == 0 || offset == |bs| || (offset < |bs| && !IsContinuation(bs[offset]))
  }

  /** The number of whole characters before a byte offset. */
  function CharsBefore(s: string, offset: nat): (i: nat)
    requires IsCharBoundary(s, offset)
    ensures i <= |s| && ByteLen(s[..i]) == offset
    decreases |s|
  {
    if offset == 0 then 0
    else
      var k := |EncodeChar(s[0])|;
      assert s[0..1] == [s[0]];
      assert k <= offset by {
        assert forall i :: 1 <= i < k ==> IsContinuation(Encode(s)[i]);
      }
      var i := CharsBefore(s[1..], offset - k);
      assert s[..1 + i] == [s[0]] + s[1..][..i];
      1 + i
  }

  lemma {:induction false} ByteLenGrows(s: string, i: nat, j: nat)
    requires i <= j <= |s|
    ensures ByteLen(s[..i]) + (j - i) <= ByteLen(s[..j]) <= ByteLen(s)
    decreases j - i
  {
    EncodePrefix(s, j);
    if i >= j {
    } else {
      ByteLenGrows(s, i, j - 1);
      EncodeConcat(s[..j - 1], [s[j - 1]]);
      assert s[..j] == s[..j - 1] + [s[j - 1]];
      assert Encode([s[j - 1]]) == EncodeChar(s[j - 1]) + Encode("");
    }
  }

  /** Rust's byte-level notion of a boundary is exactly "the end of some prefix". */
  lemma BoundaryIffPrefix(s: string, offset: nat)
    ensures IsCharBoundary(s, offset) <==> exists i: nat :: i <= |s| && ByteLen(s[..i]) == offset
  {
    if i: nat :| i <= |s| && ByteLen(s[..i]) == offset {
      EncodePrefix(s, i);
      if i < |s| {
        assert Encode(s[i..])[0] == EncodeChar(s[i..][0])[0];
      } else {
        assert s[..i] == s;
      }
    }
    if IsCharBoundary(s, offset) {
      assert ByteLen(s[..CharsBefore(s, offset)]) == offset;
    }
  }

  lemma CharsBeforePrefix(s: string, i: nat)
    requires i <= |s|
    ensures IsCharBoundary(s, ByteLen(s[..i])) && CharsBefore(s, ByteLen(s[..i])) == i
  {
    BoundaryIffPrefix(s, ByteLen(s[..i]));
    var j := CharsBefore(s, ByteLen(s[..i]));
    if i < j {
      ByteLenGrows(s, i, j);
    } else if j < i {
      ByteLenGrows(s, j, i);
    }
  }

  /** `&s[..offset]` and `&s[offset..]`: Rust panics unless the offset is a boundary. */
  function SliceTo(s: string, offset: nat): (r: string)
    requires IsCharBoundary(s, offset)
  {
    s[..CharsBefore(s, offset)]
  }

  function SliceFrom(s: string, offset: nat): (r: string)
    requires IsCharBoundary(s, offset)
  {
    s[CharsBefore(s, offset)..]
  }
}
