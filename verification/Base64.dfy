/** The hand-written base64 decoder that recovers the bot's user id from a Discord token, against an
    encoder written from section 4 of RFC 4648. */
module Base64 {
  import opened Text
  import opened Utf8

  function Run(first: char, n: nat): seq<byte>
    requires first as int + n <= 0x80
  {
    seq(n, i requires 0 <= i < n => first as int + i)
  }

  /** A-Z, a-z, 0-9, '+', '/'. */
  const ALPHABET: seq<byte> := Run('A', 26) + Run('a', 26) + Run('0', 10) + [0x2B, 0x2F]

  const PAD: byte := 0x3D

  // ---------------------------------------------------------------- machine bits

  function Shl(n: nat, k: nat): nat {
    if k == 0 then n else 2 * Shl(n, k - 1)
  }

  function Shr(n: nat, k: nat): nat {
    if k == 0 then n else Shr(n, k - 1) / 2
  }

  function Or(a: nat, b: nat): nat
    decreases a + b
  {
    if a == 0 && b == 0 then 0
    else 2 * Or(a / 2, b / 2) + (if a % 2 == 1 || b % 2 == 1 then 1 else 0)
  }

  function And(a: nat, b: nat): nat {
    if a == 0 || b == 0 then 0
    else 2 * And(a / 2, b / 2) + (if a % 2 == 1 && b % 2 == 1 then 1 else 0)
  }

  /** `as u8`. */
  function AsU8(n: nat): byte {
    n % 0x100
  }

  lemma ShiftsScale(n: nat)
    ensures Shl(n, 2) == 4 * n && Shl(n, 4) == 16 * n && Shl(n, 6) == 64 * n
    ensures Shr(n, 2) == n / 4 && Shr(n, 4) == n / 16
  {
    assert Shl(n, 0) == n && Shl(n, 1) == 2 * n && Shl(n, 2) == 4 * n && Shl(n, 3) == 8 * n;
    assert Shl(n, 4) == 16 * n && Shl(n, 5) == 32 * n;
    assert Shr(n, 0) == n && Shr(n, 1) == n / 2 && Shr(n, 2) == n / 4 && Shr(n, 3) == n / 8;
  }

  lemma {:induction false} OrZero(n: nat)
    ensures Or(n, 0) == n
  {
    if n == 0 {
    } else {
      OrZero(n / 2);
    }
  }

  lemma {:induction false} OrDisjoint(hi: nat, lo: nat, k: nat)
    requires lo < Shl(1, k)
    ensures Or(Shl(hi, k), lo) == Shl(hi, k) + lo
    decreases k
  {
    if k == 0 {
      OrZero(hi);
    } else {
      OrDisjoint(hi, lo / 2, k - 1);
      assert Shl(hi, k) / 2 == Shl(hi, k - 1) && Shl(hi, k) % 2 == 0;
    }
  }

  lemma MaskStep(n: nat, mask: nat)
    requires mask % 2 == 1
    ensures And(n, mask) == 2 * And(n / 2, mask / 2) + n % 2
  {
  }

  lemma ZeroMask(n: nat)
    ensures And(n, 0) == 0
  {
  }

  lemma Mask2(n: nat)
    ensures And(n, 0x3) == n % 4
  {
    hide And;
    MaskStep(n, 0x3);
    MaskStep(n / 2, 0x1);
    ZeroMask(n / 4);
  }

  lemma HalfRemainder(h: nat, b: nat, d: nat)
    requires b < 2 && (d == 4 || d == 8)
    ensures (2 * h + b) % (2 * d) == 2 * (h % d) + b
  {
    var q, r := h / d, h % d;
    if d == 4 {
      assert 2 * h + b == 8 * q + (2 * r + b);
    } else {
      assert 2 * h + b == 16 * q + (2 * r + b);
    }
  }

  lemma Mask3(n: nat)
    ensures And(n, 0x7) == n % 8
  {
    hide And;
    MaskStep(n, 0x7);
    Mask2(n / 2);
    HalfRemainder(n / 2, n % 2, 4);
  }

  lemma Mask4(n: nat)
    ensures And(n, 0xF) == n % 16
  {
    hide And;
    MaskStep(n, 0xF);
    Mask3(n / 2);
    HalfRemainder(n / 2, n % 2, 8);
  }

  // ---------------------------------------------------------------- the decoder, as a function

  function PositionFrom(b: byte, i: nat): (r: Option<nat>)
    requires i <= |ALPHABET|
    ensures r.Some? ==> i <= r.value < |ALPHABET| && ALPHABET[r.value] == b
    decreases |ALPHABET| - i
  {
    if i == |ALPHABET| then None
    else if ALPHABET[i] == b then Some(i)
    else PositionFrom(b, i + 1)
  }

  function Sextet(b: byte): (r: Option<nat>)
    ensures r.Some? ==> r.value < 64
  {
    if b == PAD then Some(0) else PositionFrom(b, 0)
  }

  function Packed0(v0: nat, v1: nat): nat {
    Or(Shl(v0, 2), Shr(v1, 4))
  }

  function Packed1(v1: nat, v2: nat): nat {
    Or(Shl(And(v1, 0xF), 4), Shr(v2, 2))
  }

  function Packed2(v2: nat, v3: nat): nat {
    Or(Shl(And(v2, 0x3), 6), v3)
  }

  /** Up to three bytes from one group of four. */
  function GroupBytes(g: seq<byte>, v: seq<nat>): seq<byte>
    requires |g| == 4 && |v| == 4
  {
    [AsU8(Packed0(v[0], v[1]))]
    + (if g[2] != PAD then [AsU8(Packed1(v[1], v[2]))] else [])
    + (if g[3] != PAD then [AsU8(Packed2(v[2], v[3]))] else [])
  }

  function Sextets(g: seq<byte>): (r: Option<seq<nat>>)
    ensures r.Some? ==> |r.value| == |g|
  {
    if g == [] then Some([])
    else
      match Sextets(g[..|g| - 1])
      case None => None
      case Some(v) =>
        match Sextet(g[|g| - 1])
        case None => None
        case Some(x) => Some(v + [x])
  }

  function Prepend(front: seq<byte>, r: Option<seq<byte>>): Option<seq<byte>> {
    match r
    case None => None
    case Some(rest) => Some(front + rest)
  }

  function DecodeGroups(bs: seq<byte>): Option<seq<byte>> {
    if |bs| < 4 then Some([])
    else
      match Sextets(bs[..4])
      case None => None
      case Some(v) =>
        Prepend(GroupBytes(bs[..4], v), DecodeGroups(bs[4..]))
  }

  function Repad(bs: seq<byte>): seq<byte> {
    if |bs| % 4 == 2 then bs + [PAD, PAD] else if |bs| % 4 == 3 then bs + [PAD] else bs
  }

  function DecodeText(input: string): Option<string> {
    match DecodeGroups(Repad(Encode(input)))
    case None => None
    case Some(bytes) => Decode(bytes)
  }

  // ---------------------------------------------------------------- the decoder, as it runs

  lemma PrependAssoc(a: seq<byte>, b: seq<byte>, r: Option<seq<byte>>)
    ensures Prepend(a, Prepend(b, r)) == Prepend(a + b, r)
    ensures Prepend([], r) == r
  {
    if r.Some? {
      assert a + (b + r.value) == a + b + r.value;
      assert [] + r.value == r.value;
    }
  }

  lemma {:induction false} SextetsFail(g: seq<byte>, i: nat)
    requires i < |g| && Sextet(g[i]).None?
    ensures Sextets(g).None?
    decreases |g|
  {
    if i >= |g| - 1 {
    } else {
      SextetsFail(g[..|g| - 1], i);
    }
  }

  lemma SextetsSnoc(g: seq<byte>, i: nat)
    requires i < |g|
    ensures Sextets(g[..i + 1]) ==
              match Sextets(g[..i])
              case None => None
              case Some(v) => (match Sextet(g[i]) case None => None case Some(x) => Some(v + [x]))
    ensures Sextets(g[..0]) == Some([])
  {
    assert g[..i + 1][..i] == g[..i];
  }

  /** One turn of the decoder. */
  lemma DecodeOneMore(chars: seq<byte>, at: nat)
    requires at + 4 <= |chars|
    ensures DecodeGroups(chars[at..]) ==
              match Sextets(chars[at..at + 4])
              case None => None
              case Some(v) => Prepend(GroupBytes(chars[at..at + 4], v), DecodeGroups(chars[at + 4..]))
  {
    assert chars[at..][..4] == chars[at..at + 4] && chars[at..][4..] == chars[at + 4..];
  }

  lemma DecodeFails(bytes: seq<byte>)
    ensures Prepend(bytes, None) == None
  {
  }

  lemma DecodeRest(chars: seq<byte>, at: nat, bytes: seq<byte>)
    requires at <= |chars| < at + 4
    ensures Prepend(bytes, DecodeGroups(chars[at..])) == Some(bytes)
  {
    assert bytes + [] == bytes;
  }

  method Base64Decode(input: string) returns (r: Option<string>)
    ensures r == DecodeText(input)
  {
    hide DecodeGroups, Sextets, Sextet, GroupBytes, Prepend, Encode;
    var chars := Encode(input);
    if |chars| % 4 == 2 {
      chars := chars + [PAD, PAD];
    } else if |chars| % 4 == 3 {
      chars := chars + [PAD];
    }
    var bytes: seq<byte> := [];
    var at := 0;
    assert chars == Repad(Encode(input)) && chars[0..] == chars;
    PrependAssoc([], [], DecodeGroups(chars));
    while at < |chars|
      invariant at <= |chars|
      invariant DecodeGroups(chars) == Prepend(bytes, DecodeGroups(chars[at..]))
    {
      if |chars| - at < 4 {
        break;
      }
      var chunk := chars[at..at + 4];
      DecodeOneMore(chars, at);
      SextetsSnoc(chunk, 0);
      var v: seq<nat> := [];
      for i := 0 to 4
        invariant Sextets(chunk[..i]) == Some(v) && |v| == i
      {
        var x := Sextet(chunk[i]);
        if x.None? {
          SextetsFail(chunk, i);
          DecodeFails(bytes);
          return None;
        }
        SextetsSnoc(chunk, i);
        v := v + [x.value];
      }
      assert chunk[..4] == chunk;
      PrependAssoc(bytes, GroupBytes(chunk, v), DecodeGroups(chars[at + 4..]));
      bytes := bytes + GroupBytes(chunk, v);
      at := at + 4;
    }
    DecodeRest(chars, at, bytes);
    r := Decode(bytes);
  }

  // ---------------------------------------------------------------- RFC 4648, section 4

  function Digits(a: nat, b: nat): (r: seq<byte>)
    requires a < 64 && b < 64
    ensures |r| == 2
  {
    [ALPHABET[a], ALPHABET[b]]
  }

  function EncodeBase64(bs: seq<byte>, padded: bool): seq<byte> {
    if bs == [] then []
    else if |bs| == 1 then
      Digits(bs[0] / 4, bs[0] % 4 * 16) + (if padded then [PAD, PAD] else [])
    else if |bs| == 2 then
      Digits(bs[0] / 4, bs[0] % 4 * 16 + bs[1] / 16) + [ALPHABET[bs[1] % 16 * 4]] + (if padded then [PAD] else [])
    else
      Digits(bs[0] / 4, bs[0] % 4 * 16 + bs[1] / 16)
      + Digits(bs[1] % 16 * 4 + bs[2] / 64, bs[2] % 64)
      + EncodeBase64(bs[3..], padded)
  }

  // ---------------------------------------------------------------- the alphabet

  /** The alphabet of section 4 of RFC 4648, and its padding. */
  lemma AlphabetByRange(i: nat)
    requires i < 64
    ensures |ALPHABET| == 64 && PAD == '=' as int
    ensures ALPHABET[i] ==
              if i < 26 then 0x41 + i else if i < 52 then 0x61 + (i - 26)
              else if i < 62 then 0x30 + (i - 52) else if i == 62 then 0x2B else 0x2F
  {
  }

  lemma {:induction false} PositionFromFinds(i: nat, from: nat)
    requires from <= i < 64
    ensures PositionFrom(ALPHABET[i], from) == Some(i)
    decreases i - from
  {
    AlphabetByRange(i);
    AlphabetByRange(from);
    if from >= i {
    } else {
      PositionFromFinds(i, from + 1);
    }
  }

  lemma SextetOfDigit(i: nat)
    requires i < 64
    ensures Sextet(ALPHABET[i]) == Some(i)
    ensures ALPHABET[i] < 0x80 && ALPHABET[i] != PAD && ALPHABET[i] != '.' as int
  {
    AlphabetByRange(i);
    PositionFromFinds(i, 0);
  }

  // ---------------------------------------------------------------- one group

  lemma OrFields(hi: nat, low: nat, k: nat, scale: nat)
    requires (k, scale) in {(2, 4), (4, 16), (6, 64)} && low < scale
    ensures Or(Shl(hi, k), low) == scale * hi + low
  {
    ShiftsScale(1);
    ShiftsScale(hi);
    OrDisjoint(hi, low, k);
  }

  lemma Packed(a: nat, b: nat, c: nat, d: nat)
    requires a < 64 && b < 64 && c < 64 && d < 64
    ensures Packed0(a, b) == 4 * a + b / 16
    ensures Packed1(b, c) == 16 * (b % 16) + c / 4
    ensures Packed2(c, d) == 64 * (c % 4) + d
  {
    hide And, Or, Shl, Shr;
    ShiftsScale(b);
    ShiftsScale(c);
    Mask4(b);
    Mask2(c);
    OrFields(a, b / 16, 2, 4);
    OrFields(b % 16, c / 4, 4, 16);
    OrFields(c % 4, d, 6, 64);
  }

  /** The arithmetic of one group, for any four sextets, canonical or not: the shifted and masked
      values are the three bytes of their 24 bits, so `as u8` drops nothing. */
  lemma NoBitLost(v: seq<nat>)
    requires |v| == 4 && forall i :: 0 <= i < 4 ==> v[i] < 64
    ensures var x, y, z := Packed0(v[0], v[1]), Packed1(v[1], v[2]), Packed2(v[2], v[3]);
            && x < 0x100 && y < 0x100 && z < 0x100
            && x * 0x1_0000 + y * 0x100 + z == v[0] * 0x4_0000 + v[1] * 0x1000 + v[2] * 0x40 + v[3]
  {
    Packed(v[0], v[1], v[2], v[3]);
    hide Packed0, Packed1, Packed2;
    assert v[1] == 16 * (v[1] / 16) + v[1] % 16 && v[2] == 4 * (v[2] / 4) + v[2] % 4;
  }

  lemma GroupBytesOf(g: seq<byte>, v: seq<nat>, x: byte, y: byte, z: byte)
    requires |g| == 4 && |v| == 4
    requires Packed0(v[0], v[1]) == x && Packed1(v[1], v[2]) == y && Packed2(v[2], v[3]) == z
    ensures GroupBytes(g, v) == [x] + (if g[2] != PAD then [y] else []) + (if g[3] != PAD then [z] else [])
  {
  }

  /** What one group decodes to: the three bytes of its 24 bits, the second unless the third character is
      padding, and the third unless the fourth is. */
  lemma GroupIs(g: seq<byte>, v: seq<nat>) returns (x: byte, y: byte, z: byte)
    requires |g| == 4 && |v| == 4 && forall i :: 0 <= i < 4 ==> v[i] < 64
    ensures x * 0x1_0000 + y * 0x100 + z == v[0] * 0x4_0000 + v[1] * 0x1000 + v[2] * 0x40 + v[3]
    ensures GroupBytes(g, v) == [x] + (if g[2] != PAD then [y] else []) + (if g[3] != PAD then [z] else [])
  {
    hide Packed0, Packed1, Packed2, GroupBytes;
    NoBitLost(v);
    x, y, z := Packed0(v[0], v[1]), Packed1(v[1], v[2]), Packed2(v[2], v[3]);
    GroupBytesOf(g, v, x, y, z);
  }

  /** The encoder's six-bit digits give the three bytes back. */
  lemma GroupArithmetic(x: byte, y: byte, z: byte)
    ensures Packed0(x / 4, x % 4 * 16 + y / 16) == x
    ensures Packed1(x % 4 * 16 + y / 16, y % 16 * 4 + z / 64) == y
    ensures Packed2(y % 16 * 4 + z / 64, z % 64) == z
  {
    Packed(x / 4, x % 4 * 16 + y / 16, y % 16 * 4 + z / 64, z % 64);
    hide Packed0, Packed1, Packed2;
  }

  lemma {:induction false} SextetsAre(g: seq<byte>, v: seq<nat>)
    requires |v| == |g| && forall i :: 0 <= i < |g| ==> Sextet(g[i]) == Some(v[i])
    ensures Sextets(g) == Some(v)
    decreases |g|
  {
    if g == [] {
    } else {
      SextetsAre(g[..|g| - 1], v[..|g| - 1]);
      assert v == v[..|g| - 1] + [v[|g| - 1]];
    }
  }

  // ---------------------------------------------------------------- decoding inverts encoding

  /** Three bytes as four digits. */
  function Quad(x: byte, y: byte, z: byte): (g: seq<byte>)
    ensures |g| == 4
  {
    [ALPHABET[x / 4], ALPHABET[x % 4 * 16 + y / 16], ALPHABET[y % 16 * 4 + z / 64], ALPHABET[z % 64]]
  }

  /** Four digits with the last `pads` replaced by padding. */
  function Padded(q: seq<byte>, pads: nat): (g: seq<byte>)
    requires |q| == 4 && pads <= 2
    ensures |g| == 4
  {
    [q[0], q[1], if pads == 2 then PAD else q[2], if pads >= 1 then PAD else q[3]]
  }

  function QuadValues(x: byte, y: byte, z: byte): (v: seq<nat>)
    ensures |v| == 4
  {
    [x / 4, x % 4 * 16 + y / 16, y % 16 * 4 + z / 64, z % 64]
  }

  lemma QuadDigits(x: byte, y: byte, z: byte)
    ensures var q, v := Quad(x, y, z), QuadValues(x, y, z);
            && (forall i :: 0 <= i < 4 ==> Sextet(q[i]) == Some(v[i]))
            && q[2] != PAD && q[3] != PAD
  {
    SextetOfDigit(x / 4);
    SextetOfDigit(x % 4 * 16 + y / 16);
    SextetOfDigit(y % 16 * 4 + z / 64);
    SextetOfDigit(z % 64);
  }

  lemma PaddedSextets(q: seq<byte>, v: seq<nat>, pads: nat)
    requires |q| == 4 && |v| == 4 && pads <= 2
    requires forall i :: 0 <= i < 4 ==> Sextet(q[i]) == Some(v[i])
    requires (pads >= 1 ==> v[3] == 0) && (pads == 2 ==> v[2] == 0)
    requires q[2] != PAD && q[3] != PAD
    ensures Sextets(Padded(q, pads)) == Some(v)
    ensures Padded(q, pads)[2] == PAD <==> pads == 2
    ensures Padded(q, pads)[3] == PAD <==> pads >= 1
  {
    SextetsAre(Padded(q, pads), v);
  }

  function Front(x: byte, y: byte, z: byte, n: nat): seq<byte> {
    [x] + (if n > 1 then [y] else []) + (if n > 2 then [z] else [])
  }

  lemma UnpackQuad(g: seq<byte>, v: seq<nat>, x: byte, y: byte, z: byte)
    requires |g| == 4 && v == QuadValues(x, y, z)
    ensures GroupBytes(g, v) == [x] + (if g[2] != PAD then [y] else []) + (if g[3] != PAD then [z] else [])
  {
    GroupArithmetic(x, y, z);
    GroupBytesOf(g, v, x, y, z);
  }

  lemma DecodeOneGroup(g: seq<byte>)
    requires |g| == 4 && Sextets(g).Some?
    ensures DecodeGroups(g) == Some(GroupBytes(g, Sextets(g).value))
  {
    assert g[..4] == g && g[4..] == [];
    var b := GroupBytes(g, Sextets(g).value);
    assert b + [] == b;
  }

  lemma DecodeQuad(x: byte, y: byte, z: byte, pads: nat)
    requires pads <= 2 && (pads >= 1 ==> z == 0) && (pads == 2 ==> y == 0)
    ensures DecodeGroups(Padded(Quad(x, y, z), pads)) == Some(Front(x, y, z, 3 - pads))
    ensures var g := Padded(Quad(x, y, z), pads);
            Sextets(g).Some? && GroupBytes(g, Sextets(g).value) == Front(x, y, z, 3 - pads)
  {
    hide Sextets, Sextet, DecodeGroups, GroupBytes, Quad;
    var q, v := Quad(x, y, z), QuadValues(x, y, z);
    QuadDigits(x, y, z);
    PaddedSextets(q, v, pads);
    var g := Padded(q, pads);
    UnpackQuad(g, v, x, y, z);
    DecodeOneGroup(g);
  }

  lemma OneByteTail(x: byte, padded: bool)
    ensures EncodeBase64([x], true) == Padded(Quad(x, 0, 0), 2)
    ensures Repad(EncodeBase64([x], padded)) == EncodeBase64([x], true)
  {
    var q := Quad(x, 0, 0);
    assert Digits(x / 4, x % 4 * 16) == q[..2];
  }

  lemma TwoByteTail(x: byte, y: byte, padded: bool)
    ensures EncodeBase64([x, y], true) == Padded(Quad(x, y, 0), 1)
    ensures Repad(EncodeBase64([x, y], padded)) == EncodeBase64([x, y], true)
  {
    var q := Quad(x, y, 0);
    assert Digits(x / 4, x % 4 * 16 + y / 16) == q[..2];
  }

  lemma EncodedTail(bs: seq<byte>, padded: bool)
    requires |bs| == 1 || |bs| == 2
    ensures Repad(EncodeBase64(bs, padded)) == EncodeBase64(bs, true) && |EncodeBase64(bs, true)| == 4
    ensures DecodeGroups(EncodeBase64(bs, true)) == Some(bs)
  {
    hide DecodeGroups, Sextets, GroupBytes, Sextet, EncodeBase64, Quad, Padded, Repad;
    if |bs| == 1 {
      assert bs == [bs[0]];
      OneByteTail(bs[0], padded);
      DecodeQuad(bs[0], 0, 0, 2);
      assert Front(bs[0], 0, 0, 1) == bs;
    } else {
      assert bs == [bs[0], bs[1]];
      TwoByteTail(bs[0], bs[1], padded);
      DecodeQuad(bs[0], bs[1], 0, 1);
      assert Front(bs[0], bs[1], 0, 2) == bs;
    }
  }

  lemma RepadAfterGroup(g: seq<byte>, later: seq<byte>)
    requires |g| == 4
    ensures Repad(g + later) == g + Repad(later)
  {
  }

  lemma FirstGroup(bs: seq<byte>, padded: bool)
    requires |bs| >= 3
    ensures EncodeBase64(bs, padded) == Quad(bs[0], bs[1], bs[2]) + EncodeBase64(bs[3..], padded)
    ensures var g := Quad(bs[0], bs[1], bs[2]);
            Sextets(g).Some? && GroupBytes(g, Sextets(g).value) == bs[..3]
  {
    var g := Quad(bs[0], bs[1], bs[2]);
    DecodeQuad(bs[0], bs[1], bs[2], 0);
    assert Padded(g, 0) == g;
    assert Front(bs[0], bs[1], bs[2], 3) == bs[..3];
  }

  lemma {:induction false} DecodeOfEncode64(bs: seq<byte>, padded: bool)
    ensures Repad(EncodeBase64(bs, padded)) == EncodeBase64(bs, true)
    ensures DecodeGroups(EncodeBase64(bs, true)) == Some(bs)
    decreases |bs|
  {
    if 1 <= |bs| <= 2 {
      EncodedTail(bs, padded);
    } else if |bs| >= 3 {
      var g, later := Quad(bs[0], bs[1], bs[2]), EncodeBase64(bs[3..], true);
      DecodeOfEncode64(bs[3..], padded);
      FirstGroup(bs, padded);
      FirstGroup(bs, true);
      RepadAfterGroup(g, EncodeBase64(bs[3..], padded));
      assert (g + later)[..4] == g && (g + later)[4..] == later;
      assert bs == bs[..3] + bs[3..];
    }
  }

  // ---------------------------------------------------------------- as text

  predicate IsAscii(bs: seq<byte>) {
    forall i :: 0 <= i < |bs| ==> bs[i] < 0x80
  }

  /** ASCII bytes as the text they encode. */
  function Ascii(bs: seq<byte>): (s: string)
    requires IsAscii(bs)
  {
    seq(|bs|, i requires 0 <= i < |bs| => bs[i] as char)
  }

  lemma {:induction false} AsciiBytes(bs: seq<byte>)
    requires IsAscii(bs)
    ensures Encode(Ascii(bs)) == bs
    decreases |bs|
  {
    if bs == [] {
    } else {
      AsciiBytes(bs[1..]);
      assert Ascii(bs)[1..] == Ascii(bs[1..]);
    }
  }

  lemma {:induction false} EncodedIsAscii(bs: seq<byte>, padded: bool)
    ensures IsAscii(EncodeBase64(bs, padded))
    ensures '.' as int !in EncodeBase64(bs, padded)
    decreases |bs|
  {
    forall i: nat | i < 64
      ensures ALPHABET[i] < 0x80 && ALPHABET[i] != '.' as int
    {
      SextetOfDigit(i);
    }
    if |bs| < 3 {
    } else {
      EncodedIsAscii(bs[3..], padded);
    }
  }

  /** Decoding the RFC 4648 encoding of any bytes, padded or not, gives the text those bytes are the
      UTF-8 of, and nothing when they are not UTF-8. */
  lemma DecodeTextOfEncoded(bs: seq<byte>, padded: bool)
    ensures IsAscii(EncodeBase64(bs, padded))
    ensures DecodeText(Ascii(EncodeBase64(bs, padded))) == Decode(bs)
  {
    EncodedIsAscii(bs, padded);
    AsciiBytes(EncodeBase64(bs, padded));
    DecodeOfEncode64(bs, padded);
  }

  /** One character too many is not an error: it is dropped without even being looked up. */
  lemma {:induction false} DanglingByteIgnored(bs: seq<byte>, extra: byte)
    requires |bs| % 4 == 0
    ensures DecodeGroups(Repad(bs + [extra])) == DecodeGroups(bs)
    decreases |bs|
  {
    var all := bs + [extra];
    assert Repad(all) == all;
    hide Sextets, GroupBytes;
    if bs == [] {
    } else {
      assert all[..4] == bs[..4] && all[4..] == bs[4..] + [extra];
      assert Repad(all[4..]) == all[4..];
      DanglingByteIgnored(bs[4..], extra);
    }
  }

  // ---------------------------------------------------------------- malformed input

  ghost predicate Foreign(b: byte) {
    b != PAD && b !in ALPHABET
  }

  lemma {:induction false} PositionFromMisses(b: byte, i: nat)
    requires i <= |ALPHABET|
    ensures PositionFrom(b, i).None? <==> b !in ALPHABET[i..]
    decreases |ALPHABET| - i
  {
    if i >= |ALPHABET| {
    } else {
      PositionFromMisses(b, i + 1);
      assert ALPHABET[i..] == [ALPHABET[i]] + ALPHABET[i + 1..];
    }
  }

  lemma SextetMisses(b: byte)
    ensures Sextet(b).None? <==> Foreign(b)
  {
    PositionFromMisses(b, 0);
    assert ALPHABET[0..] == ALPHABET;
  }

  lemma {:induction false} SextetsMiss(g: seq<byte>)
    ensures Sextets(g).None? <==> exists i :: 0 <= i < |g| && Foreign(g[i])
    decreases |g|
  {
    hide Sextet, Foreign;
    if g == [] {
    } else {
      SextetsMiss(g[..|g| - 1]);
      SextetMisses(g[|g| - 1]);
    }
  }

  /** Decoding fails exactly when a byte in some complete group of four is neither padding nor a
      digit; padding in the middle is no error. */
  lemma {:induction false} RejectsExactly(bs: seq<byte>)
    ensures DecodeGroups(bs).None? <==> exists i :: 0 <= i < |bs| / 4 * 4 && Foreign(bs[i])
    decreases |bs|
  {
    hide Sextets, Foreign, GroupBytes;
    if |bs| < 4 {
    } else {
      var g, later := bs[..4], bs[4..];
      SextetsMiss(g);
      RejectsExactly(later);
      assert |later| / 4 * 4 == |bs| / 4 * 4 - 4;
      if i :| 0 <= i < |bs| / 4 * 4 && Foreign(bs[i]) {
        assert if i < 4 then Foreign(g[i]) else Foreign(later[i - 4]);
      }
      if i :| 0 <= i < |later| / 4 * 4 && Foreign(later[i]) {
        assert Foreign(bs[i + 4]);
      }
    }
  }

  // ---------------------------------------------------------------- the bot's user id

  method BotUserIdFromToken(token: string) returns (id: Option<string>)
    ensures id == DecodeText(Split(token, ".")[0])
  {
    var part := Split(token, ".")[0];
    id := Base64Decode(part);
  }

  /** A token is the encoded id, alone or followed by a dot and anything. */
  ghost predicate TokenFor(token: string, id: string, padded: bool) {
    && IsAscii(EncodeBase64(Encode(id), padded))
    && var part := Ascii(EncodeBase64(Encode(id), padded));
       token == part || exists suffix :: token == part + "." + suffix
  }

  /** Every token of an id yields that id. */
  lemma TokenYieldsId(token: string, id: string, padded: bool)
    requires TokenFor(token, id, padded)
    ensures DecodeText(Split(token, ".")[0]) == Some(id)
  {
    var part := Ascii(EncodeBase64(Encode(id), padded));
    EncodedIsAscii(Encode(id), padded);
    DecodeTextOfEncoded(Encode(id), padded);
    DecodeOfEncode(id);
    assert '.' !in part;
    if token == part {
      FindChar(part, '.');
    } else {
      var suffix :| token == part + "." + suffix;
      CharSeparable(part, '.');
      SeparableSplit(part, suffix, ".");
    }
  }
}
