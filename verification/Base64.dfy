/** Base64 in ngx_string.c: sections 4 and 5 of RFC 4648. */
module Base64 {

  type Byte = bv8

  datatype Result = Ok(bytes: seq<Byte>) | Error

  const PAD: Byte := 0x3D           // '='
  const NONE: Byte := 77            // marks what is not in the alphabet

  /** The encoding tables: the standard alphabet, or the one for URLs. */
  function Digit(url: bool, v: Byte): (c: Byte)
    requires v < 64
    ensures c != PAD
  {
    if v < 26 then 0x41 + v
    else if v < 52 then 0x61 + (v - 26)
    else if v < 62 then 0x30 + (v - 52)
    else if v == 62 then (if url then 0x2D else 0x2B)
    else (if url then 0x5F else 0x2F)
  }

  /** The decoding tables. */
  function Value(url: bool, c: Byte): (v: Byte)
    ensures v < 64 || v == NONE
  {
    if 0x41 <= c <= 0x5A then c - 0x41
    else if 0x61 <= c <= 0x7A then c - 0x61 + 26
    else if 0x30 <= c <= 0x39 then c - 0x30 + 52
    else if c == (if url then 0x2D else 0x2B) then 62
    else if c == (if url then 0x5F else 0x2F) then 63
    else NONE
  }

  /** The two tables are inverse to each other. */
  lemma TablesInverse(url: bool, v: Byte, c: Byte)
    ensures v < 64 ==> Value(url, Digit(url, v)) == v
    ensures Value(url, c) != NONE ==> Digit(url, Value(url, c)) == c
  {
  }

  // ----- encoding

  // the four six-bit groups of three bytes
  function D1(a: Byte): (v: Byte) ensures v < 64 { (a >> 2) & 0x3F }
  function D2(a: Byte, b: Byte): (v: Byte) ensures v < 64 { ((a & 3) << 4) | (b >> 4) }
  function D3(b: Byte, c: Byte): (v: Byte) ensures v < 64 { ((b & 0x0F) << 2) | (c >> 6) }
  function D4(c: Byte): (v: Byte) ensures v < 64 { c & 0x3F }

  /** The four digits that hold three bytes. */
  function Four(url: bool, a: Byte, b: Byte, c: Byte): (d: seq<Byte>)
    ensures |d| == 4
  {
    [Digit(url, D1(a)), Digit(url, D2(a, b)), Digit(url, D3(b, c)), Digit(url, D4(c))]
  }

  function Pads(padding: bool, n: nat): seq<Byte> { if padding then seq(n, _ => PAD) else [] }

  function Encoded(s: seq<Byte>, url: bool, padding: bool): seq<Byte> {
    if |s| == 0 then []
    else if |s| == 1 then Four(url, s[0], 0, 0)[..2] + Pads(padding, 2)
    else if |s| == 2 then Four(url, s[0], s[1], 0)[..3] + Pads(padding, 1)
    else Four(url, s[0], s[1], s[2]) + Encoded(s[3..], url, padding)
  }

  /** The macros ngx_base64_encoded_length and ngx_base64_decoded_length. */
  function EncodedLength(n: nat): nat { (n + 2) / 3 * 4 }

  function DecodedLength(n: nat): nat { (n + 3) / 4 * 3 }

  /** Padded text has exactly the length of the macro; without padding it has a digit for every six bits. */
  lemma {:induction false} EncodedSize(s: seq<Byte>, url: bool)
    ensures |Encoded(s, url, true)| == EncodedLength(|s|)
    ensures |Encoded(s, url, false)| == (8 * |s| + 5) / 6
  {
    hide Four;
    if |s| > 2 {
      EncodedSize(s[3..], url);
    }
  }

  // ----- decoding

  // the three bytes of four six-bit groups
  function B1(u: Byte, v: Byte): Byte { (u << 2) | (v >> 4) }
  function B2(v: Byte, w: Byte): Byte { (v << 4) | (w >> 2) }
  function B3(w: Byte, x: Byte): Byte { (w << 6) | x }

  function Three(url: bool, s: seq<Byte>): (b: seq<Byte>)
    requires |s| == 4
    ensures |b| == 3
  {
    var u, v, w, x := Value(url, s[0]), Value(url, s[1]), Value(url, s[2]), Value(url, s[3]);
    [B1(u, v), B2(v, w), B3(w, x)]
  }

  /** The bytes held by digits that are all in the alphabet. */
  function Bytes(url: bool, s: seq<Byte>): seq<Byte>
    requires |s| % 4 != 1
  {
    if |s| == 0 then []
    else if |s| == 2 then Three(url, s + [0, 0])[..1]
    else if |s| == 3 then Three(url, s + [0])[..2]
    else Three(url, s[..4]) + Bytes(url, s[4..])
  }

  /** The text before the first padding character. */
  function Text(s: seq<Byte>): (t: seq<Byte>)
    ensures |t| <= |s|
  {
    if s == [] || s[0] == PAD then [] else [s[0]] + Text(s[1..])
  }

  predicate InAlphabet(url: bool, s: seq<Byte>) {
    forall c <- s :: Value(url, c) != NONE
  }

  function Decoded(s: seq<Byte>, url: bool): Result {
    var t := Text(s);
    if !InAlphabet(url, t) || |t| % 4 == 1 then Error else Ok(Bytes(url, t))
  }

  lemma {:induction false} BytesSize(url: bool, s: seq<Byte>)
    requires |s| % 4 != 1
    ensures |Bytes(url, s)| == |s| / 4 * 3 + if |s| % 4 == 0 then 0 else |s| % 4 - 1
  {
    hide Three;
    if |s| > 3 {
      BytesSize(url, s[4..]);
    }
  }

  /** What is decoded never exceeds the macro for the whole text. */
  lemma {:induction false} DecodedSize(s: seq<Byte>, url: bool)
    ensures Decoded(s, url).Ok? ==> |Decoded(s, url).bytes| <= DecodedLength(|s|)
  {
    if Decoded(s, url).Ok? {
      BytesSize(url, Text(s));
    }
  }

  // ----- round trips

  /** Three bytes through four digits and back. */
  lemma FourThree(url: bool, a: Byte, b: Byte, c: Byte)
    ensures InAlphabet(url, Four(url, a, b, c)) && PAD !in Four(url, a, b, c)
    ensures Three(url, Four(url, a, b, c)) == [a, b, c]
  {
    hide Digit, Value, D1, D2, D3, D4, B1, B2, B3;
    BitsBack(a, b, c);
    TablesInverse(url, D1(a), 0);
    TablesInverse(url, D2(a, b), 0);
    TablesInverse(url, D3(b, c), 0);
    TablesInverse(url, D4(c), 0);
  }

  lemma BitsBack(a: Byte, b: Byte, c: Byte)
    ensures B1(D1(a), D2(a, b)) == a && B2(D2(a, b), D3(b, c)) == b && B3(D3(b, c), D4(c)) == c
  {
  }

  lemma BitsOver(u: Byte, v: Byte, w: Byte, x: Byte)
    requires u < 64 && v < 64 && w < 64 && x < 64
    ensures D1(B1(u, v)) == u && D2(B1(u, v), B2(v, w)) == v && D3(B2(v, w), B3(w, x)) == w && D4(B3(w, x)) == x
    ensures (D2(B1(u, v), 0) == v <==> v & 0x0F == 0) && (D3(B2(v, w), 0) == w <==> w & 0x03 == 0)
  {
  }

  lemma TextEnds(d: seq<Byte>, n: nat)
    requires PAD !in d
    ensures Text(d + seq(n, _ => PAD)) == d
  {
    if d == [] {
      assert d + seq(n, _ => PAD) == seq(n, _ => PAD);
    } else {
      TextEnds(d[1..], n);
      assert (d + seq(n, _ => PAD))[1..] == d[1..] + seq(n, _ => PAD);
    }
  }

  /** The first byte depends on two digits only, the second on three. */
  lemma FirstOf(url: bool, s: seq<Byte>, t: seq<Byte>)
    requires |s| == |t| == 4 && s[..2] == t[..2]
    ensures Three(url, s)[0] == Three(url, t)[0]
    ensures s[2] == t[2] ==> Three(url, s)[1] == Three(url, t)[1]
  {
    assert s[..2][0] == s[0] && s[..2][1] == s[1] && t[..2][0] == t[0] && t[..2][1] == t[1];
  }

  /** `d` is text for the bytes `s`, with no padding. */
  ghost predicate Stands(url: bool, d: seq<Byte>, s: seq<Byte>) {
    PAD !in d && InAlphabet(url, d) && |d| % 4 != 1 && Bytes(url, d) == s
  }

  lemma {:induction false} StandsLast(url: bool, a: Byte, b: Byte)
    ensures Stands(url, Four(url, a, 0, 0)[..2], [a]) && Stands(url, Four(url, a, b, 0)[..3], [a, b])
  {
    hide Digit, Value, Four, Three;
    FourThree(url, a, 0, 0);
    FourThree(url, a, b, 0);
    FirstOf(url, Four(url, a, 0, 0), Four(url, a, 0, 0)[..2] + [0, 0]);
    FirstOf(url, Four(url, a, b, 0), Four(url, a, b, 0)[..3] + [0]);
  }

  lemma {:induction false} StandsJoin(url: bool, a: Byte, b: Byte, c: Byte, d: seq<Byte>, s: seq<Byte>)
    requires Stands(url, d, s)
    ensures Stands(url, Four(url, a, b, c) + d, [a, b, c] + s)
  {
    hide Digit, Value, Four, Three;
    FourThree(url, a, b, c);
    var e := Four(url, a, b, c) + d;
    assert e[..4] == Four(url, a, b, c) && e[4..] == d;
  }

  /** Encoding without padding gives text for `s`, to which padding adds what completes the last four. */
  lemma {:induction false} EncodedStands(s: seq<Byte>, url: bool)
    ensures var d := Encoded(s, url, false);
      Stands(url, d, s) && Encoded(s, url, true) == d + seq((3 - |s| % 3) % 3, _ => PAD)
  {
    hide Four, Stands;
    if |s| == 0 {
      StandsNone(url);
    } else if |s| <= 2 {
      StandsLast(url, s[0], if |s| == 2 then s[1] else 0);
      assert s == if |s| == 1 then [s[0]] else [s[0], s[1]];
      assert Encoded(s, url, false) == if |s| == 1 then Four(url, s[0], 0, 0)[..2] else Four(url, s[0], s[1], 0)[..3];
    } else {
      EncodedStands(s[3..], url);
      StandsJoin(url, s[0], s[1], s[2], Encoded(s[3..], url, false), s[3..]);
      assert s == [s[0], s[1], s[2]] + s[3..];
    }
  }

  lemma StandsNone(url: bool)
    ensures Stands(url, [], [])
  {
  }

  /** Decoding undoes encoding, with both alphabets, with and without padding. */
  lemma {:induction false} DecodeUndoesEncode(s: seq<Byte>, url: bool, padding: bool)
    ensures Decoded(Encoded(s, url, padding), url) == Ok(s)
  {
    hide Encoded, Bytes, Text, Value;
    EncodedStands(s, url);
    var d := Encoded(s, url, false);
    TextEnds(d, if padding then (3 - |s| % 3) % 3 else 0);
    assert d + seq(0, _ => PAD) == d;
  }

  /** The bits of the last digit that no byte uses are zero. */
  predicate Canonical(url: bool, d: seq<Byte>) {
    && (|d| % 4 == 2 ==> Value(url, d[|d| - 1]) & 0x0F == 0)
    && (|d| % 4 == 3 ==> Value(url, d[|d| - 1]) & 0x03 == 0)
  }

  lemma DigitOf(url: bool, x: Byte, c: Byte)
    requires x < 64 && Value(url, c) != NONE
    ensures Digit(url, x) == c <==> x == Value(url, c)
  {
    TablesInverse(url, x, c);
  }

  /** Four digits through three bytes and back. */
  lemma {:induction false} ThreeFour(url: bool, d: seq<Byte>)
    requires |d| == 4 && InAlphabet(url, d)
    ensures var b := Three(url, d); Four(url, b[0], b[1], b[2]) == d
  {
    hide Digit, Value, D1, D2, D3, D4, B1, B2, B3;
    var u, v, w, x := Value(url, d[0]), Value(url, d[1]), Value(url, d[2]), Value(url, d[3]);
    BitsOver(u, v, w, x);
    DigitOf(url, u, d[0]);
    DigitOf(url, v, d[1]);
    DigitOf(url, w, d[2]);
    DigitOf(url, x, d[3]);
  }

  lemma {:induction false} LastTwo(url: bool, d: seq<Byte>)
    requires |d| == 2 && InAlphabet(url, d)
    ensures Encoded(Bytes(url, d), url, false) == d <==> Canonical(url, d)
  {
    hide Digit, Value, D1, D2, D3, D4, B1, B2, B3;
    var u, v := Value(url, d[0]), Value(url, d[1]);
    BitsOver(u, v, 0, 0);
    DigitOf(url, u, d[0]);
    DigitOf(url, D2(B1(u, v), 0), d[1]);
    assert Bytes(url, d) == [B1(u, v)];
    assert Encoded([B1(u, v)], url, false) == [Digit(url, u), Digit(url, D2(B1(u, v), 0))];
  }

  lemma {:induction false} LastThree(url: bool, d: seq<Byte>)
    requires |d| == 3 && InAlphabet(url, d)
    ensures Encoded(Bytes(url, d), url, false) == d <==> Canonical(url, d)
  {
    hide Digit, Value, D1, D2, D3, D4, B1, B2, B3;
    var u, v, w := Value(url, d[0]), Value(url, d[1]), Value(url, d[2]);
    BitsOver(u, v, w, 0);
    DigitOf(url, u, d[0]);
    DigitOf(url, v, d[1]);
    DigitOf(url, D3(B2(v, w), 0), d[2]);
    assert Bytes(url, d) == [B1(u, v), B2(v, w)];
    assert Encoded([B1(u, v), B2(v, w)], url, false) == [Digit(url, u), Digit(url, v), Digit(url, D3(B2(v, w), 0))];
  }

  /** Encoding undoes decoding of unpadded text exactly when no unused bit of its last digit is set. */
  lemma {:induction false} EncodeUndoesDecode(url: bool, d: seq<Byte>)
    requires InAlphabet(url, d) && |d| % 4 != 1
    ensures Encoded(Bytes(url, d), url, false) == d <==> Canonical(url, d)
  {
    hide Digit, Value, Three, Four;
    if |d| == 0 {
    } else if |d| == 2 {
      LastTwo(url, d);
    } else if |d| == 3 {
      LastThree(url, d);
    } else {
      ThreeFour(url, d[..4]);
      EncodeUndoesDecode(url, d[4..]);
      var b := Three(url, d[..4]);
      assert Bytes(url, d) == b + Bytes(url, d[4..]) && (b + Bytes(url, d[4..]))[3..] == Bytes(url, d[4..]);
      assert Encoded(Bytes(url, d), url, false) == d[..4] + Encoded(Bytes(url, d[4..]), url, false);
      assert d == d[..4] + d[4..];
      assert |d| > 4 ==> d[4..][|d| - 5] == d[|d| - 1];
    }
  }

  // ----- the loops

  /** One round of the encoding loop. */
  method EncodeThree(dst: array<Byte>, d: nat, a: Byte, b: Byte, c: Byte, url: bool)
    requires d + 4 <= dst.Length
    modifies dst
    ensures dst[..d + 4] == old(dst[..d]) + Four(url, a, b, c) && dst[d + 4..] == old(dst[d + 4..])
  {
    hide Digit, D1, D2, D3, D4;
    dst[d] := Digit(url, D1(a));
    dst[d + 1] := Digit(url, D2(a, b));
    dst[d + 2] := Digit(url, D3(b, c));
    dst[d + 3] := Digit(url, D4(c));
  }

  lemma EncodedShort(s: seq<Byte>, url: bool, padding: bool)
    requires |s| <= 2
    ensures Encoded(s, url, padding) ==
      if |s| == 0 then []
      else if |s| == 1 then [Digit(url, D1(s[0])), Digit(url, D2(s[0], 0))] + if padding then [PAD, PAD] else []
      else [Digit(url, D1(s[0])), Digit(url, D2(s[0], s[1])), Digit(url, D3(s[1], 0))] + if padding then [PAD] else []
  {
    hide Digit, D1, D2, D3, D4;
  }

  /** What follows the encoding loop. */
  method EncodeRest(dst: array<Byte>, start: nat, s: seq<Byte>, url: bool, padding: bool) returns (d: nat)
    requires |s| <= 2 && start + |Encoded(s, url, padding)| <= dst.Length
    modifies dst
    ensures d == start + |Encoded(s, url, padding)|
    ensures dst[..d] == old(dst[..start]) + Encoded(s, url, padding) && dst[d..] == old(dst[d..])
  {
    hide Digit, D1, D2, D3, D4, Encoded, Four;
    EncodedShort(s, url, padding);
    d := start;
    if |s| > 0 {
      dst[d] := Digit(url, D1(s[0]));
      d := d + 1;
      if |s| == 1 {
        dst[d] := Digit(url, D2(s[0], 0));
        d := d + 1;
        if padding {
          dst[d] := PAD;
          d := d + 1;
        }
      } else {
        dst[d] := Digit(url, D2(s[0], s[1]));
        d := d + 1;
        dst[d] := Digit(url, D3(s[1], 0));
        d := d + 1;
      }
      if padding {
        dst[d] := PAD;
        d := d + 1;
      }
    }
  }

  lemma EncodedNext(src: seq<Byte>, s: nat, url: bool, padding: bool)
    requires s + 2 < |src|
    ensures Encoded(src[s..], url, padding) ==
      Four(url, src[s], src[s + 1], src[s + 2]) + Encoded(src[s + 3..], url, padding)
  {
    assert src[s..][3..] == src[s + 3..];
  }

  /** ngx_encode_base64_internal */
  method Encode(dst: array<Byte>, src: seq<Byte>, url: bool, padding: bool) returns (len: nat)
    requires |Encoded(src, url, padding)| <= dst.Length
    modifies dst
    ensures len == |Encoded(src, url, padding)| && dst[..len] == Encoded(src, url, padding)
    ensures dst[len..] == old(dst[len..])
  {
    hide Four, Encoded;
    var d, s := 0, 0;
    while |src| - s > 2
      invariant 0 <= s <= |src| && 0 <= d <= dst.Length
      invariant Encoded(src, url, padding) == dst[..d] + Encoded(src[s..], url, padding)
      invariant dst[d..] == old(dst[d..])
    {
      EncodedNext(src, s, url, padding);
      EncodeThree(dst, d, src[s], src[s + 1], src[s + 2], url);
      d, s := d + 4, s + 3;
    }
    len := EncodeRest(dst, d, src[s..], url, padding);
  }

  // ----- decoding

  /** The scan of ngx_decode_base64_internal: where the text ends, if it is all in the alphabet. */
  method Scan(src: seq<Byte>, url: bool) returns (ok: bool, len: nat)
    ensures ok <==> InAlphabet(url, Text(src))
    ensures ok ==> len == |Text(src)| && src[..len] == Text(src)
  {
    hide InAlphabet, Text, Value;
    TextNone(url);
    assert src[0..] == src && src[..0] == [];
    len := 0;
    while len < |src|
      invariant 0 <= len <= |src| && Text(src) == src[..len] + Text(src[len..])
      invariant InAlphabet(url, src[..len])
    {
      TextNext(src, len);
      if src[len] == PAD {
        assert src[..len] + [] == src[..len];
        return true, len;
      }
      if Value(url, src[len]) == NONE {
        NotInAlphabet(url, src[..len], src[len], Text(src[len + 1..]));
        return false, len;
      }
      MoreInAlphabet(url, src[..len], src[len]);
      assert src[..len + 1] == src[..len] + [src[len]];
      len := len + 1;
    }
    assert src[len..] == [] && src[..len] + [] == src[..len];
    ok := true;
  }

  lemma TextNone(url: bool)
    ensures Text([]) == [] && InAlphabet(url, [])
  {
  }

  lemma NotInAlphabet(url: bool, s: seq<Byte>, c: Byte, t: seq<Byte>)
    requires Value(url, c) == NONE
    ensures !InAlphabet(url, s + ([c] + t))
  {
    assert (s + ([c] + t))[|s|] == c;
  }

  lemma MoreInAlphabet(url: bool, s: seq<Byte>, c: Byte)
    requires InAlphabet(url, s) && Value(url, c) != NONE
    ensures InAlphabet(url, s + [c])
  {
  }

  lemma TextNext(src: seq<Byte>, n: nat)
    requires n < |src|
    ensures Text(src[n..]) == if src[n] == PAD then [] else [src[n]] + Text(src[n + 1..])
  {
    assert src[n..][1..] == src[n + 1..];
  }

  /** One round of the decoding loop. */
  method DecodeFour(dst: array<Byte>, d: nat, s: seq<Byte>, url: bool)
    requires |s| == 4 && d + 3 <= dst.Length
    modifies dst
    ensures dst[..d + 3] == old(dst[..d]) + Three(url, s) && dst[d + 3..] == old(dst[d + 3..])
  {
    hide Value, B1, B2, B3;
    dst[d] := B1(Value(url, s[0]), Value(url, s[1]));
    dst[d + 1] := B2(Value(url, s[1]), Value(url, s[2]));
    dst[d + 2] := B3(Value(url, s[2]), Value(url, s[3]));
  }

  /** What follows the decoding loop. */
  method DecodeRest(dst: array<Byte>, start: nat, s: seq<Byte>, url: bool) returns (d: nat)
    requires |s| < 4 && |s| != 1 && start + |Bytes(url, s)| <= dst.Length
    modifies dst
    ensures d == start + |Bytes(url, s)|
    ensures dst[..d] == old(dst[..start]) + Bytes(url, s) && dst[d..] == old(dst[d..])
  {
    hide Value, B1, B2, B3;
    d := start;
    if |s| > 1 {
      dst[d] := B1(Value(url, s[0]), Value(url, s[1]));
      d := d + 1;
    }
    if |s| > 2 {
      dst[d] := B2(Value(url, s[1]), Value(url, s[2]));
      d := d + 1;
    }
  }

  lemma BytesNext(url: bool, t: seq<Byte>, s: nat)
    requires |t| % 4 != 1 && s % 4 == 0 && s + 4 <= |t|
    ensures Bytes(url, t[s..]) == Three(url, t[s..s + 4]) + Bytes(url, t[s + 4..])
  {
    assert t[s..][..4] == t[s..s + 4] && t[s..][4..] == t[s + 4..];
  }

  /** The loop of ngx_decode_base64_internal, and what follows it. */
  method DecodeText(dst: array<Byte>, t: seq<Byte>, url: bool) returns (len: nat)
    requires |t| % 4 != 1 && |Bytes(url, t)| <= dst.Length
    modifies dst
    ensures len == |Bytes(url, t)| && dst[..len] == Bytes(url, t) && dst[len..] == old(dst[len..])
  {
    hide Value, Three, Bytes;
    var d, s := 0, 0;
    while |t| - s > 3
      invariant 0 <= s <= |t| && s % 4 == 0 && d <= dst.Length
      invariant Bytes(url, t) == dst[..d] + Bytes(url, t[s..])
      invariant dst[d..] == old(dst[d..])
    {
      BytesNext(url, t, s);
      DecodeFour(dst, d, t[s..s + 4], url);
      d, s := d + 3, s + 4;
    }
    len := DecodeRest(dst, d, t[s..], url);
  }

  /** ngx_decode_base64_internal */
  method Decode(dst: array<Byte>, src: seq<Byte>, url: bool) returns (ok: bool, len: nat)
    requires DecodedLength(|src|) <= dst.Length
    modifies dst
    ensures ok <==> Decoded(src, url).Ok?
    ensures ok ==> len <= dst.Length && dst[..len] == Decoded(src, url).bytes && dst[len..] == old(dst[len..])
    ensures !ok ==> dst[..] == old(dst[..])
  {
    hide Value, Three, Bytes, Text, InAlphabet;
    DecodedSize(src, url);
    var n;
    ok, n := Scan(src, url);
    if !ok || n % 4 == 1 {
      return false, 0;
    }
    len := DecodeText(dst, src[..n], url);
  }
}
