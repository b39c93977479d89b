/** UTF-8 as section 3 of RFC 3629 defines it, and why a decodable slice is a substring. */
module Utf8 {
  import opened Options

  type Byte = b: int | 0 <= b < 256

  /** The octets of one Unicode scalar value. */
  function EncodeChar(c: char): (r: seq<Byte>)
    ensures 1 <= |r| <= 4 && IsLead(r[0]) && |r| == LeadLength(r[0])
    ensures forall i :: 1 <= i < |r| ==> !IsLead(r[i])
  {
    var n := c as int;
    if n < 0x80 then [n]
    else if n < 0x800 then [0xC0 + n / 64, 0x80 + n % 64]
    else if n < 0x1_0000 then [0xE0 + n / 64 / 64, 0x80 + n / 64 % 64, 0x80 + n % 64]
    else [0xF0 + n / 64 / 64 / 64, 0x80 + n / 64 / 64 % 64, 0x80 + n / 64 % 64, 0x80 + n % 64]
  }

  /** Anything but a continuation octet `10xxxxxx`. */
  predicate IsLead(b: Byte) {
    b < 0x80 || b >= 0xC0
  }

  function LeadLength(b: Byte): nat {
    if b < 0xC0 then 1 else if b < 0xE0 then 2 else if b < 0xF0 then 3 else 4
  }

  function Encode(s: string): seq<Byte> {
    if s == [] then [] else EncodeChar(s[0]) + Encode(s[1..])
  }

  /** The number spelled by the payload bits of the first octets. */
  function Assemble(b: seq<Byte>): int
    requires b != [] && |b| >= LeadLength(b[0])
  {
    var x: int := b[0];
    if LeadLength(b[0]) == 1 then x
    else if LeadLength(b[0]) == 2 then Pair(x - 0xC0, b[1] as int - 0x80)
    else if LeadLength(b[0]) == 3 then Pair(Pair(x - 0xE0, b[1] as int - 0x80), b[2] as int - 0x80)
    else Pair(Pair(Pair(x - 0xF0, b[1] as int - 0x80), b[2] as int - 0x80), b[3] as int - 0x80)
  }

  /** Six more bits. */
  function Pair(high: int, low: int): int {
    high * 64 + low
  }

  lemma PairInverse(high: int, low: int)
    requires 0 <= low < 64
    ensures Pair(high, low) / 64 == high && Pair(high, low) % 64 == low
  {
  }

  function CanonicalLength(n: int): nat {
    if n < 0x80 then 1 else if n < 0x800 then 2 else if n < 0x1_0000 then 3 else 4
  }

  /** The scalar value spelled by the first octets, refusing overlong forms, surrogates and stray octets. */
  function DecodeChar(b: seq<Byte>): Option<char> {
    if b == [] || !IsLead(b[0]) || |b| < LeadLength(b[0]) then None
    else if exists i :: 1 <= i < LeadLength(b[0]) && IsLead(b[i]) then None
    else
      var n := Assemble(b);
      if n < 0 || n >= 0x11_0000 || 0xD800 <= n < 0xE000 || LeadLength(b[0]) != CanonicalLength(n) then None
      else Some(n as char)
  }

  function Decode(b: seq<Byte>): Option<string> {
    if b == [] then Some("")
    else
      match DecodeChar(b)
      case None => None
      case Some(c) =>
        match Decode(b[LeadLength(b[0])..])
        case None => None
        case Some(rest) => Some([c] + rest)
  }

  lemma DecodeEncodedChar(c: char, rest: seq<Byte>)
    ensures DecodeChar(EncodeChar(c) + rest) == Some(c)
  {
    var b, n := EncodeChar(c) + rest, c as int;
    var k := |EncodeChar(c)|;
    assert forall i :: 0 <= i < k ==> b[i] == EncodeChar(c)[i];
    var m := n / 64;
    assert n == Pair(m, n % 64) && m == Pair(m / 64, m % 64) && m / 64 == Pair(m / 64 / 64, m / 64 % 64);
  }

  /** The octets of a decoded character, from the number they spell. */
  lemma Respell(c: char, x: int, y: int, z: int, w: int)
    requires 0 <= y < 64 && 0 <= z < 64 && 0 <= w < 64
    ensures c as int == Pair(x, w) ==> c as int / 64 == x && c as int % 64 == w
    ensures c as int == Pair(Pair(x, z), w) ==>
      c as int / 64 / 64 == x && c as int / 64 % 64 == z && c as int % 64 == w
    ensures c as int == Pair(Pair(Pair(x, y), z), w) ==>
      c as int / 64 / 64 / 64 == x && c as int / 64 / 64 % 64 == y && c as int / 64 % 64 == z && c as int % 64 == w
  {
    PairInverse(x, w);
    PairInverse(Pair(x, z), w);
    PairInverse(x, z);
    PairInverse(Pair(Pair(x, y), z), w);
    PairInverse(Pair(x, y), z);
    PairInverse(x, y);
  }

  lemma EncodeDecodedChar(b: seq<Byte>)
    requires DecodeChar(b).Some?
    ensures |b| >= LeadLength(b[0]) && EncodeChar(DecodeChar(b).value) == b[..LeadLength(b[0])]
  {
    hide DecodeChar;
    DecodedChar(b);
    var k, c := LeadLength(b[0]), DecodeChar(b).value;
    if k == 1 {
      assert b[..k] == [b[0]];
    } else if k == 2 {
      Respell(c, b[0] as int - 0xC0, 0, 0, b[1] as int - 0x80);
      assert b[..k] == [b[0], b[1]];
    } else if k == 3 {
      Respell(c, b[0] as int - 0xE0, 0, b[1] as int - 0x80, b[2] as int - 0x80);
      assert b[..k] == [b[0], b[1], b[2]];
    } else {
      Respell(c, b[0] as int - 0xF0, b[1] as int - 0x80, b[2] as int - 0x80, b[3] as int - 0x80);
      assert b[..k] == [b[0], b[1], b[2], b[3]];
    }
  }

  lemma DecodedChar(b: seq<Byte>)
    requires DecodeChar(b).Some?
    ensures b != [] && |b| >= LeadLength(b[0]) && IsLead(b[0])
    ensures forall i :: 1 <= i < LeadLength(b[0]) ==> !IsLead(b[i])
    ensures DecodeChar(b).value as int == Assemble(b) && LeadLength(b[0]) == CanonicalLength(Assemble(b))
  {
  }

  /** Decoding inverts encoding. */
  lemma {:induction false} DecodeEncode(s: string)
    ensures Decode(Encode(s)) == Some(s)
  {
    hide EncodeChar, DecodeChar;
    if s != [] {
      var tail := Encode(s[1..]);
      DecodeEncodedChar(s[0], tail);
      DecodeEncode(s[1..]);
      assert Encode(s)[|EncodeChar(s[0])|..] == tail;
      assert [s[0]] + s[1..] == s;
    }
  }

  /** Whatever decodes is the encoding of what it decodes to: there is one spelling per text. */
  lemma {:induction false} EncodeDecode(b: seq<Byte>)
    requires Decode(b).Some?
    ensures Encode(Decode(b).value) == b
  {
    hide EncodeChar, DecodeChar, Encode;
    if b == [] {
      EncodeNothing();
    } else {
      EncodeDecodedChar(b);
      var k := LeadLength(b[0]);
      EncodeDecode(b[k..]);
      EncodeCons(DecodeChar(b).value, Decode(b[k..]).value);
      assert b == b[..k] + b[k..];
    }
  }

  lemma EncodeNothing()
    ensures Encode("") == []
  {
  }

  lemma EncodeCons(c: char, rest: string)
    ensures Encode([c] + rest) == EncodeChar(c) + Encode(rest)
  {
    assert ([c] + rest)[1..] == rest;
  }

  lemma {:induction false} EncodeConcat(s: string, t: string)
    ensures Encode(s + t) == Encode(s) + Encode(t)
  {
    hide EncodeChar, Encode;
    if s == [] {
      EncodeNothing();
      assert s + t == t;
    } else {
      var c, rest := s[0], s[1..];
      EncodeConcat(rest, t);
      EncodeCons(c, rest);
      EncodeCons(c, rest + t);
      assert s == [c] + rest && s + t == [c] + (rest + t);
    }
  }

  /** Self-synchronisation: an octet that is not a continuation starts a character. */
  lemma {:induction false} Boundary(s: string, at: nat) returns (i: nat)
    requires at < |Encode(s)| && IsLead(Encode(s)[at])
    ensures i < |s| && |Encode(s[..i])| == at
  {
    hide EncodeChar;
    var head := EncodeChar(s[0]);
    if at == 0 {
      i := 0;
    } else {
      assert at >= |head|;
      assert Encode(s[1..])[at - |head|] == Encode(s)[at];
      var j := Boundary(s[1..], at - |head|);
      i := j + 1;
      assert s[..i][1..] == s[1..][..j];
    }
  }

  lemma HeadsAgree(c: char, x: seq<Byte>, d: char, y: seq<Byte>)
    requires EncodeChar(c) + x == EncodeChar(d) + y
    ensures c == d && x == y
  {
    hide EncodeChar, DecodeChar;
    DecodeEncodedChar(c, x);
    DecodeEncodedChar(d, y);
    var k := |EncodeChar(c)|;
    assert (EncodeChar(c) + x)[k..] == x && (EncodeChar(d) + y)[k..] == y;
  }

  /** No encoding is a prefix of another unless the texts are. */
  lemma {:induction false} PrefixFree(q: string, s: string, rest: seq<Byte>)
    requires Encode(s) == Encode(q) + rest
    ensures q <= s
  {
    hide EncodeChar;
    if q != [] {
      assert |Encode(s)| >= 1;
      assert Encode(q) + rest == EncodeChar(q[0]) + (Encode(q[1..]) + rest);
      HeadsAgree(s[0], Encode(s[1..]), q[0], Encode(q[1..]) + rest);
      PrefixFree(q[1..], s[1..], rest);
      assert q == [q[0]] + q[1..] && s == [s[0]] + s[1..];
    }
  }

  /** A nonempty slice of an encoding that decodes at all decodes to a substring of the text,
      which starts at exactly that byte offset. */
  lemma SliceIsSubstring(s: string, start: nat, end: nat, q: string) returns (i: nat)
    requires start < end <= |Encode(s)| && Decode(Encode(s)[start..end]) == Some(q)
    ensures i + |q| <= |s| && s[i..i + |q|] == q && |Encode(s[..i])| == start
  {
    hide EncodeChar, DecodeChar, Decode;
    var e := Encode(s);
    EncodeDecode(e[start..end]);
    assert Encode(q)[0] == e[start];
    assert q != [];
    i := Boundary(s, start);
    EncodeConcat(s[..i], s[i..]);
    assert s[..i] + s[i..] == s;
    assert e[start..] == Encode(s[i..]);
    assert e[start..] == e[start..end] + e[end..];
    PrefixFree(q, s[i..], e[end..]);
    assert s[i..][..|q|] == s[i..i + |q|];
  }
}
