/** The UTF-8 encoding that String.getBytes(StandardCharsets.UTF_8) applies
    to private keys and passphrases, with a decoder as its partner. */
module Utf8 {
  import opened Common

  /** The one to four bytes that encode one Unicode scalar value. */
  function EncodeChar(c: char): (r: Bytes)
    ensures 1 <= |r| <= 4
    ensures (c as int < 0x80) <==> |r| == 1
  {
    var n := c as int;
    if n < 0x80 then [n as byte]
    else if n < 0x800 then [(0xC0 + n / 64) as byte, (0x80 + n % 64) as byte]
    else if n < 0x10000 then
      [(0xE0 + n / 4096) as byte, (0x80 + (n / 64) % 64) as byte, (0x80 + n % 64) as byte]
    else
      [(0xF0 + n / 262144) as byte, (0x80 + (n / 4096) % 64) as byte,
       (0x80 + (n / 64) % 64) as byte, (0x80 + n % 64) as byte]
  }

  function Encode(s: string): (r: Bytes)
    ensures |r| >= |s|
    ensures r == [] <==> s == []
  {
    if s == [] then [] else EncodeChar(s[0]) + Encode(s[1..])
  }

  /** How many bytes a sequence starting with `lead` takes; 0 for a byte
      that cannot start one. */
  function LeadLength(lead: byte): nat {
    if lead < 0x80 then 1
    else if 0xC2 <= lead < 0xE0 then 2
    else if 0xE0 <= lead < 0xF0 then 3
    else if 0xF0 <= lead < 0xF5 then 4
    else 0
  }

  predicate IsContinuation(b: byte) {
    0x80 <= b < 0xC0
  }

  predicate IsScalar(n: int) {
    0 <= n < 0xD800 || 0xE000 <= n < 0x110000
  }

  /** The scalar value of one complete, shortest-form sequence. */
  function DecodeChar(b: Bytes): Option<char>
    requires 1 <= |b| <= 4 && LeadLength(b[0]) == |b|
  {
    if exists i :: 1 <= i < |b| && !IsContinuation(b[i]) then None
    else
      var n :=
        if |b| == 1 then b[0] as int
        else if |b| == 2 then (b[0] as int - 0xC0) * 64 + (b[1] as int - 0x80)
        else if |b| == 3 then (b[0] as int - 0xE0) * 4096 + (b[1] as int - 0x80) * 64 + (b[2] as int - 0x80)
        else (b[0] as int - 0xF0) * 262144 + (b[1] as int - 0x80) * 4096
             + (b[2] as int - 0x80) * 64 + (b[3] as int - 0x80);
      var shortest :=
        if |b| == 1 then 0 else if |b| == 2 then 0x80 else if |b| == 3 then 0x800 else 0x10000;
      if shortest <= n && IsScalar(n) then Some(n as char) else None
  }

  /** The string a byte sequence encodes, or None when it is not UTF-8. */
  function Decode(b: Bytes): Option<string>
    decreases |b|
  {
    if b == [] then Some("")
    else
      var n := LeadLength(b[0]);
      if n == 0 || |b| < n then None
      else match DecodeChar(b[..n])
        case None => None
        case Some(c) =>
          match Decode(b[n..])
          case None => None
          case Some(rest) => Some([c] + rest)
  }

  lemma EncodeCharDecodes(c: char)
    ensures LeadLength(EncodeChar(c)[0]) == |EncodeChar(c)|
    ensures DecodeChar(EncodeChar(c)) == Some(c)
  {
    var n := c as int;
    if n < 0x80 {
    } else if n < 0x800 {
      TwoByteDecodes(c);
    } else if n < 0x10000 {
      ThreeByteDecodes(c);
    } else {
      FourByteDecodes(c);
    }
  }

  lemma TwoByteDecodes(c: char)
    requires 0x80 <= c as int < 0x800
    ensures LeadLength(EncodeChar(c)[0]) == 2
    ensures DecodeChar(EncodeChar(c)) == Some(c)
  {
    var n := c as int;
    var q, r := n / 64, n % 64;
    assert n == 64 * q + r && 0 <= r < 64;
    var b := EncodeChar(c);
    assert b == [(0xC0 + q) as byte, (0x80 + r) as byte];
    assert !(exists i :: 1 <= i < |b| && !IsContinuation(b[i]));
  }

  lemma ThreeByteDecodes(c: char)
    requires 0x800 <= c as int < 0x10000
    ensures LeadLength(EncodeChar(c)[0]) == 3
    ensures DecodeChar(EncodeChar(c)) == Some(c)
  {
    var n := c as int;
    var q, r := n / 64, n % 64;
    assert n == 64 * q + r && 0 <= r < 64;
    var q2, r2 := q / 64, q % 64;
    assert q == 64 * q2 + r2 && 0 <= r2 < 64;
    assert n / 4096 == q2;
    var b := EncodeChar(c);
    assert b == [(0xE0 + q2) as byte, (0x80 + r2) as byte, (0x80 + r) as byte];
    assert !(exists i :: 1 <= i < |b| && !IsContinuation(b[i]));
  }

  lemma FourByteDecodes(c: char)
    requires 0x10000 <= c as int
    ensures LeadLength(EncodeChar(c)[0]) == 4
    ensures DecodeChar(EncodeChar(c)) == Some(c)
  {
    var n := c as int;
    assert n < 0x110000;
    var q, r := n / 64, n % 64;
    assert n == 64 * q + r && 0 <= r < 64;
    var q2, r2 := q / 64, q % 64;
    assert q == 64 * q2 + r2 && 0 <= r2 < 64;
    var q3, r3 := q2 / 64, q2 % 64;
    assert q2 == 64 * q3 + r3 && 0 <= r3 < 64;
    assert n / 4096 == q2;
    assert n / 262144 == q3;
    var b := EncodeChar(c);
    assert b == [(0xF0 + q3) as byte, (0x80 + r3) as byte, (0x80 + r2) as byte, (0x80 + r) as byte];
    assert !(exists i :: 1 <= i < |b| && !IsContinuation(b[i]));
  }

  /** Decoding an encoded string gives the string back. */
  lemma {:induction false} DecodeEncode(s: string)
    ensures Decode(Encode(s)) == Some(s)
  {
    if s != [] {
      var head := EncodeChar(s[0]);
      var b := Encode(s);
      EncodeCharDecodes(s[0]);
      assert b == head + Encode(s[1..]);
      assert b[..|head|] == head;
      assert b[|head|..] == Encode(s[1..]);
      DecodeEncode(s[1..]);
      assert [s[0]] + s[1..] == s;
    }
  }
}
