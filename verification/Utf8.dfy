/** UTF-8: the bytes of a text, and that they determine it. */
module Utf8 {
  type byte = x: int | 0 <= x < 256

  /** The bytes of one Unicode scalar value. */
  function EncodeChar(c: char): (r: seq<byte>)
    ensures 1 <= |r| <= 4
  {
    var n := c as int;
    if n < 0x80 then [n]
    else if n < 0x800 then [0xC0 + n / 64, 0x80 + n % 64]
    else if n < 0x1_0000 then [0xE0 + n / 4096, 0x80 + n / 64 % 64, 0x80 + n % 64]
    else [0xF0 + n / 0x4_0000, 0x80 + n / 4096 % 64, 0x80 + n / 64 % 64, 0x80 + n % 64]
  }

  function Encode(s: string): seq<byte> {
    if s == "" then [] else EncodeChar(s[0]) + Encode(s[1..])
  }

  function ByteLength(s: string): nat {
    |Encode(s)|
  }

  /** The first byte says how many bytes belong to the character. */
  function SizeOf(first: byte): nat {
    if first < 0x80 then 1 else if first < 0xE0 then 2 else if first < 0xF0 then 3 else 4
  }

  lemma FirstByteGivesSize(c: char)
    ensures SizeOf(EncodeChar(c)[0]) == |EncodeChar(c)|
  {
  }

  /** The scalar value that the bytes of one character stand for. */
  function Scalar(r: seq<int>): int
    requires 1 <= |r| <= 4
  {
    if |r| == 1 then r[0]
    else if |r| == 2 then (r[0] - 0xC0) * 64 + (r[1] - 0x80)
    else if |r| == 3 then ((r[0] - 0xE0) * 64 + (r[1] - 0x80)) * 64 + (r[2] - 0x80)
    else (((r[0] - 0xF0) * 64 + (r[1] - 0x80)) * 64 + (r[2] - 0x80)) * 64 + (r[3] - 0x80)
  }

  lemma DividedTwice(n: nat)
    ensures n / 4096 == n / 64 / 64
    ensures n / 0x4_0000 == n / 64 / 64 / 64
  {
  }

  lemma ScalarOfEncoded(c: char)
    ensures Scalar(EncodeChar(c)) == c as int
  {
    var n := c as int;
    DividedTwice(n);
    assert n == n / 64 * 64 + n % 64;
    assert n / 64 == n / 4096 * 64 + n / 64 % 64;
    assert n / 4096 == n / 0x4_0000 * 64 + n / 4096 % 64;
  }

  /** Where two byte streams that start with a character agree, both characters and what follows agree. */
  lemma FirstCharIsDetermined(c: char, x: seq<byte>, d: char, y: seq<byte>)
    requires EncodeChar(c) + x == EncodeChar(d) + y
    ensures c == d && x == y
  {
    var s := EncodeChar(c) + x;
    assert s == EncodeChar(d) + y;
    assert s[0] == EncodeChar(c)[0] && s[0] == EncodeChar(d)[0];
    FirstByteGivesSize(c);
    FirstByteGivesSize(d);
    var n := |EncodeChar(c)|;
    assert s[..n] == EncodeChar(c) && s[..n] == EncodeChar(d);
    assert s[n..] == x && s[n..] == y;
    ScalarOfEncoded(c);
    ScalarOfEncoded(d);
  }

  /** Texts with the same bytes are the same text. */
  lemma {:induction false} EncodeIsInjective(a: string, b: string)
    requires Encode(a) == Encode(b)
    ensures a == b
  {
    assert a != "" ==> |Encode(a)| > 0;
    assert b != "" ==> |Encode(b)| > 0;
    if a != "" {
      FirstCharIsDetermined(a[0], Encode(a[1..]), b[0], Encode(b[1..]));
      EncodeIsInjective(a[1..], b[1..]);
      assert a == [a[0]] + a[1..] && b == [b[0]] + b[1..];
    }
  }

  lemma {:induction false} EncodeConcat(a: string, b: string)
    ensures Encode(a + b) == Encode(a) + Encode(b)
  {
    if a == "" {
      assert a + b == b;
    } else {
      assert (a + b)[1..] == a[1..] + b;
      EncodeConcat(a[1..], b);
    }
  }

  predicate IsAscii(c: char) {
    c as int < 0x80
  }

  lemma {:induction false} ByteLengthBounds(s: string)
    ensures |s| <= ByteLength(s) <= 4 * |s|
    ensures ByteLength(s) == |s| <==> forall i :: 0 <= i < |s| ==> IsAscii(s[i])
  {
    if s != "" {
      ByteLengthBounds(s[1..]);
      assert forall i :: 1 <= i < |s| ==> s[i] == s[1..][i - 1];
      assert forall i :: 0 <= i < |s| - 1 ==> s[1..][i] == s[i + 1];
      assert |EncodeChar(s[0])| == 1 <==> IsAscii(s[0]);
    }
  }
}
