/** UTF-8 (RFC 3629), as far as needed to show that the bytes of a text determine the text. */
module Utf8 {
  import opened Crc

  function Continuation(n: nat): byte {
    0x80 + n % 64
  }

  function EncodeChar(c: char): (b: seq<byte>)
    ensures 1 <= |b| <= 4
  {
    var n := c as int;
    if n < 0x80 then [n]
    else if n < 0x800 then [0xC0 + n / 64, Continuation(n)]
    else if n < 0x1_0000 then [0xE0 + n / 4096, Continuation(n / 64), Continuation(n)]
    else [0xF0 + n / 262144, Continuation(n / 4096), Continuation(n / 64), Continuation(n)]
  }

  function Encode(s: string): seq<byte> {
    if s == [] then [] else EncodeChar(s[0]) + Encode(s[1..])
  }

  /** Every character takes the fewest bytes (section 3 of RFC 3629). */
  lemma FewestBytes(c: char)
    ensures |EncodeChar(c)| == 1 <==> c < '\U{80}'
    ensures |EncodeChar(c)| <= 2 <==> c < '\U{800}'
    ensures |EncodeChar(c)| <= 3 <==> c < '\U{10000}'
  {
  }

  /** The length announced by a leading byte. */
  function LengthOf(lead: byte): nat {
    if lead < 0xC0 then 1 else if lead < 0xE0 then 2 else if lead < 0xF0 then 3 else 4
  }

  /** The code point spelled by the bytes of one character. */
  function CodeOf(b: seq<byte>): int
    requires 1 <= |b| <= 4
  {
    var lead: int := b[0];
    if |b| == 1 then lead
    else if |b| == 2 then (lead - 0xC0) * 64 + Rest(b[1])
    else if |b| == 3 then (lead - 0xE0) * 4096 + Rest(b[1]) * 64 + Rest(b[2])
    else (lead - 0xF0) * 262144 + Rest(b[1]) * 4096 + Rest(b[2]) * 64 + Rest(b[3])
  }

  function Rest(b: byte): int {
    var n: int := b;
    n - 0x80
  }

  lemma CharDecodes(c: char)
    ensures CodeOf(EncodeChar(c)) == c as int
    ensures LengthOf(EncodeChar(c)[0]) == |EncodeChar(c)|
  {
    var n := c as int;
    assert n == n / 64 * 64 + n % 64;
    assert n / 64 == n / 4096 * 64 + n / 64 % 64;
    assert n / 4096 == n / 262144 * 64 + n / 4096 % 64;
  }

  /** Two characters followed by anything can be told apart byte by byte. */
  lemma FirstCharIsUnique(c: char, d: char, s: seq<byte>, t: seq<byte>)
    requires EncodeChar(c) + s == EncodeChar(d) + t
    ensures c == d && s == t
  {
    hide EncodeChar, CodeOf, LengthOf;
    CharDecodes(c);
    CharDecodes(d);
    var a, b := EncodeChar(c), EncodeChar(d);
    assert a[0] == (a + s)[0] == (b + t)[0] == b[0];
    assert a == (a + s)[..|a|] && b == (b + t)[..|b|];
    assert s == (a + s)[|a|..] && t == (b + t)[|b|..];
    assert c as int == d as int;
  }

  lemma {:induction false} EncodeIsInjective(s: string, t: string)
    requires Encode(s) == Encode(t)
    ensures s == t
    decreases |s|
  {
    hide EncodeChar;
    if s != [] && t != [] {
      FirstCharIsUnique(s[0], t[0], Encode(s[1..]), Encode(t[1..]));
      EncodeIsInjective(s[1..], t[1..]);
      assert s == [s[0]] + s[1..] && t == [t[0]] + t[1..];
    }
  }
}
