/** The UTF-8 byte form of a Go string. A Go `string` is a byte sequence and
    `[]rune(msg)` decodes it; here a message is its sequence of runes (a Dafny
    `char` is a Unicode scalar value, which is what a rune decoded from valid
    UTF-8 is) and `Encode` gives back the bytes that `strings.Index` sees. */
module Utf8 {
  import opened Seqs

  newtype uint8 = x: int | 0 <= x < 0x100

  const NewlineByte: uint8 := 0x0A

  /** The one to four bytes that encode a rune; one byte exactly for ASCII. */
  function EncodeRune(c: char): (b: seq<uint8>)
    ensures 1 <= |b| <= 4
    ensures |b| == 1 <==> c as int < 0x80
  {
    var n := c as int;
    if n < 0x80 then
      [n as uint8]
    else if n < 0x800 then
      [(0xC0 + n / 0x40) as uint8, (0x80 + n % 0x40) as uint8]
    else if n < 0x1_0000 then
      [(0xE0 + n / 0x1000) as uint8, (0x80 + n / 0x40 % 0x40) as uint8,
       (0x80 + n % 0x40) as uint8]
    else
      [(0xF0 + n / 0x4_0000) as uint8, (0x80 + n / 0x1000 % 0x40) as uint8,
       (0x80 + n / 0x40 % 0x40) as uint8, (0x80 + n % 0x40) as uint8]
  }

  /** Lead and continuation bytes of a multi-byte form are all at least 0x80,
      so the byte 0x0A occurs only in the encoding of '\n'. */
  lemma EncodeRuneNewline(c: char)
    ensures NewlineByte in EncodeRune(c) <==> c == '\n'
  {
  }

  /** Every rune is in the ASCII range, i.e. takes one byte. */
  predicate IsAscii(s: string) {
    forall i :: 0 <= i < |s| ==> s[i] as int < 0x80
  }

  /** The UTF-8 encoding of a rune sequence: one to four bytes per rune. */
  function Encode(s: string): (b: seq<uint8>)
    ensures |s| <= |b| <= 4 * |s|
  {
    if |s| == 0 then [] else EncodeRune(s[0]) + Encode(s[1..])
  }

  /** ASCII text takes one byte per rune. */
  lemma {:induction false} AsciiEncodeLength(s: string)
    requires IsAscii(s)
    ensures |Encode(s)| == |s|
  {
    if |s| > 0 {
      AsciiEncodeLength(s[1..]);
    }
  }

  lemma {:induction false} EncodeAppend(a: string, b: string)
    ensures Encode(a + b) == Encode(a) + Encode(b)
  {
    if |a| == 0 {
      assert a + b == b;
    } else {
      assert (a + b)[0] == a[0] && (a + b)[1..] == a[1..] + b;
      EncodeAppend(a[1..], b);
    }
  }

  /** The byte offset `strings.Index` finds for "\n" is the byte length of
      the runes before the first newline rune, and -1 when there is none. */
  lemma {:induction false} NewlineOffsetIsByteLength(s: string)
    ensures IndexOf(Encode(s), NewlineByte) ==
      var k := IndexOf(s, '\n');
      if k < 0 then -1 else |Encode(s[..k])|
  {
    if |s| == 0 {
    } else if s[0] == '\n' {
      assert Encode(s)[0] == NewlineByte;
      assert s[..0] == [];
    } else {
      NewlineOffsetIsByteLength(s[1..]);
      var head, tail := EncodeRune(s[0]), Encode(s[1..]);
      assert Encode(s) == head + tail;
      EncodeRuneNewline(s[0]);
      IndexOfAfter(head, tail, NewlineByte);
      var k := IndexOf(s[1..], '\n');
      if k >= 0 {
        var line := s[..k + 1];
        assert line[0] == s[0] && line[1..] == s[1..][..k];
        assert Encode(line) == head + Encode(s[1..][..k]);
      }
    }
  }
}
