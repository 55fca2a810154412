/** Texts as the bytes they are stored in. */
module Utf8 {
  import opened Scanning

  type Byte = b: int | 0 <= b < 256

  /** Section 3 of RFC 3629. */
  function EncodeChar(c: char): (r: seq<Byte>)
    ensures 1 <= |r| <= 4 && (c as int < 128 ==> |r| == 1)
  {
    var n := c as int;
    if n < 0x80 then [n]
    else if n < 0x800 then [0xC0 + n / 64, 0x80 + n % 64]
    else if n < 0x1_0000 then [0xE0 + n / 4096, 0x80 + n / 64 % 64, 0x80 + n % 64]
    else [0xF0 + n / 262144, 0x80 + n / 4096 % 64, 0x80 + n / 64 % 64, 0x80 + n % 64]
  }

  function Encode(s: string): seq<Byte>
  {
    if s == [] then [] else EncodeChar(s[0]) + Encode(s[1..])
  }

  lemma {:induction false} EncodeConcat(a: string, b: string)
    ensures Encode(a + b) == Encode(a) + Encode(b)
    decreases a
  {
    if a == [] {
      assert a + b == b;
    } else {
      assert (a + b)[1..] == a[1..] + b;
      EncodeConcat(a[1..], b);
    }
  }

  lemma EncodeSplit(s: string, i: nat)
    requires i <= |s|
    ensures var n := |Encode(s[..i])|;
      n <= |Encode(s)| && Encode(s)[..n] == Encode(s[..i]) && Encode(s)[n..] == Encode(s[i..])
  {
    assert s == s[..i] + s[i..];
    EncodeConcat(s[..i], s[i..]);
  }

  /** `str::len`. */
  function Size(s: string): nat { |Encode(s)| }

  lemma SizeMeasures()
    ensures Measures(Size)
    ensures forall c: char :: c as int < 128 ==> Size([c]) == 1
  {
    forall a, b ensures Size(a + b) == Size(a) + Size(b) {
      EncodeConcat(a, b);
    }
    forall c: char | c as int < 128 ensures Size([c]) == 1 {
      assert Encode([c]) == EncodeChar(c) + Encode([c][1..]) && [c][1..] == [];
    }
  }
}
