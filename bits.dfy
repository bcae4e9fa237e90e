/** Bit strings as the compressor handles them: Python strings of the
    characters '0' and '1', the `"{0:08b}"` header format, the padding rule
    of `__pad_encoded_text`, and the grouping into bytes of `__get_byte_array`. */
module Bits {

  /** One element of a `bytearray`. */
  newtype byte = b: int | 0 <= b < 256

  /** Every character of `s` is a binary digit. */
  predicate IsBits(s: string) {
    forall i :: 0 <= i < |s| ==> s[i] == '0' || s[i] == '1'
  }

  function Pow2(n: nat): nat {
    if n == 0 then 1 else 2 * Pow2(n - 1)
  }

  function BitValue(b: char): nat { if b == '1' then 1 else 0 }

  function BitChar(v: nat): char { if v % 2 == 1 then '1' else '0' }

  /** `int(s, 2)`: the big-endian value of a string of binary digits. */
  function BitsValue(s: string): (v: nat)
    requires IsBits(s)
    ensures v < Pow2(|s|)
  {
    if s == [] then 0 else 2 * BitsValue(s[..|s| - 1]) + BitValue(s[|s| - 1])
  }

  /** The binary numeral of `n` with no leading zeros (`bin(n)[2:]`). */
  function BinaryDigits(n: nat): (r: string)
    ensures IsBits(r) && |r| >= 1
  {
    if n < 2 then [BitChar(n)] else BinaryDigits(n / 2) + [BitChar(n)]
  }

  /** `k` zero bits. */
  function Zeros(k: nat): (r: string)
    ensures |r| == k
    ensures forall i :: 0 <= i < k ==> r[i] == '0'
  {
    if k == 0 then [] else Zeros(k - 1) + "0"
  }

  /** `"{0:08b}".format(n)`: the binary numeral of `n`, left-filled with zeros
      to at least eight digits. */
  function Format08b(n: nat): (r: string)
    ensures IsBits(r) && |r| >= 8
    ensures n < 256 ==> |r| == 8
  {
    var digits := BinaryDigits(n);
    var s := if |digits| < 8 then Zeros(8 - |digits|) + digits else digits;
    if n < 256 then
      assert Pow2(8) == 256;
      BinaryDigitsLength(n, 8);
      s
    else s
  }

  lemma {:induction false} BinaryDigitsValue(n: nat)
    ensures BitsValue(BinaryDigits(n)) == n
  {
    if n >= 2 {
      BinaryDigitsValue(n / 2);
      var r := BinaryDigits(n);
      assert r[..|r| - 1] == BinaryDigits(n / 2);
    }
  }

  lemma {:induction false} BinaryDigitsLength(n: nat, k: nat)
    requires 1 <= k && n < Pow2(k)
    ensures |BinaryDigits(n)| <= k
  {
    if n >= 2 {
      BinaryDigitsLength(n / 2, k - 1);
    }
  }

  lemma {:induction false} ZerosNoValue(k: nat)
    ensures IsBits(Zeros(k)) && BitsValue(Zeros(k)) == 0
  {
    if k > 0 {
      ZerosNoValue(k - 1);
      assert Zeros(k)[..k - 1] == Zeros(k - 1);
    }
  }

  lemma {:induction false} ZerosValue(k: nat, s: string)
    requires IsBits(s)
    ensures IsBits(Zeros(k) + s)
    ensures BitsValue(Zeros(k) + s) == BitsValue(s)
  {
    ZerosNoValue(k);
    BitsConcat(Zeros(k), s);
    var z := Zeros(k) + s;
    if s == [] {
      assert z == Zeros(k);
    } else {
      var t := s[..|s| - 1];
      ZerosValue(k, t);
      assert z[..|z| - 1] == Zeros(k) + t;
      assert z[|z| - 1] == s[|s| - 1];
    }
  }

  /** The header format writes every pad count 0..255 in exactly eight bits,
      and `int(_, 2)` reads the count back. */
  lemma Format08bSpec(n: nat)
    requires n < 256
    ensures |Format08b(n)| == 8 && IsBits(Format08b(n))
    ensures BitsValue(Format08b(n)) == n
  {
    assert Pow2(8) == 256;
    BinaryDigitsLength(n, 8);
    BinaryDigitsValue(n);
    var digits := BinaryDigits(n);
    if |digits| < 8 {
      ZerosValue(8 - |digits|, digits);
    }
  }

  /** Strings of binary digits of one length are equal when their values are. */
  lemma {:induction false} BitsValueInjective(a: string, b: string)
    requires IsBits(a) && IsBits(b) && |a| == |b|
    requires BitsValue(a) == BitsValue(b)
    ensures a == b
  {
    if a != [] {
      var a', b' := a[..|a| - 1], b[..|b| - 1];
      assert a[|a| - 1] == b[|b| - 1];
      BitsValueInjective(a', b');
      assert a == a' + [a[|a| - 1]] && b == b' + [b[|b| - 1]];
    }
  }

  /** Reading eight bits as a number and formatting it with `"{0:08b}"`
      gives back the same eight bits. */
  lemma Format08bOfBits(b: string)
    requires IsBits(b) && |b| == 8
    ensures Format08b(BitsValue(b)) == b
  {
    assert Pow2(8) == 256;
    Format08bSpec(BitsValue(b));
    BitsValueInjective(Format08b(BitsValue(b)), b);
  }

  /** `extra_padding` of `__pad_encoded_text`. */
  function PadCount(n: nat): int { 8 - n % 8 }

  /** What `__pad_encoded_text` returns: the pad count as an eight-bit header,
      the text, and as many zeros as the count says. */
  function Padded(text: string): string {
    Format08b(PadCount(|text|)) + text + Zeros(PadCount(|text|))
  }

  /** The padding contract: the pad count is 1..8 and is 8 exactly when the
      text is already a whole number of bytes; the result is a whole number
      of bytes; its first byte reads as the pad count; the text follows
      unchanged; the rest is zeros. */
  lemma PaddedSpec(text: string)
    requires IsBits(text)
    ensures 1 <= PadCount(|text|) <= 8
    ensures PadCount(|text|) == 8 <==> |text| % 8 == 0
    ensures |Padded(text)| == 8 + |text| + PadCount(|text|)
    ensures |Padded(text)| % 8 == 0
    ensures IsBits(Padded(text))
    ensures BitsValue(Padded(text)[..8]) == PadCount(|text|)
    ensures Padded(text)[8..8 + |text|] == text
    ensures forall i :: 8 + |text| <= i < |Padded(text)| ==> Padded(text)[i] == '0'
  {
    PadCountSpec(|text|);
    PaddedLength(text);
    PaddedContent(text);
  }

  lemma PaddedLength(text: string)
    ensures |Padded(text)| == 8 + |text| + PadCount(|text|)
    ensures |Padded(text)| % 8 == 0
  {
    var n, extra := |text|, PadCount(|text|);
    PadCountSpec(n);
    Format08bSpec(extra);
    assert |Padded(text)| == 8 + n + extra;
  }

  lemma PaddedContent(text: string)
    requires IsBits(text)
    ensures IsBits(Padded(text))
    ensures BitsValue(Padded(text)[..8]) == PadCount(|text|)
    ensures Padded(text)[8..8 + |text|] == text
    ensures forall i :: 8 + |text| <= i < |Padded(text)| ==> Padded(text)[i] == '0'
  {
    var extra := PadCount(|text|);
    PadCountSpec(|text|);
    var f, z := Format08b(extra), Zeros(extra);
    var p := Padded(text);
    Format08bSpec(extra);
    BitsConcat(f, text);
    BitsConcat(f + text, z);
    assert p[..8] == f;
    assert p[8..8 + |text|] == text;
    forall i | 8 + |text| <= i < |p| ensures p[i] == '0' {
      assert p[i] == z[i - 8 - |text|];
    }
  }

  lemma PadCountSpec(n: nat)
    ensures 1 <= PadCount(n) <= 8
    ensures PadCount(n) == 8 <==> n % 8 == 0
    ensures (8 + n + PadCount(n)) % 8 == 0
  {
    var q := n / 8;
    assert n == 8 * q + n % 8;
    assert 8 + n + PadCount(n) == 8 * (q + 2);
  }

  lemma BitsConcat(a: string, b: string)
    requires IsBits(a) && IsBits(b)
    ensures IsBits(a + b)
  {
    forall i | 0 <= i < |a + b| ensures (a + b)[i] == '0' || (a + b)[i] == '1' {
      if i >= |a| {
        assert (a + b)[i] == b[i - |a|];
      }
    }
  }

  /** The inverse of padding a decoder would apply: read the header, drop it
      and drop as many trailing bits as it says. */
  function Unpad(bits: string): (r: string)
    requires IsBits(bits) && |bits| >= 8
    requires BitsValue(bits[..8]) <= |bits| - 8
    ensures |r| == |bits| - 8 - BitsValue(bits[..8])
  {
    bits[8..|bits| - BitsValue(bits[..8])]
  }

  /** Padding, then unpadding, returns the text; a pad count of 8 drops a whole
      trailing byte. */
  lemma UnpadPadded(text: string)
    requires IsBits(text)
    ensures |Padded(text)| >= 8 && IsBits(Padded(text))
    ensures BitsValue(Padded(text)[..8]) <= |Padded(text)| - 8
    ensures Unpad(Padded(text)) == text
  {
    PaddedSpec(text);
  }

  /** The bytes `__get_byte_array` appends for a string whose length is a
      multiple of eight: `int(text[i:i+8], 2)` for i = 0, 8, 16, ... */
  function Group(bits: string): seq<byte>
    requires IsBits(bits) && |bits| % 8 == 0
  {
    if bits == [] then []
    else
      assert Pow2(8) == 256;
      [BitsValue(bits[..8]) as byte] + Group(bits[8..])
  }

  /** The bit string of a byte sequence, eight bits per byte, big-endian. */
  function BytesToBits(bs: seq<byte>): string {
    if bs == [] then [] else Format08b(bs[0] as nat) + BytesToBits(bs[1..])
  }

  /** Byte `i` of the grouping is the value of bits 8i..8i+7. */
  lemma {:induction false} GroupSpec(bits: string)
    requires IsBits(bits) && |bits| % 8 == 0
    ensures |Group(bits)| == |bits| / 8
    ensures forall i :: 0 <= i < |bits| / 8 ==>
      Group(bits)[i] as int == BitsValue(bits[8 * i..8 * i + 8])
  {
    if bits != [] {
      var rest := bits[8..];
      GroupSpec(rest);
      forall i | 0 <= i < |bits| / 8
        ensures Group(bits)[i] as int == BitsValue(bits[8 * i..8 * i + 8])
      {
        if i > 0 {
          assert rest[8 * (i - 1)..8 * (i - 1) + 8] == bits[8 * i..8 * i + 8];
        }
      }
    }
  }

  lemma {:induction false} BytesToBitsIsBits(bs: seq<byte>)
    ensures IsBits(BytesToBits(bs)) && |BytesToBits(bs)| == 8 * |bs|
  {
    if bs != [] {
      BytesToBitsIsBits(bs[1..]);
      Format08bSpec(bs[0] as nat);
    }
  }

  /** Writing the grouped bytes out eight bits each gives back the bit string. */
  lemma {:induction false} BytesToBitsGroup(bits: string)
    requires IsBits(bits) && |bits| % 8 == 0
    ensures BytesToBits(Group(bits)) == bits
  {
    if bits != [] {
      assert Pow2(8) == 256;
      BytesToBitsGroup(bits[8..]);
      Format08bOfBits(bits[..8]);
      assert bits == bits[..8] + bits[8..];
    }
  }

  lemma BytesToBitsAligned(bs: seq<byte>)
    ensures IsBits(BytesToBits(bs)) && |BytesToBits(bs)| % 8 == 0
  {
    BytesToBitsIsBits(bs);
    var n := |bs|;
    assert |BytesToBits(bs)| == 8 * n;
  }

  lemma GroupCons(b: string, more: string)
    requires IsBits(b) && |b| == 8 && IsBits(more) && |more| % 8 == 0
    ensures IsBits(b + more) && |b + more| % 8 == 0
    ensures BitsValue(b) < 256
    ensures Group(b + more) == [BitsValue(b) as byte] + Group(more)
  {
    BitsConcat(b, more);
    assert Pow2(8) == 256;
    assert (b + more)[..8] == b && (b + more)[8..] == more;
  }

  /** Grouping the bits of a byte sequence gives back the bytes. */
  lemma {:induction false} GroupBytesToBits(bs: seq<byte>)
    ensures IsBits(BytesToBits(bs)) && |BytesToBits(bs)| % 8 == 0
    ensures Group(BytesToBits(bs)) == bs
  {
    BytesToBitsAligned(bs);
    if bs != [] {
      var b, more := Format08b(bs[0] as nat), BytesToBits(bs[1..]);
      GroupBytesToBits(bs[1..]);
      Format08bSpec(bs[0] as nat);
      GroupCons(b, more);
      assert [bs[0]] + bs[1..] == bs;
    }
  }
}
