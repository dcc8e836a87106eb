/** AbstractPacket.java: folding bytes into ints and hexadecimal strings, on Java's signed bytes. */
module JavaPacket {
  import opened Bytes
  import opened HexText

  /** b & 0xFF */
  function Unsigned(b: int8): byte {
    b % 0x100
  }

  /** The signed bytes of a stream. */
  function Signed(bs: seq<byte>): (js: seq<int8>)
    ensures |js| == |bs|
    ensures forall i :: 0 <= i < |bs| ==> js[i] == SignedByte(bs[i]) && Unsigned(js[i]) == bs[i]
  {
    seq(|bs|, i requires 0 <= i < |bs| => SignedByte(bs[i]))
  }

  // ---- Integers ----

  /** Bitwise or. */
  function Or(x: nat, y: nat): nat
    decreases x + y
  {
    if x == 0 && y == 0 then 0
    else (if x % 2 == 1 || y % 2 == 1 then 1 else 0) + 2 * Or(x / 2, y / 2)
  }

  /** x << k, without a width. */
  function ShiftLeft(x: nat, k: nat): nat {
    if k == 0 then x else 2 * ShiftLeft(x, k - 1)
  }

  /** Where the shift has cleared the low bits, or adds. */
  lemma {:induction false} OrAdds(x: nat, b: nat, k: nat)
    requires b < ShiftLeft(1, k)
    ensures Or(ShiftLeft(x, k), b) == ShiftLeft(x, k) + b
    decreases k
  {
    if k == 0 {
      OrZero(x);
    } else {
      OrAdds(x, b / 2, k - 1);
    }
  }

  lemma {:induction false} OrZero(x: nat)
    ensures Or(x, 0) == x
    decreases x
  {
    if x > 0 {
      OrZero(x / 2);
    }
  }

  /** `value <<= 8; value |= b & 0xFF` on the 32 bits of an int. */
  function ShiftIn(value: int32, b: int8): int32 {
    Wrap32(Or(value * 0x100 % 0x1_0000_0000, Unsigned(b)))
  }

  lemma ShiftEight(x: nat)
    ensures ShiftLeft(x, 8) == 0x100 * x
  {
    assert ShiftLeft(x, 1) == 2 * x;
    assert ShiftLeft(x, 3) == 4 * ShiftLeft(x, 1);
    assert ShiftLeft(x, 5) == 4 * ShiftLeft(x, 3);
    assert ShiftLeft(x, 7) == 4 * ShiftLeft(x, 5);
  }

  /** The shift leaves the low eight bits clear and the low 24 bits of the value above them. */
  lemma ShiftedWord(value: int, low: nat)
    requires low == value % 0x100_0000
    ensures value * 0x100 % 0x1_0000_0000 == 0x100 * low
  {
    var k := (value - low) / 0x100_0000;
    assert value * 0x100 == 0x100 * low + k * 0x1_0000_0000;
    ModAdd(0x100 * low, k);
  }

  lemma WrapSum(n: int, u: int)
    ensures Wrap32(n % 0x1_0000_0000 + u) == Wrap32(n + u)
  {
    assert (n % 0x1_0000_0000 + u) % 0x1_0000_0000 == (n + u) % 0x1_0000_0000 by {
      ModAdd(n % 0x1_0000_0000 + u, n / 0x1_0000_0000);
    }
  }

  lemma ShiftInAdds(value: int32, b: int8)
    ensures ShiftIn(value, b) == Wrap32(value * 0x100 + Unsigned(b))
  {
    hide Or, ShiftLeft, Wrap32, Unsigned;
    var low: nat := value % 0x100_0000;
    ShiftedWord(value, low);
    WrapSum(value * 0x100, Unsigned(b));
    ShiftEight(low);
    ShiftEight(1);
    OrAdds(low, Unsigned(b), 8);
  }

  /** The number the bytes spell, least significant first, the last byte signed. */
  function ValueLe(bs: seq<int8>): int
    requires bs != []
  {
    if |bs| == 1 then bs[0] else Unsigned(bs[0]) + 0x100 * ValueLe(bs[1..])
  }

  /** The number the bytes spell, most significant first, the first byte signed. */
  function ValueBe(bs: seq<int8>): int
    requires bs != []
  {
    if |bs| == 1 then bs[0] else 0x100 * ValueBe(bs[..|bs| - 1]) + Unsigned(bs[|bs| - 1])
  }

  lemma WrapShift(n: int, b: int8)
    ensures ShiftIn(Wrap32(n), b) == Wrap32(n * 0x100 + Unsigned(b))
  {
    ShiftInAdds(Wrap32(n), b);
    hide ShiftIn;
    var w: int := Wrap32(n);
    var k := (n - w) / 0x1_0000_0000;
    assert n == w + k * 0x1_0000_0000;
    assert n * 0x100 + Unsigned(b) == w * 0x100 + Unsigned(b) + (k * 0x100) * 0x1_0000_0000;
    ModAdd(w * 0x100 + Unsigned(b), k * 0x100);
  }

  lemma ModAdd(x: int, k: int)
    ensures (x + k * 0x1_0000_0000) % 0x1_0000_0000 == x % 0x1_0000_0000
  {
  }

  /** One more byte at the significant end of a little-endian number is one turn of the loop. */
  lemma FoldLe(bs: seq<int8>, b: int8)
    requires bs != []
    ensures Wrap32(ValueLe([b] + bs)) == ShiftIn(Wrap32(ValueLe(bs)), b)
  {
    hide Wrap32, ShiftIn;
    assert ([b] + bs)[1..] == bs;
    WrapShift(ValueLe(bs), b);
  }

  lemma FoldBe(bs: seq<int8>, b: int8)
    requires bs != []
    ensures Wrap32(ValueBe(bs + [b])) == ShiftIn(Wrap32(ValueBe(bs)), b)
  {
    hide Wrap32, ShiftIn;
    assert (bs + [b])[..|bs|] == bs;
    WrapShift(ValueBe(bs), b);
  }

  lemma FoldOne(b: int8)
    ensures Wrap32(ValueLe([b])) == b && Wrap32(ValueBe([b])) == b
  {
  }

  method BytesToIntLE(bytes: array<int8>, offset: nat, length: nat) returns (value: int32)
    requires 0 < length && offset + length <= bytes.Length
    ensures value == Wrap32(ValueLe(bytes[offset..offset + length]))
  {
    hide Wrap32, ShiftIn, ValueLe;
    ghost var all := bytes[..];
    var end := offset + length;
    var i := end - 1;
    value := bytes[i];
    FoldOne(all[i]);
    assert all[i..end] == [all[i]];
    while i > offset
      invariant offset <= i < end
      invariant value == Wrap32(ValueLe(all[i..end]))
    {
      SliceGrowsDown(all, i, end);
      FoldLe(all[i..end], all[i - 1]);
      i := i - 1;
      value := ShiftIn(value, bytes[i]);
    }
    assert all[offset..end] == bytes[offset..end];
  }

  lemma SliceGrowsDown(s: seq<int8>, i: nat, end: nat)
    requires 0 < i <= end <= |s|
    ensures s[i - 1..end] == [s[i - 1]] + s[i..end]
  {
  }

  lemma SliceGrowsUp(s: seq<int8>, i: nat, end: nat)
    requires i <= end < |s|
    ensures s[i..end + 1] == s[i..end] + [s[end]]
  {
  }

  method BytesToIntBE(bytes: array<int8>, offset: nat, length: nat) returns (value: int32)
    requires 0 < length && offset + length <= bytes.Length
    ensures value == Wrap32(ValueBe(bytes[offset..offset + length]))
  {
    hide Wrap32, ShiftIn, ValueBe;
    ghost var all := bytes[..];
    var endOffset := offset + length;
    var at := offset;
    value := bytes[at];
    FoldOne(all[at]);
    at := at + 1;
    assert all[offset..at] == [all[offset]];
    while at < endOffset
      invariant offset < at <= endOffset
      invariant value == Wrap32(ValueBe(all[offset..at]))
    {
      SliceGrowsUp(all, offset, at);
      FoldBe(all[offset..at], all[at]);
      value := ShiftIn(value, bytes[at]);
      at := at + 1;
    }
    assert all[offset..endOffset] == bytes[offset..endOffset];
  }

  function Pow256(n: nat): nat {
    if n == 0 then 1 else 0x100 * Pow256(n - 1)
  }

  function UnsignedValueLe(bs: seq<int8>): nat {
    if bs == [] then 0 else Unsigned(bs[0]) + 0x100 * UnsignedValueLe(bs[1..])
  }

  /** ValueLe is two's complement: the unsigned value, less the modulus when the top bit is set. */
  lemma {:induction false} ValueLeIsTwosComplement(bs: seq<int8>)
    requires bs != []
    ensures ValueLe(bs) == UnsignedValueLe(bs) - if bs[|bs| - 1] < 0 then Pow256(|bs|) else 0
    decreases |bs|
  {
    if |bs| == 1 {
      assert bs[1..] == [];
      assert Pow256(1) == 0x100 * Pow256(0);
    } else {
      ValueLeIsTwosComplement(bs[1..]);
      assert bs[1..][|bs[1..]| - 1] == bs[|bs| - 1];
    }
  }

  function Reverse(bs: seq<int8>): (r: seq<int8>)
    ensures |r| == |bs|
  {
    if bs == [] then [] else Reverse(bs[1..]) + [bs[0]]
  }

  /** Little-endian is big-endian read backwards. */
  lemma {:induction false} LeIsBeReversed(bs: seq<int8>)
    requires bs != []
    ensures ValueLe(bs) == ValueBe(Reverse(bs))
    decreases |bs|
  {
    if |bs| == 1 {
      assert Reverse(bs[1..]) == [];
      assert Reverse(bs) == [bs[0]];
    } else {
      LeIsBeReversed(bs[1..]);
      var r := Reverse(bs);
      assert r[..|r| - 1] == Reverse(bs[1..]);
    }
  }

  lemma ValueOfFour(js: seq<int8>)
    requires |js| == 4
    ensures ValueLe(js) == Word(Unsigned(js[0]), Unsigned(js[1]), Unsigned(js[2]), js[3])
  {
    assert js[1..][1..] == js[2..] && js[2..][1..] == js[3..];
    assert ValueLe(js[3..]) == js[3];
    assert ValueLe(js[2..]) == Unsigned(js[2]) + 0x100 * ValueLe(js[3..]);
    assert ValueLe(js[1..]) == Unsigned(js[1]) + 0x100 * ValueLe(js[2..]);
  }

  /** Reading back what write32 wrote gives the same 32 bits, as Java's int. */
  lemma ReadsBackWrite32(n: uint32)
    ensures Wrap32(ValueLe(Signed(Le32(n)))) == Wrap32(n)
    ensures Wrap32(n) % 0x1_0000_0000 == n
  {
    var js := Signed(Le32(n));
    var a: int, b: int, c: int, d: int := Le32(n)[0], Le32(n)[1], Le32(n)[2], Le32(n)[3];
    Split32(n);
    assert n == Word(a, b, c, d);
    ValueOfFour(js);
    assert ValueLe(js) == Word(a, b, c, SignedByte(d));
    SignOnlyWraps(n, a, b, c, d);
  }

  lemma SignOnlyWraps(n: uint32, a: int, b: int, c: int, d: byte)
    requires n == Word(a, b, c, d)
    ensures Wrap32(Word(a, b, c, SignedByte(d))) == Wrap32(n)
    ensures Wrap32(n) % 0x1_0000_0000 == n
  {
    var v := Word(a, b, c, SignedByte(d));
    assert v == n || v == n - 0x1_0000_0000;
  }

  // ---- Hexadecimal strings ----

  function UnsignedAll(js: seq<int8>): (bs: seq<byte>)
    ensures |bs| == |js| && forall i :: 0 <= i < |js| ==> bs[i] == Unsigned(js[i])
  {
    seq(|js|, i requires 0 <= i < |js| => Unsigned(js[i]))
  }

  lemma NoHex()
    ensures HexOf([]) == ""
  {
  }

  method BytesToHex(bytes: array<int8>) returns (text: string)
    ensures text == HexOf(UnsignedAll(bytes[..]))
  {
    hide HexDigit, HexOf;
    var hexChars := new char[bytes.Length * 2](i => NUL);
    assert HexOf([]) == "" by { NoHex(); }
    ghost var bs := UnsignedAll(bytes[..]);
    var j := 0;
    while j < bytes.Length
      invariant 0 <= j <= bytes.Length
      invariant hexChars[..2 * j] == HexOf(bs[..j])
    {
      var v := Unsigned(bytes[j]);
      ghost var done := hexChars[..2 * j];
      hexChars[j * 2] := HexDigit(v / 16);
      hexChars[j * 2 + 1] := HexDigit(v % 16);
      assert hexChars[..2 * (j + 1)] == done + Hex2(v);
      HexOfSnoc(bs[..j], bs[j]);
      assert bs[..j + 1] == bs[..j] + [bs[j]];
      j := j + 1;
    }
    assert bs[..j] == bs;
    text := hexChars[..2 * j];
  }

  datatype Decoded = Bytes(data: seq<int8>) | OutOfBounds

  /** Character.digit(c, 16) on ASCII. */
  function Digit(c: char): int {
    HexToDecimal(c)
  }

  /** `(byte) ((d1 << 4) + d2)` */
  function PairToByte(c: char, d: char): int8 {
    SignedByte((16 * Digit(c) + Digit(d)) % 0x100)
  }

  function DecodePairs(s: string): (js: seq<int8>)
    ensures |js| == |s| / 2
  {
    if |s| < 2 then [] else [PairToByte(s[0], s[1])] + DecodePairs(s[2..])
  }

  /** charAt throws on the missing second character of an odd string. */
  method HexStringToByteArray(s: string) returns (r: Decoded)
    ensures r == if |s| % 2 == 1 then OutOfBounds else Bytes(DecodePairs(s))
  {
    hide PairToByte, DecodePairs;
    var data := new int8[|s| / 2](i => 0);
    ghost var done: seq<int8> := [];
    assert s[0..] == s;
    var i := 0;
    while i < |s|
      invariant 0 <= i <= |s| && i % 2 == 0 && |done| == i / 2
      invariant forall k :: 0 <= k < |done| ==> data[k] == done[k]
      invariant DecodePairs(s) == done + DecodePairs(s[i..])
    {
      if i + 1 >= |s| {
        return OutOfBounds;
      }
      DecodeStep(s, i);
      data[i / 2] := PairToByte(s[i], s[i + 1]);
      done := done + [data[i / 2]];
      i := i + 2;
    }
    NoPairs(s[i..]);
    assert data[..] == done;
    r := Bytes(data[..]);
  }

  lemma NoPairs(s: string)
    requires s == ""
    ensures DecodePairs(s) == []
  {
  }

  lemma DecodeStep(s: string, i: nat)
    requires i + 1 < |s|
    ensures DecodePairs(s[i..]) == [PairToByte(s[i], s[i + 1])] + DecodePairs(s[i + 2..])
  {
    assert s[i..][2..] == s[i + 2..];
  }

  /** Java's parser takes every even text; where the C parser accepts they agree, and it rejects only non-digits. */
  lemma {:induction false} ParsersAgree(s: string)
    requires |s| % 2 == 0
    ensures ParseHex(s).Some? ==> DecodePairs(s) == Signed(ParseHex(s).value)
    ensures ParseHex(s).None? ==> exists i :: 0 <= i < |s| && !IsHex(s[i])
    decreases |s|
  {
    hide HexToDecimal, IsHex, PairToByte, PairByte;
    ParsesIffHex(s);
    if |s| >= 2 && ParseHex(s).Some? {
      ParsersAgree(s[2..]);
      assert DecodedPrefix(s) == [PairByte(s)] + DecodedPrefix(s[2..]);
      SamePair(s);
    }
  }

  lemma SamePair(s: string)
    requires GoodPair(s)
    ensures PairToByte(s[0], s[1]) == SignedByte(PairByte(s))
  {
  }

  lemma SignedOfUnsigned(js: seq<int8>)
    ensures Signed(UnsignedAll(js)) == js
  {
  }

  /** hexStringToByteArray undoes bytesToHex, on every Java array. */
  lemma DecodeUndoesEncode(js: seq<int8>)
    ensures DecodePairs(HexOf(UnsignedAll(js))) == js
  {
    hide DecodePairs, HexOf, ParseHex;
    ParsePrinted(UnsignedAll(js));
    ParsersAgree(HexOf(UnsignedAll(js)));
    SignedOfUnsigned(js);
  }

  function Upper(c: char): char {
    if 'a' <= c <= 'f' then (c as int - 'a' as int + 'A' as int) as char else c
  }

  lemma UpperDigit(c: char)
    requires IsHex(c)
    ensures HexDigit(HexToDecimal(c)) == Upper(c)
  {
  }

  function UpperAll(s: string): (r: string)
    ensures |r| == |s| && forall i :: 0 <= i < |s| ==> r[i] == Upper(s[i])
  {
    seq(|s|, i requires 0 <= i < |s| => Upper(s[i]))
  }

  /** What the C parser accepts prints back. */
  lemma {:induction false} ParsedPrintsBack(s: string)
    requires |s| % 2 == 0 && ParseHex(s).Some?
    ensures HexOf(ParseHex(s).value) == UpperAll(s)
    decreases |s|
  {
    if |s| >= 2 {
      assert ParseHex(s[2..]).Some? && DecodedPrefix(s) == [PairByte(s)] + DecodedPrefix(s[2..]);
      ParsedPrintsBack(s[2..]);
      hide IsHex, HexToDecimal;
      PairPrintedBack(s);
      var bs := DecodedPrefix(s);
      assert bs[1..] == DecodedPrefix(s[2..]);
      assert HexOf(bs) == [Upper(s[0]), Upper(s[1])] + UpperAll(s[2..]);
    }
  }

  lemma {:induction false} PrintsDigits(bs: seq<byte>)
    ensures forall i :: 0 <= i < |HexOf(bs)| ==> IsHex(HexOf(bs)[i])
    decreases |bs|
  {
    hide IsHex;
    if bs != [] {
      PrintsDigits(bs[1..]);
      var s := HexOf(bs);
      forall i | 0 <= i < |s| ensures IsHex(s[i]) {
        assert i >= 2 ==> s[i] == HexOf(bs[1..])[i - 2];
        assert i < 2 ==> s[i] == Hex2(bs[0])[i];
      }
    }
  }

  /**
   bytesToHex undoes hexStringToByteArray up to letter case, on texts of even length, exactly when every
   character is a hexadecimal digit.
   */
  lemma EncodeUndoesDecode(s: string)
    requires |s| % 2 == 0
    ensures HexOf(UnsignedAll(DecodePairs(s))) == UpperAll(s) <==> forall i :: 0 <= i < |s| ==> IsHex(s[i])
  {
    hide DecodePairs, HexOf, ParseHex;
    var printed := HexOf(UnsignedAll(DecodePairs(s)));
    ParsesIffHex(s);
    if forall i :: 0 <= i < |s| ==> IsHex(s[i]) {
      ParsersAgree(s);
      ParsedPrintsBack(s);
      assert UnsignedAll(DecodePairs(s)) == ParseHex(s).value;
    } else {
      var i :| 0 <= i < |s| && !IsHex(s[i]);
      PrintsDigits(UnsignedAll(DecodePairs(s)));
      assert UpperAll(s)[i] == s[i];
    }
  }

  lemma PairPrintedBack(s: string)
    requires GoodPair(s)
    ensures Hex2(PairByte(s)) == [Upper(s[0]), Upper(s[1])]
  {
    UpperDigit(s[0]);
    UpperDigit(s[1]);
    hide HexToDecimal, HexDigit, Upper;
    var high, low := HexToDecimal(s[0]), HexToDecimal(s[1]);
    assert PairByte(s) / 16 == high && PairByte(s) % 16 == low;
  }
}
