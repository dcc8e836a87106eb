/** Hexadecimal text: the bounded printer of nvs_lib.c and the parser both firmwares share. */
module HexText {
  import opened Bytes
  import opened Sequences

  type Nibble = n: int | 0 <= n < 16
  const NUL: char := 0 as char
  /** (size_t)-1 with the 32-bit size_t of the target. */
  const SIZE_ERROR := 0xFFFF_FFFF

  /** hex_to_decimal; -1 for a character that is no hexadecimal digit. */
  function HexToDecimal(c: char): (d: int)
    ensures -1 <= d < 16
  {
    if '0' <= c <= '9' then c as int - '0' as int
    else if 'a' <= c <= 'f' then c as int - 'a' as int + 10
    else if 'A' <= c <= 'F' then c as int - 'A' as int + 10
    else -1
  }

  predicate IsHex(c: char) {
    HexToDecimal(c) != -1
  }

  /** A digit as %X prints it. */
  function HexDigit(n: Nibble): (c: char)
    ensures HexToDecimal(c) == n && c != NUL
  {
    "0123456789ABCDEF"[n]
  }

  /** One byte as "%02X" prints it. */
  function Hex2(b: byte): (s: string)
    ensures |s| == 2 && IsHex(s[0]) && IsHex(s[1])
    ensures HexToDecimal(s[0]) == b / 16 && HexToDecimal(s[1]) == b % 16
  {
    [HexDigit(b / 16), HexDigit(b % 16)]
  }

  function HexOf(bs: seq<byte>): (s: string)
    ensures |s| == 2 * |bs|
  {
    if bs == [] then "" else Hex2(bs[0]) + HexOf(bs[1..])
  }

  // ---- The parser ----

  /** The first pair of characters is two hexadecimal digits. */
  predicate GoodPair(s: string) {
    |s| >= 2 && IsHex(s[0]) && IsHex(s[1])
  }

  function PairByte(s: string): byte
    requires GoodPair(s)
  {
    16 * HexToDecimal(s[0]) + HexToDecimal(s[1])
  }

  /** The bytes of the leading good pairs. */
  function DecodedPrefix(s: string): (bs: seq<byte>)
    ensures 2 * |bs| <= |s|
  {
    if GoodPair(s) then [PairByte(s)] + DecodedPrefix(s[2..]) else []
  }

  /** Some bytes when all pairs are good; a last odd character is not looked at. */
  function ParseHex(s: string): Option<seq<byte>> {
    if |DecodedPrefix(s)| == |s| / 2 then Some(DecodedPrefix(s)) else None
  }

  /** hex_to_byte_array: what was decoded before a bad pair stays in the caller's buffer. */
  method HexToByteArray(hexArray: string, hexLength: nat, byteArray: array<byte>) returns (t: nat)
    requires hexLength <= |hexArray| && hexLength / 2 <= byteArray.Length
    modifies byteArray
    ensures var s := hexArray[..hexLength];
            && byteArray[..] == DecodedPrefix(s) + old(byteArray[..])[|DecodedPrefix(s)|..]
            && t == match ParseHex(s) { case Some(bs) => |bs| case None => SIZE_ERROR }
  {
    hide HexToDecimal, DecodedPrefix;
    ghost var s, before := hexArray[..hexLength], byteArray[..];
    ghost var done: seq<byte> := [];
    var i := 0;
    assert s[0..] == s;
    while i < hexLength / 2
      invariant 0 <= i <= hexLength / 2 && |done| == i
      invariant forall k :: 0 <= k < i ==> byteArray[k] == done[k]
      invariant forall k :: i <= k < byteArray.Length ==> byteArray[k] == before[k]
      invariant DecodedPrefix(s) == done + DecodedPrefix(s[2 * i..])
    {
      var highNibble := HexToDecimal(hexArray[i * 2]);
      var lowNibble := HexToDecimal(hexArray[i * 2 + 1]);
      PairAt(s, i);
      if highNibble == -1 || lowNibble == -1 {
        assert DecodedPrefix(s) == done;
        t := SIZE_ERROR;
        return;
      }
      byteArray[i] := 16 * highNibble + lowNibble;
      done := done + [byteArray[i]];
      i := i + 1;
    }
    NoPair(s[2 * i..]);
    assert DecodedPrefix(s) == done;
    t := i;
  }

  lemma NoPair(s: string)
    requires |s| < 2
    ensures DecodedPrefix(s) == []
  {
  }

  lemma PairAt(s: string, i: nat)
    requires 2 * i + 1 < |s|
    ensures var (high, low) := (HexToDecimal(s[i * 2]), HexToDecimal(s[i * 2 + 1]));
            DecodedPrefix(s[2 * i..]) ==
            if high == -1 || low == -1 then [] else [16 * high + low] + DecodedPrefix(s[2 * (i + 1)..])
  {
    assert s[2 * i..][2..] == s[2 * (i + 1)..];
  }

  /** The parser accepts exactly the texts whose pairs consist of hexadecimal digits. */
  lemma {:induction false} ParsesIffHex(s: string)
    ensures ParseHex(s).Some? <==> forall i :: 0 <= i < |s| / 2 * 2 ==> IsHex(s[i])
    decreases |s|
  {
    if |s| >= 2 {
      ParsesIffHex(s[2..]);
      if GoodPair(s) {
        forall i | 0 <= i < |s| / 2 * 2 && forall j :: 0 <= j < |s[2..]| / 2 * 2 ==> IsHex(s[2..][j])
          ensures IsHex(s[i])
        {
          assert i >= 2 ==> s[2..][i - 2] == s[i];
        }
        forall j | 0 <= j < |s[2..]| / 2 * 2 && forall i :: 0 <= i < |s| / 2 * 2 ==> IsHex(s[i])
          ensures IsHex(s[2..][j])
        {
          assert s[2..][j] == s[j + 2];
        }
      }
    }
  }

  lemma {:induction false} DecodePrinted(bs: seq<byte>)
    ensures DecodedPrefix(HexOf(bs)) == bs
    decreases |bs|
  {
    hide Hex2, HexToDecimal;
    if bs != [] {
      DecodePrinted(bs[1..]);
      var s := HexOf(bs);
      assert s[0] == Hex2(bs[0])[0] && s[1] == Hex2(bs[0])[1] && s[2..] == HexOf(bs[1..]);
      assert DecodedPrefix(s) == [bs[0]] + bs[1..];
    }
  }

  /** Parsing undoes printing. */
  lemma ParsePrinted(bs: seq<byte>)
    ensures ParseHex(HexOf(bs)) == Some(bs)
  {
    DecodePrinted(bs);
  }

  // ---- The bounded printer ----

  /** The bytes in hexadecimal, with the delimiter between neighbours. */
  function JoinHex(bs: seq<byte>, delimiter: string): string {
    if bs == [] then ""
    else if |bs| == 1 then Hex2(bs[0])
    else JoinHex(bs[..|bs| - 1], delimiter) + delimiter + Hex2(bs[|bs| - 1])
  }

  /** The space check before the next byte, when at characters stand in a buffer of sz. */
  predicate HasSpace(at: nat, delimiter: string, sz: nat) {
    at + (2 + |delimiter| + 1) < sz
  }

  /** How many of the bytes the printer prints. */
  function PrintedCount(bs: seq<byte>, delimiter: string, sz: nat): (n: nat)
    ensures n <= |bs|
  {
    if bs == [] then 0
    else
      var n := PrintedCount(bs[..|bs| - 1], delimiter, sz);
      if HasSpace(|JoinHex(bs[..n], delimiter)|, delimiter, sz) then n + 1 else n
  }

  lemma {:induction false} JoinHexGrows(bs: seq<byte>, delimiter: string, k: nat)
    requires k <= |bs|
    ensures |JoinHex(bs[..k], delimiter)| <= |JoinHex(bs, delimiter)|
    decreases |bs|
  {
    if k < |bs| {
      assert bs[..|bs| - 1][..k] == bs[..k];
      JoinHexGrows(bs[..|bs| - 1], delimiter, k);
    } else {
      assert bs[..k] == bs;
    }
  }

  lemma PrintedStep(bs: seq<byte>, delimiter: string, sz: nat, i: nat)
    requires i < |bs|
    ensures var n := PrintedCount(bs[..i], delimiter, sz);
            PrintedCount(bs[..i + 1], delimiter, sz) ==
            if HasSpace(|JoinHex(bs[..n], delimiter)|, delimiter, sz) then n + 1 else n
  {
    var n := PrintedCount(bs[..i], delimiter, sz);
    assert bs[..i + 1][..i] == bs[..i] && bs[..i + 1][..n] == bs[..n];
  }

  /** Once a byte is skipped there is no space for any later one. */
  lemma {:induction false} NoSpaceAfterSkip(bs: seq<byte>, delimiter: string, sz: nat, i: nat)
    requires i <= |bs| && PrintedCount(bs[..i], delimiter, sz) < i
    ensures !HasSpace(|JoinHex(bs[..PrintedCount(bs[..i], delimiter, sz)], delimiter)|, delimiter, sz)
    decreases i
  {
    hide PrintedCount, JoinHex;
    PrintedStep(bs, delimiter, sz, i - 1);
    if PrintedCount(bs[..i - 1], delimiter, sz) < i - 1 {
      NoSpaceAfterSkip(bs, delimiter, sz, i - 1);
    }
  }

  lemma {:induction false} PrintedPrefixLongest(bs: seq<byte>, delimiter: string, sz: nat, i: nat, k: nat)
    requires 0 < k <= i <= |bs|
    ensures k <= PrintedCount(bs[..i], delimiter, sz) <==> HasSpace(|JoinHex(bs[..k - 1], delimiter)|, delimiter, sz)
    decreases i
  {
    hide PrintedCount, JoinHex;
    PrintedStep(bs, delimiter, sz, i - 1);
    var n := PrintedCount(bs[..i - 1], delimiter, sz);
    if k < i {
      PrintedPrefixLongest(bs, delimiter, sz, i - 1, k);
      if n < i - 1 {
        NoSpaceAfterSkip(bs, delimiter, sz, i - 1);
      }
    } else if n < i - 1 {
      NoSpaceAfterSkip(bs, delimiter, sz, i - 1);
      assert bs[..i - 1][..n] == bs[..n];
      JoinHexGrows(bs[..i - 1], delimiter, n);
    }
  }

  /** The printed bytes are the longest prefix that passes the space check. */
  lemma PrintedIsLongest(bs: seq<byte>, delimiter: string, sz: nat, k: nat)
    requires 0 < k <= |bs|
    ensures k <= PrintedCount(bs, delimiter, sz) <==> HasSpace(|JoinHex(bs[..k - 1], delimiter)|, delimiter, sz)
  {
    assert bs[..|bs|] == bs;
    PrintedPrefixLongest(bs, delimiter, sz, |bs|, k);
  }

  /** The text never needs more than the buffer, its terminator included. */
  lemma PrintedFits(bs: seq<byte>, delimiter: string, sz: nat)
    requires PrintedCount(bs, delimiter, sz) > 0
    ensures |JoinHex(bs[..PrintedCount(bs, delimiter, sz)], delimiter)| + 1 < sz
  {
    var n := PrintedCount(bs, delimiter, sz);
    PrintedIsLongest(bs, delimiter, sz, n);
    var p := bs[..n];
    assert p[..|p| - 1] == bs[..n - 1];
  }

  /** The buffer afterwards; nothing printed leaves it untouched, without even a terminator. */
  function PrintedBuffer(bs: seq<byte>, delimiter: string, before: string): string {
    var n := PrintedCount(bs, delimiter, |before|);
    if n == 0 then before
    else
      PrintedFits(bs, delimiter, |before|);
      JoinHex(bs[..n], delimiter) + [NUL] + before[|JoinHex(bs[..n], delimiter)| + 1..]
  }

  /** sprintf of a plain string: its characters and a terminator. */
  method PutString(buf: array<char>, at: nat, s: string) returns (next: nat)
    requires at + |s| < buf.Length
    modifies buf
    ensures next == at + |s|
    ensures buf[..] == old(buf[..])[..at] + s + [NUL] + old(buf[..])[next + 1..]
  {
    forall i | 0 <= i < |s| {
      buf[at + i] := s[i];
    }
    next := at + |s|;
    buf[next] := NUL;
  }

  /** The two sprintf calls for one byte. */
  method PrintByte(buf: array<char>, at: nat, first: bool, delimiter: string, b: byte) returns (next: nat)
    requires HasSpace(at, delimiter, buf.Length)
    modifies buf
    ensures next == at + (if first then 0 else |delimiter|) + 2
    ensures buf[..] == old(buf[..])[..at] + (if first then "" else delimiter) + Hex2(b) + [NUL] + old(buf[..])[next + 1..]
  {
    ghost var before := buf[..];
    next := at;
    if !first {
      next := PutString(buf, next, delimiter);
      assert buf[..][..next] == before[..at] + delimiter;
    }
    next := PutString(buf, next, Hex2(b));
    assert before[..at] + "" == before[..at];
  }

  method NvsBytesToHex(bs: seq<byte>, delimiter: string, delimiterSz: nat, stringbuf: array<char>)
    requires delimiterSz == |delimiter| && NUL !in delimiter
    modifies stringbuf
    ensures stringbuf[..] == PrintedBuffer(bs, delimiter, old(stringbuf[..]))
  {
    hide Hex2, HasSpace, JoinHex, PrintedCount, PrintedBuffer;
    ghost var before := stringbuf[..];
    var sz := stringbuf.Length;
    var spacing := 2 + delimiterSz + 1;
    var at: nat := 0;
    var i := 0;
    ghost var n := 0;
    ghost var text := "";
    NothingPrinted(bs, delimiter, sz);
    while i < |bs|
      invariant 0 <= n <= i <= |bs| && n == PrintedCount(bs[..i], delimiter, sz)
      invariant text == JoinHex(bs[..n], delimiter) && at == |text|
      invariant n == 0 ==> stringbuf[..] == before
      invariant n > 0 ==> at < sz && stringbuf[..] == text + [NUL] + before[at + 1..]
    {
      PrintedStep(bs, delimiter, sz, i);
      SpaceCheck(at, delimiter, sz);
      if at + spacing < sz {
        if n < i {
          NoSpaceAfterSkip(bs, delimiter, sz, i);
        }
        JoinHexStep(bs, delimiter, i);
        ghost var start := stringbuf[..];
        assert start[..at] == text;
        at := PrintByte(stringbuf, at, i == 0, delimiter, bs[i]);
        assert start[at + 1..] == before[at + 1..];
        n := n + 1;
        text := JoinHex(bs[..n], delimiter);
      }
      i := i + 1;
    }
    assert bs[..i] == bs;
    BufferPrinted(bs, delimiter, before);
  }

  lemma NothingPrinted(bs: seq<byte>, delimiter: string, sz: nat)
    ensures PrintedCount(bs[..0], delimiter, sz) == 0 && JoinHex(bs[..0], delimiter) == ""
  {
  }

  lemma BufferPrinted(bs: seq<byte>, delimiter: string, before: string)
    ensures var n := PrintedCount(bs, delimiter, |before|);
            var text := JoinHex(bs[..n], delimiter);
            if n == 0 then PrintedBuffer(bs, delimiter, before) == before
            else |text| < |before| && PrintedBuffer(bs, delimiter, before) == text + [NUL] + before[|text| + 1..]
  {
    if PrintedCount(bs, delimiter, |before|) > 0 {
      PrintedFits(bs, delimiter, |before|);
    }
  }

  lemma SpaceCheck(at: nat, delimiter: string, sz: nat)
    ensures HasSpace(at, delimiter, sz) <==> at + (2 + |delimiter| + 1) < sz
  {
  }

  lemma JoinHexStep(bs: seq<byte>, delimiter: string, i: nat)
    requires i < |bs|
    ensures JoinHex(bs[..i + 1], delimiter) == JoinHex(bs[..i], delimiter) + (if i == 0 then "" else delimiter) + Hex2(bs[i])
  {
    var p := bs[..i + 1];
    assert p[..|p| - 1] == bs[..i];
    if i == 0 {
      assert bs[..0] == [];
    }
  }

  lemma {:induction false} JoinHexLength(bs: seq<byte>, delimiter: string)
    requires |delimiter| == 1
    ensures |JoinHex(bs, delimiter)| == if bs == [] then 0 else 3 * |bs| - 1
    decreases |bs|
  {
    if |bs| > 1 {
      JoinHexLength(bs[..|bs| - 1], delimiter);
    }
  }

  /** A whole MAC address is printed exactly when the buffer has at least 19 bytes; the callers pass 20. */
  lemma MacPrintedInFull(mac: seq<byte>, delimiter: string, sz: nat)
    requires |mac| == 6 && |delimiter| == 1
    ensures PrintedCount(mac, delimiter, sz) == 6 <==> sz >= 19
    ensures |JoinHex(mac, delimiter)| == 17
  {
    PrintedIsLongest(mac, delimiter, sz, 6);
    JoinHexLength(mac[..5], delimiter);
    JoinHexLength(mac, delimiter);
  }

  // ---- Printer and parser ----

  function KeepHex(c: char): string {
    if IsHex(c) then [c] else ""
  }

  function HexOnly(s: string): string {
    if s == "" then "" else KeepHex(s[0]) + HexOnly(s[1..])
  }

  lemma {:induction false} HexOnlyConcat(a: string, b: string)
    ensures HexOnly(a + b) == HexOnly(a) + HexOnly(b)
    decreases |a|
  {
    hide KeepHex;
    if a == "" {
      assert a + b == b;
    } else {
      assert (a + b)[0] == a[0] && (a + b)[1..] == a[1..] + b;
      HexOnlyConcat(a[1..], b);
      assert HexOnly(a + b) == KeepHex(a[0]) + (HexOnly(a[1..]) + HexOnly(b));
    }
  }

  lemma {:induction false} HexOfSnoc(bs: seq<byte>, b: byte)
    ensures HexOf(bs + [b]) == HexOf(bs) + Hex2(b)
    decreases |bs|
  {
    if bs == [] {
      assert [b][1..] == [];
    } else {
      assert (bs + [b])[1..] == bs[1..] + [b];
      HexOfSnoc(bs[1..], b);
    }
  }

  lemma Hex2Only(b: byte)
    ensures HexOnly(Hex2(b)) == Hex2(b)
  {
    var s := Hex2(b);
    assert s[1..] == [s[1]] && s[1..][1..] == "";
  }

  lemma {:induction false} StripDelimiters(bs: seq<byte>, delimiter: string)
    requires HexOnly(delimiter) == ""
    ensures HexOnly(JoinHex(bs, delimiter)) == HexOf(bs)
    decreases |bs|
  {
    hide Hex2, KeepHex, HexOnly;
    if bs == [] {
      NoHexOnly();
    } else if |bs| == 1 {
      Hex2Only(bs[0]);
      assert HexOf(bs) == Hex2(bs[0]) + HexOf([]);
    } else {
      var m := |bs| - 1;
      StripDelimiters(bs[..m], delimiter);
      HexOnlyConcat(JoinHex(bs[..m], delimiter) + delimiter, Hex2(bs[m]));
      HexOnlyConcat(JoinHex(bs[..m], delimiter), delimiter);
      Hex2Only(bs[m]);
      HexOfSnoc(bs[..m], bs[m]);
      assert bs == bs[..m] + [bs[m]];
      assert HexOf(bs[..m]) + "" == HexOf(bs[..m]);
    }
  }

  lemma NoHexOnly()
    ensures HexOnly("") == ""
  {
  }

  /** Taking the delimiters out of the printed text and parsing it gives the printed bytes back. */
  lemma ParseUndoesPrint(bs: seq<byte>, delimiter: string, sz: nat)
    requires HexOnly(delimiter) == ""
    ensures var n := PrintedCount(bs, delimiter, sz);
            ParseHex(HexOnly(JoinHex(bs[..n], delimiter))) == Some(bs[..n])
  {
    var n := PrintedCount(bs, delimiter, sz);
    StripDelimiters(bs[..n], delimiter);
    ParsePrinted(bs[..n]);
  }
}
