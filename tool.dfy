/** `Tool::dateFromMongoId`: the creation time encoded in the first eight hexadecimal digits
    of an id, read with PHP's `hexdec`. */
module Tool {
  import opened Php
  import opened IdCodec

  function HexDigitValue(c: char): (v: nat)
    requires IsHexDigit(c)
    ensures v < 16
  {
    if '0' <= c <= '9' then c as int - '0' as int
    else if 'a' <= c <= 'f' then c as int - 'a' as int + 10
    else c as int - 'A' as int + 10
  }

  /** PHP's `hexdec`: the characters that are not hexadecimal digits are skipped. */
  function HexDec(s: string): nat
  {
    if s == [] then 0
    else if IsHexDigit(s[|s| - 1]) then HexDec(s[..|s| - 1]) * 16 + HexDigitValue(s[|s| - 1])
    else HexDec(s[..|s| - 1])
  }

  lemma {:induction false} HexDecBound(s: string)
    ensures HexDec(s) < Pow(16, |s|)
  {
    if s != [] {
      HexDecBound(s[..|s| - 1]);
    }
  }

  /** `dateFromMongoId`, as the Unix time (in seconds) of the returned DateTime. At most
      eight hexadecimal digits are read, so the time is below 2^32. */
  function DateFromMongoId(mongoId: string): (secs: nat)
    ensures secs < 0x1_0000_0000
  {
    var head := mongoId[..if |mongoId| < 8 then |mongoId| else 8];
    HexDecBound(head);
    PowMonotone(16, |head|, 8);
    assert Pow(16, 8) == 0x1_0000_0000;
    HexDec(head)
  }

  lemma {:induction false} PowMonotone(b: nat, m: nat, n: nat)
    requires b >= 1 && m <= n
    ensures Pow(b, m) <= Pow(b, n)
    decreases n
  {
    if m < n {
      PowMonotone(b, m, n - 1);
    }
  }

  /** Only the first eight characters matter. */
  lemma DateIgnoresSuffix(mongoId: string, suffix: string)
    requires |mongoId| >= 8
    ensures DateFromMongoId(mongoId + suffix) == DateFromMongoId(mongoId)
  {
    assert (mongoId + suffix)[..8] == mongoId[..8];
  }

  /** The date of a string with at least eight characters is `hexdec` of its first eight. */
  lemma DateOfLongId(mongoId: string)
    requires |mongoId| >= 8
    ensures DateFromMongoId(mongoId) == HexDec(mongoId[..8])
  {
  }

  lemma LowerDigitValue(k: nat)
    requires k < 16
    ensures IsHexDigit(LowerDigits[k]) && HexDigitValue(LowerDigits[k]) == k
  {
  }

  /** Reading back the lower-case rendering of bytes gives their big-endian value. */
  lemma {:induction false} HexDecLowerHex(bs: seq<byte>)
    ensures HexDec(LowerHex(bs)) == BigEndian(bs)
  {
    if bs != [] {
      var init, b := bs[..|bs| - 1], bs[|bs| - 1];
      HexDecLowerHex(init);
      LowerDigitValue(b / 16);
      LowerDigitValue(b % 16);
      HexDecTwoDigits(LowerHex(init), LowerDigits[b / 16], LowerDigits[b % 16]);
    }
  }

  lemma HexDecTwoDigits(pre: string, hi: char, lo: char)
    requires IsHexDigit(hi) && IsHexDigit(lo)
    ensures HexDec(pre + [hi, lo]) == (HexDec(pre) * 16 + HexDigitValue(hi)) * 16 + HexDigitValue(lo)
  {
    var s := pre + [hi, lo];
    assert s[..|s| - 1] == pre + [hi];
    assert (pre + [hi])[..|pre|] == pre;
  }

  /** `hexdec` does not depend on letter case. */
  lemma {:induction false} HexDecIgnoresCase(s: string)
    ensures HexDec(ToLower(s)) == HexDec(s)
  {
    if s != [] {
      var init := s[..|s| - 1];
      HexDecIgnoresCase(init);
      assert ToLower(s)[..|s| - 1] == ToLower(init);
    }
  }

  /** The creation time read back from a generated id is the time it was generated at,
      modulo 2^32; for any time before 2106 it is that time. */
  lemma CreationTimeOfGeneratedId(time: int, hostDigest: string, inc: int)
    requires IsMd5Hex(hostDigest)
    ensures DateFromMongoId(LowerHex(IdBytes(time, hostDigest, inc))) == time % 0x1_0000_0000
    ensures 0 <= time < 0x1_0000_0000 ==>
      DateFromMongoId(LowerHex(IdBytes(time, hostDigest, inc))) == time
  {
    var id := LowerHex(IdBytes(time, hostDigest, inc));
    GeneratedIdLayout(time, hostDigest, inc);
    DateOfLongId(id);
    assert id[..8] == LowerHex(Pack(time, 4));
    HexDecLowerHex(Pack(time, 4));
    PackValue(time, 4);
    assert Pow(256, 4) == 0x1_0000_0000;
    assert DateFromMongoId(id) == time % 0x1_0000_0000;
    if 0 <= time < 0x1_0000_0000 {
      ModUnique(time, 0x1_0000_0000, 0, time);
    }
  }

  /** Digits 18-23 of a generated id hold the counter modulo 2^24. */
  lemma CounterOfGeneratedId(time: int, hostDigest: string, inc: int)
    requires IsMd5Hex(hostDigest)
    ensures HexDec(LowerHex(IdBytes(time, hostDigest, inc))[18..24]) == inc % 0x100_0000
  {
    GeneratedIdLayout(time, hostDigest, inc);
    HexDecLowerHex(Pack(inc, 3));
    PackValue(inc, 3);
    assert Pow(256, 3) == 0x100_0000;
  }

  /** Two ids generated in the same second on the same host differ exactly when their
      counters differ modulo 2^24. */
  lemma GeneratedIdsDistinct(time: int, hostDigest: string, inc1: int, inc2: int)
    requires IsMd5Hex(hostDigest)
    ensures LowerHex(IdBytes(time, hostDigest, inc1)) == LowerHex(IdBytes(time, hostDigest, inc2))
        <==> inc1 % 0x100_0000 == inc2 % 0x100_0000
  {
    CounterOfGeneratedId(time, hostDigest, inc1);
    CounterOfGeneratedId(time, hostDigest, inc2);
    if inc1 % 0x100_0000 == inc2 % 0x100_0000 {
      TrailEqual(inc1, inc2);
    }
  }

  lemma TrailEqual(inc1: int, inc2: int)
    requires inc1 % 0x100_0000 == inc2 % 0x100_0000
    ensures Pack(inc1, 4)[1..4] == Pack(inc2, 4)[1..4]
  {
    PackTail(inc1, 3);
    PackTail(inc2, 3);
    PackThree(inc1);
    PackThree(inc2);
    DivModTrail(inc1, inc2);
  }

  /** The three bytes of a three-byte packing. */
  lemma PackThree(x: int)
    ensures Pack(x, 3) == [x / 65536 % 256, x / 256 % 256, x % 256]
  {
    assert x / 256 / 256 == x / 65536;
    assert Pack(x / 256 / 256, 1) == [x / 256 / 256 % 256];
  }

  lemma DivModTrail(x: int, y: int)
    requires x % 0x100_0000 == y % 0x100_0000
    ensures x % 256 == y % 256
    ensures x / 256 % 256 == y / 256 % 256
    ensures x / 65536 % 256 == y / 65536 % 256
  {
    var q, r := x / 0x100_0000, x % 0x100_0000;
    var q', r' := y / 0x100_0000, y % 0x100_0000;
    assert x == 0x100_0000 * q + r;
    assert y == 0x100_0000 * q' + r;
    ModUnique(x, 256, 65536 * q + r / 256, r % 256);
    ModUnique(y, 256, 65536 * q' + r / 256, r % 256);
    ModUnique(x / 256, 256, 256 * q + r / 65536, r / 256 % 256);
    ModUnique(y / 256, 256, 256 * q' + r / 65536, r / 256 % 256);
    ModUnique(x, 65536, 256 * q + r / 65536, r % 65536);
    ModUnique(y, 65536, 256 * q' + r / 65536, r % 65536);
    ModUnique(x / 65536, 256, q, r / 65536);
    ModUnique(y / 65536, 256, q', r / 65536);
  }
}
