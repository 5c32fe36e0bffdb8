/** Communibase document ids: `Connector::isIdValid` and `Connector::generateId`.
    An id is 12 bytes written as 24 hexadecimal digits: a 4-byte big-endian timestamp,
    3 machine bytes, 2 process bytes and the low 3 bytes of a counter. */
module IdCodec {
  import opened Php

  type byte = x: int | 0 <= x < 256

  predicate IsHexDigit(c: char)
  {
    '0' <= c <= '9' || 'a' <= c <= 'f' || 'A' <= c <= 'F'
  }

  predicate IsLowerHexDigit(c: char)
  {
    '0' <= c <= '9' || 'a' <= c <= 'f'
  }

  predicate AllHex(s: string)
  {
    forall i :: 0 <= i < |s| ==> IsHexDigit(s[i])
  }

  // ---------------------------------------------------------------------------
  // isIdValid

  /** `#^[0-9a-fA-F]{24}$#` as PCRE reads it: without the D modifier `$` also matches
      just before a final newline. */
  predicate MatchesIdPatternAsWritten(id: string)
  {
    || (|id| == 24 && AllHex(id))
    || (|id| == 25 && AllHex(id[..24]) && id[24] == '\n')
  }

  /** `isIdValid` exactly as written: `empty($id)` fails, then the pattern decides. */
  predicate IsIdValidAsWritten(id: string)
  {
    !(id == "" || id == "0") && MatchesIdPatternAsWritten(id)
  }

  /** The pattern as intended: the whole string is 24 hexadecimal digits. */
  predicate MatchesIdPattern(id: string)
  {
    |id| == 24 && AllHex(id)
  }

  /** `isIdValid` with the intended full-string match; the rest of the model uses this. */
  predicate IsIdValid(id: string)
  {
    !(id == "" || id == "0") && MatchesIdPattern(id)
  }

  /** Valid ids are exactly the 24-digit hexadecimal strings; the emptiness test never
      decides anything on its own. */
  lemma IsIdValidExactly(id: string)
    ensures IsIdValid(id) <==> |id| == 24 && AllHex(id)
  {
  }

  /** The library's own test vectors. */
  lemma IdValidityExamples()
    ensures IsIdValid("507f1f77bcf86cd799439011")
    ensures IsIdValid("507f191e810c19729de860ea")
    ensures IsIdValid("54b7ed2b49726734cab0570c")
    ensures !IsIdValid("123c")
    ensures !IsIdValid("t")
    ensures !IsIdValid("58a2d90012f9ae00c647d0fc((',.")
    ensures !IsIdValid("")
  {
  }

  /** As written, a valid id followed by a newline is accepted. */
  lemma TrailingNewlineAccepted()
    ensures IsIdValidAsWritten("507f1f77bcf86cd799439011\n")
    ensures !IsIdValid("507f1f77bcf86cd799439011\n")
  {
    var s := "507f1f77bcf86cd799439011\n";
    assert s[..24] == "507f1f77bcf86cd799439011";
  }

  /** The written check accepts exactly the valid ids and the valid ids followed by "\n". */
  lemma AsWrittenAddsOnlyTrailingNewline(id: string)
    ensures IsIdValidAsWritten(id) <==>
      IsIdValid(id) || (|id| == 25 && IsIdValid(id[..24]) && id[24] == '\n')
  {
  }

  /** A valid id followed by "\n" is neither empty nor valid, yet the written check accepts it. */
  lemma NewlineId(id: string)
    requires IsIdValid(id)
    ensures var sent := id + "\n";
      && sent != "" && sent != "0" && IsIdValidAsWritten(sent) && !IsIdValid(sent)
  {
    var sent := id + "\n";
    assert |sent| == 25 && sent[..24] == id && sent[24] == '\n';
    AsWrittenAddsOnlyTrailingNewline(sent);
  }

  /** A valid id used as an array key stays a string key: an all-digit id has 24 digits and
      no leading zero only when it is far beyond PHP's integer range. */
  lemma ValidIdIsStringKey(id: string)
    requires IsIdValid(id)
    ensures KeyOf(id) == StrKey(id)
  {
    if IsCanonicalDecimal(id) {
      assert id[0] != '-' && AllDigits(id);
      DigitsValueLowerBound(id);
      assert Pow(10, 23) > PHP_INT_MAX by {
        Pow10Grows(23);
      }
    }
  }

  lemma {:induction false} Pow10Grows(n: nat)
    ensures n >= 19 ==> Pow(10, n) >= Pow(10, 19)
    ensures Pow(10, 19) == 10000000000000000000
  {
    if n > 19 {
      Pow10Grows(n - 1);
    }
    assert Pow(10, 19) == 10 * Pow(10, 18);
    assert Pow(10, 10) == 10000000000;
    assert Pow(10, 18) == Pow(10, 10) * 100000000 by {
      PowSplit(10, 10, 8);
    }
  }

  lemma {:induction false} PowSplit(b: nat, m: nat, n: nat)
    ensures Pow(b, m + n) == Pow(b, m) * Pow(b, n)
    decreases n
  {
    if n > 0 {
      PowSplit(b, m, n - 1);
      calc {
        Pow(b, m + n);
        b * Pow(b, m + n - 1);
        b * (Pow(b, m) * Pow(b, n - 1));
        Pow(b, m) * (b * Pow(b, n - 1));
      }
    } else {
      assert Pow(b, 0) == 1;
    }
  }

  // ---------------------------------------------------------------------------
  // Byte packing: pack('N', ...) and pack('n', ...)

  /** The low `n` bytes of `x`, most significant first (two's complement for negatives). */
  function Pack(x: int, n: nat): (r: seq<byte>)
    ensures |r| == n
    decreases n
  {
    if n == 0 then [] else Pack(x / 256, n - 1) + [x % 256]
  }

  /** The number a big-endian byte string denotes. */
  function BigEndian(bs: seq<byte>): nat
  {
    if bs == [] then 0 else BigEndian(bs[..|bs| - 1]) * 256 + bs[|bs| - 1]
  }

  lemma ModUnique(x: int, m: int, q: int, r: int)
    requires m > 0 && x == m * q + r && 0 <= r < m
    ensures x % m == r && x / m == q
  {
    var q', r' := x / m, x % m;
    assert m * (q' - q) == r - r';
    if q' > q {
      MulAtLeast(m, q' - q);
      assert false;
    } else if q' < q {
      MulAtLeast(m, q - q');
      assert false;
    }
  }

  lemma {:induction false} MulAtLeast(m: nat, d: nat)
    requires d >= 1
    ensures m * d >= m
  {
    if d > 1 {
      MulAtLeast(m, d - 1);
    }
  }

  lemma ModSplit(x: int, d: nat, p: nat)
    requires d > 0 && p > 0
    ensures ((x / d) % p) * d + x % d == x % (d * p)
  {
    var q, r := x / d, x % d;
    var a, b := q / p, q % p;
    assert x == d * q + r;
    assert q == p * a + b;
    Regroup(d, p, a, b, r);
    SlotBound(d, p, b, r);
    ModUnique(x, d * p, a, d * b + r);
  }

  lemma Regroup(d: int, p: int, a: int, b: int, r: int)
    ensures d * (p * a + b) + r == (d * p) * a + (d * b + r)
  {
  }

  lemma SlotBound(d: nat, p: nat, b: nat, r: nat)
    requires b < p && r < d
    ensures d * b + r < d * p
  {
    assert d * b <= d * (p - 1);
  }

  /** Packing keeps exactly the value modulo 256^n. */
  lemma {:induction false} PackValue(x: int, n: nat)
    ensures BigEndian(Pack(x, n)) == x % Pow(256, n)
    decreases n
  {
    if n == 0 {
      assert x % 1 == 0;
    } else {
      var p := Pack(x, n);
      assert p[..n - 1] == Pack(x / 256, n - 1);
      PackValue(x / 256, n - 1);
      ModSplit(x, 256, Pow(256, n - 1));
    }
  }

  /** Dropping the leading byte of an (n+1)-byte packing leaves the n-byte packing:
      `substr(pack('N', $inc), 1, 3)` is the low three bytes of `$inc`. */
  lemma {:induction false} PackTail(x: int, n: nat)
    ensures Pack(x, n + 1)[1..] == Pack(x, n)
    decreases n
  {
    if n > 0 {
      PackTail(x / 256, n - 1);
    }
  }

  // ---------------------------------------------------------------------------
  // Hexadecimal text: sprintf('%02X', ...) and strtolower

  const UpperDigits: string := "0123456789ABCDEF"
  const LowerDigits: string := "0123456789abcdef"

  /** `sprintf('%02X', $b)`. */
  function UpperHexByte(b: byte): string
  {
    [UpperDigits[b / 16], UpperDigits[b % 16]]
  }

  function LowerHexByte(b: byte): string
  {
    [LowerDigits[b / 16], LowerDigits[b % 16]]
  }

  function UpperHex(bs: seq<byte>): (s: string)
    ensures |s| == 2 * |bs|
  {
    if bs == [] then "" else UpperHex(bs[..|bs| - 1]) + UpperHexByte(bs[|bs| - 1])
  }

  /** Each byte as two lower-case hexadecimal digits. */
  function LowerHex(bs: seq<byte>): (s: string)
    ensures |s| == 2 * |bs|
    ensures forall i :: 0 <= i < |s| ==> IsLowerHexDigit(s[i])
  {
    if bs == [] then "" else LowerHex(bs[..|bs| - 1]) + LowerHexByte(bs[|bs| - 1])
  }

  function ToLowerChar(c: char): char
  {
    if 'A' <= c <= 'Z' then (c as int + 32) as char else c
  }

  /** `strtolower` (ASCII). */
  function ToLower(s: string): (r: string)
    ensures |r| == |s|
    ensures forall i :: 0 <= i < |s| ==> r[i] == ToLowerChar(s[i])
  {
    seq(|s|, i requires 0 <= i < |s| => ToLowerChar(s[i]))
  }

  /** Lower-casing the upper-case rendering gives the lower-case rendering. */
  lemma {:induction false} ToLowerUpperHex(bs: seq<byte>)
    ensures ToLower(UpperHex(bs)) == LowerHex(bs)
  {
    if bs != [] {
      var init, b := bs[..|bs| - 1], bs[|bs| - 1];
      ToLowerUpperHex(init);
      var u := UpperHex(init);
      assert ToLower(u + UpperHexByte(b)) == ToLower(u) + ToLower(UpperHexByte(b));
      assert ToLower(UpperHexByte(b)) == LowerHexByte(b) by {
        assert ToLowerChar(UpperDigits[b / 16]) == LowerDigits[b / 16];
        assert ToLowerChar(UpperDigits[b % 16]) == LowerDigits[b % 16];
      }
    }
  }

  lemma {:induction false} LowerHexAppend(a: seq<byte>, b: seq<byte>)
    ensures LowerHex(a + b) == LowerHex(a) + LowerHex(b)
    decreases |b|
  {
    if b != [] {
      var b' := b[..|b| - 1];
      assert (a + b)[..|a + b| - 1] == a + b';
      LowerHexAppend(a, b');
    } else {
      assert a + b == a;
    }
  }

  // ---------------------------------------------------------------------------
  // generateId

  /** What `md5()` returns: 32 lower-case hexadecimal characters. */
  predicate IsMd5Hex(d: string)
  {
    |d| == 32 && forall i :: 0 <= i < |d| ==> IsLowerHexDigit(d[i])
  }

  /** The three "machine" bytes: the character codes of the first three characters of the
      md5 text of the host name (`substr(md5(gethostname()), 0, 3)`). */
  function MachineBytes(hostDigest: string): (bs: seq<byte>)
    requires IsMd5Hex(hostDigest)
    ensures |bs| == 3
  {
    [hostDigest[0] as int, hostDigest[1] as int, hostDigest[2] as int]
  }

  /** The twelve bytes `generateId` formats: `pack('N', time())`, the machine bytes,
      `pack('n', 1)` and `substr(pack('N', $inc), 1, 3)`. */
  function IdBytes(time: int, hostDigest: string, inc: int): (bs: seq<byte>)
    requires IsMd5Hex(hostDigest)
  {
    Pack(time, 4) + MachineBytes(hostDigest) + Pack(1, 2) + Pack(inc, 4)[1..4]
  }

  /** The process-wide id generator: `static $inc = 0` becomes this object's counter. */
  class IdGenerator {
    var inc: int

    constructor ()
      ensures inc == 0
    {
      inc := 0;
    }

    /** `generateId()`, with `time()` and the md5 text of the host name as inputs. */
    method GenerateId(time: int, hostDigest: string) returns (id: string)
      requires IsMd5Hex(hostDigest)
      modifies this`inc
      ensures inc == old(inc) + 1
      ensures id == LowerHex(IdBytes(time, hostDigest, old(inc)))
    {
      var bin := IdBytes(time, hostDigest, inc);
      inc := inc + 1;
      var hex := "";
      for i := 0 to 12
        invariant hex == UpperHex(bin[..i])
      {
        assert bin[..i + 1][..i] == bin[..i];
        hex := hex + UpperHexByte(bin[i]);
      }
      assert bin[..12] == bin;
      ToLowerUpperHex(bin);
      id := ToLower(hex);
    }
  }

  /** The layout of a generated id: 24 lower-case hexadecimal digits, so a valid id;
      digits 0-7 are the packed timestamp, 8-13 the machine bytes, 14-17 are "0001" and
      18-23 the low three bytes of the counter. */
  lemma GeneratedIdLayout(time: int, hostDigest: string, inc: int)
    requires IsMd5Hex(hostDigest)
    ensures var id := LowerHex(IdBytes(time, hostDigest, inc));
      && |id| == 24
      && IsIdValid(id)
      && (forall i :: 0 <= i < 24 ==> IsLowerHexDigit(id[i]))
      && id[..8] == LowerHex(Pack(time, 4))
      && id[8..14] == LowerHex(MachineBytes(hostDigest))
      && id[14..18] == "0001"
      && id[18..24] == LowerHex(Pack(inc, 3))
  {
    var ts, m, pid, trail := Pack(time, 4), MachineBytes(hostDigest), Pack(1, 2), Pack(inc, 4)[1..4];
    assert IdBytes(time, hostDigest, inc) == ts + m + pid + trail;
    PackTail(inc, 3);
    assert trail == Pack(inc, 3);
    PidDigits();
    LayoutOfParts(ts, m, pid, trail);
  }

  /** Twelve bytes in four parts give a valid id whose slices are the parts' renderings. */
  lemma LayoutOfParts(a: seq<byte>, b: seq<byte>, c: seq<byte>, d: seq<byte>)
    requires |a| == 4 && |b| == 3 && |c| == 2 && |d| == 3
    ensures var id := LowerHex(a + b + c + d);
      && |id| == 24
      && IsIdValid(id)
      && (forall i :: 0 <= i < 24 ==> IsLowerHexDigit(id[i]))
      && id[..8] == LowerHex(a)
      && id[8..14] == LowerHex(b)
      && id[14..18] == LowerHex(c)
      && id[18..24] == LowerHex(d)
  {
    HexOfFourParts(a, b, c, d);
    IsIdValidExactly(LowerHex(a + b + c + d));
  }

  lemma HexOfFourParts(a: seq<byte>, b: seq<byte>, c: seq<byte>, d: seq<byte>)
    requires |a| == 4 && |b| == 3 && |c| == 2 && |d| == 3
    ensures var id := LowerHex(a + b + c + d);
      && |id| == 24
      && AllHex(id)
      && id[..8] == LowerHex(a)
      && id[8..14] == LowerHex(b)
      && id[14..18] == LowerHex(c)
      && id[18..24] == LowerHex(d)
  {
    LowerHexAppend(a, b);
    LowerHexAppend(a + b, c);
    LowerHexAppend(a + b + c, d);
    FourPartSlices(LowerHex(a), LowerHex(b), LowerHex(c), LowerHex(d));
  }

  /** `pack('n', 1)` renders as "0001". */
  lemma PidDigits()
    ensures LowerHex(Pack(1, 2)) == "0001"
  {
    var zero: seq<byte> := [0];
    assert Pack(0, 1) == zero;
    assert Pack(1, 2) == zero + [1];
    assert LowerHexByte(0) == "00" && LowerHexByte(1) == "01";
    assert LowerHex(zero) == "00" by {
      assert zero[..0] == [];
    }
    assert (zero + [1])[..1] == zero;
  }

  lemma FourPartSlices(a: string, b: string, c: string, d: string)
    requires |a| == 8 && |b| == 6 && |c| == 4 && |d| == 6
    ensures var s := a + b + c + d;
      s[..8] == a && s[8..14] == b && s[14..18] == c && s[18..24] == d
  {
  }
}
