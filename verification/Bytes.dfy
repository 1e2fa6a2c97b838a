/** Bytes, results, and the fixed-width little-endian integers of the archive and of the wire. */
module Bytes {
  type byte = b: int | 0 <= b < 256
  type bytes = seq<byte>

  /** What the program reports by throwing; one constructor per throw statement that is modelled. */
  datatype Error =
    | KindMissing | KindInvalid | PathLengthMissing | PathTooLong | PathIncomplete
    | CompressedLengthMissing | EntryTooLarge
    | CompressionFailed | ZstdImpossible | DecompressionFailed
    | NotADirectory | CannotOpenFile | PositionUnknown
    | DirectoryMissing | ArchiveMissing | ArchiveExists
    | UnknownCode | ConnectionClosed | MessageTooLarge | NotAcknowledged | Declined | FileExists | HashMismatch

  datatype Result<+T> = Ok(value: T) | Err(error: Error)

  datatype Option<+T> = None | Some(value: T)

  function Min(a: nat, b: nat): nat {
    if a < b then a else b
  }

  /** 256 to the power k. */
  function Pow256(k: nat): (p: nat)
    ensures p > 0
  {
    if k == 0 then 1 else 256 * Pow256(k - 1)
  }

  /** One more than the largest value of an eight-byte size. */
  const SIZE_MOD: nat := 0x1_0000_0000_0000_0000

  lemma SizeModIsPow256()
    ensures Pow256(8) == SIZE_MOD
  {
    assert Pow256(4) == 0x1_0000_0000;
    assert Pow256(8) == 256 * 256 * 256 * 256 * Pow256(4);
  }

  /** The k low-order bytes of n, least significant first; higher bytes are dropped as a cast would. */
  function LittleEndian(n: nat, k: nat): (bs: bytes)
    ensures |bs| == k
  {
    if k == 0 then [] else [n % 256] + LittleEndian(n / 256, k - 1)
  }

  function FromLittleEndian(bs: bytes): (n: nat)
    ensures n < Pow256(|bs|)
  {
    if bs == [] then 0 else bs[0] + 256 * FromLittleEndian(bs[1..])
  }

  lemma {:induction false} DecodeEncode(n: nat, k: nat)
    requires n < Pow256(k)
    ensures FromLittleEndian(LittleEndian(n, k)) == n
  {
    if k > 0 {
      DecodeEncode(n / 256, k - 1);
      assert LittleEndian(n, k)[1..] == LittleEndian(n / 256, k - 1);
    }
  }

  lemma {:induction false} EncodeDecode(bs: bytes)
    ensures LittleEndian(FromLittleEndian(bs), |bs|) == bs
  {
    if bs != [] {
      EncodeDecode(bs[1..]);
      LastDigit(bs[0], FromLittleEndian(bs[1..]));
      assert [bs[0]] + bs[1..] == bs;
    }
  }

  lemma LastDigit(b: byte, n: nat)
    ensures (b + 256 * n) % 256 == b && (b + 256 * n) / 256 == n
  {
  }

  /** What eight bytes are worth as a size: the first counts ones, each later one 256 times as much. */
  lemma {:induction false} SizeValue(bs: bytes)
    requires |bs| == 8
    ensures FromLittleEndian(bs) ==
            (bs[0] as int) + 0x100 * (bs[1] as int) + 0x1_0000 * (bs[2] as int) + 0x100_0000 * (bs[3] as int)
            + 0x1_0000_0000 * (bs[4] as int) + 0x100_0000_0000 * (bs[5] as int) + 0x1_0000_0000_0000 * (bs[6] as int)
            + 0x100_0000_0000_0000 * (bs[7] as int)
  {
    FourValue(bs[..4]);
    FourValue(bs[4..]);
    FromConcat(bs[..4], bs[4..]);
    assert bs[..4] + bs[4..] == bs;
  }

  lemma {:induction false} FourValue(bs: bytes)
    requires |bs| == 4
    ensures FromLittleEndian(bs) ==
            (bs[0] as int) + 0x100 * (bs[1] as int) + 0x1_0000 * (bs[2] as int) + 0x100_0000 * (bs[3] as int)
    ensures Pow256(4) == 0x1_0000_0000
  {
    assert FromLittleEndian(bs[4..]) == 0;
    assert FromLittleEndian(bs[3..]) == bs[3] + 256 * FromLittleEndian(bs[3..][1..]) && bs[3..][1..] == bs[4..];
    assert FromLittleEndian(bs[2..]) == bs[2] + 256 * FromLittleEndian(bs[2..][1..]) && bs[2..][1..] == bs[3..];
    assert FromLittleEndian(bs[1..]) == bs[1] + 256 * FromLittleEndian(bs[1..][1..]) && bs[1..][1..] == bs[2..];
  }

  lemma {:induction false} FromConcat(a: bytes, b: bytes)
    ensures FromLittleEndian(a + b) == FromLittleEndian(a) + Pow256(|a|) * FromLittleEndian(b)
  {
    if a == [] {
      assert a + b == b;
    } else {
      var c := a + b;
      assert c[0] == a[0] && c[1..] == a[1..] + b;
      FromConcat(a[1..], b);
      TimesTimes(256, Pow256(|a| - 1), FromLittleEndian(b));
    }
  }

  lemma TimesTimes(x: nat, y: nat, z: nat)
    ensures x * (y * z) == (x * y) * z
  {
  }

  /** An eight-byte size as the program writes it. */
  function Size(n: nat): (bs: bytes)
    ensures |bs| == 8
  {
    LittleEndian(n, 8)
  }

  /** Encoding and decoding an eight-byte size undo each other. */
  lemma {:induction false} SizeInverse(n: nat, bs: bytes)
    requires n < SIZE_MOD && |bs| == 8
    ensures FromLittleEndian(Size(n)) == n
    ensures Size(FromLittleEndian(bs)) == bs && FromLittleEndian(bs) < SIZE_MOD
  {
    SizeModIsPow256();
    DecodeEncode(n, 8);
    EncodeDecode(bs);
  }

  /** A number as it is printed. */
  function Decimal(n: nat): (s: string)
    ensures |s| > 0 && '-' !in s
  {
    var digit := ['0' + (n % 10) as char];
    if n < 10 then digit else Decimal(n / 10) + digit
  }

  predicate AllDigits(s: string) {
    forall i :: 0 <= i < |s| ==> 48 <= s[i] as int <= 57
  }

  /** Reading a string of digits: each multiplies what was read by ten and adds its distance from '0'. */
  function ReadDecimal(s: string): nat
    requires AllDigits(s)
  {
    if s == [] then 0 else 10 * ReadDecimal(s[..|s| - 1]) + (s[|s| - 1] as int - 48)
  }

  /** A printed number consists of digits, is read back as that number, and has no leading zero. */
  lemma {:induction false} DecimalReads(n: nat)
    ensures AllDigits(Decimal(n)) && ReadDecimal(Decimal(n)) == n
    ensures n > 0 ==> Decimal(n)[0] as int != 48
    ensures n == 0 ==> |Decimal(n)| == 1
  {
    var s := Decimal(n);
    if n >= 10 {
      DecimalReads(n / 10);
      assert s[..|s| - 1] == Decimal(n / 10);
    } else {
      assert s[..|s| - 1] == [];
    }
  }

  lemma DecimalInjective(m: nat, n: nat)
    requires Decimal(m) == Decimal(n)
    ensures m == n
  {
    DecimalReads(m);
    DecimalReads(n);
  }

  lemma {:induction false} DecimalShort(n: nat)
    requires n < SIZE_MOD
    ensures |Decimal(n)| <= 20
  {
    DigitsUpTo(n, 20);
    assert Pow10(2) == 100;
    assert Pow10(4) == 100 * Pow10(2);
    assert Pow10(6) == 100 * Pow10(4);
    assert Pow10(8) == 100 * Pow10(6);
    assert Pow10(10) == 100 * Pow10(8);
    assert Pow10(12) == 100 * Pow10(10);
    assert Pow10(14) == 100 * Pow10(12);
    assert Pow10(16) == 100 * Pow10(14);
    assert Pow10(18) == 100 * Pow10(16);
    assert Pow10(20) == 100 * Pow10(18);
  }

  function Pow10(k: nat): nat {
    if k == 0 then 1 else 10 * Pow10(k - 1)
  }

  lemma {:induction false} DigitsUpTo(n: nat, k: nat)
    requires k > 0
    ensures n < Pow10(k) ==> |Decimal(n)| <= k
  {
    assert Pow10(k) == 10 * Pow10(k - 1) && Pow10(0) == 1;
    if 10 <= n < Pow10(k) {
      DigitsUpTo(n / 10, k - 1);
    }
  }

  function Concat(parts: seq<bytes>): bytes {
    if parts == [] then [] else parts[0] + Concat(parts[1..])
  }

  lemma {:induction false} ConcatAppend(a: seq<bytes>, b: seq<bytes>)
    ensures Concat(a + b) == Concat(a) + Concat(b)
  {
    if a == [] {
      assert a + b == b;
    } else {
      var c := a + b;
      assert c[0] == a[0] && c[1..] == a[1..] + b;
      ConcatAppend(a[1..], b);
      Associative(a[0], Concat(a[1..]), Concat(b));
    }
  }

  lemma Associative<T>(a: seq<T>, b: seq<T>, c: seq<T>)
    ensures a + (b + c) == a + b + c
  {
  }

  lemma ConcatSnoc(a: seq<bytes>, last: bytes)
    ensures Concat(a + [last]) == Concat(a) + last
  {
    ConcatAppend(a, [last]);
    assert Concat([last]) == last + Concat([]);
  }

  lemma {:induction false} ModStep(n: nat, r: nat)
    requires r > 0 && n >= r
    ensures (n - r) % r == n % r
  {
    var d := n / r - 1 - (n - r) / r;
    MulDistribute(n / r, 1 + (n - r) / r, r);
    assert d * r == (n - r) % r - n % r;
    MulSmall(d, r);
  }

  lemma MulSmall(d: int, r: int)
    requires 0 - r < d * r < r
    ensures d == 0
  {
  }

  lemma MulDistribute(a: int, b: int, r: int)
    ensures (a - b) * r == a * r - b * r
  {
  }
}
