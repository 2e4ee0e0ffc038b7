/**
 The 4096-byte pages of page.cc. A field is a run of bytes at a fixed offset, least significant byte first; the
 setters overwrite one run and leave all other bytes alone.
 */
module PageBytes {
  type Byte = b: int | 0 <= b < 256

  const PAGE_SIZE := 4096

  type Page = p: seq<Byte> | |p| == PAGE_SIZE witness seq(PAGE_SIZE, _ => 0)

  /** 256 to the power n. */
  function Radix(n: nat): (r: nat)
    ensures r >= 1
  {
    if n == 0 then 1 else 256 * Radix(n - 1)
  }

  const U64 := 0x1_0000_0000_0000_0000
  const I64 := 0x8000_0000_0000_0000

  function Encode(v: nat, n: nat): (s: seq<Byte>)
    ensures |s| == n
  {
    if n == 0 then [] else [v % 256] + Encode(v / 256, n - 1)
  }

  function Decode(s: seq<Byte>): nat {
    if s == [] then 0 else s[0] + 256 * Decode(s[1..])
  }

  lemma {:induction false} DecodeEncode(v: nat, n: nat)
    ensures Decode(Encode(v, n)) == v % Radix(n)
  {
    if n > 0 {
      DecodeEncode(v / 256, n - 1);
      assert Encode(v, n)[1..] == Encode(v / 256, n - 1);
      SplitModulo(v, Radix(n - 1));
    }
  }

  lemma SplitModulo(v: nat, r: nat)
    requires r >= 1
    ensures v % (256 * r) == v % 256 + 256 * ((v / 256) % r)
  {
    var q, m := (v / 256) / r, (v / 256) % r;
    assert v / 256 == q * r + m;
    assert v == 256 * (q * r + m) + v % 256 == q * (256 * r) + (256 * m + v % 256);
    assert 0 <= 256 * m + v % 256 < 256 * r;
    ModuloUnique(v, 256 * r, q, 256 * m + v % 256);
  }

  lemma ModuloUnique(v: nat, d: nat, q: nat, m: nat)
    requires d >= 1 && v == q * d + m && m < d
    ensures v % d == m
  {
    var q', m' := v / d, v % d;
    assert (q - q') * d == m' - m by { assert v == q' * d + m'; }
    Multiple(q - q', d);
  }

  lemma Multiple(a: int, d: nat)
    ensures a >= 1 ==> a * d >= d
    ensures a <= -1 ==> a * d + d <= 0
  {
    assert a >= 1 ==> (a - 1) * d >= 0;
    assert a <= -1 ==> (-1 - a) * d >= 0;
  }

  lemma {:induction false} DecodeBound(s: seq<Byte>)
    ensures Decode(s) < Radix(|s|)
  {
    if s != [] { DecodeBound(s[1..]); }
  }

  lemma {:induction false} EncodeDecode(s: seq<Byte>)
    ensures Encode(Decode(s), |s|) == s
  {
    if s != [] {
      EncodeDecode(s[1..]);
      hide Decode, Encode;
      DecodeStep(s);
      EncodeStep(Decode(s), |s|);
      Digits(s[0], Decode(s[1..]));
      assert s == [s[0]] + s[1..];
    }
  }

  lemma DecodeStep(s: seq<Byte>)
    requires s != []
    ensures Decode(s) == s[0] + 256 * Decode(s[1..])
  {}

  lemma EncodeStep(v: nat, n: nat)
    requires n > 0
    ensures Encode(v, n) == [v % 256] + Encode(v / 256, n - 1)
  {}

  lemma Digits(b: Byte, v: nat)
    ensures (b + 256 * v) % 256 == b && (b + 256 * v) / 256 == v
  {}

  // ----- Fields -----

  function Get(p: Page, offset: nat, n: nat): seq<Byte>
    requires offset + n <= PAGE_SIZE
  {
    p[offset..offset + n]
  }

  function Put(p: Page, offset: nat, s: seq<Byte>): Page
    requires offset + |s| <= PAGE_SIZE
  {
    p[..offset] + s + p[offset + |s|..]
  }

  lemma PutGet(p: Page, offset: nat, s: seq<Byte>)
    requires offset + |s| <= PAGE_SIZE
    ensures Get(Put(p, offset, s), offset, |s|) == s
  {}

  /** A field that does not overlap the one written keeps its bytes. */
  lemma PutElsewhere(p: Page, offset: nat, s: seq<Byte>, other: nat, n: nat)
    requires offset + |s| <= PAGE_SIZE && other + n <= PAGE_SIZE
    requires other + n <= offset || offset + |s| <= other
    ensures Get(Put(p, offset, s), other, n) == Get(p, other, n)
  {}

  function GetNumber(p: Page, offset: nat, n: nat): nat
    requires offset + n <= PAGE_SIZE
  {
    Decode(Get(p, offset, n))
  }

  /** A wider value is truncated to the field. */
  function PutNumber(p: Page, offset: nat, n: nat, v: nat): Page
    requires offset + n <= PAGE_SIZE
  {
    Put(p, offset, Encode(v, n))
  }

  lemma NumberRoundTrip(p: Page, offset: nat, n: nat, v: nat)
    requires offset + n <= PAGE_SIZE
    ensures GetNumber(PutNumber(p, offset, n, v), offset, n) == v % Radix(n)
  {
    PutGet(p, offset, Encode(v, n));
    DecodeEncode(v, n);
  }

  lemma NumberElsewhere(p: Page, offset: nat, n: nat, v: nat, other: nat, m: nat)
    requires offset + n <= PAGE_SIZE && other + m <= PAGE_SIZE
    requires other + m <= offset || offset + n <= other
    ensures GetNumber(PutNumber(p, offset, n, v), other, m) == GetNumber(p, other, m)
  {
    PutElsewhere(p, offset, Encode(v, n), other, m);
  }

  lemma Radix8()
    ensures Radix(8) == U64 && Radix(4) == 0x1_0000_0000 && Radix(2) == 0x1_0000
  {
    assert Radix(2) == 65536;
    assert Radix(4) == 65536 * 65536;
    assert Radix(6) == 65536 * 65536 * 65536;
  }

  // ----- The header page and the free pages -----

  function FreeHead(p: Page): nat { GetNumber(p, 0, 8) }

  function SetFreeHead(p: Page, v: nat): Page { PutNumber(p, 0, 8, v) }

  function PageCount(p: Page): nat { GetNumber(p, 8, 8) }

  function SetPageCount(p: Page, v: nat): Page { PutNumber(p, 8, 8, v) }

  function RootPage(p: Page): nat { GetNumber(p, 16, 8) }

  function SetRootPage(p: Page, v: nat): Page { PutNumber(p, 16, 8, v) }

  function NextFree(p: Page): nat { GetNumber(p, 0, 8) }

  function SetNextFree(p: Page, v: nat): Page { PutNumber(p, 0, 8, v) }

  /** The three header fields do not disturb each other. */
  lemma HeaderFields(p: Page, v: nat)
    requires v < U64
    ensures FreeHead(SetFreeHead(p, v)) == v && PageCount(SetFreeHead(p, v)) == PageCount(p)
    ensures RootPage(SetFreeHead(p, v)) == RootPage(p)
    ensures PageCount(SetPageCount(p, v)) == v && FreeHead(SetPageCount(p, v)) == FreeHead(p)
    ensures RootPage(SetPageCount(p, v)) == RootPage(p)
    ensures RootPage(SetRootPage(p, v)) == v && FreeHead(SetRootPage(p, v)) == FreeHead(p)
    ensures PageCount(SetRootPage(p, v)) == PageCount(p)
    ensures NextFree(SetNextFree(p, v)) == v
  {
    hide GetNumber, PutNumber;
    Radix8();
    NumberRoundTrip(p, 0, 8, v);
    NumberRoundTrip(p, 8, 8, v);
    NumberRoundTrip(p, 16, 8, v);
    NumberElsewhere(p, 0, 8, v, 8, 8);
    NumberElsewhere(p, 0, 8, v, 16, 8);
    NumberElsewhere(p, 8, 8, v, 0, 8);
    NumberElsewhere(p, 8, 8, v, 16, 8);
    NumberElsewhere(p, 16, 8, v, 0, 8);
    NumberElsewhere(p, 16, 8, v, 8, 8);
  }
}
