/**
 * GoogleController::getUuid: eight 16-bit random draws formatted as a
 * version 4 UUID, "%04x%04x-%04x-%04x-%04x-%04x%04x%04x", with the version
 * nibble and the variant bits of section 4.4 of RFC 4122 forced.
 */
module Uuid {

  /** The upper bounds of the eight mt_rand() draws, in argument order. */
  const DrawMax: seq<int> := [0xffff, 0xffff, 0xffff, 0x0fff, 0x3fff, 0xffff, 0xffff, 0xffff]

  /** Eight draws, each in the range mt_rand(0, max) returns. */
  predicate DrawsInRange(d: seq<int>) {
    |d| == 8 && forall k :: 0 <= k < 8 ==> 0 <= d[k] <= DrawMax[k]
  }

  /** PHP's `|` on non-negative integers, bit by bit from the lowest. */
  function BitOr(x: nat, y: nat): nat
  {
    if x == 0 && y == 0 then 0
    else 2 * BitOr(x / 2, y / 2) + (if x % 2 == 1 || y % 2 == 1 then 1 else 0)
  }

  function Pow2(n: nat): (p: nat)
    ensures p >= 1
  {
    if n == 0 then 1 else 2 * Pow2(n - 1)
  }

  lemma {:induction false} BitOrZero(y: nat)
    ensures BitOr(0, y) == y
  {
    if y != 0 {
      BitOrZero(y / 2);
    }
  }

  /** When x fits below bit n, or-ing in a multiple of 2^n adds it. */
  lemma {:induction false} BitOrDisjoint(x: nat, m: nat, n: nat)
    requires x < Pow2(n)
    ensures BitOr(x, m * Pow2(n)) == x + m * Pow2(n)
  {
    if n == 0 {
      BitOrZero(m);
    } else {
      var p := Pow2(n - 1);
      var y := m * Pow2(n);
      assert y == 2 * (m * p);
      assert y / 2 == m * p && y % 2 == 0;
      BitOrDisjoint(x / 2, m, n - 1);
    }
  }

  /** The eight sprintf() arguments: the draws with 0x4000 or-ed into the fourth and 0x8000 into the fifth. */
  function Fields(d: seq<int>): (f: seq<int>)
    requires DrawsInRange(d)
    ensures |f| == 8 && forall k :: 0 <= k < 8 ==> 0 <= f[k] < 0x1_0000
    ensures forall k :: 0 <= k < 8 && k != 3 && k != 4 ==> f[k] == d[k]
  {
    OrVersion(d[3]);
    OrVariant(d[4]);
    [d[0], d[1], d[2], BitOr(d[3], 0x4000), BitOr(d[4], 0x8000), d[5], d[6], d[7]]
  }

  /** Or-ing 0x4000 into a value of at most 0x0fff adds it and sets the top nibble to 4. */
  lemma OrVersion(x: nat)
    requires x <= 0x0fff
    ensures BitOr(x, 0x4000) == x + 0x4000
  {
    assert Pow2(12) == 0x1000;
    BitOrDisjoint(x, 4, 12);
  }

  /** Or-ing 0x8000 into a value of at most 0x3fff adds it, so the top two bits are 10. */
  lemma OrVariant(y: nat)
    requires y <= 0x3fff
    ensures BitOr(y, 0x8000) == y + 0x8000
  {
    assert Pow2(14) == 0x4000;
    BitOrDisjoint(y, 2, 14);
  }

  /** A lowercase hexadecimal digit. */
  predicate IsHexDigit(c: char) {
    '0' <= c <= '9' || 'a' <= c <= 'f'
  }

  function HexDigit(n: int): (c: char)
    requires 0 <= n < 16
    ensures IsHexDigit(c)
  {
    if n < 10 then ('0' as int + n) as char else ('a' as int + n - 10) as char
  }

  function HexValue(c: char): (n: int)
    requires IsHexDigit(c)
    ensures 0 <= n < 16
  {
    if c <= '9' then c as int - '0' as int else c as int - 'a' as int + 10
  }

  lemma HexDigitValue(n: int)
    requires 0 <= n < 16
    ensures HexValue(HexDigit(n)) == n
  {
  }

  /** sprintf('%04x', v) for 0 <= v <= 0xffff: four lowercase hex digits, zero-padded. */
  function Hex4(v: int): (s: string)
    requires 0 <= v < 0x1_0000
    ensures |s| == 4 && forall k :: 0 <= k < 4 ==> IsHexDigit(s[k])
  {
    var q1 := v / 16;
    var q2 := q1 / 16;
    var q3 := q2 / 16;
    [HexDigit(q3), HexDigit(q2 % 16), HexDigit(q1 % 16), HexDigit(v % 16)]
  }

  /** Reads four hex digits back as a number. */
  function ParseHex4(s: string): int
    requires |s| == 4 && forall k :: 0 <= k < 4 ==> IsHexDigit(s[k])
  {
    ((HexValue(s[0]) * 16 + HexValue(s[1])) * 16 + HexValue(s[2])) * 16 + HexValue(s[3])
  }

  /** The four digits of %04x give back the value. */
  lemma {:induction false} Hex4RoundTrip(v: int)
    requires 0 <= v < 0x1_0000
    ensures ParseHex4(Hex4(v)) == v
  {
    var q1 := v / 16;
    var q2 := q1 / 16;
    var q3 := q2 / 16;
    HexDigitValue(q3);
    HexDigitValue(q2 % 16);
    HexDigitValue(q1 % 16);
    HexDigitValue(v % 16);
    assert v == q1 * 16 + v % 16;
    assert q1 == q2 * 16 + q1 % 16;
    assert q2 == q3 * 16 + q2 % 16;
  }

  /** The first digit of %04x is the top nibble. */
  lemma Hex4Top(v: int)
    requires 0 <= v < 0x1_0000
    ensures Hex4(v)[0] == HexDigit(v / 0x1000)
  {
    var q1 := v / 16;
    var q2 := q1 / 16;
    assert q2 / 16 == v / 0x1000;
  }

  /** The sprintf() format '%04x%04x-%04x-%04x-%04x-%04x%04x%04x' applied to eight formatted groups. */
  function Layout(h: seq<string>): string
    requires |h| == 8
  {
    h[0] + h[1] + "-" + h[2] + "-" + h[3] + "-" + h[4] + "-" + h[5] + h[6] + h[7]
  }

  /** getUuid() for the given draws. */
  function GetUuid(d: seq<int>): string
    requires DrawsInRange(d)
  {
    var f := Fields(d);
    Layout([Hex4(f[0]), Hex4(f[1]), Hex4(f[2]), Hex4(f[3]), Hex4(f[4]), Hex4(f[5]), Hex4(f[6]), Hex4(f[7])])
  }

  /** Where a hyphen of the 8-4-4-4-12 layout sits. */
  predicate IsHyphenIndex(i: int) {
    i == 8 || i == 13 || i == 18 || i == 23
  }

  /** The 36-character 8-4-4-4-12 layout of lowercase hexadecimal groups. */
  predicate UuidShaped(u: string) {
    && |u| == 36
    && forall i :: 0 <= i < 36 ==> if IsHyphenIndex(i) then u[i] == '-' else IsHexDigit(u[i])
  }

  /** Where the eight groups and the four hyphens land in the formatted string. */
  lemma LayoutGroups(h: seq<string>)
    requires |h| == 8 && forall k :: 0 <= k < 8 ==> |h[k]| == 4
    ensures |Layout(h)| == 36
    ensures Layout(h)[0..4] == h[0] && Layout(h)[4..8] == h[1] && Layout(h)[9..13] == h[2]
    ensures Layout(h)[14..18] == h[3] && Layout(h)[19..23] == h[4]
    ensures Layout(h)[24..28] == h[5] && Layout(h)[28..32] == h[6] && Layout(h)[32..36] == h[7]
    ensures forall i :: 0 <= i < 36 && IsHyphenIndex(i) ==> Layout(h)[i] == '-'
  {
    var u := Layout(h);
    var a := h[0] + h[1] + "-";
    var b := a + h[2] + "-";
    var c := b + h[3] + "-";
    var e := c + h[4] + "-";
    assert u == e + h[5] + h[6] + h[7];
    assert |a| == 9 && |b| == 14 && |c| == 19 && |e| == 24;
    assert u[..24] == e && e[..19] == c && c[..14] == b && b[..9] == a;
  }

  /** Four-digit lowercase hex groups fill the layout. */
  lemma LayoutShaped(h: seq<string>)
    requires |h| == 8 && forall k :: 0 <= k < 8 ==> |h[k]| == 4
    requires forall k, j :: 0 <= k < 8 && 0 <= j < 4 ==> IsHexDigit(h[k][j])
    ensures UuidShaped(Layout(h))
  {
    var u := Layout(h);
    LayoutGroups(h);
    forall i | 0 <= i < 36 && !IsHyphenIndex(i) ensures IsHexDigit(u[i]) {
      if i < 4 { assert u[i] == u[0..4][i]; }
      else if i < 8 { assert u[i] == u[4..8][i - 4]; }
      else if i < 13 { assert u[i] == u[9..13][i - 9]; }
      else if i < 18 { assert u[i] == u[14..18][i - 14]; }
      else if i < 23 { assert u[i] == u[19..23][i - 19]; }
      else if i < 28 { assert u[i] == u[24..28][i - 24]; }
      else if i < 32 { assert u[i] == u[28..32][i - 28]; }
      else { assert u[i] == u[32..36][i - 32]; }
    }
  }

  /** The groups of getUuid(): the eight fields, each as %04x. */
  lemma UuidGroups(d: seq<int>) returns (h: seq<string>)
    requires DrawsInRange(d)
    ensures |h| == 8 && GetUuid(d) == Layout(h)
    ensures forall k :: 0 <= k < 8 ==> h[k] == Hex4(Fields(d)[k])
    ensures forall k :: 0 <= k < 8 ==> |h[k]| == 4
    ensures forall k, j :: 0 <= k < 8 && 0 <= j < 4 ==> IsHexDigit(h[k][j])
  {
    var f := Fields(d);
    h := [Hex4(f[0]), Hex4(f[1]), Hex4(f[2]), Hex4(f[3]), Hex4(f[4]), Hex4(f[5]), Hex4(f[6]), Hex4(f[7])];
  }

  /** For draws in range the result is 36 characters in the 8-4-4-4-12 hex layout. */
  lemma UuidLayout(d: seq<int>)
    requires DrawsInRange(d)
    ensures UuidShaped(GetUuid(d))
  {
    var h := UuidGroups(d);
    LayoutShaped(h);
  }

  /** The version digit (index 14) is '4', as section 4.4 of RFC 4122 asks for version 4. */
  lemma UuidVersionDigit(d: seq<int>)
    requires DrawsInRange(d)
    ensures |GetUuid(d)| == 36 && GetUuid(d)[14] == '4'
  {
    var f := Fields(d);
    var h := UuidGroups(d);
    LayoutGroups(h);
    OrVersion(d[3]);
    Hex4Top(f[3]);
    assert GetUuid(d)[14] == GetUuid(d)[14..18][0] == h[3][0];
    assert f[3] / 0x1000 == 4;
  }

  /**
   * The variant digit (index 19) is 8, 9, a or b: its two top bits are 1 0,
   * the variant section 4.4 of RFC 4122 asks for.
   */
  lemma UuidVariantDigit(d: seq<int>)
    requires DrawsInRange(d)
    ensures |GetUuid(d)| == 36 && GetUuid(d)[19] in "89ab"
  {
    var f := Fields(d);
    var h := UuidGroups(d);
    LayoutGroups(h);
    OrVariant(d[4]);
    Hex4Top(f[4]);
    assert GetUuid(d)[19] == GetUuid(d)[19..23][0] == h[4][0];
    assert 8 <= f[4] / 0x1000 <= 11;
  }

  /** The hex groups of a UUID-shaped string, read back as the eight 16-bit fields. */
  function ParseFields(u: string): (f: seq<int>)
    requires UuidShaped(u)
    ensures |f| == 8
  {
    [ParseHex4(u[0..4]), ParseHex4(u[4..8]), ParseHex4(u[9..13]), ParseHex4(u[14..18]),
     ParseHex4(u[19..23]), ParseHex4(u[24..28]), ParseHex4(u[28..32]), ParseHex4(u[32..36])]
  }

  /**
   * Reading the UUID back gives the sprintf() arguments, and from them the
   * draws: the version and variant bits are the only information added.
   */
  lemma UuidRoundTrip(d: seq<int>)
    requires DrawsInRange(d)
    ensures UuidShaped(GetUuid(d))
    ensures ParseFields(GetUuid(d)) == Fields(d)
    ensures Fields(d)[3] == d[3] + 0x4000 && Fields(d)[4] == d[4] + 0x8000
  {
    var f := Fields(d);
    var h := UuidGroups(d);
    LayoutShaped(h);
    LayoutGroups(h);
    forall k | 0 <= k < 8 ensures ParseHex4(h[k]) == f[k] {
      Hex4RoundTrip(f[k]);
    }
    OrVersion(d[3]);
    OrVariant(d[4]);
  }

  /** Different draws give different UUIDs. */
  lemma UuidInjective(d: seq<int>, e: seq<int>)
    requires DrawsInRange(d) && DrawsInRange(e)
    requires GetUuid(d) == GetUuid(e)
    ensures d == e
  {
    UuidRoundTrip(d);
    UuidRoundTrip(e);
    var fd, fe := Fields(d), Fields(e);
    assert fd == ParseFields(GetUuid(d)) == ParseFields(GetUuid(e)) == fe;
    forall k | 0 <= k < 8 ensures d[k] == e[k] {
      if k == 3 || k == 4 {
        assert fd[k] == fe[k];
      } else {
        assert d[k] == fd[k] && e[k] == fe[k];
      }
    }
  }
}
