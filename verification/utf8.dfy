/** Why strings may be compared character by character: Rust compares the bytes of their UTF-8 form. */
module Utf8 {
  import opened Text
  import opened Order

  type Bytes = seq<nat>

  /** The UTF-8 form of one character. */
  function Encode(c: char): (bs: Bytes)
    ensures |bs| == Utf8Width(c)
  {
    var n := c as int;
    if c < '\U{80}' then [n]
    else if c < '\U{800}' then [0xC0 + n / 64, 0x80 + n % 64]
    else if c < '\U{10000}' then [0xE0 + n / 4096, 0x80 + n / 64 % 64, 0x80 + n % 64]
    else [0xF0 + n / 262144, 0x80 + n / 4096 % 64, 0x80 + n / 64 % 64, 0x80 + n % 64]
  }

  function EncodeAll(s: string): (bs: Bytes)
    ensures |bs| == Utf8Len(s)
  {
    if s == "" then [] else Encode(s[0]) + EncodeAll(s[1..])
  }

  /** The order of `str`: lexicographic on bytes. */
  predicate BytesBefore(a: Bytes, b: Bytes) {
    b != [] && (a == [] || a[0] < b[0] || (a[0] == b[0] && BytesBefore(a[1..], b[1..])))
  }

  lemma {:induction false} BytesAsymmetric(a: Bytes, b: Bytes)
    requires BytesBefore(a, b)
    ensures !BytesBefore(b, a)
  {
    if a != [] && a[0] == b[0] { BytesAsymmetric(a[1..], b[1..]); }
  }

  lemma {:induction false} BytesCommonPrefix(p: Bytes, a: Bytes, b: Bytes)
    ensures BytesBefore(p + a, p + b) == BytesBefore(a, b)
  {
    if p == [] {
      assert p + a == a && p + b == b;
    } else {
      assert (p + a)[1..] == p[1..] + a && (p + b)[1..] == p[1..] + b;
      BytesCommonPrefix(p[1..], a, b);
    }
  }

  /** The first byte that differs decides. */
  lemma FirstDifference(a: Bytes, b: Bytes, k: nat, x: Bytes, y: Bytes)
    requires k < |a| && k < |b| && a[..k] == b[..k] && a[k] < b[k]
    ensures BytesBefore(a + x, b + y)
  {
    BytesCommonPrefix(a[..k], a[k..] + x, b[k..] + y);
    assert a + x == a[..k] + (a[k..] + x) && b + y == a[..k] + (b[k..] + y);
  }

  /** The encodings of two characters of one width differ first where their digits do. */
  lemma SameWidth(c: char, d: char) returns (k: nat)
    requires c < d && Utf8Width(c) == Utf8Width(d)
    ensures k < Utf8Width(c) && Encode(c)[..k] == Encode(d)[..k] && Encode(c)[k] < Encode(d)[k]
  {
    var a, b := Encode(c), Encode(d);
    k := 0;
    while a[k] == b[k]
      invariant k < |a| && a[..k] == b[..k]
      decreases |a| - k
    {
      SomeDigitDiffers(c, d, k);
      k := k + 1;
    }
    FirstDigit(c, d, k);
  }

  /** The digits to base 64. */
  lemma Digits(n: nat)
    ensures n == 64 * (n / 64) + n % 64
    ensures n / 64 == 64 * (n / 4096) + n / 64 % 64
    ensures n / 4096 == 64 * (n / 262144) + n / 4096 % 64
  {
    assert n / 64 / 64 == n / 4096;
    assert n / 4096 / 64 == n / 262144;
  }

  lemma SomeDigitDiffers(c: char, d: char, k: nat)
    requires c < d && Utf8Width(c) == Utf8Width(d) && k < Utf8Width(c)
    requires Encode(c)[..k] == Encode(d)[..k] && Encode(c)[k] == Encode(d)[k]
    ensures k + 1 < Utf8Width(c)
  {
    Digits(c as int);
    Digits(d as int);
    var a, b := Encode(c), Encode(d);
    forall i | 0 <= i <= k ensures a[i] == b[i] { if i < k { assert a[i] == a[..k][i] == b[..k][i]; } }
    assert a[0] == b[0];
    assert k >= 1 ==> a[1] == b[1];
    assert k >= 2 ==> a[2] == b[2];
    assert k >= 3 ==> a[3] == b[3];
  }

  lemma FirstDigit(c: char, d: char, k: nat)
    requires c < d && Utf8Width(c) == Utf8Width(d) && k < Utf8Width(c)
    requires Encode(c)[..k] == Encode(d)[..k] && Encode(c)[k] != Encode(d)[k]
    ensures Encode(c)[k] < Encode(d)[k]
  {
    Digits(c as int);
    Digits(d as int);
    var a, b := Encode(c), Encode(d);
    forall i | 0 <= i < k ensures a[i] == b[i] { assert a[i] == a[..k][i] == b[..k][i]; }
    assert k >= 1 ==> a[0] == b[0];
    assert k >= 2 ==> a[1] == b[1];
    assert k >= 3 ==> a[2] == b[2];
  }

  lemma CharacterOrder(c: char, d: char, x: Bytes, y: Bytes)
    requires c < d
    ensures BytesBefore(Encode(c) + x, Encode(d) + y)
  {
    if Utf8Width(c) == Utf8Width(d) {
      var k := SameWidth(c, d);
      FirstDifference(Encode(c), Encode(d), k, x, y);
    } else {
      FirstDifference(Encode(c), Encode(d), 0, x, y);
    }
  }

  /** The order on characters is the order on bytes. */
  lemma {:induction false} OrderIsByteOrder(a: string, b: string)
    ensures Before(a, b) <==> BytesBefore(EncodeAll(a), EncodeAll(b))
  {
    if a != "" && b != "" {
      var x, y := EncodeAll(a[1..]), EncodeAll(b[1..]);
      if a[0] == b[0] {
        BytesCommonPrefix(Encode(a[0]), x, y);
        OrderIsByteOrder(a[1..], b[1..]);
      } else if a[0] < b[0] {
        CharacterOrder(a[0], b[0], x, y);
      } else {
        CharacterOrder(b[0], a[0], y, x);
        BytesAsymmetric(EncodeAll(b), EncodeAll(a));
      }
    }
  }
}
