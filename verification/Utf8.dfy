/** UTF-8 (section 3 of RFC 3629), with the conventions the buffers rely on: anything
    that is not a scalar value is written as U+FFFD, and a byte that starts no encoding
    is read as U+FFFD of size 1. */
module Utf8 {
  import opened Streams

  const RUNE_ERROR := 0xFFFD
  const UTF_MAX: nat := 4
  const RUNE_SELF := 0x80

  /** A Unicode scalar value. */
  predicate Scalar(r: int) {
    0 <= r < 0xD800 || 0xE000 <= r <= 0x10FFFF
  }

  function Encode(r: int): (s: seq<byte>)
    ensures 1 <= |s| <= UTF_MAX
  {
    if !Scalar(r) then
      [0xEF, 0xBF, 0xBD]
    else if r < 0x80 then
      [r as byte]
    else if r < 0x800 then
      [(0xC0 + r / 64) as byte, (0x80 + r % 64) as byte]
    else if r < 0x1_0000 then
      [(0xE0 + r / 4096) as byte, (0x80 + r / 64 % 64) as byte, (0x80 + r % 64) as byte]
    else
      [(0xF0 + r / 262144) as byte, (0x80 + r / 4096 % 64) as byte, (0x80 + r / 64 % 64) as byte,
        (0x80 + r % 64) as byte]
  }

  /** The size an encoding starting with `c` would have; 1 also when there is none. */
  function SizeFrom(c: byte): (n: nat)
    ensures 1 <= n <= UTF_MAX
  {
    if 0xC2 <= c <= 0xDF then 2 else if 0xE0 <= c <= 0xEF then 3 else if 0xF0 <= c <= 0xF4 then 4 else 1
  }

  predicate Continues(c: byte) {
    0x80 <= c <= 0xBF
  }

  /** May `d` follow the first byte `c`? Shortest form, no surrogates, at most U+10FFFF. */
  predicate SecondFits(c: byte, d: byte) {
    && Continues(d)
    && (c == 0xE0 ==> 0xA0 <= d)
    && (c == 0xED ==> d <= 0x9F)
    && (c == 0xF0 ==> 0x90 <= d)
    && (c == 0xF4 ==> d <= 0x8F)
  }

  function Decode(s: seq<byte>): (d: (int, nat))
    ensures d.1 <= |s|
    ensures s != [] ==> 1 <= d.1 <= UTF_MAX
  {
    if s == [] then
      (RUNE_ERROR, 0)
    else
      var c, n := s[0], SizeFrom(s[0]);
      if c < 0x80 then
        (c as int, 1)
      else if n == 1 || |s| < n || !SecondFits(c, s[1]) then
        (RUNE_ERROR, 1)
      else if n == 2 then
        ((c as int - 0xC0) * 64 + (s[1] as int - 0x80), 2)
      else if !Continues(s[2]) then
        (RUNE_ERROR, 1)
      else if n == 3 then
        ((c as int - 0xE0) * 4096 + (s[1] as int - 0x80) * 64 + (s[2] as int - 0x80), 3)
      else if !Continues(s[3]) then
        (RUNE_ERROR, 1)
      else
        ((c as int - 0xF0) * 262144 + (s[1] as int - 0x80) * 4096 + (s[2] as int - 0x80) * 64 + (s[3] as int - 0x80), 4)
  }

  /** Does `s` begin with a whole rune, or with bytes that already cannot be one? */
  predicate FullRune(s: seq<byte>) {
    && s != []
    && (|s| >= SizeFrom(s[0]) || (|s| > 1 && !SecondFits(s[0], s[1])) || (|s| > 2 && !Continues(s[2])))
  }

  /** The base-64 digits of a scalar value give it back. */
  lemma Digits(r: int)
    requires Scalar(r)
    ensures r == r / 64 * 64 + r % 64
    ensures r == r / 4096 * 4096 + r / 64 % 64 * 64 + r % 64
    ensures r == r / 262144 * 262144 + r / 4096 % 64 * 4096 + r / 64 % 64 * 64 + r % 64
  {
    assert r / 4096 == r / 64 / 64;
    assert r / 262144 == r / 4096 / 64;
  }

  lemma DigitsOf(a: nat, b: nat, c: nat, d: nat)
    requires b < 64 && c < 64 && d < 64
    ensures var r := a * 262144 + b * 4096 + c * 64 + d;
      && r / 262144 == a && r / 4096 % 64 == b && r / 64 % 64 == c && r % 64 == d
      && r / 4096 == a * 64 + b && r / 64 == a * 4096 + b * 64 + c
  {
    var r := a * 262144 + b * 4096 + c * 64 + d;
    assert r / 64 == a * 4096 + b * 64 + c;
    assert r / 4096 == a * 64 + b;
  }

  lemma EncodedIsDecoded(s: seq<byte>, r: int)
    requires Scalar(r) && Encode(r) <= s
    ensures Decode(s) == (r, |Encode(r)|)
  {
    var e := Encode(r);
    Digits(r);
    assert s[0] == e[0];
    if 0x80 <= r {
      assert s[1] == e[1];
      if 0x800 <= r {
        assert s[2] == e[2];
        if 0x1_0000 <= r {
          assert s[3] == e[3];
        }
      }
    }
  }

  lemma DecodedWasEncoded(s: seq<byte>)
    requires s != [] && Decode(s) != (RUNE_ERROR, 1)
    ensures Scalar(Decode(s).0) && Encode(Decode(s).0) == s[..Decode(s).1]
  {
    var (r, n) := Decode(s);
    var k := seq(n, i requires 0 <= i < n => s[i] as int - 0x80);
    if n == 2 {
      DigitsOf(0, 0, s[0] as int - 0xC0, k[1]);
    } else if n == 3 {
      DigitsOf(0, s[0] as int - 0xE0, k[1], k[2]);
    } else if n == 4 {
      DigitsOf(s[0] as int - 0xF0, k[1], k[2], k[3]);
    }
  }

  /** What is decoded is exactly the scalar value whose encoding the bytes start with. */
  lemma DecodeIsInverse(s: seq<byte>, r: int)
    requires Scalar(r)
    ensures Decode(s) == (r, |Encode(r)|) <==> Encode(r) <= s
  {
    if Encode(r) <= s {
      EncodedIsDecoded(s, r);
    } else if Decode(s) == (r, |Encode(r)|) {
      DecodedWasEncoded(s);
    }
  }

  /** U+FFFD of size 1 is the answer exactly when no scalar value's encoding is there. */
  lemma DecodeRejects(s: seq<byte>)
    requires s != []
    ensures Decode(s) == (RUNE_ERROR, 1) <==> forall r | Scalar(r) :: !(Encode(r) <= s)
  {
    var (r, n) := Decode(s);
    if (r, n) == (RUNE_ERROR, 1) {
      forall q | Scalar(q) ensures !(Encode(q) <= s) {
        DecodeIsInverse(s, q);
      }
    } else {
      DecodedWasEncoded(s);
    }
  }

  /** A full rune is decoded the same whatever comes after it. */
  lemma FullRuneIsStable(s: seq<byte>, t: seq<byte>)
    requires FullRune(s)
    ensures FullRune(s + t) && Decode(s + t) == Decode(s)
  {
    assert forall i | 0 <= i < |s| :: (s + t)[i] == s[i];
  }

  /** Without a full rune, more bytes can still turn the answer into a scalar value. */
  lemma PartialRuneIsUndecided(s: seq<byte>) returns (t: seq<byte>)
    requires s != [] && !FullRune(s)
    ensures Decode(s) == (RUNE_ERROR, 1)
    ensures Decode(s + t).1 == |s + t| > 1 && Scalar(Decode(s + t).0)
  {
    var second: byte := if s[0] == 0xE0 then 0xA0 else if s[0] == 0xF0 then 0x90 else 0x80;
    var whole := [s[0], second, 0x80, 0x80];
    t := whole[|s|..SizeFrom(s[0])];
    var u := s + t;
    assert |u| == SizeFrom(s[0]) && u[0] == s[0];
    assert u[1] == if |s| > 1 then s[1] else second;
    assert |u| > 2 ==> u[2] == if |s| > 2 then s[2] else 0x80;
    assert |u| > 3 ==> u[3] == 0x80;
  }

  function EncodeAll(rs: seq<int>): seq<byte> {
    if rs == [] then [] else Encode(rs[0]) + EncodeAll(rs[1..])
  }

  /** Reading rune after rune until nothing is left. */
  function DecodeAll(s: seq<byte>): seq<(int, nat)> {
    if s == [] then [] else [Decode(s)] + DecodeAll(s[Decode(s).1..])
  }

  lemma EncodeAllAppend(rs: seq<int>, r: int)
    ensures EncodeAll(rs + [r]) == EncodeAll(rs) + Encode(r)
  {
    if rs == [] {
      assert EncodeAll([r]) == Encode(r) + EncodeAll([]);
    } else {
      assert (rs + [r])[1..] == rs[1..] + [r];
      EncodeAllAppend(rs[1..], r);
    }
  }

  /** What is read back for a value written: itself, or U+FFFD if it is no scalar value. */
  function Written(r: int): (int, nat) {
    (if Scalar(r) then r else RUNE_ERROR, |Encode(r)|)
  }

  lemma {:induction false} DecodeAllInverse(rs: seq<int>)
    ensures DecodeAll(EncodeAll(rs)) == seq(|rs|, i requires 0 <= i < |rs| => Written(rs[i]))
  {
    if rs != [] {
      var s := EncodeAll(rs);
      DecodeIsInverse(s, Written(rs[0]).0);
      assert s[|Encode(rs[0])|..] == EncodeAll(rs[1..]);
      DecodeAllInverse(rs[1..]);
    }
  }

  /** The order of byte strings, byte by byte. */
  predicate Below(a: seq<byte>, b: seq<byte>) {
    b != [] && (a == [] || a[0] < b[0] || (a[0] == b[0] && Below(a[1..], b[1..])))
  }

  lemma BelowAt(a: seq<byte>, b: seq<byte>, k: nat)
    requires k < |a| && k < |b| && a[..k] == b[..k] && a[k] < b[k]
    ensures Below(a, b)
  {
    if k > 0 {
      assert a[0] == a[..k][0] == b[..k][0] == b[0];
      assert a[1..][..k - 1] == a[..k][1..] && b[1..][..k - 1] == b[..k][1..];
      BelowAt(a[1..], b[1..], k - 1);
    }
  }

  /** Encodings stand in the order of their scalar values, and are no longer for smaller ones. */
  lemma EncodeKeepsOrder(r: int, q: int)
    requires Scalar(r) && Scalar(q) && r < q
    ensures Below(Encode(r), Encode(q)) && |Encode(r)| <= |Encode(q)|
  {
    var a, b := Encode(r), Encode(q);
    Digits(r);
    Digits(q);
    var k := if a[0] < b[0] then 0 else if a[1] < b[1] then 1 else if |a| > 2 && a[2] < b[2] then 2 else |a| - 1;
    BelowAt(a, b, k);
  }
}
