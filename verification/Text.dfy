/** Text as the modelled code sees it: strings of Unicode scalar values, their UTF-8 bytes, the
    byte-wise order of `str`, decimal printing, and the hyphenated printing of UUIDs. */
module Text {
  import opened Wrappers
  import opened Ordering

  type byte = x: int | 0 <= x < 256

  // ---- UTF-8 ----

  function EncodeChar(c: char): seq<byte> {
    var n := c as int;
    if n < 0x80 then [n]
    else if n < 0x800 then [0xC0 + n / 64, 0x80 + n % 64]
    else if n < 0x10000 then [0xE0 + n / 4096, 0x80 + n / 64 % 64, 0x80 + n % 64]
    else [0xF0 + n / 262144, 0x80 + n / 4096 % 64, 0x80 + n / 64 % 64, 0x80 + n % 64]
  }

  function Utf8(s: string): seq<byte> {
    if s == [] then [] else EncodeChar(s[0]) + Utf8(s[1..])
  }

  lemma SixBits(n: nat)
    ensures n == 64 * (n / 64) + n % 64
    ensures n / 64 == 64 * (n / 4096) + n / 64 % 64
    ensures n / 4096 == 64 * (n / 262144) + n / 4096 % 64
  {
  }

  /** A character is determined by the bytes at the head of an encoding. */
  lemma EncodeCharPrefix(c: char, d: char, x: seq<byte>, y: seq<byte>)
    requires EncodeChar(c) + x == EncodeChar(d) + y
    ensures c == d && x == y
  {
    var a, b := EncodeChar(c) + x, EncodeChar(d) + y;
    assert a[0] == b[0];
    assert |EncodeChar(c)| == |EncodeChar(d)|;
    assert forall i :: 0 <= i < |EncodeChar(c)| ==> EncodeChar(c)[i] == a[i] && EncodeChar(d)[i] == b[i];
    SixBits(c as int);
    SixBits(d as int);
    if |EncodeChar(c)| >= 2 {
      assert a[1] == b[1];
    }
    if |EncodeChar(c)| >= 3 {
      assert a[2] == b[2];
    }
    if |EncodeChar(c)| >= 4 {
      assert a[3] == b[3];
    }
    assert c as int == d as int;
    assert x == a[|EncodeChar(c)|..] && y == b[|EncodeChar(d)|..];
  }

  lemma {:induction false} Utf8Injective(s: string, t: string)
    requires Utf8(s) == Utf8(t)
    ensures s == t
  {
    if s != [] && t != [] {
      EncodeCharPrefix(s[0], t[0], Utf8(s[1..]), Utf8(t[1..]));
      Utf8Injective(s[1..], t[1..]);
    }
  }

  /** The code point that the bytes of one character stand for (section 3 of RFC 3629); bytes after the
      first carry six bits each. */
  function DecodeChar(b: seq<byte>): Option<int> {
    if |b| == 1 && b[0] < 0x80 then Some(b[0])
    else if |b| == 2 && 0xC0 <= b[0] < 0xE0 && Tail(b[1]) then Some((b[0] as int - 0xC0) * 64 + (b[1] as int - 0x80))
    else if |b| == 3 && 0xE0 <= b[0] < 0xF0 && Tail(b[1]) && Tail(b[2])
    then Some((b[0] as int - 0xE0) * 4096 + (b[1] as int - 0x80) * 64 + (b[2] as int - 0x80))
    else if |b| == 4 && 0xF0 <= b[0] < 0xF8 && Tail(b[1]) && Tail(b[2]) && Tail(b[3])
    then Some((b[0] as int - 0xF0) * 262144 + (b[1] as int - 0x80) * 4096 + (b[2] as int - 0x80) * 64 + (b[3] as int - 0x80))
    else None
  }

  predicate Tail(b: byte) {
    0x80 <= b < 0xC0
  }

  /** Every character is encoded as its code point, in the shortest form. */
  lemma EncodesCodePoint(c: char)
    ensures DecodeChar(EncodeChar(c)) == Some(c as int)
    ensures |EncodeChar(c)| == if c as int < 0x80 then 1 else if c as int < 0x800 then 2 else if c as int < 0x1_0000 then 3 else 4
  {
    SixBits(c as int);
  }

  /** The control characters are the two blocks of 32 below U+0020 and from U+0080 on, and U+007F. */
  lemma ControlsAre(c: char)
    ensures IsControl(c) <==> c as int == 127 || (c as int < 160 && c as int % 128 < 32)
  {
  }

  const WHITE_SPACE := {
    9, 10, 11, 12, 13, 32, 133, 160, 5760, 8192, 8193, 8194, 8195, 8196, 8197, 8198, 8199, 8200, 8201, 8202,
    8232, 8233, 8239, 8287, 12288}

  /** The 25 characters of the Unicode property White_Space. */
  lemma WhitespaceIs(c: char)
    ensures IsWhitespace(c) <==> c as int in WHITE_SPACE
  {
  }

  predicate IsControl(c: char) {
    c as int < 0x20 || 0x7f <= c as int < 0xa0
  }

  /** The Unicode White_Space property, as `char::is_whitespace` tests it. */
  predicate IsWhitespace(c: char) {
    var n := c as int;
    9 <= n <= 13 || n == 0x20 || n == 0x85 || n == 0xa0 || n == 0x1680 || 0x2000 <= n <= 0x200a
    || n == 0x2028 || n == 0x2029 || n == 0x202f || n == 0x205f || n == 0x3000
  }

  predicate HasControl(s: string) {
    exists c :: c in s && IsControl(c)
  }

  /** `s.trim().is_empty()` */
  predicate IsBlank(s: string) {
    forall c :: c in s ==> IsWhitespace(c)
  }

  // ---- order ----

  predicate BytesLeq(a: seq<byte>, b: seq<byte>) {
    a == [] || (b != [] && (a[0] < b[0] || (a[0] == b[0] && BytesLeq(a[1..], b[1..]))))
  }

  lemma {:induction false} BytesTotal(a: seq<byte>, b: seq<byte>)
    ensures BytesLeq(a, b) || BytesLeq(b, a)
    ensures BytesLeq(a, b) && BytesLeq(b, a) ==> a == b
  {
    if a != [] && b != [] && a[0] == b[0] {
      BytesTotal(a[1..], b[1..]);
      assert a == [a[0]] + a[1..] && b == [b[0]] + b[1..];
    }
  }

  lemma {:induction false} BytesTransitive(a: seq<byte>, b: seq<byte>, c: seq<byte>)
    requires BytesLeq(a, b) && BytesLeq(b, c)
    ensures BytesLeq(a, c)
  {
    if a != [] && a[0] == b[0] == c[0] {
      BytesTransitive(a[1..], b[1..], c[1..]);
    }
  }

  /** `str` compares by bytes. */
  predicate StrLeq(s: string, t: string) {
    BytesLeq(Utf8(s), Utf8(t))
  }

  lemma StrOrder(s: string, t: string)
    ensures StrLeq(s, t) || StrLeq(t, s)
    ensures StrLeq(s, t) && StrLeq(t, s) ==> s == t
    ensures StrLeq(s, s)
  {
    BytesTotal(Utf8(s), Utf8(t));
    BytesTotal(Utf8(s), Utf8(s));
    if Utf8(s) == Utf8(t) {
      Utf8Injective(s, t);
    }
  }

  /** `str` order is total, and only equal strings compare both ways. */
  lemma StrTotal()
    ensures TotalOrder(StrLeq)
  {
    forall s, t ensures StrLeq(s, t) || StrLeq(t, s) {
      StrOrder(s, t);
    }
    forall s, t | StrLeq(s, t) && StrLeq(t, s) ensures s == t {
      StrOrder(s, t);
    }
    forall s, t, u | StrLeq(s, t) && StrLeq(t, u) ensures StrLeq(s, u) {
      BytesTransitive(Utf8(s), Utf8(t), Utf8(u));
    }
  }

  lemma LeastIsThere(keys: set<string>)
    requires keys != {}
    ensures exists k :: k in keys && forall y :: y in keys ==> StrLeq(k, y)
    ensures forall j, k | j in keys && k in keys && (forall y :: y in keys ==> StrLeq(j, y))
                          && (forall y :: y in keys ==> StrLeq(k, y)) :: j == k
  {
    StrTotal();
    var k := LeastExists(StrLeq, keys);
    assert k in keys && forall y :: y in keys ==> StrLeq(k, y);
  }

  /** The key a `BTreeMap` yields first. */
  function Least(keys: set<string>): (k: string)
    requires keys != {}
    ensures IsLeast(StrLeq, k, keys)
  {
    LeastIsThere(keys);
    var k :| k in keys && forall y :: y in keys ==> StrLeq(k, y);
    k
  }

  // ---- decimal ----

  predicate IsDigit(b: byte) {
    48 <= b <= 57
  }

  function Digits(n: nat): (s: seq<byte>)
    ensures s != [] && forall i :: 0 <= i < |s| ==> IsDigit(s[i])
  {
    if n < 10 then [48 + n] else Digits(n / 10) + [48 + n % 10]
  }

  function DigitsValue(s: seq<byte>): int {
    if s == [] then 0 else 10 * DigitsValue(s[..|s| - 1]) + s[|s| - 1] - 48
  }

  lemma {:induction false} DigitsRoundTrip(n: nat)
    ensures DigitsValue(Digits(n)) == n
  {
    if n >= 10 {
      DigitsRoundTrip(n / 10);
      assert Digits(n)[..|Digits(n)| - 1] == Digits(n / 10);
    }
  }

  /** `to_string` of a signed integer. */
  function Decimal(x: int): seq<byte> {
    if x < 0 then [45] + Digits(-x) else Digits(x)
  }

  lemma DecimalInjective(x: int, y: int)
    requires Decimal(x) == Decimal(y)
    ensures x == y
  {
    if x >= 0 { DigitsRoundTrip(x); } else { DigitsRoundTrip(-x); }
    if y >= 0 { DigitsRoundTrip(y); } else { DigitsRoundTrip(-y); }
    assert Decimal(x)[0] == Decimal(y)[0];
    if x < 0 {
      assert Decimal(x)[1..] == Digits(-x);
      assert Decimal(y)[1..] == Digits(-y);
    }
  }

  // ---- UUID ----

  type Uuid = u: seq<byte> | |u| == 16 witness seq(16, _ => 0)

  function HexDigit(n: int): byte
    requires 0 <= n < 16
  {
    if n < 10 then 48 + n else 87 + n
  }

  function HexBytes(u: seq<byte>): (h: seq<byte>)
    ensures |h| == 2 * |u|
  {
    if u == [] then [] else [HexDigit(u[0] / 16), HexDigit(u[0] % 16)] + HexBytes(u[1..])
  }

  lemma {:induction false} HexBytesInjective(u: seq<byte>, v: seq<byte>)
    requires HexBytes(u) == HexBytes(v)
    ensures u == v
  {
    assert |u| == |v|;
    if u != [] {
      var a, b := HexBytes(u), HexBytes(v);
      assert a[0] == b[0] && a[1] == b[1];
      assert u[0] == v[0];
      assert HexBytes(u[1..]) == a[2..] && HexBytes(v[1..]) == b[2..];
      HexBytesInjective(u[1..], v[1..]);
      assert u == [u[0]] + u[1..] && v == [v[0]] + v[1..];
    }
  }

  /** The hyphenated lower-case form, 8-4-4-4-12. */
  function UuidText(u: Uuid): (t: seq<byte>)
    ensures |t| == 36
  {
    HexBytes(u[..4]) + [45] + HexBytes(u[4..6]) + [45] + HexBytes(u[6..8]) + [45]
    + HexBytes(u[8..10]) + [45] + HexBytes(u[10..])
  }

  /** The text of a UUID has hyphens at four places, and without them it is its bytes in hexadecimal. */
  lemma UuidShape(u: Uuid)
    ensures var t := UuidText(u);
            && t[8] == t[13] == t[18] == t[23] == 45
            && t[..8] + t[9..13] + t[14..18] + t[19..23] + t[24..] == HexBytes(u)
  {
    var t := UuidText(u);
    HexBytesJoin(u[..4], u[4..6]);
    HexBytesJoin(u[..4] + u[4..6], u[6..8]);
    HexBytesJoin(u[..4] + u[4..6] + u[6..8], u[8..10]);
    HexBytesJoin(u[..4] + u[4..6] + u[6..8] + u[8..10], u[10..]);
    assert u == u[..4] + u[4..6] + u[6..8] + u[8..10] + u[10..];
    hide HexBytes;
    assert t[..8] == HexBytes(u[..4]) && t[9..13] == HexBytes(u[4..6]) && t[14..18] == HexBytes(u[6..8]);
    assert t[19..23] == HexBytes(u[8..10]) && t[24..] == HexBytes(u[10..]);
  }

  lemma {:induction false} HexBytesJoin(u: seq<byte>, v: seq<byte>)
    ensures HexBytes(u + v) == HexBytes(u) + HexBytes(v)
  {
    if u == [] {
      assert u + v == v;
    } else {
      HexBytesJoin(u[1..], v);
      assert (u + v)[1..] == u[1..] + v;
    }
  }

  lemma UuidTextInjective(u: Uuid, v: Uuid)
    requires UuidText(u) == UuidText(v)
    ensures u == v
  {
    var a, b := UuidText(u), UuidText(v);
    assert a[..8] == HexBytes(u[..4]) && b[..8] == HexBytes(v[..4]);
    assert a[9..13] == HexBytes(u[4..6]) && b[9..13] == HexBytes(v[4..6]);
    assert a[14..18] == HexBytes(u[6..8]) && b[14..18] == HexBytes(v[6..8]);
    assert a[19..23] == HexBytes(u[8..10]) && b[19..23] == HexBytes(v[8..10]);
    assert a[24..] == HexBytes(u[10..]) && b[24..] == HexBytes(v[10..]);
    HexBytesInjective(u[..4], v[..4]);
    HexBytesInjective(u[4..6], v[4..6]);
    HexBytesInjective(u[6..8], v[6..8]);
    HexBytesInjective(u[8..10], v[8..10]);
    HexBytesInjective(u[10..], v[10..]);
    assert u == u[..4] + u[4..6] + u[6..8] + u[8..10] + u[10..];
    assert v == v[..4] + v[4..6] + v[6..8] + v[8..10] + v[10..];
  }
}
