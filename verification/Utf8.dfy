/** Which byte strings are text: exactly the encodings of lists of characters. */
module Utf8Text {
  import opened ByteStrings
  import opened Values

  /** The encoding of one character, a Unicode scalar value, in one to four bytes (RFC 3629, section 3). */
  function EncChar(c: char): (bs: Bytes)
    ensures |bs| >= 1
  {
    var n := c as int;
    if n < 0x80 then [n]
    else if n < 0x800 then [0xC0 + n / 0x40, 0x80 + n % 0x40]
    else if n < 0x1_0000 then [0xE0 + n / 0x1000, 0x80 + n / 0x40 % 0x40, 0x80 + n % 0x40]
    else [0xF0 + n / 0x4_0000, 0x80 + n / 0x1000 % 0x40, 0x80 + n / 0x40 % 0x40, 0x80 + n % 0x40]
  }

  function EncText(s: string): Bytes {
    if s == [] then [] else EncChar(s[0]) + EncText(s[1..])
  }

  function CharLength(bs: Bytes): nat
    requires bs != []
  {
    if bs[0] < 0x80 then 1 else if bs[0] < 0xE0 then 2 else if bs[0] < 0xF0 then 3 else 4
  }

  /** The number that the bytes of a character hold, six bits in each but the first. */
  function Scalar(bs: Bytes): int
    requires bs != [] && |bs| >= CharLength(bs)
  {
    var b: seq<int> := bs;
    match CharLength(bs)
    case 1 => b[0]
    case 2 => (b[0] - 0xC0) * 0x40 + (b[1] - 0x80)
    case 3 => (b[0] - 0xE0) * 0x1000 + (b[1] - 0x80) * 0x40 + (b[2] - 0x80)
    case _ => (b[0] - 0xF0) * 0x4_0000 + (b[1] - 0x80) * 0x1000 + (b[2] - 0x80) * 0x40 + (b[3] - 0x80)
  }

  /** The first character is complete, in its shortest form, and a scalar value. */
  predicate BeginsWithChar(bs: Bytes)
    requires bs != []
  {
    && |bs| >= CharLength(bs)
    && !(0x80 <= bs[0] < 0xC0)
    && (forall i :: 1 <= i < CharLength(bs) ==> 0x80 <= bs[i] < 0xC0)
    && (CharLength(bs) == 2 ==> Scalar(bs) >= 0x80)
    && (CharLength(bs) == 3 ==> Scalar(bs) >= 0x800 && !(0xD800 <= Scalar(bs) < 0xE000))
    && (CharLength(bs) == 4 ==> 0x1_0000 <= Scalar(bs) < 0x11_0000)
  }

  lemma ValidStep(bs: Bytes)
    requires bs != []
    ensures ValidUtf8(bs) <==> BeginsWithChar(bs) && ValidUtf8(bs[CharLength(bs)..])
  {
  }

  /** The groups of six bits of a number, and the number from its groups. */
  lemma Groups(n: nat)
    ensures n == n / 0x40 * 0x40 + n % 0x40
    ensures n == n / 0x1000 * 0x1000 + n / 0x40 % 0x40 * 0x40 + n % 0x40
    ensures n == n / 0x4_0000 * 0x4_0000 + n / 0x1000 % 0x40 * 0x1000 + n / 0x40 % 0x40 * 0x40 + n % 0x40
  {
    assert n / 0x1000 == n / 0x40 / 0x40;
    assert n / 0x4_0000 == n / 0x1000 / 0x40;
  }

  lemma FromGroups(a: nat, b: nat, c: nat, d: nat)
    requires b < 0x40 && c < 0x40 && d < 0x40
    ensures var n := a * 0x4_0000 + b * 0x1000 + c * 0x40 + d;
            n / 0x4_0000 == a && n / 0x1000 % 0x40 == b && n / 0x40 % 0x40 == c && n % 0x40 == d
            && n / 0x1000 == a * 0x40 + b && n / 0x40 == a * 0x1000 + b * 0x40 + c
  {
    var n := a * 0x4_0000 + b * 0x1000 + c * 0x40 + d;
    assert n / 0x40 == a * 0x1000 + b * 0x40 + c;
    assert n / 0x1000 == a * 0x40 + b;
  }

  lemma CharBegins(c: char, rest: Bytes)
    ensures var bs := EncChar(c) + rest;
            && CharLength(bs) == |EncChar(c)| && Scalar(bs) == c as int && BeginsWithChar(bs)
  {
    var bs, code := EncChar(c) + rest, EncChar(c);
    CharAlone(c);
    assert forall i :: 0 <= i < |code| ==> bs[i] == code[i];
    hide EncChar;
  }

  lemma CharAlone(c: char)
    ensures var bs := EncChar(c);
            && CharLength(bs) == |bs| && Scalar(bs) == c as int && BeginsWithChar(bs)
  {
    Groups(c as int);
  }

  lemma CharOf(bs: Bytes) returns (c: char)
    requires bs != [] && BeginsWithChar(bs)
    ensures CharLength(bs) <= |bs| && EncChar(c) == bs[..CharLength(bs)]
  {
    c := Scalar(bs) as char;
    var b: seq<int> := bs;
    match CharLength(bs)
    case 1 =>
    case 2 => FromGroups(0, 0, b[0] - 0xC0, b[1] - 0x80);
    case 3 => FromGroups(0, b[0] - 0xE0, b[1] - 0x80, b[2] - 0x80);
    case _ => FromGroups(b[0] - 0xF0, b[1] - 0x80, b[2] - 0x80, b[3] - 0x80);
  }

  /** Behind a character the rest decides. */
  lemma CharThenRest(c: char, rest: Bytes)
    ensures ValidUtf8(EncChar(c) + rest) <==> ValidUtf8(rest)
  {
    hide ValidUtf8, BeginsWithChar, Scalar, CharLength, EncChar;
    var bs := EncChar(c) + rest;
    CharBegins(c, rest);
    ValidStep(bs);
    assert bs[|EncChar(c)|..] == rest;
  }

  lemma {:induction false} TextIsValid(s: string)
    ensures ValidUtf8(EncText(s))
  {
    if s != [] {
      TextIsValid(s[1..]);
      CharThenRest(s[0], EncText(s[1..]));
    }
  }

  lemma {:induction false} ValidIsText(bs: Bytes) returns (s: string)
    requires ValidUtf8(bs)
    ensures EncText(s) == bs
    decreases |bs|
  {
    hide ValidUtf8, BeginsWithChar, EncChar;
    if bs == [] {
      s := [];
    } else {
      ValidStep(bs);
      var c := CharOf(bs);
      var others := ValidIsText(bs[CharLength(bs)..]);
      s := [c] + others;
      assert EncChar(c) + EncText(others) == bs;
    }
  }

  /** A byte string is valid exactly if it is the encoding of a list of characters. */
  lemma ValidExactly(bs: Bytes)
    ensures ValidUtf8(bs) <==> exists s :: EncText(s) == bs
  {
    if ValidUtf8(bs) {
      var s := ValidIsText(bs);
    } else if s :| EncText(s) == bs {
      TextIsValid(s);
    }
  }

  /** Different lists of characters have different encodings: no character begins another. */
  lemma {:induction false} TextsDiffer(s: string, t: string)
    requires EncText(s) == EncText(t)
    ensures s == t
  {
    if s != [] && t != [] {
      FirstCharsEqual(s[0], EncText(s[1..]), t[0], EncText(t[1..]));
      TextsDiffer(s[1..], t[1..]);
    }
  }

  lemma FirstCharsEqual(c: char, p: Bytes, d: char, q: Bytes)
    requires EncChar(c) + p == EncChar(d) + q
    ensures c == d && p == q
  {
    hide EncChar, Scalar, CharLength;
    CharBegins(c, p);
    CharBegins(d, q);
    assert p == (EncChar(c) + p)[|EncChar(c)|..];
    assert q == (EncChar(d) + q)[|EncChar(d)|..];
  }
}
