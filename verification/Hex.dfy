/** Hexadecimal text: lower case is written, both cases are read. */
module HexText {
  import opened Wrappers
  import opened ByteStrings

  function HexDigit(n: nat): (c: char)
    requires n < 16
    ensures c != 'x' && c != '\"'
  {
    if n < 10 then '0' + n as char else 'a' + (n - 10) as char
  }

  function DigitValue(c: char): (r: Option<nat>)
    ensures r.Some? ==> r.value < 16
  {
    if '0' <= c <= '9' then Some((c - '0') as nat)
    else if 'a' <= c <= 'f' then Some((c - 'a') as nat + 10)
    else if 'A' <= c <= 'F' then Some((c - 'A') as nat + 10)
    else None
  }

  lemma DigitRoundTrip(n: nat)
    requires n < 16
    ensures DigitValue(HexDigit(n)) == Some(n)
  {
  }

  function HexEncode(bs: Bytes): (s: string)
    ensures |s| == 2 * |bs|
    ensures forall c :: c in s ==> c != 'x' && c != '\"'
  {
    if bs == [] then [] else [HexDigit(bs[0] / 16), HexDigit(bs[0] % 16)] + HexEncode(bs[1..])
  }

  function HexDecode(s: string): (r: Option<Bytes>)
    ensures r.Some? ==> |s| == 2 * |r.value|
  {
    if s == [] then Some([])
    else if |s| == 1 then None
    else
      var hi :- DigitValue(s[0]);
      var lo :- DigitValue(s[1]);
      var bs :- HexDecode(s[2..]);
      Some([16 * hi + lo] + bs)
  }

  lemma {:induction false} HexRoundTrip(bs: Bytes)
    ensures HexDecode(HexEncode(bs)) == Some(bs)
  {
    if bs != [] {
      DigitRoundTrip(bs[0] / 16);
      DigitRoundTrip(bs[0] % 16);
      HexRoundTrip(bs[1..]);
      assert HexEncode(bs)[2..] == HexEncode(bs[1..]);
      assert 16 * (bs[0] / 16) + bs[0] % 16 == bs[0];
      assert [bs[0]] + bs[1..] == bs;
    }
  }

  lemma {:induction false} HexConcat(p: Bytes, q: Bytes)
    ensures HexEncode(p + q) == HexEncode(p) + HexEncode(q)
  {
    if p == [] {
      assert p + q == q && HexEncode(p) + HexEncode(q) == HexEncode(q);
    } else {
      HexConcat(p[1..], q);
      assert (p + q)[1..] == p[1..] + q;
    }
  }

  // ----- the texts

  const LOWER := "0123456789abcdef"
  const UPPER := "0123456789ABCDEF"

  /** The digits of a byte, the upper half first, in lower case. */
  lemma {:induction false} HexFormat(bs: Bytes)
    ensures forall i :: 0 <= i < |bs| ==>
              HexEncode(bs)[2 * i] == LOWER[bs[i] / 16] && HexEncode(bs)[2 * i + 1] == LOWER[bs[i] % 16]
  {
    if bs != [] {
      HexFormat(bs[1..]);
      DigitIsLower(bs[0] / 16);
      DigitIsLower(bs[0] % 16);
      forall i | 0 < i < |bs|
        ensures HexEncode(bs)[2 * i] == LOWER[bs[i] / 16] && HexEncode(bs)[2 * i + 1] == LOWER[bs[i] % 16]
      {
        assert HexEncode(bs)[2 * i] == HexEncode(bs[1..])[2 * (i - 1)];
        assert HexEncode(bs)[2 * i + 1] == HexEncode(bs[1..])[2 * (i - 1) + 1];
      }
    }
  }

  lemma DigitIsLower(n: nat)
    requires n < 16
    ensures HexDigit(n) == LOWER[n]
  {
  }

  /** `c` is the digit for `n`, in either case. */
  predicate IsDigit(c: char, n: nat) {
    n < 16 && (c == LOWER[n] || c == UPPER[n])
  }

  lemma DigitIsRead(c: char, n: nat)
    ensures DigitValue(c) == Some(n) <==> IsDigit(c, n)
  {
  }

  /** Exactly the texts that spell the bytes, in any mixture of cases, are decoded to them. */
  lemma {:induction false} HexAccepts(s: string, bs: Bytes)
    ensures HexDecode(s) == Some(bs) <==>
            |s| == 2 * |bs|
            && forall i :: 0 <= i < |bs| ==> IsDigit(s[2 * i], bs[i] / 16) && IsDigit(s[2 * i + 1], bs[i] % 16)
  {
    hide DigitValue, IsDigit;
    if |s| >= 2 && bs != [] {
      HexAccepts(s[2..], bs[1..]);
      DigitIsRead(s[0], bs[0] / 16);
      DigitIsRead(s[1], bs[0] % 16);
      assert bs == [bs[0]] + bs[1..];
      HexStep(s, bs);
      if HexDecode(s) == Some(bs) {
        forall i | 0 <= i < |bs| ensures IsDigit(s[2 * i], bs[i] / 16) && IsDigit(s[2 * i + 1], bs[i] % 16) {
          if i > 0 {
            assert s[2..][2 * (i - 1)] == s[2 * i] && s[2..][2 * (i - 1) + 1] == s[2 * i + 1];
          }
        }
      } else if |s| == 2 * |bs|
           && forall i :: 0 <= i < |bs| ==> IsDigit(s[2 * i], bs[i] / 16) && IsDigit(s[2 * i + 1], bs[i] % 16) {
        assert IsDigit(s[2 * 0], bs[0] / 16) && IsDigit(s[2 * 0 + 1], bs[0] % 16);
        forall i | 0 <= i < |bs| - 1
          ensures IsDigit(s[2..][2 * i], bs[1..][i] / 16) && IsDigit(s[2..][2 * i + 1], bs[1..][i] % 16)
        {
          assert IsDigit(s[2 * (i + 1)], bs[i + 1] / 16) && IsDigit(s[2 * (i + 1) + 1], bs[i + 1] % 16);
        }
      }
    }
  }

  lemma HexStep(s: string, bs: Bytes)
    requires |s| >= 2 && bs != []
    ensures HexDecode(s) == Some(bs) <==>
            DigitValue(s[0]) == Some(bs[0] / 16) && DigitValue(s[1]) == Some(bs[0] % 16)
            && HexDecode(s[2..]) == Some(bs[1..])
  {
    hide DigitValue;
    assert bs == [16 * (bs[0] / 16) + bs[0] % 16] + bs[1..];
    var hi, lo, others := DigitValue(s[0]), DigitValue(s[1]), HexDecode(s[2..]);
    if hi.Some? && lo.Some? && others.Some? {
      var all := [16 * hi.value + lo.value] + others.value;
      assert HexDecode(s) == Some(all) && all[1..] == others.value;
    }
  }

  // ----- the readers of src/utils.rs

  function TrimStart(s: string, c: char): string {
    if s != [] && s[0] == c then TrimStart(s[1..], c) else s
  }

  function TrimEnd(s: string, c: char): string {
    if s != [] && s[|s| - 1] == c then TrimEnd(s[..|s| - 1], c) else s
  }

  /** `trim_start_matches("0x")`: every leading "0x" goes. */
  function TrimPrefixes(s: string): string {
    if |s| >= 2 && s[0] == '0' && s[1] == 'x' then TrimPrefixes(s[2..]) else s
  }

  /** `Vec::from_hex` */
  function FromHex(s: string): Option<Bytes> {
    HexDecode(TrimPrefixes(TrimEnd(TrimStart(s, '\"'), '\"')))
  }

  /** `n` quotation marks. */
  function Quotes(n: nat): (q: string)
    ensures |q| == n && forall c :: c in q ==> c == '\"'
  {
    seq(n, _ => '\"')
  }

  lemma {:induction false} LeadingTrimmed(text: string, n: nat)
    requires text != [] && text[0] != '\"'
    ensures TrimStart(Quotes(n) + text, '\"') == text
  {
    if n > 0 {
      LeadingTrimmed(text, n - 1);
      assert (Quotes(n) + text)[1..] == Quotes(n - 1) + text;
    } else {
      assert Quotes(0) + text == text;
    }
  }

  lemma {:induction false} TrailingTrimmed(text: string, m: nat)
    requires text != [] && text[|text| - 1] != '\"'
    ensures TrimEnd(text + Quotes(m), '\"') == text
  {
    if m > 0 {
      var s := text + Quotes(m);
      TrailingTrimmed(text, m - 1);
      assert s[..|s| - 1] == text + Quotes(m - 1);
    } else {
      assert text + Quotes(0) == text;
    }
  }

  lemma {:induction false} OnlyQuotes(n: nat)
    ensures TrimStart(Quotes(n), '\"') == []
  {
    if n > 0 {
      OnlyQuotes(n - 1);
      assert Quotes(n)[1..] == Quotes(n - 1);
    }
  }

  /** `k` times "0x". */
  function Prefixes(k: nat): (s: string)
    ensures |s| == 2 * k && (s != [] ==> s[0] == '0')
  {
    if k == 0 then [] else "0x" + Prefixes(k - 1)
  }

  lemma {:induction false} PrefixesTrimmed(text: string, k: nat)
    requires !("0x" <= text)
    ensures TrimPrefixes(Prefixes(k) + text) == text
  {
    if k > 0 {
      PrefixesTrimmed(text, k - 1);
      assert (Prefixes(k) + text)[2..] == Prefixes(k - 1) + text;
    } else {
      assert Prefixes(0) + text == text;
    }
  }

  /**
   All quotation marks around a text are taken off, then all prefixes in front of it, and what is left
   is read as digits. Every string is of this form.
   */
  lemma FromHexTrims(n: nat, k: nat, text: string, m: nat)
    requires !("0x" <= text) && (text != [] ==> text[|text| - 1] != '\"')
    requires k == 0 && text != [] ==> text[0] != '\"'
    ensures FromHex(Quotes(n) + (Prefixes(k) + text) + Quotes(m)) == HexDecode(text)
  {
    hide TrimStart, TrimEnd, TrimPrefixes, HexDecode;
    var inner := Prefixes(k) + text;
    PrefixesTrimmed(text, k);
    if inner == [] {
      OnlyQuotes(n + m);
      assert Quotes(n) + inner + Quotes(m) == Quotes(n + m);
      NothingToTrim();
    } else {
      assert Quotes(n) + inner + Quotes(m) == Quotes(n) + (inner + Quotes(m));
      LastOfPrefixes(k);
      LeadingTrimmed(inner + Quotes(m), n);
      TrailingTrimmed(inner, m);
    }
  }

  lemma NothingToTrim()
    ensures TrimEnd([], '\"') == []
  {
  }

  lemma {:induction false} LastOfPrefixes(k: nat)
    ensures k > 0 ==> Prefixes(k)[|Prefixes(k)| - 1] == 'x'
  {
    if k > 1 {
      LastOfPrefixes(k - 1);
    }
  }

  /** Reading undoes writing, with or without quotation marks around the text. */
  lemma FromHexReads(bs: Bytes, n: nat, m: nat)
    ensures FromHex(Quotes(n) + ("0x" + HexEncode(bs)) + Quotes(m)) == Some(bs)
  {
    hide FromHex, HexDecode;
    var text := HexEncode(bs);
    assert |text| > 0 ==> text[|text| - 1] in text;
    assert |text| > 1 ==> text[1] in text;
    assert Prefixes(1) == "0x" + Prefixes(0) && Prefixes(1) + text == "0x" + text;
    FromHexTrims(n, 1, text, m);
    HexRoundTrip(bs);
  }
}
