/**
 The compact integers of SCALE (Polkadot Protocol Specification, section A.2.2.1): the two low bits
 of the first byte select one of four modes, and a number is always written in the shortest mode
 that holds it.
 */
module CompactIntegers {
  import opened Wrappers
  import opened ByteStrings

  const SINGLE_LIMIT := 64
  const DOUBLE_LIMIT := 0x4000
  const QUAD_LIMIT := 0x4000_0000

  /** The number of bytes big-integer mode spends on `n`: the least width that holds it. */
  function ByteLength(n: nat): (w: nat)
    ensures n < Pow256(w)
    ensures w > 0 ==> n >= Pow256(w - 1)
  {
    if n == 0 then 0 else 1 + ByteLength(n / 256)
  }

  lemma ByteLengthUnique(n: nat, w: nat)
    requires w > 0 && Pow256(w - 1) <= n < Pow256(w)
    ensures ByteLength(n) == w
  {
    if ByteLength(n) < w {
      Pow256Monotonic(ByteLength(n), w - 1);
    } else if ByteLength(n) > w {
      Pow256Monotonic(w, ByteLength(n) - 1);
    }
  }

  lemma ByteLengthRange(n: nat)
    requires QUAD_LIMIT <= n < Pow256(16)
    ensures 4 <= ByteLength(n) <= 16
  {
    assert Pow256(3) == 0x100_0000;
    if ByteLength(n) <= 3 {
      Pow256Monotonic(ByteLength(n), 3);
    } else if ByteLength(n) > 16 {
      Pow256Monotonic(16, ByteLength(n) - 1);
    }
  }

  function EncCompact(n: U128Int): (bs: Bytes)
    ensures 1 <= |bs| <= 17
  {
    if n < SINGLE_LIMIT then
      [4 * n]
    else if n < DOUBLE_LIMIT then
      LE(4 * n + 1, 2)
    else if n < QUAD_LIMIT then
      LE(4 * n + 2, 4)
    else
      EncBig(n)
  }

  /** Big-integer mode: the first byte holds the number of bytes that follow, less four. */
  function EncBig(n: U128Int): (bs: Bytes)
    requires QUAD_LIMIT <= n
    ensures 5 <= |bs| <= 17
  {
    Pow256Values();
    ByteLengthRange(n);
    [4 * (ByteLength(n) - 4) + 3] + LE(n, ByteLength(n))
  }

  /**
   Decode a compact integer not above `max` (the largest number of the target type). The codec
   library rejects every form that is not the shortest one.
   */
  function DecCompact(data: Bytes, max: nat): (r: Option<(nat, Bytes)>)
    ensures r.Some? ==> r.value.0 <= max && |r.value.1| < |data|
  {
    if data == [] then
      None
    else if data[0] % 4 == 0 then
      Checked(data[0] / 4, 0, max, data[1..])
    else if data[0] % 4 == 1 then
      var (n, rest) :- DecLE(data, 2);
      Checked(n / 4, SINGLE_LIMIT, max, rest)
    else if data[0] % 4 == 2 then
      var (n, rest) :- DecLE(data, 4);
      Checked(n / 4, DOUBLE_LIMIT, max, rest)
    else
      DecBig(data, max)
  }

  function DecBig(data: Bytes, max: nat): (r: Option<(nat, Bytes)>)
    requires data != []
    ensures r.Some? ==> r.value.0 <= max && |r.value.1| < |data|
  {
    var w := data[0] / 4 + 4;
    var (n, rest) :- DecLE(data[1..], w);
    if n < QUAD_LIMIT then None else Checked(n, Pow256(w - 1), max, rest)
  }

  function Checked(n: nat, least: nat, max: nat, rest: Bytes): (r: Option<(nat, Bytes)>) {
    if least <= n <= max then Some((n, rest)) else None
  }

  lemma CompactRoundTrip(n: U128Int, max: nat, rest: Bytes)
    requires n <= max
    ensures DecCompact(EncCompact(n) + rest, max) == Some((n, rest))
  {
    if n < SINGLE_LIMIT {
    } else if n < DOUBLE_LIMIT {
      ShortMode(n, 2, 1, rest);
    } else if n < QUAD_LIMIT {
      ShortMode(n, 4, 2, rest);
    } else {
      hide EncBig, DecBig;
      BigMode(n, max, rest);
    }
  }

  lemma ShortMode(n: nat, w: nat, mode: nat, rest: Bytes)
    requires (w == 2 && n < DOUBLE_LIMIT) || (w == 4 && n < QUAD_LIMIT)
    requires mode < 4
    ensures DecLE(LE(4 * n + mode, w) + rest, w) == Some((4 * n + mode, rest))
    ensures LE(4 * n + mode, w)[0] % 4 == mode
  {
    Pow256Values();
    DecLEOfLE(4 * n + mode, w, rest);
    assert LE(4 * n + mode, w)[0] == (4 * n + mode) % 256;
  }

  lemma BigMode(n: U128Int, max: nat, rest: Bytes)
    requires QUAD_LIMIT <= n <= max
    ensures EncBig(n)[0] % 4 == 3
    ensures DecBig(EncBig(n) + rest, max) == Some((n, rest))
  {
    hide LE, DecLE, Pow256, ByteLength;
    Pow256Values();
    ByteLengthRange(n);
    var w := ByteLength(n);
    var data := EncBig(n) + rest;
    assert data[0] == 4 * (w - 4) + 3;
    DecLEOfLE(n, w, rest);
    assert data[1..] == LE(n, w) + rest;
  }

  /** Only the shortest form decodes, so decoding loses nothing. */
  lemma CompactLossless(data: Bytes, max: U128Int)
    requires DecCompact(data, max).Some?
    ensures EncCompact(DecCompact(data, max).value.0) + DecCompact(data, max).value.1 == data
  {
    hide LE, FromLE;
    if data[0] % 4 == 0 {
    } else if data[0] % 4 == 1 {
      ShortLossless(data, 2);
    } else if data[0] % 4 == 2 {
      ShortLossless(data, 4);
    } else {
      hide EncBig, DecBig;
      BigLossless(data, max);
    }
  }

  lemma ShortLossless(data: Bytes, w: nat)
    requires 0 < w <= |data|
    ensures var (n, rest) := DecLE(data, w).value;
            n % 4 == data[0] % 4 && LE(4 * (n / 4) + data[0] % 4, w) + rest == data
  {
    hide LE;
    LEOfDecLE(data, w);
    assert data[..w][0] == data[0];
    assert FromLE(data[..w]) % 256 == data[0];
  }

  lemma BigLossless(data: Bytes, max: U128Int)
    requires data != [] && data[0] % 4 == 3 && DecBig(data, max).Some?
    ensures var (n, rest) := DecBig(data, max).value;
            n >= QUAD_LIMIT && EncBig(n) + rest == data
  {
    hide LE, FromLE, Pow256, ByteLength;
    var (n, rest) := DecBig(data, max).value;
    var w := data[0] / 4 + 4;
    LEOfDecLE(data[1..], w);
    ByteLengthUnique(n, w);
    assert data == [data[0]] + data[1..];
  }

  /**
   The format, seen from the bytes: the mode, the length it implies, the number they hold, and that
   no shorter mode holds it.
   */
  lemma CompactFormat(n: U128Int)
    ensures var bs := EncCompact(n);
            match bs[0] % 4
            case 0 => |bs| == 1 && FromLE(bs) / 4 == n && n < SINGLE_LIMIT
            case 1 => |bs| == 2 && FromLE(bs) / 4 == n && SINGLE_LIMIT <= n < DOUBLE_LIMIT
            case 2 => |bs| == 4 && FromLE(bs) / 4 == n && DOUBLE_LIMIT <= n < QUAD_LIMIT
            case _ => |bs| == bs[0] / 4 + 5 && FromLE(bs[1..]) == n && QUAD_LIMIT <= n && bs[|bs| - 1] != 0
  {
    if n < SINGLE_LIMIT {
      assert FromLE([4 * n]) == 4 * n + 256 * FromLE([4 * n][1..]);
    } else if n < DOUBLE_LIMIT {
      Pow256Values();
      ShortMode(n, 2, 1, []);
      FromLEOfLE(4 * n + 1, 2);
    } else if n < QUAD_LIMIT {
      Pow256Values();
      ShortMode(n, 4, 2, []);
      FromLEOfLE(4 * n + 2, 4);
    } else {
      hide EncBig;
      BigFormat(n);
    }
  }

  lemma BigFormat(n: U128Int)
    requires QUAD_LIMIT <= n
    ensures var bs := EncBig(n);
            bs[0] % 4 == 3 && |bs| == bs[0] / 4 + 5 && FromLE(bs[1..]) == n && bs[|bs| - 1] != 0
  {
    hide LE, FromLE, Pow256, ByteLength;
    Pow256Values();
    ByteLengthRange(n);
    var w := ByteLength(n);
    var bs := EncBig(n);
    assert bs[0] == 4 * (w - 4) + 3 && bs[1..] == LE(n, w);
    FromLEOfLE(n, w);
    if bs[|bs| - 1] == 0 {
      TopByteZero(LE(n, w));
    }
  }

  lemma TopByteZero(bs: Bytes)
    requires bs != [] && bs[|bs| - 1] == 0
    ensures FromLE(bs) < Pow256(|bs| - 1)
  {
    var low := bs[..|bs| - 1];
    assert bs == low + [0];
    FromLEConcat(low, [0]);
    assert FromLE([0]) == 0;
  }

  /** Decoding depends only on the bytes it consumes. */
  lemma CompactLocal(data: Bytes, max: U128Int, tail: Bytes)
    requires DecCompact(data, max).Some?
    ensures var (n, rest) := DecCompact(data, max).value;
            data == Consumed(data, rest) + rest
            && DecCompact(Consumed(data, rest) + tail, max) == Some((n, tail))
  {
    hide EncCompact, DecCompact;
    var (n, rest) := DecCompact(data, max).value;
    CompactLossless(data, max);
    CompactRoundTrip(n, max, tail);
    assert Consumed(data, rest) == EncCompact(n);
  }
}
