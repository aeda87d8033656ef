/** Bytes and little-endian numbers of a fixed width. */
module ByteStrings {
  import opened Wrappers

  type Byte = b: int | 0 <= b < 256
  type Bytes = seq<Byte>
  type U128Int = n: nat | n < 0x1_0000_0000_0000_0000_0000_0000_0000_0000
  type I128Int = n: int | -0x8000_0000_0000_0000_0000_0000_0000_0000 <= n < 0x8000_0000_0000_0000_0000_0000_0000_0000

  function Pow256(w: nat): (p: nat)
    ensures p >= 1
  {
    if w == 0 then 1 else 256 * Pow256(w - 1)
  }

  lemma Pow256Values()
    ensures Pow256(1) == 0x100
    ensures Pow256(2) == 0x1_0000
    ensures Pow256(4) == 0x1_0000_0000
    ensures Pow256(8) == 0x1_0000_0000_0000_0000
    ensures Pow256(16) == 0x1_0000_0000_0000_0000_0000_0000_0000_0000
  {
    assert Pow256(3) == 0x100_0000;
    assert Pow256(6) == 0x1_0000_0000_0000;
    assert Pow256(10) == 0x1_0000_0000_0000_0000_0000;
    assert Pow256(12) == 0x1_0000_0000_0000_0000_0000_0000;
    assert Pow256(14) == 0x1_0000_0000_0000_0000_0000_0000_0000;
  }

  lemma {:induction false} Pow256Monotonic(v: nat, w: nat)
    requires v <= w
    ensures Pow256(v) <= Pow256(w)
  {
    if v < w {
      Pow256Monotonic(v, w - 1);
    }
  }

  /** The `w` least significant bytes of `n`, least significant first. */
  function LE(n: nat, w: nat): (bs: Bytes)
    ensures |bs| == w
  {
    if w == 0 then [] else [n % 256] + LE(n / 256, w - 1)
  }

  function FromLE(bs: Bytes): (n: nat)
    ensures n < Pow256(|bs|)
  {
    if bs == [] then 0 else bs[0] + 256 * FromLE(bs[1..])
  }

  lemma {:induction false} FromLEOfLE(n: nat, w: nat)
    requires n < Pow256(w)
    ensures FromLE(LE(n, w)) == n
  {
    if w > 0 {
      FromLEOfLE(n / 256, w - 1);
      assert LE(n, w)[1..] == LE(n / 256, w - 1);
    }
  }

  lemma {:induction false} LEOfFromLE(bs: Bytes)
    ensures LE(FromLE(bs), |bs|) == bs
  {
    if bs != [] {
      LEOfFromLE(bs[1..]);
      assert FromLE(bs) % 256 == bs[0] && FromLE(bs) / 256 == FromLE(bs[1..]);
    }
  }

  lemma {:induction false} FromLEConcat(p: Bytes, q: Bytes)
    ensures FromLE(p + q) == FromLE(p) + Pow256(|p|) * FromLE(q)
  {
    if p == [] {
      assert p + q == q;
    } else {
      FromLEConcat(p[1..], q);
      assert (p + q)[1..] == p[1..] + q;
      var rest, scale := FromLE(q), Pow256(|p| - 1);
      assert FromLE(p + q) == p[0] + 256 * FromLE(p[1..] + q);
      assert FromLE(p) == p[0] + 256 * FromLE(p[1..]);
      assert Pow256(|p|) == 256 * scale;
      hide *;
      Distribute(256, p[0], FromLE(p[1..]), scale, rest);
    }
  }

  lemma Distribute(b: int, x: int, y: int, scale: int, rest: int)
    ensures x + b * (y + scale * rest) == x + b * y + (b * scale) * rest
  {
  }

  /** Read exactly `w` bytes from the front of `data`. */
  function Take(data: Bytes, w: nat): (r: Option<(Bytes, Bytes)>)
    ensures r.Some? <==> w <= |data|
    ensures r.Some? ==> |r.value.0| == w && data == r.value.0 + r.value.1
  {
    if w <= |data| then Some((data[..w], data[w..])) else None
  }

  /** Read a little-endian number of `w` bytes from the front of `data`. */
  function DecLE(data: Bytes, w: nat): (r: Option<(nat, Bytes)>)
    ensures r.Some? <==> w <= |data|
    ensures r.Some? ==> r.value.0 < Pow256(w) && |r.value.1| == |data| - w
  {
    var (bs, rest) :- Take(data, w);
    Some((FromLE(bs), rest))
  }

  lemma DecLEOfLE(n: nat, w: nat, rest: Bytes)
    requires n < Pow256(w)
    ensures DecLE(LE(n, w) + rest, w) == Some((n, rest))
  {
    FromLEOfLE(n, w);
    assert (LE(n, w) + rest)[..w] == LE(n, w);
  }

  lemma LEOfDecLE(data: Bytes, w: nat)
    requires DecLE(data, w).Some?
    ensures LE(DecLE(data, w).value.0, w) + DecLE(data, w).value.1 == data
  {
    LEOfFromLE(data[..w]);
  }

  // ----- what a reader has consumed

  /** The bytes a reader took from `data` when it left `rest`. */
  function Consumed(data: Bytes, rest: Bytes): (p: Bytes)
    requires |rest| <= |data|
    ensures |p| + |rest| == |data|
  {
    data[..|data| - |rest|]
  }

  /** One reader after the other: what both consumed, and what lies before any other `tail`. */
  lemma ConsumedSplit(data: Bytes, mid: Bytes, rest: Bytes, tail: Bytes)
    requires |rest| <= |mid| <= |data|
    requires data == Consumed(data, mid) + mid && mid == Consumed(mid, rest) + rest
    ensures data == Consumed(data, rest) + rest
    ensures Consumed(data, rest) == Consumed(data, mid) + Consumed(mid, rest)
    ensures Consumed(data, rest) + tail == Consumed(data, mid) + (Consumed(mid, rest) + tail)
  {
    assert data == (Consumed(data, mid) + Consumed(mid, rest)) + rest;
  }
}
