/**
 Bit sequences: a compact bit count followed by little-endian store words, with the bits of each
 word laid out from its least (`Lsb0`) or most (`Msb0`) significant end.
 */
module BitPacking {
  import opened Wrappers
  import opened ByteStrings
  import opened CompactIntegers

  datatype BitOrder = Lsb0 | Msb0

  /** Bytes per store word: the stores are u8, u16, u32 and u64. */
  type StoreBytes = w: nat | w == 1 || w == 2 || w == 4 || w == 8 witness 1

  const U32_MAX := 0xFFFF_FFFF

  function Pow2(w: nat): (p: nat)
    ensures p >= 1
  {
    if w == 0 then 1 else 2 * Pow2(w - 1)
  }

  lemma {:induction false} Pow2OfBytes(w: nat)
    ensures Pow2(8 * w) == Pow256(w)
  {
    if w > 0 {
      Pow2OfBytes(w - 1);
      var b := 8 * (w - 1);
      assert Pow2(b + 2) == 4 * Pow2(b);
      assert Pow2(b + 4) == 4 * Pow2(b + 2);
      assert Pow2(b + 6) == 4 * Pow2(b + 4);
      assert Pow2(b + 8) == 4 * Pow2(b + 6);
    }
  }

  /** The number whose binary digits are `bits`, least significant first. */
  function FromBits(bits: seq<bool>): (n: nat)
    ensures n < Pow2(|bits|)
  {
    if bits == [] then 0 else (if bits[0] then 1 else 0) + 2 * FromBits(bits[1..])
  }

  function ToBits(n: nat, w: nat): (bits: seq<bool>)
    ensures |bits| == w
  {
    if w == 0 then [] else [n % 2 == 1] + ToBits(n / 2, w - 1)
  }

  lemma {:induction false} ToBitsOfFromBits(bits: seq<bool>)
    ensures ToBits(FromBits(bits), |bits|) == bits
  {
    if bits != [] {
      ToBitsOfFromBits(bits[1..]);
      assert FromBits(bits) / 2 == FromBits(bits[1..]);
    }
  }

  lemma {:induction false} FromBitsOfToBits(n: nat, w: nat)
    requires n < Pow2(w)
    ensures FromBits(ToBits(n, w)) == n
  {
    if w > 0 {
      FromBitsOfToBits(n / 2, w - 1);
      assert ToBits(n, w)[1..] == ToBits(n / 2, w - 1);
    }
  }

  function Reverse(bits: seq<bool>): (r: seq<bool>)
    ensures |r| == |bits|
    ensures forall i :: 0 <= i < |bits| ==> r[i] == bits[|bits| - 1 - i]
  {
    seq(|bits|, i requires 0 <= i < |bits| => bits[|bits| - 1 - i])
  }

  /** The value of a store word that holds `bits` in the given order. */
  function ToWord(bits: seq<bool>, order: BitOrder): (n: nat)
    ensures n < Pow2(|bits|)
  {
    if order == Lsb0 then FromBits(bits) else FromBits(Reverse(bits))
  }

  function OfWord(n: nat, w: nat, order: BitOrder): (bits: seq<bool>)
    ensures |bits| == w
  {
    if order == Lsb0 then ToBits(n, w) else Reverse(ToBits(n, w))
  }

  lemma WordRoundTrip(bits: seq<bool>, order: BitOrder)
    ensures OfWord(ToWord(bits, order), |bits|, order) == bits
  {
    ToBitsOfFromBits(bits);
    ToBitsOfFromBits(Reverse(bits));
    assert Reverse(Reverse(bits)) == bits;
  }

  lemma WordLossless(n: nat, w: nat, order: BitOrder)
    requires n < Pow2(w)
    ensures ToWord(OfWord(n, w, order), order) == n
  {
    FromBitsOfToBits(n, w);
    assert Reverse(Reverse(ToBits(n, w))) == ToBits(n, w);
  }

  function Zeros(n: nat): (z: seq<bool>)
    ensures |z| == n && (forall b :: b in z ==> !b)
  {
    seq(n, _ => false)
  }

  /** `len` bytes are a whole number of store words. */
  predicate Whole(len: nat, w: StoreBytes) {
    len == 0 || (len >= w && Whole(len - w, w))
  }

  /** The length of the payload: the least whole number of words that holds `n` bits. */
  function PayloadLength(n: nat, w: StoreBytes): (len: nat)
    ensures Whole(len, w)
    ensures 8 * len >= n
    ensures n > 0 ==> 8 * (len - w) < n
    decreases n
  {
    if n == 0 then 0 else if n <= 8 * w then w else w + PayloadLength(n - 8 * w, w)
  }

  function WordsOfBits(bits: seq<bool>, w: StoreBytes, order: BitOrder): Bytes
    decreases |bits|
  {
    if |bits| < 8 * w then [] else LE(ToWord(bits[..8 * w], order), w) + WordsOfBits(bits[8 * w..], w, order)
  }

  function BitsOfWords(bs: Bytes, w: StoreBytes, order: BitOrder): seq<bool>
    decreases |bs|
  {
    if |bs| < w then [] else OfWord(FromLE(bs[..w]), 8 * w, order) + BitsOfWords(bs[w..], w, order)
  }

  /** The payload of a bit sequence: its last word is filled up with zero bits. */
  function Pack(bits: seq<bool>, w: StoreBytes, order: BitOrder): Bytes {
    WordsOfBits(bits + Zeros(8 * PayloadLength(|bits|, w) - |bits|), w, order)
  }

  /**
   Read `n` bits. With `zeroPad` the unused bits of the last word must be zero; the codec library
   does not look at them.
   */
  function Unpack(data: Bytes, n: nat, w: StoreBytes, order: BitOrder, zeroPad: bool): (r: Option<(seq<bool>, Bytes)>)
    ensures r.Some? ==> |r.value.1| <= |data|
  {
    var (payload, rest) :- Take(data, PayloadLength(n, w));
    var bits := BitsOfWords(payload, w, order);
    BitsOfWordsLength(payload, w, order);
    if zeroPad && bits[n..] != Zeros(|bits| - n) then None else Some((bits[..n], rest))
  }

  function EncBits(bits: seq<bool>, w: StoreBytes, order: BitOrder): Option<Bytes> {
    if |bits| <= U32_MAX then Some(EncCompact(|bits|) + Pack(bits, w, order)) else None
  }

  function DecBits(data: Bytes, w: StoreBytes, order: BitOrder, zeroPad: bool): (r: Option<(seq<bool>, Bytes)>)
    ensures r.Some? ==> |r.value.1| < |data|
  {
    var (n, rest) :- DecCompact(data, U32_MAX);
    Unpack(rest, n, w, order, zeroPad)
  }

  // ----- words

  lemma {:induction false} BitsOfWordsLength(bs: Bytes, w: StoreBytes, order: BitOrder)
    requires Whole(|bs|, w)
    ensures |BitsOfWords(bs, w, order)| == 8 * |bs|
    decreases |bs|
  {
    hide OfWord, FromLE;
    if bs != [] {
      BitsOfWordsLength(bs[w..], w, order);
    }
  }

  lemma {:induction false} WordsRoundTrip(bits: seq<bool>, m: nat, w: StoreBytes, order: BitOrder)
    requires |bits| == 8 * m && Whole(m, w)
    ensures |WordsOfBits(bits, w, order)| == m
    ensures BitsOfWords(WordsOfBits(bits, w, order), w, order) == bits
    decreases m
  {
    hide OfWord, ToWord, FromLE, LE;
    if m > 0 {
      var word := ToWord(bits[..8 * w], order);
      var bs := WordsOfBits(bits, w, order);
      WordsRoundTrip(bits[8 * w..], m - w, w, order);
      Pow2OfBytes(w);
      FromLEOfLE(word, w);
      WordRoundTrip(bits[..8 * w], order);
      assert bs[..w] == LE(word, w) && bs[w..] == WordsOfBits(bits[8 * w..], w, order);
    }
  }

  lemma {:induction false} WordsLossless(bs: Bytes, w: StoreBytes, order: BitOrder)
    requires Whole(|bs|, w)
    ensures WordsOfBits(BitsOfWords(bs, w, order), w, order) == bs
    decreases |bs|
  {
    hide OfWord, ToWord, FromLE, LE;
    if bs != [] {
      var word := FromLE(bs[..w]);
      var bits := BitsOfWords(bs, w, order);
      WordsLossless(bs[w..], w, order);
      Pow2OfBytes(w);
      WordLossless(word, 8 * w, order);
      LEOfFromLE(bs[..w]);
      assert bits[..8 * w] == OfWord(word, 8 * w, order) && bits[8 * w..] == BitsOfWords(bs[w..], w, order);
    }
  }

  // ----- whole sequences

  lemma PackRoundTrip(bits: seq<bool>, w: StoreBytes, order: BitOrder, zeroPad: bool, rest: Bytes)
    ensures |Pack(bits, w, order)| == PayloadLength(|bits|, w)
    ensures Unpack(Pack(bits, w, order) + rest, |bits|, w, order, zeroPad) == Some((bits, rest))
  {
    hide WordsOfBits, BitsOfWords;
    var len := PayloadLength(|bits|, w);
    var padded := bits + Zeros(8 * len - |bits|);
    WordsRoundTrip(padded, len, w, order);
    var data := Pack(bits, w, order) + rest;
    assert data[..len] == Pack(bits, w, order) && data[len..] == rest;
    assert padded[..|bits|] == bits && padded[|bits|..] == Zeros(8 * len - |bits|);
  }

  /** Packing what was read gives as many bytes back, and the same bytes if the padding was zero. */
  lemma PackLossless(data: Bytes, n: nat, w: StoreBytes, order: BitOrder, zeroPad: bool)
    requires Unpack(data, n, w, order, zeroPad).Some?
    ensures var (bits, rest) := Unpack(data, n, w, order, zeroPad).value;
            |bits| == n
            && |Pack(bits, w, order)| + |rest| == |data|
            && (zeroPad ==> Pack(bits, w, order) + rest == data)
  {
    hide WordsOfBits, BitsOfWords;
    var (bits, rest) := Unpack(data, n, w, order, zeroPad).value;
    var len := PayloadLength(n, w);
    var all := BitsOfWords(data[..len], w, order);
    BitsOfWordsLength(data[..len], w, order);
    PackRoundTrip(bits, w, order, false, []);
    if zeroPad {
      assert bits + all[n..] == all;
      WordsLossless(data[..len], w, order);
    }
  }

  /** Reading drops whatever fills up the last word; only the strict reading asks for zeros. */
  lemma UnpackFilled(bits: seq<bool>, fill: seq<bool>, w: StoreBytes, order: BitOrder, rest: Bytes)
    requires |bits| + |fill| == 8 * PayloadLength(|bits|, w)
    ensures Unpack(WordsOfBits(bits + fill, w, order) + rest, |bits|, w, order, false) == Some((bits, rest))
    ensures fill != Zeros(|fill|) ==> Unpack(WordsOfBits(bits + fill, w, order) + rest, |bits|, w, order, true).None?
  {
    hide WordsOfBits, BitsOfWords;
    var len := PayloadLength(|bits|, w);
    WordsRoundTrip(bits + fill, len, w, order);
    var payload := WordsOfBits(bits + fill, w, order);
    var data := payload + rest;
    assert data[..len] == payload && data[len..] == rest;
    assert (bits + fill)[..|bits|] == bits && (bits + fill)[|bits|..] == fill;
  }

  /** Reading depends only on the bytes it consumes. */
  lemma UnpackLocal(data: Bytes, n: nat, w: StoreBytes, order: BitOrder, zeroPad: bool, tail: Bytes)
    requires Unpack(data, n, w, order, zeroPad).Some?
    ensures var (bits, rest) := Unpack(data, n, w, order, zeroPad).value;
            data == Consumed(data, rest) + rest
            && Unpack(Consumed(data, rest) + tail, n, w, order, zeroPad) == Some((bits, tail))
  {
    hide BitsOfWords, PayloadLength;
    var data' := Consumed(data, Unpack(data, n, w, order, zeroPad).value.1) + tail;
    var len := PayloadLength(n, w);
    assert data'[..len] == data[..len] && data'[len..] == tail;
  }

  // ----- the layout

  lemma {:induction false} FromBitsConcat(p: seq<bool>, q: seq<bool>)
    ensures FromBits(p + q) == FromBits(p) + Pow2(|p|) * FromBits(q)
  {
    if p == [] {
      assert p + q == q;
    } else {
      FromBitsConcat(p[1..], q);
      assert (p + q)[1..] == p[1..] + q;
      var rest, scale := FromBits(q), Pow2(|p| - 1);
      var digit := if p[0] then 1 else 0;
      assert FromBits(p + q) == digit + 2 * FromBits(p[1..] + q);
      assert FromBits(p) == digit + 2 * FromBits(p[1..]);
      assert Pow2(|p|) == 2 * scale;
      hide *;
      Distribute(2, digit, FromBits(p[1..]), scale, rest);
    }
  }

  lemma {:induction false} WordsAreNumber(bits: seq<bool>, m: nat, w: StoreBytes)
    requires |bits| == 8 * m && Whole(m, w)
    ensures FromLE(WordsOfBits(bits, w, Lsb0)) == FromBits(bits)
    decreases m
  {
    hide LE, FromLE, FromBits, Pow2, Pow256, WordsOfBits;
    if m == 0 {
      assert bits == [];
      NothingIsZero(w);
    } else {
      var first, others := bits[..8 * w], bits[8 * w..];
      WordsAreNumber(others, m - w, w);
      FirstWord(bits, w);
      Pow2OfBytes(w);
      FromLEOfLE(FromBits(first), w);
      FromLEConcat(LE(FromBits(first), w), WordsOfBits(others, w, Lsb0));
      FromBitsConcat(first, others);
      assert first + others == bits;
    }
  }

  lemma FirstWord(bits: seq<bool>, w: StoreBytes)
    requires |bits| >= 8 * w
    ensures WordsOfBits(bits, w, Lsb0) == LE(FromBits(bits[..8 * w]), w) + WordsOfBits(bits[8 * w..], w, Lsb0)
  {
    hide LE, FromBits;
  }

  lemma NothingIsZero(w: StoreBytes)
    ensures FromLE(WordsOfBits([], w, Lsb0)) == 0 && FromBits([]) == 0
  {
  }

  /**
   With `Lsb0` the payload, read as one little-endian number, has the bits as its binary digits from
   the least significant on; the width of the store words shows only in the length.
   */
  lemma Lsb0Layout(bits: seq<bool>, w: StoreBytes)
    ensures FromLE(Pack(bits, w, Lsb0)) == FromBits(bits)
  {
    hide WordsOfBits, FromLE, FromBits, Pow2;
    var len := PayloadLength(|bits|, w);
    var zeros := Zeros(8 * len - |bits|);
    WordsAreNumber(bits + zeros, len, w);
    FromBitsConcat(bits, zeros);
    ZerosAreZero(8 * len - |bits|);
  }

  lemma {:induction false} ZerosAreZero(n: nat)
    ensures FromBits(Zeros(n)) == 0
  {
    if n > 0 {
      ZerosAreZero(n - 1);
      assert Zeros(n)[1..] == Zeros(n - 1);
    }
  }

  /** Each block of as many bits as a store word has, back to front. */
  function Flip(bits: seq<bool>, w: StoreBytes): seq<bool>
    decreases |bits|
  {
    if |bits| < 8 * w then [] else Reverse(bits[..8 * w]) + Flip(bits[8 * w..], w)
  }

  /** Any block behind whole words is turned round where it stands. */
  lemma {:induction false} FlipInPlace(before: seq<bool>, m: nat, block: seq<bool>, after: seq<bool>, w: StoreBytes)
    requires |before| == 8 * m && Whole(m, w) && |block| == 8 * w
    ensures |Flip(before, w)| == |before|
    ensures Flip(before + block + after, w) == Flip(before, w) + Reverse(block) + Flip(after, w)
    decreases m
  {
    hide Flip, Reverse;
    FlippedLength(before, m, w);
    if m == 0 {
      FlipBlock(block, after, w);
      assert before == [] && Flip(before, w) == [];
      assert before + block + after == block + after;
    } else {
      var first, others := before[..8 * w], before[8 * w..];
      FlipInPlace(others, m - w, block, after, w);
      FlipBlock(first, others, w);
      FlipBlock(first, others + block + after, w);
      hide *;
      assert before == first + others;
      assert before + block + after == first + (others + block + after);
    }
  }

  lemma FlipBlock(block: seq<bool>, after: seq<bool>, w: StoreBytes)
    requires |block| == 8 * w
    ensures Flip(block + after, w) == Reverse(block) + Flip(after, w)
  {
    hide Reverse;
    assert (block + after)[..8 * w] == block && (block + after)[8 * w..] == after;
  }

  lemma {:induction false} FlippedLength(bits: seq<bool>, m: nat, w: StoreBytes)
    requires |bits| == 8 * m && Whole(m, w)
    ensures |Flip(bits, w)| == |bits|
    decreases m
  {
    if m > 0 {
      FlippedLength(bits[8 * w..], m - w, w);
    }
  }

  /** `Msb0` writes the words that `Lsb0` writes for the flipped bits. */
  lemma {:induction false} FlippedWords(bits: seq<bool>, m: nat, w: StoreBytes)
    requires |bits| == 8 * m && Whole(m, w)
    ensures WordsOfBits(bits, w, Msb0) == WordsOfBits(Flip(bits, w), w, Lsb0)
    decreases m
  {
    hide LE, FromBits;
    if m > 0 {
      var flipped := Flip(bits, w);
      FlippedLength(bits, m, w);
      FlippedWords(bits[8 * w..], m - w, w);
      assert flipped[..8 * w] == Reverse(bits[..8 * w]) && flipped[8 * w..] == Flip(bits[8 * w..], w);
    }
  }

  /**
   With `Msb0` the same holds after each block of 8·w bits is turned round: the first bit of a block is
   the most significant one of its word, and the padding takes the low end of the last word.
   */
  lemma Msb0Layout(bits: seq<bool>, w: StoreBytes)
    ensures FromLE(Pack(bits, w, Msb0)) == FromBits(Flip(bits + Zeros(8 * PayloadLength(|bits|, w) - |bits|), w))
  {
    hide WordsOfBits, FromLE, FromBits, Flip;
    var len := PayloadLength(|bits|, w);
    var padded := bits + Zeros(8 * len - |bits|);
    FlippedLength(padded, len, w);
    FlippedWords(padded, len, w);
    WordsAreNumber(Flip(padded, w), len, w);
  }

  // ----- with the count

  lemma BitsRoundTrip(bits: seq<bool>, w: StoreBytes, order: BitOrder, zeroPad: bool, rest: Bytes)
    requires EncBits(bits, w, order).Some?
    ensures DecBits(EncBits(bits, w, order).value + rest, w, order, zeroPad) == Some((bits, rest))
  {
    hide EncCompact, DecCompact, Pack, Unpack;
    var payload := Pack(bits, w, order);
    CompactRoundTrip(|bits|, U32_MAX, payload + rest);
    assert EncBits(bits, w, order).value + rest == EncCompact(|bits|) + (payload + rest);
    PackRoundTrip(bits, w, order, zeroPad, rest);
  }

  lemma BitsLossless(data: Bytes, w: StoreBytes, order: BitOrder, zeroPad: bool)
    requires DecBits(data, w, order, zeroPad).Some?
    ensures var (bits, rest) := DecBits(data, w, order, zeroPad).value;
            var bs := EncBits(bits, w, order);
            bs.Some? && |bs.value| + |rest| == |data| && (zeroPad ==> bs.value + rest == data)
  {
    hide EncCompact, DecCompact, Pack, Unpack;
    var (n, data') := DecCompact(data, U32_MAX).value;
    CompactLossless(data, U32_MAX);
    PackLossless(data', n, w, order, zeroPad);
    var (bits, rest) := DecBits(data, w, order, zeroPad).value;
    assert EncCompact(n) + data' == data;
    if zeroPad {
      assert EncCompact(n) + (Pack(bits, w, order) + rest) == data;
    }
  }

  /** Bits with any filling behind them decode, and encode to the same bytes only if it was zero. */
  lemma FilledBits(bits: seq<bool>, fill: seq<bool>, w: StoreBytes, order: BitOrder, rest: Bytes)
    requires |bits| <= U32_MAX && |bits| + |fill| == 8 * PayloadLength(|bits|, w)
    ensures var data := EncCompact(|bits|) + WordsOfBits(bits + fill, w, order);
            && DecBits(data + rest, w, order, false) == Some((bits, rest))
            && (EncBits(bits, w, order) == Some(data) <==> fill == Zeros(|fill|))
  {
    hide EncCompact, DecCompact, WordsOfBits, Unpack, PayloadLength;
    var count, payload := EncCompact(|bits|), WordsOfBits(bits + fill, w, order);
    assert count + payload + rest == count + (payload + rest);
    CompactRoundTrip(|bits|, U32_MAX, payload + rest);
    UnpackFilled(bits, fill, w, order, rest);
    if EncBits(bits, w, order) == Some(count + payload) {
      assert Pack(bits, w, order) == (count + payload)[|count|..] == payload;
      PackRoundTrip(bits, w, order, true, rest);
    }
  }

  lemma BitsLocal(data: Bytes, w: StoreBytes, order: BitOrder, zeroPad: bool, tail: Bytes)
    requires DecBits(data, w, order, zeroPad).Some?
    ensures var (bits, rest) := DecBits(data, w, order, zeroPad).value;
            data == Consumed(data, rest) + rest
            && DecBits(Consumed(data, rest) + tail, w, order, zeroPad) == Some((bits, tail))
  {
    hide DecCompact, Unpack, Consumed;
    var (n, data') := DecCompact(data, U32_MAX).value;
    var (bits, rest) := DecBits(data, w, order, zeroPad).value;
    UnpackLocal(data', n, w, order, zeroPad, tail);
    CompactLocal(data, U32_MAX, Consumed(data', rest) + tail);
    ConsumedSplit(data, data', rest, tail);
  }
}
