/**
 * Fixed-width integers and the little-endian layout of 32-bit words that the
 * navigation-mesh records are written in: PutUint32 and Uint32 of the
 * little-endian byte order (least significant byte first), the
 * two's-complement reinterpretation between int32 and uint32, and runs of
 * consecutive words.
 */
module LittleEndian {

  newtype uint8 = x: int | 0 <= x < 0x100
  newtype uint32 = x: int | 0 <= x < 0x1_0000_0000
  newtype int32 = x: int | -0x8000_0000 <= x < 0x8000_0000

  /** The four bytes of v, least significant first: v is their sum weighted
      by powers of 256. */
  function PutUint32(v: uint32): (b: seq<uint8>)
    ensures |b| == 4
    ensures v as int == b[0] as int + 0x100 * b[1] as int + 0x1_0000 * b[2] as int + 0x100_0000 * b[3] as int
  {
    var q1 := v as int / 0x100;
    var q2 := q1 / 0x100;
    var q3 := q2 / 0x100;
    [(v as int % 0x100) as uint8, (q1 % 0x100) as uint8, (q2 % 0x100) as uint8, q3 as uint8]
  }

  /** The word held by the first four bytes of b, least significant first:
      the word whose PutUint32 gives back exactly those four bytes. */
  function Uint32(b: seq<uint8>): (w: uint32)
    requires |b| >= 4
    ensures PutUint32(w) == b[..4]
  {
    var q2 := b[2] as int + 0x100 * b[3] as int;
    var q1 := b[1] as int + 0x100 * q2;
    var v := b[0] as int + 0x100 * q1;
    assert v / 0x100 == q1 && v % 0x100 == b[0] as int;
    assert q1 / 0x100 == q2 && q1 % 0x100 == b[1] as int;
    assert q2 / 0x100 == b[3] as int && q2 % 0x100 == b[2] as int;
    v as uint32
  }

  /** Writing a word and reading it back gives the word. */
  lemma Uint32OfPut(v: uint32)
    ensures Uint32(PutUint32(v)) == v
  {
  }

  /** uint32(x) for an int32 x: the word congruent to x modulo 2^32. */
  function Int32Bits(x: int32): (w: uint32)
    ensures w as int % 0x1_0000_0000 == x as int % 0x1_0000_0000
  {
    if x < 0 then (x as int + 0x1_0000_0000) as uint32 else x as int as uint32
  }

  /** int32(w) for a uint32 w: the int32 congruent to w modulo 2^32. */
  function Int32FromBits(w: uint32): (x: int32)
    ensures x as int % 0x1_0000_0000 == w as int % 0x1_0000_0000
  {
    if w < 0x8000_0000 then w as int as int32 else (w as int - 0x1_0000_0000) as int32
  }

  /** A signed field survives the trip through its unsigned word. */
  lemma Int32RoundTrip(x: int32)
    ensures Int32FromBits(Int32Bits(x)) == x
  {
  }

  /** Every word is the image of exactly one int32. */
  lemma Uint32RoundTrip(w: uint32)
    ensures Int32Bits(Int32FromBits(w)) == w
  {
  }

  /** Consecutive words, each as PutUint32 writes it, word k at offset 4k. */
  function EncodeWords(ws: seq<uint32>): (b: seq<uint8>)
    ensures |b| == 4 * |ws|
  {
    if ws == [] then [] else PutUint32(ws[0]) + EncodeWords(ws[1..])
  }

  /** The n consecutive words at the start of b, word k read at offset 4k. */
  function DecodeWords(b: seq<uint8>, n: nat): (ws: seq<uint32>)
    requires 4 * n <= |b|
    ensures |ws| == n
  {
    if n == 0 then [] else [Uint32(b)] + DecodeWords(b[4..], n - 1)
  }

  /** Word k of a run sits at bytes [4k, 4k + 4). */
  lemma {:induction false} EncodeWordAt(ws: seq<uint32>, k: nat)
    requires k < |ws|
    ensures EncodeWords(ws)[4 * k..4 * k + 4] == PutUint32(ws[k])
  {
    if k > 0 {
      EncodeWordAt(ws[1..], k - 1);
      assert EncodeWords(ws)[4 * k..4 * k + 4] == EncodeWords(ws[1..])[4 * (k - 1)..4 * (k - 1) + 4];
    }
  }

  /** Word k decoded from b is the word held at bytes [4k, 4k + 4). */
  lemma {:induction false} DecodeWordAt(b: seq<uint8>, n: nat, k: nat)
    requires 4 * n <= |b| && k < n
    ensures DecodeWords(b, n)[k] == Uint32(b[4 * k..])
  {
    if k > 0 {
      DecodeWordAt(b[4..], n - 1, k - 1);
      assert b[4..][4 * (k - 1)..] == b[4 * k..];
    }
  }

  /** Decoding an encoded run, whatever bytes follow it, gives the run. */
  lemma {:induction false} DecodeEncodeWords(ws: seq<uint32>, rest: seq<uint8>)
    ensures DecodeWords(EncodeWords(ws) + rest, |ws|) == ws
  {
    if ws != [] {
      var b := EncodeWords(ws) + rest;
      assert b[..4] == PutUint32(ws[0]);
      Uint32OfPut(ws[0]);
      assert b[4..] == EncodeWords(ws[1..]) + rest;
      DecodeEncodeWords(ws[1..], rest);
    }
  }

  /** Encoding a decoded run gives back the bytes it was read from. */
  lemma {:induction false} EncodeDecodeWords(b: seq<uint8>, n: nat)
    requires 4 * n <= |b|
    ensures EncodeWords(DecodeWords(b, n)) == b[..4 * n]
  {
    if n > 0 {
      var ws := DecodeWords(b, n);
      EncodeDecodeWords(b[4..], n - 1);
      assert ws[1..] == DecodeWords(b[4..], n - 1);
      assert b[..4 * n] == b[..4] + b[4..][..4 * (n - 1)];
    }
  }

  /** Two runs of the same length that encode alike are equal. */
  lemma EncodeWordsInjective(ws: seq<uint32>, vs: seq<uint32>)
    requires |ws| == |vs| && EncodeWords(ws) == EncodeWords(vs)
    ensures ws == vs
  {
    DecodeEncodeWords(ws, []);
    DecodeEncodeWords(vs, []);
  }

  /** a with bytes [off, off + |b|) replaced by b. */
  function Splice(a: seq<uint8>, off: nat, b: seq<uint8>): (r: seq<uint8>)
    requires off + |b| <= |a|
    ensures |r| == |a| && r[off..off + |b|] == b
    ensures r[..off] == a[..off] && r[off + |b|..] == a[off + |b|..]
  {
    a[..off] + b + a[off + |b|..]
  }

  /** Splicing b and then c right after it is splicing b + c. */
  lemma SpliceAfter(a: seq<uint8>, off: nat, b: seq<uint8>, c: seq<uint8>)
    requires off + |b| + |c| <= |a|
    ensures Splice(Splice(a, off, b), off + |b|, c) == Splice(a, off, b + c)
  {
  }

  /** The run of words ws[..k + 1] encodes as ws[..k] followed by word k. */
  lemma EncodeWordsSnoc(ws: seq<uint32>, k: nat)
    requires k < |ws|
    ensures EncodeWords(ws[..k + 1]) == EncodeWords(ws[..k]) + PutUint32(ws[k])
  {
    EncodeWordsAppend(ws[..k], [ws[k]]);
    assert ws[..k + 1] == ws[..k] + [ws[k]];
  }

  /** The encoding of two runs one after the other is the concatenation. */
  lemma {:induction false} EncodeWordsAppend(ws: seq<uint32>, vs: seq<uint32>)
    ensures EncodeWords(ws + vs) == EncodeWords(ws) + EncodeWords(vs)
  {
    if ws == [] {
      assert ws + vs == vs;
    } else {
      assert (ws + vs)[0] == ws[0] && (ws + vs)[1..] == ws[1..] + vs;
      EncodeWordsAppend(ws[1..], vs);
    }
  }

  /** After word k of ws was written at off + 4k into bytes that already held
      words [0, k) at off, the bytes hold words [0, k + 1) at off. */
  lemma WroteWord(a: seq<uint8>, off: nat, ws: seq<uint32>, k: nat, d: seq<uint8>)
    requires k < |ws| && off + 4 * |ws| <= |a|
    requires d == Splice(Splice(a, off, EncodeWords(ws[..k])), off + 4 * k, PutUint32(ws[k]))
    ensures d == Splice(a, off, EncodeWords(ws[..k + 1]))
  {
    EncodeWordsSnoc(ws, k);
    SpliceAfter(a, off, EncodeWords(ws[..k]), PutUint32(ws[k]));
  }

  /** PutUint32 into dst[off..]: the four bytes of v, least significant
      first; the caller guarantees room for them. */
  method PutUint32At(dst: array<uint8>, off: nat, v: uint32)
    requires off + 4 <= dst.Length
    modifies dst
    ensures dst[..] == Splice(old(dst[..]), off, PutUint32(v))
  {
    dst[off] := (v % 0x100) as uint8;
    dst[off + 1] := (v / 0x100 % 0x100) as uint8;
    dst[off + 2] := (v / 0x100 / 0x100 % 0x100) as uint8;
    dst[off + 3] := (v / 0x100 / 0x100 / 0x100) as uint8;
  }

  /** PutUint32 of word k of a run being written from start, at its offset
      start + 4k, once words [0, k) are in place: afterwards words [0, k + 1)
      are. */
  method PutRunWord(dst: array<uint8>, off: nat, v: uint32,
                    ghost a: seq<uint8>, ghost start: nat, ghost ws: seq<uint32>, ghost k: nat)
    requires k < |ws| && v == ws[k] && off == start + 4 * k && start + 4 * |ws| <= |a| == dst.Length
    requires dst[..] == Splice(a, start, EncodeWords(ws[..k]))
    modifies dst
    ensures dst[..] == Splice(a, start, EncodeWords(ws[..k + 1]))
  {
    PutUint32At(dst, off, v);
    WroteWord(a, start, ws, k, dst[..]);
  }
}
