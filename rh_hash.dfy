/**
 * The hash functions of the C++ wrapper: the 32-bit and 64-bit
 * xorshift-multiply mixers `hash(uint32_t)` and `hash(uint64_t)`, and the
 * word-folding buffer hashes `hash_buffer` and `hash_buffer_align4`.
 * Everything here is plain bit-vector arithmetic on `bv32`/`bv64`; a buffer
 * is its sequence of bytes, and a 32-bit word is read from it little-endian.
 */
module RhHash {

  // ---------------------------------------------------------------------
  // hash(uint32_t) and hash(uint64_t)

  /** `hash(uint32_t)`: xor-shift by 16, multiply, xor-shift by 15, multiply, xor-shift by 16. */
  function Mix32(v: bv32): bv32
  {
    var a := v ^ (v >> 16);
    var b := a * 0x7feb352d;
    var c := b ^ (b >> 15);
    var d := c * 0x846ca68b;
    d ^ (d >> 16)
  }

  /** The low 32 bits of a 64-bit word: the cast `(uint32_t)v`. */
  function Low32(v: bv64): bv32
  {
    (v & 0xffff_ffff) as bv32
  }

  /** `hash(uint64_t)`: three xor-shifts by 32 around two multiplications, truncated to 32 bits. */
  function Mix64(v: bv64): bv32
  {
    var a := v ^ (v >> 32);
    var b := a * 0xd6e8feb86659fd93;
    var c := b ^ (b >> 32);
    var d := c * 0xd6e8feb86659fd93;
    Low32(d ^ (d >> 32))
  }

  /** Both mixers send zero to zero, and the 32-bit one moves 1 to 0x688990c0. */
  lemma MixFixedPoints()
    ensures Mix32(0) == 0 && Mix64(0) == 0
    ensures Mix32(1) == 0x688990c0 && Mix64(1) == 0xe0c0e0d0
  {
  }

  /**
   * Each step of the 32-bit mixer is undone by a step of the same kind: an
   * xor-shift by 16 by itself, an xor-shift by 15 by xoring in the shifts by
   * 15 and 30, and each multiplication by the constant's inverse mod 2^32.
   */
  lemma Mix32StepsInvertible(v: bv32)
    ensures (v ^ (v >> 16)) ^ ((v ^ (v >> 16)) >> 16) == v
    ensures (var c := v ^ (v >> 15); c ^ (c >> 15) ^ (c >> 30)) == v
    ensures (v * 0x7feb352d) * 0x1d69e2a5 == v && (v * 0x1d69e2a5) * 0x7feb352d == v
    ensures (v * 0x846ca68b) * 0x43021123 == v && (v * 0x43021123) * 0x846ca68b == v
  {
  }

  /** The steps of the 64-bit chain are invertible too; only the final truncation loses information. */
  lemma Mix64StepsInvertible(v: bv64)
    ensures (v ^ (v >> 32)) ^ ((v ^ (v >> 32)) >> 32) == v
    ensures (v * 0xd6e8feb86659fd93) * 0xcfee444d8b59a89b == v
  {
  }

  // ---------------------------------------------------------------------
  // hash_buffer and hash_buffer_align4

  /** The golden-ratio multiplier of the buffer hashes. */
  const SEED: bv32 := 0x9e3779b9

  /** One fold round `hash = (rotl(hash, 5) ^ w) * seed`. */
  function Round(h: bv32, w: bv32): bv32
  {
    (((h << 5) | (h >> 27)) ^ w) * SEED
  }

  /**
   * A round is invertible in either argument: multiplying by 0x144cbc89, the
   * inverse of the seed mod 2^32, and xoring out the rotated hash gives the
   * word back, and rotating right by 5 undoes the rotation.
   */
  lemma RoundInvertible(h: bv32, w: bv32)
    ensures (((((h << 5) | (h >> 27)) ^ w) * 0x9e3779b9) * 0x144cbc89) ^ ((h << 5) | (h >> 27)) == w
    ensures (((h << 5) | (h >> 27)) >> 5) | (((h << 5) | (h >> 27)) << 27) == h
  {
  }

  /** The hash after folding the words ws into h, one round per word from the first. */
  function Chain(h: bv32, ws: seq<bv32>): bv32
  {
    if |ws| == 0 then h else Round(Chain(h, ws[..|ws| - 1]), ws[|ws| - 1])
  }

  /** Folding a concatenation is folding the second part into the hash of the first. */
  lemma {:induction false} ChainAppend(h: bv32, a: seq<bv32>, b: seq<bv32>)
    ensures Chain(h, a + b) == Chain(Chain(h, a), b)
    decreases |b|
  {
    if |b| > 0 {
      ChainAppend(h, a, b[..|b| - 1]);
      assert (a + b)[..|a + b| - 1] == a + b[..|b| - 1];
    } else {
      assert a + b == a;
    }
  }

  /** The 32-bit word at byte offset i, little-endian. */
  function Load32(data: seq<bv8>, i: int): bv32
    requires 0 <= i && i + 4 <= |data|
  {
    (data[i] as bv32) | ((data[i + 1] as bv32) << 8) | ((data[i + 2] as bv32) << 16) | ((data[i + 3] as bv32) << 24)
  }

  /** Equal bytes load equal words. */
  lemma Load32Same(x: seq<bv8>, i: int, y: seq<bv8>, j: int)
    requires 0 <= i && i + 4 <= |x| && 0 <= j && j + 4 <= |y|
    requires x[i] == y[j] && x[i + 1] == y[j + 1] && x[i + 2] == y[j + 2] && x[i + 3] == y[j + 3]
    ensures Load32(x, i) == Load32(y, j)
  {
  }

  /** The whole 32-bit words of a buffer, `size / 4` of them. */
  function Words(data: seq<bv8>): (ws: seq<bv32>)
    ensures |ws| == |data| / 4
    ensures forall i :: 0 <= i < |ws| ==> ws[i] == Load32(data, 4 * i)
  {
    seq(|data| / 4, i requires 0 <= i < |data| / 4 => Load32(data, 4 * i))
  }

  /** What `hash_buffer` computes: the fold of the whole words from 0. */
  function BufferHash(data: seq<bv8>): bv32
  {
    Chain(0, Words(data))
  }

  /** The words of a concatenation whose first part is whole words. */
  lemma WordsAppend(a: seq<bv8>, b: seq<bv8>)
    requires |a| % 4 == 0
    ensures Words(a + b) == Words(a) + Words(b)
  {
    var l, r := Words(a + b), Words(a) + Words(b);
    assert |l| == |r|;
    forall i | 0 <= i < |l|
      ensures l[i] == r[i]
    {
      if i < |a| / 4 {
        Load32Same(a + b, 4 * i, a, 4 * i);
      } else {
        var k := i - |a| / 4;
        assert 4 * i == |a| + 4 * k;
        Load32Same(a + b, 4 * i, b, 4 * k);
      }
    }
  }

  /** `hash_buffer` streams: hashing a + b continues from the hash of a when a is whole words. */
  lemma BufferHashAppend(a: seq<bv8>, b: seq<bv8>)
    requires |a| % 4 == 0
    ensures BufferHash(a + b) == Chain(BufferHash(a), Words(b))
  {
    WordsAppend(a, b);
    ChainAppend(0, Words(a), Words(b));
  }

  /** The trailing `size % 4` bytes do not take part: any buffer hashes like its whole-word prefix. */
  lemma BufferHashIgnoresTail(data: seq<bv8>)
    ensures BufferHash(data) == BufferHash(data[..|data| / 4 * 4])
    ensures |data| < 4 ==> BufferHash(data) == 0
  {
    var p := data[..|data| / 4 * 4];
    assert data == p + data[|p|..];
    WordsAppend(p, data[|p|..]);
    assert Words(data[|p|..]) == [];
    assert Words(data) == Words(p);
  }

  /** The tail bytes packed into one word, `w = w << 8 | byte`: the first byte ends up most significant. */
  function TailWord(bs: seq<bv8>): bv32
  {
    if |bs| == 0 then 0 else PackByte(TailWord(bs[..|bs| - 1]), bs[|bs| - 1])
  }

  /** One step of the tail loop, `w << 8 | byte`. */
  function PackByte(w: bv32, b: bv8): bv32
  {
    (w << 8) | (b as bv32)
  }

  /** Packing one more byte shifts the packed word left by a byte. */
  lemma TailWordSnoc(bs: seq<bv8>, b: bv8)
    ensures TailWord(bs + [b]) == PackByte(TailWord(bs), b)
  {
    assert (bs + [b])[..|bs|] == bs;
  }

  /** The packing of a one-, two- or three-byte tail, written out byte by byte. */
  lemma TailWordBytes(bs: seq<bv8>)
    requires 1 <= |bs| <= 3
    ensures |bs| == 1 ==> TailWord(bs) == bs[0] as bv32
    ensures |bs| == 2 ==> TailWord(bs) == ((bs[0] as bv32) << 8) | (bs[1] as bv32)
    ensures |bs| == 3 ==> TailWord(bs) == ((bs[0] as bv32) << 16) | ((bs[1] as bv32) << 8) | (bs[2] as bv32)
  {
    var b0 := bs[..1];
    assert TailWord(b0) == (TailWord([]) << 8) | (bs[0] as bv32) by {
      assert b0[..0] == [];
    }
    if |bs| >= 2 {
      var b1 := bs[..2];
      assert b1[..1] == b0;
      if |bs| == 3 {
        assert bs[..2] == b1;
      } else {
        assert bs == b1;
      }
    } else {
      assert bs == b0;
    }
  }

  /** The words `hash_buffer_align4` folds: the whole words, then the packed tail when there is one. */
  function AlignedWords(data: seq<bv8>): seq<bv32>
  {
    var n := |data| / 4 * 4;
    Words(data) + (if |data| % 4 == 0 then [] else [TailWord(data[n..])])
  }

  /** What `hash_buffer_align4` computes. */
  function Align4Hash(data: seq<bv8>): bv32
  {
    Chain(0, AlignedWords(data))
  }

  /**
   * `hash_buffer`: fold the whole 32-bit words of the buffer; `pos` is the
   * word pointer's byte offset and `size` the bytes left.
   */
  method HashBuffer(data: seq<bv8>) returns (hash: bv32)
    ensures hash == BufferHash(data)
  {
    hash := 0;
    var size := |data|;
    var pos := 0;
    ghost var ws := Words(data);
    while size >= 4
      invariant pos + size == |data| && pos % 4 == 0 && pos / 4 <= |ws|
      invariant hash == Chain(0, ws[..pos / 4])
    {
      assert ws[..pos / 4 + 1][..pos / 4] == ws[..pos / 4];
      hash := Round(hash, Load32(data, pos));
      pos := pos + 4;
      size := size - 4;
    }
    assert pos / 4 == |ws|;
    assert ws[..pos / 4] == ws;
  }

  /**
   * `hash_buffer_align4`: the same word loop as `hash_buffer`, then, when
   * bytes are left, one more round on the tail bytes packed
   * first-byte-most-significant.
   */
  method HashBufferAlign4(data: seq<bv8>) returns (hash: bv32)
    ensures hash == Align4Hash(data)
    ensures |data| % 4 == 0 ==> hash == BufferHash(data)
    ensures |data| % 4 != 0 ==> hash == Round(BufferHash(data), TailWord(data[|data| / 4 * 4..]))
  {
    hash := HashBuffer(data);
    var pos := |data| / 4 * 4;
    var size := |data| - pos;
    if size > 0 {
      var w := PackTail(data, pos);
      hash := Round(hash, w);
      assert AlignedWords(data) == Words(data) + [w];
      assert (Words(data) + [w])[..|Words(data)|] == Words(data);
    } else {
      assert AlignedWords(data) == Words(data);
    }
  }

  /** The tail loop of `hash_buffer_align4`: pack the bytes from `start` on into one word. */
  method PackTail(data: seq<bv8>, start: nat) returns (w: bv32)
    requires start <= |data|
    ensures w == TailWord(data[start..])
  {
    w := 0;
    var pos := start;
    var size: nat := |data| - start;
    while size > 0
      invariant start <= pos && pos + size == |data|
      invariant w == TailWord(data[start..pos])
    {
      TailWordSnoc(data[start..pos], data[pos]);
      assert data[start..pos + 1] == data[start..pos] + [data[pos]];
      w := PackByte(w, data[pos]);
      pos := pos + 1;
      size := size - 1;
    }
    assert data[start..pos] == data[start..];
  }
}
