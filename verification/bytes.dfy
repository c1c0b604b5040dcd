/**
 * Bytes and little-endian operands.
 *
 * The interpreter reads every operand out of the instruction stream one byte
 * at a time: a byte, a two-byte "half", or a machine word of four or eight
 * bytes. Byte i of an operand contributes `b_i << 8*i`; the bytes occupy
 * disjoint bit ranges, so the C bitwise or is the sum written here.
 */
module Bytes {

  type byte = x: int | 0 <= x < 256

  /** The width of a machine word: four bytes on 32-bit targets, eight on 64-bit ones. */
  type WordSize = n: nat | n == 4 || n == 8 witness 4

  /** 256 to the power k, that is 2 to the power 8k. */
  function Pow256(k: nat): (r: nat)
    ensures r >= 1
  {
    if k == 0 then 1 else 256 * Pow256(k - 1)
  }

  /** `b << (8 * i)` on an unsigned word wide enough to hold it. */
  function Shl8(b: byte, i: nat): nat
  {
    (b as int) * Pow256(i)
  }

  /** Reference decoding: the little-endian value of a byte sequence. */
  function DecodeLE(bs: seq<byte>): nat
  {
    if |bs| == 0 then 0 else bs[0] as int + 256 * DecodeLE(bs[1..])
  }

  /** The n low-order bytes of v, least significant first (what `appendWord` stores). */
  function EncodeLE(v: nat, n: nat): (bs: seq<byte>)
    ensures |bs| == n
  {
    if n == 0 then [] else [v % 256] + EncodeLE(v / 256, n - 1)
  }

  lemma {:induction false} DecodeLEBound(bs: seq<byte>)
    ensures DecodeLE(bs) < Pow256(|bs|)
  {
    if |bs| > 0 {
      DecodeLEBound(bs[1..]);
    }
  }

  /** Decoding an n-byte encoding gives the value modulo 256^n: a word store truncates. */
  lemma {:induction false} DecodeEncodeLEMod(v: nat, n: nat)
    ensures DecodeLE(EncodeLE(v, n)) == v % Pow256(n)
  {
    if n > 0 {
      DecodeEncodeLEMod(v / 256, n - 1);
      ModSplit(v, Pow256(n - 1));
    }
  }

  /** Encoding a value that fits in n bytes and decoding it gives the value back. */
  lemma DecodeEncodeLE(v: nat, n: nat)
    requires v < Pow256(n)
    ensures DecodeLE(EncodeLE(v, n)) == v
  {
    DecodeEncodeLEMod(v, n);
  }

  /** Decoding a byte sequence and encoding the value in as many bytes gives the bytes back. */
  lemma {:induction false} EncodeDecodeLE(bs: seq<byte>)
    ensures EncodeLE(DecodeLE(bs), |bs|) == bs
  {
    if |bs| > 0 {
      EncodeDecodeLE(bs[1..]);
      DivUnique(DecodeLE(bs), 256, DecodeLE(bs[1..]), bs[0]);
    }
  }

  lemma DivUnique(v: int, d: int, a: int, b: int)
    requires d > 0 && 0 <= b < d && v == a * d + b
    ensures v / d == a && v % d == b
  {
    var q := v / d;
    var r := v % d;
    assert v == q * d + r;
    assert (a - q) * d == r - b;
    if a > q {
      MulAtLeast(a - q, d);
    } else if a < q {
      assert (q - a) * d == b - r;
      MulAtLeast(q - a, d);
    }
  }

  lemma MulAtLeast(x: int, d: int)
    requires x >= 1 && d > 0
    ensures x * d >= d
  {
    assert x * d == (x - 1) * d + d;
  }

  lemma ModSplit(v: nat, p: nat)
    requires p >= 1
    ensures v % (256 * p) == v % 256 + 256 * ((v / 256) % p)
  {
    var q := v / 256;
    var lo := v % 256;
    var hi := q % p;
    var top := q / p;
    assert q == top * p + hi;
    assert v == q * 256 + lo;
    assert v == top * (256 * p) + (lo + 256 * hi) by {
      assert q * 256 == top * p * 256 + hi * 256;
    }
    assert 0 <= lo + 256 * hi < 256 * p by {
      assert hi <= p - 1;
      assert 256 * hi <= 256 * (p - 1);
    }
    DivUnique(v, 256 * p, top, lo + 256 * hi);
  }

  /** `read_byte`: one unsigned byte. */
  function ReadByte(code: seq<byte>, pos: nat): (r: (nat, nat))
    requires pos < |code|
    ensures r.1 == pos + 1 && r.0 < 256
  {
    (code[pos], pos + 1)
  }

  /** `read_half`: two bytes, `b0 | b1 << 8`. */
  function ReadHalf(code: seq<byte>, pos: nat): (r: (nat, nat))
    requires pos + 2 <= |code|
  {
    (Shl8(code[pos], 0) + Shl8(code[pos + 1], 1), pos + 2)
  }

  /** `read_word`: four bytes on a 32-bit target, eight on a 64-bit one, unrolled as in the macro. */
  function ReadWord(code: seq<byte>, pos: nat, w: WordSize): (r: (nat, nat))
    requires pos + w <= |code|
  {
    var low := Shl8(code[pos], 0) + Shl8(code[pos + 1], 1) + Shl8(code[pos + 2], 2) + Shl8(code[pos + 3], 3);
    if w == 4 then (low, pos + 4)
    else (low + Shl8(code[pos + 4], 4) + Shl8(code[pos + 5], 5) + Shl8(code[pos + 6], 6) + Shl8(code[pos + 7], 7), pos + 8)
  }

  /** `read_word_p`: always four bytes, whatever the word size; used for the trailing group lengths. */
  function ReadWordP(code: seq<byte>, pos: nat): (r: nat)
    requires pos + 4 <= |code|
    ensures r == DecodeLE(code[pos..pos + 4])
  {
    DecodeLE4(code[pos..pos + 4]);
    Shl8(code[pos], 0) + Shl8(code[pos + 1], 1) + Shl8(code[pos + 2], 2) + Shl8(code[pos + 3], 3)
  }

  lemma DecodeLE2(bs: seq<byte>)
    requires |bs| == 2
    ensures DecodeLE(bs) == bs[0] as int + 256 * (bs[1] as int)
  {
    var t := bs[1..];
    assert t[1..] == [];
    assert DecodeLE(t) == t[0] as int + 256 * DecodeLE(t[1..]);
  }

  lemma DecodeLE4(bs: seq<byte>)
    requires |bs| == 4
    ensures DecodeLE(bs) == bs[0] as int + 256 * (bs[1] as int) + 65536 * (bs[2] as int) + 16777216 * (bs[3] as int)
  {
    var t1 := bs[1..];
    var t2 := t1[1..];
    var t3 := t2[1..];
    assert t3[1..] == [];
    assert DecodeLE(t3) == t3[0] as int + 256 * DecodeLE(t3[1..]);
    assert DecodeLE(t2) == t2[0] as int + 256 * DecodeLE(t3);
    assert DecodeLE(t1) == t1[0] as int + 256 * DecodeLE(t2);
  }

  lemma {:induction false} DecodeLESplit(a: seq<byte>, b: seq<byte>)
    ensures DecodeLE(a + b) == DecodeLE(a) + Pow256(|a|) * DecodeLE(b)
  {
    if |a| == 0 {
      assert a + b == b;
    } else {
      assert (a + b)[1..] == a[1..] + b;
      DecodeLESplit(a[1..], b);
      var p := Pow256(|a| - 1);
      var x := DecodeLE(a[1..]);
      var y := DecodeLE(b);
      calc {
        DecodeLE(a + b);
        a[0] as int + 256 * DecodeLE(a[1..] + b);
        a[0] as int + 256 * (x + p * y);
        { Distrib256(x, p, y); }
        a[0] as int + 256 * x + (256 * p) * y;
      }
    }
  }

  lemma Distrib256(x: int, p: int, y: int)
    ensures 256 * (x + p * y) == 256 * x + (256 * p) * y
  {
  }

  /** A half operand is the little-endian value of its two bytes. */
  lemma ReadHalfIsLE(code: seq<byte>, pos: nat)
    requires pos + 2 <= |code|
    ensures ReadHalf(code, pos).0 == DecodeLE(code[pos..pos + 2])
    ensures ReadHalf(code, pos).1 == pos + 2
  {
    DecodeLE2(code[pos..pos + 2]);
  }

  /** A word operand is the little-endian value of its w bytes, so it never exceeds 256^w - 1. */
  lemma ReadWordIsLE(code: seq<byte>, pos: nat, w: WordSize)
    requires pos + w <= |code|
    ensures ReadWord(code, pos, w).0 == DecodeLE(code[pos..pos + w])
    ensures ReadWord(code, pos, w).1 == pos + w
    ensures ReadWord(code, pos, w).0 < Pow256(w)
  {
    var lo := code[pos..pos + 4];
    DecodeLE4(lo);
    if w == 8 {
      var hi := code[pos + 4..pos + 8];
      DecodeLE4(hi);
      assert code[pos..pos + 8] == lo + hi;
      DecodeLESplit(lo, hi);
      assert Pow256(4) == 4294967296;
      assert Pow256(5) == 4294967296 * 256;
      assert Pow256(6) == 4294967296 * 65536;
      assert Pow256(7) == 4294967296 * 16777216;
    } else {
      assert code[pos..pos + 4] == lo;
    }
    DecodeLEBound(code[pos..pos + w]);
  }

  /** `read_word_p` decodes the four low-order bytes of whatever word is stored at pos. */
  lemma ReadWordPIsLE(code: seq<byte>, pos: nat)
    requires pos + 4 <= |code|
    ensures ReadWordP(code, pos) == DecodeLE(code[pos..pos + 4])
  {
    DecodeLE4(code[pos..pos + 4]);
  }

  /** Reading back a word written with `appendWord` returns the value, truncated to the word size. */
  lemma ReadWordOfEncode(v: nat, w: WordSize, rest: seq<byte>)
    ensures ReadWord(EncodeLE(v, w) + rest, 0, w).0 == v % Pow256(w)
  {
    var code := EncodeLE(v, w) + rest;
    ReadWordIsLE(code, 0, w);
    assert code[0..w] == EncodeLE(v, w);
    DecodeEncodeLEMod(v, w);
  }

  /** The four-byte reader sees a stored word correctly whenever its value fits in 32 bits. */
  lemma ReadWordPOfEncode(v: nat, w: WordSize, before: seq<byte>)
    requires v < Pow256(4)
    ensures ReadWordP(before + EncodeLE(v, w), |before|) == v
  {
    var code := before + EncodeLE(v, w);
    ReadWordPIsLE(code, |before|);
    var e := EncodeLE(v, w);
    assert code[|before|..|before| + 4] == e[..4];
    if w == 8 {
      EncodeLESplitValue(v, 4, 4);
      assert e[..4] == EncodeLE(v, 4);
    } else {
      assert e[..4] == e;
    }
    DecodeEncodeLE(v, 4);
  }

  lemma {:induction false} EncodeLESplitValue(v: nat, n: nat, m: nat)
    requires v < Pow256(n)
    ensures EncodeLE(v, n + m)[..n] == EncodeLE(v, n)
    ensures EncodeLE(v, n + m)[n..] == EncodeLE(0, m)
  {
    if n > 0 {
      EncodeLESplitValue(v / 256, n - 1, m);
    } else {
      assert v == 0;
    }
  }
}
