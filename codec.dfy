/**
 * The byte/integer codec of RSALIB.py: little-endian from_bytes, the
 * integer branch of to_bytes with its computed length, and split_bytes.
 */
module Codec {
  import opened Results
  import opened ModArith

  /** One element of a Python `bytes` value. */
  type Byte = x: int | 0 <= x < 256

  // ---------------------------------------------------------------------
  // Powers of two and 256
  // ---------------------------------------------------------------------

  /** 256^k == 2^(8*k). */
  lemma PowByteBits(k: nat)
    ensures Pow(256, k) == Pow(2, 8 * k)
  {
    PowMul(2, 8, k);
    assert Pow(2, 8) == 256;
  }

  // ---------------------------------------------------------------------
  // from_bytes (RSALIB.py:120-121)
  // ---------------------------------------------------------------------

  /** int.from_bytes(b, "little"): b[0] is the least significant byte. */
  function FromBytes(b: seq<Byte>): (v: nat)
    ensures v < Pow(256, |b|)
  {
    if b == [] then 0 else b[0] + 256 * FromBytes(b[1..])
  }

  /** Appending a zero (most significant) byte does not change the value. */
  lemma {:induction false} FromBytesAppendZero(b: seq<Byte>)
    ensures FromBytes(b + [0]) == FromBytes(b)
  {
    if b != [] {
      assert (b + [0])[1..] == b[1..] + [0];
      FromBytesAppendZero(b[1..]);
    }
  }

  /** b carries no zero byte in its most significant position. */
  predicate Canonical(b: seq<Byte>)
  {
    b == [] || b[|b| - 1] != 0
  }

  /** A canonical non-empty sequence of k bytes encodes a value of at least 256^(k-1). */
  lemma {:induction false} CanonicalLowerBound(b: seq<Byte>)
    requires b != [] && Canonical(b)
    ensures FromBytes(b) >= Pow(256, |b| - 1)
  {
    if |b| > 1 {
      assert b[1..][|b[1..]| - 1] == b[|b| - 1];
      CanonicalLowerBound(b[1..]);
    }
  }

  /** The first len little-endian digits of v in base 256. */
  function LittleEndian(v: nat, len: nat): (b: seq<Byte>)
    ensures |b| == len
  {
    if len == 0 then [] else [v % 256] + LittleEndian(v / 256, len - 1)
  }

  /** Re-encoding a decoded byte sequence at its own length gives it back. */
  lemma {:induction false} LittleEndianOfFromBytes(b: seq<Byte>)
    ensures LittleEndian(FromBytes(b), |b|) == b
  {
    if b != [] {
      var v, rest := FromBytes(b), FromBytes(b[1..]);
      DivModUnique(v, 256, rest, b[0]);
      LittleEndianOfFromBytes(b[1..]);
      assert b == [b[0]] + b[1..];
    }
  }

  /** Splitting off the low byte of v modulo 256^(k+1). */
  lemma ModPowerStep(v: nat, p: int)
    requires p > 0
    ensures v % (256 * p) == v % 256 + 256 * ((v / 256) % p)
  {
    var w := v / 256;
    DivMod(v, 256);
    DivMod(w, p);
    var q, r := w / p, w % p;
    assert v == (256 * p) * q + (256 * r + v % 256) by {
      assert v == 256 * w + v % 256;
      assert w == p * q + r;
      MulAssoc(256, p, q);
    }
    assert 256 * r + v % 256 < 256 * p by {
      MulMonotone(256, r, p - 1);
    }
    DivModUnique(v, 256 * p, q, 256 * r + v % 256);
  }

  /** Decoding the first len digits of v gives v modulo 256^len. */
  lemma {:induction false} FromBytesOfLittleEndian(v: nat, len: nat)
    ensures Pow(256, len) > 0 && FromBytes(LittleEndian(v, len)) == v % Pow(256, len)
  {
    PowPositive(256, len);
    if len == 0 {
      DivModUnique(v, 1, v, 0);
    } else {
      var b := LittleEndian(v, len);
      assert b[1..] == LittleEndian(v / 256, len - 1);
      FromBytesOfLittleEndian(v / 256, len - 1);
      PowPositive(256, len - 1);
      ModPowerStep(v, Pow(256, len - 1));
    }
  }

  /** Two canonical byte sequences that decode to the same value are equal. */
  lemma CanonicalUnique(a: seq<Byte>, b: seq<Byte>)
    requires Canonical(a) && Canonical(b) && FromBytes(a) == FromBytes(b)
    ensures a == b
  {
    if |a| < |b| {
      CanonicalLowerBound(b);
      PowIncreasing(256, |a|, |b| - 1);
    } else if |b| < |a| {
      CanonicalLowerBound(a);
      PowIncreasing(256, |b|, |a| - 1);
    } else {
      LittleEndianOfFromBytes(a);
      LittleEndianOfFromBytes(b);
    }
  }

  // ---------------------------------------------------------------------
  // to_bytes, integer branch (RSALIB.py:113-115)
  // ---------------------------------------------------------------------

  /** The exact value of ceil(log2(v)) for v >= 1. */
  function CeilLog2(v: int): (c: nat)
    requires v >= 1
    ensures v <= Pow(2, c)
    ensures c > 0 ==> Pow(2, c - 1) < v
    ensures c == 0 <==> v == 1
    decreases v
  {
    if v == 1 then 0 else
      var c := CeilLog2((v + 1) / 2);
      assert Pow(2, c + 1) == 2 * Pow(2, c);
      1 + c
  }

  /** CeilLog2 is characterised by its two bounds. */
  lemma CeilLog2Unique(v: int, c: nat)
    requires v >= 1 && v <= Pow(2, c) && (c > 0 ==> Pow(2, c - 1) < v)
    ensures CeilLog2(v) == c
  {
    var c0 := CeilLog2(v);
    if c0 < c {
      PowIncreasing(2, c0, c - 1);
    } else if c < c0 {
      PowIncreasing(2, c, c0 - 1);
    }
  }

  /**
   * The byte length to_bytes uses, evaluated exactly. By operator
   * precedence it is the ceiling of log2(v) + 6 divided by 8 and rounded
   * down, so its bytes hold at least one bit fewer than v needs and at
   * most six bits more.
   */
  function ToBytesLength(v: int): (len: nat)
    requires v >= 1
    ensures CeilLog2(v) <= 8 * len + 1 && 8 * len <= CeilLog2(v) + 6
  {
    (CeilLog2(v) + 6) / 8
  }

  /**
   * to_bytes of an integer: the little-endian digits of v in as many bytes
   * as ToBytesLength says, a domain error when v has no logarithm, and
   * an overflow when v does not fit in that many bytes.
   */
  function ToBytes(v: int): (r: Result<seq<Byte>>)
    ensures v <= 0 <==> r == Err(DomainError)
    ensures v >= 1 ==> (r.Ok? <==> v < Pow(256, ToBytesLength(v)))
    ensures v >= 1 && r.Err? ==> r.error == Overflow
    ensures r.Ok? ==> |r.value| == ToBytesLength(v) && FromBytes(r.value) == v
    ensures r.Ok? ==> r.value != [] && Canonical(r.value)
  {
    if v <= 0 then Err(DomainError)
    else
      var len := ToBytesLength(v);
      if v < Pow(256, len) then
        EncodingIsCanonical(v);
        Ok(LittleEndian(v, len))
      else
        Err(Overflow)
  }

  /** A value that fits in ToBytesLength(v) bytes also needs all of them. */
  lemma EncodingIsCanonical(v: int)
    requires v >= 1 && v < Pow(256, ToBytesLength(v))
    ensures FromBytes(LittleEndian(v, ToBytesLength(v))) == v
    ensures ToBytesLength(v) >= 1
    ensures Canonical(LittleEndian(v, ToBytesLength(v)))
  {
    var c, len := CeilLog2(v), ToBytesLength(v);
    FromBytesOfLittleEndian(v, len);
    DivModUnique(v, Pow(256, len), 0, v);
    assert len >= 1;
    var b := LittleEndian(v, len);
    if b[len - 1] == 0 {
      // v > 2^(c-1) >= 2^(8*(len-1)) = 256^(len-1), yet v would fit in len-1 bytes
      var prefix := b[..len - 1];
      assert b == prefix + [0];
      FromBytesAppendZero(prefix);
      PowByteBits(len - 1);
      PowIncreasing(2, 8 * (len - 1), c - 1);
    }
  }

  /**
   * Exactly when to_bytes succeeds, in terms of c = ceil(log2(v)): always
   * when c mod 8 >= 2, never when c mod 8 == 1, and when c mod 8 == 0
   * unless v is the power of two 2^c.
   */
  lemma ToBytesSucceedsIff(v: int)
    requires v >= 1
    ensures ToBytes(v).Ok? <==>
              (CeilLog2(v) % 8 >= 2 || (CeilLog2(v) % 8 == 0 && v != Pow(2, CeilLog2(v))))
  {
    var c, len := CeilLog2(v), ToBytesLength(v);
    assert ToBytes(v).Ok? <==> v < Pow(2, 8 * len) by {
      PowByteBits(len);
    }
    LengthBits(c);
    if c % 8 >= 2 {
      PowStrictlyIncreasing(2, c, 8 * len);
    }
  }

  /** How 8 * ((c + 6) / 8) compares with c, by the residue of c modulo 8. */
  lemma LengthBits(c: nat)
    ensures c % 8 >= 2 ==> 8 * ((c + 6) / 8) >= c + 1
    ensures c % 8 == 1 ==> 8 * ((c + 6) / 8) == c - 1
    ensures c % 8 == 0 ==> 8 * ((c + 6) / 8) == c
  {
    var k, r := c / 8, c % 8;
    DivMod(c, 8);
    if r >= 2 {
      DivModUnique(c + 6, 8, k + 1, r - 2);
    } else {
      DivModUnique(c + 6, 8, k, r + 6);
    }
  }

  /** Whole powers of two below 2^8 are one bit short: 1, 2 and 256 overflow. */
  lemma ToBytesOverflowPowersOfTwo()
    ensures ToBytes(1) == Err(Overflow)
    ensures ToBytes(2) == Err(Overflow)
    ensures ToBytes(256) == Err(Overflow)
  {
    CeilLog2Unique(2, 1);
    ToBytesSucceedsIff(1);
    ToBytesSucceedsIff(2);
    assert Pow(2, 8) == 256;
    CeilLog2Unique(256, 8);
    ToBytesSucceedsIff(256);
  }

  /** A value whose ceil(log2) is 1 mod 8, such as 300 or 512, overflows. */
  lemma ToBytesOverflowNineBits()
    ensures ToBytes(300) == Err(Overflow)
    ensures ToBytes(512) == Err(Overflow)
  {
    assert Pow(2, 9) == 512 && Pow(2, 8) == 256;
    CeilLog2Unique(300, 9);
    CeilLog2Unique(512, 9);
    ToBytesSucceedsIff(300);
    ToBytesSucceedsIff(512);
  }

  /** 255 fits: its ceil(log2) is 8 and it is not 2^8. */
  lemma ToBytesOfByte()
    ensures ToBytes(255) == Ok([255])
  {
    assert Pow(2, 8) == 256 && Pow(2, 7) == 128;
    CeilLog2Unique(255, 8);
    assert ToBytesLength(255) == 1;
    assert Pow(256, 1) == 256;
    assert LittleEndian(255, 1) == [255];
  }

  /** Encoding a decoded canonical sequence gives it back, when to_bytes succeeds. */
  lemma ToBytesOfFromBytes(b: seq<Byte>)
    requires Canonical(b) && ToBytes(FromBytes(b)).Ok?
    ensures ToBytes(FromBytes(b)) == Ok(b)
  {
    CanonicalUnique(ToBytes(FromBytes(b)).value, b);
  }

  // ---------------------------------------------------------------------
  // split_bytes (RSALIB.py:124-126)
  // ---------------------------------------------------------------------

  /** ceil(a / m) for a >= 0 and m > 0. */
  function CeilDiv(a: nat, m: nat): (c: nat)
    requires m > 0
    ensures c * m >= a
    ensures c > 0 ==> (c - 1) * m < a
  {
    DivMod(a + m - 1, m);
    var c := (a + m - 1) / m;
    if c > 0 then
      assert (c - 1) * m == c * m - m;
      c
    else
      c
  }

  function Min(a: int, b: int): int
  {
    if a <= b then a else b
  }

  lemma ChunkBounds(len: nat, m: nat, part: nat)
    requires m > 0 && part < CeilDiv(len, m)
    ensures 0 <= part * m < Min((part + 1) * m, len) <= len
  {
    var c := CeilDiv(len, m);
    MulMonotone(m, part, c - 1);
    assert (part + 1) * m == part * m + m;
  }

  /** The part-th chunk: m bytes from offset part * m, or what is left of data. */
  function Chunk(data: seq<Byte>, m: nat, part: nat): (c: seq<Byte>)
    requires m > 0 && part < CeilDiv(|data|, m)
    ensures 1 <= |c| <= m
  {
    ChunkBounds(|data|, m, part);
    data[part * m .. Min((part + 1) * m, |data|)]
  }

  /** data cut into consecutive chunks of m bytes, as many as it takes to cover it. */
  function Chunks(data: seq<Byte>, m: nat): (chunks: seq<seq<Byte>>)
    requires m > 0
    ensures |chunks| == CeilDiv(|data|, m)
  {
    seq(CeilDiv(|data|, m), part requires 0 <= part < CeilDiv(|data|, m) => Chunk(data, m, part))
  }

  /**
   * split_bytes(data, max_length): a zero length divides by zero; a
   * negative one makes the range empty.
   */
  function SplitBytes(data: seq<Byte>, maxLength: int): (r: Result<seq<seq<Byte>>>)
    ensures maxLength == 0 <==> r == Err(ZeroDivision)
    ensures maxLength < 0 ==> r == Ok([])
    ensures maxLength > 0 ==> r.Ok? && |r.value| == CeilDiv(|data|, maxLength)
    ensures r.Ok? && data == [] ==> r.value == []
  {
    if maxLength == 0 then Err(ZeroDivision)
    else if maxLength < 0 then Ok([])
    else Ok(Chunks(data, maxLength))
  }

  /**
   * The byte strings of chunks joined in order. Every part fits in the
   * result, and joining non-empty parts gives at least one byte per part.
   */
  function Concat(chunks: seq<seq<Byte>>): (c: seq<Byte>)
    ensures forall i :: 0 <= i < |chunks| ==> |chunks[i]| <= |c|
    ensures (forall i :: 0 <= i < |chunks| ==> chunks[i] != []) ==> |c| >= |chunks|
  {
    if chunks == [] then [] else Concat(chunks[..|chunks| - 1]) + chunks[|chunks| - 1]
  }

  /** A string of len bytes that are all 255. */
  function Filled(len: nat): (b: seq<Byte>)
    ensures |b| == len
  {
    seq(len, _ => 255)
  }

  /** len bytes of 255 hold the largest value that fits in len bytes. */
  lemma {:induction false} FilledValue(len: nat)
    ensures FromBytes(Filled(len)) == Pow(256, len) - 1
  {
    if len > 0 {
      assert Filled(len)[1..] == Filled(len - 1);
      FilledValue(len - 1);
    }
  }

  /** Data of exactly m bytes is one chunk of its own. */
  lemma SingleChunk(data: seq<Byte>, m: nat)
    requires m > 0 && |data| == m
    ensures Chunks(data, m) == [data]
  {
    assert CeilDiv(m, m) == 1;
    var chunks := Chunks(data, m);
    assert chunks[0] == Chunk(data, m, 0) == data[0..m] == data;
    assert chunks == [data];
  }

  /** Joining the first k chunks gives the first min(k * m, |data|) bytes. */
  lemma {:induction false} ConcatChunksPrefix(data: seq<Byte>, m: nat, k: nat)
    requires m > 0 && k <= CeilDiv(|data|, m)
    ensures Concat(Chunks(data, m)[..k]) == data[..Min(k * m, |data|)]
  {
    var c := Chunks(data, m);
    if k > 0 {
      ConcatChunksPrefix(data, m, k - 1);
      var lo, hi := (k - 1) * m, Min(k * m, |data|);
      assert lo < hi <= |data| && lo == Min(lo, |data|) by {
        ChunkBounds(|data|, m, k - 1);
      }
      assert c[k - 1] == data[lo..hi];
      ConcatLast(c[..k]);
      assert c[..k][..k - 1] == c[..k - 1];
      JoinSlices(data, lo, hi);
    } else {
      assert c[..0] == [];
    }
  }

  lemma ConcatLast(chunks: seq<seq<Byte>>)
    requires chunks != []
    ensures Concat(chunks) == Concat(chunks[..|chunks| - 1]) + chunks[|chunks| - 1]
  {
  }

  lemma JoinSlices(s: seq<Byte>, i: int, j: int)
    requires 0 <= i <= j <= |s|
    ensures s[..i] + s[i..j] == s[..j]
  {
  }

  /** Every chunk but the last is exactly m bytes long. */
  lemma FullChunk(data: seq<Byte>, m: nat, part: nat)
    requires m > 0 && part + 1 < CeilDiv(|data|, m)
    ensures |Chunk(data, m, part)| == m
  {
    ChunkBounds(|data|, m, part + 1);
    var lo, hi := part * m, (part + 1) * m;
    assert hi == lo + m;
    assert Min(hi, |data|) == hi;
  }

  /**
   * For m > 0, split_bytes cuts data into ceil(|data| / m) chunks, all of
   * length m except the last, which holds between 1 and m bytes, and
   * their concatenation is data.
   */
  lemma SplitBytesShape(data: seq<Byte>, m: int)
    requires m > 0
    ensures SplitBytes(data, m).Ok?
    ensures Concat(SplitBytes(data, m).value) == data
    ensures forall i :: 0 <= i < |SplitBytes(data, m).value| - 1 ==>
              |SplitBytes(data, m).value[i]| == m
    ensures data != [] ==> 1 <= |SplitBytes(data, m).value[|SplitBytes(data, m).value| - 1]| <= m
  {
    var c := Chunks(data, m);
    var n := CeilDiv(|data|, m);
    ConcatChunksPrefix(data, m, n);
    assert c[..n] == c;
    assert data[..Min(n * m, |data|)] == data;
    forall i | 0 <= i < n - 1
      ensures |c[i]| == m
    {
      FullChunk(data, m, i);
    }
  }
}
