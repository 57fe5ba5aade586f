/**
 * Encryption and decryption of RSALIB.py: encrypt/decrypt of one block and
 * the block drivers encrypt_data/decrypt_data built on the codec.
 */
module Cipher {
  import opened Results
  import opened ModArith
  import opened NumberTheory
  import opened Codec
  import opened KeyGen

  /** A key fast_mod_pwr can run with: a non-negative exponent and modulus. */
  predicate Usable(key: Key)
  {
    key.exponent >= 0 && key.modulus >= 0
  }

  // ---------------------------------------------------------------------
  // encrypt and decrypt (RSALIB.py:29-34)
  // ---------------------------------------------------------------------

  /** encrypt(a, (e, n)) = from_bytes(a)^e mod n; a zero modulus divides by zero. */
  function Encrypt(a: seq<Byte>, pub: Key): (r: Result<int>)
    requires Usable(pub)
    ensures pub.modulus == 0 <==> r == Err(ZeroDivision)
    ensures r.Ok? && pub.exponent > 0 ==> 0 <= r.value < pub.modulus
    ensures r.Ok? && pub.exponent > 0 ==> r.value == Pow(FromBytes(a), pub.exponent) % pub.modulus
  {
    if pub.modulus == 0 then Err(ZeroDivision)
    else Ok(ModPow(FromBytes(a), pub.exponent, pub.modulus))
  }

  /** decrypt(c, (d, n)) = to_bytes(c^d mod n). */
  function Decrypt(c: int, priv: Key): (r: Result<seq<Byte>>)
    requires Usable(priv)
    ensures priv.modulus == 0 ==> r == Err(ZeroDivision)
    ensures r.Ok? ==> priv.modulus > 0 && FromBytes(r.value) == ModPow(c, priv.exponent, priv.modulus)
    ensures r.Ok? ==> r.value != [] && Canonical(r.value)
  {
    if priv.modulus == 0 then Err(ZeroDivision)
    else ToBytes(ModPow(c, priv.exponent, priv.modulus))
  }

  /**
   * With p, q distinct primes, n = p * q and e * d == 1 modulo
   * (p - 1) * (q - 1), decryption undoes encryption modulo n: every message
   * m comes back as m mod n.
   */
  lemma ModPowInverseReduced(p: nat, q: nat, e: nat, d: nat, m: nat)
    requires Prime(p) && Prime(q) && p != q
    requires (e * d) % ((p - 1) * (q - 1)) == 1
    ensures ModPow(ModPow(m, e, p * q), d, p * q) == m % (p * q)
  {
    PrimeProductPositive(p, q);
    var n := p * q;
    NonZeroFactors(e, d, (p - 1) * (q - 1));
    PowMod(m, e, n);
    ModPowInverse(p, q, e, d, m % n);
  }

  // ---------------------------------------------------------------------
  // encrypt_data (RSALIB.py:129-130)
  // ---------------------------------------------------------------------

  /**
   * The chunk length encrypt_data uses: the whole bytes in ceil(log2(n))
   * bits. A chunk of that many bytes is below 2 * n.
   */
  function BlockSize(n: int): (b: nat)
    requires n >= 1
    ensures Pow(256, b) < 2 * n
  {
    var c := CeilLog2(n);
    PowByteBits(c / 8);
    PowIncreasing(2, 8 * (c / 8), c);
    assert c > 0 ==> Pow(2, c) == 2 * Pow(2, c - 1);
    c / 8
  }

  /** Each chunk encrypted and encoded as one block, in order; the first failing chunk raises. */
  function EncryptChunks(chunks: seq<seq<Byte>>, pub: Key): (r: Result<seq<seq<Byte>>>)
    requires Usable(pub) && pub.modulus > 0
    ensures r.Ok? ==> |r.value| == |chunks|
  {
    if chunks == [] then Ok([])
    else match ToBytes(Encrypt(chunks[0], pub).value)
      case Err(e) => Err(e)
      case Ok(block) =>
        match EncryptChunks(chunks[1..], pub)
        case Err(e) => Err(e)
        case Ok(blocks) => Ok([block] + blocks)
  }

  /** encrypt_data(data, pub): split into chunks of BlockSize(n) bytes, encrypt and encode each. */
  function EncryptData(data: seq<Byte>, pub: Key): (r: Result<seq<seq<Byte>>>)
    requires Usable(pub)
    ensures pub.modulus == 0 ==> r == Err(DomainError)
  {
    if pub.modulus == 0 then Err(DomainError)
    else match SplitBytes(data, BlockSize(pub.modulus))
      case Err(e) => Err(e)
      case Ok(chunks) => EncryptChunks(chunks, pub)
  }

  /** The chunks encrypt_data cuts data into, for a modulus of at least 129. */
  function ChunksOf(data: seq<Byte>, n: int): seq<seq<Byte>>
    requires n >= 129
  {
    BlockSizePositive(n);
    Chunks(data, BlockSize(n))
  }

  lemma BlockSizePositive(n: int)
    requires n >= 1
    ensures BlockSize(n) >= 1 <==> n >= 129
  {
    var c := CeilLog2(n);
    assert Pow(2, 7) == 128;
    if n >= 129 && c < 8 {
      PowIncreasing(2, c, 7);
    }
    if n <= 128 && c >= 8 {
      PowIncreasing(2, 7, c - 1);
    }
  }

  /** A modulus below 129 gives chunks of length 0: encrypt_data divides by zero. */
  lemma EncryptDataSmallModulus(data: seq<Byte>, pub: Key)
    requires Usable(pub) && 1 <= pub.modulus <= 128
    ensures EncryptData(data, pub) == Err(ZeroDivision)
  {
    BlockSizePositive(pub.modulus);
  }

  /**
   * Encoding the chunks succeeds exactly when every encrypted chunk can be
   * encoded by to_bytes, and then block i encodes the encryption of chunk i.
   */
  lemma {:induction false} EncryptChunksSpec(chunks: seq<seq<Byte>>, pub: Key)
    requires Usable(pub) && pub.modulus > 0
    ensures EncryptChunks(chunks, pub).Ok? <==>
              forall i :: 0 <= i < |chunks| ==> ToBytes(Encrypt(chunks[i], pub).value).Ok?
    ensures EncryptChunks(chunks, pub).Ok? ==>
              forall i :: 0 <= i < |chunks| ==>
                EncryptChunks(chunks, pub).value[i] == ToBytes(Encrypt(chunks[i], pub).value).value
  {
    if chunks != [] {
      EncryptChunksSpec(chunks[1..], pub);
      forall i | 1 <= i < |chunks|
        ensures chunks[1..][i - 1] == chunks[i]
      {
      }
    }
  }

  /**
   * What encrypt_data returns for a modulus n >= 129: one block per chunk,
   * block i the canonical little-endian encoding of chunk i's ciphertext
   * from_bytes(chunk)^e mod n, a value below n.
   */
  lemma EncryptDataBlocks(data: seq<Byte>, pub: Key)
    requires Usable(pub) && pub.modulus >= 129
    ensures EncryptData(data, pub).Ok? <==>
              forall i :: 0 <= i < |ChunksOf(data, pub.modulus)| ==>
                ToBytes(Encrypt(ChunksOf(data, pub.modulus)[i], pub).value).Ok?
    ensures EncryptData(data, pub).Ok? ==>
              |EncryptData(data, pub).value| == |ChunksOf(data, pub.modulus)| &&
              forall i :: 0 <= i < |ChunksOf(data, pub.modulus)| ==>
                FromBytes(EncryptData(data, pub).value[i]) == ModPow(FromBytes(ChunksOf(data, pub.modulus)[i]), pub.exponent, pub.modulus) &&
                FromBytes(EncryptData(data, pub).value[i]) < pub.modulus &&
                Canonical(EncryptData(data, pub).value[i])
  {
    BlockSizePositive(pub.modulus);
    EncryptChunksSpec(ChunksOf(data, pub.modulus), pub);
  }

  /** A chunk whose value is a multiple of n encrypts to 0, which to_bytes rejects. */
  lemma EncryptDataZeroChunk(data: seq<Byte>, pub: Key, i: int)
    requires Usable(pub) && pub.modulus >= 129 && pub.exponent >= 1
    requires 0 <= i < |ChunksOf(data, pub.modulus)|
    requires FromBytes(ChunksOf(data, pub.modulus)[i]) % pub.modulus == 0
    ensures EncryptData(data, pub).Err?
  {
    var m := FromBytes(ChunksOf(data, pub.modulus)[i]);
    PowOfMultiple(m, pub.exponent, pub.modulus);
    EncryptDataBlocks(data, pub);
  }

  /**
   * When ceil(log2(n)) is not a multiple of 8, every chunk is smaller than
   * n: a chunk of BlockSize(n) bytes is below 2^(8 * BlockSize(n)) <= n / 2.
   */
  lemma ChunkBelowModulus(data: seq<Byte>, n: int, i: int)
    requires n >= 129 && CeilLog2(n) % 8 != 0
    requires 0 <= i < |ChunksOf(data, n)|
    ensures FromBytes(ChunksOf(data, n)[i]) < n
  {
    var c, len := CeilLog2(n), BlockSize(n);
    var chunk := ChunksOf(data, n)[i];
    BlockSizePositive(n);
    PowIncreasing(256, |chunk|, len);
    PowByteBits(len);
    PowIncreasing(2, 8 * len, c - 1);
  }

  /**
   * When ceil(log2(n)) is a multiple of 8 and n is not a power of two,
   * some chunk reaches n: data of BlockSize(n) bytes of 255 forms one
   * chunk, and its value 2^ceil(log2(n)) - 1 is at least n.
   */
  lemma ChunkAtLeastModulus(n: int)
    requires n >= 129 && CeilLog2(n) % 8 == 0 && n != Pow(2, CeilLog2(n))
    ensures ChunksOf(Filled(BlockSize(n)), n) == [Filled(BlockSize(n))]
    ensures FromBytes(Filled(BlockSize(n))) >= n
  {
    var c, len := CeilLog2(n), BlockSize(n);
    BlockSizePositive(n);
    SingleChunk(Filled(len), len);
    assert 8 * len == c;
    PowByteBits(len);
    FilledValue(len);
  }



  // ---------------------------------------------------------------------
  // decrypt_data (RSALIB.py:133-134)
  // ---------------------------------------------------------------------

  /** Each block decoded and decrypted into one part, in order; the first failing block raises. */
  function DecryptBlocks(blocks: seq<seq<Byte>>, priv: Key): (r: Result<seq<seq<Byte>>>)
    requires Usable(priv)
    ensures r.Ok? ==> |r.value| == |blocks|
    ensures r.Ok? ==> forall i :: 0 <= i < |r.value| ==> r.value[i] != []
  {
    if blocks == [] then Ok([])
    else match Decrypt(FromBytes(blocks[0]), priv)
      case Err(e) => Err(e)
      case Ok(part) =>
        match DecryptBlocks(blocks[1..], priv)
        case Err(e) => Err(e)
        case Ok(parts) => Ok([part] + parts)
  }

  /**
   * decrypt_data: the decrypted blocks joined in order. No blocks give no
   * bytes, a zero modulus divides by zero, and as every decrypted block
   * has at least one byte the result is at least as long as the list.
   */
  function DecryptData(blocks: seq<seq<Byte>>, priv: Key): (r: Result<seq<Byte>>)
    requires Usable(priv)
    ensures blocks == [] ==> r == Ok([])
    ensures priv.modulus == 0 && blocks != [] ==> r == Err(ZeroDivision)
    ensures r.Ok? ==> |r.value| >= |blocks|
  {
    match DecryptBlocks(blocks, priv)
    case Err(e) => Err(e)
    case Ok(parts) => Ok(Concat(parts))
  }

  /**
   * Decrypting succeeds exactly when every block decrypts, and then the
   * result is the concatenation of the decrypted blocks in order.
   */
  lemma {:induction false} DecryptBlocksSpec(blocks: seq<seq<Byte>>, priv: Key)
    requires Usable(priv)
    ensures DecryptBlocks(blocks, priv).Ok? <==>
              forall i :: 0 <= i < |blocks| ==> Decrypt(FromBytes(blocks[i]), priv).Ok?
    ensures DecryptBlocks(blocks, priv).Ok? ==>
              forall i :: 0 <= i < |blocks| ==>
                DecryptBlocks(blocks, priv).value[i] == Decrypt(FromBytes(blocks[i]), priv).value
  {
    if blocks != [] {
      DecryptBlocksSpec(blocks[1..], priv);
      forall i | 1 <= i < |blocks|
        ensures blocks[1..][i - 1] == blocks[i]
      {
      }
    }
  }

  // ---------------------------------------------------------------------
  // The round trip
  // ---------------------------------------------------------------------

  /** A key pair over two distinct primes with e * d == 1 modulo (p - 1) * (q - 1). */
  predicate RsaKeyPair(p: nat, q: nat, pub: Key, priv: Key)
  {
    Prime(p) && Prime(q) && p != q &&
    pub.modulus == p * q && priv.modulus == p * q &&
    pub.exponent >= 0 && priv.exponent >= 0 &&
    (pub.exponent * priv.exponent) % ((p - 1) * (q - 1)) == 1
  }

  /** One chunk through encrypt, to_bytes, from_bytes and decrypt comes back as to_bytes(m mod n). */
  lemma BlockRoundTrip(p: nat, q: nat, pub: Key, priv: Key, chunk: seq<Byte>)
    requires RsaKeyPair(p, q, pub, priv)
    requires ToBytes(Encrypt(chunk, pub).value).Ok?
    ensures Decrypt(FromBytes(ToBytes(Encrypt(chunk, pub).value).value), priv) ==
              ToBytes(FromBytes(chunk) % (p * q))
  {
    PrimeProductPositive(p, q);
    ModPowInverseReduced(p, q, pub.exponent, priv.exponent, FromBytes(chunk));
  }

  /**
   * decrypt_data(encrypt_data(data)) == data under the conditions the
   * codec needs: to_bytes accepts every ciphertext (encrypt_data
   * succeeds), and every chunk of data is below n, has a non-zero last
   * byte, and has a value to_bytes accepts.
   */
  lemma RoundTrip(p: nat, q: nat, pub: Key, priv: Key, data: seq<Byte>)
    requires RsaKeyPair(p, q, pub, priv) && p * q >= 129
    requires EncryptData(data, pub).Ok?
    requires forall i :: 0 <= i < |ChunksOf(data, p * q)| ==>
               var chunk := ChunksOf(data, p * q)[i];
               FromBytes(chunk) < p * q && Canonical(chunk) && ToBytes(FromBytes(chunk)).Ok?
    ensures DecryptData(EncryptData(data, pub).value, priv) == Ok(data)
  {
    var n := p * q;
    var chunks := ChunksOf(data, n);
    var blocks := EncryptData(data, pub).value;
    EncryptDataBlocks(data, pub);
    BlockSizePositive(n);
    EncryptChunksSpec(chunks, pub);
    forall i | 0 <= i < |blocks|
      ensures Decrypt(FromBytes(blocks[i]), priv) == Ok(chunks[i])
    {
      BlockRoundTrip(p, q, pub, priv, chunks[i]);
      DivModUnique(FromBytes(chunks[i]), n, 0, FromBytes(chunks[i]));
      ToBytesOfFromBytes(chunks[i]);
    }
    DecryptBlocksSpec(blocks, priv);
    assert DecryptBlocks(blocks, priv).value == chunks;
    SplitBytesShape(data, BlockSize(n));
  }

  lemma ThirteenSeventeenPrime()
    ensures Prime(13) && Prime(17)
  {
    forall d | 2 <= d < 17
      ensures !Divides(d, 17) && (d < 13 ==> !Divides(d, 13))
    {
      assert d == 2 || d == 3 || d == 4 || d == 5 || d == 6 || d == 7 || d == 8 || d == 9 ||
             d == 10 || d == 11 || d == 12 || d == 13 || d == 14 || d == 15 || d == 16;
    }
  }

  /** ceil(log2(221)) == 8, so encrypt_data uses one-byte chunks for n = 221. */
  lemma ExampleBlockSize()
    ensures BlockSize(221) == 1
  {
    assert Pow(2, 8) == 256 && Pow(2, 7) == 128;
    CeilLog2Unique(221, 8);
  }

  lemma ExampleChunks()
    ensures SplitBytes([250], 1) == Ok([[250]])
  {
    var c := Chunks([250], 1);
    assert CeilDiv(1, 1) == 1;
    assert |c| == 1;
    assert c[0] == Chunk([250], 1, 0) == [250];
    assert c == [[250]];
  }

  /** A one-byte value v with 128 < v < 256 encodes as [v]. */
  lemma OneByteEncoding(v: int)
    requires 128 < v < 256
    ensures ToBytes(v) == Ok([v])
  {
    assert Pow(2, 8) == 256 && Pow(2, 7) == 128;
    CeilLog2Unique(v, 8);
    assert Pow(256, 1) == 256;
    DivModUnique(v, 256, 0, v);
    assert LittleEndian(v, 1) == [v];
  }

  /**
   * With p = 13, q = 17 (n = 221) and e = 5, d = 77, the one-byte message
   * [250] is larger than n and comes back as [29] = [250 mod 221].
   */
  lemma ChunkAboveModulusExample()
    ensures EncryptData([250], Key(5, 221)) == Ok([[139]])
    ensures DecryptData([[139]], Key(77, 221)) == Ok([29])
  {
    ExampleEncrypt([250], Key(5, 221));
    ExampleDecrypt();
  }

  /** A message that forms a single chunk encrypts to the single block of its ciphertext. */
  lemma SingleChunkEncrypt(data: seq<Byte>, pub: Key, block: seq<Byte>)
    requires Usable(pub) && pub.modulus > 0
    requires SplitBytes(data, BlockSize(pub.modulus)) == Ok([data])
    requires ToBytes(Encrypt(data, pub).value) == Ok(block)
    ensures EncryptData(data, pub) == Ok([block])
  {
    EncryptChunksSpec([data], pub);
    var blocks := EncryptChunks([data], pub).value;
    assert blocks == [block] by {
      assert |blocks| == 1 && blocks[0] == block;
    }
  }

  /** A single block decrypts to its decrypted part. */
  lemma SingleBlockDecrypt(block: seq<Byte>, priv: Key, part: seq<Byte>)
    requires Usable(priv) && Decrypt(FromBytes(block), priv) == Ok(part)
    ensures DecryptData([block], priv) == Ok(part)
  {
    DecryptBlocksSpec([block], priv);
    var parts := DecryptBlocks([block], priv).value;
    assert parts == [part] by {
      assert |parts| == 1 && parts[0] == part;
    }
    assert Concat([part]) == part by {
      ConcatLast([part]);
      assert [part][..0] == [];
      assert Concat([]) + part == part;
    }
    assert DecryptData([block], priv) == Ok(Concat(parts));
  }

  lemma ExampleEncrypt(data: seq<Byte>, pub: Key)
    requires data == [250] && pub == Key(5, 221)
    ensures EncryptData(data, pub) == Ok([[139]])
  {
    ExampleBlockSize();
    ExampleChunks();
    assert Encrypt(data, pub) == Ok(139) by {
      assert FromBytes([250]) == 250;
      assert Pow(250, 5) == 976562500000;
    }
    OneByteEncoding(139);
    SingleChunkEncrypt(data, pub, [139]);
  }

  lemma ExampleDecrypt()
    ensures DecryptData([[139]], Key(77, 221)) == Ok([29])
  {
    assert ModPow(139, 77, 221) == 29 by {
      ThirteenSeventeenPrime();
      ModPowInverseReduced(13, 17, 5, 77, 250);
      assert Pow(250, 5) == 976562500000;
    }
    assert ToBytes(29) == Ok([29]) by {
      assert Pow(2, 5) == 32 && Pow(2, 4) == 16;
      CeilLog2Unique(29, 5);
      assert Pow(256, 1) == 256;
      DivModUnique(29, 256, 0, 29);
      assert LittleEndian(29, 1) == [29];
    }
    assert FromBytes([139]) == 139;
    SingleBlockDecrypt([139], Key(77, 221), [29]);
  }
}
