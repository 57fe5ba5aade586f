# RSALIB in Dafny

A model of RSALIB.py, a small textbook RSA library. It covers:

- the modular-arithmetic kernel: `fast_mod_pwr`, `gcd`, `xgcd` and `calculate_d`;
- trial-division and Fermat primality: `is_prime`, `prime_test` and `generate_prime`;
- key generation: `calculate_e` and `generate_keys`;
- the little-endian byte codec: `from_bytes`, `to_bytes` and `split_bytes`;
- the block cipher drivers: `encrypt`, `decrypt`, `encrypt_data` and `decrypt_data`.

The model also proves RSA correctness. For distinct primes p and q with
e·d ≡ 1 (mod (p−1)(q−1)), m^(e·d) ≡ m (mod p·q). The proof goes through
Fermat's little theorem, which is proved from the binomial theorem, and the
Chinese remainder theorem for two primes.

Modules, one per part of the library:

| file | module | contents |
|---|---|---|
| results.dfy | `Results` | `Result`, `Option` and the three Python errors the code can raise (`ValueError` as `DomainError`, `OverflowError`, `ZeroDivisionError`) |
| arith.dfy | `ModArith` | `Pow`, `fast_mod_pwr` (a method with a loop), `gcd`, `xgcd`, `calculate_d` |
| numtheory.dfy | `NumberTheory` | primes, Euclid's lemma, the binomial theorem, Fermat, CRT, the RSA identity |
| primality.dfy | `Primality` | `is_prime`, `prime_test` and `generate_prime` as methods with loops over given random draws |
| keygen.dfy | `KeyGen` | `calculate_e` and `generate_keys` as methods over given random draws |
| codec.dfy | `Codec` | `from_bytes`, `to_bytes` (integer branch), `split_bytes` |
| cipher.dfy | `Cipher` | `encrypt`, `decrypt`, `encrypt_data`, `decrypt_data`, the round trip |

**Randomness.** The randomised routines take their random draws as
parameters:
- `calculate_e` takes the successive values of `randint(2, phi - 1)`.
- `prime_test` takes its witnesses.
- `generate_prime` takes a sequence of `Candidate`s. Each one is a value drawn by `randint(a, b)` together with the witnesses its `prime_test` drew.
- `generate_keys` takes one candidate sequence per call of `generate_prime`.

When the candidate or exponent draws run out, the model returns `None`.
`prime_test` is different: its witness list must hold at least one witness
per round (`ValidWitnesses`), so a short list is excluded rather than
returning `None`. Where the program would
raise, the model returns an error: `randint` on an empty range, a division
by zero, or an `OverflowError` from `int.to_bytes`.

**Floating point.** The program's float computations are replaced by exact
integer functions:
- `log2` becomes `CeilLog2`, the least c with v ≤ 2^c;
- `round(sqrt(p))` becomes `RoundSqrt`, the integer nearest to √p;
- `ceil(len / m)` becomes `CeilDiv`.

**Quirks kept as written.** The model keeps these behaviours of the code,
and proves them:
- `to_bytes` uses length `ceil(log2 v + 6) // 8`. That is too short when the bit length of v is ≡ 1 (mod 8), or when v is a power of two whose bit length is ≡ 2 (mod 8).
- `to_bytes` drops trailing zero bytes.
- For a modulus from 1 to 128, the chunk size is 0 and `split_bytes` divides by zero.
- `fast_mod_pwr(a, 0, 1)` is 1.
- `is_prime(1)` is true and `is_prime(2)` is false.
- `generate_prime` skips trial division when its low bound exceeds 32.

**Bounds and lengths the code uses:**
- `generate_prime` skips `is_prime` whenever its low bound `a` exceeds 32 (RSALIB.py:107). Primality is therefore certain only for `a <= 32`; in `generate_keys` that means `keysize <= 12`.
- `randint(a, b)` includes `b`, so candidates lie in `[a, b]`.
- The `to_bytes` length is the ceiling of `log2 v + 6`, divided by 8 and rounded down (RSALIB.py:115).
- `decrypt_data(encrypt_data(m)) == m` does not hold unconditionally. It fails:
  - when a chunk ends in zero bytes;
  - when a chunk is ≥ n. That can happen only when `ceil(log2 n)` is a multiple of 8 (`ChunkBelowModulus`). It does happen for every such n that is not a power of two (`ChunkAtLeastModulus`);
  - when `to_bytes` rejects an intermediate value, that is 0 or a value of the bad bit lengths above.

  `RoundTrip` states the conditions under which it does hold. `ChunkAboveModulusExample` shows a failing case: with n = 221 the message [250] comes back as [29].

## Model

| member | source | states |
|---|---|---|
| ModArith.ModPow | RSALIB.py:16-26 | the value fast_mod_pwr promises: in [0, n) for a positive exponent, and 1 for a zero exponent even when n == 1 |
| ModArith.FastModPwr | RSALIB.py:16-26 | the square-and-multiply loop returns a^k mod n for k > 0 and 1 for k == 0 |
| ModArith.PowMod | RSALIB.py:18 | reducing the base first (rema = a % n) does not change a^k mod n |
| ModArith.Gcd | RSALIB.py:37-41 | for b > 0, gcd(a, b) is positive, divides a and b, and is at most b |
| ModArith.GcdGreatest | RSALIB.py:37-41 | every common divisor of a and b divides gcd(a, b) |
| ModArith.GcdCommutes | RSALIB.py:37-41 | gcd(a, b) == gcd(b, a) for positive a and b, so gcd(phi, e) is the gcd that xgcd(e, phi) computes |
| ModArith.Xgcd | RSALIB.py:44-48 | the Bézout identity a·x + b·y == g; (1, 0, a) when b == 0, and g == gcd(a, b) otherwise |
| ModArith.XgcdBound | RSALIB.py:44-48 | for a ≥ 0 and b > 0 the Bézout coefficients satisfy \|x\| ≤ b and \|y\| ≤ max(a, 1) |
| ModArith.CalculateD | RSALIB.py:61-63 | d ≡ the xgcd coefficient of e (mod phi); for phi > 1 and gcd(phi, e) == 1, d lies in [0, phi) and is the inverse of e mod phi |
| ModArith.InverseFromBezout | RSALIB.py:61-63 | a Bézout coefficient of e with respect to a coprime phi is an inverse of e modulo phi |
| NumberTheory.FermatLittle | RSALIB.py:93 | a^(p−1) ≡ 1 (mod p) for a prime p and a not divisible by p, the fact prime_test relies on |
| NumberTheory.RsaIdentity | RSALIB.py:72-75 | m^(e·d) ≡ m (mod p·q) for distinct primes p, q with e·d ≡ 1 mod (p−1)(q−1) |
| NumberTheory.ModPowInverse | RSALIB.py:29-34 | for such a key, decrypting the encryption of any m < p·q with fast_mod_pwr gives back m |
| Primality.RoundSqrt | RSALIB.py:82 | round(sqrt(p)) is isqrt(p) or one above it; RoundSqrtNearest says which |
| Primality.RoundSqrtNearest | RSALIB.py:82 | RoundSqrt(p) is the integer nearest to √p, as round(sqrt(p)) is |
| Primality.RoundSqrtBound | RSALIB.py:82 | round(sqrt(p)) ≤ p, and for p ≥ 3 it lies between isqrt(p) and p − 1, so the loop range covers [3, isqrt(p)] and never p itself |
| Primality.SmallDivisor | RSALIB.py:82 | an odd p ≥ 3 with a proper divisor has an odd divisor in [3, isqrt(p)] |
| Primality.PrimeIffNoSmallOddDivisor | RSALIB.py:79-85 | for odd p ≥ 3, p is prime exactly when no odd i in [3, isqrt(p)] divides p |
| Primality.TrialDivide | RSALIB.py:82-84 | the loop stops at the first odd i ≥ 3 that divides p, or runs past the bound; no odd j in [3, i) divides p |
| Primality.FermatOutcome | RSALIB.py:88-96 | prime_test raises exactly when a witness is needed and p < 3; with no rounds it passes; for p ≥ 3 it passes exactly when a^(p−1) mod p == 1 for every witness |
| Primality.IsPrime | RSALIB.py:79-85 | is_prime(p) is true exactly when p is odd and either 1 or prime; every even p, 2 included, gives false |
| Primality.PrimeTest | RSALIB.py:88-96 | prime_test returns whether every witness a satisfies a^(p−1) mod p == 1, and raises when a witness is needed from the empty range of a p < 3 |
| Primality.PrimesPassFermat | RSALIB.py:88-96 | a prime p ≥ 3 passes prime_test whatever the witnesses |
| Primality.EvenFailsWithMinusOne | RSALIB.py:93 | an even p ≥ 4 fails the Fermat round with witness p − 1 |
| Primality.MinusOnePower | RSALIB.py:93 | (p − 1)^k ≡ 1 (mod p) for even k and ≡ p − 1 for odd k |
| Primality.Accepts | RSALIB.py:105-108 | a candidate makes prime_test raise exactly when it is below 3; an accepted candidate is at least 3, and prime when a ≤ 32 |
| Primality.Search | RSALIB.py:99-110 | a value generate_prime returns is at least 3 |
| Primality.GeneratePrime | RSALIB.py:99-110 | generate_prime raises on an empty range and otherwise returns the first candidate that passes prime_test and, for a ≤ 32, is_prime |
| Primality.SearchResult | RSALIB.py:99-110 | the returned value is a candidate in [a, b], is at least 3 and passed all 15 Fermat rounds; for a ≤ 32 it is an odd prime |
| Primality.SearchFindsPrime | RSALIB.py:99-110 | with all candidates ≥ 3 nothing is raised, and a search returns a value once a prime candidate is drawn |
| KeyGen.ChooseE | RSALIB.py:51-58 | calculate_e raises exactly when phi < 3; a returned e is one of the draws, lies in [2, phi − 1] and is coprime to phi |
| KeyGen.CalculateE | RSALIB.py:51-58 | the retry loop returns the first draw coprime to phi |
| KeyGen.ChooseEFinds | RSALIB.py:51-58 | a coprime draw among the draws makes calculate_e return an exponent |
| KeyGen.PrimeRange | RSALIB.py:67-69 | both primes are drawn from [2^(pwr−1), 2^pwr] with a positive low bound; that bound is at most 32 for keysize ≤ 12 |
| KeyGen.DistinctSearch | RSALIB.py:69-71 | the q that the re-draw loop ends with differs from p and is at least 3 |
| KeyGen.DistinctSearchFrom | RSALIB.py:69-71 | that q is the result of one of the generate_prime calls |
| KeyGen.PrimePair | RSALIB.py:66-71 | generate_keys settles on two distinct values p, q ≥ 3 (prime when keysize ≤ 12, see KeyPairShape) |
| KeyGen.KeysOutcome | RSALIB.py:66-76 | a keysize below 1 raises; generated keys share their modulus, 2 ≤ e < n and 0 ≤ d < n |
| KeyGen.PhiBounds | RSALIB.py:72-73 | for factors of at least 3, phi = (p−1)(q−1) is at least 4 and below n = p·q |
| KeyGen.GenerateKeys | RSALIB.py:66-76 | the key-generation method returns ((e, n), (d, n)) built from the two generate_prime results, calculate_e and calculate_d |
| KeyGen.KeyPairShape | RSALIB.py:66-76 | the keys share n = p·q with p ≠ q both in range; e is coprime to phi = (p−1)(q−1) with 2 ≤ e < phi; d in [0, phi) is its inverse; for keysize ≤ 12 both factors are prime |
| Codec.FromBytes | RSALIB.py:120-121 | from_bytes(b) < 256^\|b\| |
| Codec.FromBytesAppendZero | RSALIB.py:120-121 | a trailing zero byte does not change from_bytes |
| Codec.CanonicalLowerBound | RSALIB.py:120-121 | a byte string with a non-zero last byte decodes to at least 256^(\|b\|−1) |
| Codec.CanonicalUnique | RSALIB.py:120-121 | two byte strings without trailing zeros that decode to the same value are equal |
| Codec.LittleEndian | RSALIB.py:115 | int.to_bytes at a given length yields exactly that many bytes; FromBytesOfLittleEndian and LittleEndianOfFromBytes relate it to from_bytes |
| Codec.LittleEndianOfFromBytes | RSALIB.py:115 | encoding from_bytes(b) in \|b\| bytes gives back b |
| Codec.FromBytesOfLittleEndian | RSALIB.py:115 | decoding the len-byte little-endian encoding of v gives v mod 256^len |
| Codec.CeilLog2 | RSALIB.py:115 | ceil(log2 v) as an integer: the least c with v ≤ 2^c |
| Codec.CeilLog2Unique | RSALIB.py:115 | any c with 2^(c−1) < v ≤ 2^c is ceil(log2 v) |
| Codec.ToBytesLength | RSALIB.py:115 | the length to_bytes computes holds at least ceil(log2 v) − 1 and at most ceil(log2 v) + 6 bits, one bit short when ceil(log2 v) ≡ 1 (mod 8) |
| Codec.ToBytes | RSALIB.py:113-115 | to_bytes raises for v ≤ 0; for v ≥ 1 it succeeds exactly when v < 256^len with len = (ceil(log2 v) + 6) // 8, and fails with OverflowError otherwise; a result has that length, decodes to v and has a non-zero last byte |
| Codec.EncodingIsCanonical | RSALIB.py:115 | a value that fits in len bytes encodes to a non-empty string without trailing zeros that decodes back to it |
| Codec.ToBytesSucceedsIff | RSALIB.py:115 | to_bytes(v) succeeds exactly when the bit length c = ceil(log2 v) has c mod 8 ≥ 2, or c mod 8 == 0 and v is not 2^c |
| Codec.ToBytesOverflowPowersOfTwo | RSALIB.py:115 | to_bytes(1), to_bytes(2) and to_bytes(256) raise OverflowError |
| Codec.ToBytesOverflowNineBits | RSALIB.py:115 | to_bytes(300) and to_bytes(512) raise OverflowError |
| Codec.ToBytesOfByte | RSALIB.py:115 | to_bytes(255) is the single byte 255 |
| Codec.ToBytesOfFromBytes | RSALIB.py:113-121 | to_bytes(from_bytes(b)) == b for b without trailing zeros whenever to_bytes succeeds |
| Codec.CeilDiv | RSALIB.py:126 | ceil(a / m) for m > 0: the least c with c·m ≥ a |
| Codec.Chunk | RSALIB.py:125 | a chunk data[part·m : min((part+1)·m, len)] has between 1 and m bytes |
| Codec.FullChunk | RSALIB.py:125 | every chunk but the last has exactly m bytes |
| Codec.Chunks | RSALIB.py:124-126 | there are ceil(len / m) chunks |
| Codec.SplitBytes | RSALIB.py:124-126 | split_bytes raises ZeroDivisionError exactly for max_length == 0, returns [] for a negative max_length or empty data, and ceil(len / m) chunks otherwise |
| Codec.Concat | RSALIB.py:134 | bytes joined in order: every part fits in the result, and non-empty parts give at least one byte each |
| Codec.FilledValue | RSALIB.py:120-121 | len bytes of 255 decode to 256^len − 1 |
| Codec.SingleChunk | RSALIB.py:124-126 | data of exactly m bytes splits into the single chunk data |
| Codec.ConcatChunksPrefix | RSALIB.py:124-126 | the first k chunks concatenate to the first min(k·m, len) bytes of data |
| Codec.SplitBytesShape | RSALIB.py:124-126 | for max_length > 0 the chunks concatenate back to data, all but the last have max_length bytes, and the last has between 1 and max_length |
| Cipher.Encrypt | RSALIB.py:29-30 | encrypt raises for a zero modulus; for e > 0 it returns from_bytes(a)^e mod n, a value in [0, n) |
| Cipher.Decrypt | RSALIB.py:33-34 | decrypt raises for a zero modulus; a result is non-empty, decodes to c^d mod n and has no trailing zero byte |
| Cipher.ModPowInverseReduced | RSALIB.py:29-34 | for an RSA key every message m comes back from encryption and decryption as m mod p·q |
| Cipher.BlockRoundTrip | RSALIB.py:29-34 | one chunk through encrypt, to_bytes, from_bytes and decrypt comes back as to_bytes(from_bytes(chunk) mod n) |
| Cipher.BlockSize | RSALIB.py:130 | the chunk length ceil(log2 n) // 8 gives chunks below 256^len < 2·n |
| Cipher.EncryptChunks | RSALIB.py:130 | one block per chunk |
| Cipher.BlockSizePositive | RSALIB.py:130 | the chunk size ceil(log2 n) // 8 is positive exactly when n ≥ 129 |
| Cipher.EncryptChunksSpec | RSALIB.py:130 | encrypting the chunks succeeds exactly when to_bytes accepts every ciphertext, and block i is then to_bytes of chunk i's ciphertext |
| Cipher.ChunkBelowModulus | RSALIB.py:130 | when ceil(log2 n) is not a multiple of 8, every chunk's value is below n |
| Cipher.EncryptData | RSALIB.py:129-130 | encrypt_data raises for a zero modulus |
| Cipher.EncryptDataSmallModulus | RSALIB.py:129-130 | for 1 ≤ n ≤ 128 the chunk size is 0 and encrypt_data raises ZeroDivisionError |
| Cipher.EncryptDataBlocks | RSALIB.py:129-130 | for n ≥ 129, encrypt_data succeeds exactly when to_bytes accepts every ciphertext; it then yields one block per chunk, and block i decodes to from_bytes(chunk i)^e mod n, a value below n, with no trailing zero byte |
| Cipher.EncryptDataZeroChunk | RSALIB.py:129-130 | a chunk whose value is a multiple of n makes encrypt_data raise, because its ciphertext 0 cannot be encoded |
| Cipher.ChunkAtLeastModulus | RSALIB.py:130 | when ceil(log2 n) is a multiple of 8 and n is not a power of two, data of len bytes of 255 forms a single chunk whose value is at least n |
| Cipher.DecryptBlocks | RSALIB.py:134 | one decrypted part per block, none of them empty |
| Cipher.DecryptData | RSALIB.py:133-134 | decrypt_data of no blocks is empty; a zero modulus raises ZeroDivisionError; a result has at least one byte per block |
| Cipher.DecryptBlocksSpec | RSALIB.py:133-134 | decrypt_data succeeds exactly when every block decrypts, and part i is then the decryption of block i, joined in order |
| Cipher.RoundTrip | RSALIB.py:129-134 | decrypt_data(encrypt_data(data)) == data for an RSA key pair with n ≥ 129 when to_bytes accepts every ciphertext (encrypt_data succeeds) and every chunk is below n, has no trailing zero byte and is accepted by to_bytes |
| Cipher.ChunkAboveModulusExample | RSALIB.py:129-134 | with n = 13·17 = 221, e = 5 and d = 77 the message [250] encrypts to [[139]] and decrypts to [29], not [250] |

## Left out

- Randomness and global state: `seed(time() + attempt)`, `randint` and the global `attempt` counter are not modelled. The draws are parameters. They are constrained to the range `randint` would draw from, and `prime_test` must be given at least as many witnesses as it has rounds.
- Termination of the unbounded retry loops in `calculate_e`, `prime_test`'s callers and `generate_prime`, and of the `while p == q` loop: a finite sequence of draws stands for them, and running out of draws gives `None`.
- Float imprecision of `log2`, `sqrt`, `round` and `ceil(x / y)` on large integers: the model uses exact integer counterparts.
- The string branch of `to_bytes` (`str.encode('utf-8')`): it delegates to a library codec.
- `int(bin(data), 2)`: modelled as the identity on positive integers, and `int.to_bytes` and `int.from_bytes` as the mathematical little-endian codec.
- The `__main__` demo and `LOREM`: printing and sample data only.
- Cipher.Usable: keys with a negative exponent or modulus are outside the model. `fast_mod_pwr` does not terminate for a negative exponent, and Python's modulo by a negative modulus is not modelled.
- ModArith.Gcd: requires b > 0. For b == 0, `gcd` raises ZeroDivisionError before recursing, and a negative b is never passed by `calculate_e`.
- ModArith.Xgcd: takes b ≥ 0, the only case `calculate_d` uses (phi = (p−1)(q−1) ≥ 0).
- KeyGen.KeysOutcome: a keysize below 1 is a `DomainError`, because `2 ** (pwr - 1)` is then a float and `randint` raises on it (ValueError or TypeError, depending on the Python version).
- Security and probabilistic claims cannot be stated as functional behaviour. These are the false-positive rate of the Fermat test, Carmichael numbers and the quality of `e`. A Carmichael number passes every round whose witness is coprime to it, and `generate_prime` then accepts it when `a > 32`.
