# Verified model of the TNL codec and its cryptographic library

The repository holds a Go version of the Torque Network Library, whose bit-level
codec packs numbers and byte strings into packets, and a copy of libtomcrypt in C.
This project models the algorithms of both that rest on some mathematics, in the
form in which they are written there: arrays rewritten in place, objects whose
fields the calls update, a linked list, loops with early exits. Each method is proved
against a specification, and the specification has its own theorems.

- **Polynomials over GF(2)** (`Poly`, `PolyField`, `PolyRoots`, `Gf`, `GfPrime`): 1024-bit
  polynomials in arrays of 32 words; product, division, modular inverse, square root,
  greatest common divisor, the test for irreducibility. A polynomial is the set of its
  exponents; the residues modulo an irreducible one are a field.
- **Elliptic curves** (`EccPoint`, `EccWalk`, `EccAffine`, `EccMulmod`): the affine
  formulas over a prime field, point compression, and the sliding-window multiplier
  over any addition, with what it computes over an associative one and over the
  nonzero multiples of a point, where opposite points are doubled. `Numbers` has the
  modular arithmetic and Fermat's little theorem.
- **Signatures** (`Dsa`, `DhSys`, `EccSys`, `Mp`): that what is signed verifies,
  exactly when, and which pairs are accepted whoever made them.
- **Block ciphers** (`AesBox`, `AesField`, `Aes`, `Rijndael`, `Des`): table-driven AES
  against the round functions and key expansion of FIPS 197, and DES and
  three-key DES with their key schedules.
- **Hashing** (`Md5`, `Hmac`): the buffering of `HASH_PROCESS`, the padding of MD5 and
  message authentication, over a compression function that is a parameter.
- **Stream modes** (`Streams`, `Ctr`, `Ofb`, `Cfb`) over a block cipher that is a
  parameter.
- **The keyring** (`Crc32`, `Keyring`): the list as a finite map, and the checksum that
  is its key.
- **Codecs** (`BitStream`, `Types`, `Base64`; `Words` and `Binary` have the bits of
  machine words): writing and reading back at any alignment, the width computed
  from a float's exponent, and base64.

`Results` has the error codes.

Where the code does not do what its comments or callers expect, the code is
followed and the difference is stated: `gf_deg` returns the degree plus one,
`gf_sqrt` finds roots exactly for some moduli, `gf_is_prime` refuses degree 1, opposite
points are doubled where they have no affine sum, so that an elliptic-curve signature
of the private key, of zero or of a multiple of the order does not verify, or only for
one key, deleting a missing key removes the end of the keyring, names of more than 255
bytes get past its search for duplicates, a range of all 32-bit numbers is written in
129 bits, and base64 text with three padding characters can be decoded past the end of
its output.

`SMALL_CODE` is taken as defined, as in `libtomcrypt/mycrypt_custom.h`.

## Model

| member | source | states |
|---|---|---|
| Poly.MulCommutes | libtomcrypt/gf.c:94-110 | The product of two polynomials over GF(2) does not depend on their order, whichever operand the loop scans. |
| Poly.MulAssoc | libtomcrypt/gf.c:94-110 | It is associative. |
| Poly.MulAddLeft | libtomcrypt/gf.c:94-110 | It distributes over the sum of `gf_add`. |
| Poly.MulCoefficient | libtomcrypt/gf.c:94-110 | Coefficient k of the product is the parity of the pairs of terms whose exponents add up to k: shift-and-add is multiplication in GF(2)[x]. |
| Poly.MulSize | libtomcrypt/gf.c:94-110 | The size of a product of non-zero polynomials is the sum of the sizes less one, so it tells when a product fits the 1024 bits. |
| Poly.DivisionUnique | libtomcrypt/gf.c:113-151 | Quotient and remainder are determined by a = q*b + r with r smaller than b. |
| Poly.FrobeniusAdd | libtomcrypt/gf.c:202-209 | Repeated squaring is additive. |
| Poly.FrobeniusFixes | libtomcrypt/gf.c:202-209 | If x to the 2^j is congruent to x modulo m, then every polynomial to the 2^j is congruent to itself. |
| Gf.GfAdd | libtomcrypt/gf.c:9-14 | The word-wise exclusive or is the polynomial sum, also when c is a or b. |
| Gf.GfShl | libtomcrypt/gf.c:52-62 | Multiplication by x, the top coefficient lost; in place too. |
| Gf.GfDeg | libtomcrypt/gf.c:78-91 | -1 for zero and the degree plus one for any other polynomial, which is what the code computes; its comment says the degree. |
| Gf.GfMul | libtomcrypt/gf.c:94-110 | The product in GF(2)[x], cut to the capacity, for every a of degree at most 1022 and every b, with any of the three arrays shared. |
| Gf.ShiftedRows | libtomcrypt/gf.c:136-139 | Row j is the divisor times x^j. |
| Gf.Reduce | libtomcrypt/gf.c:141-146 | One step keeps a = q*b + ta, puts one new term into the quotient and makes ta strictly smaller, which ends the loop. |
| Gf.GfDiv | libtomcrypt/gf.c:113-151 | For a non-zero divisor a = q*b + r with r smaller than b; a zero divisor leaves q and r untouched; a and b may be shared with q or r. |
| Gf.GfMod | libtomcrypt/gf.c:154-160 | The remainder of that division. |
| Gf.GfMulmod | libtomcrypt/gf.c:162-168 | The remainder of the product, in place too. |
| Gf.EuclidStep | libtomcrypt/gf.c:184-193 | One round of Euclid keeps p0*A = n and p1*A = r modulo M and the common divisors of n and r. |
| Gf.GfInvmod | libtomcrypt/gf.c:171-196 | B times A is congruent modulo M to the greatest common divisor of M and A, and B is reduced, for every non-zero A but one of degree 1023 that leaves the remainder 1 in M. |
| Gf.InverseOfCoprime | libtomcrypt/gf.c:171-196 | So B is the inverse of A when they are coprime. |
| Gf.GfSqrt | libtomcrypt/gf.c:202-209 | b comes from a by as many squarings as M has degree less one, each cut to the capacity; none is cut for moduli of degree up to 512 and operands of up to 512 bits, where b is congruent to that power of a. |
| Gf.SquareRootsIff | libtomcrypt/gf.c:202-209 | The result is a square root of every a if and only if x to the 2^deg(M) is congruent to x modulo M. |
| Gf.IrreducibleRoots | libtomcrypt/gf.c:198-209 | Modulo every irreducible M the result is a square root of every a. |
| PolyField.IrreducibleFixes | libtomcrypt/gf.c:198-209 | In the field of residues modulo an irreducible polynomial of degree d every element is fixed by d squarings, because multiplying permutes the 2^d - 1 units. |
| Gf.NoRoot | libtomcrypt/gf.c:202-209 | An input that fails: modulo x^2 the result for x is 0, whose square is not x. |
| PolyRoots.FewRoots | libtomcrypt/gf.c:238-257 | Over the residues modulo an irreducible polynomial a monic polynomial has no more roots than its degree. |
| PolyRoots.MovesX | libtomcrypt/gf.c:238-257 | Fewer squarings than the degree of an irreducible polynomial do not fix x. |
| GfPrime.ReducibleMeets | libtomcrypt/gf.c:245-253 | Every reducible polynomial of degree two or more shares a factor with some x^(2^i) - x that the loop reaches. |
| GfPrime.GfIsPrime | libtomcrypt/gf.c:238-257 | For degrees from 2 to 512 the answer is 1 if and only if the polynomial is irreducible; both polynomials of degree 1 are refused, though irreducible, and zero and one are accepted. |
| Gf.GfGcd | libtomcrypt/gf.c:212-235 | The result divides both operands and every common divisor divides it, for all operands, zero ones and either order included. |
| Gf.GcdUnique | libtomcrypt/gf.c:212-235 | There is only one such polynomial. |
| EccPoint.DblPoint | libtomcrypt/ecc.c:248-289 | R is the double of P by the tangent formula, reduced, and on every curve y^2 = x^3 - 3x + b that P is on, also when R is P; it fails exactly when y has no inverse and then changes nothing. |
| EccPoint.AddPoint | libtomcrypt/ecc.c:292-350 | R is the third point on the chord when the abscissas differ and the double when they agree (the code takes P = -Q for a doubling too), reduced and on the same curve, also when R is P or Q; exactly which inputs fail. |
| EccPoint.ChordSumOnCurve | libtomcrypt/ecc.c:318-341 | The chord formulas stay on the curve modulo any prime. |
| EccPoint.DoubleOnCurve | libtomcrypt/ecc.c:257-280 | So do the tangent formulas. |
| EccPoint.ChordSumUnique | libtomcrypt/ecc.c:318-341 | The chord determines the reduced result. |
| EccPoint.ChordSumCommutes | libtomcrypt/ecc.c:318-341 | The sum does not depend on the order of the points. |
| EccPoint.SameAbscissa | libtomcrypt/ecc.c:301-311 | Two points of the curve with one abscissa are equal or opposite, so the branch taken for equal abscissas sees no other case. |
| EccPoint.CompressYPoint | libtomcrypt/ecc.c:661-702 | For every prime p = 3 mod 4 and every point of the curve with 0 <= y < p the bit is 0 if and only if y is a square modulo p. |
| EccPoint.SquareRoot | libtomcrypt/ecc.c:682-702 | The power (p+1)/4 of the right-hand side is, whenever that has a root, the root that is a square itself; of two opposite numbers only one is. |
| EccPoint.ExpandYPoint | libtomcrypt/ecc.c:704-744 | For such a prime bit 0 gives the ordinate that is a square modulo p, and any other the one that is not. |
| EccPoint.CompressRoundTrip | libtomcrypt/ecc.c:661-744 | For every prime p = 3 mod 4 and every point of the curve with 0 <= y < p, expansion recovers y from x and the bit. |
| Numbers.Fermat | libtomcrypt/ecc.c:682-686 | Fermat's little theorem, on which the root by the power (p+1)/4 rests. |
| EccWalk.WalkIs | libtomcrypt/ecc.c:356-500 | Wherever the addition adds the multiples on the way, the walk along the bits, with its window and its tail, ends at the multiple that the bits make. |
| EccWalk.MultipleIsTimes | libtomcrypt/ecc.c:356-500 | Over every associative addition it is k*G. |
| EccAffine.SumInRange | libtomcrypt/ecc.c:301-311 | With opposite points doubled, as add_point does, the nonzero multiples of a point of prime order are closed under addition. |
| EccAffine.RegularMultiple | libtomcrypt/ecc.c:356-500 | In that group, of an order above 16, the result is k times any point whenever no leading bits of k make a multiple of the order, which holds for every k below it: no opposite pair comes up. |
| EccAffine.MultiplePoint | libtomcrypt/ecc.c:356-500 | For every scalar the result is some nonzero multiple. |
| EccMulmod.WindowPush | libtomcrypt/ecc.c:438-463 | A bit that opens, extends or fills the window keeps the relation of mode, bitcpy, bitbuf, first and R to the bits to come; a full window is an index into the table. |
| EccMulmod.TakeBit | libtomcrypt/ecc.c:413-464 | One pass of the loop takes one bit from those to come and keeps where the walk ends. |
| EccMulmod.TailBits | libtomcrypt/ecc.c:466-488 | Double and add takes the walk over the bits left in the window. |
| EccMulmod.MakeTable | libtomcrypt/ecc.c:389-398 | Entry j comes from three doublings of G and j additions of it. |
| EccMulmod.EccMulmod | libtomcrypt/ecc.c:356-500 | For every point addition and every scalar in digits of any width R is what the walk along its bits leaves there, also when R is G, and over an associative addition k*G; a zero scalar leaves R as it was. |
| Mp.Invmod | libtomcrypt/dsa.c:158-160 | An inverse modulo m in range, or a failure when there is none. |
| Dsa.DsaSignHash | libtomcrypt/dsa.c:117-217 | The signature of the first nonce with which r and s are both non-zero, or the failure that ends the loop; a signature is in range and meets the signing equation s*k = m + x*r for its nonce k, and under a valid key it verifies. |
| Dsa.DsaVerifyHash | libtomcrypt/dsa.c:219-298 | The error exactly when s has no inverse modulo q; otherwise, under a valid key and for whatever r and s, 1 if and only if r comes from g^e, where e is the exponent with s*e = m + x*r modulo q. |
| Dsa.ExponentExists | libtomcrypt/dsa.c:271-285 | There is such an exponent for every s with an inverse, so the verdict is determined for every pair. |
| Dsa.ForgedRefused | libtomcrypt/dsa.c:288-290 | A pair that nobody signed, and its refusal. |
| Dsa.SignedVerifies | libtomcrypt/dsa.c:148-290 | For a key with g^q = 1 and y = g^x modulo p, every signature that signing returns verifies, whatever the nonces and the hash. |
| DhSys.DhSignHash | libtomcrypt/dh_sys.c:215-317 | A pair that meets x*a + k*b = m modulo the order, with a from g^k, or the error exactly when the nonce has no inverse. |
| DhSys.DhVerifyHash | libtomcrypt/dh_sys.c:319-405 | Whether a^b * y^a = g^m modulo p: for g of order (p-1)/2 and a from g^k, whoever made the pair, 1 if and only if x*a + k*b = m modulo that order; and 1 for everything that signing returns. |
| DhSys.SignedVerifies | libtomcrypt/dh_sys.c:271-395 | With g of order dividing (p-1)/2 every signature verifies, for every hash and every nonce that signing accepts. |
| EccSys.EccSignHash | libtomcrypt/ecc_sys.c:190-295 | A reduced b with k*b = m - x modulo the order, or the error exactly when k has no inverse. |
| EccSys.EccVerifyHash | libtomcrypt/ecc_sys.c:310-423 | Whether b*A + Y = m*G, as the multiplication and the addition of the code compute both sides; for every hash signed under a regular key, 1 if and only if the multiplication makes of m*G the multiple of LeftIndex; for any pair at all of regular scalars, 1 if and only if it meets the signing equation k*b + x = m modulo the order, but for opposite points. |
| EccSys.SidesMeet | libtomcrypt/ecc_sys.c:239-411 | For every hash, the multiple of G that b*A + Y is: m*G; for m equal to the private key A + Y; and for m a multiple of the order -2x*G, the double of b*A, to which Y is opposite. |
| EccSys.VerdictIs | libtomcrypt/ecc_sys.c:397-411 | Whoever made the pair, it is accepted exactly when k*b + x = m modulo the order, or, where b*A and Y are opposite, when m = -2x. |
| EccSys.SignedVerifies | libtomcrypt/ecc_sys.c:239-411 | When no leading bits of the hash make a multiple of the order, as for every hash below it, an honest signature verifies if and only if the hash is not the private key modulo the order; a zero hash verifies if and only if the private key is -1/2. |
| EccSys.OrderHash | libtomcrypt/ecc_sys.c:397-411 | A hash that is a nonzero multiple of the order verifies for at most one private key. |
| EccSys.FailingHashes | libtomcrypt/ecc_sys.c:397-411 | Inputs that fail, in a group of order 17: the private key as the hash, the zero hash, and the order itself, with the one private key each that makes the last two verify. |
| AesBox.BoxIsAffineInverse | libtomcrypt/aes_tab.c:281-345 | The box in the bytes of Te4 is the affine map of the inverse in GF(2^8), section 5.1.1 of FIPS 197. |
| AesBox.BoxInverse | libtomcrypt/aes_tab.c:764-828 | The box in Td4 undoes the one in Te4. |
| AesField.ByteBox | libtomcrypt/aes_tab.c:281-345 | On bytes by their bits too, the box is the affine map of the inverse. |
| Aes.MixWordProducts | libtomcrypt/aes_tab.c:2-8 | The bytes that Te0..Te3 combine are the sums of products by 2, 3, 1 and 1 in the field of the box, rotated from byte to byte. |
| Aes.InvMixWordProducts | libtomcrypt/aes_tab.c:9-14 | Those of Td0..Td3 are the sums of products by 0x0e, 0x0b, 0x0d and 0x09. |
| Rijndael.PowersOfTwo | libtomcrypt/aes_tab.c:829-834 | The entries of rcon are the powers of 2 in that field, ten of them with the values of the table. |
| Rijndael.LoadedByte | libtomcrypt/aes.c:257-260 | Byte 4c + r of a block stands in row r and column c. |
| Aes.ShiftedRow | libtomcrypt/aes.c:267-290 | Row r moves left by r columns, and the inverse moves it back. |
| Aes.InvMixMix | libtomcrypt/aes_tab.c:2-14 | The combination of the Td equations undoes that of the Te equations: InvMixColumns undoes MixColumns. |
| Aes.CipherUndone | libtomcrypt/aes.c:237-484 | The equivalent inverse cipher of section 5.3.5 undoes the cipher of section 5.1, for every block and any keys in inverse order. |
| Rijndael.TableRound | libtomcrypt/aes.c:267-290 | One round through Te0..Te3 is AddRoundKey after MixColumns, ShiftRows and SubBytes. |
| Rijndael.InvTableRound | libtomcrypt/aes.c:395-418 | One round through Td0..Td3 is that of the equivalent inverse cipher. |
| Rijndael.TurnedWord | libtomcrypt/aes.c:76-82 | The Te4 lookups of a turned word with rcon are SubWord of RotWord and Rcon of section 5.2. |
| Rijndael.Key.ExpandKey | libtomcrypt/aes.c:66-151 | The words of eK are the key expansion of section 5.2, for all three key sizes. |
| Rijndael.TableInvMix | libtomcrypt/aes.c:172-197 | Td0..Td3 after the box are InvMixColumns of a word. |
| Rijndael.Key.InvertKey | libtomcrypt/aes.c:157-232 | dK is eK by rounds in reverse, the inner round keys through InvMixColumns. |
| Rijndael.Key.Setup | libtomcrypt/aes.c:48-235 | Which error for which arguments, nothing changed by one; otherwise the round count, the expanded key and its inverse schedule. |
| Rijndael.Key.EcbEncrypt | libtomcrypt/aes.c:237-354 | The loop of two table rounds computes the cipher of section 5.1, in place too. |
| Rijndael.Key.EcbDecrypt | libtomcrypt/aes.c:364-484 | The loop over dK computes the equivalent inverse cipher, in place too. |
| Rijndael.Key.EncryptThenDecrypt | libtomcrypt/aes.c:544-546 | A block that is encrypted and decrypted comes back, in one buffer or several. |
| Des.InitialIsPermutation | libtomcrypt/des.c:1393-1415 | The shifting network is the permutation IP of FIPS 46-3, each half turned left by one. |
| Des.FinalInitial | libtomcrypt/des.c:1456-1474 | The final network undoes the initial one across the swap of the halves. |
| Des.InitialFinal | libtomcrypt/des.c:1393-1474 | The initial network undoes the final one. |
| Des.Desfunc | libtomcrypt/des.c:1382-1493 | Between the networks, eight passes of two rounds each: under a schedule of any key in either direction, the sixteen Feistel rounds of FIPS 46-3, each adding the entries of the eight boxes at the expanded half under the selected key bits. |
| Des.MixIsFeistel | libtomcrypt/des.c:1432-1453 | For every half, key and round, the two lookups change the other half by the entries of SP1 to SP8, that of box s at the six bits of the expanded half that belong to it under those that the key schedule selects. |
| Des.RoundsAreFeistel | libtomcrypt/des.c:1432-1453 | So the rounds under a schedule are those of FIPS 46-3 under the key. |
| Des.CipherReversed | libtomcrypt/des.c:1382-1493 | The same network under the reversed schedule undoes it, for every block, all keys and any substitution tables. |
| Des.Cooked | libtomcrypt/des.c:1348-1371 | The masks and shifts put the six bits for each of the eight boxes at the low end of its byte. |
| Des.OddBoxExpanded | libtomcrypt/des.c:1433-1437 | The index that boxes 1, 3, 5 and 7 get is the half as expanded by E of FIPS 46-3 under the selected key bits of the round. |
| Des.EvenBoxExpanded | libtomcrypt/des.c:1438-1442 | So is that of boxes 2, 4, 6 and 8. |
| Des.Choice1Columns | libtomcrypt/des.c:50-55 | The first table reads the columns of the key bits, without the parity bits, by the formulas of permuted choice 1. |
| Des.TurnsByRound | libtomcrypt/des.c:57-62 | Each round turns the halves by one or two places more, a whole turn in all. |
| Des.Choice2Distinct | libtomcrypt/des.c:64-71 | The second table takes 24 places of each half, none twice and not the eight that permuted choice 2 leaves out. |
| Des.Pick | libtomcrypt/des.c:1324-1331 | The raw words hold the bits that permuted choice 2 selects. |
| Des.Deskey | libtomcrypt/des.c:1286-1335 | Every word of the schedule holds exactly the key bits that the permuted choices and rotations select for its round, first round first for EN0 and last first for DE1. |
| Des.SchedulesReversed | libtomcrypt/des.c:1300-1306 | The schedules of the two directions are each other's reverse by pairs. |
| Des.DesKey.Setup | libtomcrypt/des.c:1503-1520 | Which error for which arguments, nothing changed by one; otherwise both schedules. |
| Des.Crypt | libtomcrypt/des.c:1546-1570 | The block of eight bytes, loaded high byte first, through the Feistel rounds under the schedule of any key in either direction, in place too, no byte after it changed. |
| Des.LoadedValue | libtomcrypt/des.c:1552-1553 | The word that is loaded is the number of its four bytes, the first most significant. |
| Des.DesKey.EncryptThenDecrypt | libtomcrypt/des.c:1546-1570 | Decryption undoes encryption, in one buffer or several. |
| Des.Des3Key.Setup | libtomcrypt/des.c:1522-1544 | The six schedules of encrypt-decrypt-encrypt, those of decryption reversing the others in the opposite order. |
| Des.Crypt3 | libtomcrypt/des.c:1572-1601 | Three encipherments by Feistel rounds one after the other, each under its own schedule, in place too. |
| Des.Cipher3Reversed | libtomcrypt/des.c:1572-1601 | Three networks under three reversed schedules in the opposite order undo the three. |
| Des.Des3Key.EncryptThenDecrypt | libtomcrypt/des.c:1572-1601 | Three-key decryption undoes three-key encryption. |
| Md5.AbsorbedBlock | libtomcrypt/mycrypt_hash.h:229-244 | A whole block, from the data or from the buffer, moves the one-shot state on by one compression and 512 bits. |
| Md5.HashState.Process | libtomcrypt/mycrypt_hash.h:220-249 | However a message is cut into calls, state, length, curlen and the live part of the buffer are those of the whole message; more than 64 buffered bytes are an error that changes nothing. |
| Md5.PaddedBlocks | libtomcrypt/md5.c:159-184 | The padded message is a whole number of blocks. |
| Md5.PaddedParts | libtomcrypt/md5.c:159-184 | After the message come the byte 0x80 and zero bytes, fewer than a block of them, and the last eight bytes as a number, low-order byte first, are its length in bits modulo 2^64. |
| Md5.InitialValues | libtomcrypt/md5.c:137-140 | The state starts from the four words of section 3.3 of RFC 1321. |
| Md5.PaddedInjective | libtomcrypt/md5.c:159-184 | Different messages below 2^61 bytes have different padded forms. |
| Md5.FinishTwo | libtomcrypt/md5.c:165-184 | The case with no room for the length takes two blocks and still is the fold over the padded message. |
| Md5.HashState.Done | libtomcrypt/md5.c:147-194 | The state is the fold of the compression over the message padded as in sections 3.1 and 3.2 of RFC 1321, and every word of it is the sum of four bytes of the output, each 256 times the one before; 64 or more buffered bytes are an error that changes nothing. |
| Hmac.HashMemory | libtomcrypt/hash.c:3-25 | The digest of the data, or the error for a short buffer, which is left alone. |
| Hmac.PadBits | libtomcrypt/hmac.c:65-113 | The pads are the bytes 0x36 and 0x5c, exclusive-ored with every byte of the key. |
| Hmac.BlockKeyBytes | libtomcrypt/hmac.c:49-62 | A key of up to 64 bytes is followed by zeros, and a longer one gives way to its digest. |
| Hmac.MacIsNested | libtomcrypt/hmac.c:64-134 | The digest of the outer block before the digest of the inner block before the text, for any blocks that are the key exclusive-ored with 0x5c and with 0x36. |
| Hmac.HmacState.Init | libtomcrypt/hmac.c:26-75 | An empty key is an error; any other leaves the padded or hashed key and the inner pad absorbed. |
| Hmac.HmacState.Process | libtomcrypt/hmac.c:77-86 | More text in pieces of any size. |
| Hmac.HmacState.Done | libtomcrypt/hmac.c:88-134 | H(K xor opad, H(K xor ipad, text)) of section 2 of RFC 2104, cut to the given length, nothing else written. |
| Hmac.HmacMemory | libtomcrypt/hmac.c:136-163 | The same from one call, nothing else written, or the error for an empty key. |
| Streams.StreamBack | libtomcrypt/ctr.c:53-80 | Ciphertext cut into calls in any way goes back to plaintext that was cut in any other way, for the modes whose keystream does not depend on the data. |
| Ctr.NextValue | libtomcrypt/ctr.c:56-62 | The carry loop adds one modulo 256^blocklen to the little-endian counter. |
| Ctr.CounterValue | libtomcrypt/ctr.c:56-62 | After n increments the counter is the start plus n modulo 256^blocklen. |
| Ctr.PadIs | libtomcrypt/ctr.c:24-70 | Byte p of the stream is byte p mod blocklen of the encryption of the counter whose number is the start plus p / blocklen modulo 256^blocklen. |
| Ctr.CtrState.Increment | libtomcrypt/ctr.c:56-62 | The loop with its early exit computes that successor in place. |
| Ctr.CtrState.Start | libtomcrypt/ctr.c:24-32 | The state at position 0 of the stream. |
| Ctr.CtrState.Crypt | libtomcrypt/ctr.c:35-71 | From position p the bytes are xored with bytes p, p+1, ... of the stream of encrypted counters, in place too, and the state moves to p + len; parameters out of range are an error that changes nothing. |
| Ofb.OfbState.Crypt | libtomcrypt/ofb.c:30-52 | The same with the stream of section 6.4 of NIST SP 800-38A: the vector encrypted over itself. |
| Ofb.PadIs | libtomcrypt/ofb.c:46-52 | Every block of the stream is the encryption of the block before it, the first that of the initial vector. |
| Cfb.DecryptEncrypt | libtomcrypt/cfb.c:37-98 | Decryption from an equal state undoes encryption. |
| Cfb.Feedback | libtomcrypt/cfb.c:37-66 | Every ciphertext block is the plaintext exclusive-ored with the encryption of the ciphertext block before it, the first with that of the vector. |
| Cfb.EncryptionCut | libtomcrypt/cfb.c:37-66 | Encrypting two pieces after one another gives the bytes of one call. |
| Cfb.CallsBack | libtomcrypt/cfb.c:37-98 | Ciphertext in any pieces goes back to plaintext that was in any others. |
| Cfb.CfbState.Encrypt | libtomcrypt/cfb.c:37-66 | The bytes and the state of cipher feedback, section 6.3 of NIST SP 800-38A, after any ciphertext so far, in place too. |
| Cfb.CfbState.Decrypt | libtomcrypt/cfb.c:68-98 | The same for decryption, where the ciphertext is read before it may be overwritten. |
| Crc32.TableByteIsByte | libtomcrypt/keyring.c:66 | A table step is eight steps of division by the reflected polynomial 0xedb88320, for every entry of the table. |
| Crc32.Crc32 | libtomcrypt/keyring.c:71-86 | The unrolled loop computes the CRC bit by bit. |
| Crc32.CrcConcat | libtomcrypt/keyring.c:71-86 | Chained calls give the CRC of the concatenation. |
| Crc32.KnownCrcs | libtomcrypt/keyring.c:71-86 | No data, one zero byte, and the digits 1 to 9 give the CRC-32 values known for them. |
| Keyring.KrCrc | libtomcrypt/keyring.c:100-110 | The ID is the CRC of the three strings together, each cut to 256 bytes. |
| Keyring.ShortId | libtomcrypt/keyring.c:100-110 | Strings of up to 256 bytes give the chained CRC of all their bytes. |
| Keyring.KeyRing.Init | libtomcrypt/keyring.c:88-98 | An empty ring of one empty node, or the error without memory. |
| Keyring.KeyRing.Find | libtomcrypt/keyring.c:112-123 | The first node with the ID, or null when there is none. |
| Keyring.KeyRing.Add | libtomcrypt/keyring.c:140-202 | Which status for which arguments, in the order of the tests; on success the empty node takes the key and a new one follows, and otherwise nothing changes; the list stays a chain without cycles. |
| Keyring.KeyRing.Delete | libtomcrypt/keyring.c:204-241 | The first key with the ID goes; a missing ID removes the empty node of a ring that has one, and is not found otherwise. |
| Keyring.KeyRing.Clear | libtomcrypt/keyring.c:243-256 | It ends, with no node left. |
| Keyring.RunKeeps | libtomcrypt/keyring.c:140-241 | Over every run of additions of strings the arrays hold whole and deletions of keys that are there, IDs stay distinct, every ID is that of its strings, one empty node ends the list, and the ring is the map that the same operations make. |
| Keyring.AddKeeps | libtomcrypt/keyring.c:158-184 | An addition keeps the ring good, its IDs distinct, if and only if it is refused or no key has the ID of the strings as cut to the arrays. |
| Keyring.DeleteKeeps | libtomcrypt/keyring.c:204-241 | A deletion keeps the ring good if and only if its key is there. |
| Keyring.RunOpen | libtomcrypt/keyring.c:140-241 | The empty node is there after a run if and only if it was there before and every deletion found its key; once gone no run brings it back, and no addition succeeds. |
| Keyring.LongNamesCollide | libtomcrypt/keyring.c:158-184 | Of two names of 256 bytes that differ in the last byte only, one at least passes the search for duplicates and is stored under an ID that is taken. |
| BitStream.BitStream.ResizeBits | bitstream.go:153-169 | Growth keeps every bit and adds zeros; exactly when and to what size. |
| BitStream.BitStream.WriteInt | bitstream.go:172-207 | The low bits of the value are put over what is there from the position on, for every width up to 255 and every alignment, no bit outside changes and the position moves by the width; the buffer and both limits afterwards; the error case changes nothing else. |
| BitStream.BitStream.ReadInt | bitstream.go:210-247 | The bits of the window as a number, for every width up to 255, or the error. |
| BitStream.BitStream.WriteBits | bitstream.go:405-435 | Whole bytes replace those at a byte boundary; elsewhere the bits are put over what is there; the buffer and both limits afterwards; the error cases change no bit. |
| BitStream.BitStream.ReadBits | bitstream.go:438-470 | The bits of the window into the bytes, at a byte boundary and elsewhere, what becomes of the bits after the last one, and no byte after them changed. |
| BitStream.ReadBack | bitstream.go:172-247 | Items of any widths written one after the other into zeroed space are read back the same, and nothing outside their window changes. |
| BitStream.IntBack | bitstream.go:172-247 | An integer comes back modulo 2^width. |
| BitStream.RoundTrip | example_test.go:36-64 | On every stream, resizable or not, any fields written into zeroed space come back modulo 2^width after the position is set back, with the position where the writes left it, no error and no other bit changed, if and only if they fit: there is room, and they end below the read limit or beyond the buffer, which then grows. |
| BitStream.RangedBack | bitstream.go:291-313 | Every value of a range comes back, from every range, that of all 2^32 numbers included. |
| BitStream.RangeWidth | bitstream.go:291-300 | A range is written in as many bits as the numbers of it need, one more exactly where the logarithm of its size rounds up, and 129 for all 2^32 numbers. |
| BitStream.BitStream.WriteRangedU32 | bitstream.go:291-300 | The difference to the start in the width of the range, with the buffer and both limits afterwards, or the error outside the range or without room. |
| BitStream.BitStream.ReadRangedU32 | bitstream.go:303-313 | The value that those bits stand for, or the start of the range with the error. |
| Types.IsPow2Iff | types.go:122-124 | The bit test holds exactly for 0 and the powers of two. |
| Types.BinLog2Exact | types.go:126-129 | The exponent of the rounded float is the binary logarithm, or one more exactly for numbers within 2^(k-24) below 2^(k+1). |
| Types.NextBinLog2Covers | types.go:131-136 | 2 to the result is at least n for every n from 1 on, and the result is the least such width if and only if the float does not round up to the next power. |
| Types.OneBitTooMany | types.go:131-136 | The least number with a bit too many is 2^25 - 1, which gets 26. |
| Base64.Encode | libtomcrypt/base64.c:33-75 | The text of section 4 of RFC 4648 with a zero byte after it, or the error for a short buffer, which is left alone. |
| Base64.GroupNumber | libtomcrypt/base64.c:51-54 | Three bytes are one number of four letters, six bits each, the first most significant. |
| Base64.LastNumber | libtomcrypt/base64.c:58-66 | One or two bytes at the end make two or three letters, with zero bits below them, and padding up to four characters. |
| Base64.CodeIsLetter | libtomcrypt/base64.c:6-7 | The alphabet is that of table 1 of RFC 4648. |
| Base64.Decode | libtomcrypt/base64.c:77-106 | For every text, the result of the state machine over its characters and all bytes that it writes, with no other byte changed; the output has to hold what is written, which may be more than its stated length. |
| Base64.FoldLetters | libtomcrypt/base64.c:89-90 | Characters outside the alphabet make no difference anywhere. |
| Base64.DecodeEncode | libtomcrypt/base64.c:33-106 | The text of every byte string, with any other characters anywhere in it, decodes to the string whenever the string fits, and overflows otherwise. |
| Base64.WritesInside | libtomcrypt/base64.c:88-99 | For every text, all bytes are written inside the stated length if and only if no group comes when the room is full, its padding characters make three or more with those before, and the test, with its unsigned wrap-around, has passed so far. |
| Base64.FewPads | libtomcrypt/base64.c:88-99 | With two padding characters or fewer they always are. |
| Base64.ThreePads | libtomcrypt/base64.c:88-99 | An input that fails: ===A is accepted for an output of no bytes and writes one. |

## Left out

- Bignum memory errors and Barrett reduction: `mp_*` operations are exact integer
  arithmetic, and the modular inverse is the least one.
- Packet headers, key import and export, and the byte encodings of numbers around
  the signature arithmetic; the random source gives the nonces as parameters.
- The group law: that the affine formulas add the multiples of a base point of prime
  order, but for opposite ones, is what `EccAffine` assumes of an addition; `EccPoint`
  proves the formulas, the doubling of opposite points and the curve equation.
- EccSys.SignedVerifies: for hashes from the order upward leaves out those of which
  leading bits make a multiple of the order; `EccSys.SidesMeet` covers them by what
  the multiplication makes of them, and `EccSys.OrderHash` the multiples themselves.
  The private and the fresh key are regular in the same sense.
- EccPoint.CompressYPoint: says what the bit means where p = 3 modulo 4, which the power
  (p+1)/4 needs; for other moduli, the bit is what that power makes it.
- `gf_toraw`, `gf_readraw`, `gf_size`: plain copies.
- GfPrime.GfIsPrime: says nothing of degrees above 512, where the squares are cut.
- Gf.GfMul: requires degree at most 1022 of the scanned operand, because the loop
  tests the bit above the degree; operands of degree 1023 read past the array.
- Gf.GfInvmod: requires that A is not zero, and of degree 1023 only where M does not
  leave the remainder 1, since the quotient by 1 is scanned past the array.
- Gf.GfSqrt: requires a modulus of degree 1 or more, since for others the counter of
  the loop starts below zero, and an operand below degree 1023 where it is squared.
- The tables Te0..Te3, Td0..Td3 and rcon of AES stand for the equations at their head
  and for powers of two in the field; the two boxes are the tables themselves.
- The substitution tables SP1..SP8 of DES are a parameter; the theorems hold for all.
- The compression function of MD5 is a parameter; other hashes of the same shape and
  the descriptor tables that select one are not repeated.
- Cipher setup inside the mode starts, and cipher and hash index checks.
- Ctr.CtrState.Crypt: requires padlen at most blocklen and a non-zero blocklen where
  the range test passes, as every start leaves them; likewise in Ofb and Cfb. Beyond
  that the C code runs past its pad.
- Keyring strings are the bytes before the zero; the arrays' zero padding, the key
  material's structure, `kr_load`, `kr_save`, export, import and the public-key calls.
- Keyring.KeyRing.Clear: requires the empty node that ends the list, without which
  the C code dereferences null.
- Base64.Decode: the count of bytes for a group is an unbounded number, where the C
  variable is an `int`; unsigned sums wrap at 2^32.
- BitStream.BitStream.WriteInt: positions are unbounded numbers, where the Go fields
  wrap at 2^32 bits.
- `WriteSignedInt` and the float writers, `WriteIntAt` over used bits, `GetNextPow2`,
  string and hash helpers of the bit stream.
- Blowfish, CAST5, Noekeon, CBC, ECB and the other ciphers and hashes, which would
  repeat these arguments more easily.
- Clearing of memory and of the stack after use.
- Entropy, files, sockets, timers and logging; the master server and its clients;
  `crypto.go`, `stringtable.go`, `netbase.go`.
