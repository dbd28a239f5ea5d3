# A verified model of tinydtls with lattice keys

This project models the parts of the repository whose correctness is hard to see, and proves
that they do what the repository relies on them for: the multi-precision arithmetic under the
lattice scheme, the scheme itself, P-256 field and curve arithmetic, CCM and the DTLS record
layer, SHA-256 with HMAC and the pseudo-random function, the handshake and the security
parameters of a peer, the reorder buffer, and the peer hash table. `dafny verify dfyconfig.toml`
checks everything.

Code that works on arrays, contexts or linked items in place is a method or a class with the
source's loops and branches, proved against a specification. What the source promises is then
proved about the specification, as lemmas over all inputs, all runs or all reachable states.

## What is modelled

**Multi-precision arithmetic** (`ma/mini-gmp.c`). Limbs are numbers below 2^64 with their
wrap-around written out; B stands for 2^64 below. `ReciprocalDivision` is the integer argument behind dividing with a
precomputed reciprocal; `Limbs`, `Invert3by2`, `LimbArrays`, `QuotientLimb`, `DivisorInverse` and
`LongDivision` are the division stack from the two-limb macros up to `mpn_div_qr`;
`SignedDivision` is `mpz_div_qr` on top of it. `Gcd` is `mpz_gcdext` with its matrix of cofactors of
determinant 2^power, and `mpz_invert`. `BaseText` says what a number's text is; `DigitStrings`, `BitStrings` and
`TextCode` are both conversions, by groups of digits and by slices of bits, in both directions.

**The lattice scheme** (`ma/ma.c`). `Lattice` has key generation with its checks, the public
key, encryption and decryption; `BlockCode` the tagged and masked blocks; `CipherText` the hexadecimal
serialisation and the string-level functions. Every random draw is an input, so the round trips hold for all draws, and
`Lattice.SelectionFrom` says how many rows each draw adds up.

**P-256** (`ecc/ecc.c`). `Words`, `FieldOps`, `ModOrder`, `ModPrime` and `FieldInverse` are loops
over 32-bit words; `Curve` has doubling and addition on top of them, in word arrays and with every product reduced the way
the code reduces it. `CurveFailure` follows one point for which that goes wrong.

**CCM and records** (`ccm.c`, `crypto.c`, `dtls.c`, `peer.h`). The block cipher is an arbitrary function from block
to block, and a keyed family of them in the record layer. `CcmSpec` is RFC 3610, `CcmCode` the in-place code;
`CcmLaws` says what the specification is for: all that is authenticated is determined by
the blocks under the MAC, and no block meets the cipher in two roles. `RecordSpec` says which bytes a record is and what the
other end makes of a packet, `RecordLayer` is the code; `PeerState` holds the two slots of security parameters, and `NonceUse`
joins record numbers and nonces.

**Hashing** (`sha2/sha2.c`, `hmac.c`, `crypto.c`). `Sha256Spec` is FIPS 180-4 on 32-bit words,
`Sha256Laws` says bit by bit what its functions are and where its constants come from, and `Sha256Example` computes the digest of
"abc". `Sha256Code` has the context whose 16-word window
overwrites its own buffer. `Hmac` has one pad that is turned from the inner into the outer key in place, and `PHash` is
P_hash of section 5 of RFC 5246.

**The peer** (`dtls.c`, `peer.h`). `PeerRun` is the machine of epochs and record numbers with one event per handler, and
`Connection` the class whose methods do these steps in place. `Handshake` joins a client and a server by two loss-free
first-in-first-out channels; certificate checks, hello parsing, the pseudo-random function and what a send manages to put
on the wire are inputs, so the invariant covers every interleaving and every failure. `Completion` says that without a failure
every run ends with both sides connected, and `Authentication` that an end which connects has verified the other, skipping no
message, whatever was sent to it. `Reorder` is the buffer of early handshake messages.

**The hash table** (`uthash.h`). `HashChains` has the two doubly linked lists an item is in, `HashTable` the table with
bucket doubling, against a finite map; `HashRun` takes it through any sequence of operations.

## Where the code does not do what its name says

- `fieldModP` does not always return B mod p. One correction per step does not always suffice: a carry
  lost in an addition or a borrow lost in a subtraction shifts the result by 2^256 mod p. `ModPrime.ResidueIffBalanced`
  gives the exact condition for every 512-bit B: the result is right if and only if as many carries as borrows were lost, a
  condition on the operands of the steps. `ModPrime.FailsForReducedFactors` names a product of two reduced field elements for
  which it fails.
- `ec_double` and `ec_add` inherit this. For a product x y let Lost(x, y) be the carries less the borrows that its reduction
  loses; the reduction is exact if and only if Lost(x, y) = 0. With l the computed slope and x3 the computed abscissa:
  - `ec_add` returns the chord's third point, reflected, if and only if the reductions of (py - qy) inv, of l l and of
    l (qx - x3) are all exact (`Curve.AddIsChord`).
  - `ec_double` returns the tangent's third point, reflected, if and only if 3 Lost(x, x) + Lost(x x - 1, 3) +
    2 y Lost(3 x x - 3, inv) = 0 mod p, the factors as computed, and the reductions of l l and of l (x - x3) are exact
    (`Curve.DoubleIsTangent`).
  - Then the result is on every curve the points are on (`Curve.DoubleOnCurve`, `Curve.SumOnCurve`). The other direction holds
    for the point and not for the curve: a wrong point can lie on a given curve by coincidence.
  - `CurveFailure.DoubleLeavesCurve` and `CurveFailure.AddLeavesCurve` name points of P-256 whose double and whose sum, as
    computed, are not on the curve.
- `fieldModO` returns A mod n if and only if the Barrett quotient fits eight words (`ModOrder.RemainderRight`). It does for all
  A < n * 2^256 (`ModOrder.QuotientFits`), and not for 2^512 - 1 (`ModOrder.QuotientOverflows`). With eight words given, the code
  returns any A <= n as it is, n included; for a larger A it reads a ninth word, which `ecc_ec_mult` leaves unset. The
  result is then that of the nine words, and right for the eight if and only if the ninth is zero (`ModOrder.NinthWordCounts`).
- `fieldInv` does not return when A and the modulus have a common factor, A = 0 included (`FieldInverse.NeverOne`).
- `dtls_prepare_record` leaves the 8-byte tag out when it checks that an encrypted record fits: it asks for 21 bytes beside
  the payload and writes 29. `RecordLayer.InsideIff` says exactly when all writes stay in the buffer. The program's own buffer
  has 1400 bytes: payloads of 1372 to 1379 bytes are accepted and written past its end, and no others (`RecordLayer.NotInside`).
- `dtls_ma_cipher_in_str` compares its position with the size of its scan buffer after the elements and not after the tail, and
  `dtls_ma_dec_str_G` follows the null pointer that a failed comparison gives. `CipherText.DecStr` has the outcome `Undefined` for
  every text with which that happens, or whose first field is empty, or which ends before its last field.
- `ccm.c` builds its counter mask with an `int` shift, so the length field may have 2 or 3 bytes only; the model asks for that.

## Model

| member | source | states |
|---|---|---|
| ReciprocalDivision.Window2 | ma/mini-gmp.c:139-156 | for any base b and normalised d, the residue of the candidate quotient is in the two windows that one comparison with the low product limb tells apart |
| ReciprocalDivision.Window3 | ma/mini-gmp.c:158-183 | the same for three limbs by two; the residue is below b^2 - d or below q0*b, so one correction down and one up suffice |
| ReciprocalDivision.CandidateFits | ma/mini-gmp.c:158-183 | the candidate quotient of the 3/2 step never leaves two limbs |
| Limbs.UmulPpmm | ma/mini-gmp.c:114-137 | four half-limb products and their carries give the exact two-limb product |
| Limbs.AddSsaaaa | ma/mini-gmp.c:98-104 | two-limb addition modulo 2^128 |
| Limbs.SubDdmmss | ma/mini-gmp.c:106-112 | two-limb subtraction modulo 2^128 |
| Limbs.UdivQrnndPreinv | ma/mini-gmp.c:139-156 | two limbs divided by one with a reciprocal: n = q d + r and r < d |
| Limbs.UdivQr3by2 | ma/mini-gmp.c:158-183 | three limbs divided by two with a reciprocal: n = q d + r and r < d, through wrapped arithmetic |
| Invert3by2.Reciprocal1 | ma/mini-gmp.c:735-811 | the half-limb steps give floor((B^2 - 1) / u1) - B and its remainder |
| Invert3by2.NoTie | ma/mini-gmp.c:812-839 | no two-limb normalised divisor above 2^127 divides 2^192, so the strict comparison in the second correction loses nothing |
| Invert3by2.InvertThreeByTwo | ma/mini-gmp.c:735-839 | the result is floor((B^3 - 1) / (B u1 + u0)) - B for every normalised pair, and the one-limb reciprocal when u0 = 0 |
| LimbArrays.SubMul1 | ma/mini-gmp.c:548-572 | in place: new value = old value - v * u + borrow * B^n, limbs outside untouched |
| LimbArrays.AddN | ma/mini-gmp.c:415-432 | in place: new value + carry * B^n = sum of the values, limbs outside untouched |
| LimbArrays.LShift | ma/mini-gmp.c:609-637 | shifting left multiplies the value, with the bits shifted out returned, also in place |
| LimbArrays.RShift | ma/mini-gmp.c:639-664 | shifting right divides the value, with the bits shifted out returned |
| QuotientLimb.DivStepMax | ma/mini-gmp.c:1042-1103 | when the top limbs agree, B - 1 is the exact quotient limb and the partial remainder stays below the divisor |
| QuotientLimb.DivEstimate | ma/mini-gmp.c:1042-1103 | the limb from the 3/2 step is right or one too large, and a borrow tells which |
| QuotientLimb.AddBackValue | ma/mini-gmp.c:1042-1103 | adding the divisor back, with its carry dropped, gives the true partial remainder |
| QuotientLimb.DivStepEstimate | ma/mini-gmp.c:1042-1103 | estimate, multiply-and-subtract and add-back: exact quotient limb, remainder below the divisor |
| DivisorInverse.Clz | ma/mini-gmp.c:79-89 | the count is the one shift that makes the top bit of the limb set without losing any |
| DivisorInverse.DivQr1Invert | ma/mini-gmp.c:851-861 | shift, normalised limb and its reciprocal belong together |
| DivisorInverse.DivQrInvert | ma/mini-gmp.c:882-911 | for every length: the two stored limbs are the top of the shifted divisor and the reciprocal is theirs |
| LongDivision.DivQr1Preinv | ma/mini-gmp.c:915-946 | n = q d + r, r < d, for a one-limb divisor of any size, q written to the array if there is one |
| LongDivision.DivQr2Preinv | ma/mini-gmp.c:978-1027 | n = q d + r, r < d, for two-limb divisors, remainder shifted back into place |
| LongDivision.DivQrPi1 | ma/mini-gmp.c:1042-1103 | schoolbook loop: the quotient array times the divisor plus what is left in place is the numerator with its top limb |
| LongDivision.DivQrPreinv | ma/mini-gmp.c:1105-1137 | shift, loop and shift back: the remainder lost no bit |
| LongDivision.DivQr | ma/mini-gmp.c:1139-1158 | for every nn >= dn >= 1 and non-zero top limb, what is left of n is n mod d; with a quotient array, n = q d + r; the limbs beyond are untouched, and no quotient array is needed |
| SignedDivision.MpzDivQr | ma/mini-gmp.c:2171-2281 | n = q d + r with \|r\| < \|d\| for all signs, with or without a quotient wanted, the remainder's sign as floor, ceil or trunc asks, and the result tells whether the division was inexact |
| Gcd.SubtractFromU | ma/mini-gmp.c:2937-2947 | a subtraction step keeps both linear combinations and the determinant 2^power |
| Gcd.OddExtended | ma/mini-gmp.c:2900-2950 | the loop ends with an odd g, u = a g, v = b g, and cofactors that combine to a power of two times g |
| Gcd.HalveStep | ma/mini-gmp.c:2965-2975 | one halving round keeps the cofactors integral and removes one factor two |
| Gcd.RemovePower | ma/mini-gmp.c:2965-2983 | the halving loop turns the combination for 2^power into one for 1, with the smaller cofactor chosen |
| Gcd.BezoutIsGcd | ma/mini-gmp.c:2821-2843 | a common divisor that is a linear combination is the greatest |
| Gcd.GcdUnique | ma/mini-gmp.c:2821-2843 | there is only one |
| Gcd.Gcdext | ma/mini-gmp.c:2821-3001 | for all integers: g is the gcd and g = s u + t v, with one cofactor at most half of what it multiplies against |
| Gcd.Invert | ma/mini-gmp.c:3039-3069 | succeeds exactly when \|m\| > 1 and gcd(u, m) = 1, then 0 < r < \|m\| and r u = 1 mod \|m\|; otherwise r stays as it was |
| BaseText.BeValDigits | ma/mini-gmp.c:4058-4121 | the digits of a number read back give the number |
| BaseText.DigitCountExact | ma/mini-gmp.c:4005-4051 | a number from b^(k-1) on and below b^k has exactly k digits in base b |
| BaseText.ParseText | ma/mini-gmp.c:4058-4225 | for every integer and base 2 to 36, the text parses back to the integer |
| BaseText.ParseIgnoresCase | ma/mini-gmp.c:4123-4225 | reading any text in any base, 0 included, does not depend on the case of its letters |
| BaseText.TextReadBack | ma/mini-gmp.c:4058-4225 | for every integer and every base mpz_get_str takes, negative and small ones included, its text is read back in the base used |
| BaseText.ParseBaseZero | ma/mini-gmp.c:4137-4157 | base 0 reads decimal text as it is, and hexadecimal, binary and octal text behind its prefix, with either sign |
| DigitStrings.DigitsUnique | ma/mini-gmp.c:1243-1306 | a digit string without leading zeros is the one of its value |
| DigitStrings.GetBaseInfo | ma/mini-gmp.c:1187-1200 | the largest power of the base in a limb, and its exponent |
| DigitStrings.LimbGetStr | ma/mini-gmp.c:1243-1262 | the digits of one limb, least significant first and none superfluous |
| DigitStrings.GetStrOther | ma/mini-gmp.c:1264-1306 | the digits of the whole number, groups padded with zeros, order reversed at the end |
| DigitStrings.Mul1 | ma/mini-gmp.c:499-520 | value and carry are the exact product |
| DigitStrings.Add1 | ma/mini-gmp.c:396-413 | value and carry are the exact sum |
| DigitStrings.SetStrOther | ma/mini-gmp.c:1361-1397 | groups of digits, the first one shorter, give the value of the whole string |
| BitStrings.LimbSizeInBase2 | ma/mini-gmp.c:1202-1210 | the bit length: 2^(size-1) <= u < 2^size |
| BitStrings.Normalize | ma/mini-gmp.c:375-381 | dropping zero limbs keeps the value and leaves a non-zero top limb |
| BitStrings.GetStrBits | ma/mini-gmp.c:1212-1239 | slices of bits across limb borders are the digits of the number |
| BitStrings.SetStrBits | ma/mini-gmp.c:1328-1357 | digits packed across limb borders have the value of the string |
| TextCode.BitsToDigits | ma/mini-gmp.c:4024-4036 | the number of bits, divided by the bits of a digit and rounded up, is the number of digits |
| TextCode.CountDigits | ma/mini-gmp.c:4038-4051 | repeated division in place counts the digits |
| TextCode.Integer.SizeInBase | ma/mini-gmp.c:4005-4051 | on both paths exactly the number of digits of the magnitude, 1 for zero |
| TextCode.Integer.GetStr | ma/mini-gmp.c:4058-4121 | for every base: none above 36 in size, otherwise the integer's text in the base used, capital for a negative one; the text and its terminator fit the room that is allocated |
| TextCode.Integer.SetStr | ma/mini-gmp.c:4123-4225 | for base 0 and 2 to 36: returns 0 with the parsed value exactly when the text parses, otherwise -1 with the value zero |
| Lattice.RoomBound | ma/ma.c:67-100 | every offset below the computed room keeps sk (t-1) + W r p below q |
| Lattice.RoomIsTight | ma/ma.c:67-100 | and from the next offset on the sum is above q |
| Lattice.TryModulus | ma/ma.c:80-124 | a drawn modulus is accepted only with an inverse of sk, and refused only when sk is not coprime to it |
| Lattice.GeneratePrivateKey | ma/ma.c:24-197 | a returned key meets every bound decryption needs; failure means too little room or all draws refused |
| Lattice.SameIndex | ma/ma.c:419-424 | key generation and encryption, at their different integer widths, look up the same table entry for every row, column and 32-bit bias |
| Lattice.GetPublicKey | ma/ma.c:377-447 | each row is the public matrix times the secret, less an error masked with the inverse of sk mod q, the error below r |
| Lattice.Selection | ma/ma.c:551-555 | the number of rows is at most W, and at least wMin or above W - wMin: with the configured sizes no encryption takes fewer than 27 |
| Lattice.SelectionFrom | ma/ma.c:551-555 | a draw gives a count exactly when it is the count modulo W, from wMin on, or what the count lacks to W, below wMin |
| Lattice.Encrypt | ma/ma.c:537-611 | the cipher is the sum of the rows that the draws select, with the message added to the tail; at least wMin of the W rows are taken, or more than W - wMin |
| Lattice.Decrypt | ma/ma.c:711-752 | the loop gives the decryption function that DecryptUndoesEncrypt is about |
| Lattice.SecretLessPublic | ma/ma.c:377-447 | secret times selected rows less the public elements is the masked sum of errors mod q |
| Lattice.DecryptUndoesEncrypt | ma/ma.c:711-752 | decryption gives v mod t for every valid key, bias, error vector, selection and message, since sk v plus the noise never reaches q |
| BlockCode.BlockSign | ma/ma.c:1417-1440 | the tag is never the value that would make the masked tag byte zero |
| BlockCode.MaskTwice | ma/ma.c:1440-1533 | masking with the tag twice restores the data |
| BlockCode.Encode | ma/ma.c:1417-1470 | takes as many bytes as fit and returns the number of the tagged, masked block; -1 on empty input |
| BlockCode.Decode | ma/ma.c:1472-1533 | accepts exactly the numbers whose bytes unmask to a matching tag |
| BlockCode.DecodeIffCarries | ma/ma.c:1472-1533 | decoding yields data if and only if the bytes are the reversed tagged block of these data, with its signature, and zeros above |
| BlockCode.SignatureDetects | ma/ma.c:1417-1440 | a block with one byte changed has another signature whenever the table entries tell the two bytes apart and neither signature falls back |
| BlockCode.DecodeEncode | ma/ma.c:1417-1533 | decoding undoes encoding for every block length and every shorter data, leading zero bytes included |
| CipherText.CipherOutStr | ma/ma.c:629-670 | writes the serialisation when it fits and returns -1 exactly when it does not |
| CipherText.CipherAtSerialized | ma/ma.c:672-709 | reading a serialised cipher that fits the scan buffer, whatever follows it, gives it back with the length consumed |
| CipherText.CipherFits | ma/ma.c:754-833 | with the configured sizes, every cipher that encryption can make fits the output and the scan buffer |
| CipherText.EncBlock | ma/ma.c:754-833 | one byte becomes a serialised encryption of its block under the rows its own draws select, at least 27 of them |
| CipherText.EncStr | ma/ma.c:754-833 | never fails and gives the concatenation of the encryptions of all bytes, each with the rows of its own draws |
| CipherText.DecBlock | ma/ma.c:835-923 | one cipher is read, empty fields repeating the one before, decrypted and decoded: its bytes, a malformed block, or no defined meaning |
| CipherText.DecStr | ma/ma.c:835-923 | the loop gives the bytes of all ciphers, or the first block that is malformed or undefined decides |
| CipherText.DecodeUndoesEncode | ma/ma.c:754-923 | decryption of an encrypted string gives the string, for every key pair, byte string and random choice |
| CcmCode.Block0 | ccm.c:49-67 | flags, nonce and length are B_0 of section 2.2 of RFC 3610 |
| CcmCode.SetCounter | ccm.c:41-47 | the counter field is the big-endian counter, nonce and flags kept |
| CcmCode.AddAuthData | ccm.c:83-146 | the MAC state after the first block and all blocks of additional data, for all three length headers |
| CcmCode.Mac | ccm.c:162-173 | one CBC step over a whole or a partial block |
| CcmCode.Encrypt | ccm.c:148-160 | a stretch of the buffer is xored with its key stream block, the rest stays |
| CcmSpec.CryptTwice | ccm.c:148-160 | the key stream taken off again gives the message |
| CcmCode.EncryptMessage | ccm.c:175-237 | the buffer holds sections 2.2 to 2.4 of RFC 3610 applied to what it held, nothing outside changes |
| CcmCode.DecryptMessage | ccm.c:239-311 | returns the message length exactly when the tag is right, -1 otherwise, with what the buffer then holds in both cases |
| CcmLaws.FirstBlockDetermines | ccm.c:49-67 | the first block determines M, L, the nonce that counts, the message length and whether there are additional data |
| CcmLaws.AuthDetermines | ccm.c:83-146 | the first block of additional data determines their length, all blocks determine the data, across all three length headers |
| CcmLaws.MacInputDetermines | ccm.c:49-237 | what is authenticated determines M, L, nonce, additional data and message, and is never the front of what another message gives |
| CcmLaws.ChainDetects | ccm.c:162-237 | for a cipher that is a permutation, changing any one block changes the MAC |
| CcmLaws.CounterBlocksDiffer | ccm.c:41-47 | counter blocks are equal if and only if nonce and counter are |
| CcmLaws.FirstBlockApart | ccm.c:41-67 | no counter block is the first block of a MAC |
| CcmLaws.StreamIsLocal | ccm.c:148-237 | what the cipher makes of counter block i reaches only stretch i of the message |
| CcmLaws.StreamIsUsed | ccm.c:148-237 | and there every byte is under the byte at its place |
| CcmLaws.TagIsMasked | ccm.c:175-237 | the tag is the MAC under counter block 0 |
| CcmSpec.OpenIffSealed | ccm.c:175-311 | a buffer is accepted as m if and only if it is what encrypting m gives |
| PeerState.RemoteKey | crypto.h:143-187 | one role's read key is the other role's write key |
| PeerState.Peer.ParamsEpoch | peer.h:80-92 | the slot of an epoch, or none when neither slot has it |
| PeerState.Peer.ParamsNext | peer.h:99-111 | fresh parameters in the second slot, one epoch up, without cipher and numbered from zero |
| PeerState.Peer.FreeOther | peer.h:113-124 | the second slot is freed exactly when it is not newer |
| PeerState.Peer.Switch | peer.h:126-132 | the slots change places |
| RecordSpec.HeaderReadBack | dtls.c:389-443 | length, type and epoch read from a record's header are those it was made with, whatever follows |
| RecordSpec.OpenUndoesPrepare | dtls.c:1284-1429 | a record made under one role is opened to its payload under the other with the same key block: nonce, additional data, length and key choice agree |
| RecordSpec.OpenOnlySealed | dtls.c:3039-3108 | a packet is accepted as m if and only if its body is m sealed under the peer's write key with the packet's own header |
| RecordLayer.SetRecordHeader | dtls.c:417-443 | the header bytes, and the record number used up |
| RecordLayer.InsideIff | dtls.c:1284-1429 | for every list of payload pieces, the writes of an encrypted record stay inside a buffer of rlen bytes if and only if rlen < 13, rlen >= 29 + payload, or 21 <= rlen < 21 + payload |
| RecordLayer.NotInside | dtls.c:1284-1429 | for the 1400-byte buffer, a payload passes the size check and does not fit if and only if it has 1372 to 1379 bytes |
| RecordLayer.PrepareRecord | dtls.c:1284-1429 | for every buffer and list of payload pieces: the send buffer holds the specified record, or the size check refuses, or the writes do not fit, each exactly when it should; the number is used up either way |
| RecordLayer.DecryptVerify | dtls.c:3039-3108 | opens the packet in place as specified under the slot of its epoch, and frees the older slot only on success with a cipher |
| PeerRun.InitInv | dtls.c:1484-1560 | the invariant holds for a new peer |
| PeerRun.ApplyKeeps | dtls.c:3320-3329 | every event keeps the invariant and changes the epoch of the first slot exactly at a switch, by one |
| PeerRun.RunIsSafe | peer.h:80-132 | over every run of a new peer below counter wrap: the first slot is never empty, its epoch rises by exactly one at each switch, and no two encrypted records share epoch and sequence number |
| PeerRun.LookupUnambiguous | peer.h:80-92 | both slots have one epoch only before any encrypted record, with two unencrypted slots |
| PeerRun.SentIsLogged | dtls.c:1284-1429 | every record that goes out under a cipher, sent again or not, is logged with its epoch and number |
| PeerRun.FinishedComesFirst | dtls.c:2966-3037 | the Finished of the client is record 0 of the new epoch, encrypted |
| PeerRun.FinishedIsProtected | dtls.c:3884-3906 | in every run, a Finished that changes anything came in a record of an epoch above 0 whose parameters have a cipher, on either side |
| NonceUse.RecordCarriesNumber | dtls.c:1284-1429 | the explicit nonce and the number in the header are the number the record is logged with |
| NonceUse.NonceDetermines | dtls.c:1284-1429 | the twelve nonce bytes that count determine salt, epoch and sequence number |
| NonceUse.ADataDetermines | dtls.c:1284-1429 | the additional data determine epoch, sequence number, type and length |
| NonceUse.NoNonceTwice | dtls.c:1284-1429 | over every run of a new peer below counter wrap, no two encrypted records have the same nonce, whatever the salt |
| NonceUse.KeyBlockParts | crypto.h:143-187 | two keys and two salts, client before server, make up the whole key block |
| Connection.Endpoint.SendMulti | dtls.c:1516-1591 | sending in place is the machine's send step |
| Connection.Endpoint.Resend | dtls.c:4107-4156 | so is retransmitting a node under its epoch's parameters |
| Connection.Endpoint.ForgetNodes | dtls.c:4159-4172 | so is dropping the retransmission nodes |
| Connection.Endpoint.Accepted | dtls.c:3039-3108 | so is freeing the older parameters after a decrypted record |
| Connection.Endpoint.CalculateKeyBlock | dtls.c:666-771 | so are new parameters, with a cipher only on success |
| Connection.Endpoint.CipherChange | dtls.c:2966-3037 | so are ChangeCipherSpec, switch and Finished, at whichever record the sending stops |
| Connection.Endpoint.HelloDone | dtls.c:2966-3037 | so is the client's answer to ServerHelloDone |
| Connection.Endpoint.HandleCcs | dtls.c:3655-3688 | so is the peer's ChangeCipherSpec |
| Connection.Endpoint.HandleFinished | dtls.c:3302-3340 | so is a Finished message, on either side and with either outcome |
| Handshake.EmitFacts | dtls.c:1431-1467 | what reached the wire is a prefix of what was hashed, whichever send fails |
| Handshake.ServerFlightFacts | dtls.c:2192-2272 | for every suite the server's flight begins with ServerHello, ends with its only ServerHelloDone and is numbered without gaps |
| Handshake.ClientFlightFacts | dtls.c:2402-2431 | the client's flight ends with its only Finished, whose body is the verify data over all that precedes it |
| Handshake.StepKeeps | dtls.c:3154-3530 | every step of either end, with every outcome of its checks and sends, keeps the invariant on transcripts and channels |
| Handshake.TranscriptsAgree | dtls.c:3154-3530 | in every reachable state one end's hash input is a prefix of the other's |
| Handshake.ServerCheckSucceeds | dtls.c:1208-1258 | when the client's Finished reaches a server that waits for it, the inputs are equal and its body is the verify data of the client's pre-master secret; with equal secrets the check succeeds |
| Handshake.ClientCheckSucceeds | dtls.c:1208-1258 | the same for the server's Finished at the client |
| Handshake.SameKeyBlock | dtls.c:666-771 | once both hellos are hashed, both ends derive one master secret and one key block from the pre-master secret and the two hellos |
| Authentication.ConnectsIffVerified | dtls.c:3302-3340 | a record connects an end if and only if the end waits for Finished and the record is the next message, a Finished whose body is the verify data of the other role over all that was hashed, and, at a server, the answer goes out |
| Authentication.NoneConnects | dtls.c:1208-1258 | when master secret and verify data are injective in the secret and the pre-master secrets differ, no run connects either end |
| Authentication.KeyBlockDepends | dtls.c:666-771 | with an injective derivation, key blocks over one transcript are equal if and only if the pre-master secrets are |
| Authentication.NothingSkipped | dtls.c:3154-3688 | whatever records reach an end, from anyone and in any order: if it connects it has a suite, and every message and the ChangeCipherSpec its suite asks for have passed their checks in order |
| Completion.StepStaysFine | dtls.c:3154-3530 | while nothing fails, every step keeps the stage of the handshake and every delivery brings it closer to its end, for every suite, with or without hint and client certificate |
| Completion.GoodRunsComplete | dtls.c:3154-3530 | in every run in which no check and no send fails and the pre-master secrets are equal, no end ever fails; once the client has begun and nothing is on the way, both are connected with equal master secret and key block |
| Reorder.InsertFacts | dtls.c:3532-3653 | inserting at any place keeps the buffered numbers distinct and later than the expected one |
| Reorder.Handshake.Deliver | dtls.c:3525-3530 | handling happens on the expected number only, with the message as it is, and the number advances exactly on success |
| Reorder.Handshake.Drain | dtls.c:3626-3650 | the drain loop ends, delivers consecutive numbers with the buffered contents, and leaves only later ones behind |
| Reorder.Handshake.Handle | dtls.c:3532-3653 | after any successful return with the handshake open the buffered numbers are distinct and later than the expected one; all that waits or was handled is a message that came, contents included, and while nothing is refused no new one is lost |
| Reorder.Handshake.HandleAll | dtls.c:3532-3653 | for every arrival order with repetitions, exactly the consecutive numbers up to the first one missing are delivered, each once and in order; each delivered or waiting message is the first that came with its number, contents included |
| Words.Add | ecc/ecc.c:43-55 | value plus carry times 2^32n is the sum, words outside untouched |
| Words.Sub | ecc/ecc.c:57-67 | value less borrow times 2^32n is the difference, words outside untouched |
| Words.IsGreater | ecc/ecc.c:124-134 | compares the values |
| Words.RShiftBy | ecc/ecc.c:69-76 | words from the shift on, padded with zeros |
| FieldOps.FieldAdd | ecc/ecc.c:137-145 | the value is that of one addition with one conditional correction, wrapping at 2^256 |
| FieldOps.FieldSub | ecc/ecc.c:147-155 | the same for subtraction |
| FieldOps.AddReduces | ecc/ecc.c:137-145 | below x + y < 2^256 + m one correction suffices |
| FieldOps.SubReduces | ecc/ecc.c:147-155 | for reduced inputs the result is the reduced difference |
| FieldOps.FieldMult | ecc/ecc.c:159-176 | the word-by-word loop with lost carries gives the exact product for every length |
| ModOrder.QuotientClose | ecc/ecc.c:271-300 | the Barrett estimate is at most two too small for every 512-bit number |
| ModOrder.QuotientFits | ecc/ecc.c:271-300 | it fits eight words for all A < n * 2^256 |
| ModOrder.QuotientOverflows | ecc/ecc.c:271-300 | and does not for 2^512 - 1 |
| ModOrder.SubtractionExact | ecc/ecc.c:271-300 | the wrapped nine-word subtraction is exact |
| ModOrder.RemainderRight | ecc/ecc.c:271-300 | what it leaves is A modulo n if and only if the quotient fits, and then below 3n |
| ModOrder.FieldModO | ecc/ecc.c:271-300 | for 8 to 16 words, the words actually read give a reduced result that is their number mod n if and only if the quotient fits, with at most two rounds of correction then |
| ModOrder.NinthWordCounts | ecc/ecc.c:271-300 | reading a ninth word after eight gives the remainder of the eight if and only if that word is zero |
| ModPrime.NineTerms | ecc/ecc.c:180-252 | the shuffled terms add up to B mod p for every 512-bit B |
| ModPrime.AddKeeps | ecc/ecc.c:180-252 | each step stands for the exact sum up to the carries and borrows lost so far |
| ModPrime.ResidueIffBalanced | ecc/ecc.c:180-252 | the reduction is B mod p if and only if as many carries as borrows were lost |
| ModPrime.FailsForReducedFactors | ecc/ecc.c:180-252 | a product of two reduced elements for which one borrow and no carry is lost |
| ModPrime.FieldModP | ecc/ecc.c:180-252 | the in-place code returns a number below p, and B mod p if and only if the losses balance |
| FieldInverse.RShift | ecc/ecc.c:321-331 | halves the value |
| FieldInverse.FieldAddAndDivide | ecc/ecc.c:333-348 | half of x + m with the carry put back as top bit |
| FieldInverse.HalveOdd | ecc/ecc.c:333-348 | halving an odd x this way keeps what it stands for modulo an odd m |
| FieldInverse.Subtract | ecc/ecc.c:390-405 | subtracting keeps what both stand for |
| FieldInverse.InvRound | ecc/ecc.c:353-409 | a round keeps both congruences and gcd(u, v) = 1, and u + v decreases |
| FieldInverse.FieldInv | ecc/ecc.c:353-409 | terminates with B < m and A B = 1 mod m, for every odd modulus and every coprime A of 256 bits |
| FieldInverse.NeverOne | ecc/ecc.c:353-409 | for every A that is not coprime to an odd modulus, no sequence of the loop's assignments to u and v ever makes one of them 1, so the loop does not end |
| Curve.LineMeetsCubic | ecc/ecc.c:411-489 | the cubic less the squared line is the product over three abscissas plus a linear rest, as polynomials |
| Curve.ChordOnCurve | ecc/ecc.c:447-489 | the third point of a chord, reflected, is on the curve |
| Curve.TangentOnCurve | ecc/ecc.c:411-445 | the same for a tangent |
| Curve.MulIffExact | ecc/ecc.c:159-252 | product and reduction together give x y mod p if and only if the reduction loses as many carries as borrows |
| Curve.MulStands | ecc/ecc.c:159-252 | a reduced product stands for x y less 2^256 mod p for every carry lost and plus it for every borrow lost |
| Curve.SlopeIff | ecc/ecc.c:411-445 | the computed slope is the tangent's if and only if what the three reductions on the way lose cancels modulo p |
| Curve.ChordSlopeIff | ecc/ecc.c:447-489 | the computed slope is the chord's if and only if the reduction of its product is exact |
| Curve.ThirdIff | ecc/ecc.c:411-489 | for any slope, both coordinates of the third point are right if and only if both reductions are exact |
| Curve.DoubleIsTangent | ecc/ecc.c:411-445 | for every reduced point with 2y a unit, what ec_double computes is the tangent's third point, reflected, if and only if the losses on the way to the slope cancel modulo p and the two later reductions are exact |
| Curve.AddIsChord | ecc/ecc.c:447-489 | for all reduced points whose abscissas differ by a unit, what ec_add computes is the chord's third point, reflected, if and only if its three reductions are exact |
| Curve.DoubleOnCurve | ecc/ecc.c:411-445 | under that condition, the double of a point is on every curve y^2 = x^3 - 3x + b the point is on |
| Curve.SumOnCurve | ecc/ecc.c:447-489 | under that condition, the sum of two points is on every such curve both are on |
| CurveFailure.DoubleLeavesCurve | ecc/ecc.c:411-445 | the code's double of one point of P-256 is not on P-256 |
| CurveFailure.AddLeavesCurve | ecc/ecc.c:447-489 | the code's sum of two points of P-256 with different abscissas is not on P-256 |
| Curve.SlopeOfTangent | ecc/ecc.c:411-445 | the word arrays end with the slope (3 x^2 - 3) / 2y, every product and reduction as the code does it |
| Curve.FinishPoint | ecc/ecc.c:411-489 | from the slope, both coordinates of the reflected third point |
| Curve.EcDouble | ecc/ecc.c:411-445 | infinity stays infinity; else the point of DoubleIsTangent, from a true inverse of 2y |
| Curve.AddDistinct | ecc/ecc.c:447-489 | the point of AddIsChord, from a true inverse of the difference of the abscissas |
| Curve.EcAdd | ecc/ecc.c:447-489 | infinity on either side, opposite points, equal points and the chord, each with its result |
| Sha256Code.NextSchedule | sha2/sha2.c:538-559 | the word computed from the window is the next word of the schedule |
| Sha256Code.WindowStep | sha2/sha2.c:538-559 | overwriting one word moves the window on by one |
| Sha256Code.Context.Init | sha2/sha2.c:383-391 | an empty message |
| Sha256Code.Context.Transform | sha2/sha2.c:487-573 | 64 rounds over the rolling window are the compression function of section 6.2 of FIPS 180-4 |
| Sha256Code.HashCompletes | sha2/sha2.c:577-623 | data that fills the buffer is hashed behind what waited |
| Sha256Code.HashWaits | sha2/sha2.c:577-623 | data that does not fill it waits |
| Sha256Code.Context.Update | sha2/sha2.c:577-623 | for every split, the context stands for the message so far with the new data behind it |
| Sha256Code.TwoBlocks | sha2/sha2.c:628-672 | padding that does not fit the last block takes exactly one more |
| Sha256Code.Context.Final | sha2/sha2.c:628-691 | the digest of section 6.2 of FIPS 180-4 for the whole message, and nothing written beyond it |
| Sha256Laws.BigSigma0Bit | sha2/sha2.c:233-249 | bit i of the first large sigma is the parity of bits i+2, i+13 and i+22, counted modulo 32 |
| Sha256Laws.BigSigma1Bit | sha2/sha2.c:233-249 | of the second that of bits i+6, i+11 and i+25 |
| Sha256Laws.SmallSigma0Bit | sha2/sha2.c:233-249 | of the first small sigma that of bits i+7, i+18 and i+3, the last only below bit 32 |
| Sha256Laws.SmallSigma1Bit | sha2/sha2.c:233-249 | of the second that of bits i+17, i+19 and i+10, the last only below bit 32 |
| Sha256Laws.ChBit | sha2/sha2.c:241 | each bit of x chooses between the bits of y and z |
| Sha256Laws.MajBit | sha2/sha2.c:242 | each bit is the one that at least two have |
| Sha256Laws.InitialFromRoots | sha2/sha2.c:288-297 | the initial words are the first 32 bits of the fractional parts of the square roots of the primes up to 19 |
| Sha256Laws.ConstantsFromRoots | sha2/sha2.c:268-285 | the 64 constants are those of the cube roots of the primes up to 311 |
| Sha256Laws.PadsIff | sha2/sha2.c:628-672 | the padding is the one string with a one bit, zeros, and the length in bits, that ends the first block with room for it |
| Sha256Example.DigestOfAbc | sha2/sha2.c:487-691 | the digest of "abc" is the one the standard gives |
| Hmac.PadChanges | hmac.c:94-118 | the second mask turns the inner pad into the outer one |
| Hmac.Context.Init | hmac.c:93-118 | long keys hashed, short ones padded; the context stands for the empty text under the key |
| Hmac.Context.Update | hmac.c:76-80 | the text grows by the input |
| Hmac.Context.Finalize | hmac.c:127-143 | the result is HMAC-SHA-256 of key and text |
| Hmac.MacDetermines | hmac.c:76-143 | equal MACs come from one block key and one text, or the inner or the outer inputs of the hash are a collision of SHA-256 |
| Hmac.PadsDiffer | hmac.c:93-118 | under one key no inner input of the hash is an outer one |
| PHash.ExpandIsPrefix | crypto.c:182-246 | shorter outputs are prefixes of longer ones |
| PHash.StreamBlockDetermines | crypto.c:182-246 | equal blocks of two streams at one place come from one block key, one chain value and one seed, or show a collision of SHA-256 |
| PHash.MacSeed | crypto.c:182-246 | one HMAC over front, label and both random values |
| PHash.DtlsPHash | crypto.c:182-246 | exactly the first buflen bytes of the P_hash stream, for every buflen, and nothing beyond |
| HashChains.PushFront | uthash.h:650-661 | the chain with the item in front, linked both ways |
| HashChains.Unlink | uthash.h:664-674 | the chain without the item, linked both ways |
| HashChains.AppendItem | uthash.h:150-173 | the insertion order grows at its end |
| HashChains.RemoveItem | uthash.h:192-225 | the insertion order loses the item, with head and tail moved |
| HashTable.BucketIsMasked | uthash.h:175-178 | for a power of two, the masked bits of the hash are the remainder |
| HashTable.FindInBucket | uthash.h:636-647 | the item with the key, or none when the chain has none |
| HashTable.AddToChain | uthash.h:650-661 | one bucket grows, every chain stays linked and counted |
| HashTable.RemoveFromBucket | uthash.h:664-674 | one bucket loses the item, every chain stays linked and counted |
| HashTable.MoveChain | uthash.h:705-751 | the items of an old bucket, relinked while they are walked, end up in their new buckets |
| HashTable.AllMoved | uthash.h:705-751 | doubling loses no item |
| HashTable.CountsAddUp | uthash.h:650-674 | the bucket counts add up to the number of items |
| HashTable.MapGrows | uthash.h:150-173 | appending an item is a map update |
| HashTable.MapShrinks | uthash.h:192-225 | removing it is a map deletion, keys staying distinct |
| HashTable.Table.MakeTable | uthash.h:128-145 | 2^log2 empty buckets |
| HashTable.Table.Find | uthash.h:82-93 | finds exactly what the map has |
| HashTable.Table.Expand | uthash.h:705-751 | twice the buckets, every item in its bucket, order and counts kept |
| HashTable.Table.Add | uthash.h:150-173 | the map with the new key, the order with the new item last, the table consistent, doubled or not |
| HashTable.Table.Delete | uthash.h:192-225 | the map without the key, the order without the item, the table gone with its last item |
| HashRun.Replay | uthash.h:82-225 | after any sequence of guarded additions, deletions and lookups the table is consistent and agrees with a map, and so did every lookup on the way |

## Left out

- Sockets, clocks, the random device, files, logging, allocation failure and the freeing of memory.
- Gcd.Gcdext: additions, products and exact quotients of big integers are taken at their integer meaning here; only the division, shift and text routines are modelled limb by limb.
- SignedDivision.MpzDivQr: the limb division underneath is the modelled one; the final additions to quotient and remainder are integer additions.
- TextCode.Integer.GetStr: the digits that the code writes into its buffer and then replaces by characters form sequences here.
- Lattice.Encrypt: the group mode and the `-` sign of the error, both switched off by the configuration, are left out.
- CipherText.DecBlock: text is taken to end with a terminator, and to hold none before.
- CcmCode.EncryptMessage: AES itself is an arbitrary function on blocks.
- RecordLayer.PrepareRecord: what writes past the end of the buffer destroy is not said; the buffer is below 2^24 bytes.
- PeerRun.RunIsSafe: holds while the 16-bit epoch and the 48-bit sequence number do not wrap; alerts and the destruction of a peer are not steps.
- Handshake.TranscriptsAgree: the channels lose and reorder nothing and nobody retransmits; renegotiation is left out, and an end that is connected or has failed takes no further part.
- Completion.GoodRunsComplete: the records are delivered by the channels, so retransmission after a loss is no part of it.
- Reorder.Handshake.Handle: message numbers do not wrap at 2^16; what handling a message does is an input.
- FieldInverse.FieldInv: asks for an A coprime to the modulus, because for any other the loop does not end (`FieldInverse.NeverOne`).
- Curve.EcAdd: coordinates are reduced and lie in other arrays than the results; the value that is inverted must be a unit, since the loop of `fieldInv` does not end otherwise.
- Curve.DoubleOnCurve: one direction, since a point that is not the tangent's can lie on the curve by coincidence; the two directions are in DoubleIsTangent.
- Curve.SumOnCurve: one direction, for the same reason; the two directions are in AddIsChord.
- The scalar multiplication and the signatures of `ecc/ecc.c`.
- HashTable.Table.Add: the hash value comes with the item and is any function of its key; the Bloom filter, sorting and selection are left out.
- Sha256Code.Context.Update: messages stay below 2^61 bytes; SHA-384 and SHA-512 and the unrolled transform are left out.
- Hmac.Context.Init: key and text stay below 2^60 bytes.
- PHash.DtlsPHash: key, label and random values stay below 2^24 bytes, far above what DTLS has.
- Operands that a routine only reads are sequences rather than arrays.
