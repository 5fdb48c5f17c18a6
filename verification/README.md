# sfet / venom file encryption, modelled in Dafny

The repository holds three generations of a password-based file encryption
tool built on the Serpent block cipher:

- **sfet** (`sfet.c`, file version 8) and **venom** (`venom.c`, file version 7)
  derive a 64-byte key from the password and a random 16-byte nonce. They write a
  packed header (magic, big-endian version, iteration count, nonce, chunk
  length) followed by its Poly1305-Serpent MAC. The input then follows in
  chunks of `chunklen` bytes, each encrypted with Serpent in counter mode and
  followed by its MAC. Every MAC uses the next value of a 128-bit big-endian
  nonce counter (`next_nonce`). A chunk shorter than `chunklen` is the last one.
  The decryptor checks the magic, the version and the header MAC. It then
  reads `chunklen + 16` bytes at a time and compares each MAC in constant time
  (`ctiseq`) before decrypting.
- **venom v6** (`src/venom.c`) uses EAX mode over Serpent (`src/eax-serpent.c`,
  built on OMAC in `src/omac-serpent.c`). Its header is magic `VENOM`,
  version 6, iteration count, nonce and a 4-byte password check. The password
  check is the EAX tag of magic and nonce under `nonce[0] + 1`. The payload
  uses `nonce[0] + 2`, and one EAX tag over the whole ciphertext closes the file.
- The primitives are Serpent (`serpent.c`: key schedule, bitsliced S-boxes,
  linear transform, encryption) and Poly1305 with 44-bit limbs
  (`poly1305.c`). Also modelled: Poly1305-Serpent, Serpent-CTR, OMAC-Serpent,
  EAX-Serpent, PBKDF2 with HMAC-SHA256 or with OMAC-Serpent as PRF, the
  password reader (`readpass.c`, `src/readpass.c`) and the numeric command
  line options.

The model has one module per source unit:

- `Serpent` and `SBoxes`.
- `Poly1305` and `Poly1305Serpent`.
- `Ctr` for sfet's CTR, and `Eax` with its own eager CTR.
- `Omac`.
- `Pbkdf2`, instantiated by `Pbkdf2Hmac` and `Pbkdf2Omac`.
- `CtIsEq`.
- `FileHeader` and `Chunked`, for the sfet/venom format and loops.
- `Venom6`.
- `ReadPass`.
- `Cli`.

Shared definitions live in `Bytes` and `Arith`. The block cipher is a
parameter `E` of every mode, and Serpent is plugged in at key setup. SHA-256,
SHA-512 and the key derivation of the file tools are parameters too.

Each transcribed routine is related to an independent reference definition:

- Serpent's circuits and the `LK` macro match the specification's S-box tables and linear transform.
- `horner1305`, `export1305` and `poly1305_mac` match the RFC 8439 evaluation modulo 2^130 - 5.
- OMAC-Serpent matches CMAC of NIST SP 800-38B, with multiplication by X in GF(2^128).
- EAX-Serpent matches the EAX composition, with a ciphertext equal to the message XOR the CTR keystream from OMAC^0(N).
- HMAC matches RFC 2104.
- PBKDF2 matches RFC 8018.
- The file loops are the inverse of each other in both directions.

Some C behaviour is written out explicitly:

- integer wrap-around: `uint64_t` chunk-length products, `atoll` stored into `uint64_t`, and `atoi` cut to 32 bits;
- `strtoll` with C-locale white space;
- signed shifts;
- the `fgetc` loop of `read_line`.

Three properties of the source come out of the model:

- With a terminal, `read_pass` compares the two `max`-byte buffers, not the lines. A line of exactly `max` bytes is not padded, so a line that is a shorter line followed by 0x80 and zeros has the same buffer as that shorter line (`ReadPass.PadCollision`).
- For passwords of 33 to 64 bytes, `pbkdf2_hmac_sha256` keys HMAC with the hash of the password, where RFC 2104 would use the password itself (`Pbkdf2Hmac.KeyIsRfc2104`).
- `-c 18014398509481984k` passes `parse_chunklen` as a chunk length of 0, which the later size check then refuses (`Cli.ParseWraps`).

## Model

Some definitions carry no contract of their own; the lemmas named here state what they compute:

- `Poly1305.Mac`: `Poly1305.MacMatchesTag` and `Poly1305.OneShot`.
- `Omac.Finalize` and `Omac.Tag`: `Omac.FinalizeState`, `Omac.FinalizeCtx` and `Omac.TagIsCmac`.
- `Eax.Tag`: `Eax.TagState`, `Eax.EncryptIsEax` and `Eax.DecryptInverts`.
- `CtIsEq.Mask`: `CtIsEq.MaskZero`.
- `Chunked.Seal` and `Chunked.Open`: `Chunked.SealFull`, `Chunked.SealLast`, `Chunked.OpenFull`, `Chunked.OpenLast`, `Chunked.OpenSeal` and `Chunked.SealOpen`.
- `Chunked.Encrypt` and `Chunked.Decrypt`: `Chunked.DecryptEncrypt` and `Chunked.EncryptDecrypt`.
- `Venom6.OpenPayload` and `Venom6.Decrypt`: `Venom6.PayloadIsEax`, `Venom6.DecryptEncrypt` and `Venom6.EncryptDecrypt`.

| member | source | states |
|---|---|---|
| SBoxes.S0IsTable | serpent.c:51-59 | the S0 register circuit applies S-box 0 of the Serpent specification to all 32 bit positions |
| SBoxes.S1IsTable | serpent.c:60-68 | the S1 circuit applies S-box 1 in every bit position |
| SBoxes.S2IsTable | serpent.c:69-77 | the S2 circuit applies S-box 2 in every bit position |
| SBoxes.S3IsTable | serpent.c:78-86 | the S3 circuit applies S-box 3 in every bit position |
| SBoxes.S4IsTable | serpent.c:87-96 | the S4 circuit applies S-box 4 in every bit position |
| SBoxes.S5IsTable | serpent.c:97-105 | the S5 circuit applies S-box 5 in every bit position |
| SBoxes.S6IsTable | serpent.c:106-114 | the S6 circuit applies S-box 6 in every bit position |
| SBoxes.S7IsTable | serpent.c:115-124 | the S7 circuit applies S-box 7 in every bit position |
| SBoxes.SBox | serpent.c:51-124 | S-box circuit i mod 8 equals the bitsliced table of S-box i |
| Serpent.StoreLoad | serpent.c:281-284 | storing the four little-endian words loaded from a block gives the block back |
| Serpent.LoadStore | serpent.c:320-323 | loading a stored quad of words gives the words back |
| Serpent.PadKey | serpent.c:137-143 | the padded key is 32 bytes: the key, then a 1 byte if it is shorter, then zeros |
| Serpent.PadKeyInjective | serpent.c:137-143 | two keys shorter than 32 bytes with the same padded key are equal |
| Serpent.KeyWords | serpent.c:146-159 | word j of the key material is the little-endian word of padded-key bytes 4j..4j+3 |
| Serpent.Prekeys | serpent.c:145-228 | the prekey sequence starts with the 8 key words and every later word follows the keyiter recurrence |
| Serpent.RoundKeysOf | serpent.c:230-266 | round key g is S-box (35 - g) mod 8 applied to prekey group g |
| Serpent.SetKey | serpent.c:127-269 | fails exactly for keys longer than 32 bytes; otherwise yields the schedule of the padded key |
| Serpent.LKIsTransformThenKey | serpent.c:40-49 | the interleaved statements of LK are the linear transform followed by the round-key XOR |
| Serpent.RoundMatchesSpec | serpent.c:286-318 | one transcribed round, with its register permutation, is the specification's round |
| Serpent.EncryptMatchesSpec | serpent.c:273-324 | serpent_encrypt is Serpent encryption by the definition: key 0, 31 rounds with LK, a last round with K |
| Serpent.CipherIsSpec | serpent.c:273-324 | the block cipher of a key schedule encrypts every block as the definition does |
| Poly1305.Import | poly1305.c:15-34 | the three limbs of a block are the 128-bit little-endian value plus x16 times 2^128, with limb bounds |
| Poly1305.Clamp | poly1305.c:290-297 | clamping clears the top four bits of bytes 3, 7, 11 and 15 and the low two bits of bytes 4, 8 and 12, and keeps every other byte |
| Poly1305.ClampedTop | poly1305.c:297-298 | bytes 11 to 15 of a clamped r, byte 15 below 16, are worth less than 2^36, so the top limb of r stays small |
| Poly1305.MakeKey | poly1305.c:284-306 | the key limbs hold the clamped r, and sr holds 20 r1 and 20 r2 within 64-bit bounds |
| Poly1305.Carry | poly1305.c:117-119 | carrying leaves limb 0 as it is, and once limbs 0 and 1 are masked to 44 bits the three limbs hold the same value as before |
| Poly1305.MultiplyValue | poly1305.c:112-115 | the three 128-bit products equal s·r minus a multiple of 2^130 - 5 |
| Poly1305.FoldCarryValue | poly1305.c:117-125 | the carries keep the value, and folding limb 2's overflow back times 20 subtracts a multiple of 2^130 - 5 |
| Poly1305.MultiplyBounds | poly1305.c:106-115 | no 128-bit partial product overflows for a reduced state plus a block |
| Poly1305.HornerBounds | poly1305.c:97-126 | every intermediate of horner1305 fits its C type, and the new state is reduced again |
| Poly1305.Horner | poly1305.c:97-126 | horner1305 keeps the state reduced |
| Poly1305.HornerStep | poly1305.c:97-126 | modulo 2^130 - 5, horner1305 is (state + block + bit·2^128)·r |
| Poly1305.HornerValue | poly1305.c:112-125 | the multiply-carry-fold sequence yields the product of state and r plus a multiple of 2^130 - 5, so the same value modulo p |
| Poly1305.ExportRound | poly1305.c:47-68 | one carry round of export1305 adds d and subtracts 2^130 - 5 times the overflow |
| Poly1305.Freeze | poly1305.c:43-68 | the three rounds of export1305 give limbs in range holding the value modulo 2^130 - 5 |
| Poly1305.FreezeResidue | poly1305.c:47-68 | the rounds with offsets +5, 0, -5 keep the residue and end below 2^130 - 5 |
| Poly1305.Export | poly1305.c:39-93 | the 16 output bytes are the fully reduced accumulator modulo 2^128 |
| Poly1305.ExportValue | poly1305.c:70-92 | packing the masked limbs into two 64-bit words keeps the value modulo 2^128 |
| Poly1305.AddCarryValue | poly1305.c:270-279 | the byte-wise add with carry is the sum of the little-endian values modulo 256^n |
| Poly1305.Add128 | poly1305.c:270-279 | add128 is the 128-bit sum modulo 2^128 |
| Poly1305.Init | poly1305.c:284-317 | the accumulator is 0, the buffer empty, and r is the clamped multiplier |
| Poly1305.Blocks | poly1305.c:338-343 | the whole-block loop keeps the key and buffers the last len mod 16 bytes |
| Poly1305.Update | poly1305.c:321-344 | poly1305_update keeps the key, and its buffer is the tail of the old buffer plus the data |
| Poly1305.Pad | poly1305.c:352-357 | the last partial block is followed by a 0x01 byte and zeros |
| Poly1305.PadValue | poly1305.c:352-358 | the padded partial block is worth its value plus 2^(8n) |
| Poly1305.HashBlock | poly1305.c:338-339 | hashing a whole block with bit 128 set extends the absorbed stream by the block |
| Poly1305.BlocksAbsorb | poly1305.c:338-343 | the block loop extends the absorbed stream by the data |
| Poly1305.UpdateAbsorbs | poly1305.c:321-344 | poly1305_update extends the absorbed stream by the data, however the message is split |
| Poly1305.FinalState | poly1305.c:352-359 | the state poly1305_mac exports is reduced |
| Poly1305.FinalAccumulator | poly1305.c:352-361 | the accumulator after the padded last block is the RFC 8439 accumulator of the whole message |
| Poly1305.AddSecret | poly1305.c:361-362 | adding s to the exported accumulator is the reference tag arithmetic |
| Poly1305.MacMatchesTag | poly1305.c:348-363 | poly1305_mac on a context that absorbed m is the RFC 8439 tag of m |
| Poly1305.OneShot | poly1305.c:284-363 | init, one update and mac give the RFC 8439 tag under (r, s) |
| Poly1305.TwoUpdates | poly1305.c:321-344 | splitting the message over two updates does not change the tag |
| Poly1305Serpent.SerpentKey | poly1305-serpent.c:13 | the Serpent schedule of kr[0..16] |
| Poly1305Serpent.PadOf | poly1305-serpent.c:13-14 | the pad is Serpent encryption of the nonce under kr[0..16] |
| Poly1305Serpent.Setup | poly1305-serpent.c:16 | the context starts from zero with the clamped r, and keeps the pad for the end |
| Poly1305Serpent.Update | poly1305-serpent.c:16 | updates keep the pad and the key |
| Poly1305Serpent.SetupTag | poly1305-serpent.c:16 | with the pad kept in the context, the tag is the RFC 8439 tag under (r, s) |
| Poly1305Serpent.AuthenticatorTag | poly1305-serpent.c:8-17 | the tag is Poly1305 with r = kr[16..32] and s = Serpent(kr[0..16], nonce) |
| Ctr.KeystreamBlock | ctr-serpent.c:32-84 | keystream block j is the encryption of counter c0 + j |
| Ctr.KeystreamInBlock | ctr-serpent.c:38-43 | inside one block the keystream is a slice of that block's encrypted counter |
| Ctr.Init | ctr-serpent.c:12-15 | the context holds the schedule of the 32-byte key |
| Ctr.Nonce | ctr-serpent.c:18-23 | setting a nonce leaves a consistent state at offset 0 of a fresh counter block |
| Ctr.Crypt | ctr-serpent.c:32-84 | the state stays consistent and the output is as long as the input |
| Ctr.CryptMatches | ctr-serpent.c:32-84 | ctr_serpent_crypt XORs its input with the keystream of the initial counter at the running offset, and moves the offset on by the input length |
| Ctr.CryptSplit | ctr-serpent.c:32-84 | two calls give the output and the end position of one call on the concatenation |
| Ctr.CryptTwice | ctr-serpent.c:32-84 | running the mode again from the same state restores the input |
| Ctr.CryptSameState | ctr-serpent.c:32-84 | the state after a call depends only on how many bytes went through |
| Omac.TimesCoeff | src/omac-serpent.c:26-41 | each coefficient of xtimes is multiplication by X reduced by X^128 + X^7 + X^2 + X + 1 |
| Omac.TimesIsMulX | src/omac-serpent.c:26-41 | xtimes is multiplication by X in GF(2^128) |
| Omac.Pad | src/omac-serpent.c:140-147 | an incomplete last block is followed by 0x80 and zeros |
| Omac.Init | src/omac-serpent.c:71-76 | a new context is consistent |
| Omac.InitState | src/omac-serpent.c:71-76 | omac_serpent_init(t) is the state that has taken in the tweak block 0^15 t |
| Omac.Update | src/omac-serpent.c:82-116 | updates keep the context consistent |
| Omac.UpdateState | src/omac-serpent.c:82-116 | omac_serpent_update takes the state of x to the state of x + data |
| Omac.UpdateSplit | src/omac-serpent.c:82-116 | data fed in two calls leaves the same context as one call |
| Omac.FinalizeState | src/omac-serpent.c:131-156 | finalising the state of x gives CMAC(x), with subkeys B = X·E(0) and P = X·B |
| Omac.FinalizeCtx | src/omac-serpent.c:137-155 | the context left behind keeps its buffer, and its tag field encrypts to the returned tag |
| Omac.ReuseAfterFinalize | src/omac-serpent.c:131-156 | for a permutation and a non-zero subkey B, finalising a context a second time does not give the tag again |
| Omac.SetKey | src/omac-serpent.c:48-63 | the OMAC key keeps the block cipher; its subkeys are those FinalizeState uses |
| Omac.Absorb | src/omac-serpent.c:104-115 | the whole-block loop leaves fewer than 16 bytes buffered |
| Omac.TagIsCmac | src/omac-serpent.c:48-156 | OMAC^t(m) is the CMAC of 0^15 t m |
| Eax.SerpentCtr | src/eax-serpent.c:32-69 | the state stays consistent and the output is as long as the input |
| Eax.SerpentCtrMatches | src/eax-serpent.c:32-69 | serpent_ctr XORs with the keystream at the running offset and leaves the state of the new offset |
| Eax.Init | src/eax-serpent.c:85-95 | fails exactly when Serpent setkey refuses the key; otherwise the OMAC key of the schedule |
| Eax.Nonce | src/eax-serpent.c:107-125 | the context after a nonce is consistent |
| Eax.Header | src/eax-serpent.c:132-135 | header data keeps the context consistent |
| Eax.Encrypt | src/eax-serpent.c:144-148 | the context stays consistent and the ciphertext is as long as the plaintext |
| Eax.Decrypt | src/eax-serpent.c:156-160 | the context stays consistent and the plaintext is as long as the ciphertext |
| Eax.NonceState | src/eax-serpent.c:107-125 | the counter starts at OMAC^0(nonce), and OMAC^1 and OMAC^2 start afresh |
| Eax.HeaderState | src/eax-serpent.c:132-135 | header data extends OMAC^1 only |
| Eax.EncryptState | src/eax-serpent.c:144-148 | encryption continues the keystream, and the ciphertext extends OMAC^2 |
| Eax.DecryptState | src/eax-serpent.c:156-160 | decryption authenticates the ciphertext and XORs it with the same keystream |
| Eax.TagState | src/eax-serpent.c:170-186 | the tag is OMAC^0(N) ^ OMAC^1(H) ^ OMAC^2(C) |
| Eax.EncryptIsEax | src/eax-serpent.c:85-186 | nonce, header and encryption give the EAX ciphertext and tag |
| Eax.DecryptInverts | src/eax-serpent.c:156-186 | decrypting the ciphertext restores the plaintext and gives the same tag |
| Eax.EncryptSplit | src/eax-serpent.c:144-148 | splitting the plaintext over two calls changes neither ciphertext nor tag |
| Pbkdf2.Int | src/pbkdf2-omac-serpent.c:53 | INT(i) is four big-endian bytes worth i modulo 2^32 |
| Pbkdf2.Block | src/pbkdf2-omac-serpent.c:51-65 | the inner loop computes T_i = U_1 ^ ... ^ U_c |
| Pbkdf2.Run | src/pbkdf2-omac-serpent.c:50-72 | the outer loop writes T_1 T_2 ... cut to outlen bytes |
| Pbkdf2.DerivePrefix | src/pbkdf2-omac-serpent.c:67-71 | a shorter request yields a prefix of a longer one |
| Pbkdf2.DeriveBlock | src/pbkdf2-omac-serpent.c:50-72 | block k of the output is T_(k+1) whenever the output reaches past it |
| Pbkdf2Hmac.PasswordKey | src/pbkdf2-hmac-sha256.c:84-91 | the HMAC key is 32 bytes: the hash of a longer password, else the zero-padded password |
| Pbkdf2Hmac.PadBlock | src/pbkdf2-hmac-sha256.c:33-36 | the pad block is the key plus 32 zeros, XOR 64 copies of the pad byte |
| Pbkdf2Hmac.KeyBlock | src/pbkdf2-hmac-sha256.c:84-91 | the 64-byte key block is RFC 2104's K0 for the key it stands for |
| Pbkdf2Hmac.KeyIsRfc2104 | src/pbkdf2-hmac-sha256.c:27-91 | the PRF is RFC 2104 HMAC keyed by the password, or by its hash when it is longer than 32 bytes |
| Pbkdf2Hmac.ShortOrLongIsRfc2104 | src/pbkdf2-hmac-sha256.c:84-91 | for passwords of at most 32 or more than 64 bytes, the PRF is RFC 2104 HMAC keyed by the password |
| Pbkdf2Hmac.Prf | src/pbkdf2-hmac-sha256.c:93-107 | the PRF has 32-byte outputs and is HMAC under the password key |
| Pbkdf2Hmac.Derive | src/pbkdf2-hmac-sha256.c:67-119 | exactly outlen bytes come out, with no failure case |
| Pbkdf2Hmac.Template | src/pbkdf2-hmac-sha256.c:93-94 | the template is the inner pad block followed by the salt |
| Pbkdf2Hmac.TemplateTag | src/pbkdf2-hmac-sha256.c:97-101 | finishing a copy of the template with INT(i) gives U_1 = PRF(salt INT(i)) |
| Pbkdf2Hmac.OutputBlock | src/pbkdf2-hmac-sha256.c:96-118 | block k of the output is T_(k+1) of the HMAC PRF |
| Pbkdf2Omac.CString | src/pbkdf2-omac-serpent.c:43 | strlen counts the bytes before the first NUL |
| Pbkdf2Omac.Prf | src/pbkdf2-omac-serpent.c:46-61 | the PRF has 16-byte outputs and is the OMAC tag with tweak 0 |
| Pbkdf2Omac.Derive | src/pbkdf2-omac-serpent.c:23-82 | refused exactly when strlen(passwd) is above 32; otherwise outlen bytes |
| Pbkdf2Omac.Template | src/pbkdf2-omac-serpent.c:47-48 | the template is a consistent OMAC context |
| Pbkdf2Omac.TemplateTag | src/pbkdf2-omac-serpent.c:51-55 | finishing a copy of the template with INT(i) gives U_1 |
| Pbkdf2Omac.IterTag | src/pbkdf2-omac-serpent.c:58-61 | each later U_j is a fresh tag of the previous 16-byte U |
| Pbkdf2Omac.PrfIsCmac | src/pbkdf2-omac-serpent.c:46-61 | the PRF is CMAC of the tweak block followed by the input |
| Pbkdf2Omac.OutputBlock | src/pbkdf2-omac-serpent.c:50-72 | block k of a successful derivation is T_(k+1) of the OMAC PRF |
| CtIsEq.MaskZero | utils.c:118-119 | the OR of the byte XORs is zero exactly when the first n bytes agree |
| CtIsEq.Verdict | utils.c:121 | ((mask - 1) >> 8) & 1 is 1 for a zero mask and 0 for any other byte |
| CtIsEq.Eq | utils.c:112-122 | ctiseq is 1 when the first n bytes are equal and 0 otherwise |
| CtIsEq.Ctiseq | utils.c:112-122 | the loop returns 1 exactly when the first n bytes are equal and 0 exactly when they are not |
| Bytes.IncrementValue | sfet.c:141-146 | the big-endian value of the incremented nonce is the old value plus one, modulo 256^n |
| Bytes.CounterAtValue | sfet.c:141-146 | k increments add k to the big-endian value, modulo 256^n |
| Cli.NextNonce | sfet.c:141-146 | the loop adds one to the big-endian value modulo 2^128, and stops at the first byte that does not wrap |
| Cli.IncrementCarry | sfet.c:145 | a byte 0xff becomes 0 and carries into the bytes before it |
| Cli.IncrementNoCarry | sfet.c:145 | a byte below 0xff takes the increment, and the bytes before it stay |
| Cli.SkipSpace | sfet.c:116 | strtoll skips exactly the C-locale white space |
| Cli.DigitEnd | sfet.c:116 | the digit run ends at the first non-digit |
| Cli.Render | sfet.c:116 | the decimal numeral of v is a non-empty digit string worth v |
| Cli.Strtoll | sfet.c:116 | the value lies in [LLONG_MIN, LLONG_MAX], and endp stays within the string |
| Cli.StrtollRendered | sfet.c:116 | a numeral followed by a non-digit reads as its value, with endp right after it |
| Cli.Kilo | sfet.c:125 | one uint64_t multiplication by 1024 stays below 2^64 |
| Cli.KiloPowers | sfet.c:125-131 | repeated uint64_t multiplications by 1024 are one multiplication by 2^10, 2^20 or 2^30 modulo 2^64 |
| Cli.Unit | sfet.c:120-135 | only NUL, k, K, m, M, g and G are allowed after the digits, for 1, 2^10, 2^20 or 2^30 |
| Cli.ParseChunklen | sfet.c:110-138 | an accepted chunk length is a uint64_t |
| Cli.ParseRendered | sfet.c:110-138 | a count in (0, LONG_MAX) is scaled by its suffix modulo 2^64, or refused for any other suffix |
| Cli.ParseWraps | sfet.c:124-126 | 2^54 k wraps to a chunk length of 0 without an error |
| Cli.Atoll | sfet.c:582 | atoll yields a long long |
| Cli.Apply | sfet.c:569-619 | accepted settings are uint64_t, venom's chunk length never changes, and a refusal is an illegal -c or an unknown option |
| Cli.Configure | sfet.c:558-635 | accepted settings have at least 1024 iterations and a chunk length of at least sizeof(struct header) |
| Cli.KiloBound | sfet.c:125 | one uint64_t multiplication by 1024 gives at most 2^64 - 1024 |
| Cli.ParsedRoom | sfet.c:110-138 | an accepted chunk length plus 16 stays below 2^64: a plain count is below LONG_MAX, and a scaled one is a multiple of 1024 |
| Cli.ApplyRoom | sfet.c:569-619 | the option loop keeps chunklen + 16 below 2^64 |
| Cli.ConfigureRoom | sfet.c:558-635 | every accepted command line gives a chunk length for which chunklen + 16 does not wrap, as `Chunked.DecryptEncrypt` requires |
| Cli.LastIterationsWin | sfet.c:581-583 | a later -i overrides earlier ones with atoll's value modulo 2^64 and changes nothing else |
| Cli.NegativeIterations | venom.c:555-602 | -i with a negative count passes the check as 2^64 minus the count |
| FileHeader.Encode | sfet.c:226-232 | the header is sizeof(struct header) bytes |
| FileHeader.Decode | sfet.c:309-318 | refused as not ours exactly when the magic differs; for the version exactly when the magic matches and the be16 version differs; otherwise the fields are read |
| FileHeader.DecodeEncode | sfet.c:226-232 | a header written by encrypt is read back with the same fields |
| FileHeader.EncodeDecode | sfet.c:299-318 | an accepted header is exactly the encoding of the fields read from it |
| Chunked.KeysOf | sfet.c:201-204 | the MAC key is key[32..64] |
| Chunked.KeysOfCipher | sfet.c:203 | the CTR cipher is Serpent, by the definition, under the key schedule of key[0..32] |
| Chunked.Start | sfet.c:204 | ctr_serpent_nonce leaves a consistent CTR state at offset 0 |
| Chunked.SealFull | sfet.c:245-257 | a full chunk is encrypted, followed by its MAC, and the loop goes on with the next nonce |
| Chunked.SealLast | sfet.c:245-257 | a short or empty chunk, with its MAC, is the last output |
| Chunked.OpenFull | sfet.c:381-409 | a full chunk whose MAC matches is decrypted, and the loop goes on |
| Chunked.OpenLast | sfet.c:381-409 | a short chunk whose MAC matches is decrypted and ends the loop |
| Chunked.OpenNoWrap | sfet.c:382-387 | acceptance implies that chunklen + 16 did not wrap in uint64_t |
| Chunked.OpenAcceptedFull | sfet.c:396-401 | an accepted full chunk had a matching MAC |
| Chunked.OpenAcceptedLast | sfet.c:382-409 | an accepted short chunk held a MAC that matched, and it was the last |
| Chunked.OpenSeal | sfet.c:245-257 | the decryption loop returns the plaintext that the encryption loop sealed, without error |
| Chunked.SealOpen | sfet.c:381-409 | whatever the decryption loop accepts is exactly what the encryption loop writes for the plaintext it returns |
| Chunked.DecryptEncrypt | sfet.c:155-418 | decrypting what encrypt wrote gives back the whole input without error |
| Chunked.EncryptDecrypt | sfet.c:270-418 | a file that decrypts without error is what encrypt writes for its header fields and the recovered plaintext |
| Chunked.NoncesDistinct | sfet.c:237-251 | no two MACs of a file share a nonce while it has fewer than 2^128 - 1 chunks |
| Venom6.Bump | src/venom.c:130 | nonce[0]++ wraps byte 0 and keeps the rest |
| Venom6.SessionNonces | src/venom.c:130-171 | the header nonce, the password-check nonce and the payload nonce are pairwise different |
| Venom6.KeyOfIs | src/venom.c:117-120 | the EAX key is the OMAC key of Serpent under the derived 32-byte key |
| Venom6.PwCheck | src/venom.c:130-135 | the password check is four bytes |
| Venom6.PwCheckIsEax | src/venom.c:130-135 | the password check is the EAX tag of magic and nonce under nonce[0] + 1, cut to four bytes |
| Venom6.EncodeHeader | src/venom.c:124-167 | the header is 35 bytes: 5 of magic, 2 of version, 8 of iterations, a 16-byte nonce and 4 bytes of password check |
| Venom6.ParseHeader | src/venom.c:231-281 | refused as not ours exactly when the magic differs; for the version exactly when it differs; a parsed header is whole |
| Venom6.ParseEncode | src/venom.c:231-281 | a written header is read back as itself, whatever follows |
| Venom6.EncodeParse | src/venom.c:124-167 | a header that is read is the encoding of what was read |
| Venom6.Seal | src/venom.c:176-183 | the loop keeps the EAX context consistent and outputs as many bytes as it reads |
| Venom6.SealIsOneCall | src/venom.c:176-183 | however the reads cut the input, the ciphertext and final state are those of one call |
| Venom6.Encrypt | src/venom.c:81-210 | the file is header, ciphertext and a 16-byte tag |
| Venom6.SealPayload | src/venom.c:171-197 | the payload is the ciphertext followed by 16 tag bytes |
| Venom6.Withhold | src/venom.c:338-354 | the loop keeps the context consistent and holds back 16 bytes |
| Venom6.WithholdTail | src/venom.c:338-354 | the loop decrypts everything but the last 16 bytes and holds those back as the tag |
| Venom6.ExpectedLast | src/venom.c:339-348 | input that ends within the buffer is decrypted up to its last 16 bytes in one call |
| Venom6.ExpectedJoin | src/venom.c:338-354 | decrypting a part, then all but 16 bytes of the rest, is decrypting all but the last 16 bytes |
| Venom6.PayloadIsEax | src/venom.c:324-372 | the payload step decrypts all but the last 16 bytes and checks them as the EAX tag |
| Venom6.SealIsEax | src/venom.c:171-197 | the payload step writes the EAX ciphertext and tag with no header data |
| Venom6.DecryptEncrypt | src/venom.c:215-385 | decrypting what encrypt_file wrote gives back the input without error |
| Venom6.EncryptDecrypt | src/venom.c:81-210 | a file that decrypts without error is what encrypt_file writes for its header fields and the recovered plaintext |
| Venom6.Atoi | src/venom.c:431 | atoi yields a 32-bit int |
| Venom6.ApplyIter | src/venom.c:409-438 | the iteration count stays a 32-bit int |
| Venom6.ApplyIterLast | src/venom.c:430-432 | the last -i wins; without one the default stays |
| Venom6.Configure | src/venom.c:430-443 | without -i the count is DEF_ITERATION; otherwise the last -i is accepted exactly when atoi gives at least 1024, and then it is the count |
| Venom6.DefaultIterations | src/defaults.h:9 | with no options venom uses 2097152 iterations |
| Venom6.AtoiWraps | src/venom.c:431-443 | 2^32 + 1024 passes the check as 1024 |
| ReadPass.LineEnd | readpass.c:27-34 | the line ends within the data |
| ReadPass.LineEndSpec | readpass.c:27-34 | the first line holds no newline, and a newline ends it unless the data does |
| ReadPass.Pad | readpass.c:38-42 | the buffer is always max bytes |
| ReadPass.ReadLine | readpass.c:23-45 | a line fills max bytes and consumes input; an empty stream gives count 0 and a padded empty buffer |
| ReadPass.ReadLineLoop | readpass.c:23-45 | the fgetc loop computes read_line |
| ReadPass.ReadLineSpec | readpass.c:23-45 | the count is the first line's length; a line that fits comes back whole, a longer one is cut to max |
| ReadPass.PadInjective | readpass.c:38-42 | lines shorter than the buffer have different buffers |
| ReadPass.ReadPass | readpass.c:94-132 | a password that comes back fits, and its buffer is max bytes |
| ReadPass.ConfirmedPassword | readpass.c:115-129 | a password line followed by the same confirmation is taken, and both lines are consumed |
| ReadPass.TooLongAsksAgain | readpass.c:104-112 | at a terminal, a line too long to fit is dropped and the password read again |
| ReadPass.ConfirmedAccepted | readpass.c:94-132 | a password accepted with confirmation fits, and is somewhere in the stream a line of n bytes with buffer pw followed at once by a line with the same buffer, after which the stream is rest |
| ReadPass.PadCollision | readpass.c:38-42 | a line shorter than the buffer pads to a buffer that is not the line, and padding that buffer again changes nothing |

## Left out

- SHA-256, SHA-512 and `pbkdf2_hmac_sha512` are parameters: the hash `H` of `Pbkdf2Hmac`, and the key derivation of `Chunked` and `Venom6`. Their source is not part of this model.
- `poly1305_serpent_setkey` and `poly1305_serpent_authdata`, which sfet and venom call, are not in the repository's sources. The chunk MAC is the parameter `mac` of `Chunked`; `Poly1305Serpent` models the `poly1305_serpent_init` that is present.
- The 32-bit Poly1305 code path (`poly1305.c` 135-265) is left out. The model follows the `__LP64__` path.
- The x86 assembly and the eight-way `serpent8x` encryption are left out.
- File I/O errors, allocation failures, output file modes (`-m`), `-f` and the existence checks are left out. So are `burn`/`burnstack` and verbose output.
- The `-s` show mode (`show` in `sfet.c`) prints the header fields and, with `-v`, the MAC of every chunk. It only prints, and checks nothing beyond what `FileHeader.Decode` does, so it is left out.
- Eax.Tag: it returns only the tag. `eax_serpent_tag` also leaves OMAC^1 and OMAC^2 finalised in place; the model drops those contexts, because `eax_serpent_nonce` starts them afresh before every later use. `Omac.FinalizeCtx` models the context that `omac_serpent_finalize` leaves behind, and `Omac.ReuseAfterFinalize` shows that it must not be reused.
- Terminal attribute handling, prompts and the `/dev/tty` fallback are left out. Whether the input is a terminal is the parameter `tty` of `ReadPass.ReadPass`.
- Random nonces (`secrand`, `getrandom`) are a parameter of the encryptors.
- ReadPass.ReadLine: `read_line` counts in an `int`, which would overflow for lines of 2^31 bytes or more. The model counts with unbounded integers.
- Pbkdf2.F: the C loops run `j` in `uint64_t` while `j <= iter`, so an iteration count of 2^64 - 1 never ends because `j` wraps. The model computes U_1 ^ ... ^ U_c for every count.
- Chunked.NoncesDistinct: it holds for fewer than 2^128 - 1 chunks. The nonce counter would wrap after that.
- `poly1305.h` declares `poly1305_init` and `poly1305_mac` with other arguments than `poly1305.c` defines. The model follows the definitions in `poly1305.c`, and `Poly1305Serpent.Setup` models the three-argument call in `poly1305-serpent.c`.
