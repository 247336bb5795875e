# Solana quick-trade extension: a Dafny model of its core

The browser extension signs and sends Solana swaps from a popup and a
floating panel. Its core, as modelled here:

- **lib/nacl.js**: a TweetNaCl port that does Ed25519 key derivation and
  detached signing. It covers:
  - field arithmetic in GF(2^255 − 19) on sixteen 16-bit limbs;
  - the canonical field encoding;
  - the constant-time compare;
  - the SHA-512 driver;
  - the scalar-multiplication ladder;
  - reduction modulo the group order L;
  - `sign` / `getPublicKey`.
- **background/service-worker.js**: the first worker. It covers:
  - its Base58 codec;
  - `getKeypair`;
  - the signature patch of `signAndSendTransaction`;
  - the `confirmTransaction` poll loop;
  - the mint direction of `executeTrade`.
- **src/service-worker.js**: the Jupiter Ultra worker. It covers:
  - the `getKeypair` length dispatch;
  - the five-second balance cache;
  - `getSolBalance` / `getTokenBalance`;
  - the gates of `executeTrade` and its BigInt sell amount.
- **popup/popup.js**: the save handler's validation order and its
  Base58 key pattern, the Helius URL and its `api-key=` extraction on load,
  and the quick-buy amount defaults.

Where each source function of lib/nacl.js lives:

| source | module |
|---|---|
| `ts64`, `crypto_hashblocks_hl`, `crypto_hash` (lines 18-27, 175-356) | `Sha512` |
| `vn`, `crypto_verify_32` (lines 29-37) | `ConstantTime` |
| `car25519`, `sel25519`, `A`, `Z` (lines 43-60, 103-109) | `Field25519`; the three-pass carry bound in `CarryBounds` |
| `M`, `S`, `inv25519`, `pow2523` (lines 111-149) | `FieldMul` |
| `pack25519`, `neq25519`, `par25519`, `unpack25519` (lines 62-101) | `FieldPack` |
| `cswap`, `pack`, `scalarmult`, `scalarbase` (lines 368-396) | `Curve`; limb bounds along the ladder in `LimbBounds` |
| `modL`, `reduce` (lines 400-430) | `ScalarModL` |
| `crypto_sign`, `getPublicKey`, `sign` (lines 432-488) | `Ed25519` |

Modules follow the program. Each is in its own file:

| module | file |
|---|---|
| `Positional`, `Numeral`, `ByteOrder`, `JsInt`, `Wrappers` | shared arithmetic on digit sequences, and JavaScript's Int32/Uint32 views and bit operators |
| `Field25519`, `CarryBounds`, `FieldMul`, `FieldPack`, `ConstantTime` | the field |
| `Sha512` | the hash driver |
| `Curve`, `LimbBounds` | the ladder and point encoding |
| `ScalarModL` | modL / reduce |
| `Ed25519` | signing |
| `Base58` | the codec |
| `Background`, `Worker`, `Popup` | the three scripts |

Loops are recursive functions indexed as the loops are. Byte strings are
`seq<int>` with `IsBytes`. Typed-array stores and the `>>`, `&`, `|` and
`^` operators are modelled as JavaScript computes them.

Two primitives are parameters rather than code, so the model takes any
function in their place:
- the 80-round SHA-512 compression of one block;
- the extended-coordinates point addition.

I/O is also turned into parameters:
- the network replies (balances, orders, executions, signature statuses)
  and the clock are explicit arguments;
- the nacl object the workers call is a pair of functions, `Nacl`.
  `TweetNacl` instantiates it with this model's `Sign` and `PublicKey`.

## Model

| member | source | states |
|---|---|---|
| Base58.Decode | background/service-worker.js:12-30 | a successful decode yields bytes |
| Base58.DecodeMatchesSpec | background/service-worker.js:12-30 | the carry-propagating decoder equals the reference: leading '1's become zero bytes, and the rest is the big-endian base-58 value of the symbols |
| Base58.EncodeMatchesSpec | background/service-worker.js:32-50 | the carry-propagating encoder equals the reference: zero bytes become leading '1's, and the rest is the base-58 digits of the value |
| Base58.DecodeEncode | background/service-worker.js:12-50 | encoding bytes that are not all zero gives a valid string that decodes back to the same bytes |
| Base58.EncodeDecode | background/service-worker.js:12-50 | a valid string that is not all '1's decodes, and re-encodes to itself |
| Base58.EncodeZeros | background/service-worker.js:32-50 | n zero bytes encode to n+1 '1's, which decode to n+1 zero bytes (the all-zero case breaks the round trip) |
| ConstantTime.Vn | lib/nacl.js:29-33 | vn returns 0 exactly when the two n-byte ranges are equal, and −1 otherwise |
| ConstantTime.CryptoVerify32 | lib/nacl.js:35-37 | crypto_verify_32 returns 0 exactly when the two 32-byte ranges are equal, and −1 otherwise |
| Field25519.Add | lib/nacl.js:103-105 | A adds the represented numbers |
| Field25519.Sub | lib/nacl.js:107-109 | Z subtracts the represented numbers |
| Field25519.Sel25519 | lib/nacl.js:53-60 | sel25519 swaps the two elements (as Int32 limbs) exactly when b = 1, and leaves them unchanged when b = 0 |
| Field25519.Car25519 | lib/nacl.js:43-51 | car25519 keeps the value mod p and leaves limbs 1..15 in [0, 2^16) |
| CarryBounds.ThreePasses | lib/nacl.js:43-51 | three carry passes of a limb array within Float64's exact range leave all sixteen limbs in [0, 2^16) |
| FieldMul.Mul | lib/nacl.js:111-125 | M multiplies modulo p and leaves limbs 1..15 normalised |
| FieldMul.Square | lib/nacl.js:127-129 | S squares modulo p |
| FieldMul.Inv25519 | lib/nacl.js:131-139 | inv25519 computes x^(p−2) mod p, i.e. the inverse |
| FieldMul.Pow2523 | lib/nacl.js:141-149 | pow2523 computes x^((p−5)/8) mod p |
| FieldPack.Pack25519 | lib/nacl.js:62-83 | pack25519 writes 32 bytes |
| FieldPack.UnpackPack | lib/nacl.js:62-101 | unpacking the packing of an exact limb array gives its value mod p, so pack writes the canonical residue |
| FieldPack.Unpack25519 | lib/nacl.js:98-101 | unpack25519 gives normalised limbs whose value is the input's little-endian value with bit 255 dropped |
| FieldPack.PackUnpack | lib/nacl.js:62-101 | packing the unpacking of a canonical encoding (value below p) gives back the same 32 bytes |
| FieldPack.ParValue | lib/nacl.js:92-96 | par25519 is the parity of the canonical residue |
| FieldPack.NeqValue | lib/nacl.js:85-90 | neq25519 is 0 exactly when the two values agree mod p, and −1 otherwise |
| Curve.CSwap | lib/nacl.js:368-370 | cswap exchanges the two points exactly when b = 1; every coordinate is stored as Int32 limbs |
| Curve.CSwapTwice | lib/nacl.js:368-370 | swapping twice with the same bit restores the (Int32-stored) points |
| Curve.ScalarMultValue | lib/nacl.js:380-389 | for any addition that is a homomorphism onto Z/n, scalarmult's ladder computes s·q, where s is the little-endian value of the 32 scalar bytes |
| Curve.PackPoint | lib/nacl.js:372-378 | pack writes 32 bytes |
| Curve.PackPointValue | lib/nacl.js:372-378 | pack encodes y/z mod p, with the parity of x/z in bit 255, as section 5.1.2 of RFC 8032 specifies |
| LimbBounds.ScalarBaseSmall | lib/nacl.js:391-396 | scalarbase keeps limbs below 2^21 along the whole ladder whenever the addition does |
| LimbBounds.PackSmall | lib/nacl.js:372-378 | the encoding of a point with small limbs is its RFC 8032 encoding |
| Sha512.Ts64 | lib/nacl.js:18-27 | ts64 leaves the length unchanged |
| Sha512.Ts64Writes | lib/nacl.js:18-27 | ts64 writes the 64-bit word h·2^32 + l big-endian at offset i and changes nothing else |
| Sha512.HashBlocks | lib/nacl.js:175-322 | crypto_hashblocks_hl returns the number of bytes left over, n mod 128 |
| Sha512.HashBlocksAbsorbs | lib/nacl.js:175-322 | the block loop absorbs exactly the whole 128-byte blocks of the input, in order |
| Sha512.SerialiseIsBigEndian | lib/nacl.js:345-354 | the output loop writes the eight state words big-endian |
| Sha512.CryptoHash | lib/nacl.js:324-356 | crypto_hash yields 64 bytes |
| Sha512.CryptoHashIsSha512 | lib/nacl.js:324-356 | crypto_hash is the SHA-512 of FIPS 180-4: the compression run over the message padded as section 5.1.2 of that standard specifies, then serialised |
| ScalarModL.ModL | lib/nacl.js:400-423 | the corrected modL writes 32 limbs |
| ScalarModL.ModLReduces | lib/nacl.js:400-423 | the corrected modL, on limbs the signer produces, yields bytes whose value is the input's value mod L |
| ScalarModL.ModLAsWritten | lib/nacl.js:400-423 | modL exactly as written writes 32 limbs |
| ScalarModL.AsWrittenMisreduces | lib/nacl.js:409 | on the counterexample input, modL as written does not yield the residue mod L; the corrected one does |
| ScalarModL.Reduce | lib/nacl.js:425-430 | reduce keeps 64 limbs |
| ScalarModL.ReduceIsMod | lib/nacl.js:425-430 | the corrected reduce of 64 bytes is the residue mod L in the low 32 bytes, with zeros above |
| ScalarModL.ReduceAsWritten | lib/nacl.js:425-430 | reduce as written keeps 64 limbs |
| ScalarModL.ReduceAsWrittenMisreduces | lib/nacl.js:409 | on the counterexample input, reduce as written misses the residue mod L; the corrected reduce hits it |
| Ed25519.Clamp | lib/nacl.js:439-441 | clamping clears the low three bits of byte 0, clears bit 7 and sets bit 6 of byte 31, and leaves every other byte unchanged |
| Ed25519.ClampedScalar | lib/nacl.js:439-441 | the clamped scalar is a multiple of 8 in [2^254, 2^255) |
| Ed25519.PublicKey | lib/nacl.js:476-488 | getPublicKey yields 32 bytes |
| Ed25519.PublicKeyValue | lib/nacl.js:476-488 | the public key encodes the base point multiplied by the clamped hash of the seed, provided the addition keeps limbs small |
| Ed25519.Sign | lib/nacl.js:469-473 | sign yields a 64-byte detached signature |
| Ed25519.SignMatchesSpec | lib/nacl.js:433-473 | with the corrected reduction, and a secret key whose second half is the seed's public key, the signature is RFC 8032's (section 5.1.6): R = rB and S = (r + k·s) mod L |
| Ed25519.NonceIgnoresPublicHalf | lib/nacl.js:438-450 | R depends only on the seed half of the secret key |
| Ed25519.SignAsWritten | lib/nacl.js:433-473 | signing with modL as written still yields 64 bytes |
| Ed25519.SignAsWrittenAgrees | lib/nacl.js:433-473 | as-written signing equals the corrected one whenever all three reductions it performs hit the residue |
| Ed25519.NonceAsWrittenWrong | lib/nacl.js:447-448 | when the nonce hash is the counterexample input, the as-written nonce differs from RFC 8032's r, and the corrected one matches it |
| Background.GetKeypair | background/service-worker.js:53-75 | a key pair always has a 64-byte secret key, whose second half is the public key, and the Base58 address encodes that public key |
| Background.KeypairLengths | background/service-worker.js:53-75 | getKeypair succeeds exactly when the string decodes to 32 or 64 bytes |
| Background.FullKeyKept | background/service-worker.js:53-75 | a decoded 64-byte key is used as it is |
| Background.SeedExtended | background/service-worker.js:56-63 | a decoded 32-byte seed becomes seed followed by nacl.getPublicKey(seed) |
| Background.SeedKeySigns | background/service-worker.js:53-75 | signing with the key pair derived from a 32-byte seed is RFC 8032 signing with that seed |
| Background.PublicKeyRoundTrip | background/service-worker.js:53-75 | the Base58 address decodes back to the public key, unless the key is all zero |
| Background.Patch | background/service-worker.js:203-205 | the patched transaction has the same length, bytes [1, 65) hold the signature, and every other byte is unchanged |
| Background.SignedEnvelope | background/service-worker.js:186-205 | the patch succeeds exactly when the transaction has at least 65 bytes; then only the first signature slot changes, and it holds nacl.sign over the bytes after the declared signature slots |
| Background.MessageAfterSlots | background/service-worker.js:192-197 | when the slots fit, the signed message is the bytes from 1 + 64·tx[0] on |
| Background.SignedWithNacl | background/service-worker.js:186-205 | with the nacl of lib/nacl.js, the slot holds the Ed25519 signature of the message |
| Background.ResignStable | background/service-worker.js:186-205 | when at least one slot is declared, signing an already signed transaction changes nothing |
| Background.ConfirmedIff | background/service-worker.js:224-241 | confirmation succeeds exactly when some poll reports confirmed or finalized, and every poll up to it started before the deadline |
| Background.ErrorSwallowed | background/service-worker.js:229-237 | a status carrying an error neither confirms nor aborts; polling goes on |
| Background.NeverFails | background/service-worker.js:227-237 | as written, the loop never reports an on-chain failure, because the error it throws for a status with err is caught by its own catch |
| Background.FailedTransactionTimesOut | background/service-worker.js:229-240 | a transaction that landed but failed (err on every poll) runs into the timeout as written; the corrected loop reports the failure at the first poll |
| Background.FailedIff | background/service-worker.js:229-232 | the corrected loop throws the failure exactly when some poll reports err, every poll up to it being in time and none before it settling |
| Background.IntendedAgrees | background/service-worker.js:224-241 | when no status carries err, the corrected loop ends exactly as the written one does |
| Background.PollsBounded | background/service-worker.js:224-241 | with polls at least 1500 ms apart, the loop decides (confirmed or timed out) within timeout/1500 + 2 polls |
| Background.TradeDirection | background/service-worker.js:244-270 | a trade needs a wallet and a valid key; a buy spends SOL for the token; a sell spends the token for SOL and needs a non-zero balance |
| Worker.FromSecretKey | src/service-worker.js:19-20 | Keypair.fromSecretKey keeps a 64-byte key exactly when its second half is the public key of its first half, and throws otherwise |
| Worker.FromSeed | src/service-worker.js:21-23 | a 32-byte seed is extended by its public key |
| Worker.SameKeypair | src/service-worker.js:14-34 | the Ultra worker's getKeypair agrees with the background worker's on every input except a 64-byte key with mismatched halves, which this worker rejects and the background worker (background/service-worker.js:53-75) keeps as it is |
| Worker.AcceptsLess | src/service-worker.js:14-34 | the Ultra worker accepts a key string exactly when the background worker does and the decoded key is not a mismatched 64-byte key |
| Worker.HitIgnoresNetwork | src/service-worker.js:51-58 | a cache hit (same address, data present, younger than 5000 ms) returns the cached data, whatever the network would say, and keeps the cache |
| Worker.MissFetches | src/service-worker.js:59-85 | a miss succeeds exactly on a good reply, which it stores with the time and address; a failed fetch leaves the cache alone |
| Worker.FreshFor | src/service-worker.js:43-85 | for calls that run one after another, a stored reply is served for exactly the next 5000 ms |
| Worker.OtherWalletFetches | src/service-worker.js:51-58 | a cache for another address never answers |
| Worker.SolBalanceEntries | src/service-worker.js:88-99 | the SOL balance reads the "SOL" entry first, then the wrapped-SOL mint, and is otherwise 0 |
| Worker.TokenBalanceEntry | src/service-worker.js:110-117 | a token balance reads only its mint's entry; a missing entry is ("0", 0) |
| Worker.RawAmount | src/service-worker.js:112 | a missing or empty raw amount reads as "0" |
| Worker.GetSolBalance | src/service-worker.js:88-99 | getSolBalance returns the SOL balance (SOL's uiAmount, else wrapped SOL's, else 0) of the cached reply on a hit, and otherwise succeeds exactly when the fetch returns a body and reads it from that body; the cache ends as the shared balance read leaves it |
| Worker.ForcedRefresh | src/service-worker.js:102-108 | forceRefresh always fetches; success stores the reply, and failure leaves the cache empty |
| Worker.TokenFromCache | src/service-worker.js:102-117 | without forceRefresh, a hit reads the token from the cached reply |
| Worker.ParseBigInt | src/service-worker.js:266 | BigInt parses exactly the strings of decimal digits |
| Worker.ParseDecimal | src/service-worker.js:266-268 | BigInt reads back the decimal spelling of any natural number |
| Worker.SellAmountFloor | src/service-worker.js:268 | for a non-negative percentage, the amount is floor(raw·percent / 100) |
| Worker.SellWithinBalance | src/service-worker.js:267-268 | for a percentage in [0, 100], the amount is between 0 and the raw balance: all of it at 100 and none at 0 |
| Worker.SellMonotone | src/service-worker.js:267-268 | a larger percentage never sells less |
| Worker.SellNegative | src/service-worker.js:268 | BigInt division truncates toward zero, so a negative percentage gives the negated amount |
| Worker.SellRequest | src/service-worker.js:263-268 | a sell order is made exactly when the position is non-zero and the raw amount is decimal |
| Worker.TradeGates | src/service-worker.js:241-246 | no wallet, then no API key, then a bad key stop the trade in that order, and none of them touches the cache |
| Worker.BuyOrder | src/service-worker.js:251-254 | a buy spends floor(amount·10^9) lamports of SOL for the token, from the wallet's address, without a balance read |
| Worker.SellOrder | src/service-worker.js:255-275 | a sell reads a fresh balance and caches it; with no position it stops; otherwise it sells floor(amount) percent of the raw amount for SOL |
| Worker.SellFetchFails | src/service-worker.js:260 | a failed balance read stops the sell and leaves the cache empty |
| Worker.FinishIff | src/service-worker.js:279-297 | the trade returns a signature exactly when an order came back with a transaction, signing succeeded and execution did not report "Failed"; "Failed" throws result.error or the default |
| Worker.TradeSucceeds | src/service-worker.js:241-298 | a trade succeeds exactly when the planning steps and the order steps both succeed, and the cache is what planning left |
| Popup.TrimEmpty | popup/popup.js:76-82 | a trimmed field is empty exactly when it held only white space |
| Popup.TrimSlice | popup/popup.js:76-77 | trim returns a slice of its input with no white space at either end, having removed only white space |
| Popup.TrimIdempotent | popup/popup.js:76-77 | trimming twice is trimming once |
| Popup.KeyFormatDecodes | popup/popup.js:85 | the key pattern accepts exactly the 64-88 character strings over the Base58 alphabet, and every one of them decodes |
| Popup.SaveErrorOrder | popup/popup.js:79-111 | each of the five messages appears exactly when its own check fails and every earlier check passed, in the handler's order |
| Popup.SaveStoresKey | popup/popup.js:76-93 | a successful save stores the trimmed key, which has the Base58 format and decodes, and a non-empty Jupiter key |
| Popup.SaveRpc | popup/popup.js:95-111 | Helius stores the trimmed key and the URL built from it; custom stores the trimmed non-empty address; a preset stores its endpoint |
| Popup.BlankKeyMissing | popup/popup.js:79-82 | a key field of white space only is reported as missing |
| Popup.HeliusUrl | popup/popup.js:104 | the Helius endpoint is the fixed prefix followed by the key |
| Popup.BuyAmountsPositive | popup/popup.js:114-117 | each stored amount is positive: the input's own value when that is a positive number, and otherwise the default at that position |
| Popup.ExtractKey | popup/popup.js:206 | the match is None exactly when "api-key=" followed by a character other than '&' occurs nowhere; otherwise it captures the non-empty run without '&' after the leftmost such occurrence |
| Popup.ExtractMatches | popup/popup.js:206 | what is extracted from p on is the run after the first occurrence at or after p |
| Popup.ExtractNone | popup/popup.js:206 | scanning from p yields nothing exactly when no occurrence lies at or after p |
| Popup.ExtractFirst | popup/popup.js:206 | when q is the first occurrence at or after p, scanning from p captures the run after q |
| Popup.HeliusKeyRoundTrip | popup/popup.js:206-208 | extracting the key from the URL that line 104 builds for a key without '&' gives back the key |
| Popup.HeliusUrlNamesHelius | popup/popup.js:203 | every URL that line 104 builds includes "helius", so loading recognises it as Helius |
| Popup.LegacyHeliusLoad | popup/popup.js:203-210 | settings with no Helius key but a Helius URL restore the Helius choice, with the key extracted from the URL |
| Popup.CustomLoad | popup/popup.js:199-215 | a stored endpoint loads as custom exactly when it names neither "helius" nor "mainnet-beta", and then fills the custom field |
| Popup.SaveLoad | popup/popup.js:75-240 | loading what was saved restores the key, the Jupiter key, the Helius choice and key, and the amounts |
| Popup.AmountsRoundTrip | popup/popup.js:237-240 | saved amounts load back unchanged, because none of them is 0 |
| Popup.DefaultsWhenMissing | popup/popup.js:237 | missing amounts load as the defaults |

## Left out

- The SHA-512 compression rounds (lib/nacl.js:186-317) and the point
  addition `add` (lib/nacl.js:358-366) are parameters. Both are fixed
  arithmetic formulas over Int32 and field operations. The model proves what
  the code around them does for any choice of them.
- Ed25519.PublicKeyValue: requires the addition to keep limbs below 2^21
  (`KeepsSmall`). The source's `add` does this, but it is a parameter here.
- Ed25519.Sign, ScalarModL.Reduce and Background.SignedWithNacl use the
  corrected modL (see Findings). The program as written is modelled
  separately, by SignAsWritten and ReduceAsWritten.
- Background.Detached: returns no bytes for a secret key that is not 64
  bytes. The source would read undefined limbs there. Every key that
  getKeypair builds is 64 bytes, so this case is not reached.
- Background.Nacl: a nacl object is assumed to return 64-byte signatures
  and 32-byte public keys. TweetNacl shows that the model's own nacl meets
  this.
- Base58.EncodeZeros: encoding all-zero or empty input writes one '1' too
  many. This is modelled as written. The only caller encodes a public key.
- Network, storage and timers: fetch, rpcRequest, chrome.storage and
  `Date.now()` are not modelled. Their replies and times are arguments, and
  the replies of one run are a value of `Env` or a sequence of `Poll`.
- The web3.js library in src/service-worker.js: bs58, Keypair and
  VersionedTransaction are not modelled. Base58.Decode stands in for
  bs58.decode, and Base58.Encode stands in for
  `keypair.publicKey.toBase58()` (src/service-worker.js:32). The two differ
  only on an all-zero public key: bs58 writes n '1's for n zero bytes,
  where Base58.Encode, like the background worker's encoder, writes n+1.
  `Keypair.fromSeed` is modelled as the bytes it keeps, and
  `Keypair.fromSecretKey` as the bytes it keeps plus its check that the
  second half is the first half's public key (KeyError.MismatchedHalves);
  the public key it checks against is the `Nacl` parameter's. Signing the order's transaction is an `Option` in `Env`,
  None when it throws.
- Worker.ParseBigInt: reads only plain decimal digits. BigInt's other forms
  (whitespace, a sign, 0x prefixes) are not modelled. Jupiter's raw amounts
  are decimal strings.
- Floating point: amounts and percentages are exact reals, and Math.floor is
  `.Floor`. parseFloat's result is NaN or a number (Popup.Parsed), and the
  text parsing itself is not modelled.
- Popup.BuyAmounts: requires at most four inputs, because the page has
  exactly four quick-buy inputs, one per default.
- The following are not part of this model:
  - slippage, priority fee, Jito tip and the panel toggle (settings stored
    and restored verbatim);
  - getTokenInfo, getQuote, getSwapTransaction and getRecentBlockhash in the
    background worker, which only forward replies;
  - the background worker's float sell amount (background/service-worker.js:266-269);
  - message routing (handleMessage), the popup's wallet display and
    "test connection" button;
  - the floating panel (content/floating-panel.js) and build.js.
- Broadcast: the code sends once (background/service-worker.js:210-218,
  src/service-worker.js:208-238); there is no fallback endpoint.
- Confirmation: line 231 of background/service-worker.js throws for a
  status carrying err, evidently to make an on-chain failure terminal; the
  loop's own catch swallows it (see Findings). Background.Confirm follows
  the code, and Background.ConfirmIntended is the corrected loop.
- Worker.GetBalances, Worker.FreshFor: the balance reads are modelled as
  sequential calls. The worker does not coalesce concurrent calls: two
  calls that both miss both await fetch, and the one that finishes last
  overwrites the cache with the `now` it captured when it started
  (src/service-worker.js:52), so the other reply is not served for the
  5000 ms that FreshFor promises.
- The background worker's sendTransaction call and the base64 conversions
  around the patch are not modelled. The transaction is modelled as the
  decoded byte string.

## Findings

| source | as written | input that shows it | evidently intended | confidence | as-written member | corrected member |
|---|---|---|---|---|---|---|
| lib/nacl.js:409 | after each step i of modL's first loop, the final carry is added at limb i − 32 + 12 = i − 20 | 64 limbs with x[12] = 128, x[13..31] = 127 and the rest 0: step 44 ripples a carry of 1 up to limb 32, which lands at limb 24, so the result is not the input mod L | TweetNaCl adds the carry at limb j = i − 12, the limb just above the inner loop's last one | not executed | ScalarModL.ModLAsWritten, ScalarModL.AsWrittenMisreduces, ScalarModL.ReduceAsWrittenMisreduces, Ed25519.SignAsWritten | ScalarModL.ModL, ScalarModL.ModLReduces, ScalarModL.ReduceIsMod, Ed25519.SignMatchesSpec |
| background/service-worker.js:230-237 | the error thrown for a status carrying err is inside the try, and the empty catch at line 237 swallows it, so polling goes on | a transaction that landed but failed: every poll returns a status with err set, and the loop polls until the 60 s timeout and throws "confirmation timeout", never the failure | the failure is thrown out of the loop at the first such status | not executed | Background.NeverFails, Background.FailedTransactionTimesOut | Background.FailedIff, Background.IntendedAgrees |
