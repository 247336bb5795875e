/** The hand-written background worker around the signing primitive
    (background/service-worker.js): key assembly, the signature patch of a
    versioned transaction, the confirmation poll and the trade plan. The
    network, the clock and the Jupiter and RPC replies are inputs. */
module Background {
  import opened Wrappers
  import opened Positional
  import opened Ed25519
  import Base58

  /** SOL_MINT (background/service-worker.js:6). */
  const SolMint: string := "So11111111111111111111111111111111111111112"

  /** The endpoint executeTrade falls back to (background/service-worker.js:249). */
  const DefaultRpc: string := "https://api.mainnet-beta.solana.com"

  // ---------------------------------------------------------------------
  // The calls into lib/nacl.js

  /** The two functions the worker calls on `self.nacl`: `sign`, the
      detached signature of a message under a 64-byte secret key, and
      `getPublicKey`, the public key of a 32-byte seed. */
  datatype NaclCalls = NaclCalls(sign: (seq<int>, seq<int>) -> seq<int>, getPublicKey: seq<int> -> seq<int>)

  /** What the worker relies on: 64 signature bytes for a 64-byte key and
      32 key bytes for a 32-byte seed. */
  ghost predicate Shapes(n: NaclCalls)
  {
    (forall msg, sk :: |sk| == 64 ==> |n.sign(msg, sk)| == 64 && IsBytes(n.sign(msg, sk)))
    && (forall seed :: |seed| == 32 ==> |n.getPublicKey(seed)| == 32 && IsBytes(n.getPublicKey(seed)))
  }

  type Nacl = n: NaclCalls | Shapes(n) witness NaclCalls((msg, sk) => seq(64, _ => 0), seed => seq(32, _ => 0))

  /** sign of lib/nacl.js:469-473; other key lengths never reach it here. */
  function Detached(pr: Primitives, msg: seq<int>, sk: seq<int>): (sig: seq<int>)
    ensures |sk| == 64 ==> |sig| == 64 && IsBytes(sig) && sig == Sign(pr, msg, sk)
  {
    if |sk| == 64 then SignBytes(pr, msg, sk); Sign(pr, msg, sk) else []
  }

  /** getPublicKey of lib/nacl.js:476-488, read on the first 32 bytes. */
  function SeedPublicKey(pr: Primitives, seed: seq<int>): (pk: seq<int>)
    ensures |seed| >= 32 ==> |pk| == 32 && IsBytes(pk)
  {
    if |seed| >= 32 then PublicKey(pr, seed) else []
  }

  /** lib/nacl.js over the given hash and point addition. */
  function TweetNacl(pr: Primitives): Nacl
  {
    NaclCalls((msg, sk) => Detached(pr, msg, sk), seed => SeedPublicKey(pr, seed))
  }

  // ---------------------------------------------------------------------
  // getKeypair (background/service-worker.js:53-75)

  /** Why getKeypair throws. MismatchedHalves is raised only by web3.js's
      Keypair.fromSecretKey in the bundled worker; this worker never
      checks the halves of a 64-byte key. */
  datatype KeyError = InvalidCharacter | InvalidLength | MismatchedHalves

  datatype Keypair = Keypair(secretKey: seq<int>, publicKey: seq<int>, publicKeyBase58: string)

  /** The secret key as assembled from the decoded bytes: a 32-byte seed is
      followed by its public key, any other length is kept. */
  function Assemble(nacl: Nacl, bytes: seq<int>): seq<int>
  {
    if |bytes| == 32 then bytes + nacl.getPublicKey(bytes) else bytes
  }

  /** getKeypair: decode, extend a seed, insist on 64 bytes, and split off
      the public half. */
  function GetKeypair(nacl: Nacl, privateKey: string): (r: Result<Keypair, KeyError>)
    ensures r.Ok? ==> |r.value.secretKey| == 64 && IsBytes(r.value.secretKey)
    ensures r.Ok? ==> r.value.publicKey == r.value.secretKey[32..]
    ensures r.Ok? ==> r.value.publicKeyBase58 == Base58.Encode(r.value.publicKey)
  {
    match Base58.Decode(privateKey)
    case Err(_) => Err(InvalidCharacter)
    case Ok(bytes) =>
      AssembledKey(nacl, bytes);
      var sk := Assemble(nacl, bytes);
      if |sk| != 64 then Err(InvalidLength)
      else Ok(Keypair(sk, sk[32..], Base58.Encode(sk[32..])))
  }

  /** Assembly keeps bytes, and a seed becomes seed ‖ public key. */
  lemma AssembledKey(nacl: Nacl, bytes: seq<int>)
    requires IsBytes(bytes)
    ensures IsBytes(Assemble(nacl, bytes))
    ensures |bytes| == 32 ==>
      (|Assemble(nacl, bytes)| == 64 && Assemble(nacl, bytes)[..32] == bytes
       && Assemble(nacl, bytes)[32..] == nacl.getPublicKey(bytes))
    ensures |bytes| != 32 ==> Assemble(nacl, bytes) == bytes
  {
    if |bytes| == 32 {
      Joined(bytes, nacl.getPublicKey(bytes));
    }
  }

  /** Two byte strings side by side, and their halves. */
  lemma Joined(a: seq<int>, b: seq<int>)
    requires IsBytes(a) && IsBytes(b)
    ensures IsBytes(a + b) && (a + b)[..|a|] == a && (a + b)[|a|..] == b
  {
    assert forall k :: 0 <= k < |a + b| ==> (a + b)[k] == if k < |a| then a[k] else b[k - |a|];
  }

  /** getKeypair succeeds exactly on the strings that decode to 32 or 64
      bytes. */
  lemma KeypairLengths(nacl: Nacl, privateKey: string)
    ensures GetKeypair(nacl, privateKey).Ok? <==>
      Base58.Decode(privateKey).Ok? && (|Base58.Decode(privateKey).value| == 32 || |Base58.Decode(privateKey).value| == 64)
  {
    if Base58.Decode(privateKey).Ok? {
      AssembledKey(nacl, Base58.Decode(privateKey).value);
    }
  }

  /** A 64-byte secret key is taken as it decodes. */
  lemma FullKeyKept(nacl: Nacl, privateKey: string)
    requires Base58.Decode(privateKey).Ok? && |Base58.Decode(privateKey).value| == 64
    ensures GetKeypair(nacl, privateKey).Ok?
    ensures GetKeypair(nacl, privateKey).value.secretKey == Base58.Decode(privateKey).value
  {
  }

  /** A 32-byte seed becomes seed ‖ public key, the public half being what
      getPublicKey derives from the seed. */
  lemma SeedExtended(nacl: Nacl, privateKey: string)
    requires Base58.Decode(privateKey).Ok? && |Base58.Decode(privateKey).value| == 32
    ensures GetKeypair(nacl, privateKey).Ok?
    ensures GetKeypair(nacl, privateKey).value.secretKey[..32] == Base58.Decode(privateKey).value
    ensures GetKeypair(nacl, privateKey).value.publicKey == nacl.getPublicKey(Base58.Decode(privateKey).value)
  {
    AssembledKey(nacl, Base58.Decode(privateKey).value);
  }

  /** With lib/nacl.js, a key assembled from a seed signs as RFC 8032
      prescribes for that seed. */
  lemma SeedKeySigns(pr: Primitives, privateKey: string, msg: seq<int>)
    requires Base58.Decode(privateKey).Ok? && |Base58.Decode(privateKey).value| == 32
    ensures GetKeypair(TweetNacl(pr), privateKey).Ok?
    ensures Sign(pr, msg, GetKeypair(TweetNacl(pr), privateKey).value.secretKey)
      == SignSpec(pr, msg, Base58.Decode(privateKey).value)
  {
    SeedExtended(TweetNacl(pr), privateKey);
    SignMatchesSpec(pr, msg, GetKeypair(TweetNacl(pr), privateKey).value.secretKey);
  }

  /** publicKeyBase58 decodes back to the public key, unless the key is all
      zero bytes (which Base58.EncodeZeros covers). */
  lemma PublicKeyRoundTrip(nacl: Nacl, privateKey: string)
    requires GetKeypair(nacl, privateKey).Ok?
    requires exists i :: 0 <= i < 32 && GetKeypair(nacl, privateKey).value.publicKey[i] != 0
    ensures Base58.Decode(GetKeypair(nacl, privateKey).value.publicKeyBase58)
      == Ok(GetKeypair(nacl, privateKey).value.publicKey)
  {
    var kp := GetKeypair(nacl, privateKey).value;
    assert IsBytes(kp.publicKey);
    Base58.DecodeEncode(kp.publicKey);
  }

  // ---------------------------------------------------------------------
  // The byte handling of signAndSendTransaction
  // (background/service-worker.js:186-205)

  datatype PatchError = RangeError

  /** Where the message starts: after the count byte and txBytes[0]
      signatures of 64 bytes; `slice` clamps it to the length. */
  function MessageStart(tx: seq<int>): (k: nat)
    requires |tx| > 0 && IsBytes(tx)
    ensures k <= |tx|
  {
    Min(1 + 64 * tx[0], |tx|)
  }

  function Min(a: int, b: int): int
  {
    if a < b then a else b
  }

  /** The bytes after the signature slots, as `txBytes.slice(...)` reads
      them. */
  function Message(tx: seq<int>): (m: seq<int>)
    requires |tx| > 0 && IsBytes(tx)
    ensures IsBytes(m) && |m| == |tx| - MessageStart(tx)
  {
    tx[MessageStart(tx)..]
  }

  /** `set(signature, 1)` on a copy of the transaction: bytes 1..64 become
      the signature and nothing else moves. */
  function Patch(tx: seq<int>, sig: seq<int>): (r: seq<int>)
    requires |tx| >= 65 && |sig| == 64
    ensures SameOutsideSlot(r, tx) && r[1..65] == sig
  {
    tx[..1] + sig + tx[65..]
  }

  /** Two byte strings of one length that agree outside bytes 1..64, the
      first signature slot. */
  predicate SameOutsideSlot(a: seq<int>, b: seq<int>)
  {
    |a| == |b| && forall k :: 0 <= k < |a| && !(1 <= k < 65) ==> a[k] == b[k]
  }

  /** The signed envelope: a copy of the transaction with the signature of
      its message written at offset 1. `set(signature, 1)` throws a
      RangeError when 64 bytes do not fit after offset 1. */
  function SignTransaction(nacl: Nacl, tx: seq<int>, sk: seq<int>): (r: Result<seq<int>, PatchError>)
    requires IsBytes(tx) && |sk| == 64
  {
    if |tx| < 65 then Err(RangeError)
    else Ok(Patch(tx, nacl.sign(Message(tx), sk)))
  }

  /** The patch keeps the length, rewrites exactly bytes 1..64 with the
      signature of the bytes after the signature slots, and fails only on a
      transaction too short for one signature. */
  lemma SignedEnvelope(nacl: Nacl, tx: seq<int>, sk: seq<int>)
    requires IsBytes(tx) && |sk| == 64
    ensures SignTransaction(nacl, tx, sk).Ok? <==> |tx| >= 65
    ensures SignTransaction(nacl, tx, sk).Ok? ==>
      var signed := SignTransaction(nacl, tx, sk).value;
      SameOutsideSlot(signed, tx) && signed[1..65] == nacl.sign(Message(tx), sk)
  {
  }

  /** With lib/nacl.js the slot holds the Ed25519 signature of the message. */
  lemma SignedWithNacl(pr: Primitives, tx: seq<int>, sk: seq<int>)
    requires IsBytes(tx) && |sk| == 64 && |tx| >= 65
    ensures SignTransaction(TweetNacl(pr), tx, sk).Ok?
    ensures SignTransaction(TweetNacl(pr), tx, sk).value[1..65] == Sign(pr, Message(tx), sk)
  {
    SignedEnvelope(TweetNacl(pr), tx, sk);
    TweetSign(pr, Message(tx), sk);
  }

  lemma TweetSign(pr: Primitives, msg: seq<int>, sk: seq<int>)
    requires |sk| == 64
    ensures TweetNacl(pr).sign(msg, sk) == Sign(pr, msg, sk)
  {
    TweetCalls(pr, msg, sk);
  }

  lemma TweetCalls(pr: Primitives, msg: seq<int>, sk: seq<int>)
    ensures TweetNacl(pr).sign(msg, sk) == Detached(pr, msg, sk)
  {
  }

  /** When the declared signature slots fit, the message is exactly the
      bytes after them. */
  lemma MessageAfterSlots(tx: seq<int>)
    requires |tx| > 0 && IsBytes(tx) && 1 + 64 * tx[0] <= |tx|
    ensures Message(tx) == tx[1 + 64 * tx[0]..]
    ensures |Message(tx)| == |tx| - 1 - 64 * tx[0]
  {
  }

  /** Signing the signed envelope again changes nothing when it declares a
      signature slot: the message does not cover the slot being written. */
  lemma ResignStable(nacl: Nacl, tx: seq<int>, sk: seq<int>)
    requires IsBytes(tx) && |sk| == 64 && |tx| >= 65 && tx[0] >= 1
    ensures SignTransaction(nacl, tx, sk).Ok? && IsBytes(SignTransaction(nacl, tx, sk).value)
    ensures SignTransaction(nacl, SignTransaction(nacl, tx, sk).value, sk) == SignTransaction(nacl, tx, sk)
  {
    PatchStable(tx, nacl.sign(Message(tx), sk));
  }

  lemma PatchBytes(tx: seq<int>, sig: seq<int>)
    requires IsBytes(tx) && IsBytes(sig) && |tx| >= 65 && |sig| == 64
    ensures IsBytes(Patch(tx, sig))
  {
    var signed := Patch(tx, sig);
    assert forall k :: 0 <= k < |tx| ==> signed[k] == if 1 <= k < 65 then sig[k - 1] else tx[k];
  }

  /** A patch with byte values leaves bytes, keeps the slot count and the
      message, and writing the same signature again is a no-op. */
  lemma PatchStable(tx: seq<int>, sig: seq<int>)
    requires IsBytes(tx) && IsBytes(sig) && |tx| >= 65 && |sig| == 64 && tx[0] >= 1
    ensures IsBytes(Patch(tx, sig)) && Message(Patch(tx, sig)) == Message(tx)
    ensures Patch(Patch(tx, sig), sig) == Patch(tx, sig)
  {
    var signed := Patch(tx, sig);
    PatchBytes(tx, sig);
    assert MessageStart(signed) == MessageStart(tx);
    assert signed[MessageStart(tx)..] == tx[MessageStart(tx)..];
  }

  // ---------------------------------------------------------------------
  // confirmTransaction (background/service-worker.js:224-241)

  /** The first entry of getSignatureStatuses: `err` is truthy or not. */
  datatype Status = Status(err: bool, confirmationStatus: string)

  /** What one request yields: rpcRequest threw, or the first status (null
      when the signature is unknown). */
  datatype Reply = RequestFailed | Statuses(first: Option<Status>)

  /** One turn of the loop: the clock reading of the loop test that admitted
      it, and the reply of its request. */
  datatype Poll = Poll(at: int, reply: Reply)

  /** How a trace of polls ends: true returned, the timeout thrown, the
      trace ran out while the loop was still polling, or the on-chain
      failure thrown (only the corrected loop below throws it). */
  datatype Outcome = Confirmed | TimedOut | Pending | Failed

  /** The default timeout of confirmTransaction, in milliseconds. */
  const DefaultTimeout: int := 60000

  /** The sleep between two polls, in milliseconds. */
  const PollGap: int := 1500

  /** A status that makes the loop return: no err, and confirmed or
      finalized. A status with err throws inside the try and is swallowed. */
  predicate Settles(reply: Reply)
  {
    reply.Statuses? && reply.first.Some? && !reply.first.value.err
    && reply.first.value.confirmationStatus in {"confirmed", "finalized"}
  }

  predicate InTime(start: int, timeout: int, p: Poll)
  {
    p.at - start < timeout
  }

  /** The loop from poll k on. */
  function ConfirmFrom(start: int, timeout: int, polls: seq<Poll>, k: nat): Outcome
    requires k <= |polls|
    decreases |polls| - k
  {
    if k == |polls| then Pending
    else if !InTime(start, timeout, polls[k]) then TimedOut
    else if Settles(polls[k].reply) then Confirmed
    else ConfirmFrom(start, timeout, polls, k + 1)
  }

  function Confirm(start: int, timeout: int, polls: seq<Poll>): Outcome
  {
    ConfirmFrom(start, timeout, polls, 0)
  }

  /** The loop returns true exactly when some poll settles, every poll up to
      it being in time. */
  lemma ConfirmedIff(start: int, timeout: int, polls: seq<Poll>)
    ensures Confirm(start, timeout, polls) == Confirmed <==>
      exists k :: 0 <= k < |polls| && (forall j :: 0 <= j <= k ==> InTime(start, timeout, polls[j]))
        && Settles(polls[k].reply)
  {
    if Confirm(start, timeout, polls) == Confirmed {
      var k := ConfirmedAt(start, timeout, polls, 0);
    }
    if exists k :: 0 <= k < |polls| && (forall j :: 0 <= j <= k ==> InTime(start, timeout, polls[j]))
        && Settles(polls[k].reply) {
      var k :| 0 <= k < |polls| && (forall j :: 0 <= j <= k ==> InTime(start, timeout, polls[j]))
        && Settles(polls[k].reply);
      SettlesBy(start, timeout, polls, 0, k);
    }
  }

  /** A Confirmed outcome from poll i on names the poll that settled. */
  lemma {:induction false} ConfirmedAt(start: int, timeout: int, polls: seq<Poll>, i: nat) returns (k: nat)
    requires i <= |polls| && ConfirmFrom(start, timeout, polls, i) == Confirmed
    ensures i <= k < |polls| && Settles(polls[k].reply)
    ensures forall j :: i <= j <= k ==> InTime(start, timeout, polls[j])
    decreases |polls| - i
  {
    if Settles(polls[i].reply) {
      k := i;
    } else {
      k := ConfirmedAt(start, timeout, polls, i + 1);
    }
  }

  /** A settling poll k with every poll from i to k in time makes the loop
      from i return true. */
  lemma {:induction false} SettlesBy(start: int, timeout: int, polls: seq<Poll>, i: nat, k: nat)
    requires i <= k < |polls| && Settles(polls[k].reply)
    requires forall j :: i <= j <= k ==> InTime(start, timeout, polls[j])
    ensures ConfirmFrom(start, timeout, polls, i) == Confirmed
    decreases k - i
  {
    if !Settles(polls[i].reply) {
      SettlesBy(start, timeout, polls, i + 1, k);
    }
  }

  /** A status carrying err does not end the loop: polling goes on. */
  lemma ErrorSwallowed(start: int, timeout: int, polls: seq<Poll>, k: nat)
    requires k < |polls| && InTime(start, timeout, polls[k])
    requires polls[k].reply.Statuses? && polls[k].reply.first.Some? && polls[k].reply.first.value.err
    ensures ConfirmFrom(start, timeout, polls, k) == ConfirmFrom(start, timeout, polls, k + 1)
  {
  }

  /** Polls at least PollGap apart, the first no earlier than start. */
  predicate Spaced(start: int, polls: seq<Poll>)
  {
    (|polls| > 0 ==> polls[0].at >= start)
    && forall j :: 0 <= j < |polls| - 1 ==> polls[j + 1].at >= polls[j].at + PollGap
  }

  lemma {:induction false} SpacedAt(start: int, polls: seq<Poll>, j: nat)
    requires Spaced(start, polls) && j < |polls|
    ensures polls[j].at >= start + PollGap * j
  {
    if j > 0 {
      SpacedAt(start, polls, j - 1);
    }
  }

  /** The loop makes at most timeout / 1500 + 1 requests: with the sleeps
      in between, the poll after that is past the deadline. So a trace that
      long always ends in Confirmed or TimedOut. */
  lemma PollsBounded(start: int, timeout: int, polls: seq<Poll>)
    requires Spaced(start, polls) && timeout >= 0
    requires |polls| > timeout / PollGap + 1
    ensures Confirm(start, timeout, polls) != Pending
  {
    var last := timeout / PollGap + 1;
    SpacedAt(start, polls, last);
    DecidedBy(start, timeout, polls, 0, last);
  }

  /** A poll past the deadline at k decides the loop from any i <= k. */
  lemma {:induction false} DecidedBy(start: int, timeout: int, polls: seq<Poll>, i: nat, k: nat)
    requires i <= k < |polls| && !InTime(start, timeout, polls[k])
    ensures ConfirmFrom(start, timeout, polls, i) != Pending
    decreases k - i
  {
    if i < k && InTime(start, timeout, polls[i]) && !Settles(polls[i].reply) {
      DecidedBy(start, timeout, polls, i + 1, k);
    }
  }

  /** As written, the loop never reports an on-chain failure: the throw at
      line 231 is caught by the loop's own catch. */
  lemma {:induction false} NeverFails(start: int, timeout: int, polls: seq<Poll>, i: nat)
    requires i <= |polls|
    ensures ConfirmFrom(start, timeout, polls, i) != Failed
    decreases |polls| - i
  {
    if i < |polls| && InTime(start, timeout, polls[i]) && !Settles(polls[i].reply) {
      NeverFails(start, timeout, polls, i + 1);
    }
  }

  // ---------------------------------------------------------------------
  // The poll loop as its throw intends: an err status ends it

  /** A status reporting that the transaction failed on chain. */
  predicate Fails(reply: Reply)
  {
    reply.Statuses? && reply.first.Some? && reply.first.value.err
  }

  /** The loop from poll k on, with the failure thrown out of the loop
      rather than into its catch. */
  function ConfirmIntendedFrom(start: int, timeout: int, polls: seq<Poll>, k: nat): Outcome
    requires k <= |polls|
    decreases |polls| - k
  {
    if k == |polls| then Pending
    else if !InTime(start, timeout, polls[k]) then TimedOut
    else if Fails(polls[k].reply) then Failed
    else if Settles(polls[k].reply) then Confirmed
    else ConfirmIntendedFrom(start, timeout, polls, k + 1)
  }

  function ConfirmIntended(start: int, timeout: int, polls: seq<Poll>): Outcome
  {
    ConfirmIntendedFrom(start, timeout, polls, 0)
  }

  /** A transaction that landed but failed reports err on every poll. As
      written the loop runs into the timeout; the corrected loop reports
      the failure at the first poll. */
  lemma FailedTransactionTimesOut(start: int, timeout: int)
    requires timeout > 0
    ensures var failed := Statuses(Some(Status(true, "confirmed")));
      var polls := [Poll(start, failed), Poll(start + timeout, failed)];
      Confirm(start, timeout, polls) == TimedOut && ConfirmIntended(start, timeout, polls) == Failed
  {
    var failed := Statuses(Some(Status(true, "confirmed")));
    var polls := [Poll(start, failed), Poll(start + timeout, failed)];
    assert !Settles(polls[0].reply) && Fails(polls[0].reply);
    assert ConfirmFrom(start, timeout, polls, 1) == TimedOut;
  }

  /** The corrected loop throws the failure exactly when some poll fails,
      every poll up to it being in time and none before it settling. */
  lemma FailedIff(start: int, timeout: int, polls: seq<Poll>)
    ensures ConfirmIntended(start, timeout, polls) == Failed <==>
      exists k :: 0 <= k < |polls| && (forall j :: 0 <= j <= k ==> InTime(start, timeout, polls[j]))
        && (forall j :: 0 <= j < k ==> !Settles(polls[j].reply)) && Fails(polls[k].reply)
  {
    if ConfirmIntended(start, timeout, polls) == Failed {
      var k := FailedAt(start, timeout, polls, 0);
    }
    if exists k :: 0 <= k < |polls| && (forall j :: 0 <= j <= k ==> InTime(start, timeout, polls[j]))
        && (forall j :: 0 <= j < k ==> !Settles(polls[j].reply)) && Fails(polls[k].reply) {
      var k :| 0 <= k < |polls| && (forall j :: 0 <= j <= k ==> InTime(start, timeout, polls[j]))
        && (forall j :: 0 <= j < k ==> !Settles(polls[j].reply)) && Fails(polls[k].reply);
      FailsBy(start, timeout, polls, 0, k);
    }
  }

  /** A Failed outcome from poll i on names the poll that failed. */
  lemma {:induction false} FailedAt(start: int, timeout: int, polls: seq<Poll>, i: nat) returns (k: nat)
    requires i <= |polls| && ConfirmIntendedFrom(start, timeout, polls, i) == Failed
    ensures i <= k < |polls| && Fails(polls[k].reply)
    ensures forall j :: i <= j <= k ==> InTime(start, timeout, polls[j])
    ensures forall j :: i <= j < k ==> !Settles(polls[j].reply)
    decreases |polls| - i
  {
    if Fails(polls[i].reply) {
      k := i;
    } else {
      k := FailedAt(start, timeout, polls, i + 1);
    }
  }

  /** A failing poll k, with every poll from i to k in time and none of
      them settling before it, makes the loop from i throw the failure. */
  lemma {:induction false} FailsBy(start: int, timeout: int, polls: seq<Poll>, i: nat, k: nat)
    requires i <= k < |polls| && Fails(polls[k].reply)
    requires forall j :: i <= j <= k ==> InTime(start, timeout, polls[j])
    requires forall j :: i <= j < k ==> !Settles(polls[j].reply)
    ensures ConfirmIntendedFrom(start, timeout, polls, i) == Failed
    decreases k - i
  {
    if !Fails(polls[i].reply) {
      FailsBy(start, timeout, polls, i + 1, k);
    }
  }

  /** Without a failing status the corrected loop ends as the written one
      does. */
  lemma {:induction false} IntendedAgrees(start: int, timeout: int, polls: seq<Poll>, i: nat)
    requires i <= |polls|
    requires forall j :: i <= j < |polls| ==> !Fails(polls[j].reply)
    ensures ConfirmIntendedFrom(start, timeout, polls, i) == ConfirmFrom(start, timeout, polls, i)
    decreases |polls| - i
  {
    if i < |polls| && InTime(start, timeout, polls[i]) && !Settles(polls[i].reply) {
      IntendedAgrees(start, timeout, polls, i + 1);
    }
  }

  // ---------------------------------------------------------------------
  // The mint and amount selection of executeTrade
  // (background/service-worker.js:244-270)

  /** tradeType: 'buy', or anything else, which sells. */
  datatype Side = Buy | Sell

  datatype TradeError = NoWallet | BadKey(error: KeyError) | NoPosition

  /** What the quote request is built from. The amounts are floating point
      (`amount * 1e9` for a buy, `balance * amount / 100 * 10^decimals` for
      a sell) and stay symbolic. */
  datatype Plan = Plan(inputMint: string, outputMint: string, rpcEndpoint: string, keypair: Keypair)

  /** Stored settings as executeTrade reads them; "" is a missing value. */
  datatype Settings = Settings(privateKey: string, rpcEndpoint: string)

  /** executeTrade up to the quote. tokenBalance is what getTokenBalance
      returns for the wallet (0 on any failure); only a sell reads it. */
  function PlanTrade(nacl: Nacl, s: Settings, side: Side, tokenCA: string, tokenBalance: real): (r: Result<Plan, TradeError>)
  {
    if s.privateKey == "" then Err(NoWallet)
    else
      match GetKeypair(nacl, s.privateKey)
      case Err(e) => Err(BadKey(e))
      case Ok(kp) =>
        var rpc := if s.rpcEndpoint == "" then DefaultRpc else s.rpcEndpoint;
        match side
        case Buy => Ok(Plan(SolMint, tokenCA, rpc, kp))
        case Sell => if tokenBalance == 0.0 then Err(NoPosition) else Ok(Plan(tokenCA, SolMint, rpc, kp))
  }

  /** A buy spends SOL for the token and a sell the reverse; a sell with no
      balance stops before any quote, and a missing key before anything. */
  lemma TradeDirection(nacl: Nacl, s: Settings, side: Side, tokenCA: string, tokenBalance: real)
    ensures s.privateKey == "" ==> PlanTrade(nacl, s, side, tokenCA, tokenBalance) == Err(NoWallet)
    ensures PlanTrade(nacl, s, side, tokenCA, tokenBalance).Ok? <==>
      s.privateKey != "" && GetKeypair(nacl, s.privateKey).Ok? && (side.Sell? ==> tokenBalance != 0.0)
    ensures PlanTrade(nacl, s, side, tokenCA, tokenBalance).Ok? ==>
      var p := PlanTrade(nacl, s, side, tokenCA, tokenBalance).value;
      p.keypair == GetKeypair(nacl, s.privateKey).value
      && (side.Buy? ==> p.inputMint == SolMint && p.outputMint == tokenCA)
      && (side.Sell? ==> p.inputMint == tokenCA && p.outputMint == SolMint)
      && p.rpcEndpoint != ""
  {
  }
}
