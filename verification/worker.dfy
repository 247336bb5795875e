/** The bundled service worker (src/service-worker.js): the same keypair
    rules on top of @solana/web3.js, the five-second balance cache in front
    of Jupiter's balance endpoint, the SOL and token readers over its reply,
    and executeTrade with its BigInt sell amount. Every network reply and
    the clock are inputs; the cache is threaded through explicitly. */
module Worker {
  import opened Wrappers
  import opened Positional
  import opened Numeral
  import Base58
  import Background

  // ---------------------------------------------------------------------
  // getKeypair (src/service-worker.js:14-34)

  /** A 64-byte secret key whose second half is not the public key of its
      first half. */
  predicate Mismatched(nacl: Background.Nacl, bytes: seq<int>)
  {
    |bytes| == 64 && bytes[32..] != nacl.getPublicKey(bytes[..32])
  }

  /** Keypair.fromSecretKey, called without skipValidation: it derives the
      public key of the first 32 bytes and throws unless the second 32
      bytes are that key; otherwise it keeps the 64 bytes as given. */
  function FromSecretKey(nacl: Background.Nacl, bytes: seq<int>): (r: Result<Background.Keypair, Background.KeyError>)
    requires |bytes| == 64 && IsBytes(bytes)
    ensures r.Ok? <==> bytes[32..] == nacl.getPublicKey(bytes[..32])
    ensures r.Err? ==> r.error == Background.MismatchedHalves
    ensures r.Ok? ==> r.value.secretKey == bytes && r.value.publicKey == nacl.getPublicKey(bytes[..32])
  {
    var pk := bytes[32..];
    if pk != nacl.getPublicKey(bytes[..32]) then Err(Background.MismatchedHalves)
    else Ok(Background.Keypair(bytes, pk, Base58.Encode(pk)))
  }

  /** Keypair.fromSeed appends the seed's public key to the seed. */
  function FromSeed(nacl: Background.Nacl, seed: seq<int>): (kp: Background.Keypair)
    requires |seed| == 32 && IsBytes(seed)
    ensures kp.secretKey == seed + nacl.getPublicKey(seed) && kp.publicKey == nacl.getPublicKey(seed)
  {
    var pk := nacl.getPublicKey(seed);
    Background.Keypair(seed + pk, pk, Base58.Encode(pk))
  }

  /** getKeypair: 64 bytes are a secret key, 32 bytes a seed, any other
      length throws. */
  function GetKeypair(nacl: Background.Nacl, privateKey: string): (r: Result<Background.Keypair, Background.KeyError>)
  {
    match Base58.Decode(privateKey)
    case Err(_) => Err(Background.InvalidCharacter)
    case Ok(bytes) =>
      if |bytes| == 64 then FromSecretKey(nacl, bytes)
      else if |bytes| == 32 then Ok(FromSeed(nacl, bytes))
      else Err(Background.InvalidLength)
  }

  /** The two workers derive the same keypair from the same string and
      reject the same strings for the same reason, except on a 64-byte key
      with mismatched halves: there this worker throws and the background
      worker accepts the key as it is. */
  lemma SameKeypair(nacl: Background.Nacl, privateKey: string)
    ensures Base58.Decode(privateKey).Ok? && Mismatched(nacl, Base58.Decode(privateKey).value) ==>
      GetKeypair(nacl, privateKey) == Err(Background.MismatchedHalves)
      && Background.GetKeypair(nacl, privateKey).Ok?
      && Background.GetKeypair(nacl, privateKey).value.secretKey == Base58.Decode(privateKey).value
    ensures !(Base58.Decode(privateKey).Ok? && Mismatched(nacl, Base58.Decode(privateKey).value)) ==>
      GetKeypair(nacl, privateKey) == Background.GetKeypair(nacl, privateKey)
  {
    if Base58.Decode(privateKey).Ok? {
      var bytes := Base58.Decode(privateKey).value;
      Background.AssembledKey(nacl, bytes);
      if |bytes| == 32 {
        Background.Joined(bytes, nacl.getPublicKey(bytes));
      }
    }
  }

  /** The halves are checked only on a 64-byte key: the Ultra worker accepts
      exactly the strings the background worker accepts, less the
      mismatched 64-byte keys. */
  lemma AcceptsLess(nacl: Background.Nacl, privateKey: string)
    ensures GetKeypair(nacl, privateKey).Ok? <==>
      Background.GetKeypair(nacl, privateKey).Ok?
      && Base58.Decode(privateKey).Ok? && !Mismatched(nacl, Base58.Decode(privateKey).value)
  {
    SameKeypair(nacl, privateKey);
  }

  // ---------------------------------------------------------------------
  // The balance cache (src/service-worker.js:43-85)

  /** One entry of Jupiter's balance reply; a missing or null field is
      None. */
  datatype Entry = Entry(amount: Option<string>, uiAmount: Option<real>)

  /** The reply body: entries keyed by "SOL" or by mint address. */
  type Balances = map<string, Entry>

  /** balanceCache: the last reply, when it was fetched, and for whom. */
  datatype Cache = Cache(data: Option<Balances>, timestamp: int, address: string)

  /** The initial cache, which forceRefresh also restores. */
  const EmptyCache: Cache := Cache(None, 0, "")

  /** CACHE_TTL, in milliseconds. */
  const CacheTtl: int := 5000

  /** How the fetch ended: a status other than ok, a body with a truthy
      error field, or a body. */
  datatype Response = HttpError(status: int) | ApiError(message: string) | Body(balances: Balances)

  datatype FetchError = Status(code: int) | Api(message: string)

  /** The cache answers: same wallet, data present, younger than the TTL. */
  predicate Hit(c: Cache, publicKey: string, now: int)
  {
    c.address == publicKey && c.data.Some? && now - c.timestamp < CacheTtl
  }

  /** getBalancesFromJupiter at clock reading now, with the reply the fetch
      would get. Returns the result and the cache afterwards. */
  function GetBalances(c: Cache, publicKey: string, now: int, reply: Response): (out: (Result<Balances, FetchError>, Cache))
  {
    if Hit(c, publicKey, now) then (Ok(c.data.value), c)
    else
      match reply
      case HttpError(s) => (Err(Status(s)), c)
      case ApiError(m) => (Err(Api(m)), c)
      case Body(b) => (Ok(b), Cache(Some(b), now, publicKey))
  }

  /** A hit answers from the cache whatever the network would say, and
      keeps the cache. */
  lemma HitIgnoresNetwork(c: Cache, publicKey: string, now: int, reply: Response, other: Response)
    requires Hit(c, publicKey, now)
    ensures GetBalances(c, publicKey, now, reply) == GetBalances(c, publicKey, now, other)
    ensures GetBalances(c, publicKey, now, reply).0 == Ok(c.data.value)
    ensures GetBalances(c, publicKey, now, reply).1 == c
  {
  }

  /** A miss returns the reply: a body is stored with the clock reading
      and the wallet, a failure leaves the cache as it was. */
  lemma MissFetches(c: Cache, publicKey: string, now: int, reply: Response)
    requires !Hit(c, publicKey, now)
    ensures GetBalances(c, publicKey, now, reply).0.Ok? <==> reply.Body?
    ensures reply.Body? ==>
      GetBalances(c, publicKey, now, reply) == (Ok(reply.balances), Cache(Some(reply.balances), now, publicKey))
    ensures !reply.Body? ==> GetBalances(c, publicKey, now, reply).1 == c
  {
  }

  /** After a fetch stores b at time t, a call for the same wallet hits
      exactly while the clock reads below t + 5000 (and not before t - the
      clock is not assumed monotone), and then answers b. */
  lemma FreshFor(c: Cache, publicKey: string, t: int, b: Balances, later: int, reply: Response)
    requires !Hit(c, publicKey, t)
    ensures var c1 := GetBalances(c, publicKey, t, Body(b)).1;
      (Hit(c1, publicKey, later) <==> later < t + CacheTtl)
      && (later < t + CacheTtl ==> GetBalances(c1, publicKey, later, reply).0 == Ok(b))
  {
  }

  /** Another wallet never reads the cached balances. */
  lemma OtherWalletFetches(c: Cache, publicKey: string, now: int, reply: Response)
    requires c.address != publicKey
    ensures GetBalances(c, publicKey, now, reply).0.Ok? <==> reply.Body?
    ensures reply.Body? ==> GetBalances(c, publicKey, now, reply).0 == Ok(reply.balances)
  {
  }

  // ---------------------------------------------------------------------
  // getSolBalance and getTokenBalance (src/service-worker.js:88-117)

  /** `uiAmount || 0`. */
  function UiAmount(e: Entry): real
  {
    if e.uiAmount.Some? then e.uiAmount.value else 0.0
  }

  /** `amount || '0'`: a missing or empty amount reads as "0". */
  function RawAmount(e: Entry): (raw: string)
    ensures raw != ""
    ensures e.amount.Some? && e.amount.value != "" ==> raw == e.amount.value
  {
    if e.amount.Some? && e.amount.value != "" then e.amount.value else "0"
  }

  /** The key Jupiter uses for native SOL, and SOL_MINT (line 10). */
  const SolKey: string := "SOL"
  const SolMint: string := "So11111111111111111111111111111111111111112"

  /** The SOL balance in a reply: the "SOL" entry, else the wrapped-SOL
      mint entry, else 0. */
  function SolBalance(b: Balances): real
  {
    if SolKey in b then UiAmount(b[SolKey])
    else if SolMint in b then UiAmount(b[SolMint])
    else 0.0
  }

  /** The raw amount string and the display amount of one token. */
  datatype TokenAmounts = TokenAmounts(raw: string, uiAmount: real)

  function TokenBalance(b: Balances, mint: string): (t: TokenAmounts)
    ensures t.raw != ""
  {
    if mint in b then TokenAmounts(RawAmount(b[mint]), UiAmount(b[mint]))
    else TokenAmounts("0", 0.0)
  }

  /** The SOL balance reads only the two SOL entries, and "SOL" wins when
      both are present. */
  lemma SolBalanceEntries(b: Balances, b': Balances)
    requires (SolKey in b <==> SolKey in b') && (SolKey in b ==> b[SolKey] == b'[SolKey])
    requires SolKey !in b ==> ((SolMint in b <==> SolMint in b') && (SolMint in b ==> b[SolMint] == b'[SolMint]))
    ensures SolBalance(b) == SolBalance(b')
    ensures SolKey in b ==> SolBalance(b) == UiAmount(b[SolKey])
    ensures SolKey !in b && SolMint !in b ==> SolBalance(b) == 0.0
  {
  }

  /** A token balance reads only its own mint's entry, and a wallet
      without that entry holds nothing. */
  lemma TokenBalanceEntry(b: Balances, b': Balances, mint: string)
    requires (mint in b <==> mint in b') && (mint in b ==> b[mint] == b'[mint])
    ensures TokenBalance(b, mint) == TokenBalance(b', mint)
    ensures mint !in b ==> TokenBalance(b, mint) == TokenAmounts("0", 0.0)
    ensures mint in b && b[mint].uiAmount.Some? ==> TokenBalance(b, mint).uiAmount == b[mint].uiAmount.value
  {
  }

  /** getSolBalance: the balances, through the cache, read for SOL. */
  function GetSolBalance(c: Cache, publicKey: string, now: int, reply: Response): (out: (Result<real, FetchError>, Cache))
    ensures out.1 == GetBalances(c, publicKey, now, reply).1
    ensures Hit(c, publicKey, now) ==> out.0 == Ok(SolBalance(c.data.value))
    ensures !Hit(c, publicKey, now) ==> (out.0.Ok? <==> reply.Body?)
    ensures !Hit(c, publicKey, now) && reply.Body? ==> out.0 == Ok(SolBalance(reply.balances))
  {
    var (r, c1) := GetBalances(c, publicKey, now, reply);
    match r
    case Err(e) => (Err(e), c1)
    case Ok(b) => (Ok(SolBalance(b)), c1)
  }

  /** getTokenBalance; forceRefresh empties the cache first. */
  function GetTokenBalance(c: Cache, publicKey: string, mint: string, now: int, reply: Response, forceRefresh: bool): (out: (Result<TokenAmounts, FetchError>, Cache))
  {
    var c0 := if forceRefresh then EmptyCache else c;
    var (r, c1) := GetBalances(c0, publicKey, now, reply);
    match r
    case Err(e) => (Err(e), c1)
    case Ok(b) => (Ok(TokenBalance(b, mint)), c1)
  }

  /** A forced refresh always asks the network: the result follows the
      reply whatever was cached, and a failed fetch leaves the cache
      empty. */
  lemma ForcedRefresh(c: Cache, publicKey: string, mint: string, now: int, reply: Response)
    ensures var out := GetTokenBalance(c, publicKey, mint, now, reply, true);
      (out.0.Ok? <==> reply.Body?)
      && (reply.Body? ==> out == (Ok(TokenBalance(reply.balances, mint)), Cache(Some(reply.balances), now, publicKey)))
      && (!reply.Body? ==> out.1 == EmptyCache)
  {
  }

  /** Without the refresh, a hit reads the token from the cached reply. */
  lemma TokenFromCache(c: Cache, publicKey: string, mint: string, now: int, reply: Response)
    requires Hit(c, publicKey, now)
    ensures GetTokenBalance(c, publicKey, mint, now, reply, false) == (Ok(TokenBalance(c.data.value, mint)), c)
  {
  }

  // ---------------------------------------------------------------------
  // BigInt arithmetic of the sell amount (src/service-worker.js:265-267)

  datatype ParseError = SyntaxError

  predicate IsDecimal(s: string)
  {
    forall i :: 0 <= i < |s| ==> '0' <= s[i] <= '9'
  }

  function DigitValues(s: string): (d: seq<int>)
    requires IsDecimal(s)
    ensures |d| == |s| && Digits(d, 10)
  {
    seq(|s|, i requires 0 <= i < |s| => s[i] as int - '0' as int)
  }

  /** BigInt of a string of decimal digits; "" reads as 0. */
  function ParseBigInt(s: string): (r: Result<nat, ParseError>)
    ensures r.Ok? <==> IsDecimal(s)
  {
    if IsDecimal(s) then
      ValueBEBounds(DigitValues(s), 10);
      Ok(ValueBE(DigitValues(s), 10))
    else Err(SyntaxError)
  }

  /** The decimal spelling of n, as toString writes it. */
  function Decimal(n: nat): (s: string)
    ensures IsDecimal(s) && s != ""
  {
    if n == 0 then "0" else Spell(Reverse(ToDigits(n, 10)))
  }

  function Spell(d: seq<int>): (s: string)
    requires Digits(d, 10)
    ensures |s| == |d| && IsDecimal(s)
  {
    seq(|d|, i requires 0 <= i < |d| => ('0' as int + d[i]) as char)
  }

  /** BigInt reads back what toString writes. */
  lemma ParseDecimal(n: nat)
    ensures ParseBigInt(Decimal(n)) == Ok(n)
  {
    if n > 0 {
      var ds := Reverse(ToDigits(n, 10));
      SpellReads(ds);
      ValueBEReverse(ToDigits(n, 10), 10);
      ToDigitsValue(n, 10);
    } else {
      assert DigitValues("0") == [0];
    }
  }

  /** Digits spelled out read back as themselves. */
  lemma SpellReads(ds: seq<int>)
    requires Digits(ds, 10)
    ensures ParseBigInt(Spell(ds)) == Ok(ValueBE(ds, 10))
  {
    assert DigitValues(Spell(ds)) == ds;
  }

  /** BigInt `/`: the quotient truncated toward zero. */
  function Quotient(a: int, b: int): (q: int)
    requires b > 0
  {
    if a >= 0 then a / b else -((-a) / b)
  }

  /** `rawBalance * BigInt(Math.floor(amount)) / 100n`. */
  function SellAmount(raw: nat, percent: int): int
  {
    Quotient(raw * percent, 100)
  }

  /** For a non-negative percentage the amount is the floor of
      raw · percent / 100. */
  lemma SellAmountFloor(raw: nat, percent: int)
    requires percent >= 0
    ensures var r := SellAmount(raw, percent);
      r >= 0 && 100 * r <= raw * percent < 100 * r + 100
  {
    MulAtLeastZero(raw, percent);
  }

  lemma MulAtLeastZero(a: nat, b: int)
    requires b >= 0
    ensures a * b >= 0
  {
  }

  /** Selling p% of a balance never sells more than the balance when p is
      at most 100, sells all of it at 100 and none at 0. */
  lemma SellWithinBalance(raw: nat, percent: int)
    requires 0 <= percent <= 100
    ensures 0 <= SellAmount(raw, percent) <= raw
    ensures percent == 100 ==> SellAmount(raw, percent) == raw
    ensures percent == 0 ==> SellAmount(raw, percent) == 0
  {
    SellAmountFloor(raw, percent);
    MulLe(percent, 100, raw);
  }

  /** A larger percentage sells at least as much. */
  lemma SellMonotone(raw: nat, p: int, q: int)
    requires 0 <= p <= q
    ensures SellAmount(raw, p) <= SellAmount(raw, q)
  {
    MulLe(p, q, raw);
    SellAmountFloor(raw, p);
    SellAmountFloor(raw, q);
  }

  /** A negative percentage truncates toward zero: the amount is minus the
      amount of the opposite percentage. */
  lemma SellNegative(raw: nat, percent: int)
    requires percent < 0
    ensures SellAmount(raw, percent) == -SellAmount(raw, -percent)
  {
    assert raw * percent == -(raw * -percent);
    MulAtLeastZero(raw, -percent);
  }

  // ---------------------------------------------------------------------
  // executeTrade (src/service-worker.js:241-298)

  datatype Side = Buy | Sell

  /** Stored settings as executeTrade reads them; "" is a missing value. */
  datatype Settings = Settings(privateKey: string, jupiterApiKey: string)

  /** The amount field of the order: lamports for a buy, the raw token
      amount for a sell. */
  datatype Amount = Lamports(lamports: int) | Raw(units: int)

  datatype OrderRequest = OrderRequest(inputMint: string, outputMint: string, amount: Amount, taker: string)

  /** What createOrder returned: it throws on a bad status or an error
      field, else the order with its base64 transaction. */
  datatype OrderReply = OrderError(message: string) | Order(transaction: string, requestId: string)

  /** What executeOrder returned. */
  datatype ExecReply = ExecError(message: string) | Executed(status: string, error: string, signature: string)

  /** The replies one run of executeTrade meets, in order. `signed` is the
      web3.js signing of the order's transaction: None when it throws. */
  datatype Env = Env(balances: Response, order: OrderReply, signed: Option<string>, exec: ExecReply)

  /** Why executeTrade throws. Failed carries result.error, None standing
      for the built-in default message. */
  datatype TradeError =
    | NoWallet
    | NoApiKey
    | BadKey(error: Background.KeyError)
    | BalanceFailed(cause: FetchError)
    | NoPosition
    | BadRaw
    | OrderFailed(message: string)
    | NoTransaction
    | SignFailed
    | ExecFailed(message: string)
    | Failed(reason: Option<string>)

  const LamportsPerSol: int := 1000000000

  /** The steps before createOrder: the two settings gates, the keypair,
      and for a sell the forced balance read and the BigInt amount. */
  function PlanOrder(nacl: Background.Nacl, s: Settings, side: Side, tokenCA: string, amount: real,
                     c: Cache, now: int, balances: Response): (out: (Result<OrderRequest, TradeError>, Cache))
  {
    if s.privateKey == "" then (Err(NoWallet), c)
    else if s.jupiterApiKey == "" then (Err(NoApiKey), c)
    else
      match GetKeypair(nacl, s.privateKey)
      case Err(e) => (Err(BadKey(e)), c)
      case Ok(kp) =>
        var taker := kp.publicKeyBase58;
        match side
        case Buy => (Ok(OrderRequest(SolMint, tokenCA, Lamports((amount * LamportsPerSol as real).Floor), taker)), c)
        case Sell =>
          var (t, c1) := GetTokenBalance(c, taker, tokenCA, now, balances, true);
          match t
          case Err(e) => (Err(BalanceFailed(e)), c1)
          case Ok(tb) => (SellRequest(tb, tokenCA, amount, taker), c1)
  }

  /** The sell order for a freshly read token balance: none without a
      position, else floor(amount) percent of the raw amount. */
  function SellRequest(tb: TokenAmounts, tokenCA: string, amount: real, taker: string): (r: Result<OrderRequest, TradeError>)
    ensures r.Ok? <==> tb.uiAmount != 0.0 && IsDecimal(tb.raw)
  {
    if tb.uiAmount == 0.0 then Err(NoPosition)
    else
      match ParseBigInt(tb.raw)
      case Err(_) => Err(BadRaw)
      case Ok(raw) => Ok(OrderRequest(tokenCA, SolMint, Raw(SellAmount(raw, amount.Floor)), taker))
  }

  /** createOrder, signTransaction and executeOrder, given their replies. */
  function Finish(env: Env): (r: Result<string, TradeError>)
  {
    match env.order
    case OrderError(m) => Err(OrderFailed(m))
    case Order(tx, _) =>
      if tx == "" then Err(NoTransaction)
      else if env.signed.None? then Err(SignFailed)
      else
        match env.exec
        case ExecError(m) => Err(ExecFailed(m))
        case Executed(status, error, signature) =>
          if status == "Failed" then Err(Failed(if error == "" then None else Some(error)))
          else Ok(signature)
  }

  /** executeTrade: the signature of the executed order, and the balance
      cache afterwards. */
  function ExecuteTrade(nacl: Background.Nacl, s: Settings, side: Side, tokenCA: string, amount: real,
                        c: Cache, now: int, env: Env): (out: (Result<string, TradeError>, Cache))
  {
    var (p, c1) := PlanOrder(nacl, s, side, tokenCA, amount, c, now, env.balances);
    match p
    case Err(e) => (Err(e), c1)
    case Ok(_) => (Finish(env), c1)
  }

  /** The gates in order: no wallet, then no API key, then a bad key; none
      of them touches the cache. */
  lemma TradeGates(nacl: Background.Nacl, s: Settings, side: Side, tokenCA: string, amount: real,
                   c: Cache, now: int, env: Env)
    ensures s.privateKey == "" ==> ExecuteTrade(nacl, s, side, tokenCA, amount, c, now, env) == (Err(NoWallet), c)
    ensures s.privateKey != "" && s.jupiterApiKey == "" ==>
      ExecuteTrade(nacl, s, side, tokenCA, amount, c, now, env) == (Err(NoApiKey), c)
    ensures s.privateKey != "" && s.jupiterApiKey != "" && GetKeypair(nacl, s.privateKey).Err? ==>
      ExecuteTrade(nacl, s, side, tokenCA, amount, c, now, env) == (Err(BadKey(GetKeypair(nacl, s.privateKey).error)), c)
  {
  }

  /** A buy spends floor(amount · 10^9) lamports of SOL for the token and
      reads no balance. */
  lemma BuyOrder(nacl: Background.Nacl, s: Settings, tokenCA: string, amount: real, c: Cache, now: int, balances: Response)
    requires s.privateKey != "" && s.jupiterApiKey != "" && GetKeypair(nacl, s.privateKey).Ok?
    ensures var out := PlanOrder(nacl, s, Buy, tokenCA, amount, c, now, balances);
      out.1 == c && out.0.Ok?
      && out.0.value.inputMint == SolMint && out.0.value.outputMint == tokenCA
      && out.0.value.taker == GetKeypair(nacl, s.privateKey).value.publicKeyBase58
      && out.0.value.amount == Lamports((amount * 1000000000.0).Floor)
  {
  }

  /** A sell always reads a fresh balance and sells floor(amount) percent of
      the raw token amount for SOL; with no position it stops before any
      order. */
  lemma SellOrder(nacl: Background.Nacl, s: Settings, tokenCA: string, amount: real, c: Cache, now: int, b: Balances)
    requires s.privateKey != "" && s.jupiterApiKey != "" && GetKeypair(nacl, s.privateKey).Ok?
    ensures var out := PlanOrder(nacl, s, Sell, tokenCA, amount, c, now, Body(b));
      var pk := GetKeypair(nacl, s.privateKey).value.publicKeyBase58;
      var tb := TokenBalance(b, tokenCA);
      out.1 == Cache(Some(b), now, pk)
      && (out.0.Ok? <==> tb.uiAmount != 0.0 && IsDecimal(tb.raw))
      && (tb.uiAmount == 0.0 ==> out.0 == Err(NoPosition))
      && (out.0.Ok? ==> out.0.value == OrderRequest(tokenCA, SolMint,
            Raw(SellAmount(ParseBigInt(tb.raw).value, amount.Floor)), pk))
  {
    var pk := GetKeypair(nacl, s.privateKey).value.publicKeyBase58;
    ForcedRefresh(c, pk, tokenCA, now, Body(b));
    assert PlanOrder(nacl, s, Sell, tokenCA, amount, c, now, Body(b))
      == (SellRequest(TokenBalance(b, tokenCA), tokenCA, amount, pk), Cache(Some(b), now, pk));
  }

  /** A sell whose balance read fails throws that failure and leaves the
      cache empty. */
  lemma SellFetchFails(nacl: Background.Nacl, s: Settings, tokenCA: string, amount: real, c: Cache, now: int, balances: Response)
    requires s.privateKey != "" && s.jupiterApiKey != "" && GetKeypair(nacl, s.privateKey).Ok?
    requires !balances.Body?
    ensures PlanOrder(nacl, s, Sell, tokenCA, amount, c, now, balances).0.Err?
    ensures PlanOrder(nacl, s, Sell, tokenCA, amount, c, now, balances).0.error.BalanceFailed?
    ensures PlanOrder(nacl, s, Sell, tokenCA, amount, c, now, balances).1 == EmptyCache
  {
  }

  /** The trade returns a signature exactly when an order came back with a
      transaction, signing went through and execution did not report
      'Failed'; the signature is the one executeOrder returned. */
  lemma FinishIff(env: Env)
    ensures Finish(env).Ok? <==>
      env.order.Order? && env.order.transaction != "" && env.signed.Some?
      && env.exec.Executed? && env.exec.status != "Failed"
    ensures Finish(env).Ok? ==> Finish(env).value == env.exec.signature
    ensures env.order.Order? && env.order.transaction != "" && env.signed.Some?
      && env.exec.Executed? && env.exec.status == "Failed"
      ==> Finish(env) == Err(Failed(if env.exec.error == "" then None else Some(env.exec.error)))
  {
  }

  /** A successful trade passed every step before createOrder. */
  lemma TradeSucceeds(nacl: Background.Nacl, s: Settings, side: Side, tokenCA: string, amount: real,
                      c: Cache, now: int, env: Env)
    ensures ExecuteTrade(nacl, s, side, tokenCA, amount, c, now, env).0.Ok? <==>
      PlanOrder(nacl, s, side, tokenCA, amount, c, now, env.balances).0.Ok? && Finish(env).Ok?
    ensures ExecuteTrade(nacl, s, side, tokenCA, amount, c, now, env).1
      == PlanOrder(nacl, s, side, tokenCA, amount, c, now, env.balances).1
  {
  }
}
