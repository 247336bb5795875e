/** The settings popup (popup/popup.js): what the save button accepts and
    stores, and how the stored settings are read back into the form, in
    particular the RPC choice and the Helius API key it recovers from an
    endpoint URL, and the quick-buy amounts with their defaults. */
module Popup {
  import opened Wrappers
  import Base58

  // ---------------------------------------------------------------------
  // String helpers: trim and includes

  /** The characters String.prototype.trim removes: the ECMAScript white
      space and line terminators, with every Zs space. */
  predicate IsSpace(c: char)
  {
    var n := c as int;
    n == 0x09 || n == 0x0A || n == 0x0B || n == 0x0C || n == 0x0D || n == 0x20
    || n == 0xA0 || n == 0x1680 || (0x2000 <= n <= 0x200A) || n == 0x2028
    || n == 0x2029 || n == 0x202F || n == 0x205F || n == 0x3000 || n == 0xFEFF
  }

  /** Neither end is white space. */
  predicate Trimmed(s: string)
  {
    |s| == 0 || (!IsSpace(s[0]) && !IsSpace(s[|s| - 1]))
  }

  predicate AllSpace(s: string)
  {
    forall i :: 0 <= i < |s| ==> IsSpace(s[i])
  }

  function TrimStart(s: string): string
  {
    if |s| > 0 && IsSpace(s[0]) then TrimStart(s[1..]) else s
  }

  function TrimEnd(s: string): string
  {
    if |s| > 0 && IsSpace(s[|s| - 1]) then TrimEnd(s[..|s| - 1]) else s
  }

  /** trimStart drops a run of white space from the front and stops at
      the first other character. */
  lemma {:induction false} TrimStartFacts(s: string)
    ensures |TrimStart(s)| <= |s| && TrimStart(s) == s[|s| - |TrimStart(s)|..]
    ensures AllSpace(s[..|s| - |TrimStart(s)|])
    ensures |TrimStart(s)| == 0 || !IsSpace(TrimStart(s)[0])
  {
    if |s| > 0 && IsSpace(s[0]) {
      var r := TrimStart(s[1..]);
      TrimStartFacts(s[1..]);
      forall k | 0 <= k < |s| - |r|
        ensures IsSpace(s[k])
      {
        if k > 0 {
          assert s[k] == s[1..][..|s| - 1 - |r|][k - 1];
        }
      }
    }
  }

  /** trimEnd drops a run of white space from the back and stops at the
      last other character. */
  lemma {:induction false} TrimEndFacts(s: string)
    ensures |TrimEnd(s)| <= |s| && TrimEnd(s) == s[..|TrimEnd(s)|]
    ensures AllSpace(s[|TrimEnd(s)|..])
    ensures |TrimEnd(s)| == 0 || !IsSpace(TrimEnd(s)[|TrimEnd(s)| - 1])
  {
    if |s| > 0 && IsSpace(s[|s| - 1]) {
      var r := TrimEnd(s[..|s| - 1]);
      TrimEndFacts(s[..|s| - 1]);
      forall k | |r| <= k < |s|
        ensures IsSpace(s[k])
      {
        if k < |s| - 1 {
          assert s[k] == s[..|s| - 1][|r|..][k - |r|];
        }
      }
    }
  }

  /** `trim()`: white space removed from both ends. */
  function Trim(s: string): (r: string)
  {
    TrimEnd(TrimStart(s))
  }

  /** trim leaves a slice of its input with no white space at either end,
      and only white space was removed. */
  lemma TrimSlice(s: string)
    ensures Trimmed(Trim(s))
    ensures exists i, j :: 0 <= i <= j <= |s| && Trim(s) == s[i..j] && AllSpace(s[..i]) && AllSpace(s[j..])
  {
    var t := TrimStart(s);
    var r := TrimEnd(t);
    TrimStartFacts(s);
    TrimEndFacts(t);
    var i := |s| - |t|;
    var j := i + |r|;
    assert r == s[i..j];
    assert s[j..] == t[|r|..];
    if |r| > 0 {
      assert r[0] == t[0];
    }
  }

  /** A trimmed string is its own trim, so trimming twice is trimming
      once. */
  lemma TrimIdempotent(s: string)
    ensures Trim(Trim(s)) == Trim(s)
  {
    TrimSlice(s);
    TrimKeeps(Trim(s));
  }

  lemma TrimKeeps(s: string)
    requires Trimmed(s)
    ensures Trim(s) == s
  {
  }

  /** A field of white space only reads as missing. */
  lemma TrimEmpty(s: string)
    ensures Trim(s) == "" <==> AllSpace(s)
  {
    var t := TrimStart(s);
    TrimStartFacts(s);
    TrimEndFacts(t);
    var n := |s| - |t|;
    assert s == s[..n] + t;
    if Trim(s) == "" {
      assert t[0..] == t;
      assert |t| == 0;
      forall k | 0 <= k < |s|
        ensures IsSpace(s[k])
      {
        assert s[k] == s[..n][k];
      }
    }
  }

  /** `s.includes(t)`. */
  function Contains(s: string, t: string): bool
    decreases |s|
  {
    |t| <= |s| && (s[..|t|] == t || (|s| > 0 && Contains(s[1..], t)))
  }

  /** t occurring at position i makes s include t. */
  lemma {:induction false} ContainsAt(s: string, t: string, i: nat)
    requires i + |t| <= |s| && s[i..i + |t|] == t
    ensures Contains(s, t)
    decreases i
  {
    if i > 0 {
      assert s[1..][i - 1..i - 1 + |t|] == s[i..i + |t|];
      ContainsAt(s[1..], t, i - 1);
    }
  }

  // ---------------------------------------------------------------------
  // The save button (popup/popup.js:75-131)

  /** `/^[1-9A-HJ-NP-Za-km-z]{64,88}$/`. */
  predicate KeyFormat(s: string)
  {
    64 <= |s| <= 88 && forall i :: 0 <= i < |s| ==> Base58.IsSymbol(s[i])
  }

  /** The regular expression's class is the Base58 alphabet, so a key of
      the accepted format always decodes. */
  lemma KeyFormatDecodes(s: string)
    ensures KeyFormat(s) <==> 64 <= |s| <= 88 && Base58.Valid(s)
    ensures KeyFormat(s) ==> Base58.Decode(s).Ok?
  {
    Base58.DecodeMatchesSpec(s);
  }

  /** The Helius endpoint the popup writes for a Helius key. */
  const HeliusPrefix: string := "https://mainnet.helius-rpc.com/?api-key="

  function HeliusUrl(key: string): (url: string)
    ensures |url| == |HeliusPrefix| + |key|
    ensures url[..|HeliusPrefix|] == HeliusPrefix && url[|HeliusPrefix|..] == key
  {
    HeliusPrefix + key
  }

  /** The parsed value of a quick-buy input: NaN, or a number. */
  datatype Parsed = NaN | Num(value: real)

  /** defaultBuyAmounts (popup/popup.js:29). */
  const DefaultBuyAmounts: seq<real> := [0.1, 0.5, 1.0, 1.2]

  /** One input per default amount: NaN or a non-positive value falls back
      to the default at that position. */
  function BuyAmounts(inputs: seq<Parsed>): (amounts: seq<real>)
    requires |inputs| <= |DefaultBuyAmounts|
    ensures |amounts| == |inputs|
  {
    seq(|inputs|, i requires 0 <= i < |inputs| =>
      if inputs[i].NaN? || inputs[i].value <= 0.0 then DefaultBuyAmounts[i] else inputs[i].value)
  }

  /** Every stored amount is positive: an input's own value exactly when it
      is a positive number, else the default at its position. */
  lemma BuyAmountsPositive(inputs: seq<Parsed>)
    requires |inputs| <= |DefaultBuyAmounts|
    ensures forall i :: 0 <= i < |inputs| ==> BuyAmounts(inputs)[i] > 0.0
    ensures forall i :: 0 <= i < |inputs| ==>
      (inputs[i].Num? && inputs[i].value > 0.0 ==> BuyAmounts(inputs)[i] == inputs[i].value)
      && (!(inputs[i].Num? && inputs[i].value > 0.0) ==> BuyAmounts(inputs)[i] == DefaultBuyAmounts[i])
  {
  }

  /** The RPC selector: the Helius and custom options, or a preset whose
      option value is the endpoint. */
  datatype RpcChoice = Helius | Custom | Preset(endpoint: string)

  /** The form fields save reads, as typed. */
  datatype Form = Form(privateKey: string, jupiterApiKey: string, rpc: RpcChoice,
                       heliusApiKey: string, customRpc: string, buyInputs: seq<Parsed>)

  /** The stored fields this model follows. */
  datatype Stored = Stored(privateKey: string, jupiterApiKey: string, rpcEndpoint: string,
                           heliusApiKey: string, buyAmounts: seq<real>)

  /** The messages save stops with, in the order it checks them. */
  datatype SaveError = NoPrivateKey | BadKeyFormat | NoJupiterKey | NoHeliusKey | NoCustomRpc

  /** The save handler up to chrome.storage.local.set. */
  function Save(f: Form): (r: Result<Stored, SaveError>)
    requires |f.buyInputs| <= |DefaultBuyAmounts|
  {
    var privateKey := Trim(f.privateKey);
    var jupiterApiKey := Trim(f.jupiterApiKey);
    if |privateKey| == 0 then Err(NoPrivateKey)
    else if !KeyFormat(privateKey) then Err(BadKeyFormat)
    else if |jupiterApiKey| == 0 then Err(NoJupiterKey)
    else
      var amounts := BuyAmounts(f.buyInputs);
      match f.rpc
      case Helius =>
        var key := Trim(f.heliusApiKey);
        if |key| == 0 then Err(NoHeliusKey)
        else Ok(Stored(privateKey, jupiterApiKey, HeliusUrl(key), key, amounts))
      case Custom =>
        var url := Trim(f.customRpc);
        if |url| == 0 then Err(NoCustomRpc)
        else Ok(Stored(privateKey, jupiterApiKey, url, "", amounts))
      case Preset(url) => Ok(Stored(privateKey, jupiterApiKey, url, "", amounts))
  }

  /** Save stores only a trimmed key of the Base58 format, which therefore
      decodes, together with a Jupiter key. */
  lemma SaveStoresKey(f: Form)
    requires |f.buyInputs| <= |DefaultBuyAmounts| && Save(f).Ok?
    ensures KeyFormat(Save(f).value.privateKey) && Base58.Decode(Save(f).value.privateKey).Ok?
    ensures Save(f).value.privateKey == Trim(f.privateKey) && Save(f).value.jupiterApiKey != ""
  {
    var pk := Trim(f.privateKey);
    assert Save(f).value.privateKey == pk && KeyFormat(pk);
    KeyFormatDecodes(pk);
  }

  /** A Helius choice stores the trimmed key and the URL built from it;
      any other choice stores no Helius key. */
  lemma SaveRpc(f: Form)
    requires |f.buyInputs| <= |DefaultBuyAmounts| && Save(f).Ok?
    ensures f.rpc.Helius? ==>
      Save(f).value.heliusApiKey == Trim(f.heliusApiKey) != ""
      && Save(f).value.rpcEndpoint == HeliusUrl(Save(f).value.heliusApiKey)
    ensures f.rpc.Custom? ==> Save(f).value.heliusApiKey == "" && Save(f).value.rpcEndpoint == Trim(f.customRpc) != ""
    ensures f.rpc.Preset? ==> Save(f).value.heliusApiKey == "" && Save(f).value.rpcEndpoint == f.rpc.endpoint
  {
  }

  /** A key field of white space only is reported as missing. */
  lemma BlankKeyMissing(f: Form)
    requires |f.buyInputs| <= |DefaultBuyAmounts| && AllSpace(f.privateKey)
    ensures Save(f) == Err(NoPrivateKey)
  {
    TrimEmpty(f.privateKey);
  }

  /** The errors come in the handler's order: the key, its format, the
      Jupiter key, then the endpoint. */
  lemma SaveErrorOrder(f: Form)
    requires |f.buyInputs| <= |DefaultBuyAmounts|
    ensures Save(f) == Err(NoPrivateKey) <==> Trim(f.privateKey) == ""
    ensures Save(f) == Err(BadKeyFormat) <==> Trim(f.privateKey) != "" && !KeyFormat(Trim(f.privateKey))
    ensures Save(f) == Err(NoJupiterKey) <==> KeyFormat(Trim(f.privateKey)) && Trim(f.jupiterApiKey) == ""
    ensures Save(f) == Err(NoHeliusKey) <==>
      KeyFormat(Trim(f.privateKey)) && Trim(f.jupiterApiKey) != "" && f.rpc.Helius? && Trim(f.heliusApiKey) == ""
    ensures Save(f) == Err(NoCustomRpc) <==>
      KeyFormat(Trim(f.privateKey)) && Trim(f.jupiterApiKey) != "" && f.rpc.Custom? && Trim(f.customRpc) == ""
  {
  }

  // ---------------------------------------------------------------------
  // Loading the settings back (popup/popup.js:189-245)

  const KeyParam: string := "api-key="

  /** The regular expression `/api-key=([^&]+)/` matches at p. */
  predicate MatchAt(s: string, p: nat)
  {
    p + |KeyParam| < |s| && s[p..p + |KeyParam|] == KeyParam && s[p + |KeyParam|] != '&'
  }

  /** The longest run of characters other than '&' from i on. */
  function RunFrom(s: string, i: nat): (r: string)
    requires i <= |s|
    ensures |r| <= |s| - i && r == s[i..i + |r|]
    ensures forall k :: 0 <= k < |r| ==> r[k] != '&'
    ensures i + |r| == |s| || s[i + |r|] == '&'
    decreases |s| - i
  {
    if i < |s| && s[i] != '&' then [s[i]] + RunFrom(s, i + 1) else []
  }

  /** The leftmost match at or after p, and its captured group. */
  function ExtractFrom(s: string, p: nat): Option<string>
    decreases |s| - p
  {
    if p >= |s| then None
    else if MatchAt(s, p) then Some(RunFrom(s, p + |KeyParam|))
    else ExtractFrom(s, p + 1)
  }

  /** `rpcEndpoint.match(/api-key=([^&]+)/)[1]`, None when nothing
      matches: the run after the leftmost occurrence of "api-key=" that
      is followed by a character other than '&'. */
  function ExtractKey(s: string): (r: Option<string>)
    ensures r.Some? ==> r.value != "" && forall k :: 0 <= k < |r.value| ==> r.value[k] != '&'
    ensures r.None? <==> forall q: nat :: !MatchAt(s, q)
    ensures r.Some? ==> exists q: nat :: MatchAt(s, q) && (forall k: nat :: k < q ==> !MatchAt(s, k))
                                 && r.value == RunFrom(s, q + |KeyParam|)
  {
    ExtractMatches(s, 0);
    ExtractNone(s, 0);
    ExtractFrom(s, 0)
  }

  /** A result is the run after the first match at or after p. */
  lemma {:induction false} ExtractMatches(s: string, p: nat)
    ensures ExtractFrom(s, p).Some? ==>
      exists q: nat :: p <= q && MatchAt(s, q) && (forall k: nat :: p <= k < q ==> !MatchAt(s, k))
                       && ExtractFrom(s, p) == Some(RunFrom(s, q + |KeyParam|))
    decreases |s| - p
  {
    if p < |s| && !MatchAt(s, p) {
      ExtractMatches(s, p + 1);
      if ExtractFrom(s, p).Some? {
        var q: nat :| p + 1 <= q && MatchAt(s, q) && (forall k: nat :: p + 1 <= k < q ==> !MatchAt(s, k))
                      && ExtractFrom(s, p + 1) == Some(RunFrom(s, q + |KeyParam|));
        assert forall k: nat :: p <= k < q ==> !MatchAt(s, k);
      }
    }
  }

  /** Nothing is extracted from p on exactly when nothing matches from p
      on. */
  lemma {:induction false} ExtractNone(s: string, p: nat)
    ensures ExtractFrom(s, p).None? <==> forall q: nat :: p <= q ==> !MatchAt(s, q)
    decreases |s| - p
  {
    if p < |s| && !MatchAt(s, p) {
      ExtractNone(s, p + 1);
    }
  }

  /** Scanning from p stops at the first match q and captures its run. */
  lemma {:induction false} ExtractFirst(s: string, p: nat, q: nat)
    requires p <= q && MatchAt(s, q)
    requires forall k: nat :: p <= k < q ==> !MatchAt(s, k)
    ensures ExtractFrom(s, p) == Some(RunFrom(s, q + |KeyParam|))
  {
    SkipTo(s, p, q);
  }

  /** What loadSettings puts in the form. rpc is None when it leaves the
      selector at the page default; the two key fields are "" when it
      leaves them empty. */
  datatype View = View(privateKey: string, jupiterApiKey: string, rpc: Option<RpcChoice>,
                       heliusApiKey: string, customRpc: string, amounts: seq<real>)

  /** The selector and the two RPC fields as loadSettings restores them. */
  function RestoreRpc(rpcEndpoint: string, heliusApiKey: string): (out: (Option<RpcChoice>, string, string))
  {
    if |heliusApiKey| > 0 then (Some(Helius), heliusApiKey, "")
    else if |rpcEndpoint| > 0 && Contains(rpcEndpoint, "helius") then
      match ExtractKey(rpcEndpoint)
      case Some(key) => (Some(Helius), key, "")
      case None => (Some(Helius), "", "")
    else if |rpcEndpoint| > 0 && !Contains(rpcEndpoint, "mainnet-beta") then (Some(Custom), "", rpcEndpoint)
    else (None, "", "")
  }

  /** The quick-buy amounts: `settings.buyAmounts || defaults`, then
      `amounts[i] || defaults[i]` for each of the four inputs. */
  function LoadAmounts(stored: Option<seq<real>>): (amounts: seq<real>)
    ensures |amounts| == |DefaultBuyAmounts|
  {
    var a := if stored.Some? then stored.value else DefaultBuyAmounts;
    seq(|DefaultBuyAmounts|, i requires 0 <= i < |DefaultBuyAmounts| =>
      if i < |a| && a[i] != 0.0 then a[i] else DefaultBuyAmounts[i])
  }

  /** loadSettings for stored settings, buyAmounts absent in settings
      older than the field. */
  function Load(st: Stored, hasAmounts: bool): View
  {
    var rpc := RestoreRpc(st.rpcEndpoint, st.heliusApiKey);
    View(st.privateKey, st.jupiterApiKey, rpc.0, rpc.1, rpc.2,
         LoadAmounts(if hasAmounts then Some(st.buyAmounts) else None))
  }

  /** "api-key=" first occurs at the end of the Helius prefix. */
  lemma NoEarlierMatch(key: string)
    ensures forall p :: 0 <= p < |HeliusPrefix| - |KeyParam| ==> !MatchAt(HeliusUrl(key), p)
  {
    var s := HeliusUrl(key);
    forall p | 0 <= p < |HeliusPrefix| - |KeyParam|
      ensures !MatchAt(s, p)
    {
      assert s[p] == HeliusPrefix[p] && s[p + 1] == HeliusPrefix[p + 1];
    }
  }

  /** Scanning from p finds nothing before q when no position in between
      matches. */
  lemma {:induction false} SkipTo(s: string, p: nat, q: nat)
    requires p <= q <= |s|
    requires forall k :: p <= k < q ==> !MatchAt(s, k)
    ensures ExtractFrom(s, p) == ExtractFrom(s, q)
    decreases q - p
  {
    if p < q {
      SkipTo(s, p + 1, q);
    }
  }

  /** Without an '&' ahead, the run is the whole rest. */
  lemma RunToEnd(s: string, i: nat)
    requires i <= |s| && forall k :: i <= k < |s| ==> s[k] != '&'
    ensures RunFrom(s, i) == s[i..]
  {
  }

  /** The key the popup builds a Helius URL from is the key it extracts
      from that URL again, provided it is non-empty and has no '&'. */
  lemma HeliusKeyRoundTrip(key: string)
    requires key != "" && forall k :: 0 <= k < |key| ==> key[k] != '&'
    ensures ExtractKey(HeliusUrl(key)) == Some(key)
  {
    var s := HeliusUrl(key);
    var q := |HeliusPrefix| - |KeyParam|;
    NoEarlierMatch(key);
    SkipTo(s, 0, q);
    assert s[q..q + |KeyParam|] == HeliusPrefix[q..] == KeyParam;
    assert s[q + |KeyParam|] == key[0];
    assert MatchAt(s, q);
    RunToEnd(s, |HeliusPrefix|);
  }

  /** A Helius URL includes "helius". */
  lemma HeliusUrlNamesHelius(key: string)
    ensures Contains(HeliusUrl(key), "helius")
  {
    var s := HeliusUrl(key);
    forall k | 0 <= k < 6
      ensures s[16 + k] == "helius"[k]
    {
      assert s[16 + k] == HeliusPrefix[16 + k];
    }
    assert s[16..22] == "helius";
    ContainsAt(s, "helius", 16);
  }

  /** Saving then loading gives back the key, the Jupiter key, the Helius
      key of a Helius choice, and the amounts saved. */
  lemma SaveLoad(f: Form)
    requires |f.buyInputs| == |DefaultBuyAmounts| && Save(f).Ok?
    ensures var v := Load(Save(f).value, true);
      v.privateKey == Trim(f.privateKey) && v.jupiterApiKey == Trim(f.jupiterApiKey)
      && (f.rpc.Helius? ==> v.rpc == Some(Helius) && v.heliusApiKey == Trim(f.heliusApiKey))
      && v.amounts == BuyAmounts(f.buyInputs)
  {
    var st := Save(f).value;
    assert st.privateKey == Trim(f.privateKey) && st.jupiterApiKey == Trim(f.jupiterApiKey);
    assert st.buyAmounts == BuyAmounts(f.buyInputs);
    SaveRpc(f);
    AmountsRoundTrip(f.buyInputs);
  }

  /** Saved amounts load back unchanged: none of them is 0. */
  lemma AmountsRoundTrip(inputs: seq<Parsed>)
    requires |inputs| == |DefaultBuyAmounts|
    ensures LoadAmounts(Some(BuyAmounts(inputs))) == BuyAmounts(inputs)
  {
    BuyAmountsPositive(inputs);
  }

  /** Settings saved before the Helius key field existed: the key comes
      back out of the endpoint URL. */
  lemma LegacyHeliusLoad(st: Stored, key: string, hasAmounts: bool)
    requires st.heliusApiKey == "" && st.rpcEndpoint == HeliusUrl(key)
    requires key != "" && forall k :: 0 <= k < |key| ==> key[k] != '&'
    ensures Load(st, hasAmounts).rpc == Some(Helius) && Load(st, hasAmounts).heliusApiKey == key
  {
    HeliusUrlNamesHelius(key);
    HeliusKeyRoundTrip(key);
  }

  /** A custom endpoint comes back as a custom choice exactly when it names
      neither helius nor mainnet-beta. */
  lemma CustomLoad(st: Stored, hasAmounts: bool)
    requires st.heliusApiKey == "" && st.rpcEndpoint != ""
    ensures Load(st, hasAmounts).rpc == Some(Custom) <==>
      !Contains(st.rpcEndpoint, "helius") && !Contains(st.rpcEndpoint, "mainnet-beta")
    ensures Load(st, hasAmounts).rpc == Some(Custom) ==> Load(st, hasAmounts).customRpc == st.rpcEndpoint
  {
  }

  /** Missing amounts load as the defaults. */
  lemma DefaultsWhenMissing()
    ensures LoadAmounts(None) == DefaultBuyAmounts
  {
  }
}
