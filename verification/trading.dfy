/** Trade offers and their mobile confirmation
    (steam-inventory-manager/classes/account.py `trade`, `accept_trade`,
    `_confirm_trade`, `_create_confirmation_params`, `_fetch_confirmations`).
    The confirmation page arrives already parsed: its text, whether it shows
    the "no confirmations" marker, and the attributes of each list entry. */
module Trading {
  import opened Wrappers
  import opened Errors
  import opened Text
  import opened Decimal
  import opened Json
  import opened Effects
  import opened Session
  import Items
  import SteamGuard

  // ---------------------------------------------------------------------------
  // _create_confirmation_params
  // ---------------------------------------------------------------------------

  /** `generate_device_id(self.steam_id64)`: `int(None)` raises while the
      steam id is unknown. */
  function DeviceIdOf(p: SteamGuard.Primitives, steamId64: Option<int>): (r: Result<string, Error>)
    ensures r.Ok? <==> steamId64.Some?
    ensures r.Ok? ==> r.value == SteamGuard.DeviceId(p, steamId64.value)
  {
    match steamId64
    case None => Err(TypeError(IntOfNoneMessage))
    case Some(id) => Ok(SteamGuard.DeviceId(p, id))
  }

  /** `_create_confirmation_params(tag)` at time `t`, with the confirmation
      code computed from the identity secret, the tag and that same time. */
  function ConfirmationParams(a: Account, p: SteamGuard.Primitives, tag: string, t: int): (r: Result<ConfParams, Error>)
    ensures r.Ok? <==> a.steamId64.Some? && SteamGuard.ConfirmationCode(p, a.identitySecret, tag, t).Ok?
    ensures a.steamId64.None? ==> r.Err? && r.error.TypeError?
    ensures r.Ok? ==>
      && r.value.steamId64 == a.steamId64.value
      && r.value.deviceId == SteamGuard.DeviceId(p, a.steamId64.value)
      && r.value.key == SteamGuard.ConfirmationCode(p, a.identitySecret, tag, t).value
      && r.value.time == t && r.value.tag == tag
  {
    var deviceId :- DeviceIdOf(p, a.steamId64);
    var key :- SteamGuard.ConfirmationCode(p, a.identitySecret, tag, t);
    Ok(ConfParams(deviceId, a.steamId64.value, key, t, tag))
  }

  // ---------------------------------------------------------------------------
  // _fetch_confirmations
  // ---------------------------------------------------------------------------

  /** Attributes of one `.mobileconf_list_entry` element. */
  datatype RawEntry = RawEntry(
    id: Option<string>,
    dataConfId: Option<string>,
    dataKey: Option<string>,
    dataCreator: Option<string>)

  /** The confirmation page: its text, whether `#mobileconf_empty` is present,
      and the entries of `#mobileconf_list`. */
  datatype ConfPage = ConfPage(body: string, emptyMarker: bool, entries: seq<RawEntry>)

  const BadSecretMarker := "incorrect Steam Guard codes."
  const ErrorPageMarker := "Oh nooooooes!"
  const ConfIdMarker := "conf"
  /** The tags the confirmation list and the allow request are signed for. */
  const ListTag := "conf"
  const AllowTag := "allow"

  /** The errors the fetch and the allow request raise. */
  const BadSecret := CredentialsError("identity_secret is incorrect")
  const FailedTrade := TradeError("Failed to accept trade.")

  /** `int(entry.get("data-creator", 0))`: the trade the entry confirms. */
  function CreatorOf(e: RawEntry): (r: Result<int, Error>)
    ensures e.dataCreator.None? ==> r == Ok(0)
    ensures e.dataCreator.Some? ==> (r.Ok? <==> ParseInt(e.dataCreator.value).Some?)
    ensures e.dataCreator.Some? && r.Ok? ==> ParseInt(e.dataCreator.value) == Some(r.value)
    ensures r.Err? ==> r.error.ValueError?
  {
    match e.dataCreator
    case None => Ok(0)
    case Some(s) =>
      match ParseInt(s)
      case None => Err(ValueError(InvalidIntMessage(s)))
      case Some(n) => Ok(n)
  }

  /** One pass of the entry loop: the attributes are read in the source's
      order, so the first one missing or malformed decides the error. */
  function ParseEntry(e: RawEntry): (r: Result<Items.TradeConfirmation, Error>)
    ensures r.Ok? <==>
      && e.dataConfId.Some? && e.dataKey.Some? && CreatorOf(e).Ok?
      && e.id.Some? && Contains(e.id.value, ConfIdMarker)
    ensures e.dataConfId.None? ==> r == Err(KeyError("data-confid"))
    ensures e.dataConfId.Some? && e.dataKey.None? ==> r == Err(KeyError("data-key"))
    ensures e.dataConfId.Some? && e.dataKey.Some? && CreatorOf(e).Err? ==> r == Err(CreatorOf(e).error)
    ensures e.dataConfId.Some? && e.dataKey.Some? && CreatorOf(e).Ok? && e.id.None? ==> r == Err(KeyError("id"))
    ensures e.dataConfId.Some? && e.dataKey.Some? && CreatorOf(e).Ok? && e.id.Some? ==>
      (!Contains(e.id.value, ConfIdMarker) ==> r == Err(IndexError(IndexRangeMessage)))
    ensures r.Ok? ==>
      && r.value.dataConfId == e.dataConfId.value
      && r.value.dataKey == e.dataKey.value
      && Ok(r.value.tradeId) == CreatorOf(e)
      && |Split(e.id.value, ConfIdMarker)| >= 2
      && r.value.id == Split(e.id.value, ConfIdMarker)[1]
      && !Contains(r.value.id, ConfIdMarker)
  {
    match e.dataConfId
    case None => Err(KeyError("data-confid"))
    case Some(confId) =>
      match e.dataKey
      case None => Err(KeyError("data-key"))
      case Some(key) =>
        var tradeId :- CreatorOf(e);
        match e.id
        case None => Err(KeyError("id"))
        case Some(elementId) =>
          var pieces := Split(elementId, ConfIdMarker);
          SplitPiecesFree(elementId, ConfIdMarker);
          if |pieces| < 2 then Err(IndexError(IndexRangeMessage))
          else Ok(Items.TradeConfirmation(pieces[1], confId, key, tradeId))
  }

  /** The element id "conf<n>" yields the confirmation id "<n>". */
  lemma ParseEntryConfirmationId(e: RawEntry, n: string)
    requires e.dataConfId.Some? && e.dataKey.Some? && CreatorOf(e).Ok?
    requires e.id == Some(ConfIdMarker + n) && !Contains(n, ConfIdMarker)
    ensures ParseEntry(e).Ok? && ParseEntry(e).value.id == n
  {
    var s := ConfIdMarker + n;
    assert OccursAt(s, ConfIdMarker, 0);
    assert s[4..] == n;
    assert Split(s, ConfIdMarker) == [""] + Split(n, ConfIdMarker);
  }

  type Confirmations = map<int, Items.TradeConfirmation>

  /** The entry loop, with `parse` the loop body's reading of one entry
      (`ParseEntry`): each parsed entry is stored under its trade id; the
      first failure stops the loop with the earlier entries already stored. */
  function StoreEntries(m: Confirmations, entries: seq<RawEntry>, parse: RawEntry -> Result<Items.TradeConfirmation, Error>)
    : (r: (Confirmations, Result<(), Error>))
    ensures m.Keys <= r.0.Keys
    ensures r.1.Ok? <==> forall i :: 0 <= i < |entries| ==> parse(entries[i]).Ok?
    ensures r.1.Err? ==>
      exists i :: 0 <= i < |entries| && parse(entries[i]) == Err(r.1.error) &&
        (forall j :: 0 <= j < i ==> parse(entries[j]).Ok?)
    ensures forall k :: k in r.0 && (k !in m || r.0[k] != m[k]) ==>
      exists i :: 0 <= i < |entries| && parse(entries[i]) == Ok(r.0[k]) && r.0[k].tradeId == k
    decreases |entries|
  {
    if |entries| == 0 then (m, Ok(()))
    else
      match parse(entries[0])
      case Err(e) => (m, Err(e))
      case Ok(c) =>
        var tail := entries[1..];
        var r := StoreEntries(m[c.tradeId := c], tail, parse);
        assert forall i :: 1 <= i < |entries| ==> tail[i - 1] == entries[i];
        r
  }

  /** At the first entry that does not parse the loop stops: the map holds
      exactly what the entries before it stored, and none after it. */
  lemma {:induction false} StoreEntriesStopsAt(m: Confirmations, entries: seq<RawEntry>,
    parse: RawEntry -> Result<Items.TradeConfirmation, Error>, i: int)
    requires 0 <= i < |entries| && parse(entries[i]).Err?
    requires forall j :: 0 <= j < i ==> parse(entries[j]).Ok?
    ensures StoreEntries(m, entries[..i], parse).1 == Ok(())
    ensures StoreEntries(m, entries, parse) == (StoreEntries(m, entries[..i], parse).0, Err(parse(entries[i]).error))
    decreases i
  {
    if i == 0 {
      assert entries[..0] == [];
    } else {
      var c := parse(entries[0]).value;
      var tail := entries[1..];
      assert forall j :: 0 <= j < i - 1 ==> tail[j] == entries[j + 1];
      StoreEntriesStopsAt(m[c.tradeId := c], tail, parse, i - 1);
      var prefix := entries[..i];
      assert prefix[0] == entries[0] && prefix[1..] == tail[..i - 1];
    }
  }

  /** The confirmation the last entry for trade `k` describes, if any. */
  function LastFor(confs: seq<Items.TradeConfirmation>, k: int): Option<Items.TradeConfirmation>
  {
    if |confs| == 0 then None
    else if confs[|confs| - 1].tradeId == k then Some(confs[|confs| - 1])
    else LastFor(confs[..|confs| - 1], k)
  }

  /** When every entry parses, each trade id on the page maps to its last
      entry and every other id keeps its old confirmation. */
  lemma {:induction false} StoreEntriesLastWins(m: Confirmations, entries: seq<RawEntry>,
    parse: RawEntry -> Result<Items.TradeConfirmation, Error>, confs: seq<Items.TradeConfirmation>)
    requires |confs| == |entries|
    requires forall i :: 0 <= i < |entries| ==> parse(entries[i]) == Ok(confs[i])
    ensures StoreEntries(m, entries, parse).1 == Ok(())
    ensures forall k :: LastFor(confs, k).Some? ==>
      k in StoreEntries(m, entries, parse).0 && StoreEntries(m, entries, parse).0[k] == LastFor(confs, k).value
    ensures forall k :: LastFor(confs, k).None? ==>
      (k in StoreEntries(m, entries, parse).0 <==> k in m) &&
      (k in m ==> StoreEntries(m, entries, parse).0[k] == m[k])
    decreases |entries|
  {
    if |entries| > 0 {
      var n := |entries|;
      var init, cinit, c := entries[..n - 1], confs[..n - 1], confs[n - 1];
      assert forall i :: 0 <= i < n - 1 ==> parse(init[i]) == Ok(cinit[i]);
      StoreEntriesLastWins(m, init, parse, cinit);
      StoreEntriesSnoc(m, init, entries[n - 1], parse);
      assert init + [entries[n - 1]] == entries;
      var prev := StoreEntries(m, init, parse).0;
      assert StoreEntries(m, entries, parse).0 == prev[c.tradeId := c];
      assert confs == cinit + [c];
      LastWinsStep(m, prev, cinit, c);
    }
  }

  /** One more stored entry: the step of `StoreEntriesLastWins`. */
  lemma LastWinsStep(m: Confirmations, prev: Confirmations, cinit: seq<Items.TradeConfirmation>,
                     c: Items.TradeConfirmation)
    requires forall k :: LastFor(cinit, k).Some? ==> k in prev && prev[k] == LastFor(cinit, k).value
    requires forall k :: LastFor(cinit, k).None? ==> (k in prev <==> k in m) && (k in m ==> prev[k] == m[k])
    ensures forall k :: LastFor(cinit + [c], k).Some? ==>
      k in prev[c.tradeId := c] && prev[c.tradeId := c][k] == LastFor(cinit + [c], k).value
    ensures forall k :: LastFor(cinit + [c], k).None? ==>
      (k in prev[c.tradeId := c] <==> k in m) && (k in m ==> prev[c.tradeId := c][k] == m[k])
  {
    var confs := cinit + [c];
    assert confs[..|confs| - 1] == cinit;
    forall k ensures LastFor(confs, k) == if k == c.tradeId then Some(c) else LastFor(cinit, k) {
    }
  }

  lemma {:induction false} StoreEntriesSnoc(m: Confirmations, init: seq<RawEntry>, last: RawEntry,
    parse: RawEntry -> Result<Items.TradeConfirmation, Error>)
    requires StoreEntries(m, init, parse).1.Ok? && parse(last).Ok?
    ensures var c := parse(last).value;
      StoreEntries(m, init + [last], parse) == (StoreEntries(m, init, parse).0[c.tradeId := c], Ok(()))
    decreases |init|
  {
    var s := init + [last];
    var c := parse(last).value;
    if |init| == 0 {
      assert s[1..] == [];
      assert s[0] == last;
    } else {
      var c0 := parse(init[0]).value;
      var m0 := m[c0.tradeId := c0];
      assert s[0] == init[0];
      assert s[1..] == init[1..] + [last];
      assert StoreEntries(m, s, parse) == StoreEntries(m0, s[1..], parse);
      assert StoreEntries(m, init, parse) == StoreEntries(m0, init[1..], parse);
      StoreEntriesSnoc(m0, init[1..], last, parse);
    }
  }

  /** `_fetch_confirmations` at time `t`: only the stored confirmations change. */
  function FetchConfirmations(a: Account, page: ConfPage, t: int, p: SteamGuard.Primitives)
    : (r: (Account, Result<(), Error>, seq<Effect>))
    ensures r.0 == a.(confirmations := r.0.confirmations)
    ensures a.confirmations.Keys <= r.0.confirmations.Keys
    ensures ConfirmationParams(a, p, ListTag, t).Err? ==>
      r == (a, Err(ConfirmationParams(a, p, ListTag, t).error), [])
    ensures ConfirmationParams(a, p, ListTag, t).Ok? ==>
      r.2 == [ConfListFetch(ConfirmationParams(a, p, ListTag, t).value)]
    ensures ConfirmationParams(a, p, ListTag, t).Ok? && Contains(page.body, BadSecretMarker) ==>
      r.1 == Err(BadSecret) && r.0 == a
    ensures ConfirmationParams(a, p, ListTag, t).Ok? && !Contains(page.body, BadSecretMarker) &&
            Contains(page.body, ErrorPageMarker) ==>
      r.1 == Err(FailedTrade) && r.0 == a
    ensures page.emptyMarker ==> r.0 == a
    ensures ConfirmationParams(a, p, ListTag, t).Ok? && !Contains(page.body, BadSecretMarker) &&
            !Contains(page.body, ErrorPageMarker) ==>
      (r.0.confirmations, r.1) ==
        if page.emptyMarker then (a.confirmations, Ok(()))
        else StoreEntries(a.confirmations, page.entries, ParseEntry)
  {
    match ConfirmationParams(a, p, ListTag, t)
    case Err(e) => (a, Err(e), [])
    case Ok(params) =>
      var effects := [ConfListFetch(params)];
      if Contains(page.body, BadSecretMarker) then (a, Err(BadSecret), effects)
      else if Contains(page.body, ErrorPageMarker) then (a, Err(FailedTrade), effects)
      else if page.emptyMarker then (a, Ok(()), effects)
      else
        var (m, outcome) := StoreEntries(a.confirmations, page.entries, ParseEntry);
        (a.(confirmations := m), outcome, effects)
  }

  // ---------------------------------------------------------------------------
  // _confirm_trade
  // ---------------------------------------------------------------------------

  /** What `_confirm_trade` reads from outside when a confirmation is needed:
      the clock at the fetch, the confirmation page, the clock at the allow
      request, and whether Steam reported success. */
  datatype ConfirmEnv = ConfirmEnv(fetchTime: int, page: ConfPage, allowTime: int, allowSuccess: bool)

  /** `_confirm_trade`. At most two requests: the confirmation list first,
      then the allow request, made only for the confirmation stored under the
      trade's id, signed for the "allow" tag at the allow time; Steam's
      refusal of it is a trade error, and success needs it. */
  function ConfirmTrade(a: Account, tradeId: int, needsMobile: bool, env: ConfirmEnv, p: SteamGuard.Primitives)
    : (r: (Account, Result<(), Error>, seq<Effect>))
    ensures r.0 == a.(confirmations := r.0.confirmations)
    ensures !needsMobile ==> r == (a, Ok(()), [])
    ensures |r.2| <= 2
    ensures |r.2| > 0 ==> r.2[0].ConfListFetch?
    ensures r.1.Ok? && needsMobile ==> |r.2| == 2
    ensures |r.2| == 2 ==>
      r.2[1].ConfAllow? && AllowsTrade(r.0, tradeId, env.allowTime, p, r.2[1]) && (r.1.Ok? <==> env.allowSuccess)
    ensures needsMobile ==>
      var f := FetchConfirmations(a, env.page, env.fetchTime, p);
      && (f.1.Err? ==> r == f)
      && (f.1.Ok? ==> r == Allow(f.0, tradeId, env, p, f.2))
  {
    if !needsMobile then (a, Ok(()), []) else ConfirmNeeded(a, tradeId, env, p)
  }

  /** The part of `_confirm_trade` after the offer asked for a mobile
      confirmation: fetch the confirmations, then allow the trade's one. */
  function ConfirmNeeded(a: Account, tradeId: int, env: ConfirmEnv, p: SteamGuard.Primitives)
    : (r: (Account, Result<(), Error>, seq<Effect>))
    ensures r.0 == a.(confirmations := r.0.confirmations)
    ensures |r.2| <= 2
    ensures |r.2| > 0 ==> r.2[0].ConfListFetch?
    ensures r.1.Ok? ==> |r.2| == 2 && r.2[1].ConfAllow?
    ensures |r.2| == 2 ==>
      r.2[1].ConfAllow? && AllowsTrade(r.0, tradeId, env.allowTime, p, r.2[1]) && (r.1.Ok? <==> env.allowSuccess)
    ensures var f := FetchConfirmations(a, env.page, env.fetchTime, p);
      && (f.1.Err? ==> r == f)
      && (f.1.Ok? ==> r == Allow(f.0, tradeId, env, p, f.2))
  {
    var (a1, fetched, effects) := FetchConfirmations(a, env.page, env.fetchTime, p);
    if fetched.Err? then (a1, fetched, effects)
    else
      var r := Allow(a1, tradeId, env, p, effects);
      assert r.2[0] == r.2[..1][0] == effects[0];
      r
  }

  /** `e` is the allow request for the confirmation stored under `tradeId`,
      signed for the "allow" tag at time `t`. */
  predicate AllowsTrade(a: Account, tradeId: int, t: int, p: SteamGuard.Primitives, e: Effect) {
    && ConfirmationParams(a, p, AllowTag, t).Ok?
    && tradeId in a.confirmations
    && e == ConfAllow(ConfirmationParams(a, p, AllowTag, t).value,
                      a.confirmations[tradeId].dataConfId, a.confirmations[tradeId].dataKey)
  }

  /** The allow request of `_confirm_trade`, once the confirmations are fetched. */
  function Allow(a: Account, tradeId: int, env: ConfirmEnv, p: SteamGuard.Primitives, effects: seq<Effect>)
    : (r: (Account, Result<(), Error>, seq<Effect>))
    ensures r.0 == a
    ensures |r.2| == |effects| || |r.2| == |effects| + 1
    ensures r.2[..|effects|] == effects
    ensures r.1.Ok? ==> |r.2| == |effects| + 1
    ensures |r.2| == |effects| + 1 ==>
      AllowsTrade(a, tradeId, env.allowTime, p, r.2[|effects|]) && (r.1.Ok? <==> env.allowSuccess)
    ensures ConfirmationParams(a, p, AllowTag, env.allowTime).Ok? && tradeId !in a.confirmations ==>
      r.1.Err? && r.1.error.AttributeError? && r.2 == effects
    ensures ConfirmationParams(a, p, AllowTag, env.allowTime).Err? ==>
      r == (a, Err(ConfirmationParams(a, p, AllowTag, env.allowTime).error), effects)
    ensures ConfirmationParams(a, p, AllowTag, env.allowTime).Ok? && tradeId in a.confirmations ==>
      |r.2| == |effects| + 1 && (env.allowSuccess ==> r.1 == Ok(())) && (!env.allowSuccess ==> r.1 == Err(FailedTrade))
  {
    match ConfirmationParams(a, p, AllowTag, env.allowTime)
    case Err(e) => (a, Err(e), effects)
    case Ok(params) =>
      if tradeId !in a.confirmations then
        (a, Err(AttributeError(NoDataConfIdMessage)), effects)
      else
        var c := a.confirmations[tradeId];
        var allowed := effects + [ConfAllow(params, c.dataConfId, c.dataKey)];
        if env.allowSuccess then (a, Ok(()), allowed) else (a, Err(FailedTrade), allowed)
  }

  /** With no entry for the trade on the page, nothing is confirmed and the
      lookup of the missing confirmation raises. */
  lemma ConfirmTradeWithoutEntry(a: Account, tradeId: int, env: ConfirmEnv, p: SteamGuard.Primitives)
    requires ConfirmationParams(a, p, ListTag, env.fetchTime).Ok?
    requires ConfirmationParams(a, p, AllowTag, env.allowTime).Ok?
    requires !Contains(env.page.body, BadSecretMarker) && !Contains(env.page.body, ErrorPageMarker)
    requires tradeId !in a.confirmations
    requires env.page.emptyMarker
    ensures var r := ConfirmTrade(a, tradeId, true, env, p);
      r.1.Err? && r.1.error.AttributeError? && |r.2| == 1
  {
  }

  /** Every entry of the page reads as the confirmation listed with it. */
  predicate Reads(page: ConfPage, confs: seq<Items.TradeConfirmation>) {
    |confs| == |page.entries| && forall i :: 0 <= i < |confs| ==> ParseEntry(page.entries[i]) == Ok(confs[i])
  }

  /** When the offer needs a mobile confirmation and every entry of the page
      is readable, the trade's confirmation is the last entry listed for it,
      and that one is allowed: two requests, the
      second carrying its ids, and Steam's refusal is a trade error. */
  lemma ConfirmTradeAllowsListed(a: Account, tradeId: int, env: ConfirmEnv, p: SteamGuard.Primitives,
                                 confs: seq<Items.TradeConfirmation>)
    requires ConfirmationParams(a, p, ListTag, env.fetchTime).Ok?
    requires ConfirmationParams(a, p, AllowTag, env.allowTime).Ok?
    requires !Contains(env.page.body, BadSecretMarker) && !Contains(env.page.body, ErrorPageMarker)
    requires !env.page.emptyMarker
    requires Reads(env.page, confs)
    requires LastFor(confs, tradeId).Some?
    ensures var r := ConfirmNeeded(a, tradeId, env, p);
      var c := LastFor(confs, tradeId).value;
      && r.2 == [ConfListFetch(ConfirmationParams(a, p, ListTag, env.fetchTime).value),
                 ConfAllow(ConfirmationParams(a, p, AllowTag, env.allowTime).value, c.dataConfId, c.dataKey)]
      && (env.allowSuccess ==> r.1 == Ok(()))
      && (!env.allowSuccess ==> r.1 == Err(FailedTrade))
  {
    var f := FetchConfirmations(a, env.page, env.fetchTime, p);
    FetchStoresLast(a, env.page, env.fetchTime, p, confs, tradeId);
    AllowStored(f.0, tradeId, env, p, f.2);
  }

  /** The allow request for a stored confirmation carries its ids. */
  lemma AllowStored(a: Account, tradeId: int, env: ConfirmEnv, p: SteamGuard.Primitives, effects: seq<Effect>)
    requires ConfirmationParams(a, p, AllowTag, env.allowTime).Ok? && tradeId in a.confirmations
    ensures var r := Allow(a, tradeId, env, p, effects);
      && r.2 == effects + [ConfAllow(ConfirmationParams(a, p, AllowTag, env.allowTime).value,
                                     a.confirmations[tradeId].dataConfId, a.confirmations[tradeId].dataKey)]
      && (env.allowSuccess ==> r.1 == Ok(()))
      && (!env.allowSuccess ==> r.1 == Err(FailedTrade))
  {
  }

  /** A fetch whose entries all read stores each listed trade's last entry. */
  lemma FetchStoresLast(a: Account, page: ConfPage, t: int, p: SteamGuard.Primitives,
                        confs: seq<Items.TradeConfirmation>, k: int)
    requires ConfirmationParams(a, p, ListTag, t).Ok?
    requires !Contains(page.body, BadSecretMarker) && !Contains(page.body, ErrorPageMarker)
    requires !page.emptyMarker
    requires Reads(page, confs)
    requires LastFor(confs, k).Some?
    ensures var f := FetchConfirmations(a, page, t, p);
      && f.1 == Ok(())
      && f.2 == [ConfListFetch(ConfirmationParams(a, p, ListTag, t).value)]
      && k in f.0.confirmations && f.0.confirmations[k] == LastFor(confs, k).value
  {
    StoreEntriesLastWins(a.confirmations, page.entries, ParseEntry, confs);
  }

  // ---------------------------------------------------------------------------
  // trade / accept_trade
  // ---------------------------------------------------------------------------

  /** The partner account as `trade` uses it: its steam id and the token of
      its trade-offer link. */
  datatype Partner = Partner(steamId64: Option<int>, tradeToken: string)

  /** The decoded reply of `tradeoffer/new/send`. */
  datatype OfferReply = OfferReply(strError: Option<string>, tradeOfferId: Option<string>, needsMobileConfirmation: bool)

  /** `trade`: send the offer, then confirm it; the trade id is returned. */
  function Trade(a: Account, partner: Partner, me: seq<map<string, Json>>, them: seq<map<string, Json>>,
                 reply: OfferReply, env: ConfirmEnv, p: SteamGuard.Primitives)
    : (r: (Account, Result<int, Error>, seq<Effect>))
    ensures r.0 == a.(confirmations := r.0.confirmations)
    ensures |r.2| >= 1 && r.2[0].OfferSend?
    ensures r.2[0].offer == OfferPayload(SessionId(a), 1, partner.steamId64, me, them, partner.tradeToken)
    ensures Truthy(reply.strError) ==> r.0 == a && r.1 == Err(TradeError(reply.strError.value)) && |r.2| == 1
    ensures r.1.Ok? ==>
      !Truthy(reply.strError) && reply.tradeOfferId.Some? &&
      ParseInt(reply.tradeOfferId.value) == Some(r.1.value)
    ensures !Truthy(reply.strError) && reply.tradeOfferId.None? ==>
      r.0 == a && r.1 == Err(KeyError("tradeofferid")) && |r.2| == 1
    ensures !Truthy(reply.strError) && reply.tradeOfferId.Some? && ParseInt(reply.tradeOfferId.value).None? ==>
      r.0 == a && r.1.Err? && r.1.error.ValueError? && |r.2| == 1
    ensures !Truthy(reply.strError) && reply.tradeOfferId.Some? && ParseInt(reply.tradeOfferId.value).Some? ==>
      var tradeId := ParseInt(reply.tradeOfferId.value).value;
      var c := ConfirmTrade(a, tradeId, reply.needsMobileConfirmation, env, p);
      && r.0 == c.0 && r.2[1..] == c.2
      && (c.1.Ok? ==> r.1 == Ok(tradeId))
      && (c.1.Err? ==> r.1 == Err(c.1.error))
  {
    var payload := OfferPayload(SessionId(a), 1, partner.steamId64, me, them, partner.tradeToken);
    var sent := [OfferSend(payload)];
    if Truthy(reply.strError) then (a, Err(TradeError(reply.strError.value)), sent)
    else
      match reply.tradeOfferId
      case None => (a, Err(KeyError("tradeofferid")), sent)
      case Some(s) =>
        match ParseInt(s)
        case None => (a, Err(ValueError(InvalidIntMessage(s))), sent)
        case Some(tradeId) =>
          var (a1, confirmed, effects) := ConfirmTrade(a, tradeId, reply.needsMobileConfirmation, env, p);
          var r := (a1, if confirmed.Ok? then Ok(tradeId) else Err(confirmed.error), sent + effects);
          assert r.2[1..] == effects;
          r
  }

  /** The decoded reply of `tradeoffer/<id>/accept`. */
  datatype AcceptReply = AcceptReply(needsMobileConfirmation: bool)

  /** `accept_trade`: accept the offer, then confirm it if Steam asks. */
  function AcceptTrade(a: Account, partner: Partner, tradeId: int, reply: AcceptReply, env: ConfirmEnv,
                       p: SteamGuard.Primitives)
    : (r: (Account, Result<(), Error>, seq<Effect>))
    ensures r.0 == a.(confirmations := r.0.confirmations)
    ensures |r.2| >= 1 && r.2[0] == OfferAccept(AcceptPayload(SessionId(a), tradeId, 1, partner.steamId64))
    ensures ConfirmTrade(a, tradeId, reply.needsMobileConfirmation, env, p) == (r.0, r.1, r.2[1..])
  {
    var accepted := [OfferAccept(AcceptPayload(SessionId(a), tradeId, 1, partner.steamId64))];
    var (a1, confirmed, effects) := ConfirmTrade(a, tradeId, reply.needsMobileConfirmation, env, p);
    assert (accepted + effects)[1..] == effects;
    (a1, confirmed, accepted + effects)
  }

  /** Sending an offer and accepting one confirm the same way: once the
      offer's id parses, `trade` ends exactly as accepting that id would,
      except for the first request and the id it returns on success. */
  lemma TradeConfirmsLikeAccept(a: Account, partner: Partner, me: seq<map<string, Json>>,
                                them: seq<map<string, Json>>, reply: OfferReply, env: ConfirmEnv,
                                p: SteamGuard.Primitives)
    requires !Truthy(reply.strError) && reply.tradeOfferId.Some?
    requires ParseInt(reply.tradeOfferId.value).Some?
    ensures var tradeId := ParseInt(reply.tradeOfferId.value).value;
      var t := Trade(a, partner, me, them, reply, env, p);
      var acc := AcceptTrade(a, partner, tradeId, AcceptReply(reply.needsMobileConfirmation), env, p);
      && t.0 == acc.0
      && t.2[1..] == acc.2[1..]
      && (t.1.Ok? <==> acc.1.Ok?)
      && (t.1.Ok? ==> t.1.value == tradeId)
  {
  }

  /** Every session id the account sends to Steam is its shared secret, also
      after a login has generated a session id of its own. */
  lemma OffersCarrySharedSecret(a: Account, env: LoginEnv, partner: Partner, tradeId: int,
                                reply: AcceptReply, cenv: ConfirmEnv, p: SteamGuard.Primitives)
    ensures var b := Login(a, env, p).0;
      AcceptTrade(b, partner, tradeId, reply, cenv, p).2[0].acceptance.sessionId == a.sharedSecret
  {
  }
}
