/** Item classification and pricing (steam-inventory-manager/datatypes.py): the
    exterior and type enums, `Item` with `is_weapon`, `market_name`,
    `trade_asset`, `price` and `should_be_traded`, and the configuration and
    confirmation records. The module-level price table and `config.options` are
    explicit parameters. */
module Items {
  import opened Wrappers
  import opened Errors
  import opened Text
  import opened Json

  /** `ConfigurationOptions`: the price threshold and the six always-trade flags. */
  datatype ConfigurationOptions = ConfigurationOptions(
    minPrice: real,
    alwaysTradeGraffities: bool,
    alwaysTradeStickers: bool,
    alwaysTradeAgents: bool,
    alwaysTradeContainers: bool,
    alwaysTradeCollectibles: bool,
    alwaysTradePatches: bool)

  /** `TradeConfirmation`: one pending mobile confirmation. The confirmation
      page yields `data_conf_id` as text, so it is kept as a string. */
  datatype TradeConfirmation = TradeConfirmation(id: string, dataConfId: string, dataKey: string, tradeId: int)

  // ---------------------------------------------------------------------------
  // Enums
  // ---------------------------------------------------------------------------

  datatype Exterior = FactoryNew | MinimalWear | FieldTested | WellWorn | BattleScarred

  function ExteriorValue(e: Exterior): string {
    match e
    case FactoryNew => "Factory New"
    case MinimalWear => "Minimal Wear"
    case FieldTested => "Field-Tested"
    case WellWorn => "Well-Worn"
    case BattleScarred => "Battle-Scarred"
  }

  /** The members in declaration order. */
  const Exteriors: seq<Exterior> := [FactoryNew, MinimalWear, FieldTested, WellWorn, BattleScarred]

  lemma ExteriorsListsEveryMember(e: Exterior)
    ensures e in Exteriors
  {
    match e
    case FactoryNew => assert Exteriors[0] == e;
    case MinimalWear => assert Exteriors[1] == e;
    case FieldTested => assert Exteriors[2] == e;
    case WellWorn => assert Exteriors[3] == e;
    case BattleScarred => assert Exteriors[4] == e;
  }

  /** `ItemExterior(s)`: lookup by value; `None` where the enum raises `ValueError`. */
  function ExteriorFromValue(s: string): (r: Option<Exterior>)
    ensures forall e :: r == Some(e) <==> ExteriorValue(e) == s
  {
    if s == "Factory New" then Some(FactoryNew)
    else if s == "Minimal Wear" then Some(MinimalWear)
    else if s == "Field-Tested" then Some(FieldTested)
    else if s == "Well-Worn" then Some(WellWorn)
    else if s == "Battle-Scarred" then Some(BattleScarred)
    else None
  }

  datatype ItemType =
    // weapon types
    | Knife | Gloves | Pistol | Rifle | SniperRifle | Shotgun | Smg | Machinegun
    // other
    | Graffiti | Sticker | Agent | Container | Collectible | Patch

  function TypeValue(t: ItemType): string {
    match t
    case Knife => "Knife"
    case Gloves => "Gloves"
    case Pistol => "Pistol"
    case Rifle => "Rifle"
    case SniperRifle => "Sniper Rifle"
    case Shotgun => "Shotgun"
    case Smg => "SMG"
    case Machinegun => "Machinegun"
    case Graffiti => "Graffiti"
    case Sticker => "Sticker"
    case Agent => "Agent"
    case Container => "Container"
    case Collectible => "Collectible"
    case Patch => "Patch"
  }

  /** The members in declaration order (`list(ItemType)`). */
  const ItemTypes: seq<ItemType> :=
    [Knife, Gloves, Pistol, Rifle, SniperRifle, Shotgun, Smg, Machinegun,
     Graffiti, Sticker, Agent, Container, Collectible, Patch]

  /** `ItemType(s)`: lookup by value; `None` where the enum raises `ValueError`. */
  function TypeFromValue(s: string): (r: Option<ItemType>)
    ensures forall t :: r == Some(t) <==> TypeValue(t) == s
  {
    if s == "Knife" then Some(Knife)
    else if s == "Gloves" then Some(Gloves)
    else if s == "Pistol" then Some(Pistol)
    else if s == "Rifle" then Some(Rifle)
    else if s == "Sniper Rifle" then Some(SniperRifle)
    else if s == "Shotgun" then Some(Shotgun)
    else if s == "SMG" then Some(Smg)
    else if s == "Machinegun" then Some(Machinegun)
    else if s == "Graffiti" then Some(Graffiti)
    else if s == "Sticker" then Some(Sticker)
    else if s == "Agent" then Some(Agent)
    else if s == "Container" then Some(Container)
    else if s == "Collectible" then Some(Collectible)
    else if s == "Patch" then Some(Patch)
    else None
  }

  lemma ItemTypesListsEveryMember(t: ItemType)
    ensures exists k :: 0 <= k < |ItemTypes| && ItemTypes[k] == t
  {
    match t
    case Knife => assert ItemTypes[0] == t;
    case Gloves => assert ItemTypes[1] == t;
    case Pistol => assert ItemTypes[2] == t;
    case Rifle => assert ItemTypes[3] == t;
    case SniperRifle => assert ItemTypes[4] == t;
    case Shotgun => assert ItemTypes[5] == t;
    case Smg => assert ItemTypes[6] == t;
    case Machinegun => assert ItemTypes[7] == t;
    case Graffiti => assert ItemTypes[8] == t;
    case Sticker => assert ItemTypes[9] == t;
    case Agent => assert ItemTypes[10] == t;
    case Container => assert ItemTypes[11] == t;
    case Collectible => assert ItemTypes[12] == t;
    case Patch => assert ItemTypes[13] == t;
  }

  /** `[x.value for x in ItemType]`: every value, and only those, in order. */
  function TypeValues(): (r: seq<string>)
    ensures |r| == |ItemTypes|
    ensures forall s :: s in r <==> TypeFromValue(s).Some?
  {
    var r := seq(|ItemTypes|, i requires 0 <= i < |ItemTypes| => TypeValue(ItemTypes[i]));
    assert forall t :: TypeValue(t) in r by {
      forall t ensures TypeValue(t) in r {
        ItemTypesListsEveryMember(t);
        var k :| 0 <= k < |ItemTypes| && ItemTypes[k] == t;
        assert r[k] == TypeValue(t);
      }
    }
    r
  }

  // ---------------------------------------------------------------------------
  // Item
  // ---------------------------------------------------------------------------

  /** `Item`. `assetid` holds what the inventory copies into it, the asset's
      id as text. */
  datatype Item = Item(
    name: string,
    appid: int,
    contextid: string,
    amount: int,
    assetid: string,
    exterior: Option<Exterior>,
    itemType: Option<ItemType>)

  const WeaponTypes: set<ItemType> := {Knife, Gloves, Pistol, Rifle, SniperRifle, Shotgun, Smg, Machinegun}

  /** `is_weapon`: the type is one of the eight weapon kinds (false without a type). */
  predicate IsWeapon(item: Item) {
    item.itemType.Some? && item.itemType.value in WeaponTypes
  }

  /** The weapon kinds are exactly the first eight members of the enum, the
      block declared under "weapon types"; the six others and an absent type
      are not weapons. */
  lemma WeaponsAreFirstEight(item: Item)
    ensures |WeaponTypes| == 8
    ensures IsWeapon(item) <==> item.itemType.Some? && item.itemType.value in ItemTypes[..8]
    ensures item.itemType.Some? && item.itemType.value in ItemTypes[8..] ==> !IsWeapon(item)
  {
    assert ItemTypes[..8] == [Knife, Gloves, Pistol, Rifle, SniperRifle, Shotgun, Smg, Machinegun];
    assert ItemTypes[8..] == [Graffiti, Sticker, Agent, Container, Collectible, Patch];
  }

  /** The text `market_name` appends for an exterior: `" (Factory New)"`. */
  function ParenSuffix(e: Exterior): string {
    " (" + ExteriorValue(e) + ")"
  }

  /** `market_name`: the name, followed by the exterior in parentheses when set. */
  function MarketName(item: Item): string {
    match item.exterior
    case Some(e) => item.name + ParenSuffix(e)
    case None => item.name
  }

  /** No exterior suffix of a revision ends with the suffix of another exterior. */
  ghost predicate SuffixFree(suffix: Exterior -> string) {
    forall e1, e2 :: e1 != e2 ==> !EndsWith(suffix(e1), suffix(e2))
  }

  /** Splits a market name into name and exterior by trying each exterior's
      suffix in `candidates` order. */
  function StripExterior(mn: string, suffix: Exterior -> string, candidates: seq<Exterior>)
    : (string, Option<Exterior>)
  {
    if |candidates| == 0 then (mn, None)
    else if EndsWith(mn, suffix(candidates[0])) then
      (mn[..|mn| - |suffix(candidates[0])|], Some(candidates[0]))
    else StripExterior(mn, suffix, candidates[1..])
  }

  lemma {:induction false} StripExteriorOfSuffixed(name: string, e: Exterior, suffix: Exterior -> string,
                                                    candidates: seq<Exterior>)
    requires SuffixFree(suffix)
    requires e in candidates
    ensures StripExterior(name + suffix(e), suffix, candidates) == (name, Some(e))
  {
    var mn := name + suffix(e);
    var c := candidates[0];
    if c == e {
      assert mn[|mn| - |suffix(e)|..] == suffix(e);
      assert mn[..|mn| - |suffix(e)|] == name;
    } else {
      if EndsWith(mn, suffix(c)) {
        EndsWithConcat(name, suffix(e), suffix(c));
        assert false;
      }
      StripExteriorOfSuffixed(name, e, suffix, candidates[1..]);
    }
  }

  /** The last three characters of an exterior's value tell the exteriors apart. */
  lemma ValueEndingDetermines(e1: Exterior, e2: Exterior)
    requires var v1, v2 := ExteriorValue(e1), ExteriorValue(e2);
      v1[|v1| - 3..] == v2[|v2| - 3..]
    ensures e1 == e2
  {
  }

  lemma {:induction false} ParenTail(v: string)
    requires |v| >= 3
    ensures var s := " (" + v + ")"; s[|s| - 4..|s| - 1] == v[|v| - 3..]
  {
  }

  lemma {:induction false} TailOfSuffix(s1: string, s2: string, n: nat)
    requires EndsWith(s1, s2) && 1 <= n <= |s2|
    ensures s1[|s1| - n..|s1| - 1] == s2[|s2| - n..|s2| - 1]
  {
    var a, b := s1[|s1| - n..|s1| - 1], s2[|s2| - n..|s2| - 1];
    assert |a| == |b| == n - 1;
    forall k | 0 <= k < n - 1
      ensures a[k] == b[k]
    {
      assert a[k] == s1[|s1| - n + k];
      assert s1[|s1| - |s2|..][|s2| - n + k] == s2[|s2| - n + k];
    }
  }

  /** An exterior suffix ending with another's belongs to the same exterior. */
  lemma ParenSuffixDetermines(e1: Exterior, e2: Exterior)
    requires EndsWith(ParenSuffix(e1), ParenSuffix(e2))
    ensures e1 == e2
  {
    var v1, v2 := ExteriorValue(e1), ExteriorValue(e2);
    assert |v1| >= 3 && |v2| >= 3;
    TailOfSuffix(ParenSuffix(e1), ParenSuffix(e2), 4);
    ParenTail(v1);
    ParenTail(v2);
    ValueEndingDetermines(e1, e2);
  }

  lemma ParenSuffixFree()
    ensures SuffixFree(ParenSuffix)
  {
    forall e1, e2 | EndsWith(ParenSuffix(e1), ParenSuffix(e2))
      ensures e1 == e2
    {
      ParenSuffixDetermines(e1, e2);
    }
  }

  /** Reads a market name back into (name, exterior). */
  function ParseMarketName(mn: string): (string, Option<Exterior>) {
    StripExterior(mn, ParenSuffix, Exteriors)
  }

  /** `market_name` loses nothing when an exterior is set: parsing it gives back
      the name and the exterior. */
  lemma MarketNameRoundTrip(item: Item)
    requires item.exterior.Some?
    ensures ParseMarketName(MarketName(item)) == (item.name, item.exterior)
  {
    ParenSuffixFree();
    ExteriorsListsEveryMember(item.exterior.value);
    StripExteriorOfSuffixed(item.name, item.exterior.value, ParenSuffix, Exteriors);
  }

  /** `trade_asset`: a dictionary with exactly the four trading keys, each
      holding the item's field unchanged. */
  function TradeAsset(item: Item): (r: map<string, Json>)
    ensures r.Keys == {"appid", "contextid", "amount", "assetid"}
    ensures r["appid"] == JInt(item.appid) && r["contextid"] == JStr(item.contextid)
    ensures r["amount"] == JInt(item.amount) && r["assetid"] == JStr(item.assetid)
  {
    map["appid" := JInt(item.appid), "contextid" := JStr(item.contextid),
        "amount" := JInt(item.amount), "assetid" := JStr(item.assetid)]
  }

  /** Two items give the same trade asset exactly when they agree on the four
      trading fields: name, exterior and type are projected away. */
  lemma TradeAssetProjection(a: Item, b: Item)
    ensures TradeAsset(a) == TradeAsset(b) <==>
      a.appid == b.appid && a.contextid == b.contextid && a.amount == b.amount && a.assetid == b.assetid
  {
    if TradeAsset(a) == TradeAsset(b) {
      assert TradeAsset(a)["appid"] == TradeAsset(b)["appid"];
      assert TradeAsset(a)["contextid"] == TradeAsset(b)["contextid"];
      assert TradeAsset(a)["amount"] == TradeAsset(b)["amount"];
      assert TradeAsset(a)["assetid"] == TradeAsset(b)["assetid"];
    }
  }

  // ---------------------------------------------------------------------------
  // Price
  // ---------------------------------------------------------------------------

  /** One entry of the price table: its `"price"` dictionary, when present,
      maps a window name to that window's statistics. */
  datatype PriceEntry = PriceEntry(price: Option<map<string, map<string, real>>>)

  type PriceTable = map<string, PriceEntry>

  /** The windows consulted, in priority order. */
  const PriceWindows: seq<string> := ["30_days", "all_time", "7_days", "24_hours"]

  /** The "no price" sentinel. */
  const Unpriced: real := -1.0

  /** `window["median"]`. */
  function Median(window: map<string, real>): (r: Result<real, Error>)
  {
    if "median" in window then Ok(window["median"]) else Err(KeyError("median"))
  }

  /** `queue[k]` is the first key of `queue` present in `windows`. */
  predicate FirstPresent(windows: map<string, map<string, real>>, queue: seq<string>, k: int) {
    0 <= k < |queue| && queue[k] in windows && forall j :: 0 <= j < k ==> queue[j] !in windows
  }

  /** The `for key in queue` loop of `price`. */
  function MedianOfFirst(windows: map<string, map<string, real>>, queue: seq<string>): (r: Result<real, Error>)
    ensures (forall j :: 0 <= j < |queue| ==> queue[j] !in windows) ==> r == Ok(Unpriced)
    ensures forall k :: FirstPresent(windows, queue, k) ==> r == Median(windows[queue[k]])
  {
    if |queue| == 0 then Ok(Unpriced)
    else if queue[0] in windows then Median(windows[queue[0]])
    else
      var r := MedianOfFirst(windows, queue[1..]);
      assert forall k :: FirstPresent(windows, queue, k) ==> FirstPresent(windows, queue[1..], k - 1);
      r
  }

  /** `price` for a given market name: -1 when the name is not in the table or
      its entry has no prices, else the median of the first window present in
      priority order, or -1 when none is. */
  function PriceOf(marketName: string, table: PriceTable): (r: Result<real, Error>)
    ensures marketName !in table ==> r == Ok(Unpriced)
    ensures marketName in table && table[marketName].price.None? ==> r == Ok(Unpriced)
    ensures marketName in table && table[marketName].price.Some? ==>
      var windows := table[marketName].price.value;
      && ((forall j :: 0 <= j < |PriceWindows| ==> PriceWindows[j] !in windows) ==> r == Ok(Unpriced))
      && (forall k :: FirstPresent(windows, PriceWindows, k) ==> r == Median(windows[PriceWindows[k]]))
  {
    if marketName !in table then Ok(Unpriced)
    else match table[marketName].price
      case None => Ok(Unpriced)
      case Some(windows) => MedianOfFirst(windows, PriceWindows)
  }

  /** `price`. */
  function Price(item: Item, table: PriceTable): Result<real, Error> {
    PriceOf(MarketName(item), table)
  }

  // ---------------------------------------------------------------------------
  // should_be_traded
  // ---------------------------------------------------------------------------

  /** One of the six always-trade flags is enabled for the item's type. */
  predicate AlwaysTraded(opts: ConfigurationOptions, t: Option<ItemType>) {
    || (opts.alwaysTradeGraffities && t == Some(Graffiti))
    || (opts.alwaysTradeStickers && t == Some(Sticker))
    || (opts.alwaysTradeAgents && t == Some(Agent))
    || (opts.alwaysTradeContainers && t == Some(Container))
    || (opts.alwaysTradeCollectibles && t == Some(Collectible))
    || (opts.alwaysTradePatches && t == Some(Patch))
  }

  /** The body of `should_be_traded`, given the item's type and its price
      lookup (evaluated only when no flag matches). */
  function TradeDecision(t: Option<ItemType>, price: Result<real, Error>, opts: ConfigurationOptions)
    : (r: Result<bool, Error>)
    ensures AlwaysTraded(opts, t) ==> r == Ok(true)
    ensures !AlwaysTraded(opts, t) ==> (r.Ok? <==> price.Ok?)
    ensures !AlwaysTraded(opts, t) && r.Ok? ==>
      (r.value <==> price.value != Unpriced && price.value < opts.minPrice)
  {
    if AlwaysTraded(opts, t) then Ok(true)
    else
      var p :- price;
      Ok(p < opts.minPrice && p != Unpriced)
  }

  /** `should_be_traded`. */
  function ShouldBeTraded(item: Item, table: PriceTable, opts: ConfigurationOptions): Result<bool, Error> {
    TradeDecision(item.itemType, Price(item, table), opts)
  }

  /** An enabled flag for the item's type decides the question, whatever the
      price table says; otherwise an unpriced item is never traded. */
  lemma ShouldBeTradedCases(item: Item, table: PriceTable, opts: ConfigurationOptions)
    ensures AlwaysTraded(opts, item.itemType) ==> ShouldBeTraded(item, table, opts) == Ok(true)
    ensures !AlwaysTraded(opts, item.itemType) && Price(item, table) == Ok(Unpriced) ==>
      ShouldBeTraded(item, table, opts) == Ok(false)
    ensures !AlwaysTraded(opts, item.itemType) && Price(item, table).Ok? ==>
      (ShouldBeTraded(item, table, opts) == Ok(true) <==>
        Price(item, table).value != Unpriced && Price(item, table).value < opts.minPrice)
  {
  }

  /** Weapons are never covered by an always-trade flag: they are traded by
      price alone. */
  lemma WeaponsTradedByPriceOnly(item: Item, table: PriceTable, opts: ConfigurationOptions)
    requires IsWeapon(item)
    ensures !AlwaysTraded(opts, item.itemType)
    ensures ShouldBeTraded(item, table, opts).Ok? <==> Price(item, table).Ok?
  {
  }

  /** Raising the threshold never withdraws an item from trading. */
  lemma ShouldBeTradedMonotone(item: Item, table: PriceTable, opts: ConfigurationOptions, higher: real)
    requires opts.minPrice <= higher
    requires ShouldBeTraded(item, table, opts) == Ok(true)
    ensures ShouldBeTraded(item, table, opts.(minPrice := higher)) == Ok(true)
  {
  }
}
