/** The older revision of the item logic (steam-inventory-manager/types.py). Its
    enums, `Item`, `is_weapon`, `trade_asset` and the price-queue and
    `should_be_traded` logic are the same as in datatypes.py and are reused
    from `Items`; what differs is `market_name`, which joins the exterior with
    a plain space, and therefore the price-table key. */
module LegacyItems {
  import opened Wrappers
  import opened Errors
  import opened Text
  import Items

  /** The text this revision's `market_name` appends: `" Factory New"`. */
  function SpaceSuffix(e: Items.Exterior): string {
    " " + Items.ExteriorValue(e)
  }

  /** `market_name` of types.py: name, a space and the exterior when set. */
  function MarketName(item: Items.Item): string {
    match item.exterior
    case Some(e) => item.name + SpaceSuffix(e)
    case None => item.name
  }

  lemma {:induction false} EndsWithTail(s1: string, s2: string, n: nat)
    requires EndsWith(s1, s2) && n <= |s2|
    ensures s1[|s1| - n..] == s2[|s2| - n..]
  {
    var t := s1[|s1| - |s2|..];
    assert t == s2;
    assert s1[|s1| - n..] == t[|t| - n..];
  }

  lemma SpaceSuffixFree()
    ensures Items.SuffixFree(SpaceSuffix)
  {
    forall e1, e2 | EndsWith(SpaceSuffix(e1), SpaceSuffix(e2))
      ensures e1 == e2
    {
      var v1, v2 := Items.ExteriorValue(e1), Items.ExteriorValue(e2);
      assert |v1| >= 3 && |v2| >= 3;
      EndsWithTail(SpaceSuffix(e1), SpaceSuffix(e2), 3);
      assert SpaceSuffix(e1)[|SpaceSuffix(e1)| - 3..] == v1[|v1| - 3..];
      assert SpaceSuffix(e2)[|SpaceSuffix(e2)| - 3..] == v2[|v2| - 3..];
      Items.ValueEndingDetermines(e1, e2);
    }
  }

  function ParseMarketName(mn: string): (string, Option<Items.Exterior>) {
    Items.StripExterior(mn, SpaceSuffix, Items.Exteriors)
  }

  /** This revision's `market_name` also loses nothing when an exterior is set. */
  lemma MarketNameRoundTrip(item: Items.Item)
    requires item.exterior.Some?
    ensures ParseMarketName(MarketName(item)) == (item.name, item.exterior)
  {
    SpaceSuffixFree();
    Items.ExteriorsListsEveryMember(item.exterior.value);
    Items.StripExteriorOfSuffixed(item.name, item.exterior.value, SpaceSuffix, Items.Exteriors);
  }

  /** `price` of types.py: the same lookup, keyed by this revision's market name. */
  function Price(item: Items.Item, table: Items.PriceTable): Result<real, Error> {
    Items.PriceOf(MarketName(item), table)
  }

  /** `should_be_traded` of types.py. */
  function ShouldBeTraded(item: Items.Item, table: Items.PriceTable, opts: Items.ConfigurationOptions)
    : Result<bool, Error>
  {
    Items.TradeDecision(item.itemType, Price(item, table), opts)
  }

  /** A matching always-trade flag forces trading; otherwise an item is traded
      exactly when it has a price and that price is below the threshold. */
  lemma ShouldBeTradedCases(item: Items.Item, table: Items.PriceTable, opts: Items.ConfigurationOptions)
    ensures Items.AlwaysTraded(opts, item.itemType) ==> ShouldBeTraded(item, table, opts) == Ok(true)
    ensures !Items.AlwaysTraded(opts, item.itemType) && Price(item, table).Ok? ==>
      (ShouldBeTraded(item, table, opts) == Ok(true) <==>
        Price(item, table).value != Items.Unpriced && Price(item, table).value < opts.minPrice)
  {
  }

  /** Without an exterior both revisions use the plain name as key and decide
      alike. */
  lemma RevisionsAgreeWithoutExterior(item: Items.Item, table: Items.PriceTable,
                                      opts: Items.ConfigurationOptions)
    requires item.exterior.None?
    ensures MarketName(item) == Items.MarketName(item)
    ensures Price(item, table) == Items.Price(item, table)
    ensures ShouldBeTraded(item, table, opts) == Items.ShouldBeTraded(item, table, opts)
  {
  }

  /** With an exterior the two revisions produce different keys, so one price
      table cannot serve both: the newer one ends in ')', the older in the
      exterior's last letter. */
  lemma RevisionsDisagreeWithExterior(item: Items.Item)
    requires item.exterior.Some?
    ensures MarketName(item) != Items.MarketName(item)
  {
    var legacy, current := MarketName(item), Items.MarketName(item);
    var v := Items.ExteriorValue(item.exterior.value);
    assert current[|current| - 1] == ')';
    assert legacy[|legacy| - 1] == v[|v| - 1];
  }
}
