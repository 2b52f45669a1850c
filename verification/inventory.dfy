/** Turning the community inventory listing into `Item`s, and choosing the
    items to trade (steam-inventory-manager/classes/inventory.py). The HTTP
    fetch is left out: the parsed `assets` and `descriptions` arrays are
    inputs. */
module Inventory {
  import opened Wrappers
  import opened Errors
  import opened Text
  import opened Decimal
  import opened Items
  import opened Seqs

  /** One entry of the listing's `assets` array. */
  datatype Asset = Asset(classid: string, amount: string, assetid: string)

  /** One entry of a description's `descriptions` array. */
  datatype DescriptionLine = DescriptionLine(value: string)

  /** One entry of a description's `tags` array. */
  datatype Tag = Tag(category: string, localizedTagName: string)

  /** One entry of the listing's `descriptions` array. */
  datatype Description = Description(
    classid: string,
    tradable: int,
    name: string,
    descriptions: seq<DescriptionLine>,
    tags: seq<Tag>)

  /** Only the CS:GO inventory (app 730, context 2) is supported. */
  const AppId := 730
  const ContextId := "2"
  const ExteriorPrefix := "Exterior: "
  const TypeCategory := "Type"

  /** Index of the first description for `classid`. */
  function FirstDescription(classid: string, descs: seq<Description>): (r: Option<nat>)
    ensures r.Some? ==> r.value < |descs| && descs[r.value].classid == classid
    ensures r.Some? ==> forall j :: 0 <= j < r.value ==> descs[j].classid != classid
    ensures r.None? ==> forall j :: 0 <= j < |descs| ==> descs[j].classid != classid
  {
    if |descs| == 0 then None
    else if descs[0].classid == classid then Some(0)
    else
      match FirstDescription(classid, descs[1..])
      case None => None
      case Some(k) => Some(k + 1)
  }

  /** The first description line that starts with "Exterior: ". */
  function FirstExteriorLine(lines: seq<DescriptionLine>): (r: Option<nat>)
    ensures r.Some? ==> r.value < |lines| && StartsWith(lines[r.value].value, ExteriorPrefix)
    ensures r.Some? ==> forall j :: 0 <= j < r.value ==> !StartsWith(lines[j].value, ExteriorPrefix)
    ensures r.None? ==> forall j :: 0 <= j < |lines| ==> !StartsWith(lines[j].value, ExteriorPrefix)
  {
    if |lines| == 0 then None
    else if StartsWith(lines[0].value, ExteriorPrefix) then Some(0)
    else
      match FirstExteriorLine(lines[1..])
      case None => None
      case Some(k) => Some(k + 1)
  }

  /** The first tag in the "Type" category. */
  function FirstTypeTag(tags: seq<Tag>): (r: Option<nat>)
    ensures r.Some? ==> r.value < |tags| && tags[r.value].category == TypeCategory
    ensures r.Some? ==> forall j :: 0 <= j < r.value ==> tags[j].category != TypeCategory
    ensures r.None? ==> forall j :: 0 <= j < |tags| ==> tags[j].category != TypeCategory
  {
    if |tags| == 0 then None
    else if tags[0].category == TypeCategory then Some(0)
    else
      match FirstTypeTag(tags[1..])
      case None => None
      case Some(k) => Some(k + 1)
  }

  /** `raw_exterior`: what follows the last "Exterior: " in the first such line. */
  function RawExterior(d: Description): (r: Option<string>)
    ensures r.None? <==> FirstExteriorLine(d.descriptions).None?
    ensures r.Some? ==> !Contains(r.value, ExteriorPrefix)
    ensures r.Some? ==>
      var line := d.descriptions[FirstExteriorLine(d.descriptions).value].value;
      var pieces := Split(line, ExteriorPrefix);
      r.value == pieces[|pieces| - 1]
  {
    match FirstExteriorLine(d.descriptions)
    case None => None
    case Some(k) =>
      LastPieceHasNoSeparator(d.descriptions[k].value, ExteriorPrefix);
      LastPieceIsLastOfSplit(d.descriptions[k].value, ExteriorPrefix);
      Some(LastPiece(d.descriptions[k].value, ExteriorPrefix))
  }

  /** `raw_type`: the first "Type" tag's name, kept only when it names an item type. */
  function RawType(d: Description): (r: Option<string>)
    ensures r.Some? ==> r.value in TypeValues()
    ensures r.Some? ==> exists k :: 0 <= k < |d.tags| && d.tags[k].category == TypeCategory && d.tags[k].localizedTagName == r.value
    ensures r.Some? <==>
      FirstTypeTag(d.tags).Some? && d.tags[FirstTypeTag(d.tags).value].localizedTagName in TypeValues()
    ensures r.Some? ==> r.value == d.tags[FirstTypeTag(d.tags).value].localizedTagName
  {
    match FirstTypeTag(d.tags)
    case None => None
    case Some(k) =>
      var name := d.tags[k].localizedTagName;
      if name in TypeValues() then Some(name) else None
  }

  /** `Exterior(raw_exterior) if raw_exterior else None`: an empty or absent
      value means no exterior; an unknown one is a `ValueError`. */
  function ExteriorOf(raw: Option<string>): (r: Result<Option<Exterior>, Error>)
    ensures raw.None? || raw == Some("") ==> r == Ok(None)
    ensures raw.Some? && raw.value != "" ==>
      (r.Ok? <==> ExteriorFromValue(raw.value).Some?)
    ensures r.Ok? && r.value.Some? ==> raw == Some(ExteriorValue(r.value.value))
    ensures r.Err? ==> r.error.ValueError?
  {
    match raw
    case None => Ok(None)
    case Some(s) =>
      if s == "" then Ok(None)
      else match ExteriorFromValue(s)
        case None => Err(ValueError("'" + s + "' is not a valid ItemExterior"))
        case Some(e) => Ok(Some(e))
  }

  /** One pass of the loop body in `items`: `Ok(None)` for an asset that is
      skipped because it is not tradable. */
  function ShapeAsset(asset: Asset, descs: seq<Description>): (r: Result<Option<Item>, Error>)
    ensures FirstDescription(asset.classid, descs).None? ==> r.Err? && r.error.TypeError?
    ensures r == Ok(None) <==>
      FirstDescription(asset.classid, descs).Some? &&
      descs[FirstDescription(asset.classid, descs).value].tradable == 0
    ensures r.Ok? && r.value.Some? ==>
      var d := descs[FirstDescription(asset.classid, descs).value];
      var item := r.value.value;
      && d.tradable != 0
      && item.name == d.name
      && item.appid == AppId && item.contextid == ContextId
      && ParseInt(asset.amount) == Some(item.amount)
      && item.assetid == asset.assetid
      && ExteriorOf(RawExterior(d)) == Ok(item.exterior)
      && (item.itemType.Some? <==> RawType(d).Some?)
      && (item.itemType.Some? ==> RawType(d) == Some(TypeValue(item.itemType.value)))
    ensures FirstDescription(asset.classid, descs).Some? &&
            descs[FirstDescription(asset.classid, descs).value].tradable != 0 ==>
      (r.Ok? <==> ParseInt(asset.amount).Some? &&
                  ExteriorOf(RawExterior(descs[FirstDescription(asset.classid, descs).value])).Ok?)
  {
    match FirstDescription(asset.classid, descs)
    case None => Err(TypeError(NotSubscriptableMessage))
    case Some(k) =>
      var d := descs[k];
      if d.tradable == 0 then Ok(None)
      else
        match ParseInt(asset.amount)
        case None => Err(ValueError(InvalidIntMessage(asset.amount)))
        case Some(amount) =>
          var exterior :- ExteriorOf(RawExterior(d));
          var itemType := match RawType(d)
            case None => None
            case Some(s) => TypeFromValue(s);
          Ok(Some(Item(d.name, AppId, ContextId, amount, asset.assetid, exterior, itemType)))
  }

  /** The asset yields an item. */
  predicate Yields(descs: seq<Description>, a: Asset) {
    ShapeAsset(a, descs).Ok? && ShapeAsset(a, descs).value.Some?
  }

  function AssetIdOf(a: Asset): string { a.assetid }

  function ItemIdOf(item: Item): string { item.assetid }

  /** The asset ids of a listing of assets or items, in order. */
  function Ids<T>(s: seq<T>, id: T -> string): (r: seq<string>)
    ensures |r| == |s|
    ensures forall k :: 0 <= k < |r| ==> r[k] == id(s[k])
  {
    if |s| == 0 then [] else [id(s[0])] + Ids(s[1..], id)
  }

  /** `items`: every asset is shaped in listing order; the first failure
      aborts the whole listing. */
  function ShapeItems(assets: seq<Asset>, descs: seq<Description>): (r: Result<seq<Item>, Error>)
    ensures r.Ok? <==> forall k :: 0 <= k < |assets| ==> ShapeAsset(assets[k], descs).Ok?
    ensures r.Err? ==>
      exists k :: 0 <= k < |assets| && ShapeAsset(assets[k], descs) == Err(r.error) &&
        (forall j :: 0 <= j < k ==> ShapeAsset(assets[j], descs).Ok?)
    ensures r.Ok? ==> |r.value| == Count(assets, a => Yields(descs, a))
    ensures r.Ok? ==> IsSubsequence(Ids(r.value, ItemIdOf), Ids(assets, AssetIdOf))
    decreases |assets|
  {
    if |assets| == 0 then Ok([])
    else
      var first := ShapeAsset(assets[0], descs);
      if first.Err? then Err(first.error)
      else
        var rest := ShapeItems(assets[1..], descs);
        ShiftedIndices(assets);
        if rest.Err? then Err(rest.error)
        else if first.value.None? then Ok(rest.value)
        else
          var r := [first.value.value] + rest.value;
          ConsIds(first.value.value, rest.value, assets);
          Ok(r)
  }

  /** Each item comes from one asset of the listing, unchanged. */
  lemma {:induction false} ShapeItemsProvenance(assets: seq<Asset>, descs: seq<Description>)
    requires ShapeItems(assets, descs).Ok?
    ensures forall x :: x in ShapeItems(assets, descs).value ==>
      exists a :: a in assets && ShapeAsset(a, descs) == Ok(Some(x))
    decreases |assets|
  {
    if |assets| > 0 {
      ShapeItemsProvenance(assets[1..], descs);
      ShiftedIndices(assets);
    }
  }

  lemma {:induction false} ShiftedIndices<T>(s: seq<T>)
    requires |s| > 0
    ensures forall k :: 1 <= k < |s| ==> s[1..][k - 1] == s[k]
    ensures forall a :: a in s[1..] ==> a in s
  {
  }

  lemma {:induction false} ConsIds(item: Item, rest: seq<Item>, assets: seq<Asset>)
    requires |assets| > 0 && item.assetid == assets[0].assetid
    requires IsSubsequence(Ids(rest, ItemIdOf), Ids(assets[1..], AssetIdOf))
    ensures IsSubsequence(Ids([item] + rest, ItemIdOf), Ids(assets, AssetIdOf))
  {
    assert ([item] + rest)[1..] == rest;
    assert Ids(assets, AssetIdOf)[1..] == Ids(assets[1..], AssetIdOf);
  }

  /** `items_to_trade`: the listing's items whose `should_be_traded` holds,
      in listing order; a failing decision (a price entry without a median)
      aborts. */
  function ItemsToTrade(items: seq<Item>, table: PriceTable, opts: ConfigurationOptions)
    : (r: Result<seq<Item>, Error>)
    ensures r.Ok? <==> forall k :: 0 <= k < |items| ==> ShouldBeTraded(items[k], table, opts).Ok?
    ensures r.Err? ==> exists k :: 0 <= k < |items| && ShouldBeTraded(items[k], table, opts) == Err(r.error)
    ensures r.Ok? ==> IsSubsequence(r.value, items)
    ensures r.Ok? ==> forall x :: x in r.value ==> ShouldBeTraded(x, table, opts) == Ok(true)
    ensures r.Ok? ==> |r.value| == Count(items, x => ShouldBeTraded(x, table, opts) == Ok(true))
    decreases |items|
  {
    if |items| == 0 then Ok([])
    else
      var first := ShouldBeTraded(items[0], table, opts);
      if first.Err? then Err(first.error)
      else
        var rest := ItemsToTrade(items[1..], table, opts);
        assert forall k :: 1 <= k < |items| ==> items[1..][k - 1] == items[k];
        if rest.Err? then Err(rest.error)
        else if first.value then Ok([items[0]] + rest.value)
        else Ok(rest.value)
  }
}
