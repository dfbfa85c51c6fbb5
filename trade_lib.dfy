/** trade_lib.py: the basket of traded items and the minimum-order rules. */
module TradeLib {
  import opened Wrappers
  import opened Tokens

  datatype ItemSummary = ItemSummary(id: int, name: string, groupId: int, categoryId: int, marketGroup: string, valueTraded: real)

  datatype OrderSizeRule = OrderSizeRule(prefix: string, normalMarketSize: int, minOrderSize: int)

  /** A csv.DictReader row: column name to cell. */
  type DictRow = map<string, string>

  /** parse_float: "-" is None; any other token goes through float(), whose
      ValueError is Err. */
  function ParseFloat(x: string): (r: Result<Option<real>>)
    ensures x == "-" ==> r == Ok(None)
    ensures x != "-" ==> (r.Ok? <==> ParseDecimal(x).Some?)
    ensures x != "-" && r.Ok? ==> r.value == ParseDecimal(x)
  {
    if x == "-" then Ok(None)
    else match ParseDecimal(x)
      case None => Err(ValueError)
      case Some(v) => Ok(Some(v))
  }

  /** A cell converted by int(), or None for a missing key or a ValueError. */
  function IntCell(row: DictRow, key: string): Option<int>
  {
    if key in row then ParseInt(row[key]) else None
  }

  /** A cell converted by float(), or None for a missing key or a ValueError. */
  function RealCell(row: DictRow, key: string): Option<real>
  {
    if key in row then ParseDecimal(row[key]) else None
  }

  /** The ItemSummary of one basket row; None is the KeyError/ValueError case. */
  function ParseItem(row: DictRow): (r: Option<ItemSummary>)
    ensures r.Some? <==>
      && IntCell(row, "ID").Some? && "Name" in row && IntCell(row, "GroupID").Some?
      && IntCell(row, "CategoryID").Some? && "MarketGroup" in row && RealCell(row, "Value Traded").Some?
    ensures r.Some? ==> r.value == ItemSummary(IntCell(row, "ID").value, row["Name"], IntCell(row, "GroupID").value,
                                               IntCell(row, "CategoryID").value, row["MarketGroup"], RealCell(row, "Value Traded").value)
  {
    var id, group, category := IntCell(row, "ID"), IntCell(row, "GroupID"), IntCell(row, "CategoryID");
    var value := RealCell(row, "Value Traded");
    if id.Some? && "Name" in row && group.Some? && category.Some? && "MarketGroup" in row && value.Some? then
      Some(ItemSummary(id.value, row["Name"], group.value, category.value, row["MarketGroup"], value.value))
    else None
  }

  /** How many rows get_most_traded_items reads at most: `max_items` limits
      only when it is truthy (not None, not 0), and since the test comes after
      a row is yielded, a limit below 1 still lets one row through. */
  function YieldLimit(maxItems: Option<int>, n: nat): (k: nat)
    ensures k <= n
    ensures maxItems.None? || maxItems == Some(0) ==> k == n
    ensures maxItems.Some? && maxItems.value > 0 ==> k == if maxItems.value < n then maxItems.value else n
    ensures maxItems.Some? && maxItems.value < 0 ==> k == if n == 0 then 0 else 1
  {
    if maxItems.None? || maxItems.value == 0 then n
    else if maxItems.value < 1 then (if n == 0 then 0 else 1)
    else if maxItems.value < n then maxItems.value
    else n
  }

  /** The first |items| rows convert to items, in order. */
  predicate ParsedAs(rows: seq<DictRow>, items: seq<ItemSummary>)
  {
    |items| <= |rows| && forall j :: 0 <= j < |items| ==> ParseItem(rows[j]) == Some(items[j])
  }

  lemma ParsedAsSnoc(rows: seq<DictRow>, items: seq<ItemSummary>, v: ItemSummary)
    requires ParsedAs(rows, items) && |items| < |rows| && ParseItem(rows[|items|]) == Some(v)
    ensures ParsedAs(rows, items + [v])
  {
    var longer := items + [v];
    assert longer[..|items|] == items && longer[|items|] == v;
    assert forall j :: 0 <= j < |longer| ==> longer[j] == if j < |items| then items[j] else v;
  }

  /** get_most_traded_items: rows in file order, each converted; a row that
      does not convert raises RuntimeError after the earlier rows were
      yielded; the count test stops the generator once the limit is reached. */
  method GetMostTradedItems(rows: seq<DictRow>, maxItems: Option<int>) returns (out: Yielded<ItemSummary>)
    ensures var n := YieldLimit(maxItems, |rows|);
      && |out.items| <= n
      && (forall i :: 0 <= i < |out.items| ==> ParseItem(rows[i]) == Some(out.items[i]))
      && (out.failure.None? <==> forall i :: 0 <= i < n ==> ParseItem(rows[i]).Some?)
      && (out.failure.None? ==> |out.items| == n)
      && (out.failure.Some? ==> |out.items| < n && ParseItem(rows[|out.items|]).None?
                                && out.failure == Some(ParseFailure(|out.items|)))
  {
    var items: seq<ItemSummary> := [];
    var count := 0;
    var i := 0;
    while i < |rows|
      invariant 0 <= i <= |rows| && i <= YieldLimit(maxItems, |rows|)
      invariant i < |rows| ==> i < YieldLimit(maxItems, |rows|)
      invariant count == i && |items| == i
      invariant ParsedAs(rows, items)
    {
      var item := ParseItem(rows[i]);
      if item.None? {
        return Yielded(items, Some(ParseFailure(i)));
      }
      ParsedAsSnoc(rows, items, item.value);
      items := items + [item.value];
      count := count + 1;
      if maxItems.Some? && maxItems.value != 0 && count >= maxItems.value {
        return Yielded(items, None);
      }
      i := i + 1;
    }
    out := Yielded(items, None);
  }

  /** One line of the rules file: Prefix, NormalMarketSize, MinOrderSize; a
      short row (IndexError) or a bad integer (ValueError) is None. */
  function ParseRule(row: seq<string>): (r: Option<OrderSizeRule>)
    ensures r.Some? <==> |row| >= 3 && ParseInt(row[1]).Some? && ParseInt(row[2]).Some?
    ensures r.Some? ==> r.value == OrderSizeRule(row[0], ParseInt(row[1]).value, ParseInt(row[2]).value)
  {
    if |row| < 3 then None
    else match (ParseInt(row[1]), ParseInt(row[2]))
      case (Some(normal), Some(minimum)) => Some(OrderSizeRule(row[0], normal, minimum))
      case _ => None
  }

  /** _get_min_order_rules: one rule per line, in file order; the first bad
      line raises RuntimeError and no list is returned. */
  method GetMinOrderRules(rows: seq<seq<string>>) returns (r: Result<seq<OrderSizeRule>>)
    ensures r.Ok? <==> forall i :: 0 <= i < |rows| ==> ParseRule(rows[i]).Some?
    ensures r.Ok? ==> |r.value| == |rows| && forall i :: 0 <= i < |rows| ==> ParseRule(rows[i]) == Some(r.value[i])
    ensures r.Err? ==> exists k :: && 0 <= k < |rows| && r.failure == ParseFailure(k) && ParseRule(rows[k]).None?
                                   && forall i :: 0 <= i < k ==> ParseRule(rows[i]).Some?
  {
    var rules: seq<OrderSizeRule> := [];
    var i := 0;
    while i < |rows|
      invariant 0 <= i <= |rows| && |rules| == i
      invariant forall j :: 0 <= j < i ==> ParseRule(rows[j]) == Some(rules[j])
    {
      var rule := ParseRule(rows[i]);
      if rule.None? {
        return Err(ParseFailure(i));
      }
      rules := rules + [rule.value];
      i := i + 1;
    }
    r := Ok(rules);
  }

  /** `MarketGroup.startswith(Prefix)`. */
  predicate Matches(rule: OrderSizeRule, item: ItemSummary)
  {
    rule.prefix <= item.marketGroup
  }

  /** get_order_size: the first rule, in file order, whose prefix starts the
      item's market group; no match is a RuntimeError, never a default. */
  method GetOrderSize(rules: seq<OrderSizeRule>, item: ItemSummary) returns (r: Result<OrderSizeRule>)
    ensures r.Ok? ==> exists k :: && 0 <= k < |rules| && rules[k] == r.value && Matches(rules[k], item)
                                  && forall j :: 0 <= j < k ==> !Matches(rules[j], item)
    ensures r.Err? <==> forall k :: 0 <= k < |rules| ==> !Matches(rules[k], item)
    ensures r.Err? ==> r.failure == NoRuleMatches(item.marketGroup)
    ensures (exists k :: 0 <= k < |rules| && rules[k].prefix == "") ==> r.Ok?
  {
    var i := 0;
    while i < |rules|
      invariant 0 <= i <= |rules|
      invariant forall j :: 0 <= j < i ==> !Matches(rules[j], item)
    {
      if rules[i].prefix <= item.marketGroup {
        return Ok(rules[i]);
      }
      i := i + 1;
    }
    r := Err(NoRuleMatches(item.marketGroup));
  }
}
