/** `Pager::ActiveRecord::ClassMethods`, the earlier paginator: forward-only paging with a
    sort parser of its own and a next cursor that is the Base64 of a JSON object. JSON is not
    modelled; a `JsonCodec` stands for `to_json` and `JSON.parse`. */
module LegacyPager {
  import opened Wrappers
  import opened Text
  import opened OrderedMap
  import opened Store
  import opened ActiveRecordRelationMethods
  import Base64
  import PagerProperties
  import PagerSpec

  datatype Error =
    | ArgumentError     // `strict_decode64` rejected the token, or `gt`/`lt` was called with no operand
    | JsonParserError   // `JSON.parse` rejected the decoded text

  /** `to_json` of a string-keyed map, and `JSON.parse` giving an object whose values may be
      null; `parse` yields `None` where Ruby raises `JSON::ParserError`. */
  datatype JsonCodec = JsonCodec(generate: OMap<Text, Text> -> Text,
                                 parse: Text -> Option<OMap<Text, Option<Text>>>)

  /** The model class: attribute names, primary key and rows. */
  datatype Table = Table(attributeNames: set<Text>, primaryKey: Text, rows: seq<Row>)

  /** The Arel predicates the legacy filter builds; a nil operand is SQL NULL. */
  datatype Pred =
    | Everything
    | Greater(column: Text, value: Option<Text>)
    | Equal(column: Text, value: Option<Text>)
    | And(left: Pred, right: Pred)

  /** `pred` is TRUE for `row`; a comparison with NULL never is. */
  predicate Holds(pred: Pred, row: Row)
  {
    match pred
    case Everything => true
    case Greater(c, v) => v.Some? && Less(v.value, Field(row, c))
    case Equal(c, v) => v.Some? && Field(row, c) == v.value
    case And(l, r) => Holds(l, row) && Holds(r, row)
  }

  datatype Page = Page(records: seq<Row>, nextCursor: Text)

  // ---------------------------------------------------------------- sort string

  // Both paginators strip the sign with the same `\A[+-]` test, `PagerSpec.SignedField`; the
  // legacy one applies it only after the attribute check.

  /** The order expressions: one per field that is, sign and all, an attribute name. */
  function LegacyKept(attributes: set<Text>, fields: seq<Text>): seq<(Text, Dir)>
  {
    if |fields| == 0 then []
    else
      var field := fields[|fields| - 1];
      LegacyKept(attributes, fields[..|fields| - 1]) + (if field in attributes then [PagerSpec.SignedField(field)] else [])
  }

  /** The fields that are attribute names, in input order. */
  function KnownNames(attributes: set<Text>, fields: seq<Text>): (r: seq<Text>)
    ensures forall i | 0 <= i < |r| :: r[i] in attributes
  {
    if |fields| == 0 then []
    else
      var field := fields[|fields| - 1];
      KnownNames(attributes, fields[..|fields| - 1]) + (if field in attributes then [field] else [])
  }

  /** A field is kept exactly when it is an attribute name, and nothing else is kept. */
  lemma {:induction false} KnownNamesExact(attributes: set<Text>, fields: seq<Text>)
    ensures var r := KnownNames(attributes, fields);
      && (forall i | 0 <= i < |fields| :: fields[i] in attributes <==> fields[i] in r)
      && (forall x | x in r :: x in fields)
  {
    if |fields| > 0 {
      var init := fields[..|fields| - 1];
      KnownNamesExact(attributes, init);
      assert fields == init + [fields[|fields| - 1]];
    }
  }

  /** No attribute name starts with a sign. */
  predicate Unsigned(attributes: set<Text>)
  {
    forall a | a in attributes :: |a| == 0 || (a[0] != PLUS && a[0] != MINUS)
  }

  /** The quirk of the legacy parser: the attribute test runs on the signed field, so with
      ordinary attribute names every `+name` and `-name` is dropped and every kept column is
      ascending, in input order and repeated as often as given. */
  lemma {:induction false} LegacyKeptAscending(attributes: set<Text>, fields: seq<Text>)
    requires Unsigned(attributes)
    ensures var kept := LegacyKept(attributes, fields);
      && Keys(kept) == KnownNames(attributes, fields)
      && forall i | 0 <= i < |kept| :: kept[i].1 == Asc
  {
    if |fields| > 0 {
      var init, field := fields[..|fields| - 1], fields[|fields| - 1];
      LegacyKeptAscending(attributes, init);
      var kept := LegacyKept(attributes, init);
      if field in attributes {
        assert PagerSpec.SignedField(field) == (field, Asc);
        assert LegacyKept(attributes, fields) == kept + [(field, Asc)];
        assert Keys(kept + [(field, Asc)]) == Keys(kept) + [field];
      } else {
        assert LegacyKept(attributes, fields) == kept;
      }
    }
  }

  /** The sort string `-created_at,name` over a table with both columns: `-created_at` is no
      attribute name, so only `name` is kept, ascending. */
  lemma LegacyParseExample(attributes: set<Text>, first: Text, second: Text)
    requires first in attributes && second in attributes && [MINUS] + first !in attributes
    requires COMMA !in first && COMMA !in second
    requires second != [] && second[0] != PLUS && second[0] != MINUS
    ensures var fields := Split([MINUS] + first + [COMMA] + second, COMMA);
      && KnownNames(attributes, fields) == [second]
      && LegacyKept(attributes, fields) == [(second, Asc)]
  {
    PagerSpec.SplitExample(first, second);
    var fields := [[MINUS] + first, second];
    var one: seq<Text> := [[MINUS] + first];
    assert one[..0] == [];
    assert fields[..1] == one;
    assert PagerSpec.SignedField(second) == (second, Asc);
    assert KnownNames(attributes, one) == [];
    assert LegacyKept(attributes, one) == [];
    assert KnownNames(attributes, fields) == [second];
    assert LegacyKept(attributes, fields) == [(second, Asc)];
  }

  /** `build_order_expression(sort)`: the column map and the order expressions; a nil sort
      gives neither. */
  method BuildOrderExpression(attributes: set<Text>, sort: Option<Text>)
    returns (sortedParams: SortSpec, arelOrders: SortSpec)
    ensures sort.None? ==> sortedParams == [] && arelOrders == []
    ensures sort.Some? ==> arelOrders == LegacyKept(attributes, Split(sort.value, COMMA))
    ensures sortedParams == FromPairs(arelOrders)
  {
    if sort.None? {
      return [], [];
    }
    sortedParams, arelOrders := [], [];
    var fields := Split(sort.value, COMMA);
    var i := 0;
    while i < |fields|
      invariant 0 <= i <= |fields|
      invariant arelOrders == LegacyKept(attributes, fields[..i])
      invariant sortedParams == FromPairs(arelOrders)
    {
      var field := fields[i];
      assert fields[..i + 1][..i] == fields[..i];
      if field in attributes {
        var signed := PagerSpec.SignedField(field);
        assert (arelOrders + [signed])[..|arelOrders|] == arelOrders;
        arelOrders := arelOrders + [signed];
        sortedParams := Put(sortedParams, signed.0, signed.1);
      }
      i := i + 1;
    }
    assert fields[..i] == fields;
  }

  /** The column map of `build_order_expression`. */
  function SortedParams(attributes: set<Text>, sort: Option<Text>): SortSpec
  {
    if sort.None? then [] else FromPairs(LegacyKept(attributes, Split(sort.value, COMMA)))
  }

  /** The order expressions of `build_order_expression`. */
  function ArelOrders(attributes: set<Text>, sort: Option<Text>): SortSpec
  {
    if sort.None? then [] else LegacyKept(attributes, Split(sort.value, COMMA))
  }

  // ---------------------------------------------------------------- the filter

  /** What `filter_with_primary_key` asks of a row: the first entry's column strictly
      greater than its value, every later entry's column equal to its value. */
  predicate PrimaryKeyMatch(params: OMap<Text, Option<Text>>, row: Row)
  {
    && (|params| > 0 ==> params[0].1.Some? && Less(params[0].1.value, Field(row, params[0].0)))
    && forall i | 1 <= i < |params| :: params[i].1.Some? && Field(row, params[i].0) == params[i].1.value
  }

  /** `filter_with_primary_key(params)`: folds the entries into `first > v0 AND c1 = v1 AND ...`;
      no entries leave the unfiltered relation. */
  method FilterWithPrimaryKey(params: OMap<Text, Option<Text>>) returns (result: Pred)
    ensures forall row :: Holds(result, row) <==> PrimaryKeyMatch(params, row)
  {
    result := Everything;
    var i := 0;
    while i < |params|
      invariant 0 <= i <= |params|
      invariant forall row :: Holds(result, row) <==> PrimaryKeyMatch(params[..i], row)
    {
      var entry := params[i];
      if i == 0 {
        result := Greater(entry.0, entry.1);
      } else {
        result := And(result, Equal(entry.0, entry.1));
      }
      i := i + 1;
    }
    assert params[..i] == params;
  }

  /** `decode_cursor_params[primary_key]`: nil when the key is absent or null. */
  function Lookup(params: OMap<Text, Option<Text>>, key: Text): Option<Text>
  {
    var v := Get(params, key);
    if v.None? then None else v.value
  }

  /** `create_custom_expression(after, sorted_columns)`: with no sort columns, rows whose
      primary key is beyond the cursor's; with sort columns, `filter_with_ordered_columns`
      raises before any filter is built. */
  function CustomExpression(codec: JsonCodec, primaryKey: Text, token: Text, sortedColumns: SortSpec): Result<Pred, Error>
  {
    var text := Base64.Decode(token);
    if text.None? then Failure(ArgumentError)
    else
      var params := codec.parse(text.value);
      if params.None? then Failure(JsonParserError)
      else if sortedColumns == [] then Success(Greater(primaryKey, Lookup(params.value, primaryKey)))
      else Failure(ArgumentError)
  }

  /** `where(pred)`: the rows `pred` is TRUE for, in order. */
  function Filter(rows: seq<Row>, pred: Pred): (r: seq<Row>)
    ensures |r| <= |rows|
    ensures forall x :: x in r <==> x in rows && Holds(pred, x)
  {
    if |rows| == 0 then []
    else if Holds(pred, rows[0]) then [rows[0]] + Filter(rows[1..], pred)
    else Filter(rows[1..], pred)
  }

  // ---------------------------------------------------------------- the next cursor

  /** `row.send(column)`: the column's value, except that `id` is ActiveRecord's `#id`, the
      value of the primary key. */
  function Send(primaryKey: Text, row: Row, column: Text): Text
  {
    if column == ID then Field(row, primaryKey) else Field(row, column)
  }

  /** The map `next_cursor` serialises: `id` (the primary key's value) first, then each sort
      column, all read off `row`. `to_json` writes the `:id` symbol key as the string `id`, so a
      sort column named `id` lands on the same key. */
  function CursorMap(primaryKey: Text, sortedColumns: SortSpec, row: Row): OMap<Text, Text>
  {
    if |sortedColumns| == 0 then [(ID, Send(primaryKey, row, ID))]
    else
      var key := sortedColumns[|sortedColumns| - 1].0;
      Put(CursorMap(primaryKey, sortedColumns[..|sortedColumns| - 1], row), key, Send(primaryKey, row, key))
  }

  const ID: Text := [105, 100]   // "id"

  /** The cursor map holds `id` and each sort column once, `id` first with the primary key's
      value, and every other value is the row's own value of that column. */
  lemma {:induction false} CursorMapContents(primaryKey: Text, sortedColumns: SortSpec, row: Row)
    ensures var m := CursorMap(primaryKey, sortedColumns, row);
      && Distinct(Keys(m))
      && m[0] == (ID, Field(row, primaryKey))
      && (forall k :: k in Keys(m) <==> k == ID || k in Keys(sortedColumns))
      && (forall i | 0 <= i < |m| :: m[i].1 == Send(primaryKey, row, m[i].0))
    decreases |sortedColumns|
  {
    if |sortedColumns| > 0 {
      var init := sortedColumns[..|sortedColumns| - 1];
      CursorMapContents(primaryKey, init, row);
      var key := sortedColumns[|sortedColumns| - 1].0;
      var m0 := CursorMap(primaryKey, init, row);
      PutDistinct(m0, key, Send(primaryKey, row, key));
      PutValues(primaryKey, m0, key, Send(primaryKey, row, key), row);
      assert forall k :: k in Keys(sortedColumns) <==> k in Keys(init) || k == key by {
        assert Keys(sortedColumns) == Keys(init) + [key];
      }
    }
  }

  /** `merge!` keeps a map whose values are `row`'s own values so, given `row`'s value, and
      keeps its first entry when that is `id`. */
  lemma PutValues(primaryKey: Text, m: OMap<Text, Text>, k: Text, v: Text, row: Row)
    requires forall i | 0 <= i < |m| :: m[i].1 == Send(primaryKey, row, m[i].0)
    requires v == Send(primaryKey, row, k)
    requires |m| > 0
    ensures var r := Put(m, k, v);
      && (forall i | 0 <= i < |r| :: r[i].1 == Send(primaryKey, row, r[i].0))
      && Keys(r)[0] == Keys(m)[0]
  {
    var j := Position(m, k);
    PositionIs(m, k, j);
  }

  /** `next_cursor(collection, sorted_columns)`: `''` unless there is more to page; otherwise
      the JSON of the cursor map of the last record, Base64 encoded. */
  method NextCursor(codec: JsonCodec, primaryKey: Text, collection: Relation, sortedColumns: SortSpec)
    returns (token: Text)
    requires collection.Valid()
    modifies collection`totalSize, collection`leftOver
    ensures collection.Valid()
    ensures token == NextToken(codec, primaryKey, collection.records, |collection.scope|, sortedColumns)
  {
    var more := collection.IsLeftOver();
    if !more {
      return [];
    }
    var last := collection.records[|collection.records| - 1];
    var cursor := [(ID, Field(last, primaryKey))];
    var i := 0;
    while i < |sortedColumns|
      invariant 0 <= i <= |sortedColumns|
      invariant cursor == CursorMap(primaryKey, sortedColumns[..i], last)
    {
      var key := sortedColumns[i].0;
      assert sortedColumns[..i + 1][..i] == sortedColumns[..i];
      cursor := Put(cursor, key, Send(primaryKey, last, key));
      i := i + 1;
    }
    assert sortedColumns[..i] == sortedColumns;
    token := Base64.Encode(codec.generate(cursor));
  }

  /** The next cursor of a page of `records` out of a scope of `totalSize` rows. */
  function NextToken(codec: JsonCodec, primaryKey: Text, records: seq<Row>, totalSize: nat,
                     sortedColumns: SortSpec): Text
  {
    if !LeftOver(|records|, totalSize) then []
    else Base64.Encode(codec.generate(CursorMap(primaryKey, sortedColumns, records[|records| - 1])))
  }

  // ---------------------------------------------------------------- the call

  /** `pager(after:, limit:, sort:)` against `table`, with `configLimit` the configured default
      page size. */
  function LegacyPaginate(table: Table, codec: JsonCodec, configLimit: int, after: Option<Text>,
                          limit: Option<int>, sort: Option<Text>): Result<Page, Error>
  {
    var sortedColumns := SortedParams(table.attributeNames, sort);
    var filter := if after.None? then Success(Everything)
                  else CustomExpression(codec, table.primaryKey, after.value, sortedColumns);
    if filter.Failure? then Failure(filter.error)
    else
      var scope := Filter(table.rows, filter.value);
      var records := Take(OrderBy(ArelOrders(table.attributeNames, sort), scope), limit.GetOr(configLimit));
      Success(Page(records, NextToken(codec, table.primaryKey, records, |scope|, sortedColumns)))
  }

  /** `pager(after:, limit:, sort:)`: builds the order, the filter and the relation, then the
      next cursor. */
  method Pager(table: Table, codec: JsonCodec, configLimit: int, after: Option<Text>,
               limit: Option<int>, sort: Option<Text>) returns (r: Result<Page, Error>)
    ensures r == LegacyPaginate(table, codec, configLimit, after, limit, sort)
  {
    var pageLimit := limit.GetOr(configLimit);
    var sortedColumns, sorter := BuildOrderExpression(table.attributeNames, sort);
    var filter: Pred;
    if after.None? {
      filter := Everything;
    } else {
      var custom := CustomExpression(codec, table.primaryKey, after.value, sortedColumns);
      if custom.Failure? {
        return Failure(custom.error);
      }
      filter := custom.value;
    }
    var scope := Filter(table.rows, filter);
    var collection := new Relation(Take(OrderBy(sorter, scope), pageLimit), scope);
    var nextCursor := NextCursor(codec, table.primaryKey, collection, sortedColumns);
    r := Success(Page(collection.records, nextCursor));
  }

  // ---------------------------------------------------------------- properties

  /** `where` with no condition keeps every row, in order. */
  lemma {:induction false} FilterEverything(rows: seq<Row>)
    ensures Filter(rows, Everything) == rows
  {
    if |rows| > 0 {
      FilterEverything(rows[1..]);
      assert rows == [rows[0]] + rows[1..];
    }
  }

  /** A first call (no `after`) pages the first `limit` rows of the whole table, or the
      configured limit's, in the order the sort string asks for; the next cursor is `''`
      unless rows remain beyond the page, and is then read off the page's last record. An
      empty table gives no records and `''`. */
  lemma LegacyFirstPage(table: Table, codec: JsonCodec, configLimit: int, limit: Option<int>,
                        sort: Option<Text>)
    ensures var pageLimit := limit.GetOr(configLimit);
      var orders := ArelOrders(table.attributeNames, sort);
      var r := LegacyPaginate(table, codec, configLimit, None, limit, sort);
      && r.Success?
      && r.value.records == Take(OrderBy(orders, table.rows), pageLimit)
      && |r.value.records| == (if pageLimit <= 0 then 0 else if pageLimit < |table.rows| then pageLimit else |table.rows|)
      && Sorted(orders, r.value.records)
      && (0 < pageLimit < |table.rows| ==>
            r.value.nextCursor == Base64.Encode(codec.generate(
              CursorMap(table.primaryKey, SortedParams(table.attributeNames, sort), r.value.records[|r.value.records| - 1]))))
      && (!(0 < pageLimit < |table.rows|) ==> r.value.nextCursor == [])
      && (table.rows == [] ==> r.value == Page([], []))
  {
    FilterEverything(table.rows);
    PagerProperties.RecordsAreFirstRows(ArelOrders(table.attributeNames, sort), table.rows, limit.GetOr(configLimit));
  }

  /** A call with an `after` token: a token that is not strict Base64 raises `ArgumentError`
      and text that is not JSON raises `JSON::ParserError`; past those, a sort that keeps any
      column raises `ArgumentError` and no sort pages rows whose primary key is beyond the
      cursor's. */
  lemma LegacyAfter(table: Table, codec: JsonCodec, configLimit: int, token: Text, limit: Option<int>,
                    sort: Option<Text>)
    ensures var r := LegacyPaginate(table, codec, configLimit, Some(token), limit, sort);
      var text := Base64.Decode(token);
      && (text.None? ==> r == Failure(ArgumentError))
      && (text.Some? && codec.parse(text.value).None? ==> r == Failure(JsonParserError))
      && (text.Some? && codec.parse(text.value).Some? ==>
            && (r.Success? <==> SortedParams(table.attributeNames, sort) == [])
            && (r.Failure? ==> r.error == ArgumentError)
            && (r.Success? ==>
                  forall x | x in r.value.records ::
                    x in table.rows &&
                    Holds(Greater(table.primaryKey, Lookup(codec.parse(text.value).value, table.primaryKey)), x)))
  {
    var text := Base64.Decode(token);
    if text.Some? && codec.parse(text.value).Some? && SortedParams(table.attributeNames, sort) == [] {
      var pred := Greater(table.primaryKey, Lookup(codec.parse(text.value).value, table.primaryKey));
      PagerProperties.RecordsAreFirstRows(ArelOrders(table.attributeNames, sort),
                                          Filter(table.rows, pred), limit.GetOr(configLimit));
    }
  }
}
