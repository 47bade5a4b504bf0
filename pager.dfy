/** `RbPager::ActiveRecord::ClassMethods`: the paginator mixed into a model class. Its state is
    the class-level instance variables one `pager` call sets and memoises (`@page_limit`,
    `@sort`, `@after`, `@before`, `@direction`, `@sorted_columns`, `@collection`); each method
    is proved to leave that state as the functions of module PagerSpec say. */
module RbPager {
  import opened Wrappers
  import opened Text
  import opened OrderedMap
  import opened Store
  import opened Base64Encoder
  import opened ActiveRecordRelationMethods
  import opened PagerSpec
  import Configuration

  class Model {
    const table: Table
    const configuration: Configuration.Configuration
    var pageLimit: int
    var sort: Option<Text>
    var after: Option<Cursor>
    var before: Option<Cursor>
    var direction: Direction
    var sortedColumns: Option<SortSpec>
    var collection: Relation?

    constructor (table: Table, configuration: Configuration.Configuration)
      ensures this.table == table && this.configuration == configuration
      ensures sort == None && after == None && before == None && direction == Next
      ensures sortedColumns == None && collection == null
    {
      this.table := table;
      this.configuration := configuration;
      pageLimit := 0;
      sort := None;
      after := None;
      before := None;
      direction := Next;
      sortedColumns := None;
      collection := null;
    }

    /** The sort the current `@sort` string stands for. */
    function Spec(): SortSpec
      reads this`sort
    {
      SortedColumns(table.attributeNames, sort)
    }

    /** The memoised `@sorted_columns`, when set, is the parse of the current `@sort`. */
    ghost predicate SortCurrent()
      reads this`sortedColumns, this`sort
    {
      sortedColumns.Some? ==> sortedColumns.value == Spec()
    }

    /** The memoised `@collection`, when set, holds the scope both boundaries admit and its
        first `@page_limit` rows in sort order. */
    ghost predicate CollectionCurrent()
      reads this`collection, this`sort, this`after, this`before, this`pageLimit, collection
    {
      collection != null ==>
        && collection.Valid()
        && collection.scope == ScopeOf(table.rows, Spec(), after, before)
        && collection.records == RecordsOf(Spec(), collection.scope, pageLimit)
    }

    ghost predicate Valid()
      reads this`sortedColumns, this`collection, this`sort, this`after, this`before, this`pageLimit, collection
    {
      SortCurrent() && CollectionCurrent()
    }

    /** `construct_sorted_columns`: one pass over the comma-separated fields, each kept under
        its unsigned name when that names an attribute. */
    method ConstructSortedColumns() returns (params: SortSpec)
      requires sort.Some?
      ensures params == ParseSort(table.attributeNames, sort.value)
    {
      params := [];
      var fields := Split(sort.value, COMMA);
      var i := 0;
      while i < |fields|
        invariant 0 <= i <= |fields|
        invariant params == FromPairs(KeptFields(table.attributeNames, fields[..i]))
      {
        var field := SignedField(fields[i]);
        ghost var kept := KeptFields(table.attributeNames, fields[..i]);
        assert fields[..i + 1][..i] == fields[..i];
        if field.0 in table.attributeNames {
          assert KeptFields(table.attributeNames, fields[..i + 1]) == kept + [field];
          assert (kept + [field])[..|kept|] == kept;
          params := Put(params, field.0, field.1);
        } else {
          assert KeptFields(table.attributeNames, fields[..i + 1]) == kept;
        }
        i := i + 1;
      }
      assert fields[..i] == fields;
    }

    /** `sorted_columns`: memoised; `{}` for a nil sort string. */
    method SortedColumnsMemo() returns (spec: SortSpec)
      requires SortCurrent()
      modifies this`sortedColumns
      ensures SortCurrent()
      ensures spec == Spec() && sortedColumns == Some(spec)
    {
      if sortedColumns.Some? {
        return sortedColumns.value;
      }
      if sort.None? {
        spec := [];
      } else {
        spec := ConstructSortedColumns();
      }
      sortedColumns := Some(spec);
    }

    /** `apply_after`: no boundary without an `after` cursor; otherwise `>` under an
        all-ascending sort and `<` (turning the direction to `:prev`) under any other. */
    method ApplyAfter() returns (b: Option<Boundary>)
      requires SortCurrent()
      modifies this`sortedColumns, this`direction
      ensures SortCurrent()
      ensures b == AfterOf(Spec(), after)
      ensures direction == if after.Some? && !AllAsc(Spec()) then Prev else old(direction)
      ensures after.None? ==> sortedColumns == old(sortedColumns)
    {
      if after.None? {
        return None;
      }
      var spec := SortedColumnsMemo();
      if AllAsc(spec) {
        b := Some(Boundary(Gt, Keys(after.value), Values(after.value)));
      } else {
        direction := Prev;
        b := Some(Boundary(Lt, Keys(after.value), Values(after.value)));
      }
    }

    /** `apply_before`: no boundary without a `before` cursor; otherwise `<` (turning the
        direction to `:prev`) under an all-ascending sort and `>` under any other. */
    method ApplyBefore() returns (b: Option<Boundary>)
      requires SortCurrent()
      modifies this`sortedColumns, this`direction
      ensures SortCurrent()
      ensures b == BeforeOf(Spec(), before)
      ensures direction == if before.Some? && AllAsc(Spec()) then Prev else old(direction)
      ensures before.None? ==> sortedColumns == old(sortedColumns)
    {
      if before.None? {
        return None;
      }
      var spec := SortedColumnsMemo();
      if AllAsc(spec) {
        direction := Prev;
        b := Some(Boundary(Lt, Keys(before.value), Values(before.value)));
      } else {
        b := Some(Boundary(Gt, Keys(before.value), Values(before.value)));
      }
    }

    /** `collection`: memoised; built as `where(apply_after).where(apply_before)
        .order(sorted_columns).limit(@page_limit)`. */
    method Collection() returns (c: Relation)
      requires Valid()
      modifies this`sortedColumns, this`direction, this`collection
      ensures Valid()
      ensures c == collection
      ensures old(collection) != null ==>
        c == old(collection) && direction == old(direction) && sortedColumns == old(sortedColumns)
      ensures old(collection) == null ==>
        && fresh(c) && c.totalSize == None && c.leftOver == None
        && direction == Redirected(old(direction), Spec(), after, before)
    {
      if collection != null {
        return collection;
      }
      var a := ApplyAfter();
      var b := ApplyBefore();
      var spec := SortedColumnsMemo();
      var scope := Where(Where(table.rows, a), b);
      c := new Relation(RecordsOf(spec, scope, pageLimit), scope);
      collection := c;
    }

    /** The prev and next tokens read off `first` and `last`: one `col:value` entry per sort
        column in sort order, datetimes through `rfc3339(9)`, or the primary key alone under an
        empty sort; the entries joined with `,` and strict-Base64 encoded. */
    method CursorTokens(spec: SortSpec, first: Row, last: Row) returns (prevToken: Text, nextToken: Text)
      ensures prevToken == CursorOf(table, spec, first)
      ensures nextToken == CursorOf(table, spec, last)
    {
      var prevCursor, nextCursor := [], [];
      if |spec| == 0 {
        prevCursor := [Entry(table.primaryKey, Field(first, table.primaryKey))];
        nextCursor := [Entry(table.primaryKey, Field(last, table.primaryKey))];
      } else {
        var i := 0;
        while i < |spec|
          invariant 0 <= i <= |spec|
          invariant |prevCursor| == i && |nextCursor| == i
          invariant forall j | 0 <= j < i ::
            prevCursor[j] == Entry(spec[j].0, CursorValue(table, spec[j].0, first)) &&
            nextCursor[j] == Entry(spec[j].0, CursorValue(table, spec[j].0, last))
        {
          var key := spec[i].0;
          if key in table.datetimeColumns {
            prevCursor := prevCursor + [Entry(key, table.rfc3339(Field(first, key)))];
            nextCursor := nextCursor + [Entry(key, table.rfc3339(Field(last, key)))];
          } else {
            prevCursor := prevCursor + [Entry(key, Field(first, key))];
            nextCursor := nextCursor + [Entry(key, Field(last, key))];
          }
          i := i + 1;
        }
      }
      assert prevCursor == EntryTexts(CursorEntries(table, spec, first));
      assert nextCursor == EntryTexts(CursorEntries(table, spec, last));
      prevToken, nextToken := Encode(Join(prevCursor, COMMA)), Encode(Join(nextCursor, COMMA));
    }

    /** `cursor(collection)`: the two tokens read off the page's first and last records, with
        the suppression rules of `Cursors`. */
    method Cursor(c: Relation) returns (r: Result<Meta, Error>)
      requires SortCurrent() && c.Valid()
      modifies this`sortedColumns, c`totalSize, c`leftOver
      ensures SortCurrent() && c.Valid()
      ensures r == Cursors(table, Spec(), c.records, |c.scope|,
                           after.None? && before.None?, direction)
    {
      var total := c.TotalSize();
      if total == 0 {
        r := Success(Meta([], []));
      } else {
        var spec := SortedColumnsMemo();
        var records := c.records;
        if |records| == 0 {
          r := Failure(NoRecord);
        } else {
          var prevToken, nextToken := CursorTokens(spec, records[0], records[|records| - 1]);
          if after.None? && before.None? {
            r := Success(Meta([], nextToken));
          } else {
            var more := c.IsLeftOver();
            if direction == Prev && !more {
              r := Success(Meta([], nextToken));
            } else if direction == Next && !more {
              r := Success(Meta(prevToken, []));
            } else {
              r := Success(Meta(prevToken, nextToken));
            }
          }
        }
      }
    }

    /** `create_paginate_meta`: the cursors of the collection, then the collection itself. */
    method CreatePaginateMeta(ghost pageLimit0: int, ghost after0: Option<Cursor>,
                              ghost before0: Option<Cursor>, ghost sort0: Option<Text>)
      returns (r: Result<Page, Error>)
      requires pageLimit == pageLimit0 && after == after0 && before == before0 && sort == sort0
      requires sortedColumns == None && collection == null && direction == Next
      modifies this`sortedColumns, this`direction, this`collection
      ensures unchanged(this`pageLimit, this`sort, this`after, this`before)
      ensures Valid() && collection != null
      ensures direction == Redirected(Next, SortedColumns(table.attributeNames, sort0), after0, before0)
      ensures r == PageOf(table, pageLimit0, after0, before0, sort0)
    {
      var c := Collection();
      assert c.scope == ScopeOf(table.rows, Spec(), after, before);
      assert c.records == RecordsOf(Spec(), c.scope, pageLimit);
      var meta := Cursor(c);
      var c' := Collection();
      if meta.Failure? {
        return Failure(meta.error);
      }
      r := Success(Page(c'.records, meta.value));
    }

    /** `pager(after:, before:, limit:, sort:)`: rejects a limit below 1 before touching any
        state; otherwise clears the memos, stores the inputs and decoded cursors, and pages. */
    method Pager(after: Option<Text>, before: Option<Text>, limit: Option<int>, sort: Option<Text>)
      returns (r: Result<Page, Error>)
      modifies this
      ensures r == Paginate(table, old(configuration.limit), after, before, limit, sort)
      ensures limit.Some? && limit.value < 1 ==> unchanged(this)
      ensures r.Success? ==>
        && Valid() && collection != null
        && this.pageLimit == limit.GetOr(old(configuration.limit)) && this.sort == sort
        && this.after == Decode(after).value && this.before == Decode(before).value
        && direction == Redirected(Next, SortedColumns(table.attributeNames, sort), Decode(after).value, Decode(before).value)
    {
      if limit.Some? && limit.value < 1 {
        r := Failure(InvalidLimitValue);
      } else {
        var configLimit := configuration.limit;
        sortedColumns, collection, pageLimit, this.sort := None, null, limit.GetOr(configLimit), sort;
        var a := Decode(after);
        if a.Failure? {
          r := Failure(MalformedCursor(a.error));
        } else {
          this.after := a.value;
          var b := Decode(before);
          if b.Failure? {
            r := Failure(MalformedCursor(b.error));
          } else {
            this.before, direction := b.value, Next;
            r := CreatePaginateMeta(limit.GetOr(configLimit), a.value, b.value, sort);
          }
        }
      }
    }
  }
}
