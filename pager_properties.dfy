/** What a `pager` call promises: the page is the first rows of the filtered, ordered scope;
    a cursor read off a row and passed back selects exactly the rows on one side of that row;
    and which cursors are suppressed. */
module PagerProperties {
  import opened Wrappers
  import opened Text
  import opened OrderedMap
  import opened Store
  import opened Base64Encoder
  import opened ActiveRecordRelationMethods
  import opened PagerSpec

  // ---------------------------------------------------------------- the page

  /** A page is the first `min(page_limit, total_size)` rows of the scope in sort order: sorted,
      drawn from the scope, and holding every scope row that sorts before one of its rows. */
  lemma {:induction false} RecordsAreFirstRows(spec: SortSpec, scope: seq<Row>, pageLimit: int)
    ensures var r := RecordsOf(spec, scope, pageLimit);
      && |r| == (if pageLimit <= 0 then 0 else if pageLimit < |scope| then pageLimit else |scope|)
      && Sorted(spec, r)
      && (forall x | x in r :: x in scope)
      && multiset(r) <= multiset(scope)
      && (forall x, y | x in scope && y in r && KeyLess(spec, x, y) :: x in r)
  {
    var s := OrderBy(spec, scope);
    var r := Take(s, pageLimit);
    OrderByPermutes(spec, scope);
    SortedPrefix(spec, s, |r|);
    assert r == s[..|r|];
    assert forall x :: x in scope <==> x in s by {
      forall x ensures x in scope <==> x in s {
        assert x in scope <==> x in multiset(scope);
        assert x in s <==> x in multiset(s);
      }
    }
  }

  /** A prefix of a sorted sequence is sorted, holds no row more often than the sequence,
      and holds every row of it that sorts before one of its rows. */
  lemma SortedPrefix(spec: SortSpec, s: seq<Row>, n: nat)
    requires Sorted(spec, s) && n <= |s|
    ensures Sorted(spec, s[..n])
    ensures multiset(s[..n]) <= multiset(s)
    ensures forall x | x in s[..n] :: x in s
    ensures forall x, y | x in s && y in s[..n] && KeyLess(spec, x, y) :: x in s[..n]
  {
    assert s == s[..n] + s[n..];
    SortedAll(spec, s);
    forall x, y | x in s && y in s[..n] && KeyLess(spec, x, y) ensures x in s[..n] {
      var p :| 0 <= p < |s| && s[p] == x;
      var q :| 0 <= q < n && s[..n][q] == y;
      SortedPosition(spec, s, p, q);
      assert s[..n][p] == x;
    }
  }

  /** In a sorted sequence a row that sorts strictly before another sits at an earlier index. */
  lemma SortedPosition(spec: SortSpec, s: seq<Row>, i: int, j: int)
    requires Sorted(spec, s)
    requires 0 <= i < |s| && 0 <= j < |s|
    requires KeyLess(spec, s[i], s[j])
    ensures i < j
  {
    SortedAll(spec, s);
    KeyLessAsymmetric(spec, s[i], s[j]);
  }

  /** `left_over?` holds exactly when the scope has more rows than the page limit admits. */
  lemma LeftOverMeansMore(spec: SortSpec, scope: seq<Row>, pageLimit: int)
    ensures LeftOver(|RecordsOf(spec, scope, pageLimit)|, |scope|) <==> 0 < pageLimit < |scope|
  {
  }

  /** A successful call pages the rows that both boundaries admit, in sort order, with a page
      limit of `limit` when one is given, not clamped to `max_limit`, and the configured limit
      otherwise. */
  lemma PageShape(table: Table, configLimit: int, after: Option<Text>, before: Option<Text>,
                  limit: Option<int>, sort: Option<Text>)
    requires Paginate(table, configLimit, after, before, limit, sort).Success?
    ensures var a, b := Decode(after).value, Decode(before).value;
      var spec := SortedColumns(table.attributeNames, sort);
      var scope := ScopeOf(table.rows, spec, a, b);
      var pageLimit := limit.GetOr(configLimit);
      var page := Paginate(table, configLimit, after, before, limit, sort).value;
      && page.records == RecordsOf(spec, scope, pageLimit)
      && (limit.Some? ==> |page.records| == if limit.value < |scope| then limit.value else |scope|)
      && Sorted(spec, page.records)
      && multiset(page.records) <= multiset(table.rows)
      && (forall x | x in page.records ::
            x in table.rows && Admits(AfterOf(spec, a), x) && Admits(BeforeOf(spec, b), x))
  {
    var a, b := Decode(after).value, Decode(before).value;
    var spec := SortedColumns(table.attributeNames, sort);
    var scope := ScopeOf(table.rows, spec, a, b);
    var r := RecordsOf(spec, scope, limit.GetOr(configLimit));
    var page := Paginate(table, configLimit, after, before, limit, sort);
    assert page == PageOf(table, limit.GetOr(configLimit), a, b, sort);
    assert page.value.records == r;
    RecordsAreFirstRows(spec, scope, limit.GetOr(configLimit));
    ScopeCounts(table.rows, spec, a, b);
    assert multiset(r) <= multiset(table.rows) by {
      assert multiset(r) <= multiset(scope) <= multiset(table.rows);
    }
  }

  /** The scope repeats no table row beyond its count in the table. */
  lemma ScopeCounts(rows: seq<Row>, spec: SortSpec, after: Option<Cursor>, before: Option<Cursor>)
    ensures multiset(ScopeOf(rows, spec, after, before)) <= multiset(rows)
  {
    var first := Where(rows, AfterOf(spec, after));
    WhereCounts(rows, AfterOf(spec, after));
    WhereCounts(first, BeforeOf(spec, before));
  }

  // ---------------------------------------------------------------- the cursors

  lemma TokenNonEmpty(entries: seq<(Text, Text)>)
    requires |entries| > 0
    ensures Token(entries) != []
  {
    var texts := EntryTexts(entries);
    assert COLON in texts[0];
    assert Join(texts, COMMA) != [];
  }

  /** The cursor rules of `cursor`: an empty scope yields two empty cursors; otherwise a page
      with a first record yields prev from it and next from its last record, prev empty on the
      first page and on a backward page with nothing left over, next empty on a forward page
      with nothing left over; a scope with rows but an empty page has no record to read. */
  lemma CursorRules(table: Table, spec: SortSpec, records: seq<Row>, totalSize: nat,
                    firstPage: bool, direction: Direction)
    ensures var r := Cursors(table, spec, records, totalSize, firstPage, direction);
      var more := LeftOver(|records|, totalSize);
      && (totalSize == 0 ==> r == Success(Meta([], [])))
      && (totalSize > 0 && |records| == 0 ==> r == Failure(NoRecord))
      && (totalSize > 0 && |records| > 0 ==>
            && r.Success?
            && (r.value.prevCursor == [] <==> firstPage || (direction == Prev && !more))
            && (r.value.nextCursor == [] <==> !firstPage && direction == Next && !more)
            && (r.value.prevCursor != [] ==> r.value.prevCursor == CursorOf(table, spec, records[0]))
            && (r.value.nextCursor != [] ==>
                  r.value.nextCursor == CursorOf(table, spec, records[|records| - 1])))
  {
    if totalSize > 0 && |records| > 0 {
      TokenNonEmpty(CursorEntries(table, spec, records[0]));
      TokenNonEmpty(CursorEntries(table, spec, records[|records| - 1]));
    }
  }

  /** A first call (no cursors) returns no prev cursor and a next cursor read off the page's
      last record; over an empty table both cursors are empty. */
  lemma FirstPageCursors(table: Table, configLimit: int, limit: Option<int>, sort: Option<Text>)
    requires Paginate(table, configLimit, None, None, limit, sort).Success?
    ensures var spec := SortedColumns(table.attributeNames, sort);
      var page := Paginate(table, configLimit, None, None, limit, sort).value;
      && page.meta.prevCursor == []
      && (page.records != [] ==>
            page.meta.nextCursor == CursorOf(table, spec, page.records[|page.records| - 1]))
      && (|table.rows| == 0 ==> page.meta == Meta([], []))
  {
    var spec := SortedColumns(table.attributeNames, sort);
    var pageLimit := limit.GetOr(configLimit);
    assert Decode(None) == Success(None);
    assert Paginate(table, configLimit, None, None, limit, sort) == PageOf(table, pageLimit, None, None, sort);
    var scope := ScopeOf(table.rows, spec, None, None);
    CursorRules(table, spec, RecordsOf(spec, scope, pageLimit), |scope|, true, Next);
  }

  // ---------------------------------------------------------------- resuming from a cursor

  /** `spec` with every column in direction `dir`. */
  function WithDir(spec: SortSpec, dir: Dir): (r: SortSpec)
    ensures Keys(r) == Keys(spec)
    ensures (forall i | 0 <= i < |spec| :: spec[i].1 == dir) ==> r == spec
  {
    seq(|spec|, i requires 0 <= i < |spec| => (spec[i].0, dir))
  }

  /** Every value of `row` at `columns`, none of them NULL. */
  function Known(row: Row, columns: seq<Text>): (vs: seq<Option<Text>>)
    ensures |vs| == |columns|
    ensures forall i | 0 <= i < |columns| :: vs[i] == Some(Field(row, columns[i]))
  {
    seq(|columns|, i requires 0 <= i < |columns| => Some(Field(row, columns[i])))
  }

  function DirOf(op: Op): Dir
  {
    if op == Gt then Asc else Desc
  }

  /** `(columns) > (values of a)` selects the rows after `a` in ascending order on those
      columns, `(columns) < (values of a)` the rows after it in descending order. */
  lemma {:induction false} TupleBeyondIsKeyLess(op: Op, spec: SortSpec, a: Row, x: Row)
    ensures TupleBeyond(op, Fields(x, Keys(spec)), Known(a, Keys(spec)))
        <==> KeyLess(WithDir(spec, DirOf(op)), a, x)
    decreases |spec|
  {
    if |spec| > 0 {
      var cols := Keys(spec);
      assert Fields(x, cols)[1..] == Fields(x, Keys(spec[1..]));
      assert Known(a, cols)[1..] == Known(a, Keys(spec[1..]));
      assert WithDir(spec, DirOf(op))[1..] == WithDir(spec[1..], DirOf(op));
      TupleBeyondIsKeyLess(op, spec[1..], a, x);
    }
  }

  /** Descending order is ascending order reversed. */
  lemma {:induction false} DescIsReversedAsc(spec: SortSpec, a: Row, b: Row)
    ensures KeyLess(WithDir(spec, Desc), a, b) <==> KeyLess(WithDir(spec, Asc), b, a)
    decreases |spec|
  {
    if |spec| > 0 {
      assert WithDir(spec, Desc)[1..] == WithDir(spec[1..], Desc);
      assert WithDir(spec, Asc)[1..] == WithDir(spec[1..], Asc);
      DescIsReversedAsc(spec[1..], a, b);
    }
  }

  /** The cursor read off `row` decodes to its cursor columns paired with `row`'s values, as
      long as no column name holds a comma or colon and no value a comma. */
  lemma {:induction false} CursorDecodes(table: Table, sort: Option<Text>, row: Row)
    requires forall c | c in table.attributeNames :: COLON !in c
    requires COMMA !in table.primaryKey && COLON !in table.primaryKey
    requires var spec := SortedColumns(table.attributeNames, sort);
      forall i | 0 <= i < |spec| :: spec[i].0 !in table.datetimeColumns
    requires var cs := CursorSpec(SortedColumns(table.attributeNames, sort), table.primaryKey);
      forall i | 0 <= i < |cs| :: COMMA !in Field(row, cs[i].0)
    ensures var spec := SortedColumns(table.attributeNames, sort);
      var cs := CursorSpec(spec, table.primaryKey);
      var cursor := Lift(CursorEntries(table, spec, row));
      && Decode(Some(CursorOf(table, spec, row))) == Success(Some(cursor))
      && Keys(cursor) == Keys(cs)
      && Values(cursor) == Known(row, Keys(cs))
  {
    var spec := SortedColumns(table.attributeNames, sort);
    var cs := CursorSpec(spec, table.primaryKey);
    var entries := CursorEntries(table, spec, row);
    if sort.Some? {
      ParseSortShape(table.attributeNames, sort.value);
    }
    assert Distinct(Keys(entries));
    assert Encodable(entries);
    RoundTrip(entries);
    var cursor := Lift(entries);
    assert Values(cursor) == Known(row, Keys(cs));
  }

  /** The direction the cursor's boundary compares in: ascending under an all-ascending sort,
      descending otherwise. */
  function ResumeDir(spec: SortSpec): Dir
  {
    if AllAsc(spec) then Asc else Desc
  }

  /** Keyset resumption: passing the cursor read off `last` as `after` selects exactly the
      table's rows that follow `last` on the cursor columns. Under a sort whose columns share
      one direction this is the sort order itself, so the next page starts right after `last`. */
  lemma ResumeAfter(table: Table, sort: Option<Text>, last: Row)
    requires forall c | c in table.attributeNames :: COLON !in c
    requires COMMA !in table.primaryKey && COLON !in table.primaryKey
    requires var spec := SortedColumns(table.attributeNames, sort);
      forall i | 0 <= i < |spec| :: spec[i].0 !in table.datetimeColumns
    requires var cs := CursorSpec(SortedColumns(table.attributeNames, sort), table.primaryKey);
      forall i | 0 <= i < |cs| :: COMMA !in Field(last, cs[i].0)
    ensures var spec := SortedColumns(table.attributeNames, sort);
      var cs := CursorSpec(spec, table.primaryKey);
      var token := CursorOf(table, spec, last);
      && Decode(Some(token)).Success?
      && var scope := ScopeOf(table.rows, spec, Decode(Some(token)).value, None);
      && (forall x :: x in scope <==> x in table.rows && KeyLess(WithDir(cs, ResumeDir(spec)), last, x))
      && Redirected(Next, spec, Decode(Some(token)).value, None) == (if AllAsc(spec) then Next else Prev)
  {
    var spec := SortedColumns(table.attributeNames, sort);
    var cs := CursorSpec(spec, table.primaryKey);
    CursorDecodes(table, sort, last);
    var cursor := Lift(CursorEntries(table, spec, last));
    var op := if AllAsc(spec) then Gt else Lt;
    forall x ensures Satisfies(x, AfterBoundary(spec, cursor)) <==> KeyLess(WithDir(cs, ResumeDir(spec)), last, x) {
      TupleBeyondIsKeyLess(op, cs, last, x);
    }
  }

  /** Passing the cursor read off `first` as `before` selects exactly the table's rows that
      precede `first` on the cursor columns. */
  lemma ResumeBefore(table: Table, sort: Option<Text>, first: Row)
    requires forall c | c in table.attributeNames :: COLON !in c
    requires COMMA !in table.primaryKey && COLON !in table.primaryKey
    requires var spec := SortedColumns(table.attributeNames, sort);
      forall i | 0 <= i < |spec| :: spec[i].0 !in table.datetimeColumns
    requires var cs := CursorSpec(SortedColumns(table.attributeNames, sort), table.primaryKey);
      forall i | 0 <= i < |cs| :: COMMA !in Field(first, cs[i].0)
    ensures var spec := SortedColumns(table.attributeNames, sort);
      var cs := CursorSpec(spec, table.primaryKey);
      var token := CursorOf(table, spec, first);
      && Decode(Some(token)).Success?
      && var scope := ScopeOf(table.rows, spec, None, Decode(Some(token)).value);
      && (forall x :: x in scope <==> x in table.rows && KeyLess(WithDir(cs, ResumeDir(spec)), x, first))
      && Redirected(Next, spec, None, Decode(Some(token)).value) == (if AllAsc(spec) then Prev else Next)
  {
    var spec := SortedColumns(table.attributeNames, sort);
    var cs := CursorSpec(spec, table.primaryKey);
    CursorDecodes(table, sort, first);
    var cursor := Lift(CursorEntries(table, spec, first));
    var op := if AllAsc(spec) then Lt else Gt;
    forall x ensures Satisfies(x, BeforeBoundary(spec, cursor)) <==> KeyLess(WithDir(cs, ResumeDir(spec)), x, first) {
      TupleBeyondIsKeyLess(op, cs, first, x);
      DescIsReversedAsc(cs, first, x);
      DescIsReversedAsc(cs, x, first);
    }
  }
}
