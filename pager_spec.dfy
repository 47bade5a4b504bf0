/** What one `pager` call of RbPager computes, as functions of its inputs: the sort parser, the
    boundary predicates and the direction flag they set, the page, and the two cursors. The
    class in module RbPager performs the same steps on its class-level state. */
module PagerSpec {
  import opened Wrappers
  import opened Text
  import opened OrderedMap
  import opened Store
  import opened Base64Encoder
  import opened ActiveRecordRelationMethods

  /** The model class the pager is mixed into: its attribute names, primary key, rows, the
      columns whose type is `:datetime`, and the text `rfc3339(9)` writes for a stored datetime
      value (Ruby's time formatting, taken as given). */
  datatype Table = Table(attributeNames: set<Text>, primaryKey: Text, rows: seq<Row>,
                         datetimeColumns: set<Text>, rfc3339: Text -> Text)

  datatype Error =
    | InvalidLimitValue                  // `InvalidLimitValueError`
    | MalformedCursor(cause: DecodeError) // `ArgumentError` from decoding a cursor
    | NoRecord                           // `NoMethodError`: a cursor read off a page with no first record

  datatype Direction = Next | Prev

  datatype Op = Gt | Lt

  /** `(columns) op (values)`, the Arel row comparison the pager builds from a cursor. */
  datatype Boundary = Boundary(op: Op, columns: seq<Text>, values: seq<Option<Text>>)

  datatype Meta = Meta(prevCursor: Text, nextCursor: Text)

  datatype Page = Page(records: seq<Row>, meta: Meta)

  // ---------------------------------------------------------------- sort string

  /** One field of the sort string: a leading `+` or `-` is stripped and picks the direction. */
  function SignedField(field: Text): (Text, Dir)
  {
    if |field| > 0 && field[0] == PLUS then (field[1..], Asc)
    else if |field| > 0 && field[0] == MINUS then (field[1..], Desc)
    else (field, Asc)
  }

  /** The fields whose unsigned name is an attribute, with their directions, in input order. */
  function KeptFields(attributes: set<Text>, fields: seq<Text>): (r: seq<(Text, Dir)>)
    ensures forall i | 0 <= i < |r| :: r[i].0 in attributes
  {
    if |fields| == 0 then []
    else
      var field := SignedField(fields[|fields| - 1]);
      KeptFields(attributes, fields[..|fields| - 1]) + (if field.0 in attributes then [field] else [])
  }

  /** A field is kept, with the direction its sign gives, exactly when its unsigned name is an
      attribute, and nothing else is kept. */
  lemma {:induction false} KeptFieldsExact(attributes: set<Text>, fields: seq<Text>)
    ensures var r := KeptFields(attributes, fields);
      && (forall i | 0 <= i < |fields| ::
            SignedField(fields[i]).0 in attributes <==> SignedField(fields[i]) in r)
      && (forall x | x in r :: exists i | 0 <= i < |fields| :: x == SignedField(fields[i]))
  {
    if |fields| > 0 {
      var init := fields[..|fields| - 1];
      KeptFieldsExact(attributes, init);
      forall x | x in KeptFields(attributes, fields)
        ensures exists i | 0 <= i < |fields| :: x == SignedField(fields[i])
      {
        if x in KeptFields(attributes, init) {
          var i :| 0 <= i < |init| && x == SignedField(init[i]);
          assert fields[i] == init[i];
        } else {
          assert x == SignedField(fields[|fields| - 1]);
        }
      }
      forall i | 0 <= i < |fields|
        ensures SignedField(fields[i]).0 in attributes <==> SignedField(fields[i]) in KeptFields(attributes, fields)
      {
        if i < |init| {
          assert fields[i] == init[i];
        }
      }
    }
  }

  /** `construct_sorted_columns`. */
  function ParseSort(attributes: set<Text>, sort: Text): SortSpec
  {
    FromPairs(KeptFields(attributes, Split(sort, COMMA)))
  }

  /** `sorted_columns`: empty for a nil sort string. */
  function SortedColumns(attributes: set<Text>, sort: Option<Text>): SortSpec
  {
    if sort.None? then [] else ParseSort(attributes, sort.value)
  }

  /** A sort string shaped like `-created_at,name`, over a table with both columns: the first
      column descending, then the second ascending. */
  lemma ParseSortExample(attributes: set<Text>, first: Text, second: Text)
    requires first in attributes && second in attributes && first != second
    requires COMMA !in first && COMMA !in second
    requires second != [] && second[0] != PLUS && second[0] != MINUS
    ensures ParseSort(attributes, [MINUS] + first + [COMMA] + second)
      == [(first, Desc), (second, Asc)]
  {
    var fields := [[MINUS] + first, second];
    SplitExample(first, second);
    KeptExample(attributes, first, second);
    var kept: seq<(Text, Dir)> := [(first, Desc), (second, Asc)];
    assert kept[..1][..0] == [];
    assert FromPairs(kept[..1]) == [(first, Desc)];
    assert Position([(first, Desc)], second) == 1;
  }

  lemma SplitExample(first: Text, second: Text)
    requires COMMA !in first && COMMA !in second && second != []
    ensures Split([MINUS] + first + [COMMA] + second, COMMA) == [[MINUS] + first, second]
  {
    var fields := [[MINUS] + first, second];
    assert Join(fields, COMMA) == [MINUS] + first + [COMMA] + second;
    SplitJoin(fields, COMMA);
  }

  lemma KeptExample(attributes: set<Text>, first: Text, second: Text)
    requires first in attributes && second in attributes
    requires second != [] && second[0] != PLUS && second[0] != MINUS
    ensures KeptFields(attributes, [[MINUS] + first, second]) == [(first, Desc), (second, Asc)]
  {
    var signed := [MINUS] + first;
    var fields := [signed, second];
    assert SignedField(signed) == (first, Desc) by { assert signed[1..] == first; }
    var one: seq<Text> := [signed];
    assert one[..0] == [];
    assert KeptFields(attributes, one) == [(first, Desc)];
    assert fields[..1] == one;
  }

  /** What the parser keeps: known names only, each once at its first position, with the
      direction of its last occurrence, and never a name containing a comma. */
  lemma {:induction false} ParseSortShape(attributes: set<Text>, sort: Text)
    ensures var spec := ParseSort(attributes, sort);
      var kept := KeptFields(attributes, Split(sort, COMMA));
      && Distinct(Keys(spec))
      && Keys(spec) == Dedup(Keys(kept))
      && (forall i | 0 <= i < |spec| :: spec[i].0 in attributes && COMMA !in spec[i].0)
      && (forall c :: Get(spec, c) == LastValue(kept, c))
  {
    var kept := KeptFields(attributes, Split(sort, COMMA));
    var spec := FromPairs(kept);
    FromPairsKeys(kept);
    forall c {
      FromPairsGet(kept, c);
    }
    SplitAvoidsSep(sort, COMMA);
    KeptFieldsAvoidSep(attributes, Split(sort, COMMA));
    forall i | 0 <= i < |spec|
      ensures spec[i].0 in attributes && COMMA !in spec[i].0
    {
      assert spec[i].0 in Dedup(Keys(kept));
      DedupMembers(Keys(kept), spec[i].0);
    }
  }

  lemma {:induction false} KeptFieldsAvoidSep(attributes: set<Text>, fields: seq<Text>)
    requires forall i | 0 <= i < |fields| :: COMMA !in fields[i]
    ensures forall i | 0 <= i < |KeptFields(attributes, fields)| :: COMMA !in KeptFields(attributes, fields)[i].0
  {
    if |fields| > 0 {
      KeptFieldsAvoidSep(attributes, fields[..|fields| - 1]);
    }
  }

  // ---------------------------------------------------------------- boundaries

  /** `sorted_columns.values.all? :asc`; true of an empty sort. */
  predicate AllAsc(spec: SortSpec)
  {
    forall i | 0 <= i < |spec| :: spec[i].1 == Asc
  }

  /** `apply_after`'s comparison: `>` under an all-ascending sort, `<` otherwise. */
  function AfterBoundary(spec: SortSpec, after: Cursor): Boundary
  {
    Boundary(if AllAsc(spec) then Gt else Lt, Keys(after), Values(after))
  }

  /** `apply_before`'s comparison: `<` under an all-ascending sort, `>` otherwise. */
  function BeforeBoundary(spec: SortSpec, before: Cursor): Boundary
  {
    Boundary(if AllAsc(spec) then Lt else Gt, Keys(before), Values(before))
  }

  /** The direction flag after `apply_after` and `apply_before` ran from `from`: each boundary
      can only turn it to `:prev`. */
  function Redirected(from: Direction, spec: SortSpec, after: Option<Cursor>, before: Option<Cursor>): (d: Direction)
    ensures from == Prev ==> d == Prev
  {
    if (after.Some? && !AllAsc(spec)) || (before.Some? && AllAsc(spec)) then Prev else from
  }

  predicate Beyond(op: Op, x: Text, v: Text)
  {
    if op == Gt then Less(v, x) else Less(x, v)
  }

  /** SQL's row comparison `(x1, ..., xn) op (v1, ..., vn)` evaluating to TRUE: the first pair
      that differs decides; a NULL value met before that makes the result NULL, not TRUE. */
  predicate TupleBeyond(op: Op, xs: seq<Text>, vs: seq<Option<Text>>)
    decreases |vs|
  {
    |xs| > 0 && |vs| > 0 && vs[0].Some? &&
    (Beyond(op, xs[0], vs[0].value) || (xs[0] == vs[0].value && TupleBeyond(op, xs[1..], vs[1..])))
  }

  /** The same comparison spelled out as `c1 > v1 OR (c1 = v1 AND c2 > v2) OR ...`. */
  predicate ExpandedBeyond(op: Op, xs: seq<Text>, vs: seq<Option<Text>>)
  {
    exists k | 0 <= k < |xs| && k < |vs| ::
      (forall j | 0 <= j < k :: vs[j].Some? && xs[j] == vs[j].value) &&
      vs[k].Some? && Beyond(op, xs[k], vs[k].value)
  }

  lemma {:induction false} TupleBeyondToExpanded(op: Op, xs: seq<Text>, vs: seq<Option<Text>>)
    requires TupleBeyond(op, xs, vs)
    ensures ExpandedBeyond(op, xs, vs)
    decreases |vs|
  {
    if !Beyond(op, xs[0], vs[0].value) {
      TupleBeyondToExpanded(op, xs[1..], vs[1..]);
      var k :| 0 <= k < |xs| - 1 && k < |vs| - 1 &&
        (forall j | 0 <= j < k :: vs[1..][j].Some? && xs[1..][j] == vs[1..][j].value) &&
        vs[1..][k].Some? && Beyond(op, xs[1..][k], vs[1..][k].value);
      forall j | 0 <= j < k + 1
        ensures vs[j].Some? && xs[j] == vs[j].value
      {
        if j > 0 {
          assert vs[j] == vs[1..][j - 1] && xs[j] == xs[1..][j - 1];
        }
      }
      assert vs[k + 1] == vs[1..][k] && xs[k + 1] == xs[1..][k];
    }
  }

  lemma {:induction false} ExpandedToTupleBeyond(op: Op, xs: seq<Text>, vs: seq<Option<Text>>)
    requires ExpandedBeyond(op, xs, vs)
    ensures TupleBeyond(op, xs, vs)
    decreases |vs|
  {
    var k :| 0 <= k < |xs| && k < |vs| &&
      (forall j | 0 <= j < k :: vs[j].Some? && xs[j] == vs[j].value) &&
      vs[k].Some? && Beyond(op, xs[k], vs[k].value);
    if k > 0 {
      assert vs[0].Some? && xs[0] == vs[0].value;
      forall j | 0 <= j < k - 1
        ensures vs[1..][j].Some? && xs[1..][j] == vs[1..][j].value
      {
        assert vs[1..][j] == vs[j + 1];
      }
      assert vs[1..][k - 1] == vs[k] && xs[1..][k - 1] == xs[k];
      ExpandedToTupleBeyond(op, xs[1..], vs[1..]);
    }
  }

  /** The row comparison is the lexicographic expansion, not a disjunction of independent
      per-column comparisons. */
  lemma TupleBeyondExpanded(op: Op, xs: seq<Text>, vs: seq<Option<Text>>)
    ensures TupleBeyond(op, xs, vs) <==> ExpandedBeyond(op, xs, vs)
  {
    if TupleBeyond(op, xs, vs) {
      TupleBeyondToExpanded(op, xs, vs);
    }
    if ExpandedBeyond(op, xs, vs) {
      ExpandedToTupleBeyond(op, xs, vs);
    }
  }

  predicate Satisfies(row: Row, b: Boundary)
  {
    TupleBeyond(b.op, Fields(row, b.columns), b.values)
  }

  /** `where(boundary)`: a nil boundary adds no filter. */
  predicate Admits(b: Option<Boundary>, row: Row)
  {
    b.None? || Satisfies(row, b.value)
  }

  function AfterOf(spec: SortSpec, after: Option<Cursor>): Option<Boundary>
  {
    if after.None? then None else Some(AfterBoundary(spec, after.value))
  }

  function BeforeOf(spec: SortSpec, before: Option<Cursor>): Option<Boundary>
  {
    if before.None? then None else Some(BeforeBoundary(spec, before.value))
  }

  /** `where(boundary)`: the rows the boundary admits, in order. */
  function Where(rows: seq<Row>, b: Option<Boundary>): (r: seq<Row>)
    ensures |r| <= |rows|
    ensures forall x :: x in r <==> x in rows && Admits(b, x)
  {
    if |rows| == 0 then []
    else if Admits(b, rows[0]) then [rows[0]] + Where(rows[1..], b)
    else Where(rows[1..], b)
  }

  /** `where` keeps every admitted row as often as the input holds it and drops the rest, so
      counting the filtered relation counts admitted rows with their repeats. */
  lemma {:induction false} WhereCounts(rows: seq<Row>, b: Option<Boundary>)
    ensures forall x :: multiset(Where(rows, b))[x] == if Admits(b, x) then multiset(rows)[x] else 0
  {
    if |rows| > 0 {
      WhereCounts(rows[1..], b);
      assert rows == [rows[0]] + rows[1..];
    }
  }

  /** The rows `where(apply_after).where(apply_before)` admits. */
  function ScopeOf(rows: seq<Row>, spec: SortSpec, after: Option<Cursor>, before: Option<Cursor>): (scope: seq<Row>)
    ensures |scope| <= |rows|
    ensures forall x :: x in scope <==> x in rows && Admits(AfterOf(spec, after), x) && Admits(BeforeOf(spec, before), x)
  {
    Where(Where(rows, AfterOf(spec, after)), BeforeOf(spec, before))
  }

  /** `.order(sorted_columns).limit(page_limit)` over the scope. */
  function RecordsOf(spec: SortSpec, scope: seq<Row>, pageLimit: int): seq<Row>
  {
    Take(OrderBy(spec, scope), pageLimit)
  }

  // ---------------------------------------------------------------- cursors

  /** The columns a cursor records: the sort columns, or the primary key alone. */
  function CursorSpec(spec: SortSpec, primaryKey: Text): (s: SortSpec)
    ensures |s| > 0
  {
    if spec == [] then [(primaryKey, Asc)] else spec
  }

  /** How `cursor` writes a sort column of `row`: a datetime through `rfc3339(9)`. */
  function CursorValue(table: Table, column: Text, row: Row): Text
  {
    if column in table.datetimeColumns then table.rfc3339(Field(row, column)) else Field(row, column)
  }

  /** `col:value` for each cursor column of `row`, in sort order; the primary key alone is
      written as it is. */
  function CursorEntries(table: Table, spec: SortSpec, row: Row): (entries: seq<(Text, Text)>)
    ensures Keys(entries) == Keys(CursorSpec(spec, table.primaryKey))
  {
    if spec == [] then [(table.primaryKey, Field(row, table.primaryKey))]
    else seq(|spec|, i requires 0 <= i < |spec| => (spec[i].0, CursorValue(table, spec[i].0, row)))
  }

  function CursorOf(table: Table, spec: SortSpec, row: Row): Text
  {
    Token(CursorEntries(table, spec, row))
  }

  /** `cursor(collection)`: both empty for an empty scope; otherwise prev from the first record
      and next from the last, one of them suppressed as the direction and `left_over?` say. */
  function Cursors(table: Table, spec: SortSpec, records: seq<Row>, totalSize: nat,
                   firstPage: bool, direction: Direction): Result<Meta, Error>
  {
    if totalSize == 0 then Success(Meta([], []))
    else if |records| == 0 then Failure(NoRecord)
    else
      var prev := CursorOf(table, spec, records[0]);
      var next := CursorOf(table, spec, records[|records| - 1]);
      var more := LeftOver(|records|, totalSize);
      if firstPage || (direction == Prev && !more) then Success(Meta([], next))
      else if direction == Next && !more then Success(Meta(prev, []))
      else Success(Meta(prev, next))
  }

  // ---------------------------------------------------------------- the call

  /** The page and cursors for decoded cursors `after` and `before`. */
  function PageOf(table: Table, pageLimit: int, after: Option<Cursor>, before: Option<Cursor>,
                  sort: Option<Text>): Result<Page, Error>
  {
    var spec := SortedColumns(table.attributeNames, sort);
    var scope := ScopeOf(table.rows, spec, after, before);
    var records := RecordsOf(spec, scope, pageLimit);
    var meta := Cursors(table, spec, records, |scope|, after.None? && before.None?,
                        Redirected(Next, spec, after, before));
    if meta.Failure? then Failure(meta.error) else Success(Page(records, meta.value))
  }

  /** `pager(after:, before:, limit:, sort:)` against `table`, with `configLimit` the configured
      default page size. */
  function Paginate(table: Table, configLimit: int, after: Option<Text>, before: Option<Text>,
                    limit: Option<int>, sort: Option<Text>): (r: Result<Page, Error>)
    ensures r == Failure(InvalidLimitValue) <==> limit.Some? && limit.value < 1
  {
    if limit.Some? && limit.value < 1 then Failure(InvalidLimitValue)
    else
      var a, b := Decode(after), Decode(before);
      if a.Failure? then Failure(MalformedCursor(a.error))
      else if b.Failure? then Failure(MalformedCursor(b.error))
      else PageOf(table, limit.GetOr(configLimit), a.value, b.value, sort)
  }
}
