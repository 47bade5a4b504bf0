/** The relational store the pager queries, reduced to what the pager relies on: rows as maps
    from column to the value's text, filtering, ordering by a list of (column, direction) pairs,
    and a row limit. */
module Store {
  import opened Text

  type Row = map<Text, Text>

  /** The value of a column; a column the row lacks reads as the empty text. */
  function Field(row: Row, column: Text): Text
  {
    if column in row then row[column] else []
  }

  function Fields(row: Row, columns: seq<Text>): (r: seq<Text>)
    ensures |r| == |columns|
    ensures forall i | 0 <= i < |columns| :: r[i] == Field(row, columns[i])
  {
    seq(|columns|, i requires 0 <= i < |columns| => Field(row, columns[i]))
  }

  datatype Dir = Asc | Desc

  /** An ORDER BY list, as the ordered `{ column => :asc/:desc }` hash the pager builds. */
  type SortSpec = seq<(Text, Dir)>

  /** `a` strictly precedes `b` on one column in the given direction. */
  predicate ColumnLess(column: Text, dir: Dir, a: Row, b: Row)
  {
    if dir == Asc then Less(Field(a, column), Field(b, column))
    else Less(Field(b, column), Field(a, column))
  }

  /** `a` strictly precedes `b` under ORDER BY `spec`: the first column that tells them apart decides. */
  predicate KeyLess(spec: SortSpec, a: Row, b: Row)
    decreases |spec|
  {
    |spec| > 0 &&
    (ColumnLess(spec[0].0, spec[0].1, a, b) ||
     (Field(a, spec[0].0) == Field(b, spec[0].0) && KeyLess(spec[1..], a, b)))
  }

  /** The row at `i` does not precede the one before it. */
  predicate InOrderAt(spec: SortSpec, s: seq<Row>, i: int)
    requires 0 < i < |s|
  {
    !KeyLess(spec, s[i], s[i - 1])
  }

  /** No row is followed by one that should precede it. */
  predicate Sorted(spec: SortSpec, s: seq<Row>)
  {
    forall i | 0 < i < |s| :: InOrderAt(spec, s, i)
  }

  lemma {:induction false} KeyLessAsymmetric(spec: SortSpec, a: Row, b: Row)
    ensures KeyLess(spec, a, b) ==> !KeyLess(spec, b, a)
    decreases |spec|
  {
    if |spec| > 0 {
      var c := spec[0].0;
      LessAsymmetric(Field(a, c), Field(b, c));
      LessIrreflexive(Field(a, c));
      KeyLessAsymmetric(spec[1..], a, b);
    }
  }

  /** The order is a strict weak order: if `c` precedes `a`, any `b` precedes `a` or follows `c`. */
  lemma {:induction false} KeyLessSplits(spec: SortSpec, a: Row, b: Row, c: Row)
    ensures KeyLess(spec, c, a) ==> KeyLess(spec, c, b) || KeyLess(spec, b, a)
    decreases |spec|
  {
    if |spec| > 0 {
      var col := spec[0].0;
      var fa, fb, fc := Field(a, col), Field(b, col), Field(c, col);
      LessTotal(fa, fb);
      LessTotal(fb, fc);
      LessTransitive(fa, fb, fc);
      LessTransitive(fc, fb, fa);
      LessTransitive(fb, fa, fc);
      LessTransitive(fb, fc, fa);
      LessTransitive(fa, fc, fb);
      LessTransitive(fc, fa, fb);
      LessIrreflexive(fa);
      LessIrreflexive(fb);
      KeyLessSplits(spec[1..], a, b, c);
    }
  }

  /** Adjacent order is global order. */
  lemma {:induction false} SortedAll(spec: SortSpec, s: seq<Row>)
    requires Sorted(spec, s)
    ensures forall i, j | 0 <= i < j < |s| :: !KeyLess(spec, s[j], s[i])
    decreases |s|
  {
    if |s| > 1 {
      var init := s[..|s| - 1];
      forall i | 0 < i < |init|
        ensures InOrderAt(spec, init, i)
      {
        assert InOrderAt(spec, s, i);
      }
      SortedAll(spec, init);
      forall i | 0 <= i < |s| - 1
        ensures !KeyLess(spec, s[|s| - 1], s[i])
      {
        assert InOrderAt(spec, s, |s| - 1);
        if i < |s| - 2 {
          assert !KeyLess(spec, init[|s| - 2], init[i]);
          KeyLessSplits(spec, s[i], s[|s| - 2], s[|s| - 1]);
        }
      }
    }
  }

  /** A row that does not sort after the head of a sorted list can go in front of it. */
  lemma PrependSorted(spec: SortSpec, x: Row, s: seq<Row>)
    ensures Sorted(spec, s) && (|s| > 0 ==> !KeyLess(spec, s[0], x)) ==> Sorted(spec, [x] + s)
  {
    if Sorted(spec, s) && (|s| > 0 ==> !KeyLess(spec, s[0], x)) {
      forall i | 1 < i < |s| + 1
        ensures InOrderAt(spec, [x] + s, i)
      {
        assert InOrderAt(spec, s, i - 1);
      }
    }
  }

  /** The tail of a sorted list is sorted, and its head does not sort before the first row. */
  lemma SortedTail(spec: SortSpec, s: seq<Row>)
    requires |s| > 0
    ensures Sorted(spec, s) ==> Sorted(spec, s[1..]) && (|s| > 1 ==> !KeyLess(spec, s[1], s[0]))
  {
    if Sorted(spec, s) {
      forall i | 0 < i < |s| - 1
        ensures InOrderAt(spec, s[1..], i)
      {
        assert InOrderAt(spec, s, i + 1);
      }
      if |s| > 1 {
        assert InOrderAt(spec, s, 1);
      }
    }
  }

  /** Places `x` before the first row it does not follow. */
  function Insert(spec: SortSpec, x: Row, s: seq<Row>): (r: seq<Row>)
    ensures |r| == |s| + 1
    ensures Sorted(spec, s) ==> Sorted(spec, r)
    ensures |r| > 0 && (r[0] == x || (|s| > 0 && r[0] == s[0]))
  {
    if |s| == 0 then [x]
    else if !KeyLess(spec, s[0], x) then
      PrependSorted(spec, x, s);
      [x] + s
    else
      KeyLessAsymmetric(spec, s[0], x);
      assert s == [s[0]] + s[1..];
      var t := Insert(spec, x, s[1..]);
      SortedTail(spec, s);
      PrependSorted(spec, s[0], t);
      [s[0]] + t
  }

  /** ORDER BY `spec`, ties kept in table order; an empty list leaves the table order. */
  function OrderBy(spec: SortSpec, s: seq<Row>): (r: seq<Row>)
    ensures |r| == |s|
    ensures Sorted(spec, r)
  {
    if |s| == 0 then []
    else Insert(spec, s[0], OrderBy(spec, s[1..]))
  }

  lemma {:induction false} InsertPermutes(spec: SortSpec, x: Row, s: seq<Row>)
    ensures multiset(Insert(spec, x, s)) == multiset(s) + multiset{x}
  {
    if |s| > 0 && KeyLess(spec, s[0], x) {
      InsertPermutes(spec, x, s[1..]);
      assert s == [s[0]] + s[1..];
    }
  }

  /** Sorting neither adds nor drops a row. */
  lemma {:induction false} OrderByPermutes(spec: SortSpec, s: seq<Row>)
    ensures multiset(OrderBy(spec, s)) == multiset(s)
  {
    if |s| > 0 {
      OrderByPermutes(spec, s[1..]);
      InsertPermutes(spec, s[0], OrderBy(spec, s[1..]));
      assert s == [s[0]] + s[1..];
    }
  }

  /** LIMIT `n`; a limit below one yields no rows. */
  function Take(s: seq<Row>, n: int): (r: seq<Row>)
    ensures |r| == if n <= 0 then 0 else if n < |s| then n else |s|
    ensures r == s[..|r|]
  {
    if n <= 0 then [] else if n < |s| then s[..n] else s
  }
}
