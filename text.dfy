/** Ruby strings as byte strings, with the parts of Ruby's String API the pager relies on. */
module Text {

  type byte = x: int | 0 <= x < 256
  type Text = seq<byte>

  const COMMA: byte := 44
  const COLON: byte := 58
  const PLUS: byte := 43
  const MINUS: byte := 45

  /** Index of the first occurrence of `b` in `s`, or `|s|` when there is none. */
  function IndexOf(s: Text, b: byte): (i: nat)
    ensures i <= |s|
    ensures i < |s| ==> s[i] == b
    ensures forall j | 0 <= j < i :: s[j] != b
  {
    if |s| == 0 then 0
    else if s[0] == b then 0
    else 1 + IndexOf(s[1..], b)
  }

  /** Every piece between separators, empty ones included: "a,,b," gives "a", "", "b", "". */
  function Pieces(s: Text, sep: byte): (r: seq<Text>)
    ensures |r| >= 1
    decreases |s|
  {
    if |s| == 0 then [[]]
    else if s[0] == sep then [[]] + Pieces(s[1..], sep)
    else
      var rest := Pieces(s[1..], sep);
      [[s[0]] + rest[0]] + rest[1..]
  }

  /** Drops the empty pieces at the end of the list. */
  function DropTrailingEmpty(ps: seq<Text>): (r: seq<Text>)
    ensures |r| <= |ps| && r == ps[..|r|]
    ensures |r| > 0 ==> r[|r| - 1] != []
    ensures forall i | |r| <= i < |ps| :: ps[i] == []
  {
    if |ps| == 0 then []
    else if ps[|ps| - 1] == [] then DropTrailingEmpty(ps[..|ps| - 1])
    else ps
  }

  /** `s.split(sep)` for a one-byte separator: trailing empty pieces are removed, so "" gives []. */
  function Split(s: Text, sep: byte): seq<Text>
  {
    DropTrailingEmpty(Pieces(s, sep))
  }

  /** `pieces.join(sep)`. */
  function Join(pieces: seq<Text>, sep: byte): Text
  {
    if |pieces| == 0 then []
    else if |pieces| == 1 then pieces[0]
    else pieces[0] + [sep] + Join(pieces[1..], sep)
  }

  /** `s.split(sep, 2)`: no piece for "", the whole string when `sep` is absent, else the parts
      before and after the first `sep`. */
  function SplitFirst(s: Text, sep: byte): (r: seq<Text>)
    ensures |r| <= 2
    ensures |r| == 0 <==> s == []
    ensures |r| == 1 <==> s != [] && sep !in s
    ensures |r| == 1 ==> r[0] == s
    ensures |r| == 2 ==> s == r[0] + [sep] + r[1] && sep !in r[0]
  {
    var i := IndexOf(s, sep);
    if s == [] then []
    else if i == |s| then [s]
    else [s[..i], s[i + 1..]]
  }

  /** Byte-wise lexicographic order, the order a store compares text columns in. */
  predicate Less(a: Text, b: Text)
    decreases |a|
  {
    if |a| == 0 then |b| > 0
    else if |b| == 0 then false
    else if a[0] != b[0] then a[0] < b[0]
    else Less(a[1..], b[1..])
  }

  lemma {:induction false} PiecesOfPiece(p: Text, sep: byte)
    requires sep !in p
    ensures Pieces(p, sep) == [p]
    decreases |p|
  {
    if |p| > 0 {
      PiecesOfPiece(p[1..], sep);
      assert [p[0]] + p[1..] == p;
    }
  }

  lemma {:induction false} PiecesOfPieceThenSep(p: Text, sep: byte, t: Text)
    requires sep !in p
    ensures Pieces(p + [sep] + t, sep) == [p] + Pieces(t, sep)
    decreases |p|
  {
    if |p| == 0 {
      assert p + [sep] + t == [sep] + t;
      assert ([sep] + t)[1..] == t;
    } else {
      var s := p + [sep] + t;
      assert s[1..] == p[1..] + [sep] + t;
      PiecesOfPieceThenSep(p[1..], sep, t);
      assert [p[0]] + p[1..] == p;
    }
  }

  lemma {:induction false} PiecesOfJoin(ps: seq<Text>, sep: byte)
    requires |ps| >= 1
    requires forall i | 0 <= i < |ps| :: sep !in ps[i]
    ensures Pieces(Join(ps, sep), sep) == ps
    decreases |ps|
  {
    if |ps| == 1 {
      PiecesOfPiece(ps[0], sep);
    } else {
      PiecesOfPieceThenSep(ps[0], sep, Join(ps[1..], sep));
      PiecesOfJoin(ps[1..], sep);
    }
  }

  /** Splitting a join gives the pieces back when none contains the separator and none is empty. */
  lemma SplitJoin(ps: seq<Text>, sep: byte)
    requires forall i | 0 <= i < |ps| :: sep !in ps[i] && ps[i] != []
    ensures Split(Join(ps, sep), sep) == ps
  {
    if |ps| > 0 {
      PiecesOfJoin(ps, sep);
    }
  }

  /** Every piece of a split is free of the separator. */
  lemma {:induction false} PiecesAvoidSep(s: Text, sep: byte)
    ensures forall i | 0 <= i < |Pieces(s, sep)| :: sep !in Pieces(s, sep)[i]
    decreases |s|
  {
    if |s| > 0 {
      PiecesAvoidSep(s[1..], sep);
    }
  }

  lemma SplitAvoidsSep(s: Text, sep: byte)
    ensures forall i | 0 <= i < |Split(s, sep)| :: sep !in Split(s, sep)[i]
  {
    PiecesAvoidSep(s, sep);
  }

  /** Joining the raw pieces, trailing empty ones included, with the separator gives the
      string back exactly. */
  lemma {:induction false} JoinPieces(s: Text, sep: byte)
    ensures Join(Pieces(s, sep), sep) == s
    decreases |s|
  {
    if |s| > 0 {
      JoinPieces(s[1..], sep);
      var rest := Pieces(s[1..], sep);
      if s[0] != sep {
        assert Join(rest, sep) == s[1..];
        if |rest| == 1 {
          assert [s[0]] + rest[0] == s;
        } else {
          assert Join(rest, sep) == rest[0] + [sep] + Join(rest[1..], sep);
          assert ([[s[0]] + rest[0]] + rest[1..])[1..] == rest[1..];
        }
      } else {
        assert ([[]] + rest)[1..] == rest;
        assert s == [sep] + s[1..];
      }
    }
  }

  lemma {:induction false} LessIrreflexive(a: Text)
    ensures !Less(a, a)
    decreases |a|
  {
    if |a| > 0 {
      LessIrreflexive(a[1..]);
    }
  }

  lemma {:induction false} LessAsymmetric(a: Text, b: Text)
    ensures Less(a, b) ==> !Less(b, a)
    decreases |a|
  {
    if |a| > 0 && |b| > 0 && a[0] == b[0] {
      LessAsymmetric(a[1..], b[1..]);
    }
  }

  lemma {:induction false} LessTransitive(a: Text, b: Text, c: Text)
    ensures Less(a, b) && Less(b, c) ==> Less(a, c)
    decreases |a|
  {
    if |a| > 0 && |b| > 0 && |c| > 0 {
      LessTransitive(a[1..], b[1..], c[1..]);
    }
  }

  lemma {:induction false} LessTotal(a: Text, b: Text)
    ensures a == b || Less(a, b) || Less(b, a)
    decreases |a|
  {
    if |a| > 0 && |b| > 0 && a[0] == b[0] {
      LessTotal(a[1..], b[1..]);
      if a[1..] == b[1..] {
        assert a == [a[0]] + a[1..] && b == [b[0]] + b[1..];
      }
    }
  }
}
