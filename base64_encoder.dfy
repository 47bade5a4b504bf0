/** The cursor codec: a cursor token is the strict Base64 encoding of `col:val,col:val`;
    decoding gives an insertion-ordered map from column to value (nil for a pair without `:`). */
module Base64Encoder {
  import opened Wrappers
  import opened Text
  import opened OrderedMap
  import Base64

  /** A decoded cursor, in token order; `None` is Ruby's nil. */
  type Cursor = OMap<Text, Option<Text>>

  /** Why decoding raised; Ruby raises `ArgumentError` for both. */
  datatype DecodeError =
    | InvalidBase64   // `strict_decode64` rejected the token
    | EmptyPair       // `Hash[]` was given a pair with no element

  /** `encode(data)`: `Base64.strict_encode64`. */
  function Encode(data: Text): Text
  {
    Base64.Encode(data)
  }

  /** One comma-separated piece as `Hash[]` reads `piece.split(':', 2)`: nothing for an empty
      piece, a key with a nil value when there is no `:`, else the text either side of the
      first `:`. */
  function Pair(piece: Text): (r: Option<(Text, Option<Text>)>)
    ensures r.None? <==> piece == []
    ensures piece != [] && COLON !in piece ==> r == Some((piece, None))
    ensures COLON in piece ==>
      && r.Some? && r.value.1.Some?
      && piece == r.value.0 + [COLON] + r.value.1.value
      && COLON !in r.value.0
  {
    var parts := SplitFirst(piece, COLON);
    if |parts| == 0 then None
    else if |parts| == 1 then Some((parts[0], None))
    else Some((parts[0], Some(parts[1])))
  }

  /** All pieces as pairs; fails on the first empty piece. */
  function Pairs(pieces: seq<Text>): Option<seq<(Text, Option<Text>)>>
  {
    if |pieces| == 0 then Some([])
    else
      match (Pair(pieces[0]), Pairs(pieces[1..]))
      case (Some(p), Some(ps)) => Some([p] + ps)
      case _ => None
  }

  /** `decode(data)`. */
  function Decode(data: Option<Text>): (r: Result<Option<Cursor>, DecodeError>)
    ensures data.None? <==> r == Success(None)
    ensures data.Some? && Base64.Decode(data.value).None? ==> r == Failure(InvalidBase64)
  {
    match data
    case None => Success(None)
    case Some(token) =>
      match Base64.Decode(token)
      case None => Failure(InvalidBase64)
      case Some(text) =>
        match Pairs(Split(text, COMMA))
        case None => Failure(EmptyPair)
        case Some(ps) => Success(Some(FromPairs(ps)))
  }

  /** `Hash[]` raises exactly when some piece is empty, and otherwise reads one pair per piece. */
  lemma {:induction false} PairsIff(pieces: seq<Text>)
    ensures Pairs(pieces).Some? <==> forall i | 0 <= i < |pieces| :: pieces[i] != []
    ensures Pairs(pieces).Some? ==> |Pairs(pieces).value| == |pieces|
  {
    if |pieces| > 0 {
      PairsIff(pieces[1..]);
      assert forall i | 1 <= i < |pieces| :: pieces[i] == pieces[1..][i - 1];
    }
  }

  /** A decoded cursor is a map: each column appears once, however often the token repeats it. */
  lemma DecodedKeysDistinct(data: Option<Text>)
    requires Decode(data).Success? && Decode(data).value.Some?
    ensures Distinct(Keys(Decode(data).value.value))
  {
    var text := Base64.Decode(data.value).value;
    FromPairsKeys(Pairs(Split(text, COMMA)).value);
  }

  /** A token that is valid Base64 fails to decode only on an empty piece between commas. */
  lemma DecodeEmptyPair(token: Text)
    requires Base64.Decode(token).Some?
    ensures Decode(Some(token)) == Failure(EmptyPair) <==> [] in Split(Base64.Decode(token).value, COMMA)
  {
    var pieces := Split(Base64.Decode(token).value, COMMA);
    PairsIff(pieces);
    if [] in pieces {
      var i :| 0 <= i < |pieces| && pieces[i] == [];
    }
  }

  /** One cursor entry, `"#{key}:#{value}"`. */
  function Entry(key: Text, value: Text): Text
  {
    key + [COLON] + value
  }

  function EntryTexts(entries: seq<(Text, Text)>): (r: seq<Text>)
    ensures |r| == |entries|
    ensures forall i | 0 <= i < |entries| :: r[i] == Entry(entries[i].0, entries[i].1)
  {
    seq(|entries|, i requires 0 <= i < |entries| => Entry(entries[i].0, entries[i].1))
  }

  /** The token for a list of entries: joined with `,`, then Base64. */
  function Token(entries: seq<(Text, Text)>): Text
  {
    Encode(Join(EntryTexts(entries), COMMA))
  }

  /** The cursor a token for `entries` should decode to. */
  function Lift(entries: seq<(Text, Text)>): (c: Cursor)
    ensures |c| == |entries| && Keys(c) == Keys(entries)
    ensures forall i | 0 <= i < |entries| :: c[i] == (entries[i].0, Some(entries[i].1))
  {
    seq(|entries|, i requires 0 <= i < |entries| => (entries[i].0, Some(entries[i].1)))
  }

  /** Names and values a token can carry without being misread. */
  predicate Encodable(entries: seq<(Text, Text)>)
  {
    forall i | 0 <= i < |entries| ::
      COMMA !in entries[i].0 && COLON !in entries[i].0 && COMMA !in entries[i].1
  }

  lemma PairOfEntry(key: Text, value: Text)
    requires COLON !in key
    ensures Pair(Entry(key, value)) == Some((key, Some(value)))
  {
    var e := Entry(key, value);
    assert IndexOf(e, COLON) == |key| by {
      assert e[|key|] == COLON;
      assert forall j | 0 <= j < |key| :: e[j] == key[j];
    }
    assert e[..|key|] == key && e[|key| + 1..] == value;
  }

  lemma {:induction false} PairsOfEntries(entries: seq<(Text, Text)>)
    requires Encodable(entries)
    ensures Pairs(EntryTexts(entries)) == Some(Lift(entries))
  {
    if |entries| > 0 {
      PairOfEntry(entries[0].0, entries[0].1);
      PairsOfEntries(entries[1..]);
      assert EntryTexts(entries)[1..] == EntryTexts(entries[1..]);
      assert Lift(entries) == [(entries[0].0, Some(entries[0].1))] + Lift(entries[1..]);
    }
  }

  /** Round trip: a token built from distinct, well-formed entries decodes to exactly those
      entries, in the same order. */
  lemma RoundTrip(entries: seq<(Text, Text)>)
    requires Distinct(Keys(entries))
    requires Encodable(entries)
    ensures Decode(Some(Token(entries))) == Success(Some(Lift(entries)))
  {
    var texts := EntryTexts(entries);
    forall i | 0 <= i < |texts|
      ensures COMMA !in texts[i] && texts[i] != []
    {
      assert texts[i] == entries[i].0 + [COLON] + entries[i].1;
    }
    SplitJoin(texts, COMMA);
    Base64.DecodeEncode(Join(texts, COMMA));
    PairsOfEntries(entries);
    FromDistinctPairs(Lift(entries));
  }

  /** Decoding keeps, for each key, the value of its last pair. */
  lemma DecodeLastWins(token: Text, k: Text)
    requires Decode(Some(token)).Success?
    ensures var text := Base64.Decode(token).value;
      var ps := Pairs(Split(text, COMMA)).value;
      Get(Decode(Some(token)).value.value, k) == LastValue(ps, k)
  {
    var text := Base64.Decode(token).value;
    var ps := Pairs(Split(text, COMMA)).value;
    FromPairsGet(ps, k);
  }
}
