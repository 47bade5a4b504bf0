/** Strict Base64 (section 4 of RFC 4648): the standard alphabet, `=` padding, no line breaks.
    Decoding is as strict as Ruby's `Base64.strict_decode64`: the length must be a multiple of
    four, padding may only close the last group, and the bits that padding leaves unused must be
    zero, so every accepted string is the encoding of exactly one byte string. */
module Base64 {
  import opened Wrappers
  import opened Text

  type Sextet = x: int | 0 <= x < 64

  const PAD: byte := 61

  /** The alphabet: A-Z, a-z, 0-9, `+`, `/`. */
  function Letter(i: Sextet): byte
  {
    if i < 26 then 65 + i
    else if i < 52 then 71 + i
    else if i < 62 then i - 4
    else if i == 62 then 43
    else 47
  }

  predicate IsLetter(c: byte)
  {
    65 <= c <= 90 || 97 <= c <= 122 || 48 <= c <= 57 || c == 43 || c == 47
  }

  function SextetOf(c: byte): (i: Sextet)
    requires IsLetter(c)
    ensures Letter(i) == c
  {
    if 65 <= c <= 90 then c - 65
    else if 97 <= c <= 122 then c - 71
    else if 48 <= c <= 57 then c + 4
    else if c == 43 then 62
    else 63
  }

  lemma LetterIsLetter(i: Sextet)
    ensures IsLetter(Letter(i)) && SextetOf(Letter(i)) == i
  {
  }

  /** Quotient and remainder by the three divisors Base64 uses. */
  lemma DivMod4(x: int, q: int, r: int)
    requires x == 4 * q + r && 0 <= r < 4
    ensures x / 4 == q && x % 4 == r
  {
  }

  lemma DivMod16(x: int, q: int, r: int)
    requires x == 16 * q + r && 0 <= r < 16
    ensures x / 16 == q && x % 16 == r
  {
  }

  lemma DivMod64(x: int, q: int, r: int)
    requires x == 64 * q + r && 0 <= r < 64
    ensures x / 64 == q && x % 64 == r
  {
  }

  /** Three bytes cut into four six-bit values. */
  function Sextets(a: byte, b: byte, c: byte): (Sextet, Sextet, Sextet, Sextet)
  {
    (a / 4, a % 4 * 16 + b / 16, b % 16 * 4 + c / 64, c % 64)
  }

  /** Four six-bit values glued into three bytes. */
  function Octets(w: Sextet, x: Sextet, y: Sextet, z: Sextet): (byte, byte, byte)
  {
    (w * 4 + x / 16, x % 16 * 16 + y / 4, y % 4 * 64 + z)
  }

  lemma OctetsOfSextets(a: byte, b: byte, c: byte)
    ensures var (w, x, y, z) := Sextets(a, b, c); Octets(w, x, y, z) == (a, b, c)
  {
    var a1, a0 := a / 4, a % 4;
    var b1, b0 := b / 16, b % 16;
    var c1, c0 := c / 64, c % 64;
    var x := a0 * 16 + b1;
    var y := b0 * 4 + c1;
    DivMod16(x, a0, b1);
    DivMod4(y, b0, c1);
  }

  lemma SextetsOfOctets(w: Sextet, x: Sextet, y: Sextet, z: Sextet)
    ensures var (a, b, c) := Octets(w, x, y, z); Sextets(a, b, c) == (w, x, y, z)
  {
    var x1, x0 := x / 16, x % 16;
    var y1, y0 := y / 4, y % 4;
    var a := w * 4 + x1;
    var b := x0 * 16 + y1;
    var c := y0 * 64 + z;
    DivMod4(a, w, x1);
    DivMod16(b, x0, y1);
    DivMod64(c, y0, z);
  }

  /** Three bytes as four letters. */
  function EncodeGroup(a: byte, b: byte, c: byte): Text
  {
    var (w, x, y, z) := Sextets(a, b, c);
    [Letter(w), Letter(x), Letter(y), Letter(z)]
  }

  /** Two final bytes: three letters and one `=`. */
  function EncodeTwo(a: byte, b: byte): Text
  {
    var (w, x, y, _) := Sextets(a, b, 0);
    [Letter(w), Letter(x), Letter(y), PAD]
  }

  /** One final byte: two letters and `==`. */
  function EncodeOne(a: byte): Text
  {
    var (w, x, _, _) := Sextets(a, 0, 0);
    [Letter(w), Letter(x), PAD, PAD]
  }

  /** `Base64.strict_encode64`. */
  function Encode(s: Text): (r: Text)
    ensures |s| > 0 ==> |r| >= 4
    decreases |s|, 1
  {
    if |s| == 0 then [] else EncodeGroups(s)
  }

  /** One or more bytes, three at a time; a final one or two bytes are padded. */
  function EncodeGroups(s: Text): (r: Text)
    requires |s| > 0
    ensures |r| >= 4
    decreases |s|, 0
  {
    if |s| == 1 then EncodeOne(s[0])
    else if |s| == 2 then EncodeTwo(s[0], s[1])
    else EncodeGroup(s[0], s[1], s[2]) + Encode(s[3..])
  }

  /** Four letters as three bytes. */
  function DecodeGroup(q: Text): (r: Text)
    requires |q| == 4 && IsLetter(q[0]) && IsLetter(q[1]) && IsLetter(q[2]) && IsLetter(q[3])
    ensures |r| == 3
  {
    var (a, b, c) := Octets(SextetOf(q[0]), SextetOf(q[1]), SextetOf(q[2]), SextetOf(q[3]));
    [a, b, c]
  }

  /** The last group, which may end in `=` or `==` when the bits the padding leaves unused are zero. */
  function DecodeLast(q: Text): (r: Option<Text>)
    requires |q| == 4
    ensures r.Some? ==> 1 <= |r.value| <= 3
  {
    if !IsLetter(q[0]) || !IsLetter(q[1]) then None
    else if q[2] == PAD then
      var (a, b, _) := Octets(SextetOf(q[0]), SextetOf(q[1]), 0, 0);
      if q[3] == PAD && b == 0 then Some([a]) else None
    else if !IsLetter(q[2]) then None
    else if q[3] == PAD then
      var (a, b, c) := Octets(SextetOf(q[0]), SextetOf(q[1]), SextetOf(q[2]), 0);
      if c == 0 then Some([a, b]) else None
    else if !IsLetter(q[3]) then None
    else Some(DecodeGroup(q))
  }

  /** `Base64.strict_decode64`; `None` where Ruby raises `ArgumentError`. */
  function Decode(t: Text): (r: Option<Text>)
    decreases |t|, 1
  {
    if |t| == 0 then Some([])
    else if |t| < 4 then None
    else DecodeGroups(t)
  }

  /** Four or more characters, group by group: every group before the last is four letters. */
  function DecodeGroups(t: Text): (r: Option<Text>)
    requires |t| >= 4
    decreases |t|, 0
  {
    if |t| == 4 then DecodeLast(t)
    else if IsLetter(t[0]) && IsLetter(t[1]) && IsLetter(t[2]) && IsLetter(t[3]) then
      match Decode(t[4..])
      case None => None
      case Some(rest) => Some(DecodeGroup(t[..4]) + rest)
    else None
  }

  /** Four letters decode to the sextets they encode. */
  lemma LettersRoundTrip(w: Sextet, x: Sextet, y: Sextet, z: Sextet)
    ensures var q := [Letter(w), Letter(x), Letter(y), Letter(z)];
      IsLetter(q[0]) && IsLetter(q[1]) && IsLetter(q[2]) && IsLetter(q[3]) &&
      DecodeGroup(q) == (var (a, b, c) := Octets(w, x, y, z); [a, b, c]) &&
      DecodeLast(q) == Some(DecodeGroup(q))
  {
    LetterIsLetter(w);
    LetterIsLetter(x);
    LetterIsLetter(y);
    LetterIsLetter(z);
  }

  lemma GroupRoundTrip(a: byte, b: byte, c: byte)
    ensures var q := EncodeGroup(a, b, c);
      IsLetter(q[0]) && IsLetter(q[1]) && IsLetter(q[2]) && IsLetter(q[3]) &&
      DecodeGroup(q) == [a, b, c] && DecodeLast(q) == Some([a, b, c])
  {
    var (w, x, y, z) := Sextets(a, b, c);
    LettersRoundTrip(w, x, y, z);
    OctetsOfSextets(a, b, c);
  }

  lemma TwoRoundTrip(a: byte, b: byte)
    ensures DecodeLast(EncodeTwo(a, b)) == Some([a, b])
  {
    var (w, x, y, _) := Sextets(a, b, 0);
    LetterIsLetter(w);
    LetterIsLetter(x);
    LetterIsLetter(y);
    OctetsOfSextets(a, b, 0);
  }

  lemma OneRoundTrip(a: byte)
    ensures DecodeLast(EncodeOne(a)) == Some([a])
  {
    var (w, x, _, _) := Sextets(a, 0, 0);
    LetterIsLetter(w);
    LetterIsLetter(x);
    OctetsOfSextets(a, 0, 0);
  }

  /** A full group followed by more text decodes group by group. */
  lemma DecodeCons(q: Text, t: Text)
    requires |q| == 4 && IsLetter(q[0]) && IsLetter(q[1]) && IsLetter(q[2]) && IsLetter(q[3])
    requires |t| > 0
    ensures Decode(q + t) == match Decode(t)
                             case None => None
                             case Some(r) => Some(DecodeGroup(q) + r)
  {
    assert (q + t)[..4] == q && (q + t)[4..] == t;
  }

  /** Encoding three or more bytes starts with the group of the first three. */
  lemma EncodeCons(s: Text)
    requires |s| >= 3
    ensures Encode(s) == EncodeGroup(s[0], s[1], s[2]) + Encode(s[3..])
  {
    assert |s| != 0 && |s| != 1 && |s| != 2;
  }

  lemma DecodeEncodeOne(s: Text)
    requires |s| == 1
    ensures Decode(Encode(s)) == Some(s)
  {
    assert s == [s[0]];
    OneRoundTrip(s[0]);
  }

  lemma DecodeEncodeTwo(s: Text)
    requires |s| == 2
    ensures Decode(Encode(s)) == Some(s)
  {
    assert s == [s[0], s[1]];
    TwoRoundTrip(s[0], s[1]);
  }

  lemma DecodeEncodeThree(s: Text)
    requires |s| == 3
    ensures Decode(Encode(s)) == Some(s)
  {
    assert s == [s[0], s[1], s[2]];
    var q := EncodeGroup(s[0], s[1], s[2]);
    EncodeCons(s);
    assert Encode(s[3..]) == [];
    assert Encode(s) == q;
    GroupRoundTrip(s[0], s[1], s[2]);
    assert Decode(q) == DecodeGroups(q) == DecodeLast(q);
  }

  /** Decoding an encoding gives the bytes back. */
  lemma {:induction false} DecodeEncode(s: Text)
    ensures Decode(Encode(s)) == Some(s)
    decreases |s|
  {
    if |s| == 1 {
      DecodeEncodeOne(s);
    } else if |s| == 2 {
      DecodeEncodeTwo(s);
    } else if |s| == 3 {
      DecodeEncodeThree(s);
    } else if |s| > 3 {
      var rest := s[3..];
      assert s == [s[0], s[1], s[2]] + rest;
      var g := EncodeGroup(s[0], s[1], s[2]);
      EncodeCons(s);
      DecodeEncode(rest);
      GroupRoundTrip(s[0], s[1], s[2]);
      DecodeCons(g, Encode(rest));
    }
  }

  lemma GroupCanonical(q: Text)
    requires |q| == 4 && IsLetter(q[0]) && IsLetter(q[1]) && IsLetter(q[2]) && IsLetter(q[3])
    ensures var r := DecodeGroup(q); EncodeGroup(r[0], r[1], r[2]) == q
  {
    var w, x, y, z := SextetOf(q[0]), SextetOf(q[1]), SextetOf(q[2]), SextetOf(q[3]);
    assert q == [Letter(w), Letter(x), Letter(y), Letter(z)];
    SextetsOfOctets(w, x, y, z);
  }

  lemma LastCanonical(q: Text)
    requires |q| == 4 && DecodeLast(q).Some?
    ensures Encode(DecodeLast(q).value) == q
  {
    var r := DecodeLast(q).value;
    if q[2] == PAD {
      SextetsOfOctets(SextetOf(q[0]), SextetOf(q[1]), 0, 0);
    } else if q[3] == PAD {
      SextetsOfOctets(SextetOf(q[0]), SextetOf(q[1]), SextetOf(q[2]), 0);
    } else {
      GroupCanonical(q);
      assert Encode(r) == EncodeGroup(r[0], r[1], r[2]) + Encode(r[3..]);
    }
  }

  /** Strictness: a string that decodes is the encoding of what it decodes to. */
  lemma {:induction false} EncodeDecode(t: Text)
    requires Decode(t).Some?
    ensures Encode(Decode(t).value) == t
    decreases |t|
  {
    if |t| == 4 {
      LastCanonical(t);
    } else if |t| > 4 {
      var rest := Decode(t[4..]).value;
      EncodeDecode(t[4..]);
      var g := DecodeGroup(t[..4]);
      GroupCanonical(t[..4]);
      var s := g + rest;
      assert s[..3] == g && s[3..] == rest;
      assert t == t[..4] + t[4..];
    }
  }

  /** Encoding is injective, and `Decode` accepts exactly the encodings. */
  lemma DecodeIff(t: Text, s: Text)
    ensures Decode(t) == Some(s) <==> Encode(s) == t
  {
    if Decode(t) == Some(s) {
      EncodeDecode(t);
    }
    if Encode(s) == t {
      DecodeEncode(s);
    }
  }
}
