/** The base64 alphabet and the `triplet` encoder of the product list page,
    set against the encoding of section 4 of RFC 4648: a 24-bit group is
    split into four 6-bit indices, each written as one letter of Table 1. */
module Base64 {
  import opened Options
  import opened JsBits

  type Byte = x: int | 0 <= x < 256
  type Sextet = x: int | 0 <= x < 64

  /** `keyStr`: the 64 letters of Table 1 followed by the pad `=`. The
      literal is written as its four runs; the value is the same string. */
  const KeyStr: string :=
    "ABCDEFGHIJKLMNOPQRSTUVWXYZ" + "abcdefghijklmnopqrstuvwxyz" + "0123456789" + "+/="

  /** Table 1 of RFC 4648: the letter for each 6-bit value. */
  function Alphabet(i: Sextet): char {
    if i < 26 then ('A' as int + i) as char
    else if i < 52 then ('a' as int + (i - 26)) as char
    else if i < 62 then ('0' as int + (i - 52)) as char
    else if i == 62 then '+'
    else '/'
  }

  /** Table 1 read backwards: the value of a letter, `None` for anything else
      (the pad `=` included). */
  function SextetOf(c: char): Option<Sextet> {
    if 'A' <= c <= 'Z' then Some(c as int - 'A' as int)
    else if 'a' <= c <= 'z' then Some(c as int - 'a' as int + 26)
    else if '0' <= c <= '9' then Some(c as int - '0' as int + 52)
    else if c == '+' then Some(62)
    else if c == '/' then Some(63)
    else None
  }

  /** JavaScript's `String.prototype.charAt`: the one-letter string at `i`,
      or the empty string when `i` is out of range. */
  function CharAt(s: string, i: int): string {
    if 0 <= i < |s| then [s[i]] else ""
  }

  /** The value of a 24-bit group, first byte most significant. */
  function GroupValue(e1: Byte, e2: Byte, e3: Byte): nat {
    e1 * 65536 + e2 * 256 + e3
  }

  /** The four 6-bit groups of a 24-bit value, most significant first. */
  function Sextets(n: nat): seq<nat> {
    [n / 262144 % 64, n / 4096 % 64, n / 64 % 64, n % 64]
  }

  /** The encoding of one group as RFC 4648 defines it. */
  function EncodeGroup(e1: Byte, e2: Byte, e3: Byte): (r: string)
    ensures |r| == 4
  {
    var s := Sextets(GroupValue(e1, e2, e3));
    [Alphabet(s[0]), Alphabet(s[1]), Alphabet(s[2]), Alphabet(s[3])]
  }

  /** The four indices `triplet` computes with shifts and masks. */
  function TripletIndices(e1: Byte, e2: Byte, e3: Byte): seq<nat> {
    [ ShiftRight(e1, 2),
      BitOr(ShiftLeft(BitAnd(e1, 3), 4), ShiftRight(e2, 4)),
      BitOr(ShiftLeft(BitAnd(e2, 15), 2), ShiftRight(e3, 6)),
      BitAnd(e3, 63) ]
  }

  /** `triplet(e1, e2, e3)`: the four looked-up letters, concatenated. Each
      index is below 64, so each letter is one of the first 64 of `keyStr`:
      a letter of the alphabet, never the pad `=`. */
  function Triplet(e1: Byte, e2: Byte, e3: Byte): (r: string)
    ensures |r| == 4
    ensures forall k :: 0 <= k < 4 ==> SextetOf(r[k]).Some?
  {
    var ix := TripletIndices(e1, e2, e3);
    TripletIndicesAreSextets(e1, e2, e3);
    KeyStrIsAlphabet();
    AlphabetBijection(ix[0], '=');
    AlphabetBijection(ix[1], '=');
    AlphabetBijection(ix[2], '=');
    AlphabetBijection(ix[3], '=');
    CharAt(KeyStr, ix[0]) + CharAt(KeyStr, ix[1]) + CharAt(KeyStr, ix[2]) + CharAt(KeyStr, ix[3])
  }

  /** The value of four letters, or `None` unless each is in the alphabet. */
  function GroupValueOf(s: string): (r: Option<nat>)
    requires |s| == 4
    ensures r.Some? ==> r.value < 16777216
  {
    match (SextetOf(s[0]), SextetOf(s[1]), SextetOf(s[2]), SextetOf(s[3]))
    case (Some(a), Some(b), Some(c), Some(d)) => Some(a as int * 262144 + b as int * 4096 + c as int * 64 + d)
    case _ => None
  }

  /** Decodes one unpadded group of four letters into its three bytes. */
  function DecodeGroup(s: string): Option<(Byte, Byte, Byte)> {
    if |s| != 4 then None
    else
      match GroupValueOf(s)
      case Some(n) => Some((n / 65536, n / 256 % 256, n % 256))
      case None => None
  }

  /** The bytes of one unpadded group, as a sequence. */
  function GroupBytes(s: string): Option<seq<Byte>> {
    match DecodeGroup(s)
    case Some((x, y, z)) => Some([x, y, z])
    case None => None
  }

  /** Decodes the last group of an encoding, which may end in one or two
      pad letters (section 4 of RFC 4648, cases (2) and (3)). */
  function DecodeFinal(s: string): Option<seq<Byte>>
    requires |s| == 4
  {
    if s[2] == '=' && s[3] == '=' then
      match (SextetOf(s[0]), SextetOf(s[1]))
      case (Some(a), Some(b)) => Some([a as int * 4 + b / 16])
      case _ => None
    else if s[3] == '=' then
      match (SextetOf(s[0]), SextetOf(s[1]), SextetOf(s[2]))
      case (Some(a), Some(b), Some(c)) =>
        var n := a as int * 4096 + b as int * 64 + c;
        Some([n / 1024, n / 4 % 256])
      case _ => None
    else
      GroupBytes(s)
  }

  function Join(a: Option<seq<Byte>>, b: Option<seq<Byte>>): Option<seq<Byte>> {
    match (a, b)
    case (Some(x), Some(y)) => Some(x + y)
    case _ => None
  }

  /** Decodes a whole base64 text: whole groups, the last of which may be
      padded. Any other length or letter is rejected. */
  function Decode(s: string): Option<seq<Byte>>
    decreases |s|
  {
    if |s| == 0 then Some([])
    else if |s| < 4 then None
    else if |s| == 4 then DecodeFinal(s)
    else
      Join(GroupBytes(s[..4]), Decode(s[4..]))
  }

  /*** Lemmas ***/

  lemma JoinAssociative(a: Option<seq<Byte>>, b: Option<seq<Byte>>, c: Option<seq<Byte>>)
    ensures Join(Join(a, b), c) == Join(a, Join(b, c))
  {
    if a.Some? && b.Some? && c.Some? {
      assert (a.value + b.value) + c.value == a.value + (b.value + c.value);
    }
  }

  lemma UpperRun(i: int)
    requires 0 <= i < 26
    ensures "ABCDEFGHIJKLMNOPQRSTUVWXYZ"[i] == ('A' as int + i) as char
  {
  }

  lemma LowerRun(i: int)
    requires 0 <= i < 26
    ensures "abcdefghijklmnopqrstuvwxyz"[i] == ('a' as int + i) as char
  {
  }

  lemma DigitRun(i: int)
    requires 0 <= i < 10
    ensures "0123456789"[i] == ('0' as int + i) as char
  {
  }

  /** `keyStr` is Table 1 of RFC 4648 followed by the pad letter. */
  lemma KeyStrIsAlphabet()
    ensures |KeyStr| == 65 && KeyStr[64] == '='
    ensures forall i :: 0 <= i < 64 ==> KeyStr[i] == Alphabet(i)
  {
    forall i | 0 <= i < 64
      ensures KeyStr[i] == Alphabet(i)
    {
      if i < 26 { UpperRun(i); }
      else if i < 52 { LowerRun(i - 26); }
      else if i < 62 { DigitRun(i - 52); }
    }
  }

  /** Table 1 is a bijection between 0 .. 63 and the 64 letters. */
  lemma AlphabetBijection(i: Sextet, c: char)
    ensures SextetOf(Alphabet(i)) == Some(i)
    ensures SextetOf(c).Some? ==> Alphabet(SextetOf(c).value) == c
    ensures SextetOf('=') == None
  {
  }

  /** The shifts and masks of `triplet` as plain arithmetic: no shift or
      mask loses a bit, and each `|` joins disjoint bits. */
  lemma TripletIndicesArithmetic(e1: Byte, e2: Byte, e3: Byte)
    ensures TripletIndices(e1, e2, e3) == [e1 / 4, e1 % 4 * 16 + e2 / 16, e2 % 16 * 4 + e3 / 64, e3 % 64]
  {
    assert Pow2(2) == 4 && Pow2(4) == 16 && Pow2(6) == 64;
    ShiftRightDivides(e1, 2);
    ShiftRightDivides(e2, 4);
    ShiftRightDivides(e3, 6);
    BitAndLowMask(e1, 2);
    BitAndLowMask(e2, 4);
    BitAndLowMask(e3, 6);
    BitOrDisjoint(e1 % 4, e2 / 16, 4);
    BitOrDisjoint(e2 % 16, e3 / 64, 2);
  }

  /** Every index `triplet` computes is below 64 and is the corresponding
      6-bit group of the 24-bit value. */
  lemma TripletIndicesAreSextets(e1: Byte, e2: Byte, e3: Byte)
    ensures TripletIndices(e1, e2, e3) == Sextets(GroupValue(e1, e2, e3))
    ensures forall k :: 0 <= k < 4 ==> TripletIndices(e1, e2, e3)[k] < 64
  {
    TripletIndicesArithmetic(e1, e2, e3);
    var a, b, c, d := e1 / 4, e1 % 4 * 16 + e2 / 16, e2 % 16 * 4 + e3 / 64, e3 % 64;
    assert GroupValue(e1, e2, e3) == a * 262144 + b * 4096 + c * 64 + d;
    SextetsOfDigits(a, b, c, d);
  }

  /** `triplet` writes the group exactly as section 4 of RFC 4648 does. */
  lemma TripletIsEncodeGroup(e1: Byte, e2: Byte, e3: Byte)
    ensures Triplet(e1, e2, e3) == EncodeGroup(e1, e2, e3)
  {
    TripletIndicesAreSextets(e1, e2, e3);
    KeyStrIsAlphabet();
  }

  /** Four 6-bit values written side by side are the 6-bit groups of the
      resulting 24-bit value. */
  lemma SextetsOfDigits(a: Sextet, b: Sextet, c: Sextet, d: Sextet)
    ensures Sextets(a * 262144 + b * 4096 + c * 64 + d) == [a, b, c, d]
  {
    var n := a * 262144 + b * 4096 + c * 64 + d;
    DivModUnique(n, 262144, a, b * 4096 + c * 64 + d);
    DivModUnique(a, 64, 0, a);
    DivModUnique(n, 4096, a * 64 + b, c * 64 + d);
    DivModUnique(a * 64 + b, 64, a, b);
    DivModUnique(n, 64, a * 4096 + b * 64 + c, d);
    DivModUnique(a * 4096 + b * 64 + c, 64, a * 64 + b, c);
  }

  /** The four 6-bit groups of a 24-bit value recombine into it. */
  lemma SextetsRecombine(n: nat)
    requires n < 16777216
    ensures n == Sextets(n)[0] * 262144 + Sextets(n)[1] * 4096 + Sextets(n)[2] * 64 + Sextets(n)[3]
  {
    var q1, d := n / 64, n % 64;
    var q2, c := q1 / 64, q1 % 64;
    var a, b := q2 / 64, q2 % 64;
    assert n == q1 * 64 + d && q1 == q2 * 64 + c && q2 == a * 64 + b;
    assert n == a * 262144 + b * 4096 + c * 64 + d;
    assert a < 64;
    SextetsOfDigits(a, b, c, d);
  }

  /** The three bytes of a group are read back from its 24-bit value. */
  lemma BytesOfGroupValue(e1: Byte, e2: Byte, e3: Byte)
    ensures GroupValue(e1, e2, e3) / 65536 == e1
    ensures GroupValue(e1, e2, e3) / 256 % 256 == e2
    ensures GroupValue(e1, e2, e3) % 256 == e3
  {
    var n := GroupValue(e1, e2, e3);
    DivModUnique(n, 65536, e1, e2 * 256 + e3);
    DivModUnique(n, 256, e1 * 256 + e2, e3);
    DivModUnique(e1 * 256 + e2, 256, e1, e2);
  }

  /** A 24-bit value is the group value of the three bytes read from it. */
  lemma GroupValueOfBytes(n: nat)
    requires n < 16777216
    ensures n / 65536 < 256
    ensures GroupValue(n / 65536, n / 256 % 256, n % 256) == n
  {
    var q, e3 := n / 256, n % 256;
    var e1, e2 := q / 256, q % 256;
    assert n == q * 256 + e3 && q == e1 * 256 + e2;
    DivModUnique(n, 65536, e1, e2 * 256 + e3);
  }

  /** Four letters decode to the value of their 6-bit values side by side. */
  lemma GroupValueOfLetters(a: Sextet, b: Sextet, c: Sextet, d: Sextet)
    ensures GroupValueOf([Alphabet(a), Alphabet(b), Alphabet(c), Alphabet(d)])
         == Some(a * 262144 + b * 4096 + c * 64 + d)
  {
    AlphabetBijection(a, '=');
    AlphabetBijection(b, '=');
    AlphabetBijection(c, '=');
    AlphabetBijection(d, '=');
  }

  /** The letters of a group decode to the group's value. */
  lemma GroupValueOfEncodeGroup(e1: Byte, e2: Byte, e3: Byte)
    ensures GroupValueOf(EncodeGroup(e1, e2, e3)) == Some(GroupValue(e1, e2, e3))
  {
    var n := GroupValue(e1, e2, e3);
    SextetsRecombine(n);
    var s := Sextets(n);
    var a: Sextet, b: Sextet, c: Sextet, d: Sextet := s[0], s[1], s[2], s[3];
    GroupValueOfLetters(a, b, c, d);
    assert EncodeGroup(e1, e2, e3) == [Alphabet(a), Alphabet(b), Alphabet(c), Alphabet(d)];
  }

  /** Decoding what `triplet` wrote gives back the three bytes. */
  lemma TripletRoundTrip(e1: Byte, e2: Byte, e3: Byte)
    ensures DecodeGroup(Triplet(e1, e2, e3)) == Some((e1, e2, e3))
  {
    TripletIsEncodeGroup(e1, e2, e3);
    GroupValueOfEncodeGroup(e1, e2, e3);
    BytesOfGroupValue(e1, e2, e3);
  }

  /** A group `triplet` wrote decodes, as a whole text, to its bytes. */
  lemma TripletDecodes(e1: Byte, e2: Byte, e3: Byte)
    ensures Decode(Triplet(e1, e2, e3)) == Some([e1, e2, e3])
  {
    var t := Triplet(e1, e2, e3);
    TripletRoundTrip(e1, e2, e3);
    AlphabetBijection(0, '=');
    assert t[2] != '=' && t[3] != '=';
  }

  /** Every group the decoder accepts is what `triplet` writes for the bytes
      it decodes to: no other spelling of those bytes is accepted. */
  lemma DecodeGroupComplete(s: string)
    requires DecodeGroup(s).Some?
    ensures Triplet(DecodeGroup(s).value.0, DecodeGroup(s).value.1, DecodeGroup(s).value.2) == s
  {
    var a: int, b: int, c: int, d: int := SextetOf(s[0]).value, SextetOf(s[1]).value, SextetOf(s[2]).value, SextetOf(s[3]).value;
    var n := GroupValueOf(s).value;
    assert n == a * 262144 + b * 4096 + c * 64 + d;
    GroupValueOfBytes(n);
    var (e1, e2, e3) := DecodeGroup(s).value;
    assert GroupValue(e1, e2, e3) == n;
    SextetsOfDigits(a, b, c, d);
    var t := Triplet(e1, e2, e3);
    TripletIsEncodeGroup(e1, e2, e3);
    assert t == [Alphabet(a), Alphabet(b), Alphabet(c), Alphabet(d)];
    forall k | 0 <= k < 4
      ensures t[k] == s[k]
    {
      AlphabetBijection(0, s[k]);
    }
  }

  /** `triplet` is injective: different byte triples never share a group. */
  lemma TripletInjective(a1: Byte, a2: Byte, a3: Byte, b1: Byte, b2: Byte, b3: Byte)
    ensures Triplet(a1, a2, a3) == Triplet(b1, b2, b3) ==> a1 == b1 && a2 == b2 && a3 == b3
  {
    TripletRoundTrip(a1, a2, a3);
    TripletRoundTrip(b1, b2, b3);
  }

  /** Decoding a text of more than one group peels off its first group. */
  lemma DecodeCons(h: string, t: string)
    requires |h| == 4 && |t| > 0
    ensures Decode(h + t) == Join(GroupBytes(h), Decode(t))
  {
    assert (h + t)[..4] == h && (h + t)[4..] == t;
  }

  lemma {:induction false} DecodeAppendStep(a: string, b: string)
    requires |a| % 4 == 0 && |a| > 4 && |b| > 0 && Decode(a).Some?
    requires Decode(a[4..] + b) == Join(Decode(a[4..]), Decode(b))
    ensures Decode(a + b) == Join(Decode(a), Decode(b))
  {
    var h, t := a[..4], a[4..];
    assert a == h + t && a + b == h + (t + b);
    DecodeCons(h, t);
    DecodeCons(h, t + b);
    JoinAssociative(GroupBytes(h), Decode(t), Decode(b));
  }

  /** Decoding distributes over a split after whole unpadded groups. */
  lemma {:induction false} DecodeAppend(a: string, b: string)
    requires |a| % 4 == 0 && Decode(a).Some?
    requires |a| == 0 || a[|a| - 1] != '='
    ensures Decode(a + b) == Join(Decode(a), Decode(b))
    decreases |a|
  {
    if |a| == 0 {
      assert a + b == b;
      if Decode(b).Some? {
        assert [] + Decode(b).value == Decode(b).value;
      }
    } else if |b| == 0 {
      assert a + b == a;
      assert Decode(a).value + [] == Decode(a).value;
    } else if |a| == 4 {
      DecodeCons(a, b);
    } else {
      assert Decode(a[4..]).Some?;
      assert a[4..][|a| - 5] == a[|a| - 1];
      DecodeAppend(a[4..], b);
      DecodeAppendStep(a, b);
    }
  }
}
