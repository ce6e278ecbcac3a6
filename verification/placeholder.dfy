/** `rgbDataURL`: the blur placeholder of every product image, a data URL
    holding a 1x1 GIF whose palette carries one RGB colour. The GIF layout
    referred to is that of the GIF89a specification (header, logical screen
    descriptor, global colour table, graphic control extension, image,
    trailer). */
module BlurPlaceholder {
  import opened Options
  import opened Base64
  import JsBits

  /** The data-URL scheme, media type and encoding marker. */
  const DataUrlHead: string := "data:image/gif;base64,"

  /** The base64 text fixed before the colour: four whole groups encoding the
      GIF89a signature and the logical screen descriptor of a 1x1 image with
      a two-entry global colour table, up to (not including) its last byte.
      The literal is written group by group; the value is the same string. */
  const GifHead: string := "R0lG" + "ODlh" + "AQAB" + "APAA"

  /** The base64 text fixed after the colour: the rest of the palette's white
      entry, a graphic control extension, the image and the trailer. */
  const GifTail: string :=
    "/yH5" + "BAAA" + "AAAA" + "LAAA" + "AAAB" + "AAEA" + "AAIC" + "RAEA" + "Ow=="

  /** Where the variable groups start within the data URL. */
  const ColourStart: nat := |DataUrlHead| + |GifHead|

  /** `rgbDataURL(r, g, b)`. */
  function RgbDataURL(r: Byte, g: Byte, b: Byte): (u: string)
    ensures |u| == |DataUrlHead| + 60
  {
    DataUrlHead + GifHead + (Triplet(0, r, g) + Triplet(b, 255, 255)) + GifTail
  }

  /** Reads the colour back out of a placeholder URL; `None` for any text
      that `RgbDataURL` does not produce. */
  function ParseRgb(u: string): Option<(Byte, Byte, Byte)> {
    if |u| != ColourStart + 8 + |GifTail| || u[..ColourStart] != DataUrlHead + GifHead
       || u[ColourStart + 8..] != GifTail then None
    else
      match (DecodeGroup(u[ColourStart..ColourStart + 4]), DecodeGroup(u[ColourStart + 4..ColourStart + 8]))
      case (Some((z, r, g)), Some((b, w1, w2))) =>
        if z == 0 && w1 == 255 && w2 == 255 then Some((r, g, b)) else None
      case _ => None
  }

  /** The 43 bytes of the GIF a placeholder URL carries. */
  function GifBytes(r: Byte, g: Byte, b: Byte): seq<Byte> {
    [71, 73, 70, 56, 57, 97]                 // signature and version "GIF89a"
    + [1, 0, 1, 0, 240, 0, 0]                // 1x1 screen; global table of 2 entries; background 0
    + [r, g, b, 255, 255, 255]               // global colour table: the colour, then white
    + [33, 249, 4, 0, 0, 0, 0, 0]            // graphic control extension
    + [44, 0, 0, 0, 0, 1, 0, 1, 0, 0]        // image descriptor: 1x1 at the origin
    + [2, 2, 68, 1, 0]                       // LZW-coded image data
    + [59]                                   // trailer
  }

  /** The global colour table of a GIF, as the flags byte of its logical
      screen descriptor announces it: present when bit 7 is set, with
      2^(k+1) entries where k is the low three bits. */
  function GlobalColourTable(gif: seq<Byte>): Option<seq<(Byte, Byte, Byte)>> {
    if |gif| < 13 || gif[10] < 128 then None
    else
      var size := JsBits.Pow2(gif[10] % 8 + 1);
      if |gif| < 13 + 3 * size then None
      else Some(seq(size, i requires 0 <= i < size => (gif[13 + 3 * i], gif[14 + 3 * i], gif[15 + 3 * i])))
  }

  /*** Lemmas ***/

  /** Appending one decodable, unpadded group to whole unpadded groups
      appends its bytes. */
  lemma DecodeSnoc(a: string, grp: string, x: seq<Byte>, y: seq<Byte>)
    requires |a| % 4 == 0 && Decode(a) == Some(x) && (|a| == 0 || a[|a| - 1] != '=')
    requires |grp| == 4 && Decode(grp) == Some(y)
    ensures Decode(a + grp) == Some(x + y)
    ensures (a + grp)[|a| + 3] == grp[3]
  {
    DecodeAppend(a, grp);
  }

  /* Each fixed group of the GIF text decodes on its own. */
  lemma DecodesR0lG() ensures Decode("R0lG") == Some([71, 73, 70]) {}
  lemma DecodesODlh() ensures Decode("ODlh") == Some([56, 57, 97]) {}
  lemma DecodesAQAB() ensures Decode("AQAB") == Some([1, 0, 1]) {}
  lemma DecodesAPAA() ensures Decode("APAA") == Some([0, 240, 0]) {}
  lemma DecodesSlashYH5() ensures Decode("/yH5") == Some([255, 33, 249]) {}
  lemma DecodesBAAA() ensures Decode("BAAA") == Some([4, 0, 0]) {}
  lemma DecodesAAAA() ensures Decode("AAAA") == Some([0, 0, 0]) {}
  lemma DecodesLAAA() ensures Decode("LAAA") == Some([44, 0, 0]) {}
  lemma DecodesAAAB() ensures Decode("AAAB") == Some([0, 0, 1]) {}
  lemma DecodesAAEA() ensures Decode("AAEA") == Some([0, 1, 0]) {}
  lemma DecodesAAIC() ensures Decode("AAIC") == Some([0, 2, 2]) {}
  lemma DecodesRAEA() ensures Decode("RAEA") == Some([68, 1, 0]) {}
  lemma DecodesOw() ensures Decode("Ow==") == Some([59]) {}

  /* The fixed texts are decoded one group at a time: each step below
     appends one group with `DecodeSnoc`. The chain is unrolled into one
     lemma per step so that each proof obligation stays small. */
  lemma HeadDecodes2()
    ensures Decode("R0lG" + "ODlh") == Some([71, 73, 70, 56, 57, 97])
  {
    DecodesR0lG();
    DecodesODlh();
    var x: seq<Byte> := [71, 73, 70];
    DecodeSnoc("R0lG", "ODlh", x, [56, 57, 97]);
    assert x + [56, 57, 97] == [71, 73, 70, 56, 57, 97];
  }

  lemma HeadDecodes3()
    ensures Decode("R0lG" + "ODlh" + "AQAB") == Some([71, 73, 70, 56, 57, 97, 1, 0, 1])
  {
    HeadDecodes2();
    DecodesAQAB();
    var x: seq<Byte> := [71, 73, 70, 56, 57, 97];
    DecodeSnoc("R0lG" + "ODlh", "AQAB", x, [1, 0, 1]);
    assert x + [1, 0, 1] == [71, 73, 70, 56, 57, 97, 1, 0, 1];
  }

  /** The fixed text before the colour decodes to the signature and most of
      the logical screen descriptor. */
  lemma HeadDecodes()
    ensures Decode(GifHead) == Some([71, 73, 70, 56, 57, 97, 1, 0, 1, 0, 240, 0])
  {
    HeadDecodes3();
    DecodesAPAA();
    var x: seq<Byte> := [71, 73, 70, 56, 57, 97, 1, 0, 1];
    DecodeSnoc("R0lG" + "ODlh" + "AQAB", "APAA", x, [0, 240, 0]);
    assert x + [0, 240, 0] == [71, 73, 70, 56, 57, 97, 1, 0, 1, 0, 240, 0];
  }

  lemma TailDecodes2()
    ensures Decode("/yH5" + "BAAA") == Some([255, 33, 249, 4, 0, 0])
  {
    DecodesSlashYH5();
    DecodesBAAA();
    var x: seq<Byte> := [255, 33, 249];
    DecodeSnoc("/yH5", "BAAA", x, [4, 0, 0]);
    assert x + [4, 0, 0] == [255, 33, 249, 4, 0, 0];
  }

  lemma TailDecodes3()
    ensures Decode("/yH5" + "BAAA" + "AAAA") == Some([255, 33, 249, 4, 0, 0, 0, 0, 0])
  {
    TailDecodes2();
    DecodesAAAA();
    var x: seq<Byte> := [255, 33, 249, 4, 0, 0];
    DecodeSnoc("/yH5" + "BAAA", "AAAA", x, [0, 0, 0]);
    assert x + [0, 0, 0] == [255, 33, 249, 4, 0, 0, 0, 0, 0];
  }

  lemma TailDecodes4()
    ensures Decode("/yH5" + "BAAA" + "AAAA" + "LAAA") == Some([255, 33, 249, 4, 0, 0, 0, 0, 0, 44, 0, 0])
  {
    TailDecodes3();
    DecodesLAAA();
    var x: seq<Byte> := [255, 33, 249, 4, 0, 0, 0, 0, 0];
    DecodeSnoc("/yH5" + "BAAA" + "AAAA", "LAAA", x, [44, 0, 0]);
    assert x + [44, 0, 0] == [255, 33, 249, 4, 0, 0, 0, 0, 0, 44, 0, 0];
  }

  lemma TailDecodes5()
    ensures Decode("/yH5" + "BAAA" + "AAAA" + "LAAA" + "AAAB") == Some([255, 33, 249, 4, 0, 0, 0, 0, 0, 44, 0, 0, 0, 0, 1])
  {
    TailDecodes4();
    DecodesAAAB();
    var x: seq<Byte> := [255, 33, 249, 4, 0, 0, 0, 0, 0, 44, 0, 0];
    DecodeSnoc("/yH5" + "BAAA" + "AAAA" + "LAAA", "AAAB", x, [0, 0, 1]);
    assert x + [0, 0, 1] == [255, 33, 249, 4, 0, 0, 0, 0, 0, 44, 0, 0, 0, 0, 1];
  }

  lemma TailDecodes6()
    ensures Decode("/yH5" + "BAAA" + "AAAA" + "LAAA" + "AAAB" + "AAEA") == Some([255, 33, 249, 4, 0, 0, 0, 0, 0, 44, 0, 0, 0, 0, 1, 0, 1, 0])
  {
    TailDecodes5();
    DecodesAAEA();
    var x: seq<Byte> := [255, 33, 249, 4, 0, 0, 0, 0, 0, 44, 0, 0, 0, 0, 1];
    DecodeSnoc("/yH5" + "BAAA" + "AAAA" + "LAAA" + "AAAB", "AAEA", x, [0, 1, 0]);
    assert x + [0, 1, 0] == [255, 33, 249, 4, 0, 0, 0, 0, 0, 44, 0, 0, 0, 0, 1, 0, 1, 0];
  }

  lemma TailDecodes7()
    ensures Decode("/yH5" + "BAAA" + "AAAA" + "LAAA" + "AAAB" + "AAEA" + "AAIC") == Some([255, 33, 249, 4, 0, 0, 0, 0, 0, 44, 0, 0, 0, 0, 1, 0, 1, 0, 0, 2, 2])
  {
    TailDecodes6();
    DecodesAAIC();
    var x: seq<Byte> := [255, 33, 249, 4, 0, 0, 0, 0, 0, 44, 0, 0, 0, 0, 1, 0, 1, 0];
    DecodeSnoc("/yH5" + "BAAA" + "AAAA" + "LAAA" + "AAAB" + "AAEA", "AAIC", x, [0, 2, 2]);
    assert x + [0, 2, 2] == [255, 33, 249, 4, 0, 0, 0, 0, 0, 44, 0, 0, 0, 0, 1, 0, 1, 0, 0, 2, 2];
  }

  lemma TailDecodes8()
    ensures Decode("/yH5" + "BAAA" + "AAAA" + "LAAA" + "AAAB" + "AAEA" + "AAIC" + "RAEA") == Some([255, 33, 249, 4, 0, 0, 0, 0, 0, 44, 0, 0, 0, 0, 1, 0, 1, 0, 0, 2, 2, 68, 1, 0])
  {
    TailDecodes7();
    DecodesRAEA();
    var x: seq<Byte> := [255, 33, 249, 4, 0, 0, 0, 0, 0, 44, 0, 0, 0, 0, 1, 0, 1, 0, 0, 2, 2];
    DecodeSnoc("/yH5" + "BAAA" + "AAAA" + "LAAA" + "AAAB" + "AAEA" + "AAIC", "RAEA", x, [68, 1, 0]);
    assert x + [68, 1, 0] == [255, 33, 249, 4, 0, 0, 0, 0, 0, 44, 0, 0, 0, 0, 1, 0, 1, 0, 0, 2, 2, 68, 1, 0];
  }

  /** The fixed text after the colour decodes to the white palette entry,
      the graphic control extension, the image and the trailer. */
  lemma TailDecodes()
    ensures Decode(GifTail) == Some([255, 33, 249, 4, 0, 0, 0, 0, 0, 44, 0, 0, 0, 0, 1, 0, 1, 0, 0, 2, 2, 68, 1, 0, 59])
  {
    TailDecodes8();
    DecodesOw();
    var x: seq<Byte> := [255, 33, 249, 4, 0, 0, 0, 0, 0, 44, 0, 0, 0, 0, 1, 0, 1, 0, 0, 2, 2, 68, 1, 0];
    DecodeAppend("/yH5" + "BAAA" + "AAAA" + "LAAA" + "AAAB" + "AAEA" + "AAIC" + "RAEA", "Ow==");
    assert x + [59] == [255, 33, 249, 4, 0, 0, 0, 0, 0, 44, 0, 0, 0, 0, 1, 0, 1, 0, 0, 2, 2, 68, 1, 0, 59];
  }

  /** The GIF's bytes, cut where the base64 groups of the URL fall. */
  lemma GifBytesByGroups(r: Byte, g: Byte, b: Byte)
    ensures GifBytes(r, g, b)
         == [71, 73, 70, 56, 57, 97, 1, 0, 1, 0, 240, 0] + [0, r, g] + [b, 255, 255]
          + [255, 33, 249, 4, 0, 0, 0, 0, 0, 44, 0, 0, 0, 0, 1, 0, 1, 0, 0, 2, 2, 68, 1, 0, 59]
  {
  }

  /** The base64 part of a placeholder URL. */
  lemma PayloadText(r: Byte, g: Byte, b: Byte)
    ensures RgbDataURL(r, g, b)[|DataUrlHead|..] == GifHead + Triplet(0, r, g) + Triplet(b, 255, 255) + GifTail
  {
    var t1, t2 := Triplet(0, r, g), Triplet(b, 255, 255);
    assert DataUrlHead + GifHead + (t1 + t2) + GifTail == DataUrlHead + (GifHead + t1 + t2 + GifTail);
  }

  /** The fixed head and the two colour groups decode to whole bytes. */
  lemma ColourGroupsDecode(r: Byte, g: Byte, b: Byte)
    ensures Decode(GifHead + Triplet(0, r, g) + Triplet(b, 255, 255))
         == Some([71, 73, 70, 56, 57, 97, 1, 0, 1, 0, 240, 0] + [0, r, g] + [b, 255, 255])
    ensures |GifHead + Triplet(0, r, g) + Triplet(b, 255, 255)| == 24
    ensures (GifHead + Triplet(0, r, g) + Triplet(b, 255, 255))[23] != '='
  {
    var t1, t2 := Triplet(0, r, g), Triplet(b, 255, 255);
    HeadDecodes();
    TripletDecodes(0, r, g);
    TripletDecodes(b, 255, 255);
    var h: seq<Byte> := [71, 73, 70, 56, 57, 97, 1, 0, 1, 0, 240, 0];
    assert |GifHead| == 16;
    DecodeSnoc(GifHead, t1, h, [0, r, g]);
    assert |GifHead + t1| == 20;
    DecodeSnoc(GifHead + t1, t2, h + [0, r, g], [b, 255, 255]);
  }

  /** The base64 part of a placeholder URL decodes to the GIF above: the
      fixed text before the colour is whole groups, so `r`, `g` and `b`
      land in bytes 13, 14 and 15, the first palette entry. */
  lemma PayloadIsGif(r: Byte, g: Byte, b: Byte)
    ensures Decode(RgbDataURL(r, g, b)[|DataUrlHead|..]) == Some(GifBytes(r, g, b))
  {
    var a := GifHead + Triplet(0, r, g) + Triplet(b, 255, 255);
    PayloadText(r, g, b);
    ColourGroupsDecode(r, g, b);
    TailDecodes();
    DecodeAppend(a, GifTail);
    GifBytesByGroups(r, g, b);
  }

  /** The decoded GIF's global colour table is exactly the requested colour
      followed by white, and its background index selects the colour. */
  lemma PaletteCarriesColour(r: Byte, g: Byte, b: Byte)
    ensures GlobalColourTable(GifBytes(r, g, b)) == Some([(r, g, b), (255, 255, 255)])
    ensures GifBytes(r, g, b)[11] == 0
  {
    var gif := GifBytes(r, g, b);
    assert |gif| == 43 && gif[10] == 240;
    assert gif[13] == r && gif[14] == g && gif[15] == b;
    assert gif[16] == 255 && gif[17] == 255 && gif[18] == 255;
    assert JsBits.Pow2(240 % 8 + 1) == 2;
    var t := GlobalColourTable(gif).value;
    assert |t| == 2 && t[0] == (r, g, b) && t[1] == (255, 255, 255);
    assert t == [(r, g, b), (255, 255, 255)];
  }

  /** The placeholder URL for a colour carries a GIF whose global colour
      table starts with that colour. */
  lemma PlaceholderCarriesColour(r: Byte, g: Byte, b: Byte)
    ensures Decode(RgbDataURL(r, g, b)[|DataUrlHead|..]).Some?
    ensures GlobalColourTable(Decode(RgbDataURL(r, g, b)[|DataUrlHead|..]).value) == Some([(r, g, b), (255, 255, 255)])
  {
    PayloadIsGif(r, g, b);
    PaletteCarriesColour(r, g, b);
  }

  /** Reading the colour back from a placeholder URL gives the colour. */
  lemma ParseRgbRoundTrip(r: Byte, g: Byte, b: Byte)
    ensures ParseRgb(RgbDataURL(r, g, b)) == Some((r, g, b))
  {
    var u := RgbDataURL(r, g, b);
    var t1, t2 := Triplet(0, r, g), Triplet(b, 255, 255);
    assert u == (DataUrlHead + GifHead) + t1 + t2 + GifTail;
    assert u[..ColourStart] == DataUrlHead + GifHead;
    assert u[ColourStart..ColourStart + 4] == t1;
    assert u[ColourStart + 4..ColourStart + 8] == t2;
    assert u[ColourStart + 8..] == GifTail;
    TripletRoundTrip(0, r, g);
    TripletRoundTrip(b, 255, 255);
  }

  /** A text is its three slices around two cut points. */
  lemma Reassemble(u: string, i: nat, j: nat)
    requires i <= j <= |u|
    ensures u == u[..i] + u[i..j] + u[j..]
  {
  }

  /** The only text `ParseRgb` accepts for a colour is that colour's URL. */
  lemma ParseRgbExact(u: string)
    ensures ParseRgb(u).Some? ==> RgbDataURL(ParseRgb(u).value.0, ParseRgb(u).value.1, ParseRgb(u).value.2) == u
  {
    if ParseRgb(u).Some? {
      var (r, g, b) := ParseRgb(u).value;
      var g12 := u[ColourStart..ColourStart + 8];
      var g1, g2 := g12[..4], g12[4..];
      assert g1 == u[ColourStart..ColourStart + 4] && g2 == u[ColourStart + 4..ColourStart + 8];
      DecodeGroupComplete(g1);
      DecodeGroupComplete(g2);
      assert Triplet(0, r, g) + Triplet(b, 255, 255) == g12;
      Reassemble(u, ColourStart, ColourStart + 8);
    }
  }

  /** Different colours give different placeholder URLs. */
  lemma RgbDataURLInjective(r: Byte, g: Byte, b: Byte, r': Byte, g': Byte, b': Byte)
    ensures RgbDataURL(r, g, b) == RgbDataURL(r', g', b') ==> r == r' && g == g' && b == b'
  {
    ParseRgbRoundTrip(r, g, b);
    ParseRgbRoundTrip(r', g', b');
  }

  /** A text is the placeholder URL of a colour exactly when the colour
      reader returns that colour for it. */
  lemma ParseRgbCharacterises(u: string, r: Byte, g: Byte, b: Byte)
    ensures ParseRgb(u) == Some((r, g, b)) <==> u == RgbDataURL(r, g, b)
  {
    ParseRgbExact(u);
    ParseRgbRoundTrip(r, g, b);
  }
}
