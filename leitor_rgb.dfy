/**
 The payload handling of the RGB colour-sensor reader: one line read from
 the serial port is stripped, split on `;`, required to have exactly three
 fields, each field is converted with `int()`, and the reading is shown as
 the label text `R: {r} | G: {g} | B: {b}` and the Tk colour `#rrggbb`
 built with `{r:02x}{g:02x}{b:02x}`.

 The two failures are kept apart: a line without exactly three fields is the
 "wrong format" message, and a field that `int()` rejects raises, which the
 reader reports through its catch-all handler. Either way no label and no
 colour is produced, because all three conversions happen before the first
 widget update.
 */
module LeitorRgb {
  import opened Text
  import opened Numerals

  datatype ReadError =
    | WrongFieldCount    // not exactly three `;`-separated fields
    | ConversionFailed   // a field is not an integer literal; `int()` raised

  /** A successful reading: the three channels and the two strings the
      window shows for them. */
  datatype Reading = Reading(r: int, g: int, b: int, labelText: string, colour: string)

  datatype Outcome = Ok(reading: Reading) | Err(error: ReadError)

  /** The label text `f"R: {r} | G: {g} | B: {b}"`: 15 fixed characters
      around the three decimal texts, starting with `R: `. */
  function Label(r: int, g: int, b: int): (l: string)
    ensures |l| == 15 + |Decimal(r)| + |Decimal(g)| + |Decimal(b)|
    ensures l[..3] == "R: "
  {
    var l := "R: " + Decimal(r) + (" | G: " + Decimal(g) + (" | B: " + Decimal(b)));
    assert l[..3] == "R: ";
    l
  }

  /** The swatch colour `f'#{r:02x}{g:02x}{b:02x}'`. No range check is
      made on the channels, and `02x` is a minimum width, so the colour
      starts with `#` and is never shorter than seven characters. */
  function Colour(r: int, g: int, b: int): (c: string)
    ensures |c| >= 7 && c[0] == '#'
  {
    "#" + FormatHex(r, 2) + FormatHex(g, 2) + FormatHex(b, 2)
  }

  ghost predicate Describes(rd: Reading) {
    rd.labelText == Label(rd.r, rd.g, rd.b) && rd.colour == Colour(rd.r, rd.g, rd.b)
  }

  /** Handles one line read from the sensor. The format error happens
      exactly when the stripped line does not hold two separators, and a
      successful reading always carries the label and colour of its own
      channels. */
  function ParseReading(line: string): (res: Outcome)
    ensures res == Err(WrongFieldCount) <==> Count(Strip(line), ';') != 2
    ensures res.Ok? ==> Describes(res.reading)
  {
    Convert(Split(Strip(line), ';'))
  }

  /** The field-count test and the three conversions, on the fields of the
      line. */
  function Convert(fields: seq<string>): (res: Outcome)
    ensures res == Err(WrongFieldCount) <==> |fields| != 3
    ensures res.Ok? ==> Describes(res.reading)
  {
    if |fields| != 3 then
      Err(WrongFieldCount)
    else
      match (ParseInt(fields[0]), ParseInt(fields[1]), ParseInt(fields[2]))
      case (Some(r), Some(g), Some(b)) => Ok(Reading(r, g, b, Label(r, g, b), Colour(r, g, b)))
      case _ => Err(ConversionFailed)
  }

  // ---------------------------------------------------------------------
  // What a line parses to.

  /** Once the stripped line is cut at its two separators, the reading
      succeeds exactly when every piece is an integer literal, its channels
      are the values of those literals, and otherwise the conversion error
      is reported. Every line holding two separators can be cut this way
      (`Split` gives the pieces). */
  lemma ParseReadingFields(line: string, f0: string, f1: string, f2: string)
    requires Strip(line) == f0 + ";" + f1 + ";" + f2
    requires ';' !in f0 && ';' !in f1 && ';' !in f2
    ensures var literals := IntText(f0) && IntText(f1) && IntText(f2);
            && (ParseReading(line).Ok? <==> literals)
            && (ParseReading(line) == Err(ConversionFailed) <==> !literals)
    ensures ParseReading(line).Ok? ==>
              && ParseReading(line).reading.r == LiteralValue(Strip(f0))
              && ParseReading(line).reading.g == LiteralValue(Strip(f1))
              && ParseReading(line).reading.b == LiteralValue(Strip(f2))
  {
    SplitThree(f0, f1, f2);
    ParseReadingFromFields(line, [f0, f1, f2]);
    ConvertThree(f0, f1, f2);
  }

  /** An information separator (U+001C to U+001F) inside a field is kept by
      `strip` and `split`, and `int()` then raises on that field. */
  lemma InfoSeparatorRejected(line: string, f0: string, f1: string, f2: string)
    requires Strip(line) == f0 + ";" + f1 + ";" + f2
    requires ';' !in f0 && ';' !in f1 && ';' !in f2
    requires HasInfoSeparator(f0) || HasInfoSeparator(f1) || HasInfoSeparator(f2)
    ensures ParseReading(line) == Err(ConversionFailed)
  {
    ParseReadingFields(line, f0, f1, f2);
  }

  lemma ConvertThree(f0: string, f1: string, f2: string)
    ensures var literals := IntText(f0) && IntText(f1) && IntText(f2);
            && (Convert([f0, f1, f2]).Ok? <==> literals)
            && (Convert([f0, f1, f2]) == Err(ConversionFailed) <==> !literals)
    ensures Convert([f0, f1, f2]).Ok? ==>
              && Convert([f0, f1, f2]).reading.r == LiteralValue(Strip(f0))
              && Convert([f0, f1, f2]).reading.g == LiteralValue(Strip(f1))
              && Convert([f0, f1, f2]).reading.b == LiteralValue(Strip(f2))
  {
    ParseIntCorrect(f0);
    ParseIntCorrect(f1);
    ParseIntCorrect(f2);
  }

  lemma SplitThree(f0: string, f1: string, f2: string)
    requires ';' !in f0 && ';' !in f1 && ';' !in f2
    ensures Split(f0 + ";" + f1 + ";" + f2, ';') == [f0, f1, f2]
  {
    var fs := [f0, f1, f2];
    assert Join(fs, ';') == f0 + ";" + f1 + ";" + f2 by {
      assert Join(fs[2..], ';') == f2;
      assert Join(fs[1..], ';') == f1 + ";" + f2;
    }
    SplitJoin(fs, ';');
  }

  /** Whitespace around the line, such as the `\r\n` the sensor ends its
      line with, makes no difference. */
  lemma PaddingIgnored(p: string, line: string, q: string)
    requires AllSpace(p) && AllSpace(q)
    ensures ParseReading(p + line + q) == ParseReading(line)
  {
    StripPadded(p, line, q);
  }

  /** The payload a sensor sends for a reading: the three channels in
      decimal, separated by `;`. */
  function Payload(r: int, g: int, b: int): string {
    Decimal(r) + ";" + Decimal(g) + ";" + Decimal(b)
  }

  /** Every reading the sensor can send comes back unchanged, with its
      label and colour, whatever whitespace surrounds the line. */
  lemma PayloadRoundTrip(r: int, g: int, b: int, p: string, q: string)
    requires AllSpace(p) && AllSpace(q)
    ensures ParseReading(p + Payload(r, g, b) + q) == Ok(Reading(r, g, b, Label(r, g, b), Colour(r, g, b)))
  {
    PaddingIgnored(p, Payload(r, g, b), q);
    PayloadParses(r, g, b);
  }

  lemma PayloadParses(r: int, g: int, b: int)
    ensures ParseReading(Payload(r, g, b)) == Ok(Reading(r, g, b, Label(r, g, b), Colour(r, g, b)))
  {
    PayloadUnpadded(r, g, b);
    PayloadFields(r, g, b);
    ParseReadingFromFields(Payload(r, g, b), [Decimal(r), Decimal(g), Decimal(b)]);
    ConvertDecimals(r, g, b);
  }

  lemma PayloadFields(r: int, g: int, b: int)
    ensures Split(Payload(r, g, b), ';') == [Decimal(r), Decimal(g), Decimal(b)]
  {
    NotInDecimal(r, ';');
    NotInDecimal(g, ';');
    NotInDecimal(b, ';');
    SplitThree(Decimal(r), Decimal(g), Decimal(b));
  }

  lemma ParseReadingFromFields(line: string, fields: seq<string>)
    requires Split(Strip(line), ';') == fields
    ensures ParseReading(line) == Convert(fields)
  {
  }

  lemma PayloadUnpadded(r: int, g: int, b: int)
    ensures Strip(Payload(r, g, b)) == Payload(r, g, b)
  {
    var line := Payload(r, g, b);
    assert IsDecimalDigit(Decimal(b)[|Decimal(b)| - 1]);
    assert line[0] == Decimal(r)[0];
    assert line[|line| - 1] == Decimal(b)[|Decimal(b)| - 1];
    StripUnpadded(line);
  }

  lemma ConvertDecimals(r: int, g: int, b: int)
    ensures Convert([Decimal(r), Decimal(g), Decimal(b)]) == Ok(Reading(r, g, b, Label(r, g, b), Colour(r, g, b)))
  {
    ParseDecimal(r);
    ParseDecimal(g);
    ParseDecimal(b);
  }

  // ---------------------------------------------------------------------
  // The colour string.

  /** A Tk colour of the form `#rrggbb` in lower case. */
  predicate IsHexColour(s: string) {
    |s| == 7 && s[0] == '#' && forall i :: 1 <= i < 7 ==> IsLowerHexDigit(s[i])
  }

  /** Three channel texts of at least two characters each make a
      `#rrggbb` exactly when each is two lower-case hexadecimal digits. */
  lemma PairsMakeHexColour(hr: string, hg: string, hb: string)
    requires |hr| >= 2 && |hg| >= 2 && |hb| >= 2
    ensures var s := "#" + hr + hg + hb;
            && (IsHexColour(s) <==> IsHexPair(hr) && IsHexPair(hg) && IsHexPair(hb))
            && (|hr| == 2 && |hg| == 2 && |hb| == 2 ==> s[1..3] == hr && s[3..5] == hg && s[5..7] == hb)
  {
    var s := "#" + hr + hg + hb;
    if |s| == 7 {
      assert |hr| == 2 && |hg| == 2 && |hb| == 2;
      assert s[1] == hr[0] && s[2] == hr[1];
      assert s[3] == hg[0] && s[4] == hg[1];
      assert s[5] == hb[0] && s[6] == hb[1];
      assert s[1..3] == hr && s[3..5] == hg && s[5..7] == hb;
    }
  }

  /** The colour is a well-formed `#rrggbb` exactly when every channel is
      in 0..255. */
  lemma ColourWellFormed(r: int, g: int, b: int)
    ensures IsHexColour(Colour(r, g, b)) <==> IsByte(r) && IsByte(g) && IsByte(b)
  {
    HexByte(r);
    HexByte(g);
    HexByte(b);
    PairsMakeHexColour(FormatHex(r, 2), FormatHex(g, 2), FormatHex(b, 2));
  }

  /** Characters 1-2, 3-4 and 5-6 of the colour, read as hexadecimal, give
      back the three channels. */
  lemma ColourRoundTrip(r: int, g: int, b: int)
    requires IsByte(r) && IsByte(g) && IsByte(b)
    ensures var s := Colour(r, g, b);
            && IsHexColour(s)
            && (forall i :: 1 <= i < 7 ==> IsDigitIn(s[i], 16))
            && ValueOf(s[1..3], 16) == r && ValueOf(s[3..5], 16) == g && ValueOf(s[5..7], 16) == b
  {
    ColourWellFormed(r, g, b);
    HexByte(r);
    HexByte(g);
    HexByte(b);
    PairsMakeHexColour(FormatHex(r, 2), FormatHex(g, 2), FormatHex(b, 2));
  }

  /** Within 0..255, different readings never share a colour. */
  lemma ColourInjective(r: int, g: int, b: int, r': int, g': int, b': int)
    requires IsByte(r) && IsByte(g) && IsByte(b) && IsByte(r') && IsByte(g') && IsByte(b')
    requires Colour(r, g, b) == Colour(r', g', b')
    ensures r == r' && g == g' && b == b'
  {
    ColourRoundTrip(r, g, b);
    ColourRoundTrip(r', g', b');
  }

  /** `02x` is a minimum width: a channel from 256 on makes the colour
      longer than seven characters, and no channel ever makes it shorter. */
  lemma ColourWide(r: int, g: int, b: int)
    ensures |Colour(r, g, b)| >= 7
    ensures r >= 256 || g >= 256 || b >= 256 ==> |Colour(r, g, b)| >= 8
  {
    HexByte(r);
    HexByte(g);
    HexByte(b);
  }

  /** Without a range check the colour no longer determines the reading:
      (0x111, 0x11, 0x11) and (0x11, 0x111, 0x11) both give `#1111111`. */
  lemma ColourAmbiguousOutOfRange()
    ensures Colour(0x111, 0x11, 0x11) == Colour(0x11, 0x111, 0x11) == "#1111111"
  {
    assert Digits(0x111, 16) == "111" by {
      assert Digits(0x11, 16) == "11" by {
        assert Digits(1, 16) == "1";
      }
    }
  }

  // ---------------------------------------------------------------------
  // The label text.

  lemma CutAtFirst(a: string, x: string, b: string, y: string, c: char)
    requires c !in a && c !in b
    requires a + [c] + x == b + [c] + y
    ensures a == b && x == y
  {
    var s := a + [c] + x;
    assert |a| == |b| by {
      assert s[|a|] == c;
      assert (b + [c] + y)[|b|] == c;
    }
    assert a == s[..|a|] == b;
    assert x == s[|a| + 1..] == y;
  }

  lemma NotInDecimal(n: int, c: char)
    requires c != '-' && !IsDecimalDigit(c)
    ensures c !in Decimal(n)
  {
  }

  /** The label names its reading: two readings with the same label have
      the same channels. */
  lemma LabelInjective(r: int, g: int, b: int, r': int, g': int, b': int)
    requires Label(r, g, b) == Label(r', g', b')
    ensures r == r' && g == g' && b == b'
  {
    NotInDecimal(r, ' ');
    NotInDecimal(r', ' ');
    NotInDecimal(g, ' ');
    NotInDecimal(g', ' ');
    LabelPieces(Decimal(r), Decimal(g), Decimal(b), Decimal(r'), Decimal(g'), Decimal(b'));
    DecimalInjective(r, r');
    DecimalInjective(g, g');
    DecimalInjective(b, b');
  }

  lemma LabelPieces(d1: string, d2: string, d3: string, e1: string, e2: string, e3: string)
    requires ' ' !in d1 && ' ' !in d2 && ' ' !in e1 && ' ' !in e2
    requires "R: " + d1 + (" | G: " + d2 + (" | B: " + d3))
          == "R: " + e1 + (" | G: " + e2 + (" | B: " + e3))
    ensures d1 == e1 && d2 == e2 && d3 == e3
  {
    var l := "R: " + d1 + (" | G: " + d2 + (" | B: " + d3));
    var l' := "R: " + e1 + (" | G: " + e2 + (" | B: " + e3));
    var t1 := "| G: " + d2 + (" | B: " + d3);
    var u1 := "| G: " + e2 + (" | B: " + e3);
    assert l[3..] == d1 + " " + t1;
    assert l'[3..] == e1 + " " + u1;
    CutAtFirst(d1, t1, e1, u1, ' ');
    var t2 := "| B: " + d3;
    var u2 := "| B: " + e3;
    assert t1[5..] == d2 + " " + t2;
    assert u1[5..] == e2 + " " + u2;
    CutAtFirst(d2, t2, e2, u2, ' ');
    assert d3 == t2[5..] && e3 == u2[5..];
  }

  lemma DecimalInjective(n: int, m: int)
    requires Decimal(n) == Decimal(m)
    ensures n == m
  {
    ParseDecimal(n);
    ParseDecimal(m);
  }

  // ---------------------------------------------------------------------
  // Worked lines.

  /** The reading `120;45;200` followed by the sensor's line end. */
  lemma Example120()
    ensures ParseReading("120;45;200\r\n")
            == Ok(Reading(120, 45, 200, "R: 120 | G: 45 | B: 200", "#782dc8"))
  {
    Example120Decimals();
    Example120Hex();
    assert Payload(120, 45, 200) == "120;45;200";
    assert Label(120, 45, 200) == "R: 120 | G: 45 | B: 200";
    assert Colour(120, 45, 200) == "#782dc8";
    assert AllSpace("\r\n");
    assert "120;45;200\r\n" == [] + Payload(120, 45, 200) + "\r\n";
    PayloadRoundTrip(120, 45, 200, [], "\r\n");
  }

  lemma Example120Decimals()
    ensures Decimal(120) == "120" && Decimal(45) == "45" && Decimal(200) == "200"
  {
    assert Digits(120, 10) == "120" by {
      assert Digits(12, 10) == "12" by {
        assert Digits(1, 10) == "1";
      }
    }
    assert Digits(45, 10) == "45" by {
      assert Digits(4, 10) == "4";
    }
    assert Digits(200, 10) == "200" by {
      assert Digits(20, 10) == "20" by {
        assert Digits(2, 10) == "2";
      }
    }
  }

  lemma Example120Hex()
    ensures FormatHex(120, 2) == "78" && FormatHex(45, 2) == "2d" && FormatHex(200, 2) == "c8"
  {
    assert FormatHex(120, 2) == "78" by {
      assert Digits(7, 16) == "7";
    }
    assert FormatHex(45, 2) == "2d" by {
      assert Digits(2, 16) == "2";
    }
    assert FormatHex(200, 2) == "c8" by {
      assert Digits(12, 16) == "c";
    }
  }

  /** Two fields: the format error. */
  lemma ExampleTwoFields()
    ensures ParseReading("1;2") == Err(WrongFieldCount)
  {
    StripUnpadded("1;2");
    assert "1;2" == "1" + [';'] + "2";
    SplitFieldThen("1", ';', "2");
    SplitField("2", ';');
    ParseReadingFromFields("1;2", ["1", "2"]);
  }

  /** An empty middle field still counts as a field, so `1;;2` reaches the
      conversion, which fails on the empty text. */
  lemma ExampleEmptyField()
    ensures ParseReading("1;;2") == Err(ConversionFailed)
  {
    StripUnpadded("1;;2");
    assert "1;;2" == "1" + ";" + "" + ";" + "2";
    ParseReadingFields("1;;2", "1", "", "2");
    assert !IntLiteral(Strip(""));
  }

  /** A unit separator (U+001F) inside a field survives `strip`, which only
      trims the ends of the line, and `int()` rejects it. */
  lemma ExampleUnitSeparator()
    ensures ParseReading("1\U{1F};2;3") == Err(ConversionFailed)
  {
    var line, f0 := "1\U{1F};2;3", "1\U{1F}";
    assert line == f0 + ";" + "2" + ";" + "3";
    assert HasInfoSeparator(f0) by {
      assert IsInfoSeparator(f0[1]);
    }
    assert ';' !in f0;
    UnpaddedInfoSeparator(line, f0, "2", "3");
  }

  /** The separator case on a line with no whitespace at its ends. */
  lemma UnpaddedInfoSeparator(line: string, f0: string, f1: string, f2: string)
    requires line == f0 + ";" + f1 + ";" + f2 && f0 != [] && f2 != []
    requires !IsSpace(f0[0]) && !IsSpace(f2[|f2| - 1])
    requires ';' !in f0 && ';' !in f1 && ';' !in f2
    requires HasInfoSeparator(f0)
    ensures ParseReading(line) == Err(ConversionFailed)
  {
    assert line[0] == f0[0] && line[|line| - 1] == f2[|f2| - 1];
    StripUnpadded(line);
    InfoSeparatorRejected(line, f0, f1, f2);
  }
}
