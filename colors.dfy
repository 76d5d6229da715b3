/**
 * The colour codec of the application: a colour given as "#rrggbb" or as a
 * tuple of components becomes an (r, g, b, a) tuple, and an (r, g, b) tuple
 * becomes the string "#rrggbb" with lower-case digits.
 */
module Colors {
  import opened Outcomes
  import opened Texts

  /** A colour argument: a string, or a tuple or list of integer components. */
  datatype ColorArg = Text(text: string) | Components(parts: seq<int>)

  datatype Rgba = Rgba(red: int, green: int, blue: int, alpha: int)

  predicate IsByte(v: int)
  {
    0 <= v < 256
  }

  /**
   * A string loses its leading '#' characters and is read in base 16 (an
   * unreadable string is Err, the ValueError of int); its value v gives
   * (v // 65536, v // 256 % 256, v % 256, alpha). Three components get alpha
   * 255, four are taken as they are, any other number gives None.
   */
  function MakeColorTuple(color: ColorArg, alpha: int): (r: Result<Option<Rgba>, string>)
    ensures color.Components? ==> r.Ok? && (r.value.Some? <==> |color.parts| == 3 || |color.parts| == 4)
    ensures color.Components? && |color.parts| == 3 ==>
              r == Ok(Some(Rgba(color.parts[0], color.parts[1], color.parts[2], 255)))
    ensures color.Components? && |color.parts| == 4 ==>
              r == Ok(Some(Rgba(color.parts[0], color.parts[1], color.parts[2], color.parts[3])))
    ensures color.Text? ==> (r.Ok? <==> ParseHex(LStrip(color.text, {'#'})).Ok?)
    ensures color.Text? && r.Ok? ==>
              && r.value.Some? && r.value.value.alpha == alpha
              && IsByte(r.value.value.green) && IsByte(r.value.value.blue)
              && RgbValue(r.value.value) == ParseHex(LStrip(color.text, {'#'})).value
  {
    match color
    case Text(s) =>
      (match ParseHex(LStrip(s, {'#'}))
       case Err(e) => Err(e)
       case Ok(v) =>
         ValueSplit(v);
         Ok(Some(Rgba(v / 65536, v / 256 % 256, v % 256, alpha))))
    case Components(c) =>
      if |c| == 3 then Ok(Some(Rgba(c[0], c[1], c[2], 255)))
      else if |c| == 4 then Ok(Some(Rgba(c[0], c[1], c[2], c[3])))
      else Ok(None)
  }

  /** The 24-bit value of the red, green and blue components. */
  function RgbValue(c: Rgba): int
  {
    65536 * c.red + 256 * c.green + c.blue
  }

  /** "#" and the digits of hex(2^24 + 65536 r + 256 g + b) after its first three characters. */
  function MakeColorString(c: Rgba): string
  {
    var h := PyHex(16777216 + RgbValue(c));
    "#" + (if |h| >= 3 then h[3..] else [])
  }

  lemma SixDigits()
    ensures Pow16(6) == 16777216
  {
  }

  /** Byte components give "#" and exactly six lower-case hex digits: the value, zero-padded. */
  lemma ColorStringShape(c: Rgba)
    requires IsByte(c.red) && IsByte(c.green) && IsByte(c.blue)
    ensures MakeColorString(c) == "#" + Fixed(16777216 + RgbValue(c), 6)
    ensures HexDigitsValue(Fixed(16777216 + RgbValue(c), 6)) == RgbValue(c)
  {
    var n := 16777216 + RgbValue(c);
    SixDigits();
    HexWithLeadingOne(n, 6);
    FixedValue(n, 6);
    ModOfDecomposition(n, 16777216, 1, RgbValue(c));
  }

  /**
   * Any integer, negative ones included, is 65536 times its // 65536 plus
   * two bytes: v // 256 % 256 and v % 256 (Python's floor division and
   * Dafny's division agree for a positive divisor).
   */
  lemma ValueSplit(v: int)
    ensures IsByte(v / 256 % 256) && IsByte(v % 256)
    ensures 65536 * (v / 65536) + 256 * (v / 256 % 256) + v % 256 == v
  {
    var q, b := v / 256, v % 256;
    var g := q % 256;
    assert q == 256 * (q / 256) + g;
    assert v == 65536 * (q / 256) + (256 * g + b);
    ModOfDecomposition(v, 65536, q / 256, 256 * g + b);
  }

  /** A 24-bit value splits into its three bytes. */
  lemma ByteSplit(v: int)
    requires 0 <= v < 16777216
    ensures IsByte(v / 65536) && IsByte(v / 256 % 256) && IsByte(v % 256)
    ensures 65536 * (v / 65536) + 256 * (v / 256 % 256) + v % 256 == v
  {
    ValueSplit(v);
  }

  /** Three bytes make one 24-bit value and are read back from it. */
  lemma ByteJoin(c: Rgba)
    requires IsByte(c.red) && IsByte(c.green) && IsByte(c.blue)
    ensures var v := RgbValue(c); 0 <= v < 16777216 && v / 65536 == c.red && v / 256 % 256 == c.green && v % 256 == c.blue
  {
    var v := RgbValue(c);
    ModOfDecomposition(v, 65536, c.red, 256 * c.green + c.blue);
    ModOfDecomposition(v, 256, 256 * c.red + c.green, c.blue);
    ModOfDecomposition(256 * c.red + c.green, 256, c.red, c.green);
  }

  /** Stripping the '#' of "#" and hex digits leaves the digits. */
  lemma StripHash(d: string)
    requires d != [] && AllHexDigits(d)
    ensures LStrip("#" + d, {'#'}) == d
  {
    assert ("#" + d)[1..] == d;
    assert d[0] != '#';
  }

  /** Writing byte components as a string and reading it back gives them again with alpha 255. */
  lemma ColorRoundTrip(c: Rgba)
    requires IsByte(c.red) && IsByte(c.green) && IsByte(c.blue)
    ensures MakeColorTuple(Text(MakeColorString(c)), 255) == Ok(Some(Rgba(c.red, c.green, c.blue, 255)))
  {
    var d := Fixed(16777216 + RgbValue(c), 6);
    ColorStringShape(c);
    StripHash(d);
    ByteJoin(c);
  }

  /** A "#" and six lower-case hex digits is read as three bytes and written back unchanged. */
  lemma ColorStringRoundTrip(d: string, alpha: int)
    requires |d| == 6 && forall i :: 0 <= i < 6 ==> IsLowerHexDigit(d[i])
    ensures MakeColorTuple(Text("#" + d), alpha).Ok?
    ensures var t := MakeColorTuple(Text("#" + d), alpha).value;
            t.Some? && IsByte(t.value.red) && IsByte(t.value.green) && IsByte(t.value.blue)
            && t.value.alpha == alpha && MakeColorString(t.value) == "#" + d
  {
    var v := HexDigitsValue(d);
    ReadColorDigits(d, alpha);
    ByteSplit(v);
    var c := Rgba(v / 65536, v / 256 % 256, v % 256, alpha);
    assert RgbValue(c) == v;
    WriteColorDigits(d, c);
  }

  /** "#" and six hex digits is read as the three bytes of the digits' value. */
  lemma ReadColorDigits(d: string, alpha: int)
    requires |d| == 6 && forall i :: 0 <= i < 6 ==> IsLowerHexDigit(d[i])
    ensures var v := HexDigitsValue(d);
            0 <= v < 16777216 && MakeColorTuple(Text("#" + d), alpha) == Ok(Some(Rgba(v / 65536, v / 256 % 256, v % 256, alpha)))
  {
    FixedOfValue(d);
    SixDigits();
    StripHash(d);
    assert ParseHex(d) == Ok(HexDigitsValue(d));
  }

  /** Components whose 24-bit value is that of six lower-case hex digits are written as "#" and those digits. */
  lemma WriteColorDigits(d: string, c: Rgba)
    requires |d| == 6 && forall i :: 0 <= i < 6 ==> IsLowerHexDigit(d[i])
    requires IsByte(c.red) && IsByte(c.green) && IsByte(c.blue) && RgbValue(c) == HexDigitsValue(d)
    ensures MakeColorString(c) == "#" + d
  {
    ColorStringShape(c);
    FixedOfValue(d);
    SixDigits();
    var e := Fixed(16777216 + RgbValue(c), 6);
    FixedOfValue(e);
    assert e == Fixed(RgbValue(c), 6) == d;
  }
}
