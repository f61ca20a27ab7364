/** The value logic of the setup dialog (src/setup.c): converting between the
    engine's packed 0xRRGGBB colours and GdkColor, the "#RRGGBB" / "none"
    strings it stores in the configuration, and the combo-box lookup. */
module Setup {
  import opened Common
  import M17nUtil
  import Presentation

  type uint16 = x: int | 0 <= x < 0x1_0000

  /** GdkColor: 16-bit channels; only their high bytes carry the colour. */
  datatype GdkColor = GdkColor(pixel: uint32, red: uint16, green: uint16, blue: uint16)

  /** _gdk_color_from_uint: bits 16-23, 8-15 and 0-7 of the packed colour
      become the high bytes of red, green and blue; the low bytes are zero.
      The C masks, `(color >> 8) & 0xFF00`, `color & 0xFF00` and
      `(color & 0xFF) << 8`, are written as byte arithmetic. */
  function ColorFromUint(color: uint32): (r: GdkColor)
    ensures r.pixel == 0
    ensures r.red % 0x100 == 0 && r.green % 0x100 == 0 && r.blue % 0x100 == 0
    ensures r.red / 0x100 * 0x1_0000 + r.green / 0x100 * 0x100 + r.blue / 0x100 == color % 0x100_0000
  {
    ByteSplit(color);
    GdkColor(0, color / 0x1_0000 % 0x100 * 0x100, color / 0x100 % 0x100 * 0x100, color % 0x100 * 0x100)
  }

  /** The low 24 bits of a number are its three low bytes. */
  lemma ByteSplit(c: nat)
    ensures c % 0x100_0000 == (c / 0x1_0000 % 0x100) * 0x1_0000 + (c / 0x100 % 0x100) * 0x100 + c % 0x100
  {
    var r0, q1 := c % 0x100, c / 0x100;
    var r1, q2 := q1 % 0x100, q1 / 0x100;
    var r2, q3 := q2 % 0x100, q2 / 0x100;
    assert c == q2 * 0x1_0000 + r1 * 0x100 + r0;
    assert c / 0x1_0000 == q2;
    assert c == q3 * 0x100_0000 + (r2 * 0x1_0000 + r1 * 0x100 + r0);
  }

  /** _gdk_color_to_string, with the return its body lacks: "#" and two
      upper-case hex digits per channel, from each channel's high byte. */
  function ColorToString(color: GdkColor): (r: string)
    ensures |r| == 7 && r[0] == '#'
    ensures forall i :: 1 <= i < 7 ==> IsDigitIn(r[i], 16) && !IsLower(r[i])
    ensures DigitsValue(r[1..], 16) == color.red / 0x100 * 0x1_0000 + color.green / 0x100 * 0x100 + color.blue / 0x100
  {
    var rr := Hex2(color.red / 0x100);
    var gg := Hex2(color.green / 0x100);
    var bb := Hex2(color.blue / 0x100);
    HexTriple(rr, gg, bb, color.red / 0x100, color.green / 0x100, color.blue / 0x100);
    assert ("#" + rr + gg + bb)[1..] == rr + gg + bb;
    "#" + rr + gg + bb
  }

  lemma HexTriple(rr: string, gg: string, bb: string, r: nat, g: nat, b: nat)
    requires |rr| == 2 && |gg| == 2 && |bb| == 2
    requires DigitsValue(rr, 16) == r && DigitsValue(gg, 16) == g && DigitsValue(bb, 16) == b
    ensures DigitsValue(rr + gg + bb, 16) == r * 0x1_0000 + g * 0x100 + b
  {
    DigitsValueAppend(rr, gg, 16);
    DigitsValueAppend(rr + gg, bb, 16);
    assert Pow(16, 2) == 0x100;
    assert Pow(16, 2) * Pow(16, 2) == 0x1_0000;
  }

  /** Packing a colour for the dialog and printing it gives a string the
      engine parses back to the low 24 bits of the colour. */
  lemma ColorStringRoundTrip(color: uint32)
    ensures M17nUtil.ParseColor(Some(ColorToString(ColorFromUint(color)))) == color % 0x100_0000
  {
    var s := ColorToString(ColorFromUint(color));
    var digits := s[1..];
    assert s == "#" + (digits + []);
    M17nUtil.ParseColorHexRun(digits, []);
  }

  /** save_color: the colour string when the toggle is active, "none"
      otherwise. */
  function SaveColor(active: bool, color: GdkColor): (r: string)
    ensures !active <==> r == "none"
    ensures active ==> |r| == 7 && r[0] == '#'
    ensures active ==> forall i :: 1 <= i < 7 ==> IsDigitIn(r[i], 16) && !IsLower(r[i])
    ensures active ==>
              DigitsValue(r[1..], 16) == color.red / 0x100 * 0x1_0000 + color.green / 0x100 * 0x100 + color.blue / 0x100
  {
    if active then ColorToString(color) else "none"
  }

  /** What an active save stores for a packed colour is what the engine
      reads back as that colour's low 24 bits. */
  lemma SavedColorParses(color: uint32)
    ensures M17nUtil.ParseColor(Some(SaveColor(true, ColorFromUint(color)))) == color % 0x100_0000
  {
    ColorStringRoundTrip(color);
  }

  /** What load_color sets up: whether the toggle is active, and the colour
      the button shows. */
  datatype ColorChoice = ColorChoice(active: bool, color: GdkColor)

  /** load_color: the toggle is active only for a stored string that is not
      "none" and that gdk_color_parse (the oracle `parse`) accepts; then the
      button shows the parsed colour, otherwise the default. */
  function LoadColor(value: Option<string>, defval: GdkColor, parse: string -> Option<GdkColor>): (r: ColorChoice)
    ensures r.active <==> value.Some? && value.value != "none" && parse(value.value).Some?
    ensures r.active ==> r.color == parse(value.value).value
    ensures !r.active ==> r.color == defval
  {
    if value.Some? && value.value != "none" && parse(value.value).Some? then ColorChoice(true, parse(value.value).value)
    else ColorChoice(false, defval)
  }

  /** Saving an inactive choice and loading it again gives an inactive
      choice on the default colour, whatever the parser does. */
  lemma SaveInactiveLoadsDefault(color: GdkColor, defval: GdkColor, parse: string -> Option<GdkColor>)
    ensures LoadColor(Some(SaveColor(false, color)), defval, parse) == ColorChoice(false, defval)
  {
  }

  /** What the dialog saves is what the engine applies: an active colour
      becomes the class's preedit colour (its low 24 bits), and "none"
      leaves the class as it was. */
  lemma EngineAppliesSavedColor(cls: Presentation.EngineClass, key: string, color: uint32)
    requires key == "preedit_foreground" || key == "preedit_background"
    ensures var r := Presentation.ConfigValueChanged(cls, cls.configSection, key,
                                                     Presentation.VString(SaveColor(true, ColorFromUint(color))));
            (key == "preedit_foreground" ==> r.style.foreground == color % 0x100_0000)
            && (key == "preedit_background" ==> r.style.background == color % 0x100_0000)
    ensures Presentation.ConfigValueChanged(cls, cls.configSection, key,
                                            Presentation.VString(SaveColor(false, ColorFromUint(color)))) == cls
  {
    ColorStringRoundTrip(color);
    assert "none"[0] != '#';
  }

  /** get_combo_box_index_by_value over the model's value column: the first
      row holding the value, or -1 when no row does (an empty model
      included). */
  method ComboIndex(values: seq<int>, value: int) returns (index: int)
    ensures -1 <= index < |values|
    ensures index == -1 <==> value !in values
    ensures index >= 0 ==> values[index] == value && forall j :: 0 <= j < index ==> values[j] != value
  {
    if |values| == 0 {
      return -1;
    }
    index := 0;
    while index < |values|
      invariant 0 <= index <= |values|
      invariant forall j :: 0 <= j < index ==> values[j] != value
    {
      if values[index] == value {
        return index;
      }
      index := index + 1;
    }
    return -1;
  }
}
