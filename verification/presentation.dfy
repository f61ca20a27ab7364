/** How a session shows m17n's preedit (`ibus_m17n_engine_update_preedit`,
    src/engine.c) and how the per-class style follows configuration changes
    (`ibus_m17n_config_value_changed`). */
module Presentation {
  import opened Common
  import opened Host
  import M17nUtil

  /** The class-wide state the handlers read: the configuration section of
      the engine, its title, and its presentation style. */
  datatype EngineClass = EngineClass(configSection: string, title: Option<string>, style: Style)

  /** The text attributes given to the preedit: each colour only when it is
      valid, the underline always, each over the whole text. */
  function PreeditAttrs(style: Style): seq<Attr>
  {
    (if style.foreground != INVALID_COLOR then [Attr(Foreground, style.foreground, 0, -1)] else [])
    + (if style.background != INVALID_COLOR then [Attr(Background, style.background, 0, -1)] else [])
    + [Attr(Underline, style.underline, 0, -1)]
  }

  /** ibus_m17n_engine_update_preedit: nothing when the preedit cannot be
      converted, otherwise one update carrying the text, the context's cursor
      and visibility iff the preedit is non-empty. */
  function PreeditDraw(style: Style, ctx: ImContext): (r: seq<Effect>)
    ensures ctx.preedit.None? <==> r == []
    ensures ctx.preedit.Some? ==>
              |r| == 1 && r[0].UpdatePreedit?
              && r[0].preedit.text == ctx.preedit.value
              && r[0].cursor == ctx.cursorPos
              && (r[0].visible <==> |ctx.preedit.value| > 0)
  {
    if ctx.preedit.None? then []
    else [UpdatePreedit(StyledText(ctx.preedit.value, PreeditAttrs(style)), ctx.cursorPos, |ctx.preedit.value| > 0)]
  }

  /** Every preedit attribute spans the whole text; a colour attribute is
      present iff that colour is valid and then carries it; the underline is
      always present and last. */
  lemma PreeditStyling(style: Style, ctx: ImContext)
    requires ctx.preedit.Some?
    ensures var attrs := PreeditDraw(style, ctx)[0].preedit.attrs;
            && (forall a :: a in attrs ==> a.start == 0 && a.end == -1)
            && (Attr(Foreground, style.foreground, 0, -1) in attrs <==> style.foreground != INVALID_COLOR)
            && (forall a :: a in attrs && a.kind == Foreground ==> a.value == style.foreground)
            && (Attr(Background, style.background, 0, -1) in attrs <==> style.background != INVALID_COLOR)
            && (forall a :: a in attrs && a.kind == Background ==> a.value == style.background)
            && |attrs| > 0 && attrs[|attrs| - 1] == Attr(Underline, style.underline, 0, -1)
            && |attrs| == 1 + (if style.foreground != INVALID_COLOR then 1 else 0)
                            + (if style.background != INVALID_COLOR then 1 else 0)
  {
  }

  /** ibus_m17n_engine_commit_string: commit the text, then redraw the
      preedit. The commit is the only one and comes first; at most one
      preedit update follows, present iff the context's preedit converts,
      and it shows that preedit. */
  function CommitString(style: Style, ctx: ImContext, text: string): (r: seq<Effect>)
    ensures |r| >= 1 && r[0] == CommitText(text)
    ensures |r| <= 2 && (|r| == 2 <==> ctx.preedit.Some?)
    ensures forall i :: 1 <= i < |r| ==>
              r[i].UpdatePreedit? && Some(r[i].preedit.text) == ctx.preedit
              && r[i].cursor == ctx.cursorPos
    ensures r[1..] == PreeditDraw(style, ctx)
  {
    [CommitText(text)] + PreeditDraw(style, ctx)
  }

  /** A configuration value as the IBus config service delivers it. */
  datatype Variant = VString(s: string) | VInt32(i: int) | VOther

  /** g_variant_get_string: NULL (after a critical warning) when the value is
      not a string. */
  function VariantString(v: Variant): (r: Option<string>)
    ensures r.Some? <==> v.VString?
  {
    if v.VString? then Some(v.s) else None
  }

  /** g_variant_get_int32: 0 (after a critical warning) when the value is not
      an int32. */
  function VariantInt32(v: Variant): (r: int)
    ensures v.VInt32? ==> r == v.i
    ensures !v.VInt32? ==> r == 0
  {
    if v.VInt32? then v.i else 0
  }

  /** ibus_m17n_config_value_changed: in the class's own section, a colour
      key replaces the colour only with a valid parse, the underline and the
      orientation take the int32 value; anything else changes nothing. */
  function ConfigValueChanged(cls: EngineClass, section: string, name: string, value: Variant): (r: EngineClass)
    ensures r.configSection == cls.configSection && r.title == cls.title
    ensures section != cls.configSection ==> r == cls
    ensures name !in {"preedit_foreground", "preedit_background", "preedit_underline", "lookup_table_orientation"} ==> r == cls
  {
    if section != cls.configSection then cls
    else if name == "preedit_foreground" then
      var color := M17nUtil.ParseColor(VariantString(value));
      if color != INVALID_COLOR then cls.(style := cls.style.(foreground := color)) else cls
    else if name == "preedit_background" then
      var color := M17nUtil.ParseColor(VariantString(value));
      if color != INVALID_COLOR then cls.(style := cls.style.(background := color)) else cls
    else if name == "preedit_underline" then cls.(style := cls.style.(underline := VariantInt32(value)))
    else if name == "lookup_table_orientation" then cls.(style := cls.style.(orientation := VariantInt32(value)))
    else cls
  }

  /** The underline and orientation keys store the int32 value, or 0 when
      the value is not an int32, and touch nothing else. */
  lemma IntSettingStores(cls: EngineClass, name: string, value: Variant)
    requires name == "preedit_underline" || name == "lookup_table_orientation"
    ensures var r := ConfigValueChanged(cls, cls.configSection, name, value);
            var stored := if value.VInt32? then value.i else 0;
            && r.style.foreground == cls.style.foreground
            && r.style.background == cls.style.background
            && (name == "preedit_underline" ==>
                  r.style.underline == stored && r.style.orientation == cls.style.orientation)
            && (name == "lookup_table_orientation" ==>
                  r.style.orientation == stored && r.style.underline == cls.style.underline)
  {
  }

  /** A colour change touches only its own colour, and can never store
      INVALID_COLOR: a valid colour stays valid whatever the value says. */
  lemma ColorChangeIsolated(cls: EngineClass, name: string, value: Variant)
    requires name == "preedit_foreground" || name == "preedit_background"
    ensures var r := ConfigValueChanged(cls, cls.configSection, name, value);
            && r.style.underline == cls.style.underline
            && r.style.orientation == cls.style.orientation
            && (name == "preedit_foreground" ==> r.style.background == cls.style.background)
            && (name == "preedit_background" ==> r.style.foreground == cls.style.foreground)
            && (cls.style.foreground != INVALID_COLOR ==> r.style.foreground != INVALID_COLOR)
            && (cls.style.background != INVALID_COLOR ==> r.style.background != INVALID_COLOR)
            && (!value.VString? ==> r == cls)
  {
  }

  /** Setting a colour to "#" and six hex digits stores exactly their value. */
  lemma ColorChangeStoresValue(cls: EngineClass, name: string, digits: string)
    requires name == "preedit_foreground" || name == "preedit_background"
    requires |digits| == 6 && forall i :: 0 <= i < 6 ==> IsDigitIn(digits[i], 16)
    ensures var r := ConfigValueChanged(cls, cls.configSection, name, VString("#" + digits));
            DigitsValue(digits, 16) < 0x100_0000
            && (name == "preedit_foreground" ==> r.style.foreground == DigitsValue(digits, 16))
            && (name == "preedit_background" ==> r.style.background == DigitsValue(digits, 16))
  {
    SixHexDigitsBound(digits);
    M17nUtil.ParseColorHexRun(digits, []);
    assert digits + [] == digits;
  }

  /** "#100000000" overflows 32 bits: the handler leaves the colour as it
      was, where the parser as written would wrap it to 0 and store black. */
  lemma ColorChangeRejectsWrapped(cls: EngineClass, name: string)
    requires name == "preedit_foreground" || name == "preedit_background"
    ensures ConfigValueChanged(cls, cls.configSection, name, VString("#100000000")) == cls
    ensures M17nUtil.ParseColorAsWritten(Some("#100000000")) == 0
  {
    M17nUtil.ParseColorWrapsAsWritten();
  }

  lemma SixHexDigitsBound(digits: string)
    requires |digits| == 6 && forall i :: 0 <= i < 6 ==> IsDigitIn(digits[i], 16)
    ensures DigitsValue(digits, 16) < 0x100_0000
  {
    HexDigitsBound(digits);
    assert Pow(16, 6) == 0x100_0000;
  }

  lemma {:induction false} HexDigitsBound(digits: string)
    requires forall i :: 0 <= i < |digits| ==> IsDigitIn(digits[i], 16)
    ensures DigitsValue(digits, 16) < Pow(16, |digits|)
    decreases |digits|
  {
    if |digits| > 0 {
      var init := digits[..|digits| - 1];
      HexDigitsBound(init);
      assert DigitsValue(digits, 16) == DigitsValue(init, 16) * 16 + DigitValue(digits[|digits| - 1]);
      assert DigitsValue(init, 16) + 1 <= Pow(16, |init|);
      assert (DigitsValue(init, 16) + 1) * 16 <= Pow(16, |init|) * 16;
    }
  }
}
