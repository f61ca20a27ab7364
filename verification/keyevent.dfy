/** The key-event encoder of src/engine.c (`ibus_m17n_key_event_to_symbol`):
    an IBus key event (keycode, keyval, modifier mask) becomes an m17n key
    name such as "C-A", "G-F1" or "S-C-H-Up", or no symbol at all. The
    keymap lookup and the keyval-name table of IBus are oracles. */
module KeyEvent {
  import opened Common

  // IBusModifierType bits (ibustypes.h).
  const SHIFT_MASK: bv32 := 0x1          // 1 << 0
  const CONTROL_MASK: bv32 := 0x4        // 1 << 2
  const MOD1_MASK: bv32 := 0x8           // 1 << 3, Alt
  const MOD5_MASK: bv32 := 0x80          // 1 << 7, AltGr / ISO_Level3_Shift
  const SUPER_MASK: bv32 := 0x400_0000   // 1 << 26
  const HYPER_MASK: bv32 := 0x800_0000   // 1 << 27
  const META_MASK: bv32 := 0x1000_0000   // 1 << 28
  const RELEASE_MASK: bv32 := 0x4000_0000 // 1 << 30

  /** The modifiers recorded on every path, whatever the base key is. */
  const ALWAYS_RECORDED: bv32 := MOD1_MASK | MOD5_MASK | META_MASK | SUPER_MASK | HYPER_MASK

  /** Every modifier that can appear as a marker in a key name. */
  const MARKER_BITS: bv32 := ALWAYS_RECORDED | CONTROL_MASK | SHIFT_MASK

  // Keyvals (ibuskeysyms.h).
  const KEY_SPACE: int := 0x20
  const KEY_ASCIITILDE: int := 0x7e
  const KEY_LOWER_A: int := 0x61
  const KEY_LOWER_Z: int := 0x7a
  const KEY_UPPER_A: int := 0x41
  const KEY_SHIFT_L: int := 0xffe1
  const KEY_HYPER_R: int := 0xffee
  const KEY_F1: int := 0xffbe

  type Keyval = uint32
  type Keycode = uint32

  /** `ibus_keymap_lookup_keysym` on the "us" keymap. */
  type UsKeymap = (Keycode, bv32) -> Keyval

  /** `ibus_keyval_name`; `None` is a NULL name. */
  type KeyvalNames = Keyval -> Option<string>

  predicate Has(mods: bv32, bit: bv32) { mods & bit != 0 }

  predicate IsModifierKeyval(keyval: Keyval) { KEY_SHIFT_L <= keyval <= KEY_HYPER_R }

  predicate IsPrintable(keyval: Keyval) { KEY_SPACE <= keyval <= KEY_ASCIITILDE }

  /** The keyval the encoder works on: with Mod5 held, the host has already
      translated the key through the AltGr level, so the untranslated keyval
      is looked up again on the US keymap with Mod5 cleared. */
  function BaseKeyval(keycode: Keycode, keyval: Keyval, mods: bv32, us: UsKeymap): Keyval
  {
    if Has(mods, MOD5_MASK) then us(keycode, mods & !MOD5_MASK) else keyval
  }

  /** The base token and the markers it contributes, before the modifiers
      that are recorded on every path. `None` when a non-printable keyval
      has no name. */
  datatype Base = Base(token: string, mask: bv32)

  function BaseOf(keyval: Keyval, mods: bv32, names: KeyvalNames): Option<Base>
  {
    if IsPrintable(keyval) then
      var shift: bv32 := if keyval == KEY_SPACE && Has(mods, SHIFT_MASK) then SHIFT_MASK else 0;
      var control: bv32 := if Has(mods, CONTROL_MASK) then CONTROL_MASK else 0;
      var c := if Has(mods, CONTROL_MASK) && KEY_LOWER_A <= keyval <= KEY_LOWER_Z
               then keyval + (KEY_UPPER_A - KEY_LOWER_A) else keyval;
      Some(Base([c as char], shift | control))
    else
      match names(keyval)
      case None => None
      case Some(name) => Some(Base(name, mods & (CONTROL_MASK | SHIFT_MASK)))
  }

  /** g_string_prepend of marker `m` when `bit` is set in `mask`. */
  function Prepend(mask: bv32, bit: bv32, m: string, s: string): string
  {
    if Has(mask, bit) then m + s else s
  }

  /** The markers as the source writes them: each one is prepended in turn,
      Hyper first and Shift last, so Shift ends up outermost. */
  function PrependMarkers(mask: bv32, token: string): string
  {
    var k1 := Prepend(mask, HYPER_MASK, "H-", token);
    var k2 := Prepend(mask, SUPER_MASK, "s-", k1);
    var k3 := Prepend(mask, MOD5_MASK, "G-", k2);
    var k4 := Prepend(mask, MOD1_MASK, "A-", k3);
    var k5 := Prepend(mask, META_MASK, "M-", k4);
    var k6 := Prepend(mask, CONTROL_MASK, "C-", k5);
    Prepend(mask, SHIFT_MASK, "S-", k6)
  }

  function Marker(mask: bv32, bit: bv32, m: string): string { if Has(mask, bit) then m else "" }

  /** The m17n key-name grammar read left to right: the markers in the fixed
      order S- C- M- A- G- s- H-, then the base token. */
  function Markers(mask: bv32): string
  {
    Marker(mask, SHIFT_MASK, "S-") + Marker(mask, CONTROL_MASK, "C-") + Marker(mask, META_MASK, "M-")
    + Marker(mask, MOD1_MASK, "A-") + Marker(mask, MOD5_MASK, "G-") + Marker(mask, SUPER_MASK, "s-")
    + Marker(mask, HYPER_MASK, "H-")
  }

  /** ibus_m17n_key_event_to_symbol; `None` is Mnil. */
  function Encode(keycode: Keycode, keyval: Keyval, mods: bv32, us: UsKeymap, names: KeyvalNames): (r: Option<string>)
    ensures IsModifierKeyval(keyval) ==> r.None?
    ensures !IsModifierKeyval(keyval) && !Has(mods, MOD5_MASK) && !IsPrintable(keyval) && names(keyval).None?
            ==> r.None?
    ensures !IsModifierKeyval(keyval) && IsPrintable(BaseKeyval(keycode, keyval, mods, us)) ==> r.Some?
  {
    if IsModifierKeyval(keyval) then None
    else
      var kv := BaseKeyval(keycode, keyval, mods, us);
      match BaseOf(kv, mods, names)
      case None => None
      case Some(b) => Some(PrependMarkers(b.mask | (mods & ALWAYS_RECORDED), b.token))
  }

  lemma PrependIsMarker(mask: bv32, bit: bv32, m: string, s: string)
    ensures Prepend(mask, bit, m, s) == Marker(mask, bit, m) + s
  {
    if !Has(mask, bit) {
      assert Marker(mask, bit, m) + s == s;
    }
  }

  lemma Reassociate(sh: string, c: string, m: string, a: string, g: string, su: string, h: string, t: string)
    ensures sh + (c + (m + (a + (g + (su + (h + t)))))) == sh + c + m + a + g + su + h + t
  {
    var l1 := sh + c;
    assert sh + (c + (m + (a + (g + (su + (h + t)))))) == l1 + (m + (a + (g + (su + (h + t)))));
    var l2 := l1 + m;
    assert l1 + (m + (a + (g + (su + (h + t))))) == l2 + (a + (g + (su + (h + t))));
    var l3 := l2 + a;
    assert l2 + (a + (g + (su + (h + t)))) == l3 + (g + (su + (h + t)));
    var l4 := l3 + g;
    assert l3 + (g + (su + (h + t))) == l4 + (su + (h + t));
    var l5 := l4 + su;
    assert l4 + (su + (h + t)) == l5 + (h + t);
  }

  /** Prepending the markers one by one yields the left-to-right grammar. */
  lemma PrependMarkersIsMarkers(mask: bv32, token: string)
    ensures PrependMarkers(mask, token) == Markers(mask) + token
  {
    var h, su, g := Marker(mask, HYPER_MASK, "H-"), Marker(mask, SUPER_MASK, "s-"), Marker(mask, MOD5_MASK, "G-");
    var a, m := Marker(mask, MOD1_MASK, "A-"), Marker(mask, META_MASK, "M-");
    var c, sh := Marker(mask, CONTROL_MASK, "C-"), Marker(mask, SHIFT_MASK, "S-");
    var k1 := h + token;
    PrependIsMarker(mask, HYPER_MASK, "H-", token);
    var k2 := su + k1;
    PrependIsMarker(mask, SUPER_MASK, "s-", k1);
    var k3 := g + k2;
    PrependIsMarker(mask, MOD5_MASK, "G-", k2);
    var k4 := a + k3;
    PrependIsMarker(mask, MOD1_MASK, "A-", k3);
    var k5 := m + k4;
    PrependIsMarker(mask, META_MASK, "M-", k4);
    var k6 := c + k5;
    PrependIsMarker(mask, CONTROL_MASK, "C-", k5);
    PrependIsMarker(mask, SHIFT_MASK, "S-", k6);
    Reassociate(sh, c, m, a, g, su, h, token);
  }

  // ---------------------------------------------------------------------
  // Reading a key name back: the inverse of the marker prefix
  // ---------------------------------------------------------------------

  /** Strips `m` from the front of `s` when present, recording `bit`. */
  function Strip(s: string, m: string, bit: bv32): (bv32, string)
    requires |m| == 2
  {
    if |s| >= 2 && s[..2] == m then (bit, s[2..]) else (0, s)
  }

  /** Splits an m17n key name into its modifier markers and its base token,
      reading the markers in grammar order, each at most once. */
  function Decode(sym: string): (bv32, string)
  {
    var s := Strip(sym, "S-", SHIFT_MASK);
    var c := Strip(s.1, "C-", CONTROL_MASK);
    var m := Strip(c.1, "M-", META_MASK);
    var a := Strip(m.1, "A-", MOD1_MASK);
    var g := Strip(a.1, "G-", MOD5_MASK);
    var su := Strip(g.1, "s-", SUPER_MASK);
    var h := Strip(su.1, "H-", HYPER_MASK);
    (s.0 | c.0 | m.0 | a.0 | g.0 | su.0 | h.0, h.1)
  }

  /** A base token that cannot be mistaken for a marker: its second
      character is not a dash. Every printable token (one character) is one. */
  predicate PlainToken(t: string) { !(|t| >= 2 && t[1] == '-') }

  lemma StripPresent(m: string, bit: bv32, rest: string)
    requires |m| == 2
    ensures Strip(m + rest, m, bit) == (bit, rest)
  {
    assert (m + rest)[..2] == m;
    assert (m + rest)[2..] == rest;
  }

  lemma StripAbsent(m: string, bit: bv32, rest: string)
    requires |m| == 2 && m[1] == '-'
    requires |rest| >= 2 ==> rest[..2] != m
    ensures Strip(rest, m, bit) == (0, rest)
  {
  }

  /** A marker mask is determined by its seven marker bits. */
  lemma MaskFromBits(mask: bv32)
    requires mask & !MARKER_BITS == 0
    ensures mask == (if Has(mask, SHIFT_MASK) then SHIFT_MASK else 0)
                  | (if Has(mask, CONTROL_MASK) then CONTROL_MASK else 0)
                  | (if Has(mask, META_MASK) then META_MASK else 0)
                  | (if Has(mask, MOD1_MASK) then MOD1_MASK else 0)
                  | (if Has(mask, MOD5_MASK) then MOD5_MASK else 0)
                  | (if Has(mask, SUPER_MASK) then SUPER_MASK else 0)
                  | (if Has(mask, HYPER_MASK) then HYPER_MASK else 0)
  {
  }

  /** Decoding a key name recovers the marker mask and the base token: the
      grammar is unambiguous, so two different (marker mask, plain token)
      pairs never share a name. Different events can still share one, since
      the encoder drops modifiers it does not record. */
  lemma {:induction false} DecodeMarkers(mask: bv32, token: string)
    requires mask & !MARKER_BITS == 0
    requires PlainToken(token)
    ensures Decode(Markers(mask) + token) == (mask, token)
  {
    var t7 := token;
    var t6 := Marker(mask, HYPER_MASK, "H-") + t7;
    var t5 := Marker(mask, SUPER_MASK, "s-") + t6;
    var t4 := Marker(mask, MOD5_MASK, "G-") + t5;
    var t3 := Marker(mask, MOD1_MASK, "A-") + t4;
    var t2 := Marker(mask, META_MASK, "M-") + t3;
    var t1 := Marker(mask, CONTROL_MASK, "C-") + t2;
    var t0 := Marker(mask, SHIFT_MASK, "S-") + t1;
    assert Markers(mask) + token == t0 by {
      Reassociate(Marker(mask, SHIFT_MASK, "S-"), Marker(mask, CONTROL_MASK, "C-"), Marker(mask, META_MASK, "M-"),
                  Marker(mask, MOD1_MASK, "A-"), Marker(mask, MOD5_MASK, "G-"), Marker(mask, SUPER_MASK, "s-"),
                  Marker(mask, HYPER_MASK, "H-"), token);
    }
    StripOne(mask, HYPER_MASK, "H-", t7);
    StripOne(mask, SUPER_MASK, "s-", t6);
    StripOne(mask, MOD5_MASK, "G-", t5);
    StripOne(mask, MOD1_MASK, "A-", t4);
    StripOne(mask, META_MASK, "M-", t3);
    StripOne(mask, CONTROL_MASK, "C-", t2);
    StripOne(mask, SHIFT_MASK, "S-", t1);
    DecodeSteps(t0, t1, t2, t3, t4, t5, t6, t7,
                Flag(mask, SHIFT_MASK), Flag(mask, CONTROL_MASK), Flag(mask, META_MASK), Flag(mask, MOD1_MASK),
                Flag(mask, MOD5_MASK), Flag(mask, SUPER_MASK), Flag(mask, HYPER_MASK));
    assert Decode(t0).1 == token;
    assert Decode(t0).0 == mask by {
      MaskFromBits(mask);
    }
  }

  /** The bit `bit` of `mask`, alone. */
  function Flag(mask: bv32, bit: bv32): bv32 { if Has(mask, bit) then bit else 0 }

  /** Decode is the seven strips in grammar order. */
  lemma DecodeSteps(t0: string, t1: string, t2: string, t3: string, t4: string, t5: string, t6: string, t7: string,
                    s: bv32, c: bv32, m: bv32, a: bv32, g: bv32, su: bv32, h: bv32)
    requires Strip(t0, "S-", SHIFT_MASK) == (s, t1) && Strip(t1, "C-", CONTROL_MASK) == (c, t2)
    requires Strip(t2, "M-", META_MASK) == (m, t3) && Strip(t3, "A-", MOD1_MASK) == (a, t4)
    requires Strip(t4, "G-", MOD5_MASK) == (g, t5) && Strip(t5, "s-", SUPER_MASK) == (su, t6)
    requires Strip(t6, "H-", HYPER_MASK) == (h, t7)
    ensures Decode(t0).0 == s | c | m | a | g | su | h
    ensures Decode(t0).1 == t7
  {
  }

  /** One marker is stripped exactly when it is there, provided what follows
      never starts with a marker of its own letter. */
  lemma StripOne(mask: bv32, bit: bv32, m: string, rest: string)
    requires |m| == 2 && m[1] == '-' && m[0] != '-'
    requires |rest| >= 2 ==> rest[1] != '-' || rest[0] != m[0]
    ensures Strip(Marker(mask, bit, m) + rest, m, bit) == (if Has(mask, bit) then bit else 0, rest)
  {
    if Has(mask, bit) {
      StripPresent(m, bit, rest);
    } else {
      assert Marker(mask, bit, m) + rest == rest;
    }
  }

  // ---------------------------------------------------------------------
  // Properties of the encoder
  // ---------------------------------------------------------------------

  /** The marker mask the encoder records for a key it can name. */
  lemma {:induction false} EncodeDecodes(keycode: Keycode, keyval: Keyval, mods: bv32, us: UsKeymap, names: KeyvalNames)
    requires Encode(keycode, keyval, mods, us, names).Some?
    requires var kv := BaseKeyval(keycode, keyval, mods, us);
             IsPrintable(kv) || PlainToken(names(kv).value)
    ensures var kv := BaseKeyval(keycode, keyval, mods, us);
            var b := BaseOf(kv, mods, names).value;
            Decode(Encode(keycode, keyval, mods, us, names).value) == (b.mask | (mods & ALWAYS_RECORDED), b.token)
  {
    var kv := BaseKeyval(keycode, keyval, mods, us);
    var b := BaseOf(kv, mods, names).value;
    var mask := b.mask | (mods & ALWAYS_RECORDED);
    PrependMarkersIsMarkers(mask, b.token);
    DecodeMarkers(mask, b.token);
  }

  /** A printable key with no modifier other than Shift encodes as the bare
      character: Shift is dropped for everything but the space bar, so
      Shift+'a' is "a". */
  lemma PrintableKeyIsItself(keycode: Keycode, keyval: Keyval, mods: bv32, us: UsKeymap, names: KeyvalNames)
    requires IsPrintable(keyval) && keyval != KEY_SPACE
    requires mods & (ALWAYS_RECORDED | CONTROL_MASK) == 0
    ensures Encode(keycode, keyval, mods, us, names) == Some([keyval as char])
  {
    PrependMarkersIsMarkers(0, [keyval as char]);
  }

  /** Control with a lower-case letter upper-cases the letter and records
      "C-"; Shift is dropped on letters, so Control+Shift+'a' is "C-A" too. */
  lemma ControlUppercasesLetter(keycode: Keycode, keyval: Keyval, mods: bv32, us: UsKeymap, names: KeyvalNames)
    requires KEY_LOWER_A <= keyval <= KEY_LOWER_Z
    requires Has(mods, CONTROL_MASK) && mods & ALWAYS_RECORDED == 0
    ensures Encode(keycode, keyval, mods, us, names) == Some("C-" + [ToUpper(keyval as char)])
  {
    PrependMarkersIsMarkers(CONTROL_MASK, [(keyval - 32) as char]);
  }

  /** Shift is recorded on the space bar. */
  lemma ShiftSpace(keycode: Keycode, us: UsKeymap, names: KeyvalNames)
    ensures Encode(keycode, KEY_SPACE, SHIFT_MASK, us, names) == Some("S- ")
  {
    assert BaseOf(KEY_SPACE, SHIFT_MASK, names) == Some(Base(" ", SHIFT_MASK));
    assert SHIFT_MASK & ALWAYS_RECORDED == 0;
    PrependMarkersIsMarkers(SHIFT_MASK, " ");
    assert Markers(SHIFT_MASK) == "S-";
    assert BaseKeyval(keycode, KEY_SPACE, SHIFT_MASK, us) == KEY_SPACE;
    assert Encode(keycode, KEY_SPACE, SHIFT_MASK, us, names) == Some(PrependMarkers(SHIFT_MASK, " "));
    assert "S-" + " " == "S- ";
  }

  /** A named key keeps every marker it was pressed with: Shift and Control
      are recorded unconditionally, unlike on printable keys. */
  lemma NamedKeyKeepsAllMarkers(keycode: Keycode, keyval: Keyval, mods: bv32, us: UsKeymap, names: KeyvalNames)
    requires !IsModifierKeyval(keyval) && !IsPrintable(keyval) && !Has(mods, MOD5_MASK)
    requires names(keyval).Some? && PlainToken(names(keyval).value)
    ensures Encode(keycode, keyval, mods, us, names) == Some(Markers(mods & MARKER_BITS) + names(keyval).value)
    ensures Decode(Encode(keycode, keyval, mods, us, names).value) == (mods & MARKER_BITS, names(keyval).value)
  {
    var mask := (mods & (CONTROL_MASK | SHIFT_MASK)) | (mods & ALWAYS_RECORDED);
    assert mask == mods & MARKER_BITS;
    PrependMarkersIsMarkers(mask, names(keyval).value);
    DecodeMarkers(mask, names(keyval).value);
  }

  /** With AltGr (Mod5) held, the base token comes from the US keymap entry of
      the same keycode with Mod5 cleared, and the name carries "G-". */
  lemma AltGrRecoversUsKeyval(keycode: Keycode, keyval: Keyval, mods: bv32, us: UsKeymap, names: KeyvalNames)
    requires !IsModifierKeyval(keyval) && Has(mods, MOD5_MASK)
    requires var kv := us(keycode, mods & !MOD5_MASK);
             IsPrintable(kv) || (names(kv).Some? && PlainToken(names(kv).value))
    ensures var kv := us(keycode, mods & !MOD5_MASK);
            var r := Encode(keycode, keyval, mods, us, names);
            r.Some? && Has(Decode(r.value).0, MOD5_MASK) && Decode(r.value).1 == BaseOf(kv, mods, names).value.token
  {
    EncodeDecodes(keycode, keyval, mods, us, names);
  }

  /** Control+Hyper+F1 is "C-H-F1": Control sits outside Hyper. */
  lemma ControlHyperF1(keycode: Keycode, us: UsKeymap, names: KeyvalNames)
    requires names(KEY_F1) == Some("F1")
    ensures Encode(keycode, KEY_F1, CONTROL_MASK | HYPER_MASK, us, names) == Some("C-H-F1")
  {
    var mods := CONTROL_MASK | HYPER_MASK;
    assert BaseOf(KEY_F1, mods, names) == Some(Base("F1", CONTROL_MASK));
    assert CONTROL_MASK | (mods & ALWAYS_RECORDED) == mods;
    PrependMarkersIsMarkers(mods, "F1");
    assert Markers(mods) == "C-H-";
    assert BaseKeyval(keycode, KEY_F1, mods, us) == KEY_F1;
    assert Encode(keycode, KEY_F1, mods, us, names) == Some(PrependMarkers(mods, "F1"));
    assert "C-H-" + "F1" == "C-H-F1";
  }

  /** Shift+Hyper on the space bar is "S-H- ": Shift is the outermost marker. */
  lemma ShiftOutermost(keycode: Keycode, us: UsKeymap, names: KeyvalNames)
    ensures Encode(keycode, KEY_SPACE, SHIFT_MASK | HYPER_MASK, us, names) == Some("S-H- ")
  {
    var mods := SHIFT_MASK | HYPER_MASK;
    assert BaseOf(KEY_SPACE, mods, names) == Some(Base(" ", SHIFT_MASK));
    assert SHIFT_MASK | (mods & ALWAYS_RECORDED) == mods;
    PrependMarkersIsMarkers(mods, " ");
    assert Markers(mods) == "S-H-";
    assert BaseKeyval(keycode, KEY_SPACE, mods, us) == KEY_SPACE;
    assert Encode(keycode, KEY_SPACE, mods, us, names) == Some(PrependMarkers(mods, " "));
    assert "S-H-" + " " == "S-H- ";
  }
}
