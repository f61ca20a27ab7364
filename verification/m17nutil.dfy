/** src/m17nutil.c: colour parsing, the per-engine configuration read from
    default.xml (one node per <engine> element, matched by glob against the
    engine name, later matches overriding earlier ones field by field), and
    the XML node parser. */
module M17nUtil {
  import opened Common
  import Host

  // ---------------------------------------------------------------------
  // strtoul and atoi, as glibc implements them in the C locale
  // ---------------------------------------------------------------------

  function SkipSpaces(s: string): (r: string)
    ensures |r| <= |s| && r == s[|s| - |r|..]
    ensures |r| > 0 ==> !IsSpace(r[0])
  {
    if |s| > 0 && IsSpace(s[0]) then SkipSpaces(s[1..]) else s
  }

  /** What strtoul/strtol see after the white space: the sign and the rest. */
  datatype Numeral = Numeral(negative: bool, body: string)

  function ScanSign(s: string): (n: Numeral)
    ensures |n.body| <= |s|
  {
    var t := SkipSpaces(s);
    if |t| > 0 && (t[0] == '-' || t[0] == '+') then Numeral(t[0] == '-', t[1..]) else Numeral(false, t)
  }

  /** Base 16 accepts an optional "0x" or "0X" before the digits. */
  function StripHexPrefix(u: string): (v: string)
    ensures |v| <= |u|
  {
    if |u| >= 2 && u[0] == '0' && (u[1] == 'x' || u[1] == 'X') then u[2..] else u
  }

  /** Value of the leading run of digits (0 when there is none). */
  function Magnitude(v: string, base: nat): nat
  {
    DigitsValue(v[..DigitRun(v, base)], base)
  }

  /** A numeral that starts with a digit has no white space and no sign. */
  lemma UnsignedNumeral(s: string, base: nat)
    requires |s| > 0 && IsDigitIn(s[0], base) && base <= 36
    ensures ScanSign(s) == Numeral(false, s)
  {
    assert !IsSpace(s[0]) && s[0] != '-' && s[0] != '+';
    assert SkipSpaces(s) == s;
  }

  /** Result of strtoul: the value returned and whether errno became ERANGE. */
  datatype ULong = ULong(value: nat, overflow: bool)

  /** strtoul's range rule for an unsigned long of 64 bits: a magnitude above
      ULONG_MAX gives ULONG_MAX with ERANGE; a minus sign negates modulo 2^64. */
  function ULongOf(negative: bool, magnitude: nat): (r: ULong)
    ensures r.value <= ULONG_MAX
    ensures magnitude > ULONG_MAX <==> r.overflow
    ensures r.overflow ==> r.value == ULONG_MAX
    ensures !negative && !r.overflow ==> r.value == magnitude
  {
    if magnitude > ULONG_MAX then ULong(ULONG_MAX, true)
    else if negative && magnitude > 0 then ULong(ULONG_MAX + 1 - magnitude, false)
    else ULong(magnitude, false)
  }

  /** strtoul(s, NULL, 16) on an LP64 platform: leading white space, an
      optional sign, an optional "0x"/"0X", then the run of hex digits; no
      digits at all give 0 (glibc leaves errno alone then). */
  function StrToULHex(s: string): (r: ULong)
    ensures r.value <= ULONG_MAX
  {
    var n := ScanSign(s);
    ULongOf(n.negative, Magnitude(StripHexPrefix(n.body), 16))
  }

  /** strtol's saturation at LONG_MIN / LONG_MAX (64-bit long). */
  function ClampLong(negative: bool, magnitude: nat): (r: int)
    ensures -0x8000_0000_0000_0000 <= r <= 0x7FFF_FFFF_FFFF_FFFF
    ensures !negative && magnitude <= 0x7FFF_FFFF_FFFF_FFFF ==> r == magnitude
  {
    var m: int := magnitude;
    if negative then Max(-m, -0x8000_0000_0000_0000) else Min(m, 0x7FFF_FFFF_FFFF_FFFF)
  }

  /** Conversion of a long to a 32-bit int: the low 32 bits, read as two's
      complement. */
  function ToInt32(x: int): (r: int)
    ensures -0x8000_0000 <= r < 0x8000_0000
    ensures (r - x) % 0x1_0000_0000 == 0
    ensures -0x8000_0000 <= x < 0x8000_0000 ==> r == x
  {
    var low := x % 0x1_0000_0000;
    if low >= 0x8000_0000 then low - 0x1_0000_0000 else low
  }

  /** atoi(s): strtol(s, NULL, 10) converted to int. */
  function Atoi(s: string): (r: int)
    ensures -0x8000_0000 <= r < 0x8000_0000
  {
    var n := ScanSign(s);
    ToInt32(ClampLong(n.negative, Magnitude(n.body, 10)))
  }

  /** atoi of an unsigned numeral whose value fits an int is that value. */
  lemma AtoiOfNumeral(s: string, n: nat)
    requires ScanSign(s) == Numeral(false, s) && Magnitude(s, 10) == n
    requires n < 0x8000_0000
    ensures Atoi(s) == n
  {
  }

  lemma DecimalHasNoSign(n: nat)
    ensures ScanSign(NatToString(n)) == Numeral(false, NatToString(n))
  {
    UnsignedNumeral(NatToString(n), 10);
  }

  lemma DecimalMagnitude(n: nat)
    ensures Magnitude(NatToString(n), 10) == n
  {
    var s := NatToString(n);
    DigitRunAll(s, 10);
    assert s[..|s|] == s;
    NatToStringValue(n);
  }

  /** A rank written in decimal reads back as itself. */
  lemma AtoiOfDecimal(n: nat)
    requires n < 0x8000_0000
    ensures Atoi(NatToString(n)) == n
  {
    DecimalHasNoSign(n);
    DecimalMagnitude(n);
    AtoiOfNumeral(NatToString(n), n);
  }

  // ---------------------------------------------------------------------
  // ibus_m17n_parse_color
  // ---------------------------------------------------------------------

  /** Assignment of an unsigned long to a guint: the low 32 bits. */
  function Low32(x: nat): (r: uint32)
    ensures x < UINT32_LIMIT ==> r == x
    ensures (x - r) % UINT32_LIMIT == 0
  {
    x % UINT32_LIMIT
  }

  /** ibus_m17n_parse_color as written: the strtoul result is stored in a
      32-bit guint before the overflow test compares it with the 64-bit
      ULONG_MAX, so the test can never succeed and any value between 2^32
      and ULONG_MAX keeps only its low 32 bits. */
  function ParseColorAsWritten(hex: Option<string>): (r: uint32)
    ensures hex.None? || |hex.value| == 0 || hex.value[0] != '#' ==> r == Host.INVALID_COLOR
    ensures r != Host.INVALID_COLOR ==> r == Low32(StrToULHex(hex.value[1..]).value)
  {
    if hex.None? || |hex.value| == 0 || hex.value[0] != '#' then Host.INVALID_COLOR
    else
      var res := StrToULHex(hex.value[1..]);
      var color := Low32(res.value);
      if (res.overflow && color == ULONG_MAX) || (res.overflow && color == 0) then Host.INVALID_COLOR
      else color
  }

  /** ibus_m17n_parse_color with the overflow test meant by its author: a
      value that does not fit a guint is rejected like an ERANGE overflow. */
  function ParseColor(hex: Option<string>): (r: uint32)
    ensures hex.None? || |hex.value| == 0 || hex.value[0] != '#' ==> r == Host.INVALID_COLOR
    ensures r != Host.INVALID_COLOR ==> r == StrToULHex(hex.value[1..]).value
  {
    if hex.None? || |hex.value| == 0 || hex.value[0] != '#' then Host.INVALID_COLOR
    else
      var res := StrToULHex(hex.value[1..]);
      if res.overflow || res.value >= UINT32_LIMIT then Host.INVALID_COLOR
      else res.value
  }

  /** Both readings agree wherever strtoul's value fits 32 bits. */
  lemma ParseColorAgrees(hex: string)
    requires |hex| > 0 && hex[0] == '#' && StrToULHex(hex[1..]).value < UINT32_LIMIT
    ensures ParseColor(Some(hex)) == ParseColorAsWritten(Some(hex))
  {
  }

  /** strtoul of a run of hex digits (not the "0x" prefix) that fits a guint
      is the value of the run, whatever follows it. */
  lemma HexRunValue(digits: string, rest: string)
    requires |digits| > 0 && forall i :: 0 <= i < |digits| ==> IsDigitIn(digits[i], 16)
    requires |rest| > 0 ==> !IsDigitIn(rest[0], 16)
    requires !(digits == "0" && |rest| > 0 && (rest[0] == 'x' || rest[0] == 'X'))
    requires DigitsValue(digits, 16) < UINT32_LIMIT
    ensures StrToULHex(digits + rest) == ULong(DigitsValue(digits, 16), false)
  {
    var t := digits + rest;
    assert t[0] == digits[0];
    UnsignedNumeral(t, 16);
    NoHexPrefix(digits, rest);
    HexRunMagnitude(digits, rest);
    PlainHexValue(t, DigitsValue(digits, 16));
  }

  lemma NoHexPrefix(digits: string, rest: string)
    requires |digits| > 0 && forall i :: 0 <= i < |digits| ==> IsDigitIn(digits[i], 16)
    requires !(digits == "0" && |rest| > 0 && (rest[0] == 'x' || rest[0] == 'X'))
    ensures StripHexPrefix(digits + rest) == digits + rest
  {
    var t := digits + rest;
    if |digits| >= 2 {
      assert t[1] == digits[1];
    }
  }

  lemma HexRunMagnitude(digits: string, rest: string)
    requires forall i :: 0 <= i < |digits| ==> IsDigitIn(digits[i], 16)
    requires |rest| > 0 ==> !IsDigitIn(rest[0], 16)
    ensures Magnitude(digits + rest, 16) == DigitsValue(digits, 16)
  {
    DigitRunOfConcat(digits, rest);
    assert (digits + rest)[..|digits|] == digits;
  }

  lemma PlainHexValue(t: string, m: nat)
    requires ScanSign(t) == Numeral(false, t) && StripHexPrefix(t) == t
    requires Magnitude(t, 16) == m && m <= ULONG_MAX
    ensures StrToULHex(t) == ULong(m, false)
  {
  }

  /** "#" followed by such a run parses to the value of the run, in both
      readings of the overflow test. */
  lemma ParseColorHexRun(digits: string, rest: string)
    requires |digits| > 0 && forall i :: 0 <= i < |digits| ==> IsDigitIn(digits[i], 16)
    requires |rest| > 0 ==> !IsDigitIn(rest[0], 16)
    requires !(digits == "0" && |rest| > 0 && (rest[0] == 'x' || rest[0] == 'X'))
    requires DigitsValue(digits, 16) < UINT32_LIMIT
    ensures ParseColor(Some("#" + (digits + rest))) == DigitsValue(digits, 16)
    ensures ParseColorAsWritten(Some("#" + (digits + rest))) == DigitsValue(digits, 16)
  {
    var h := "#" + (digits + rest);
    HexRunValue(digits, rest);
    assert h[1..] == digits + rest;
    ParseColorOfFit(h, DigitsValue(digits, 16));
  }

  lemma ParseColorOfFit(h: string, v: nat)
    requires |h| > 0 && h[0] == '#'
    requires StrToULHex(h[1..]) == ULong(v, false) && v < UINT32_LIMIT
    ensures ParseColor(Some(h)) == v && ParseColorAsWritten(Some(h)) == v
  {
  }

  /** strtoul of a run of hex digits too large for an unsigned long:
      ULONG_MAX with ERANGE, whatever follows the run. */
  lemma HexRunOverflow(digits: string, rest: string)
    requires |digits| > 0 && forall i :: 0 <= i < |digits| ==> IsDigitIn(digits[i], 16)
    requires |rest| > 0 ==> !IsDigitIn(rest[0], 16)
    requires DigitsValue(digits, 16) > ULONG_MAX
    ensures StrToULHex(digits + rest) == ULong(ULONG_MAX, true)
  {
    var t := digits + rest;
    assert t[0] == digits[0];
    UnsignedNumeral(t, 16);
    assert digits != "0" by {
      assert DigitsValue("0", 16) == 0 by {
        assert "0"[..0] == [];
      }
    }
    NoHexPrefix(digits, rest);
    HexRunMagnitude(digits, rest);
  }

  /** The ERANGE rule: "#" and a run of hex digits too large for an unsigned
      long is INVALID_COLOR in both readings; as written, because ULONG_MAX
      truncated to a guint is INVALID_COLOR itself. */
  lemma ParseColorOverflow(digits: string, rest: string)
    requires |digits| > 0 && forall i :: 0 <= i < |digits| ==> IsDigitIn(digits[i], 16)
    requires |rest| > 0 ==> !IsDigitIn(rest[0], 16)
    requires DigitsValue(digits, 16) > ULONG_MAX
    ensures ParseColor(Some("#" + (digits + rest))) == Host.INVALID_COLOR
    ensures ParseColorAsWritten(Some("#" + (digits + rest))) == Host.INVALID_COLOR
  {
    HexRunOverflow(digits, rest);
    assert ("#" + (digits + rest))[1..] == digits + rest;
    assert Low32(ULONG_MAX) == Host.INVALID_COLOR;
  }

  lemma {:induction false} DigitRunOfConcat(digits: string, rest: string)
    requires forall i :: 0 <= i < |digits| ==> IsDigitIn(digits[i], 16)
    requires |rest| > 0 ==> !IsDigitIn(rest[0], 16)
    ensures DigitRun(digits + rest, 16) == |digits|
    decreases |digits|
  {
    if |digits| > 0 {
      assert (digits + rest)[1..] == digits[1..] + rest;
      DigitRunOfConcat(digits[1..], rest);
    } else {
      assert digits + rest == rest;
    }
  }

  /** The defect in the overflow test: nine hex digits wrap to a 32-bit
      value instead of being rejected. "#100000000" gives black. */
  lemma ParseColorWrapsAsWritten()
    ensures ParseColorAsWritten(Some("#100000000")) == 0
    ensures ParseColor(Some("#100000000")) == Host.INVALID_COLOR
  {
    assert "#100000000"[1..] == "100000000";
    NineDigitULong();
    assert Low32(0x1_0000_0000) == 0;
  }

  /** strtoul reads "100000000" as 2^32, without overflow on a 64-bit long. */
  lemma NineDigitULong()
    ensures StrToULHex("100000000") == ULong(0x1_0000_0000, false)
  {
    var t := "100000000";
    NineDigitValue();
    UnsignedNumeral(t, 16);
    assert StripHexPrefix(t) == t;
    PlainHexValue(t, 0x1_0000_0000);
  }

  /** "100000000" is 2^32 in hexadecimal, the whole string being digits. */
  lemma NineDigitValue()
    ensures Magnitude("100000000", 16) == 0x1_0000_0000
  {
    var t := "100000000";
    DigitRunAll(t, 16);
    assert t[..9] == t;
    assert t == "1" + "00000000";
    DigitsValueAppend("1", "00000000", 16);
    assert "1"[..0] == [];
    assert DigitsValue("1", 16) == 1;
    ZerosValue("00000000");
    assert Pow(16, 8) == 0x1_0000_0000;
  }

  lemma {:induction false} ZerosValue(z: string)
    requires forall i :: 0 <= i < |z| ==> z[i] == '0'
    ensures DigitsValue(z, 16) == 0
    decreases |z|
  {
    if |z| > 0 {
      ZerosValue(z[..|z| - 1]);
    }
  }

  // ---------------------------------------------------------------------
  // g_pattern_match_simple: '*' and '?' wildcards, no escapes
  // ---------------------------------------------------------------------

  predicate GlobMatch(pattern: string, s: string)
    decreases |pattern| + |s|
  {
    if |pattern| == 0 then |s| == 0
    else if pattern[0] == '*' then GlobMatch(pattern[1..], s) || (|s| > 0 && GlobMatch(pattern, s[1..]))
    else |s| > 0 && (pattern[0] == '?' || pattern[0] == s[0]) && GlobMatch(pattern[1..], s[1..])
  }

  predicate NoWildcards(p: string) { forall i :: 0 <= i < |p| ==> p[i] != '*' && p[i] != '?' }

  /** A pattern without wildcards matches exactly itself. */
  lemma {:induction false} LiteralPattern(p: string, s: string)
    requires NoWildcards(p)
    ensures GlobMatch(p, s) <==> p == s
    decreases |p| + |s|
  {
    if |p| > 0 && |s| > 0 {
      LiteralPattern(p[1..], s[1..]);
      if p[1..] == s[1..] && p[0] == s[0] {
        assert p == [p[0]] + p[1..] && s == [s[0]] + s[1..];
      }
    }
  }

  /** A trailing '*' after a literal prefix matches every name with that prefix. */
  lemma {:induction false} PrefixStar(p: string, s: string)
    requires NoWildcards(p)
    ensures GlobMatch(p + "*", s) <==> (|p| <= |s| && s[..|p|] == p)
    decreases |p|
  {
    if |p| == 0 {
      assert p + "*" == "*";
      StarMatchesAll(s);
    } else {
      assert (p + "*")[1..] == p[1..] + "*";
      if |s| > 0 {
        PrefixStar(p[1..], s[1..]);
        if |p| <= |s| && s[..|p|] == p {
          assert s[1..][..|p| - 1] == p[1..];
        }
        if |p[1..]| <= |s[1..]| && s[1..][..|p[1..]|] == p[1..] && p[0] == s[0] {
          assert s[..|p|] == [s[0]] + s[1..][..|p| - 1];
        }
      }
    }
  }

  lemma {:induction false} StarMatchesAll(s: string)
    ensures GlobMatch("*", s)
    decreases |s|
  {
    if |s| > 0 {
      StarMatchesAll(s[1..]);
    }
  }

  // ---------------------------------------------------------------------
  // The engine configuration and ibus_m17n_get_engine_config
  // ---------------------------------------------------------------------

  /** IBusM17NEngineConfig as the lookup fills it. */
  datatype EngineConfig = EngineConfig(rank: int, symbol: Option<string>, longname: Option<string>, preeditHighlight: bool)

  /** g_slice_new0: rank 0, no symbol, no long name, no highlight. */
  const ZERO_CONFIG := EngineConfig(0, None, None, false)

  // EngineConfigMask bits.
  const RANK_MASK: bv32 := 1
  const SYMBOL_MASK: bv32 := 2
  const LONGNAME_MASK: bv32 := 4
  const PREEDIT_HIGHLIGHT_MASK: bv32 := 8

  /** One <engine> element: its glob (NULL when it had no <name>), the fields
      it sets, and their values. */
  datatype ConfigNode = ConfigNode(name: Option<string>, mask: bv32, config: EngineConfig)

  datatype Field = Rank | Symbol | Longname | PreeditHighlight

  function FieldBit(f: Field): bv32
  {
    match f
    case Rank => RANK_MASK
    case Symbol => SYMBOL_MASK
    case Longname => LONGNAME_MASK
    case PreeditHighlight => PREEDIT_HIGHLIGHT_MASK
  }

  datatype FieldValue = IntValue(i: int) | TextValue(t: Option<string>) | BoolValue(b: bool)

  function Get(c: EngineConfig, f: Field): FieldValue
  {
    match f
    case Rank => IntValue(c.rank)
    case Symbol => TextValue(c.symbol)
    case Longname => TextValue(c.longname)
    case PreeditHighlight => BoolValue(c.preeditHighlight)
  }

  /** g_pattern_match_simple(cnode->name, engine_name); a NULL pattern never matches. */
  predicate Matches(node: ConfigNode, engineName: string)
  {
    node.name.Some? && GlobMatch(node.name.value, engineName)
  }

  /** The node overrides field `f` for this engine. */
  predicate Sets(node: ConfigNode, engineName: string, f: Field)
  {
    Matches(node, engineName) && node.mask & FieldBit(f) != 0
  }

  /** One step of the lookup loop: a matching node overwrites the fields
      whose bit it carries. */
  function ApplyNode(c: EngineConfig, node: ConfigNode, engineName: string): EngineConfig
  {
    if !Matches(node, engineName) then c
    else
      var c1 := if node.mask & RANK_MASK != 0 then c.(rank := node.config.rank) else c;
      var c2 := if node.mask & SYMBOL_MASK != 0 then c1.(symbol := node.config.symbol) else c1;
      var c3 := if node.mask & LONGNAME_MASK != 0 then c2.(longname := node.config.longname) else c2;
      if node.mask & PREEDIT_HIGHLIGHT_MASK != 0 then c3.(preeditHighlight := node.config.preeditHighlight) else c3
  }

  /** ibus_m17n_get_engine_config: the nodes applied in list order. */
  function GetEngineConfig(nodes: seq<ConfigNode>, engineName: string): EngineConfig
  {
    if |nodes| == 0 then ZERO_CONFIG
    else ApplyNode(GetEngineConfig(nodes[..|nodes| - 1], engineName), nodes[|nodes| - 1], engineName)
  }

  lemma ApplyNodeField(c: EngineConfig, node: ConfigNode, engineName: string, f: Field)
    ensures Get(ApplyNode(c, node, engineName), f) ==
            if Sets(node, engineName, f) then Get(node.config, f) else Get(c, f)
  {
  }

  /** With no node that matches the engine and carries the field's bit, the
      field keeps its zero value. */
  lemma {:induction false} NoSetterKeepsZero(nodes: seq<ConfigNode>, engineName: string, f: Field)
    requires forall i :: 0 <= i < |nodes| ==> !Sets(nodes[i], engineName, f)
    ensures Get(GetEngineConfig(nodes, engineName), f) == Get(ZERO_CONFIG, f)
    decreases |nodes|
  {
    if |nodes| > 0 {
      var n := |nodes| - 1;
      assert forall i :: 0 <= i < n ==> nodes[..n][i] == nodes[i];
      NoSetterKeepsZero(nodes[..n], engineName, f);
      ApplyNodeField(GetEngineConfig(nodes[..n], engineName), nodes[n], engineName, f);
    }
  }

  /** The last node in the list that matches the engine and carries the
      field's bit decides the field's value. */
  lemma {:induction false} LastMatchWins(nodes: seq<ConfigNode>, engineName: string, f: Field, i: nat)
    requires i < |nodes| && Sets(nodes[i], engineName, f)
    requires forall j :: i < j < |nodes| ==> !Sets(nodes[j], engineName, f)
    ensures Get(GetEngineConfig(nodes, engineName), f) == Get(nodes[i].config, f)
    decreases |nodes|
  {
    var n := |nodes| - 1;
    ApplyNodeField(GetEngineConfig(nodes[..n], engineName), nodes[n], engineName, f);
    if i < n {
      assert forall j :: 0 <= j < n ==> nodes[..n][j] == nodes[j];
      LastMatchWins(nodes[..n], engineName, f, i);
    }
  }

  /** An engine no node matches gets the zero configuration (rank 0, no
      highlight), as the test suite expects of "m17n:non:exsistent". */
  lemma UnmatchedEngineIsZero(nodes: seq<ConfigNode>, engineName: string)
    requires forall i :: 0 <= i < |nodes| ==> !Matches(nodes[i], engineName)
    ensures GetEngineConfig(nodes, engineName) == ZERO_CONFIG
  {
    NoSetterKeepsZero(nodes, engineName, Rank);
    NoSetterKeepsZero(nodes, engineName, Symbol);
    NoSetterKeepsZero(nodes, engineName, Longname);
    NoSetterKeepsZero(nodes, engineName, PreeditHighlight);
  }

  // ---------------------------------------------------------------------
  // ibus_m17n_engine_config_parse_xml_node
  // ---------------------------------------------------------------------

  /** An element of the parsed XML tree. */
  datatype XmlNode = XmlNode(tag: string, text: string, subNodes: seq<XmlNode>)

  /** g_slice_new0 of an EngineConfigNode. */
  const EMPTY_NODE := ConfigNode(None, 0, ZERO_CONFIG)

  /** One child of an <engine> element; unknown children only warn. */
  function ApplyElement(cnode: ConfigNode, sub: XmlNode): ConfigNode
  {
    if sub.tag == "name" then cnode.(name := Some(sub.text))
    else if sub.tag == "rank" then
      cnode.(config := cnode.config.(rank := Atoi(sub.text)), mask := cnode.mask | RANK_MASK)
    else if sub.tag == "symbol" then
      cnode.(config := cnode.config.(symbol := Some(sub.text)), mask := cnode.mask | SYMBOL_MASK)
    else if sub.tag == "longname" then
      cnode.(config := cnode.config.(longname := Some(sub.text)), mask := cnode.mask | LONGNAME_MASK)
    else if sub.tag == "preedit-highlight" then
      var c := if AsciiCaseEqual("TRUE", sub.text) then cnode.config.(preeditHighlight := true) else cnode.config;
      cnode.(config := c, mask := cnode.mask | PREEDIT_HIGHLIGHT_MASK)
    else cnode
  }

  function ApplyElements(cnode: ConfigNode, subs: seq<XmlNode>): ConfigNode
    decreases |subs|
  {
    if |subs| == 0 then cnode else ApplyElements(ApplyElement(cnode, subs[0]), subs[1..])
  }

  /** ibus_m17n_engine_config_parse_xml_node on a freshly zeroed node. It
      never fails. */
  function ParseXmlNode(node: XmlNode): (r: (ConfigNode, bool))
    ensures r.1
  {
    (ApplyElements(EMPTY_NODE, node.subNodes), true)
  }

  /** The element that sets each field. */
  function FieldTag(f: Field): string
  {
    match f
    case Rank => "rank"
    case Symbol => "symbol"
    case Longname => "longname"
    case PreeditHighlight => "preedit-highlight"
  }

  /** The value-carrying parts of a node that an element overwrites: its
      name, rank, symbol and long name. */
  datatype Slot = NameSlot | RankSlot | SymbolSlot | LongnameSlot

  function SlotTag(k: Slot): string
  {
    match k
    case NameSlot => "name"
    case RankSlot => "rank"
    case SymbolSlot => "symbol"
    case LongnameSlot => "longname"
  }

  function Read(c: ConfigNode, k: Slot): FieldValue
  {
    match k
    case NameSlot => TextValue(c.name)
    case RankSlot => IntValue(c.config.rank)
    case SymbolSlot => TextValue(c.config.symbol)
    case LongnameSlot => TextValue(c.config.longname)
  }

  /** What an element of the slot's tag stores: the text itself, or for the
      rank its atoi value. */
  function Written(sub: XmlNode, k: Slot): FieldValue
  {
    if k == RankSlot then IntValue(Atoi(sub.text)) else TextValue(Some(sub.text))
  }

  predicate HasTag(subs: seq<XmlNode>, tag: string) { exists i :: 0 <= i < |subs| && subs[i].tag == tag }

  /** `i` is the last child with this tag. */
  predicate LastWithTag(subs: seq<XmlNode>, tag: string, i: int)
  {
    0 <= i < |subs| && subs[i].tag == tag && forall j :: i < j < |subs| ==> subs[j].tag != tag
  }

  predicate SaysTrue(sub: XmlNode) { sub.tag == "preedit-highlight" && AsciiCaseEqual("TRUE", sub.text) }

  lemma HasTagCons(subs: seq<XmlNode>, tag: string)
    requires |subs| > 0
    ensures HasTag(subs, tag) <==> subs[0].tag == tag || HasTag(subs[1..], tag)
  {
    if HasTag(subs, tag) && subs[0].tag != tag {
      var i :| 0 <= i < |subs| && subs[i].tag == tag;
      assert subs[1..][i - 1].tag == tag;
    }
    if HasTag(subs[1..], tag) {
      var i :| 0 <= i < |subs[1..]| && subs[1..][i].tag == tag;
      assert subs[i + 1].tag == tag;
    }
  }

  /** A slot holds the value of the last element of its tag, or what it held
      before when there is none. */
  lemma {:induction false} SlotFromLastElement(cnode: ConfigNode, subs: seq<XmlNode>, k: Slot)
    ensures !HasTag(subs, SlotTag(k)) ==> Read(ApplyElements(cnode, subs), k) == Read(cnode, k)
    ensures forall i :: LastWithTag(subs, SlotTag(k), i) ==>
              Read(ApplyElements(cnode, subs), k) == Written(subs[i], k)
    decreases |subs|
  {
    if |subs| > 0 {
      var rest := subs[1..];
      SlotFromLastElement(ApplyElement(cnode, subs[0]), rest, k);
      HasTagCons(subs, SlotTag(k));
      forall i | LastWithTag(subs, SlotTag(k), i)
        ensures Read(ApplyElements(cnode, subs), k) == Written(subs[i], k)
      {
        if i > 0 {
          assert LastWithTag(rest, SlotTag(k), i - 1);
        }
      }
    }
  }

  /** A field's mask bit is set iff the node had it or an element of its tag
      occurs. */
  lemma {:induction false} MaskFromElements(cnode: ConfigNode, subs: seq<XmlNode>, f: Field)
    ensures ApplyElements(cnode, subs).mask & FieldBit(f) != 0 <==>
            cnode.mask & FieldBit(f) != 0 || HasTag(subs, FieldTag(f))
    decreases |subs|
  {
    if |subs| > 0 {
      MaskFromElements(ApplyElement(cnode, subs[0]), subs[1..], f);
      HasTagCons(subs, FieldTag(f));
    }
  }

  /** Within one node the highlight flag is only ever switched on: it ends
      TRUE iff it started TRUE or some <preedit-highlight> says "TRUE" in any
      letter case; a later "FALSE" does not clear it. */
  lemma {:induction false} HighlightIffAnyTrue(cnode: ConfigNode, subs: seq<XmlNode>)
    ensures ApplyElements(cnode, subs).config.preeditHighlight <==>
            cnode.config.preeditHighlight || exists i :: 0 <= i < |subs| && SaysTrue(subs[i])
    decreases |subs|
  {
    if |subs| > 0 {
      var rest := subs[1..];
      HighlightIffAnyTrue(ApplyElement(cnode, subs[0]), rest);
      if exists i :: 0 <= i < |subs| && SaysTrue(subs[i]) {
        var i :| 0 <= i < |subs| && SaysTrue(subs[i]);
        if i > 0 { assert SaysTrue(rest[i - 1]); }
      }
      if exists i :: 0 <= i < |rest| && SaysTrue(rest[i]) {
        var i :| 0 <= i < |rest| && SaysTrue(rest[i]);
        assert SaysTrue(subs[i + 1]);
      }
    }
  }

  /** The parsed node, field by field: the name, rank, symbol and long name
      come from the last element of their tag (absent: NULL or 0); each mask
      bit is set iff its element occurs; the highlight flag is TRUE iff some
      <preedit-highlight> says "TRUE". */
  lemma ParseXmlNodeFields(node: XmlNode)
    ensures var cnode := ParseXmlNode(node).0;
            && (forall k: Slot :: !HasTag(node.subNodes, SlotTag(k)) ==> Read(cnode, k) == Read(EMPTY_NODE, k))
            && (forall k: Slot, i :: LastWithTag(node.subNodes, SlotTag(k), i) ==>
                  Read(cnode, k) == Written(node.subNodes[i], k))
            && (forall f: Field :: cnode.mask & FieldBit(f) != 0 <==> HasTag(node.subNodes, FieldTag(f)))
            && (cnode.config.preeditHighlight <==>
                  exists i :: 0 <= i < |node.subNodes| && SaysTrue(node.subNodes[i]))
  {
    forall k: Slot {
      SlotFromLastElement(EMPTY_NODE, node.subNodes, k);
    }
    forall f: Field {
      MaskFromElements(EMPTY_NODE, node.subNodes, f);
    }
    HighlightIffAnyTrue(EMPTY_NODE, node.subNodes);
  }

  /** "TRUE" in any letter case turns the highlight on; "FALSE" does not, but
      both set the mask bit. */
  lemma HighlightExample()
    ensures var n := ParseXmlNode(XmlNode("engine", "", [XmlNode("preedit-highlight", "true", [])])).0;
            n.config.preeditHighlight && n.mask == PREEDIT_HIGHLIGHT_MASK
    ensures var n := ParseXmlNode(XmlNode("engine", "", [XmlNode("preedit-highlight", "False", [])])).0;
            !n.config.preeditHighlight && n.mask == PREEDIT_HIGHLIGHT_MASK
  {
    var t := XmlNode("preedit-highlight", "true", []);
    assert AsciiCaseEqual("TRUE", "true");
    assert [t][1..] == [];
    var f := XmlNode("preedit-highlight", "False", []);
    assert !AsciiCaseEqual("TRUE", "False") by {
      assert ToLower("TRUE"[0]) != ToLower("False"[0]);
    }
    assert [f][1..] == [];
  }

  // ---------------------------------------------------------------------
  // The configuration list built by ibus_m17n_get_component
  // ---------------------------------------------------------------------

  function Reverse<T>(s: seq<T>): (r: seq<T>)
    ensures |r| == |s|
    ensures forall i :: 0 <= i < |s| ==> r[i] == s[|s| - 1 - i]
  {
    if |s| == 0 then [] else Reverse(s[1..]) + [s[0]]
  }

  /** The config node of every <engine> child, in document order. */
  function EngineNodes(subs: seq<XmlNode>): seq<ConfigNode>
  {
    if |subs| == 0 then []
    else if subs[|subs| - 1].tag == "engine" then EngineNodes(subs[..|subs| - 1]) + [ParseXmlNode(subs[|subs| - 1]).0]
    else EngineNodes(subs[..|subs| - 1])
  }

  /** The loading loop of ibus_m17n_get_component: every <engine> child of an
      <engines> root is parsed and prepended to the global list, other
      children only warn, and the list is reversed at the end. Anything else
      (no document, another root) leaves the list as it was. */
  method LoadConfigList(existing: seq<ConfigNode>, root: Option<XmlNode>) returns (list: seq<ConfigNode>)
    ensures root.Some? && root.value.tag == "engines" ==>
              list == Reverse(existing) + EngineNodes(root.value.subNodes)
    ensures !(root.Some? && root.value.tag == "engines") ==> list == existing
  {
    list := existing;
    if root.Some? && root.value.tag == "engines" {
      var subs := root.value.subNodes;
      var i := 0;
      while i < |subs|
        invariant 0 <= i <= |subs|
        invariant list == Reverse(EngineNodes(subs[..i])) + existing
      {
        assert subs[..i + 1][..i] == subs[..i];
        if subs[i].tag == "engine" {
          var (cnode, ok) := ParseXmlNode(subs[i]);
          if ok {
            ReversePush(EngineNodes(subs[..i]), cnode);
            list := [cnode] + list;
          }
        }
        i := i + 1;
      }
      assert subs[..|subs|] == subs;
      ReverseAppend(EngineNodes(subs), existing);
      list := Reverse(list);
    }
  }

  lemma ReversePush<T>(s: seq<T>, x: T)
    ensures Reverse(s + [x]) == [x] + Reverse(s)
  {
    var a, b := Reverse(s + [x]), [x] + Reverse(s);
    assert forall i :: 0 <= i < |a| ==> a[i] == b[i];
  }

  lemma ReverseAppend<T>(a: seq<T>, b: seq<T>)
    ensures Reverse(Reverse(a) + b) == Reverse(b) + a
  {
    var m := Reverse(a) + b;
    var l, r := Reverse(m), Reverse(b) + a;
    assert |l| == |r|;
    forall i | 0 <= i < |l|
      ensures l[i] == r[i]
    {
      var k := |m| - 1 - i;
      assert l[i] == m[k];
      if i < |b| {
        assert m[k] == b[k - |a|];
        assert r[i] == Reverse(b)[i];
      } else {
        assert m[k] == Reverse(a)[k];
        assert r[i] == a[i - |b|];
      }
    }
  }
}
