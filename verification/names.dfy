/** Engine names ("m17n:<lang>:<name>") and the GType names derived from them
    ("IBusM17N<Lang><Name>Engine"), as src/engine.c builds and parses them,
    and the name check of the setup tool (src/setup.c). */
module Names {
  import opened Common

  const ENGINE_PREFIX := "m17n:"
  const CLASS_PREFIX := "IBusM17N"
  const CLASS_SUFFIX := "Engine"

  predicate HasPrefix(s: string, p: string) { |p| <= |s| && s[..|p|] == p }
  predicate HasSuffix(s: string, p: string) { |p| <= |s| && s[|s| - |p|..] == p }

  /** Index of the first ':' in `s`, if any. */
  function FindColon(s: string): (r: Option<nat>)
    ensures r.Some? ==> r.value < |s| && s[r.value] == ':' && forall i :: 0 <= i < r.value ==> s[i] != ':'
    ensures r.None? ==> forall i :: 0 <= i < |s| ==> s[i] != ':'
  {
    if |s| == 0 then None
    else if s[0] == ':' then Some(0)
    else match FindColon(s[1..])
      case None => None
      case Some(k) => Some(k + 1)
  }

  /** ibus_m17n_scan_engine_name: g_strsplit(name, ":", 3) must give three
      pieces after the "m17n:" prefix; the language is the second piece and
      the input-method name all the rest (it may hold further colons). */
  function ScanEngineName(engineName: string): (r: Option<(string, string)>)
    ensures r.Some? ==> HasPrefix(engineName, ENGINE_PREFIX)
    ensures r.Some? ==> engineName == ENGINE_PREFIX + r.value.0 + ":" + r.value.1
    ensures r.Some? ==> forall i :: 0 <= i < |r.value.0| ==> r.value.0[i] != ':'
  {
    if !HasPrefix(engineName, ENGINE_PREFIX) then None
    else
      var rest := engineName[|ENGINE_PREFIX|..];
      match FindColon(rest)
      case None => None
      case Some(k) =>
        assert engineName == ENGINE_PREFIX + rest[..k] + ":" + rest[k + 1..] by {
          assert rest == rest[..k] + [':'] + rest[k + 1..];
        }
        Some((rest[..k], rest[k + 1..]))
  }

  /** Every "m17n:<lang>:<name>" with a colon-free language scans back to
      its two parts. */
  lemma ScanEngineNameRoundTrip(lang: string, name: string)
    requires forall i :: 0 <= i < |lang| ==> lang[i] != ':'
    ensures ScanEngineName(ENGINE_PREFIX + lang + ":" + name) == Some((lang, name))
  {
    var s := ENGINE_PREFIX + lang + ":" + name;
    assert s[..5] == ENGINE_PREFIX;
    var rest := s[5..];
    assert rest == lang + ":" + name;
    FindColonAt(lang, name);
    assert rest[..|lang|] == lang;
    assert rest[|lang| + 1..] == name;
  }

  lemma {:induction false} FindColonAt(lang: string, name: string)
    requires forall i :: 0 <= i < |lang| ==> lang[i] != ':'
    ensures FindColon(lang + ":" + name) == Some(|lang|)
    decreases |lang|
  {
    if |lang| > 0 {
      assert (lang + ":" + name)[1..] == lang[1..] + ":" + name;
      FindColonAt(lang[1..], name);
    }
  }

  /** The check in the setup tool's main: the name must start with "m17n:"
      and contain a ':' after that prefix. */
  predicate SetupAcceptsName(name: string)
  {
    HasPrefix(name, ENGINE_PREFIX) && exists i :: 5 <= i < |name| && name[i] == ':'
  }

  /** The setup tool accepts exactly the names the engine can scan. */
  lemma SetupAcceptsScannable(name: string)
    ensures SetupAcceptsName(name) <==> ScanEngineName(name).Some?
  {
    if HasPrefix(name, ENGINE_PREFIX) {
      var rest := name[5..];
      if exists i :: 5 <= i < |name| && name[i] == ':' {
        var i :| 5 <= i < |name| && name[i] == ':';
        assert rest[i - 5] == ':';
      }
      if FindColon(rest).Some? {
        assert name[5 + FindColon(rest).value] == ':';
      }
    }
  }

  /** g_ascii_toupper applied to the first character (an empty string, the
      C string whose first byte is NUL, stays as it is). */
  function Capitalize(s: string): (r: string)
    ensures |r| == |s|
    ensures |s| > 0 ==> r[0] == ToUpper(s[0]) && r[1..] == s[1..]
  {
    if |s| == 0 then s else [ToUpper(s[0])] + s[1..]
  }

  function Uncapitalize(s: string): (r: string)
    ensures |r| == |s|
    ensures |s| > 0 ==> r[0] == ToLower(s[0]) && r[1..] == s[1..]
  {
    if |s| == 0 then s else [ToLower(s[0])] + s[1..]
  }

  /** ibus_m17n_engine_get_type_for_name: the GType name of an engine, or
      none (G_TYPE_INVALID) when the engine name does not scan. */
  function TypeName(engineName: string): (r: Option<string>)
    ensures r.Some? <==> ScanEngineName(engineName).Some?
    ensures r.Some? ==> HasPrefix(r.value, CLASS_PREFIX) && HasSuffix(r.value, CLASS_SUFFIX)
  {
    match ScanEngineName(engineName)
    case None => None
    case Some((lang, name)) =>
      var t := CLASS_PREFIX + Capitalize(lang) + Capitalize(name) + CLASS_SUFFIX;
      assert t[..8] == CLASS_PREFIX;
      assert t[|t| - 6..] == CLASS_SUFFIX;
      Some(t)
  }

  /** The last upper-case letter of `s` at an index of at least 1, if any:
      where the backward scan of scan_class_name stops successfully. */
  function LastUpperFrom1(s: string): (r: Option<nat>)
    ensures r.Some? ==> 1 <= r.value < |s| && IsUpper(s[r.value])
                        && forall j :: r.value < j < |s| ==> !IsUpper(s[j])
    ensures r.None? ==> forall j :: 1 <= j < |s| ==> !IsUpper(s[j])
  {
    if |s| <= 1 then None
    else if IsUpper(s[|s| - 1]) then Some(|s| - 1)
    else LastUpperFrom1(s[..|s| - 1])
  }

  /** "IBusM17N" and "Engine" cannot overlap, so a name with both has room
      for both. */
  lemma PrefixBeforeSuffix(c: string)
    requires HasPrefix(c, CLASS_PREFIX) && HasSuffix(c, CLASS_SUFFIX)
    ensures |c| >= 14
  {
    assert c[|c| - 6] == 'E' by {
      assert c[|c| - 6..][0] == c[|c| - 6];
    }
    assert forall i :: 0 <= i < 8 ==> c[i] != 'E' by {
      assert forall i :: 0 <= i < 8 ==> c[..8][i] == c[i];
    }
  }

  /** ibus_m17n_scan_class_name: strip "IBusM17N" and the trailing "Engine";
      the name starts at the last upper-case letter after the first
      character; both parts get a lower-case first letter. A class name with
      nothing between prefix and suffix fails too (the C code then reads one
      byte before its buffer, but answers FALSE either way). */
  function ScanClassName(className: string): (r: Option<(string, string)>)
    ensures r.Some? ==> HasPrefix(className, CLASS_PREFIX) && HasSuffix(className, CLASS_SUFFIX)
    ensures r.Some? ==> |r.value.0| > 0 && |r.value.1| > 0
  {
    if !HasPrefix(className, CLASS_PREFIX) || !HasSuffix(className, CLASS_SUFFIX) then None
    else
      PrefixBeforeSuffix(className);
      var body := className[8..|className| - 6];
      match LastUpperFrom1(body)
      case None => None
      case Some(k) => Some((Uncapitalize(body[..k]), Uncapitalize(body[k..])))
  }

  /** Turning an engine name into a class name and scanning it back gives
      the engine's language and name, provided the language does not start
      with an upper-case letter and the name is a lower-case letter followed
      by no upper-case letter. */
  lemma ClassNameRoundTrip(lang: string, name: string)
    requires forall i :: 0 <= i < |lang| ==> lang[i] != ':'
    requires |lang| > 0 && !IsUpper(lang[0])
    requires |name| > 0 && IsLower(name[0]) && forall i :: 1 <= i < |name| ==> !IsUpper(name[i])
    ensures var t := TypeName(ENGINE_PREFIX + lang + ":" + name);
            t.Some? && ScanClassName(t.value) == Some((lang, name))
  {
    var body := Capitalize(lang) + Capitalize(name);
    TypeNameOf(lang, name);
    SplitCapitalized(lang, name);
    ScanOfBody(body, |lang|);
  }

  /** The type name of a scannable engine name wraps the joined, capitalised
      language and name. */
  lemma TypeNameOf(lang: string, name: string)
    requires forall i :: 0 <= i < |lang| ==> lang[i] != ':'
    ensures TypeName(ENGINE_PREFIX + lang + ":" + name)
            == Some(CLASS_PREFIX + (Capitalize(lang) + Capitalize(name)) + CLASS_SUFFIX)
  {
    var en := ENGINE_PREFIX + lang + ":" + name;
    ScanEngineNameRoundTrip(lang, name);
    assert ScanEngineName(en) == Some((lang, name));
    var l, n := Capitalize(lang), Capitalize(name);
    assert TypeName(en) == Some(CLASS_PREFIX + l + n + CLASS_SUFFIX);
    assert CLASS_PREFIX + l + n == CLASS_PREFIX + (l + n);
  }

  /** The scan of a class name built around `body`, once the split point of
      the body is known. */
  lemma ScanOfBody(body: string, k: nat)
    requires LastUpperFrom1(body) == Some(k)
    ensures ScanClassName(CLASS_PREFIX + body + CLASS_SUFFIX)
            == Some((Uncapitalize(body[..k]), Uncapitalize(body[k..])))
  {
    ClassBody(body);
  }

  /** The scan of the joined body splits it where the name begins and
      undoes the capitalisation of both parts. */
  lemma SplitCapitalized(lang: string, name: string)
    requires |lang| > 0 && !IsUpper(lang[0])
    requires |name| > 0 && IsLower(name[0]) && forall i :: 1 <= i < |name| ==> !IsUpper(name[i])
    ensures var body := Capitalize(lang) + Capitalize(name);
            LastUpperFrom1(body) == Some(|lang|)
            && Uncapitalize(body[..|lang|]) == lang && Uncapitalize(body[|lang|..]) == name
  {
    var body := Capitalize(lang) + Capitalize(name);
    LastUpperOfJoin(Capitalize(lang), Capitalize(name));
    assert body[..|lang|] == Capitalize(lang);
    assert body[|lang|..] == Capitalize(name);
    UncapitalizeCapitalize(lang);
    UncapitalizeCapitalize(name);
  }

  lemma UncapitalizeCapitalize(s: string)
    requires |s| > 0 && !IsUpper(s[0])
    ensures Uncapitalize(Capitalize(s)) == s
  {
    ToLowerToUpper(s[0]);
    assert s == [s[0]] + s[1..];
  }

  lemma LastUpperOfJoin(a: string, b: string)
    requires |a| > 0 && |b| > 0 && IsUpper(b[0]) && forall i :: 1 <= i < |b| ==> !IsUpper(b[i])
    ensures LastUpperFrom1(a + b) == Some(|a|)
  {
    var s := a + b;
    assert IsUpper(s[|a|]);
    forall j | |a| < j < |s|
      ensures !IsUpper(s[j])
    {
      assert s[j] == b[j - |a|];
    }
  }

  /** The class name built around `body`, and the body it strips back to. */
  lemma ClassBody(body: string)
    ensures var c := CLASS_PREFIX + body + CLASS_SUFFIX;
            HasPrefix(c, CLASS_PREFIX) && HasSuffix(c, CLASS_SUFFIX) && c[8..|c| - 6] == body
  {
    var c := CLASS_PREFIX + body + CLASS_SUFFIX;
    assert c[..8] == CLASS_PREFIX;
    assert c[|c| - 6..] == CLASS_SUFFIX;
  }

  /** A two-letter language and a name, each with a capital, scan apart. */
  lemma ClassNameExample()
    ensures ScanClassName("IBusM17NJaAnthyEngine") == Some(("ja", "anthy"))
  {
    var body := "JaAnthy";
    ClassBody(body);
    assert CLASS_PREFIX + body == "IBusM17NJaAnthy";
    assert "IBusM17NJaAnthy" + CLASS_SUFFIX == "IBusM17NJaAnthyEngine";
    LastUpperOfJoin("Ja", "Anthy");
    assert "Ja" + "Anthy" == body;
    assert LastUpperFrom1(body) == Some(2);
    assert body[..2] == "Ja" && body[2..] == "Anthy";
    assert Uncapitalize("Ja") == "ja" by {
      assert ToLower('J') == 'j';
    }
    assert Uncapitalize("Anthy") == "anthy" by {
      assert ToLower('A') == 'a';
      assert "Anthy"[1..] == "nthy";
    }
  }

  /** A class name whose only capital is its first letter does not scan. */
  lemma ClassNameWithoutSecondCapital()
    ensures ScanClassName("IBusM17NJaanthyEngine") == None
  {
    ClassBody("Jaanthy");
    assert "IBusM17NJaanthyEngine" == CLASS_PREFIX + "Jaanthy" + CLASS_SUFFIX;
    assert forall j :: 1 <= j < 7 ==> !IsUpper("Jaanthy"[j]);
  }

  /** Nothing between the prefix and "Engine": no language, no name. */
  lemma ClassNameEmpty()
    ensures ScanClassName("IBusM17NEngine") == None
  {
    ClassBody("");
    assert "IBusM17NEngine" == CLASS_PREFIX + "" + CLASS_SUFFIX;
  }
}
