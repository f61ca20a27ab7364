# ibus-m17n, modelled in Dafny

ibus-m17n connects the IBus input-method framework to the m17n library. An
IBus engine receives key events from the client. It turns each event into an
m17n key name and hands it to m17n. It then mirrors what m17n reports back
onto the IBus host:

- committed text;
- the preedit with its colours;
- the candidate lookup table, one group per page, with a "( page / total )" label;
- the status property;
- the surrounding-text requests.

This project models that decision logic as pure Dafny functions over
immutable data. The host calls an engine makes become a trace of `Effect`
values. m17n's `minput_filter` and `minput_lookup`, the US keymap and the
keyval-name table are oracles: function-typed parameters.

Modules, in dependency order:

- `Common`: option type, ASCII character classes, digit runs and their
  values, and the decimal and hexadecimal printers.
- `Host`: the IBus side. It has the context state m17n leaves behind, the
  colour constants of `src/m17nutil.h`, and the host calls (`Effect`).
- `KeyEvent`: `ibus_m17n_key_event_to_symbol`. It also has a decoder for
  m17n key names, which shows that the encoding is unambiguous.
- `Paginator`: `ibus_m17n_engine_update_lookup_table`.
- `M17nUtil`: `ibus_m17n_parse_color`, which uses glibc's `strtoul` and
  `atoi`. It also has the glob-keyed engine configuration, the `<engine>`
  XML node parser and the configuration list that `ibus_m17n_get_component`
  builds.
- `Presentation`: preedit drawing, committing, and live configuration
  changes.
- `Engine`: the key pipeline, the focus/reset/enable/disable/navigation
  handlers, and `destroy`.
- `Callback`: `ibus_m17n_engine_callback`, one case per m17n command.
- `Names`: engine names (`m17n:<lang>:<name>`), GType class names
  (`IBusM17N<Lang><Name>Engine`), and the setup tool's name check.
- `Setup`: the colour and combo-box logic of the setup dialog.

The IBus values used (modifier masks, keysyms `space`..`asciitilde`,
`a`..`z`, `Shift_L`..`Hyper_R`, `F1`, the surrounding-text capability bit)
are those of IBus's `ibustypes.h` and `ibuskeysyms.h`. Those headers are not
part of this model.

`src/engine.c:816-836` prepends the Hyper marker first and the Shift marker
last, so Shift is the outermost marker and a key name reads
`S-C-M-A-G-s-H-<base>`. Shift is never recorded on a printable key other
than space, so Shift+'a' is "a".

## Model

| member | source | states |
|---|---|---|
| KeyEvent.Encode | src/engine.c:758-842 | a keyval in Shift_L..Hyper_R gives no symbol; a non-printable key without Mod5 and without a name gives no symbol; a printable base keyval always gives one |
| KeyEvent.PrependMarkersIsMarkers | src/engine.c:816-836 | prepending H-, s-, G-, A-, M-, C-, S- in turn puts the markers in the order S- C- M- A- G- s- H- before the base token |
| KeyEvent.DecodeMarkers | src/engine.c:809-836 | a key name splits uniquely back into its marker mask and its base token, so two different (marker mask, plain token) pairs never share a name; different events can, since Shift on a printable key is dropped |
| KeyEvent.EncodeDecodes | src/engine.c:785-836 | the markers in an encoded name are exactly the base's markers plus the Alt, AltGr, Meta, Super and Hyper bits of the event, and the token is the base token |
| KeyEvent.PrintableKeyIsItself | src/engine.c:785-798 | a printable key other than space, with no modifier besides Shift, encodes as its bare character: Shift is dropped |
| KeyEvent.ControlUppercasesLetter | src/engine.c:791-795 | Control with a..z gives "C-" and the upper-case letter |
| KeyEvent.ShiftSpace | src/engine.c:788-789 | Shift is recorded on the space bar: "S- " |
| KeyEvent.NamedKeyKeepsAllMarkers | src/engine.c:799-813 | a named key records Shift and Control unconditionally: its name is all its markers and then its name |
| KeyEvent.AltGrRecoversUsKeyval | src/engine.c:776-824 | with Mod5, the base token is that of the US-keymap keyval for the same keycode with Mod5 cleared, and the name carries G- |
| KeyEvent.ControlHyperF1 | src/engine.c:816-833 | Control+Hyper+F1 is "C-H-F1" |
| KeyEvent.ShiftOutermost | src/engine.c:816-836 | Shift+Hyper on space is "S-H- ": Shift is the outermost marker |
| Engine.ProcessKey | src/engine.c:844-875 | a key the filter takes is handled with no effect; otherwise text is committed iff lookup produced non-empty text, only that text, first, and the preedit redraw follows the commit at once; handled iff lookup returned 0 |
| Engine.KeyEffectsShape | src/engine.c:844-875 | one key sent to m17n commits at most once, at the start, only m17n's text, followed by the redraw; it never chains up or registers properties |
| Engine.ProcessKeyEvent | src/engine.c:877-893 | releases, modifier keys and keys without a name are not handled and cause nothing; otherwise, under the key's m17n name, handled iff filter takes the key or lookup returns 0, nothing happens when filter takes it, a commit happens iff lookup produces non-empty text, every commit is that text followed at once by the preedit redraw, nothing chains up; the effects are exactly those of ProcessKey for that name: when lookup produces text, one commit of it first and then the preedit redraw, and otherwise none at all |
| Engine.ControlKeyReachesM17n | src/engine.c:877-893 | Control+letter reaches m17n as "C-" and the upper-case letter |
| Engine.FocusInTrace | src/engine.c:895-904 | focus-in registers the properties first and chains up last and only then; every commit in between is m17n's text for the focus-in key followed at once by the redraw, and there is one iff m17n produces text |
| Engine.FocusOutTrace | src/engine.c:906-914 | focus-out chains up last and only then; every commit before it is m17n's text for the focus-out key followed at once by the redraw, and there is one iff m17n produces text |
| Engine.ResetEnableChainFirst | src/engine.c:916-935 | reset and enable chain up first and only once, and neither commits nor redraws the preedit |
| Engine.DisableTrace | src/engine.c:946-952 | disable ends with the parent's focus-out and then the parent's disable, chains up nowhere else, and commits only as focus-out does |
| Engine.DisableIsFocusOutFirst | src/engine.c:946-952 | disable is exactly a full focus-out followed by chaining up |
| Engine.NavigateTrace | src/engine.c:963-1000 | a navigation request chains up to its own parent handler last and only then; every commit before it is m17n's text for the request's key followed at once by the redraw, and there is one iff m17n produces text; no other request shares its key or its parent handler |
| Engine.Releases | src/engine.c:673-698 | releases exactly the held objects that are in the order, each at most once when the order has no repeats |
| Engine.Destroy | src/engine.c:670-706 | every held object is released exactly once; the context is destroyed iff there is one, at most once, after every release; nothing is held afterwards; the parent's destroy runs once, last; nothing else happens |
| Engine.DestroyIdempotent | src/engine.c:670-706 | a second destroy changes nothing and only chains up, so across both no object or context is released twice |
| Presentation.PreeditDraw | src/engine.c:708-731 | no update when the preedit does not convert; otherwise one update with the text, the cursor, and visibility iff the text is non-empty |
| Presentation.PreeditStyling | src/engine.c:716-725 | each colour attribute is present iff that colour is valid; the underline is always present and last; every attribute spans the whole text |
| Presentation.CommitString | src/engine.c:733-741 | the commit comes first and is the only one; at most one preedit update follows, present iff the preedit converts, showing that preedit at the context's cursor |
| Presentation.VariantString | src/engine.c:516 | reading a string from a value that is not a string gives NULL |
| Presentation.IntSettingStores | src/engine.c:529-532 | the underline and orientation keys store the int32 value, or 0 for a value that is not an int32, and change nothing else |
| Presentation.ConfigValueChanged | src/engine.c:507-535 | another section or an unknown key leaves the class unchanged; the section and title never change |
| Presentation.ColorChangeIsolated | src/engine.c:514-528 | a colour key changes only its own colour, never stores INVALID_COLOR, and ignores values that are not strings |
| Presentation.ColorChangeStoresValue | src/engine.c:515-528 | "#" and six hex digits store exactly their value as the colour |
| Presentation.ColorChangeRejectsWrapped | src/engine.c:515-528 | "#100000000" leaves the colour unchanged, where the parser as written would give 0 |
| Paginator.Candidates | src/engine.c:1102-1145 | a flat group gives one candidate per character, a nested group its elements |
| Paginator.LocateFrom | src/engine.c:1087-1100 | the search loop stops at the first group from its start whose end lies past the index, at that group's offset |
| Paginator.Locate | src/engine.c:1087-1100 | the chosen group holds the index, and every earlier group ends at or before it |
| Paginator.Paginate | src/engine.c:1087-1151 | the page number is the group's 1-based ordinal; the page size is the group length; the cursor lies in [0, page size); the label shows the number of groups |
| Paginator.RefreshCandidates | src/engine.c:1075-1160 | with a list shown, the page and its label are updated and shown; otherwise both are hidden |
| Paginator.GroupSlot | src/engine.c:1087-1148 | candidate j of group k is candidate Offset(k)+j of the whole list |
| Paginator.PageShowsSelection | src/engine.c:1087-1148 | the highlighted entry of the page is the selected candidate of the whole list |
| Paginator.SecondGroupExample | src/engine.c:1087-1151 | groups of 3 and 9 with selection 7 give page 2, cursor 4, page size 9, label "( 2 / 2 )" |
| Callback.StatusPropFor | src/engine.c:1189-1203 | the property is visible iff it has a caption, and the caption is then the status |
| Callback.SurroundingExcerpt | src/engine.c:1244-1259 | a negative length takes up to -len characters before the cursor; a positive one takes up to len after it; zero takes nothing |
| Callback.DeleteRequest | src/engine.c:1269-1275 | a negative length deletes (len, -len), a positive one (0, len), and zero issues nothing |
| Callback.Dispatch | src/engine.c:1162-1277 | an unbound session adopts the calling context; start and done commands hide; set-spot, toggle, reset and status-done do nothing; preedit-draw, status-draw and candidates-draw redraw their part; with the capability, get hands m17n the clipped excerpt and delete issues the signed-length request, and without it both do nothing |
| Callback.BindingIsStable | src/engine.c:1171-1175 | the context is bound once, by the first callback, and later callbacks keep it |
| Callback.StatusDrawRule | src/engine.c:1189-1207 | the property is always updated; it shows the status iff the status is non-NULL, non-empty and not the title; otherwise it is hidden with no caption |
| Callback.ExcerptMatchesDelete | src/engine.c:1244-1275 | for an in-range length, the excerpt read and the span deleted are the same characters |
| Callback.GetAndDeleteAgree | src/engine.c:1227-1276 | with the capability and an in-range length, the excerpt get hands to m17n is exactly the span delete removes |
| Callback.ExcerptClips | src/engine.c:1245-1256 | a length reaching past either end of the text gives everything up to that end |
| Callback.SurroundingNeedsCapability | src/engine.c:1227-1276 | get answers iff the client has the capability; delete issues a request iff it has it and the length is non-zero |
| Callback.CandidatesDrawShowsPage | src/engine.c:1214-1216 | candidate-draw shows the paginated page and label iff a list is shown, and hides both otherwise |
| Names.FindColon | src/engine.c:303 | the first ':' in the text, or none |
| Names.ScanEngineName | src/engine.c:295-317 | a scanned name is "m17n:" + lang + ":" + name with no ':' in lang |
| Names.ScanEngineNameRoundTrip | src/engine.c:295-317 | "m17n:" + lang + ":" + name scans back to (lang, name) whenever lang has no ':'; name may contain ':' |
| Names.SetupAcceptsScannable | src/setup.c:618-622 | the setup tool accepts an engine name iff the engine can scan it |
| Names.TypeName | src/engine.c:365-372 | a type name exists iff the engine name scans, and it is "IBusM17N" … "Engine" |
| Names.LastUpperFrom1 | src/engine.c:334-337 | the last upper-case letter at index 1 or later, or none when there is no such letter |
| Names.ScanClassName | src/engine.c:319-345 | a class name scans only with the prefix "IBusM17N" and the suffix "Engine", into a non-empty language and a non-empty name |
| Names.ClassNameRoundTrip | src/engine.c:319-372 | the class name built for m17n:lang:name scans back to (lang, name) when lang is non-empty, has no ':' and does not start with a capital, and name starts with a lower-case letter and has no capital anywhere |
| Names.ClassNameExample | src/engine.c:319-345 | "IBusM17NJaAnthyEngine" scans to ("ja", "anthy") |
| Names.ClassNameWithoutSecondCapital | src/engine.c:334-337 | a body with no capital after its first letter does not scan |
| Names.ClassNameEmpty | src/engine.c:326-337 | "IBusM17NEngine" does not scan |
| M17nUtil.StrToULHex | src/m17nutil.c:98 | strtoul in base 16 never exceeds ULONG_MAX |
| M17nUtil.ULongOf | src/m17nutil.c:98-100 | strtoul overflows iff the magnitude exceeds ULONG_MAX, and then returns ULONG_MAX; otherwise a non-negative value is the magnitude |
| M17nUtil.HexRunOverflow | src/m17nutil.c:98 | a hex run whose value exceeds ULONG_MAX reads as ULONG_MAX with ERANGE |
| M17nUtil.ParseColorOverflow | src/m17nutil.c:98-101 | "#" and a hex run above ULONG_MAX gives INVALID_COLOR, as written and corrected |
| M17nUtil.Atoi | src/m17nutil.c:304 | atoi's result fits in 32 bits |
| M17nUtil.AtoiOfDecimal | src/m17nutil.c:304 | atoi of the decimal digits of any n below 2^31 is n |
| M17nUtil.ParseColorAsWritten | src/m17nutil.c:89-103 | NULL or a string not starting with '#' is INVALID_COLOR; any other result is strtoul's value truncated to 32 bits |
| M17nUtil.ParseColor | src/m17nutil.c:89-103 | NULL or no '#' is INVALID_COLOR; any other result is strtoul's full value, so it fits in 32 bits |
| M17nUtil.ParseColorAgrees | src/m17nutil.c:97-102 | for values that fit in 32 bits, the corrected parser and the parser as written agree |
| M17nUtil.ParseColorHexRun | src/m17nutil.c:97-102 | "#" and a run of hex digits, followed by anything that is not a hex digit, parses to the run's base-16 value |
| M17nUtil.ParseColorWrapsAsWritten | src/m17nutil.c:97-102 | "#100000000" gives 0 as written and INVALID_COLOR corrected |
| M17nUtil.LiteralPattern | src/m17nutil.c:269 | a glob pattern without wildcards matches exactly itself |
| M17nUtil.PrefixStar | src/m17nutil.c:269 | "p*" matches exactly the names starting with p |
| M17nUtil.StarMatchesAll | src/m17nutil.c:269 | "*" matches every engine name |
| M17nUtil.ApplyNodeField | src/m17nutil.c:269-277 | one matching node overwrites a field iff it carries that field's mask bit; other fields are unchanged |
| M17nUtil.NoSetterKeepsZero | src/m17nutil.c:263-280 | a field that no matching node sets keeps its zero value |
| M17nUtil.LastMatchWins | src/m17nutil.c:266-278 | each field takes its value from the last matching node that sets it |
| M17nUtil.UnmatchedEngineIsZero | src/m17nutil.c:260-281 | with no matching node the configuration is all zero: rank 0, no symbol, no long name, no highlight |
| M17nUtil.ParseXmlNode | src/m17nutil.c:289-331 | the node parser always succeeds |
| M17nUtil.SlotFromLastElement | src/m17nutil.c:298-316 | the name, rank, symbol and long name come from the last element with that tag, or stay as they were when none has it |
| M17nUtil.MaskFromElements | src/m17nutil.c:303-325 | each mask bit is set iff an element with its tag occurs |
| M17nUtil.HighlightIffAnyTrue | src/m17nutil.c:318-325 | the highlight flag is TRUE iff some preedit-highlight element says "TRUE" in any case; "FALSE" or anything else never clears it |
| M17nUtil.ParseXmlNodeFields | src/m17nutil.c:289-331 | every field of a parsed node: the last element per tag, one mask bit per tag present, and the highlight rule |
| M17nUtil.HighlightExample | src/m17nutil.c:318-325 | "true" turns the highlight on; "False" does not; both set the highlight bit |
| M17nUtil.LoadConfigList | src/m17nutil.c:349-368 | loading appends the nodes of the engine elements in document order and skips other elements; with no engines root the list is unchanged |
| M17nUtil.ReverseAppend | src/m17nutil.c:366-368 | prepending onto an existing list and reversing it reverses the old entries |
| Setup.ColorFromUint | src/setup.c:226-234 | pixel is 0; the high bytes of red, green and blue are bits 16-23, 8-15 and 0-7 of the colour; the low bytes are 0 |
| Setup.ColorToString | src/setup.c:372-379 | "#" and six upper-case hex digits whose value is the three high bytes |
| Setup.ColorStringRoundTrip | src/setup.c:226-234 | printing the colour of any packed value c parses back to c & 0xFFFFFF |
| Setup.SaveColor | src/setup.c:381-396 | "none" iff the toggle is inactive; otherwise "#" and six upper-case hex digits whose value is the high bytes of the button's red, green and blue |
| Setup.SavedColorParses | src/setup.c:389-393 | an active save of a packed colour stores a string the engine parses back to the colour's low 24 bits |
| Setup.LoadColor | src/setup.c:236-262 | the toggle is active iff a value exists, is not "none" and parses; the colour is then the parsed one, otherwise the default |
| Setup.SaveInactiveLoadsDefault | src/setup.c:247-261 | loading what an inactive save stored gives an inactive toggle on the default colour |
| Setup.EngineAppliesSavedColor | src/engine.c:514-528 | a saved active colour becomes the engine's preedit colour (its low 24 bits); "none" leaves the engine as it was |
| Setup.ComboIndex | src/setup.c:203-224 | the first row holding the value, or -1 iff no row holds it, including an empty model |

## Left out

- The virtual keyboard: eekboard, iok spawning and their property. This is D-Bus and process I/O (src/engine.c:115-231, 1002-1068). The virtual-keyboard property is still one of the objects `destroy` releases.
- Start-up: `ibus_m17n_init`, GType registration, `class_init` reading the IBus configuration, and the constructor opening the m17n input method. This is plumbing around foreign services.
  - The class's values are inputs to the model (`Presentation.EngineClass`). The session's context is an input too (`Engine.Session`).
  - src/engine.c:481 writes the configured underline into `preedit_background`. This is not modelled, since the configuration read is left out.
- The property list and widgets, the GTK dialog, m17n variable editing, `parse_m17n_value` and `save_m17n_options`. These are GUI code and foreign m17n plist calls.
- MText conversion to UTF-8 and UCS-4. Text is `seq<char>`. A failed conversion is an `Option` where the engine checks for NULL: the preedit, the status and the produced text.
  - A candidate that fails to convert is shown as "NULL" or "INVCODE=…". The model treats candidates as already converted.
- `ibus_m17n_list_engines`, `ibus_m17n_engine_new` and the file reading in `get_component`. These are foreign m17n and IBus calls. The XML document is an input to `M17nUtil.LoadConfigList`.
- m17n's filter, lookup and `create_ic` are oracles.
  - A callback that m17n makes during filter or lookup is modelled on its own, through `Callback.Dispatch`.
  - The context state that such a callback leaves behind is an input.
- `gdk_color_parse` is an oracle of `Setup.LoadColor`. `HAVE_SETUP` is taken as enabled, so the setup property is one of the objects `destroy` releases.
- engine/engine.py is a Python stub whose methods do nothing. src/test.c is a test driver for installed data.
- Warnings, critical messages and all memory management are left out. So are the C string's NUL termination and the config `name` being NULL: a node without a name is taken to match no engine.
- Callback.Dispatch: for `GetSurrounding` the model requires the host's cursor to lie inside its surrounding text (`Callback.Admissible`), and `Callback.SurroundingExcerpt` requires the same. The C code (src/engine.c:1235-1256) does not check `cursor_pos` against `nchars`. For a cursor past the end, a negative length makes it call `mtext_duplicate` with an end beyond the text, and a positive length makes it call it with a start after its end. The model does not say what m17n returns then.
- Callback.SurroundingExcerpt: the C code adds a `guint` cursor to an `int` length. The model uses unbounded integers, so it does not model the wrap-around when the sum leaves 32 bits.
- Names.ScanClassName: for "IBusM17NEngine" the C scan reads one character before the copied body before failing. The model reports that name as not scannable and does not model the read.
- Setup.ColorToString: `_gdk_color_to_string` (src/setup.c:372-379) formats the string but has no `return`. The model returns the formatted string, which is what `save_color` evidently expects.
- M17nUtil.LoadConfigList: a second load reverses the entries of the earlier load (`M17nUtil.ReverseAppend`). The model states this and does not change it; the engine loads once.
- Presentation.ConfigValueChanged: uses the corrected `M17nUtil.ParseColor`. The handler as written calls `ibus_m17n_parse_color`, which would store the wrapped value of a colour of 9 to 16 hex digits (0 for "#100000000"); see Findings and `Presentation.ColorChangeRejectsWrapped`.
- The configuration-variable listing in `ibus_m17n_list_engines` tests `varcharset != Mcoding_utf_8 || varcharset != Mcoding_utf_8_full` (src/m17nutil.c:219-220), which is always true. That code is foreign m17n plist handling and is not modelled.
- Paginator.Paginate: the model requires the index to lie inside the list, which m17n maintains (`Callback.CandidatesConsistent`). Outside it the C code (src/engine.c:1087-1100, 1148) misbehaves in two ways that are not modelled: an index at or beyond the total runs the search loop past the last group, and a negative index stops at the first group and sets a negative cursor.

## Findings

| source | as written | input that shows it | evidently intended | confidence | as-written member | corrected member |
|---|---|---|---|---|---|---|
| src/m17nutil.c:97-102 | `strtoul`'s `unsigned long` result is stored in a `guint` before the guard. With 64-bit `long`, `color == ULONG_MAX` can never hold, so the guard never fires. A value of 9 to 16 hex digits is silently reduced to its low 32 bits | "#100000000" parses to 0, which is black, instead of being rejected | a value that does not fit in a colour is INVALID_COLOR | not executed | M17nUtil.ParseColorAsWritten (shown by M17nUtil.ParseColorWrapsAsWritten) | M17nUtil.ParseColor (M17nUtil.ParseColorAgrees, M17nUtil.ParseColorHexRun) |
