/** What the engine of src/engine.c sees of its two collaborators: the
    observable state of an m17n input context, the per-class style, and the
    calls it makes on the IBus host (and on m17n), recorded as a trace of
    effects in call order. */
module Host {
  import opened Common

  /** INVALID_COLOR ((guint)-1) and the default highlight colours (src/m17nutil.h). */
  const INVALID_COLOR: uint32 := 0xFFFF_FFFF
  const PREEDIT_FOREGROUND: uint32 := 0x0000_0000
  const PREEDIT_BACKGROUND: uint32 := 0x00c8_c8f0

  /** IBUS_CAP_SURROUNDING_TEXT (ibustypes.h). */
  const CAP_SURROUNDING_TEXT: bv32 := 0x20

  /** One entry of m17n's candidate list: an M-text whose characters are the
      candidates, or a plist of M-texts. */
  datatype Group = Flat(chars: seq<char>) | Nested(items: seq<string>)

  /** The fields of an m17n `MInputContext` the bridge reads. `surroundingRequest`
      is the signed length m17n leaves in `plist` before asking for, or
      deleting, surrounding text. */
  datatype ImContext = ImContext(
    preedit: Option<string>,
    cursorPos: int,
    candidateList: Option<seq<Group>>,
    candidateIndex: int,
    candidateShow: bool,
    status: Option<string>,
    surroundingRequest: int)

  /** Per-class presentation settings (the configuration fields of
      `IBusM17NEngineClass`). */
  datatype Style = Style(foreground: uint32, background: uint32, underline: int, orientation: int)

  datatype AttrKind = Underline | Foreground | Background

  /** An IBus text attribute over [start, end); end -1 means "to the end". */
  datatype Attr = Attr(kind: AttrKind, value: int, start: int, end: int)

  datatype StyledText = StyledText(text: string, attrs: seq<Attr>)

  datatype LookupTable = LookupTable(pageSize: nat, candidates: seq<string>, cursorPos: int, orientation: int)

  /** The "status" property of a session. */
  datatype StatusProp = StatusProp(caption: Option<string>, visible: bool)

  /** IBusEngine handlers of the parent class that the bridge chains up to. */
  datatype ParentOp = ParentFocusIn | ParentFocusOut | ParentReset | ParentEnable | ParentDisable
                    | ParentPageUp | ParentPageDown | ParentCursorUp | ParentCursorDown | ParentDestroy

  /** Objects a session holds a reference to. */
  datatype Resource = PropList | StatusPropRef | SetupProp | VirtkbdProp | Table

  /** One outward call, in the order it is made. */
  datatype Effect =
    | CommitText(text: string)
    | UpdatePreedit(preedit: StyledText, cursor: int, visible: bool)
    | HidePreedit
    | UpdateLookupTable(table: LookupTable, visible: bool)
    | HideLookupTable
    | UpdateAuxiliaryText(aux: string, visible: bool)
    | HideAuxiliaryText
    | UpdateProperty(prop: StatusProp)
    | RegisterProperties
    | RequestSurroundingText
    | ProvideSurroundingText(excerpt: string)
    | DeleteSurroundingText(offset: int, nchars: int)
    | ResetContext
    | DestroyContext
    | Release(res: Resource)
    | Chain(op: ParentOp)
}
