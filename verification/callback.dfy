/** `ibus_m17n_engine_callback` (src/engine.c): m17n calls back into the
    engine with one of a closed set of commands; each command becomes a
    sequence of calls on the host. */
module Callback {
  import opened Common
  import opened Host
  import Paginator
  import Presentation
  import Engine

  /** The callback commands the engine registers (and the reset command,
      which it leaves to m17n's default but still recognises). */
  datatype Command =
    | PreeditStart | PreeditDraw | PreeditDone
    | StatusStart | StatusDraw | StatusDone
    | CandidatesStart | CandidatesDraw | CandidatesDone
    | SetSpot | Toggle | ResetCommand
    | GetSurrounding | DeleteSurrounding

  /** What ibus_engine_get_surrounding_text hands back: the text around the
      cursor and the cursor's character offset in it. */
  datatype Surrounding = Surrounding(text: string, cursor: nat)

  /** The status property after a status-draw: shown, with the status as
      its caption, iff the status converts, is non-empty and differs from the
      engine's title (a missing title differs from every status). */
  function StatusPropFor(title: Option<string>, status: Option<string>): (p: StatusProp)
    ensures p.visible <==> p.caption.Some?
    ensures p.visible ==> p.caption == status
  {
    if status.Some? && |status.value| > 0 && (title.None? || status.value != title.value)
    then StatusProp(status, true) else StatusProp(None, false)
  }

  /** The part of the surrounding text m17n asked for with the signed length
      `len`: up to -len characters before the cursor, up to len after it,
      clipped to the text; nothing when len is 0. */
  function SurroundingExcerpt(text: string, cursor: nat, len: int): (r: string)
    requires cursor <= |text|
    ensures len < 0 ==> r == text[Max(cursor + len, 0)..cursor]
    ensures len > 0 ==> r == text[cursor..Min(cursor + len, |text|)]
    ensures len == 0 ==> r == []
    ensures |r| == (if len < 0 then Min(-len, cursor) else if len > 0 then Min(len, |text| - cursor) else 0)
  {
    if len < 0 then
      var pos := if cursor + len < 0 then 0 else cursor + len;
      text[pos..cursor]
    else if len > 0 then
      var pos := if cursor + len > |text| then |text| else cursor + len;
      text[cursor..pos]
    else []
  }

  /** The delete request for the signed length `len`: (len, -len) when
      negative, (0, len) when positive, none when zero. */
  function DeleteRequest(len: int): (r: seq<Effect>)
    ensures len == 0 <==> r == []
    ensures len != 0 ==> |r| == 1 && r[0].DeleteSurroundingText? && r[0].nchars == if len < 0 then -len else len
    ensures len != 0 ==> r[0].nchars > 0 && (r[0].offset == 0 || r[0].offset == -r[0].nchars)
  {
    if len < 0 then [DeleteSurroundingText(len, -len)]
    else if len > 0 then [DeleteSurroundingText(0, len)]
    else []
  }

  /** The callback needs the candidate index to lie inside the list whenever
      a list is shown (m17n maintains this). */
  predicate CandidatesConsistent(ctx: ImContext)
  {
    ctx.candidateList.Some? && ctx.candidateShow ==>
      0 <= ctx.candidateIndex < Paginator.Total(ctx.candidateList.value)
  }

  predicate CanSurround(s: Engine.Session) { s.capabilities & CAP_SURROUNDING_TEXT != 0 }

  /** What the callback relies on for the one command that reads it: a
      consistent candidate index for the candidate draw, a cursor inside the
      host's text for the surrounding-text read. */
  predicate Admissible(ctx: ImContext, cmd: Command, host: Surrounding)
  {
    && (cmd == CandidatesDraw ==> CandidatesConsistent(ctx))
    && (cmd == GetSurrounding ==> host.cursor <= |host.text|)
  }

  /** ibus_m17n_engine_callback for the context `from`, whose state (as the
      session reads it through its own context) is `ctx`. A session without
      a context adopts `from` first. */
  function Dispatch(cls: Presentation.EngineClass, s: Engine.Session, from: nat, ctx: ImContext,
                    cmd: Command, host: Surrounding): (r: (Engine.Session, seq<Effect>))
    requires Admissible(ctx, cmd, host)
    ensures r.0.context == if s.context.None? then Some(from) else s.context
    ensures r.0.held == s.held && r.0.capabilities == s.capabilities
    ensures cmd != StatusDraw ==> r.0.status == s.status
    ensures cmd in {PreeditStart, PreeditDone, StatusStart} ==> r.1 == [HidePreedit]
    ensures cmd in {CandidatesStart, CandidatesDone} ==> r.1 == [HideLookupTable, HideAuxiliaryText]
    ensures cmd in {StatusDone, SetSpot, Toggle, ResetCommand} ==> r.1 == []
    ensures cmd in {GetSurrounding, DeleteSurrounding} && !CanSurround(s) ==> r.1 == []
    ensures cmd == PreeditDraw ==> r.1 == Presentation.PreeditDraw(cls.style, ctx)
    ensures cmd == StatusDraw ==>
              r.0.status == StatusPropFor(cls.title, ctx.status) && r.1 == [UpdateProperty(r.0.status)]
    ensures cmd == CandidatesDraw ==> r.1 == Paginator.RefreshCandidates(ctx, cls.style)
    ensures cmd == GetSurrounding && CanSurround(s) ==>
              r.1 == [ProvideSurroundingText(SurroundingExcerpt(host.text, host.cursor, ctx.surroundingRequest))]
    ensures cmd == DeleteSurrounding && CanSurround(s) ==> r.1 == DeleteRequest(ctx.surroundingRequest)
  {
    var s1 := if s.context.None? then s.(context := Some(from)) else s;
    match cmd
    case PreeditStart => (s1, [HidePreedit])
    case PreeditDraw => (s1, Presentation.PreeditDraw(cls.style, ctx))
    case PreeditDone => (s1, [HidePreedit])
    case StatusStart => (s1, [HidePreedit])
    case StatusDraw =>
      var prop := StatusPropFor(cls.title, ctx.status);
      (s1.(status := prop), [UpdateProperty(prop)])
    case StatusDone => (s1, [])
    case CandidatesStart => (s1, [HideLookupTable, HideAuxiliaryText])
    case CandidatesDraw => (s1, Paginator.RefreshCandidates(ctx, cls.style))
    case CandidatesDone => (s1, [HideLookupTable, HideAuxiliaryText])
    case SetSpot => (s1, [])
    case Toggle => (s1, [])
    case ResetCommand => (s1, [])
    case GetSurrounding =>
      if CanSurround(s1) then
        (s1, [ProvideSurroundingText(SurroundingExcerpt(host.text, host.cursor, ctx.surroundingRequest))])
      else (s1, [])
    case DeleteSurrounding =>
      if CanSurround(s1) then (s1, DeleteRequest(ctx.surroundingRequest)) else (s1, [])
  }

  // ---------------------------------------------------------------------
  // Properties
  // ---------------------------------------------------------------------

  /** The context binding happens once: a bound session keeps its context
      whatever context calls back later, and an unbound one takes the
      caller's. */
  lemma BindingIsStable(cls: Presentation.EngineClass, s: Engine.Session, a: nat, b: nat, ctx: ImContext,
                        c1: Command, c2: Command, host: Surrounding)
    requires Admissible(ctx, c1, host) && Admissible(ctx, c2, host)
    ensures var s1 := Dispatch(cls, s, a, ctx, c1, host).0;
            var s2 := Dispatch(cls, s1, b, ctx, c2, host).0;
            s2.context == s1.context && (s.context.None? ==> s2.context == Some(a))
  {
  }

  /** Status-draw always updates the property, and the property shown is
      exactly the status when it is a non-empty text other than the title;
      otherwise it is hidden with no caption. */
  lemma StatusDrawRule(cls: Presentation.EngineClass, s: Engine.Session, from: nat, ctx: ImContext, host: Surrounding)
    ensures var (s1, effects) := Dispatch(cls, s, from, ctx, StatusDraw, host);
            && effects == [UpdateProperty(s1.status)]
            && (s1.status.visible <==>
                  ctx.status.Some? && ctx.status.value != [] && ctx.status != cls.title)
            && (s1.status.visible ==> s1.status.caption == ctx.status)
            && (!s1.status.visible ==> s1.status == StatusProp(None, false))
  {
  }

  /** Reading and deleting with the same unclipped length cover the same
      characters: the excerpt m17n receives is exactly the span the delete
      request names relative to the cursor. */
  lemma ExcerptMatchesDelete(text: string, cursor: nat, len: int)
    requires cursor <= |text| && len != 0
    requires 0 <= cursor + len <= |text|
    ensures var d := DeleteRequest(len)[0];
            0 <= cursor + d.offset <= cursor + d.offset + d.nchars <= |text|
            && SurroundingExcerpt(text, cursor, len) == text[cursor + d.offset .. cursor + d.offset + d.nchars]
  {
  }

  /** The two surrounding-text commands agree: when the client can handle
      them and the request fits the text, the excerpt get hands to m17n is
      exactly the span delete asks the host to remove, relative to the
      cursor. */
  lemma GetAndDeleteAgree(cls: Presentation.EngineClass, s: Engine.Session, from: nat, ctx: ImContext,
                          host: Surrounding)
    requires CanSurround(s) && ctx.surroundingRequest != 0
    requires host.cursor <= |host.text| && 0 <= host.cursor + ctx.surroundingRequest <= |host.text|
    ensures var g := Dispatch(cls, s, from, ctx, GetSurrounding, host).1;
            var d := Dispatch(cls, s, from, ctx, DeleteSurrounding, host).1;
            && |g| == 1 && g[0].ProvideSurroundingText? && |d| == 1 && d[0].DeleteSurroundingText?
            && 0 <= host.cursor + d[0].offset <= host.cursor + d[0].offset + d[0].nchars <= |host.text|
            && g[0].excerpt == host.text[host.cursor + d[0].offset .. host.cursor + d[0].offset + d[0].nchars]
  {
    ExcerptMatchesDelete(host.text, host.cursor, ctx.surroundingRequest);
  }

  /** Clipping: asking for more text than there is before (or after) the
      cursor yields everything before (or after) it. */
  lemma ExcerptClips(text: string, cursor: nat, len: int)
    requires cursor <= |text|
    ensures len < 0 && cursor + len <= 0 ==> SurroundingExcerpt(text, cursor, len) == text[..cursor]
    ensures len > 0 && cursor + len >= |text| ==> SurroundingExcerpt(text, cursor, len) == text[cursor..]
  {
  }

  /** The surrounding-text commands touch the host only when the client has
      announced the capability: then get answers exactly once and delete
      issues at most one request. */
  lemma SurroundingNeedsCapability(cls: Presentation.EngineClass, s: Engine.Session, from: nat, ctx: ImContext,
                                   host: Surrounding)
    requires host.cursor <= |host.text|
    ensures var g := Dispatch(cls, s, from, ctx, GetSurrounding, host).1;
            (g != [] <==> CanSurround(s)) && |g| <= 1
    ensures var d := Dispatch(cls, s, from, ctx, DeleteSurrounding, host).1;
            (d != [] <==> CanSurround(s) && ctx.surroundingRequest != 0) && |d| <= 1
  {
  }

  /** Every command that starts or ends a display phase hides what it
      concerns, and the draw commands show the current state: the candidate
      draw shows a page iff a list is to be shown. */
  lemma CandidatesDrawShowsPage(cls: Presentation.EngineClass, s: Engine.Session, from: nat, ctx: ImContext,
                                host: Surrounding)
    requires CandidatesConsistent(ctx)
    ensures var e := Dispatch(cls, s, from, ctx, CandidatesDraw, host).1;
            ctx.candidateList.Some? && ctx.candidateShow ==>
              var p := Paginator.Paginate(ctx.candidateList.value, ctx.candidateIndex, cls.style.orientation);
              e == [UpdateLookupTable(p.table, true), UpdateAuxiliaryText(p.aux, true)]
    ensures var e := Dispatch(cls, s, from, ctx, CandidatesDraw, host).1;
            !(ctx.candidateList.Some? && ctx.candidateShow) ==> e == [HideLookupTable, HideAuxiliaryText]
  {
  }
}
