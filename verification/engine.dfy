/** The key pipeline and the lifecycle handlers of an IBusM17NEngine
    (src/engine.c). m17n's `minput_filter` and `minput_lookup` are oracles;
    the context state passed alongside is the one m17n leaves behind after
    them, which is what the preedit redraw reads. */
module Engine {
  import opened Common
  import opened Host
  import KeyEvent
  import Presentation

  /** What minput_lookup reports: its return value and the text it produced
      (None when the produced M-text cannot be converted to UTF-8). */
  datatype LookupResult = LookupResult(status: int, produced: Option<string>)

  /** The two m17n entry points a key goes through, for the session's context. */
  datatype M17n = M17n(filter: string -> bool, lookup: string -> LookupResult)

  /** The m17n pseudo-keys the engine sends on focus changes and navigation. */
  const FOCUS_IN_KEY := "input-focus-in"
  const FOCUS_OUT_KEY := "input-focus-out"

  /** Answer of a key handler: whether the key was consumed, and the calls
      made on the host, in order. */
  datatype Outcome = Outcome(handled: bool, effects: seq<Effect>)

  /** ibus_m17n_engine_process_key: a key the filter consumes is handled with
      nothing committed; otherwise non-empty lookup output is committed (and
      the preedit redrawn), and the key counts as handled iff lookup returned 0. */
  function ProcessKey(m: M17n, style: Style, ctx: ImContext, key: string): (r: Outcome)
    ensures m.filter(key) ==> r == Outcome(true, [])
    ensures !m.filter(key) ==> (r.handled <==> m.lookup(key).status == 0)
    ensures (exists t :: CommitText(t) in r.effects) <==>
            !m.filter(key) && m.lookup(key).produced.Some? && |m.lookup(key).produced.value| > 0
    ensures forall t :: CommitText(t) in r.effects ==> t == m.lookup(key).produced.value
    ensures r.effects != [] ==> r.effects[0].CommitText?
    ensures var out := m.lookup(key).produced;
            !m.filter(key) && out.Some? && |out.value| > 0 ==>
              r.effects == Presentation.CommitString(style, ctx, out.value)
    ensures r.effects != [] ==> r.effects[1..] == Presentation.PreeditDraw(style, ctx)
  {
    if m.filter(key) then Outcome(true, [])
    else
      var res := m.lookup(key);
      var effects := if res.produced.Some? && |res.produced.value| > 0
                     then Presentation.CommitString(style, ctx, res.produced.value) else [];
      assert forall e :: e in Presentation.PreeditDraw(style, ctx) ==> e.UpdatePreedit?;
      Outcome(res.status == 0, effects)
  }

  /** ibus_m17n_engine_process_key_event: key releases and keys without an
      m17n name are not consumed and cause nothing; any other key goes
      through ProcessKey under its m17n name. */
  function ProcessKeyEvent(m: M17n, style: Style, ctx: ImContext, keyval: KeyEvent.Keyval, keycode: KeyEvent.Keycode,
                           mods: bv32, us: KeyEvent.UsKeymap, names: KeyEvent.KeyvalNames): (r: Outcome)
    ensures KeyEvent.Has(mods, KeyEvent.RELEASE_MASK) ==> r == Outcome(false, [])
    ensures KeyEvent.IsModifierKeyval(keyval) ==> r == Outcome(false, [])
    ensures !KeyEvent.Has(mods, KeyEvent.RELEASE_MASK) ==>
              match KeyEvent.Encode(keycode, keyval, mods, us, names)
              case None => r == Outcome(false, [])
              case Some(sym) =>
                && (r.handled <==> m.filter(sym) || m.lookup(sym).status == 0)
                && (m.filter(sym) ==> r.effects == [])
                && CommitsRedrawn(m, style, ctx, sym, r.effects)
                && ((exists t :: CommitText(t) in r.effects) <==> Produces(m, sym))
                && (forall i :: 0 <= i < |r.effects| ==> !r.effects[i].Chain?)
                && (forall i :: 0 < i < |r.effects| ==> !r.effects[i].CommitText?)
                && (!Produces(m, sym) ==> r.effects == [])
                && (Produces(m, sym) ==>
                      r.effects == Presentation.CommitString(style, ctx, m.lookup(sym).produced.value))
                && r == ProcessKey(m, style, ctx, sym)
  {
    if KeyEvent.Has(mods, KeyEvent.RELEASE_MASK) then Outcome(false, [])
    else match KeyEvent.Encode(keycode, keyval, mods, us, names)
      case None => Outcome(false, [])
      case Some(sym) =>
        KeyEffectsShape(m, style, ctx, sym);
        ProcessKey(m, style, ctx, sym)
  }

  /** A letter pressed with Control (and no modifier that is always
      recorded) reaches m17n as "C-" and the upper-cased letter, and the
      answer is m17n's. */
  lemma ControlKeyReachesM17n(m: M17n, style: Style, ctx: ImContext, keyval: KeyEvent.Keyval, keycode: KeyEvent.Keycode,
                              mods: bv32, us: KeyEvent.UsKeymap, names: KeyEvent.KeyvalNames)
    requires KeyEvent.KEY_LOWER_A <= keyval <= KeyEvent.KEY_LOWER_Z
    requires KeyEvent.Has(mods, KeyEvent.CONTROL_MASK) && mods & KeyEvent.ALWAYS_RECORDED == 0
    requires !KeyEvent.Has(mods, KeyEvent.RELEASE_MASK)
    ensures ProcessKeyEvent(m, style, ctx, keyval, keycode, mods, us, names)
            == ProcessKey(m, style, ctx, "C-" + [ToUpper(keyval as char)])
  {
    KeyEvent.ControlUppercasesLetter(keycode, keyval, mods, us, names);
  }

  // ---------------------------------------------------------------------
  // What the handlers' traces promise
  // ---------------------------------------------------------------------

  /** Every commit in `e` is m17n's produced text for `key`, and the preedit
      redraw follows it at once. */
  predicate CommitsRedrawn(m: M17n, style: Style, ctx: ImContext, key: string, e: seq<Effect>)
  {
    var redraw := Presentation.PreeditDraw(style, ctx);
    forall i :: 0 <= i < |e| && e[i].CommitText? ==>
      Some(e[i].text) == m.lookup(key).produced
      && i + 1 + |redraw| <= |e| && e[i + 1..i + 1 + |redraw|] == redraw
  }

  /** The handler chains up to `op` once, as its last act. */
  predicate ChainsUpLast(e: seq<Effect>, op: ParentOp)
  {
    |e| > 0 && e[|e| - 1] == Chain(op) && forall i :: 0 <= i < |e| - 1 ==> !e[i].Chain?
  }

  /** The handler chains up to `op` once, as its first act. */
  predicate ChainsUpFirst(e: seq<Effect>, op: ParentOp)
  {
    |e| > 0 && e[0] == Chain(op) && forall i :: 0 < i < |e| ==> !e[i].Chain?
  }

  /** Whether m17n commits text for `key`. */
  predicate Produces(m: M17n, key: string)
  {
    !m.filter(key) && m.lookup(key).produced.Some? && |m.lookup(key).produced.value| > 0
  }

  /** What one key sent to m17n contributes to a trace: at most one commit,
      first, of m17n's text and followed by the redraw; no chain-up and no
      property registration. */
  lemma KeyEffectsShape(m: M17n, style: Style, ctx: ImContext, key: string)
    ensures var e := ProcessKey(m, style, ctx, key).effects;
            && CommitsRedrawn(m, style, ctx, key, e)
            && (forall i :: 0 <= i < |e| ==> !e[i].Chain? && e[i] != RegisterProperties)
            && (forall i :: 0 < i < |e| ==> !e[i].CommitText?)
  {
    var e := ProcessKey(m, style, ctx, key).effects;
    if Produces(m, key) {
      var out := m.lookup(key).produced.value;
      var redraw := Presentation.PreeditDraw(style, ctx);
      assert e == [CommitText(out)] + redraw;
      assert e[1..1 + |redraw|] == redraw;
      forall i | 0 < i < |e|
        ensures e[i].UpdatePreedit?
      {
        assert e[i] == redraw[i - 1];
      }
    } else {
      assert e == [];
    }
  }

  /** Surrounding a key's effects with effects that commit nothing keeps
      every commit followed by its redraw. */
  lemma CommitsRedrawnFramed(m: M17n, style: Style, ctx: ImContext, key: string,
                             pre: seq<Effect>, e: seq<Effect>, post: seq<Effect>)
    requires CommitsRedrawn(m, style, ctx, key, e)
    requires forall i :: 0 <= i < |pre| ==> !pre[i].CommitText?
    requires forall i :: 0 <= i < |post| ==> !post[i].CommitText?
    ensures CommitsRedrawn(m, style, ctx, key, pre + e + post)
  {
    var w := pre + e + post;
    var redraw := Presentation.PreeditDraw(style, ctx);
    assert forall i :: 0 <= i < |pre| ==> w[i] == pre[i];
    assert forall i :: |pre| + |e| <= i < |w| ==> w[i] == post[i - |pre| - |e|];
    forall i | |pre| <= i < |pre| + |e| && w[i].CommitText?
      ensures Some(w[i].text) == m.lookup(key).produced
      ensures i + 1 + |redraw| <= |w| && w[i + 1..i + 1 + |redraw|] == redraw
    {
      var j := i - |pre|;
      assert w[i] == e[j];
      assert e[j + 1..j + 1 + |redraw|] == redraw;
      assert w[i + 1..i + 1 + |redraw|] == e[j + 1..j + 1 + |redraw|];
    }
  }

  /** The shape shared by the handlers that send one key to m17n and then
      chain up. */
  lemma KeyThenChainTrace(m: M17n, style: Style, ctx: ImContext, key: string, op: ParentOp)
    ensures var r := ProcessKey(m, style, ctx, key).effects + [Chain(op)];
            && ChainsUpLast(r, op)
            && CommitsRedrawn(m, style, ctx, key, r)
            && ((exists t :: CommitText(t) in r) <==> Produces(m, key))
  {
    var e := ProcessKey(m, style, ctx, key).effects;
    var r := e + [Chain(op)];
    KeyEffectsShape(m, style, ctx, key);
    assert ChainsUpLast(r, op) by {
      assert forall i :: 0 <= i < |r| - 1 ==> r[i] == e[i];
    }
    assert CommitsRedrawn(m, style, ctx, key, r) by {
      assert r == [] + e + [Chain(op)];
      CommitsRedrawnFramed(m, style, ctx, key, [], e, [Chain(op)]);
    }
    if Produces(m, key) {
      assert r[0] == CommitText(m.lookup(key).produced.value);
    } else {
      assert e == [];
      assert r == [Chain(op)];
    }
  }

  /** ibus_m17n_engine_focus_in: register the properties, send the focus-in
      pseudo-key, chain up. */
  function FocusIn(m: M17n, style: Style, ctx: ImContext): (r: seq<Effect>)
    ensures |r| >= 2 && r[0] == RegisterProperties && r[|r| - 1] == Chain(ParentFocusIn)
    ensures r[1..|r| - 1] == ProcessKey(m, style, ctx, FOCUS_IN_KEY).effects
  {
    [RegisterProperties] + ProcessKey(m, style, ctx, FOCUS_IN_KEY).effects + [Chain(ParentFocusIn)]
  }

  /** ibus_m17n_engine_focus_out: send the focus-out pseudo-key, chain up. */
  function FocusOut(m: M17n, style: Style, ctx: ImContext): (r: seq<Effect>)
    ensures |r| >= 1 && r[|r| - 1] == Chain(ParentFocusOut)
    ensures r[..|r| - 1] == ProcessKey(m, style, ctx, FOCUS_OUT_KEY).effects
  {
    ProcessKey(m, style, ctx, FOCUS_OUT_KEY).effects + [Chain(ParentFocusOut)]
  }

  /** ibus_m17n_engine_reset: chain up first, then reset the m17n context. */
  function Reset(): (r: seq<Effect>)
    ensures r == [Chain(ParentReset), ResetContext]
  {
    [Chain(ParentReset), ResetContext]
  }

  /** ibus_m17n_engine_enable: chain up, then ask for surrounding text once so
      the client knows the engine uses it. */
  function Enable(): (r: seq<Effect>)
    ensures r == [Chain(ParentEnable), RequestSurroundingText]
  {
    [Chain(ParentEnable), RequestSurroundingText]
  }

  /** ibus_m17n_engine_disable: a full focus-out, then chain up. */
  function Disable(m: M17n, style: Style, ctx: ImContext): (r: seq<Effect>)
    ensures |r| >= 2 && r[|r| - 1] == Chain(ParentDisable) && r[|r| - 2] == Chain(ParentFocusOut)
  {
    FocusOut(m, style, ctx) + [Chain(ParentDisable)]
  }

  /** Disabling is exactly focusing out followed by the parent's disable. */
  lemma DisableIsFocusOutFirst(m: M17n, style: Style, ctx: ImContext)
    ensures var r := Disable(m, style, ctx);
            r[..|r| - 1] == FocusOut(m, style, ctx)
  {
  }

  /** Focusing in registers the properties first and chains up last and
      only then; between them the focus-in key may commit only m17n's text,
      which the preedit redraw follows at once, and commits iff m17n
      produces text for it. */
  lemma FocusInTrace(m: M17n, style: Style, ctx: ImContext)
    ensures var r := FocusIn(m, style, ctx);
            && r[0] == RegisterProperties
            && ChainsUpLast(r, ParentFocusIn)
            && CommitsRedrawn(m, style, ctx, FOCUS_IN_KEY, r)
            && ((exists t :: CommitText(t) in r) <==> Produces(m, FOCUS_IN_KEY))
  {
    var e := ProcessKey(m, style, ctx, FOCUS_IN_KEY).effects;
    var r := FocusIn(m, style, ctx);
    assert r == [RegisterProperties] + e + [Chain(ParentFocusIn)];
    KeyEffectsShape(m, style, ctx, FOCUS_IN_KEY);
    assert ChainsUpLast(r, ParentFocusIn) by {
      assert forall i :: 0 < i < |r| - 1 ==> r[i] == e[i - 1];
    }
    assert CommitsRedrawn(m, style, ctx, FOCUS_IN_KEY, r) by {
      CommitsRedrawnFramed(m, style, ctx, FOCUS_IN_KEY, [RegisterProperties], e, [Chain(ParentFocusIn)]);
    }
    if Produces(m, FOCUS_IN_KEY) {
      assert r[1] == CommitText(m.lookup(FOCUS_IN_KEY).produced.value);
    } else {
      assert e == [];
      assert r == [RegisterProperties, Chain(ParentFocusIn)];
    }
  }

  /** Focusing out sends the focus-out key and chains up last and only then;
      a commit is m17n's text followed at once by the redraw. */
  lemma FocusOutTrace(m: M17n, style: Style, ctx: ImContext)
    ensures var r := FocusOut(m, style, ctx);
            && ChainsUpLast(r, ParentFocusOut)
            && CommitsRedrawn(m, style, ctx, FOCUS_OUT_KEY, r)
            && ((exists t :: CommitText(t) in r) <==> Produces(m, FOCUS_OUT_KEY))
  {
    KeyThenChainTrace(m, style, ctx, FOCUS_OUT_KEY, ParentFocusOut);
  }

  /** Reset and enable chain up first and only then, and send no key to
      m17n: they commit nothing and do not redraw the preedit. */
  lemma ResetEnableChainFirst()
    ensures ChainsUpFirst(Reset(), ParentReset) && ChainsUpFirst(Enable(), ParentEnable)
    ensures forall e :: e in Reset() + Enable() ==> !e.CommitText? && !e.UpdatePreedit?
  {
  }

  /** Disabling ends with the two chain-ups, focus-out before disable, and
      chains up nowhere else; its commits are the focus-out key's. */
  lemma DisableTrace(m: M17n, style: Style, ctx: ImContext)
    ensures var r := Disable(m, style, ctx);
            && |r| >= 2 && r[|r| - 2] == Chain(ParentFocusOut) && r[|r| - 1] == Chain(ParentDisable)
            && (forall i :: 0 <= i < |r| - 2 ==> !r[i].Chain?)
            && CommitsRedrawn(m, style, ctx, FOCUS_OUT_KEY, r)
  {
    var e := ProcessKey(m, style, ctx, FOCUS_OUT_KEY).effects;
    KeyEffectsShape(m, style, ctx, FOCUS_OUT_KEY);
    CommitsRedrawnFramed(m, style, ctx, FOCUS_OUT_KEY, [], e, [Chain(ParentFocusOut), Chain(ParentDisable)]);
    var r := Disable(m, style, ctx);
    assert r == [] + e + [Chain(ParentFocusOut), Chain(ParentDisable)];
    assert forall i :: 0 <= i < |r| - 2 ==> r[i] == e[i];
  }

  /** The four navigation requests of the lookup table. */
  datatype Navigation = PageUp | PageDown | CursorUp | CursorDown

  /** The m17n key each request is turned into: pages go up and down,
      cursor moves go left and right. */
  function NavigationKey(n: Navigation): string
  {
    match n
    case PageUp => "Up"
    case PageDown => "Down"
    case CursorUp => "Left"
    case CursorDown => "Right"
  }

  function NavigationParent(n: Navigation): ParentOp
  {
    match n
    case PageUp => ParentPageUp
    case PageDown => ParentPageDown
    case CursorUp => ParentCursorUp
    case CursorDown => ParentCursorDown
  }

  /** ibus_m17n_engine_page_up / page_down / cursor_up / cursor_down: send the
      request's key to m17n, then chain up. */
  function Navigate(m: M17n, style: Style, ctx: ImContext, n: Navigation): (r: seq<Effect>)
    ensures |r| >= 1 && r[|r| - 1] == Chain(NavigationParent(n))
    ensures r[..|r| - 1] == ProcessKey(m, style, ctx, NavigationKey(n)).effects
  {
    ProcessKey(m, style, ctx, NavigationKey(n)).effects + [Chain(NavigationParent(n))]
  }

  /** A navigation request chains up to its own parent handler last and
      only then; before that, its key may commit only m17n's text, followed
      at once by the redraw, and commits iff m17n produces text for it. */
  lemma NavigateTrace(m: M17n, style: Style, ctx: ImContext, n: Navigation)
    ensures var r := Navigate(m, style, ctx, n);
            && ChainsUpLast(r, NavigationParent(n))
            && CommitsRedrawn(m, style, ctx, NavigationKey(n), r)
            && ((exists t :: CommitText(t) in r) <==> Produces(m, NavigationKey(n)))
    ensures forall b :: b != n ==> NavigationKey(b) != NavigationKey(n) && NavigationParent(b) != NavigationParent(n)
  {
    KeyThenChainTrace(m, style, ctx, NavigationKey(n), NavigationParent(n));
    forall b | b != n
      ensures NavigationKey(b) != NavigationKey(n) && NavigationParent(b) != NavigationParent(n)
    {
      NavigationDistinct(b, n);
    }
  }

  lemma NavigationDistinct(a: Navigation, b: Navigation)
    requires a != b
    ensures NavigationKey(a) != NavigationKey(b) && NavigationParent(a) != NavigationParent(b)
  {
  }

  // ---------------------------------------------------------------------
  // Destruction
  // ---------------------------------------------------------------------

  /** The per-session state of an IBusM17NEngine: its m17n context (bound
      lazily, see the callback), the objects it holds, its status property
      and the client's capability bits. */
  datatype Session = Session(context: Option<nat>, held: set<Resource>, status: StatusProp, capabilities: bv32)

  /** The order in which destroy drops its references. */
  const RELEASE_ORDER: seq<Resource> := [PropList, StatusPropRef, SetupProp, VirtkbdProp, Table]

  /** Drop, in the given order, each reference that is still held. */
  function Releases(held: set<Resource>, order: seq<Resource>): (r: seq<Effect>)
    ensures forall e :: e in r ==> e.Release?
    ensures forall res :: Release(res) in r <==> res in held && res in order
    ensures (forall i, j :: 0 <= i < j < |order| ==> order[i] != order[j]) ==>
              forall res :: multiset(r)[Release(res)] <= 1
  {
    if |order| == 0 then []
    else
      var rest := Releases(held, order[1..]);
      assert order == [order[0]] + order[1..];
      if order[0] in held then [Release(order[0])] + rest else rest
  }

  lemma EveryResourceInOrder()
    ensures forall res: Resource :: res in RELEASE_ORDER
    ensures forall i, j :: 0 <= i < j < |RELEASE_ORDER| ==> RELEASE_ORDER[i] != RELEASE_ORDER[j]
  {
    forall res: Resource
      ensures res in RELEASE_ORDER
    {
      match res
      case PropList => assert RELEASE_ORDER[0] == res;
      case StatusPropRef => assert RELEASE_ORDER[1] == res;
      case SetupProp => assert RELEASE_ORDER[2] == res;
      case VirtkbdProp => assert RELEASE_ORDER[3] == res;
      case Table => assert RELEASE_ORDER[4] == res;
    }
  }

  /** ibus_m17n_engine_destroy: every reference still held is dropped and
      cleared, the context is destroyed if there is one, and the parent's
      destroy runs last. */
  function Destroy(s: Session): (r: (Session, seq<Effect>))
    ensures r.0.held == {} && r.0.context.None?
    ensures r.0.status == s.status && r.0.capabilities == s.capabilities
    ensures |r.1| > 0 && r.1[|r.1| - 1] == Chain(ParentDestroy)
    ensures forall res :: Release(res) in r.1 <==> res in s.held
    ensures forall res :: multiset(r.1)[Release(res)] <= 1
    ensures DestroyContext in r.1 <==> s.context.Some?
    ensures forall e :: e in r.1 ==> e.Release? || e == DestroyContext || e == Chain(ParentDestroy)
    ensures multiset(r.1)[Chain(ParentDestroy)] == 1 && multiset(r.1)[DestroyContext] <= 1
    ensures forall i, j :: 0 <= i < j < |r.1| && r.1[j].Release? ==> r.1[i].Release?
  {
    EveryResourceInOrder();
    var released := Releases(s.held, RELEASE_ORDER);
    var context := if s.context.Some? then [DestroyContext] else [];
    DestroyTraceShape(released, context);
    (s.(held := {}, context := None), released + context + [Chain(ParentDestroy)])
  }

  /** Releases, then at most one context destruction, then the chain-up:
      nothing else, the chain-up once, and every release before the rest. */
  lemma DestroyTraceShape(released: seq<Effect>, context: seq<Effect>)
    requires forall e :: e in released ==> e.Release?
    requires context == [] || context == [DestroyContext]
    ensures var r := released + context + [Chain(ParentDestroy)];
            && (forall e :: e in r ==> e.Release? || e == DestroyContext || e == Chain(ParentDestroy))
            && multiset(r)[Chain(ParentDestroy)] == 1 && multiset(r)[DestroyContext] <= 1
            && (forall i, j :: 0 <= i < j < |r| && r[j].Release? ==> r[i].Release?)
  {
    var r := released + context + [Chain(ParentDestroy)];
    assert multiset(r) == multiset(released) + multiset(context) + multiset([Chain(ParentDestroy)]);
    assert Chain(ParentDestroy) !in released && DestroyContext !in released;
    assert Chain(ParentDestroy) !in multiset(released) && DestroyContext !in multiset(released);
    assert Chain(ParentDestroy) !in multiset(context);
    forall i, j | 0 <= i < j < |r| && r[j].Release?
      ensures r[i].Release?
    {
      assert j < |released| && r[j] == released[j];
      assert r[i] == released[i];
    }
  }

  /** Destroying twice is harmless: the second call releases nothing and
      only chains up, so over both calls every object and the context are
      released at most once. */
  lemma DestroyIdempotent(s: Session)
    ensures var (s1, e1) := Destroy(s);
            var (s2, e2) := Destroy(s1);
            && s2 == s1
            && e2 == [Chain(ParentDestroy)]
            && (forall res :: multiset(e1 + e2)[Release(res)] <= 1)
            && multiset(e1 + e2)[DestroyContext] <= 1
  {
    var (s1, e1) := Destroy(s);
    var (s2, e2) := Destroy(s1);
    assert e2 == [Chain(ParentDestroy)];
    assert multiset(e1 + e2) == multiset(e1) + multiset{Chain(ParentDestroy)};
    var rs1 := Releases(s.held, RELEASE_ORDER);
    assert DestroyContext !in rs1;
    assert multiset(e1)[DestroyContext] <= 1;
  }
}
