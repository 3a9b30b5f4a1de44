/** The controlled (captured) side of controlled.py: the input thread that
    turns received messages into keyboard and mouse actions, and the
    rate-limited capture loop that sends screen frames. The pynput, mss and
    cv2 calls are replaced by the actions they would be asked to perform and
    by the frames they return. */
module Controlled {
  import opened Base
  import Framing

  // ---------------------------------------------------------------------
  // Keyboard

  /** The pynput `Key` members that `special_keys` maps to. */
  datatype Key =
    | Space | Enter | Backspace | Tab | Shift | Ctrl | Alt
    | CapsLock | Esc | Delete | Up | Down | Left | Right

  /** `special_keys` of `handle_keyboard_input`. */
  const SpecialKeys: map<string, Key> := map[
    "Key.space" := Space, "Key.enter" := Enter, "Key.backspace" := Backspace,
    "Key.tab" := Tab, "Key.shift" := Shift, "Key.ctrl" := Ctrl, "Key.alt" := Alt,
    "Key.caps_lock" := CapsLock, "Key.esc" := Esc, "Key.delete" := Delete,
    "Key.up" := Up, "Key.down" := Down, "Key.left" := Left, "Key.right" := Right]

  /** Every name in the special-key table is a `Key.` attribute name. */
  lemma SpecialNamesStartWithK()
    ensures forall k | k in SpecialKeys :: k != [] && k[0] == 'K'
  {
    assert SpecialKeys.Keys == {"Key.space", "Key.enter", "Key.backspace", "Key.tab", "Key.shift",
                                "Key.ctrl", "Key.alt", "Key.caps_lock", "Key.esc", "Key.delete",
                                "Key.up", "Key.down", "Key.left", "Key.right"};
  }

  /** What `keyboard.press` / `keyboard.release` is handed: a special key or
      a plain string. */
  datatype KeyTarget = Special(key: Key) | Typed(name: string)

  /** `Button.left`, `Button.right`, or whatever value the message carried. */
  datatype MouseButton = LeftButton | RightButton | OtherButton(value: Json)

  /** One call into pynput. */
  datatype Action =
    | Press(target: KeyTarget)
    | Release(target: KeyTarget)
    | MoveTo(x: real, y: real)         // `mouse.position = (x, y)`
    | ButtonDown(button: MouseButton)  // `mouse.press(button)`
    | ButtonUp(button: MouseButton)    // `mouse.release(button)`

  /** The outcome of handling one message: the actions performed, or an
      exception that ends the input thread (nothing in `handle_input`
      catches). */
  datatype Handled = Inject(actions: seq<Action>) | Crashed

  const Quote: char := '\''

  predicate AllQuotes(s: string)
  {
    forall i | 0 <= i < |s| :: s[i] == Quote
  }

  /** `s.lstrip("'")`. */
  function StripLeft(s: string): (r: string)
    ensures |r| <= |s| && r == s[|s| - |r|..]
    ensures AllQuotes(s[..|s| - |r|])
    ensures r == [] || r[0] != Quote
    decreases |s|
  {
    if s != [] && s[0] == Quote then StripLeft(s[1..]) else s
  }

  /** `s.rstrip("'")`. */
  function StripRight(s: string): (r: string)
    ensures |r| <= |s| && r == s[..|r|]
    ensures AllQuotes(s[|r|..])
    ensures r == [] || r[|r| - 1] != Quote
    decreases |s|
  {
    if s != [] && s[|s| - 1] == Quote then StripRight(s[..|s| - 1]) else s
  }

  /** `key.strip("'")`: every leading and every trailing quote removed. */
  function StripQuotes(s: string): (r: string)
    ensures r == [] || (r[0] != Quote && r[|r| - 1] != Quote)
    ensures exists i | 0 <= i <= |s| - |r| ::
      s == s[..i] + r + s[i + |r|..] && AllQuotes(s[..i]) && AllQuotes(s[i + |r|..])
  {
    var l := StripLeft(s);
    var r := StripRight(l);
    QuoteSplit(s, l, r);
    r
  }

  /** Quotes, then `l`; and `l` is `r`, then quotes: so `s` is quotes, `r`,
      quotes. */
  lemma QuoteSplit(s: string, l: string, r: string)
    requires |l| <= |s| && l == s[|s| - |l|..] && AllQuotes(s[..|s| - |l|])
    requires |r| <= |l| && r == l[..|r|] && AllQuotes(l[|r|..])
    ensures var i := |s| - |l|;
      && 0 <= i <= |s| - |r|
      && s == s[..i] + r + s[i + |r|..] && AllQuotes(s[..i]) && AllQuotes(s[i + |r|..])
  {
    var i := |s| - |l|;
    assert s[i + |r|..] == l[|r|..];
    assert s == s[..i] + l;
    assert l == r + l[|r|..];
  }

  lemma {:induction false} StripLeftQuotes(a: string, t: string)
    requires AllQuotes(a)
    ensures StripLeft(a + t) == StripLeft(t)
    decreases |a|
  {
    if a != [] {
      var s := a + t;
      assert a[0] == Quote;
      assert s[0] == Quote;
      assert s[1..] == a[1..] + t;
      assert AllQuotes(a[1..]);
      StripLeftQuotes(a[1..], t);
    } else {
      assert a + t == t;
    }
  }

  lemma {:induction false} StripRightQuotes(t: string, b: string)
    requires AllQuotes(b)
    ensures StripRight(t + b) == StripRight(t)
    decreases |b|
  {
    if b != [] {
      var s := t + b;
      assert s[|s| - 1] == b[|b| - 1] == Quote;
      assert StripRight(s) == StripRight(s[..|s| - 1]);
      assert s[..|s| - 1] == t + b[..|b| - 1];
      assert AllQuotes(b[..|b| - 1]);
      StripRightQuotes(t, b[..|b| - 1]);
    } else {
      assert t + b == t;
    }
  }

  /** The strip result is determined by its characterization: any way of
      writing `s` as quotes, a core with no quote at either end, and quotes
      gives that core. */
  lemma StripQuotesUnique(a: string, m: string, b: string)
    requires AllQuotes(a) && AllQuotes(b)
    requires m == [] || (m[0] != Quote && m[|m| - 1] != Quote)
    ensures StripQuotes(a + m + b) == m
  {
    assert a + m + b == a + (m + b);
    StripLeftQuotes(a, m + b);
    if m == [] {
      assert m + b == [] + b;
      StripLeftQuotes(b, []);
      assert b + [] == b;
    } else {
      StripRightQuotes(m, b);
    }
  }

  /** Stripping twice strips nothing more. */
  lemma StripQuotesIdempotent(s: string)
    ensures StripQuotes(StripQuotes(s)) == StripQuotes(s)
  {
    var r := StripQuotes(s);
    assert r == [] || (r[0] != Quote && r[|r| - 1] != Quote);
    NoEndQuotesKept(r);
  }

  /** A name with no quote at either end is left as it is. */
  lemma NoEndQuotesKept(r: string)
    requires r == [] || (r[0] != Quote && r[|r| - 1] != Quote)
    ensures StripQuotes(r) == r
  {
    assert StripLeft(r) == r;
    assert StripRight(r) == r;
  }

  /** A name the strip removes entirely is made of quotes alone. */
  lemma StripQuotesEmpty(s: string)
    ensures StripQuotes(s) == [] <==> AllQuotes(s)
  {
    if AllQuotes(s) {
      assert s == s + [] + [];
      StripQuotesUnique(s, [], []);
    }
  }

  /** The strip as evidently meant: remove one pair of quotes around a
      quoted name such as `'a'`, and leave any other name alone, the
      one-character name `'` included. */
  function StripRepr(s: string): (r: string)
    ensures |s| >= 3 && s[0] == Quote && s[|s| - 1] == Quote ==> [Quote] + r + [Quote] == s
    ensures !(|s| >= 3 && s[0] == Quote && s[|s| - 1] == Quote) ==> r == s
  {
    if |s| >= 3 && s[0] == Quote && s[|s| - 1] == Quote then s[1..|s| - 1] else s
  }

  /** `handle_keyboard_input(key_data)` on the dict's fields. A missing
      `key` or `type` raises KeyError, and a non-string key raises in
      `key in special_keys` (unhashable) or in `key.strip` (no such method).
      `intended` selects the corrected strip. */
  function HandleKeyboard(fields: map<string, Json>, intended: bool): (h: Handled)
    ensures h.Crashed? <==> !("key" in fields && fields["key"].JStr? && "type" in fields)
    ensures h.Inject? ==>
      && |h.actions| == 1
      && (h.actions[0].Press? || h.actions[0].Release?)
      && (h.actions[0].Press? <==> fields["type"] == JStr("press"))
    ensures h.Inject? && fields["key"].s in SpecialKeys ==>
      h.actions[0].target == Special(SpecialKeys[fields["key"].s])
    ensures h.Inject? && fields["key"].s !in SpecialKeys ==>
      h.actions[0].target == Typed(if intended then StripRepr(fields["key"].s) else StripQuotes(fields["key"].s))
  {
    if "key" !in fields || !fields["key"].JStr? || "type" !in fields then Crashed
    else
      var key := fields["key"].s;
      var target :=
        if key in SpecialKeys then Special(SpecialKeys[key])
        else Typed(if intended then StripRepr(key) else StripQuotes(key));
      Inject([if fields["type"] == JStr("press") then Press(target) else Release(target)])
  }

  // ---------------------------------------------------------------------
  // Mouse

  /** `sct.monitors[1]`'s size. */
  datatype Monitor = Monitor(width: nat, height: nat)

  /** The button mapping of `handle_mouse_input`. */
  function ButtonOf(v: Json): (b: MouseButton)
    ensures b.LeftButton? <==> v == JStr("left")
    ensures b.RightButton? <==> v == JStr("right")
    ensures b.OtherButton? ==> b.value == v
  {
    if v == JStr("left") then LeftButton
    else if v == JStr("right") then RightButton
    else OtherButton(v)
  }

  /** `handle_mouse_input(mouse_data)` on the dict's fields: a move scales
      the normalised coordinates by the monitor size, a click maps the
      button and presses or releases it. A missing field raises KeyError; a
      coordinate that is not a number cannot be multiplied into a
      position. */
  function HandleMouseInput(fields: map<string, Json>, screen: Monitor): (h: Handled)
    ensures "type" !in fields ==> h.Crashed?
    ensures h.Inject? ==> |h.actions| <= 1
    ensures h.Inject? && h.actions != [] && h.actions[0].MoveTo? ==> fields["type"] == JStr("move")
    ensures "type" in fields && fields["type"] == JStr("move") &&
            "x" in fields && "y" in fields && AsNumber(fields["x"]).Some? && AsNumber(fields["y"]).Some? ==>
      h == Inject([MoveTo(AsNumber(fields["x"]).value * screen.width as real,
                          AsNumber(fields["y"]).value * screen.height as real)])
    ensures "type" in fields && fields["type"] == JStr("move") && h.Inject? ==>
      && "x" in fields && "y" in fields
      && AsNumber(fields["x"]).Some? && AsNumber(fields["y"]).Some?
      && h.actions == [MoveTo(AsNumber(fields["x"]).value * screen.width as real,
                              AsNumber(fields["y"]).value * screen.height as real)]
    ensures "type" in fields && fields["type"] == JStr("click") ==>
      (h.Crashed? <==> "button" !in fields || "action" !in fields)
    ensures "type" in fields && fields["type"] == JStr("click") && h.Inject? ==>
      && (fields["action"] == JStr("press") <==> h.actions == [ButtonDown(ButtonOf(fields["button"]))])
      && (fields["action"] == JStr("release") <==> h.actions == [ButtonUp(ButtonOf(fields["button"]))])
      && (h.actions == [] <==> fields["action"] != JStr("press") && fields["action"] != JStr("release"))
  {
    if "type" !in fields then Crashed
    else if fields["type"] == JStr("move") then
      if "x" !in fields || AsNumber(fields["x"]).None? then Crashed
      else if "y" !in fields || AsNumber(fields["y"]).None? then Crashed
      else
        var x := AsNumber(fields["x"]).value * screen.width as real;
        var y := AsNumber(fields["y"]).value * screen.height as real;
        Inject([MoveTo(x, y)])
    else if fields["type"] == JStr("click") then
      if "button" !in fields || "action" !in fields then Crashed
      else
        var button := ButtonOf(fields["button"]);
        if fields["action"] == JStr("press") then Inject([ButtonDown(button)])
        else if fields["action"] == JStr("release") then Inject([ButtonUp(button)])
        else Inject([])
    else Inject([])
  }

  /** Denormalisation keeps the pointer on the monitor: coordinates in
      [0, 1) land inside the monitor rectangle, and the position divided by
      the monitor size gives the coordinates back. */
  lemma MoveLandsOnScreen(fields: map<string, Json>, screen: Monitor, x: real, y: real)
    requires screen.width > 0 && screen.height > 0
    requires 0.0 <= x < 1.0 && 0.0 <= y < 1.0
    requires fields == map["type" := JStr("move"), "x" := JFloat(x), "y" := JFloat(y)]
    ensures var h := HandleMouseInput(fields, screen);
      && h.Inject? && |h.actions| == 1 && h.actions[0].MoveTo?
      && 0.0 <= h.actions[0].x < screen.width as real
      && 0.0 <= h.actions[0].y < screen.height as real
      && h.actions[0].x / screen.width as real == x
      && h.actions[0].y / screen.height as real == y
  {
    var w, hh := screen.width as real, screen.height as real;
    MoveHandled(fields, screen, x, y);
    ScaleInside(x, w);
    ScaleInside(y, hh);
  }

  /** The move message of `MoveLandsOnScreen` is handled as one move to the
      scaled coordinates. */
  lemma MoveHandled(fields: map<string, Json>, screen: Monitor, x: real, y: real)
    requires fields == map["type" := JStr("move"), "x" := JFloat(x), "y" := JFloat(y)]
    ensures HandleMouseInput(fields, screen) == Inject([MoveTo(x * screen.width as real, y * screen.height as real)])
  {
    assert "type" in fields && "x" in fields && "y" in fields;
    assert fields["type"] == JStr("move") && fields["x"] == JFloat(x) && fields["y"] == JFloat(y);
    assert AsNumber(fields["x"]) == Some(x) && AsNumber(fields["y"]) == Some(y);
    var h := HandleMouseInput(fields, screen);
    assert h.Inject? && |h.actions| == 1;
    assert h.actions[0] == MoveTo(x * screen.width as real, y * screen.height as real);
  }

  /** A coordinate in [0, 1) scaled by a positive size lies in [0, size),
      and dividing by the size recovers it. */
  lemma ScaleInside(x: real, w: real)
    requires 0.0 <= x < 1.0 && w > 0.0
    ensures 0.0 <= x * w < w && (x * w) / w == x
  {
    assert x * w < 1.0 * w;
  }

  // ---------------------------------------------------------------------
  // Input thread

  /** One iteration of `handle_input`'s loop on what `recvmsg` gave. A
      falsy message (including `None` at end of stream) does nothing; a
      truthy one is indexed by `'type'`, which raises unless it is a dict
      with that key; keyboard types go to the keyboard handler and mouse
      types to the mouse handler. */
  function HandleInput(msg: Framing.Received, screen: Monitor, intended: bool): (h: Handled)
    ensures msg.Raised? ==> h.Crashed?
    ensures msg.NoMessage? ==> h == Inject([])
    ensures msg.Message? && !Truthy(msg.value) ==> h == Inject([])
    ensures msg.Message? && Truthy(msg.value) && !(msg.value.JObj? && "type" in msg.value.fields) ==> h.Crashed?
    ensures h.Inject? && h.actions != [] ==>
      msg.Message? && msg.value.JObj? && "type" in msg.value.fields &&
      var t := msg.value.fields["type"];
      && ((h.actions[0].Press? || h.actions[0].Release?) ==> t == JStr("press") || t == JStr("release"))
      && (h.actions[0].MoveTo? ==> t == JStr("move"))
      && ((h.actions[0].ButtonDown? || h.actions[0].ButtonUp?) ==> t == JStr("click"))
    ensures msg.Message? && Truthy(msg.value) && msg.value.JObj? && "type" in msg.value.fields ==>
      var f := msg.value.fields;
      && (f["type"] == JStr("press") || f["type"] == JStr("release") ==> h == HandleKeyboard(f, intended))
      && (f["type"] == JStr("move") || f["type"] == JStr("click") ==> h == HandleMouseInput(f, screen))
  {
    match msg
    case Raised => Crashed
    case NoMessage => Inject([])
    case Message(v) =>
      if !Truthy(v) then Inject([])
      else if !v.JObj? || "type" !in v.fields then Crashed
      else
        var t := v.fields["type"];
        if t == JStr("press") || t == JStr("release") then HandleKeyboard(v.fields, intended)
        else if t == JStr("move") || t == JStr("click") then HandleMouseInput(v.fields, screen)
        else Inject([])
  }

  /** A dict whose type is none of the four is ignored. */
  lemma UnknownTypesIgnored(fields: map<string, Json>, screen: Monitor, intended: bool)
    requires "type" in fields
    requires fields["type"] !in {JStr("press"), JStr("release"), JStr("move"), JStr("click")}
    ensures HandleInput(Framing.Message(JObj(fields)), screen, intended) == Inject([])
  {
  }

  // ---------------------------------------------------------------------
  // Capture loop

  const TargetFps: nat := 10

  /** `target_interval = 1 / target_fps`, in seconds. */
  const TargetInterval: real := 1.0 / TargetFps as real

  /** One pass of the capture loop: the clock reading, and the JPEG bytes
      `cv2.imencode` would produce if a frame were grabbed now (`None` where
      it reports failure). */
  datatype Tick = Tick(now: real, encoded: Option<seq<byte>>)

  datatype TickOutcome =
    | Waited                      // the interval had not elapsed
    | Captured(sent: Option<seq<byte>>) // grabbed; the bytes sent, if encoding succeeded
    | Stopped                     // `struct.pack` raised: the loop ends and both sockets close

  /** One pass of the `while True` capture loop from `last_frame_time`:
      the new `last_frame_time` and what happened. */
  function CaptureTick(last: real, t: Tick): (r: (real, TickOutcome))
    ensures r.1.Waited? <==> t.now - last < TargetInterval
    ensures r.0 == (if r.1.Waited? then last else t.now)
    ensures r.1.Stopped? <==> t.now - last >= TargetInterval && t.encoded.Some? && |t.encoded.value| >= Framing.LengthLimit
    ensures r.1.Captured? && r.1.sent.Some? ==>
      t.encoded.Some? && Framing.Pack(t.encoded.value) == r.1.sent
    ensures r.1.Captured? && r.1.sent.None? ==> t.encoded.None?
  {
    if t.now - last < TargetInterval then (last, Waited)
    else match t.encoded
      case None => (t.now, Captured(None))
      case Some(data) =>
        match Framing.Pack(data)
        case None => (t.now, Stopped)
        case Some(frame) => (t.now, Captured(Some(frame)))
  }

  /** The capture loop over a sequence of passes: the times frames were
      grabbed and the frames sent, up to the pass that stops it. */
  function CaptureLoop(last: real, ticks: seq<Tick>): (r: (seq<real>, seq<seq<byte>>))
    ensures |r.1| <= |r.0| <= |ticks|
    decreases |ticks|
  {
    if ticks == [] then ([], [])
    else
      var step := CaptureTick(last, ticks[0]);
      match step.1
      case Stopped => ([ticks[0].now], [])
      case Waited => CaptureLoop(step.0, ticks[1..])
      case Captured(sent) =>
        var rest := CaptureLoop(step.0, ticks[1..]);
        ([ticks[0].now] + rest.0, (if sent.Some? then [sent.value] else []) + rest.1)
  }

  /** Whether some pass of the loop over `ticks` stops it. */
  predicate CaptureStops(last: real, ticks: seq<Tick>)
    decreases |ticks|
  {
    ticks != [] &&
    var step := CaptureTick(last, ticks[0]);
    step.1.Stopped? || CaptureStops(step.0, ticks[1..])
  }

  /** `last_frame_time` after the passes `ticks`: the last grab, if any. */
  function LastGrab(last: real, ticks: seq<Tick>): real
  {
    var times := CaptureLoop(last, ticks).0;
    if times == [] then last else times[|times| - 1]
  }

  /** A single pass: a grab exactly when the interval has elapsed since
      `last`, and a send exactly when that grab's encoding packs. */
  lemma CaptureLoopSingle(last: real, t: Tick)
    ensures CaptureLoop(last, [t]).0 == (if t.now - last >= TargetInterval then [t.now] else [])
    ensures CaptureLoop(last, [t]).1 ==
      (if t.now - last >= TargetInterval && t.encoded.Some? && |t.encoded.value| < Framing.LengthLimit
       then [Framing.Pack(t.encoded.value).value] else [])
  {
    assert [t][1..] == [];
  }

  /** Running the loop over two stretches of passes one after the other is
      running it over their concatenation: the second stretch starts from the
      last grab of the first, and the grabs and sends concatenate. A pass that
      stops the loop ends it, and nothing after it runs. */
  lemma {:induction false} CaptureLoopAppend(last: real, ts: seq<Tick>, us: seq<Tick>)
    ensures CaptureStops(last, ts) ==> CaptureLoop(last, ts + us) == CaptureLoop(last, ts)
    ensures !CaptureStops(last, ts) ==>
      var first := CaptureLoop(last, ts);
      var second := CaptureLoop(LastGrab(last, ts), us);
      CaptureLoop(last, ts + us) == (first.0 + second.0, first.1 + second.1)
    decreases |ts|
  {
    if ts == [] {
      assert ts + us == us;
      assert CaptureLoop(last, ts) == ([], []) && LastGrab(last, ts) == last;
      var second := CaptureLoop(last, us);
      assert [] + second.0 == second.0 && [] + second.1 == second.1;
    } else {
      var step := CaptureTick(last, ts[0]);
      assert (ts + us)[0] == ts[0] && (ts + us)[1..] == ts[1..] + us;
      CaptureLoopAppend(step.0, ts[1..], us);
      if step.1.Stopped? {
        assert CaptureStops(last, ts);
        assert CaptureLoop(last, ts + us) == ([ts[0].now], []) == CaptureLoop(last, ts);
      } else if step.1.Waited? {
        assert step.0 == last;
        assert CaptureLoop(last, ts + us) == CaptureLoop(last, ts[1..] + us);
        assert CaptureLoop(last, ts) == CaptureLoop(last, ts[1..]);
        assert CaptureStops(last, ts) == CaptureStops(last, ts[1..]);
      } else {
        CaptureAppendAfterGrab(last, ts, us);
      }
    }
  }

  /** The step of `CaptureLoopAppend` for a first pass that grabs, given the
      property for the remaining passes. */
  /** One grabbing pass in front of the rest: its time and its send, if
      any, come first, and the rest runs from that time. */
  lemma CaptureLoopGrab(last: real, t: Tick, rest: seq<Tick>)
    requires CaptureTick(last, t).1.Captured?
    ensures var sent := CaptureTick(last, t).1.sent;
      && CaptureLoop(last, [t] + rest) == ([t.now] + CaptureLoop(t.now, rest).0,
                                           (if sent.Some? then [sent.value] else []) + CaptureLoop(t.now, rest).1)
      && CaptureStops(last, [t] + rest) == CaptureStops(t.now, rest)
      && (!CaptureStops(t.now, rest) ==> LastGrab(last, [t] + rest) == LastGrab(t.now, rest))
  {
    assert CaptureTick(last, t).0 == t.now;
    assert ([t] + rest)[0] == t && ([t] + rest)[1..] == rest;
  }

  lemma CaptureAppendAfterGrab(last: real, ts: seq<Tick>, us: seq<Tick>)
    requires ts != [] && CaptureTick(last, ts[0]).1.Captured?
    requires var now := ts[0].now;
      && (CaptureStops(now, ts[1..]) ==> CaptureLoop(now, ts[1..] + us) == CaptureLoop(now, ts[1..]))
      && (!CaptureStops(now, ts[1..]) ==>
            CaptureLoop(now, ts[1..] + us)
            == (CaptureLoop(now, ts[1..]).0 + CaptureLoop(LastGrab(now, ts[1..]), us).0,
                CaptureLoop(now, ts[1..]).1 + CaptureLoop(LastGrab(now, ts[1..]), us).1))
    ensures CaptureStops(last, ts) ==> CaptureLoop(last, ts + us) == CaptureLoop(last, ts)
    ensures !CaptureStops(last, ts) ==>
      var first := CaptureLoop(last, ts);
      var second := CaptureLoop(LastGrab(last, ts), us);
      CaptureLoop(last, ts + us) == (first.0 + second.0, first.1 + second.1)
  {
    var t, rest := ts[0], ts[1..];
    var now := t.now;
    var sent := CaptureTick(last, t).1.sent;
    var pre := if sent.Some? then [sent.value] else [];
    assert ts == [t] + rest;
    assert ts + us == [t] + (rest + us);
    CaptureLoopGrab(last, t, rest);
    CaptureLoopGrab(last, t, rest + us);
    GrabInFront([now], pre, CaptureLoop(now, rest), CaptureLoop(now, rest + us),
                CaptureLoop(LastGrab(now, rest), us), CaptureStops(now, rest));
  }

  /** The bookkeeping of `CaptureAppendAfterGrab`: a grab in front of both
      runs keeps the append relation between them. */
  lemma GrabInFront(g: seq<real>, pre: seq<seq<byte>>, tail: (seq<real>, seq<seq<byte>>),
                    whole: (seq<real>, seq<seq<byte>>), second: (seq<real>, seq<seq<byte>>), stops: bool)
    requires stops ==> whole == tail
    requires !stops ==> whole == (tail.0 + second.0, tail.1 + second.1)
    ensures stops ==> (g + whole.0, pre + whole.1) == (g + tail.0, pre + tail.1)
    ensures !stops ==> (g + whole.0, pre + whole.1) == ((g + tail.0) + second.0, (pre + tail.1) + second.1)
  {
    if !stops {
      assert g + (tail.0 + second.0) == (g + tail.0) + second.0;
      assert pre + (tail.1 + second.1) == (pre + tail.1) + second.1;
    }
  }

  /** No due pass is skipped: after passes that did not stop the loop, a pass
      an interval or more after the last grab is grabbed, and its encoding,
      when it succeeded and packs, is among the frames sent. */
  lemma DuePassIsCaptured(last: real, ts: seq<Tick>, t: Tick, us: seq<Tick>)
    requires !CaptureStops(last, ts)
    requires t.now - LastGrab(last, ts) >= TargetInterval
    ensures t.now in CaptureLoop(last, ts + [t] + us).0
    ensures t.encoded.Some? && |t.encoded.value| < Framing.LengthLimit ==>
      Framing.Pack(t.encoded.value).value in CaptureLoop(last, ts + [t] + us).1
  {
    var g := LastGrab(last, ts);
    CaptureLoopAppend(last, ts, [t] + us);
    CaptureLoopAppend(g, [t], us);
    CaptureLoopSingle(g, t);
    assert ts + [t] + us == ts + ([t] + us);
    var single := CaptureLoop(g, [t]);
    assert t.now in single.0;
    if CaptureStops(g, [t]) {
      assert CaptureLoop(g, [t] + us) == single;
    } else {
      var rest := CaptureLoop(LastGrab(g, [t]), us);
      assert CaptureLoop(g, [t] + us) == (single.0 + rest.0, single.1 + rest.1);
    }
    var whole := CaptureLoop(g, [t] + us);
    assert t.now in whole.0;
    assert t.encoded.Some? && |t.encoded.value| < Framing.LengthLimit ==>
      Framing.Pack(t.encoded.value).value in whole.1;
  }

  /** The gate keeps the capture rate at or below ten per second: the first
      grab is an interval after the start, and successive grabs are at
      least an interval apart, whatever the clock readings. */
  lemma {:induction false} CapturesSpaced(last: real, ticks: seq<Tick>)
    ensures var times := CaptureLoop(last, ticks).0;
      && (times != [] ==> times[0] - last >= TargetInterval)
      && forall i | 0 < i < |times| :: times[i] - times[i - 1] >= TargetInterval
    decreases |ticks|
  {
    if ticks != [] {
      var step := CaptureTick(last, ticks[0]);
      CapturesSpaced(step.0, ticks[1..]);
      if step.1.Captured? {
        var times := CaptureLoop(last, ticks).0;
        var rest := CaptureLoop(step.0, ticks[1..]).0;
        assert times == [ticks[0].now] + rest;
        forall i | 0 < i < |times|
          ensures times[i] - times[i - 1] >= TargetInterval
        {
          if i > 1 {
            assert times[i] == rest[i - 1] && times[i - 1] == rest[i - 2];
          }
        }
      }
    }
  }

  /** Every frame sent is one well-formed length-prefixed frame whose body is
      an encoded capture, with nothing after it. */
  lemma {:induction false} SentFramesAreEncodedCaptures(last: real, ticks: seq<Tick>)
    ensures forall f | f in CaptureLoop(last, ticks).1 ::
      && Framing.ReadFrame(f).Frame? && Framing.ReadFrame(f).rest == []
      && exists i | 0 <= i < |ticks| :: ticks[i].encoded == Some(Framing.ReadFrame(f).payload)
    decreases |ticks|
  {
    if ticks != [] {
      var step := CaptureTick(last, ticks[0]);
      SentFramesAreEncodedCaptures(step.0, ticks[1..]);
      forall f | f in CaptureLoop(last, ticks).1
        ensures Framing.ReadFrame(f).Frame? && Framing.ReadFrame(f).rest == []
        ensures exists i | 0 <= i < |ticks| :: ticks[i].encoded == Some(Framing.ReadFrame(f).payload)
      {
        if step.1.Captured? && step.1.sent == Some(f) {
          var data := ticks[0].encoded.value;
          Framing.ReadPackedFrame(data, []);
          assert f + [] == f;
        } else {
          assert f in CaptureLoop(step.0, ticks[1..]).1;
          var i :| 0 <= i < |ticks[1..]| && ticks[1..][i].encoded == Some(Framing.ReadFrame(f).payload);
          assert ticks[i + 1] == ticks[1..][i];
        }
      }
    }
  }
}
