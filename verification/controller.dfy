/** The controller (viewing) side of controller.py, with pygame abstracted
    away: the fullscreen toggle, the routing of key events, the letterboxed
    viewport, pointer normalisation, mouse-button edge detection and the
    dispatch of incoming screen-channel payloads. */
module Controller {
  import opened Base
  import KeyNames

  datatype Size = Size(width: int, height: int)

  /** `screen` (only its size matters; `None` before the first `set_mode`),
      `fullscreen_mode` and `original_size`. */
  datatype Window = Window(screen: Option<Size>, fullscreen: bool, originalSize: Size)

  /** The module-level defaults: fullscreen, with a 1024x768 windowed size. */
  const InitialWindow := Window(None, true, Size(1024, 768))

  /** `toggle_fullscreen`. `desktop` is the size `set_mode((0, 0), FULLSCREEN)`
      yields; a windowed `set_mode(size)` is taken to yield `size`. */
  function ToggleFullscreen(w: Window, desktop: Size): (w': Window)
    ensures w.screen.None? ==> w' == w
    ensures w.screen.Some? ==> w'.fullscreen == !w.fullscreen && w'.screen.Some?
  {
    match w.screen
    case None => w
    case Some(current) =>
      if w.fullscreen then Window(Some(w.originalSize), false, w.originalSize)
      else Window(Some(desktop), true, current)
  }

  /** Going fullscreen remembers the window's size and coming back restores
      it; a fullscreen window toggled twice is unchanged, and a windowed one
      comes back at its own size with that size remembered. */
  lemma ToggleTwiceRestores(w: Window, desktop: Size)
    requires w.screen.Some?
    ensures w.fullscreen && w.screen == Some(desktop) ==>
      ToggleFullscreen(ToggleFullscreen(w, desktop), desktop) == w
    ensures !w.fullscreen ==>
      ToggleFullscreen(ToggleFullscreen(w, desktop), desktop) == Window(w.screen, false, w.screen.value)
    ensures w.fullscreen ==> ToggleFullscreen(w, desktop).originalSize == w.originalSize
  {
  }

  // ---------------------------------------------------------------------
  // Keyboard

  /** A message the controller sends on the input channel, before JSON encoding. */
  datatype InputMsg =
    | KeyMsg(kind: string, key: string)         // {"type": kind, "key": key}
    | MoveMsg(x: real, y: real)                 // {"type": "move", "x": x, "y": y}
    | ClickMsg(button: string, action: string)  // {"type": "click", "button": ..., "action": ...}

  /** The dict `sendmsg` serialises for each message. */
  function ToJson(m: InputMsg): (j: Json)
    ensures j.JObj? && "type" in j.fields && Truthy(j)
    ensures m.KeyMsg? ==> j.fields.Keys == {"type", "key"} && j.fields["key"] == JStr(m.key)
    ensures m.MoveMsg? ==> j.fields.Keys == {"type", "x", "y"} && j.fields["type"] == JStr("move")
    ensures m.ClickMsg? ==> j.fields.Keys == {"type", "button", "action"} && j.fields["type"] == JStr("click")
  {
    match m
    case KeyMsg(kind, key) => JObj(map["type" := JStr(kind), "key" := JStr(key)])
    case MoveMsg(x, y) => JObj(map["type" := JStr("move"), "x" := JFloat(x), "y" := JFloat(y)])
    case ClickMsg(button, action) =>
      JObj(map["type" := JStr("click"), "button" := JStr(button), "action" := JStr(action)])
  }

  /** Distinct messages are sent as distinct dicts, so the receiver can tell
      every message apart. */
  lemma ToJsonInjective(a: InputMsg, b: InputMsg)
    ensures ToJson(a) == ToJson(b) <==> a == b
  {
    if ToJson(a) == ToJson(b) {
      assert ToJson(a).fields == ToJson(b).fields;
      assert ToJson(a).fields["type"] == ToJson(b).fields["type"];
    }
  }

  /** `handle_key_event(key, event_type)`: F11 presses, and Escape presses in
      fullscreen, are handled locally; everything else is sent. */
  function HandleKeyEvent(w: Window, key: int, eventType: string, desktop: Size): (r: (Window, seq<InputMsg>))
    ensures r.1 == [] <==>
      eventType == "press" && (key == KeyNames.KeyF11 || (key == KeyNames.KeyEscape && w.fullscreen))
    ensures r.1 == [] ==> r.0 == ToggleFullscreen(w, desktop)
    ensures r.1 != [] ==> r == (w, [KeyMsg(eventType, KeyNames.KeyName(key))])
  {
    KeyNames.LocalKeyNamesAreUnique(key);
    var name := KeyNames.KeyName(key);
    if eventType == "press" && name == "f11" then (ToggleFullscreen(w, desktop), [])
    else if eventType == "press" && name == "esc" && w.fullscreen then (ToggleFullscreen(w, desktop), [])
    else (w, [KeyMsg(eventType, name)])
  }

  datatype KeyEvent = KeyDown(key: int) | KeyUp(key: int)

  /** The KEYDOWN / KEYUP branches of the event loop in `main`. Releases of
      F11 and Escape are never sent, in either mode; a press of either that
      is handled locally toggles the mode and sends nothing; every other key
      event is sent once, as press or release, under its table name. */
  function RouteKeyEvent(w: Window, ev: KeyEvent, desktop: Size): (r: (Window, seq<InputMsg>))
    ensures r.1 == [] <==>
      ev.key == KeyNames.KeyF11 || (ev.key == KeyNames.KeyEscape && (ev.KeyUp? || w.fullscreen))
    ensures r.1 != [] ==>
      r.1 == [KeyMsg(if ev.KeyDown? then "press" else "release", KeyNames.KeyName(ev.key))] && r.0 == w
    ensures ev.KeyUp? ==> r.0 == w
    ensures ev.KeyDown? && r.1 == [] ==> r.0 == ToggleFullscreen(w, desktop)
  {
    KeyNames.LocalKeyNamesAreUnique(ev.key);
    match ev
    case KeyDown(key) =>
      if key == KeyNames.KeyF11 then (ToggleFullscreen(w, desktop), [])
      else if key == KeyNames.KeyEscape && w.fullscreen then (ToggleFullscreen(w, desktop), [])
      else HandleKeyEvent(w, key, "press", desktop)
    case KeyUp(key) =>
      if key == KeyNames.KeyF11 || key == KeyNames.KeyEscape then (w, [])
      else HandleKeyEvent(w, key, "release", desktop)
  }

  /** In windowed mode an Escape press is sent but its release never is, so
      the controlled machine sees Escape held down. */
  lemma EscapeReleaseNeverSent(w: Window, desktop: Size)
    requires !w.fullscreen
    ensures RouteKeyEvent(w, KeyDown(KeyNames.KeyEscape), desktop).1 == [KeyMsg("press", "esc")]
    ensures RouteKeyEvent(w, KeyUp(KeyNames.KeyEscape), desktop).1 == []
  {
  }

  // ---------------------------------------------------------------------
  // Viewport

  /** The letterboxed area the remote image is drawn into. */
  datatype Viewport = Viewport(width: int, height: int, offsetX: int, offsetY: int)

  /** Python's `int(x)` on a float: truncation toward zero. */
  function Trunc(x: real): (n: int)
    ensures x >= 0.0 ==> n >= 0 && n as real <= x < n as real + 1.0
    ensures x < 0.0 ==> n <= 0 && n as real - 1.0 < x <= n as real
  {
    if x >= 0.0 then x.Floor else -((-x).Floor)
  }

  /** `get_display_dimensions(screen_width, screen_height)` against the remote
      size, in exact arithmetic; `None` where a division raises
      ZeroDivisionError. `//` on a positive divisor is Dafny's `/`. */
  function DisplayDimensions(sw: int, sh: int, rw: real, rh: real): (r: Option<Viewport>)
    ensures r.None? <==> sh == 0 || rh == 0.0 || (rw == 0.0 && sw as real / sh as real <= 0.0)
  {
    if sh == 0 || rh == 0.0 then None
    else
      var screenAspect := sw as real / sh as real;
      var remoteAspect := rw / rh;
      if screenAspect > remoteAspect then
        var dw := Trunc(sh as real * remoteAspect);
        Some(Viewport(dw, sh, (sw - dw) / 2, 0))
      else if remoteAspect == 0.0 then None
      else
        var dh := Trunc(sw as real / remoteAspect);
        Some(Viewport(sw, dh, 0, (sh - dh) / 2))
  }

  lemma DivLess(a: real, b: real, c: real)
    requires c > 0.0
    ensures a / c < b / c <==> a < b
    ensures a / c <= b / c <==> a <= b
  {
  }

  lemma MulMonotone(lo: real, x: real, hi: real, c: real)
    requires lo <= x < hi && c > 0.0
    ensures lo * c <= x * c < hi * c
  {
  }

  lemma MulMonotoneInverse(a: real, b: real, c: real)
    requires c > 0.0
    ensures a * c < b * c <==> a < b
  {
    if a < b {
      MulMonotone(a, a, b, c);
    } else if b < a {
      MulMonotone(b, b, a, c);
    }
  }

  /** `d` pixels of `scale` each cover `target` with less than one pixel to
      spare. */
  predicate WithinOnePixel(d: int, scale: real, target: real)
  {
    d as real * scale <= target < d as real * scale + scale
  }

  /** Truncating a non-negative quotient: the result times the divisor is
      within one divisor of the dividend. */
  lemma TruncQuotient(p: real, c: real)
    requires p >= 0.0 && c > 0.0
    ensures 0 <= Trunc(p / c) && WithinOnePixel(Trunc(p / c), c, p)
  {
    var x := p / c;
    var t := Trunc(x);
    var lo := t as real;
    assert x >= 0.0;
    assert lo <= x < lo + 1.0;
    assert x * c == p;
    MulMonotone(lo, x, lo + 1.0, c);
    assert x * c < (lo + 1.0) * c;
    assert (lo + 1.0) * c == lo * c + c;
    assert p < lo * c + c;
  }

  /** Comparing the two aspect ratios as the code does, by division, agrees
      with comparing the cross products. */
  lemma AspectCompare(w: real, h: real, rw: real, rh: real)
    requires h > 0.0 && rh > 0.0
    ensures w / h > rw / rh <==> w * rh > rw * h
  {
    var d := h * rh;
    assert w / h == (w * rh) / d;
    assert rw / rh == (rw * h) / d;
    DivLess(rw * h, w * rh, d);
  }

  /** Centring `inner` in `outer` with floor division. */
  lemma CentreFits(outer: int, inner: int)
    requires 0 <= inner <= outer
    ensures 0 <= (outer - inner) / 2 && (outer - inner) / 2 + inner <= outer
    ensures outer - inner - 2 * ((outer - inner) / 2) <= 1
  {
  }

  /** Truncating `h * (rw / rh)` where it is below `w`: the whole-pixel width
      that keeps the remote aspect ratio at height `h`. */
  lemma ScaledBelow(sw: int, sh: int, rw: real, rh: real)
    requires sh > 0 && rw > 0.0 && rh > 0.0
    requires sw as real * rh > rw * sh as real
    ensures var d := Trunc(sh as real * (rw / rh));
      0 <= d < sw && WithinOnePixel(d, rh, sh as real * rw)
  {
    var w, h := sw as real, sh as real;
    var p := h * rw;
    assert h * (rw / rh) == p / rh;
    TruncQuotient(p, rh);
    var d := Trunc(p / rh);
    assert WithinOnePixel(d, rh, p);
    assert d == Trunc(sh as real * (rw / rh));
    assert rw * h == p;
    MulMonotoneInverse(d as real, w, rh);
  }

  /** Truncating `w / (rw / rh)` where it is at most `h`. */
  lemma ScaledAtMost(sw: int, sh: int, rw: real, rh: real)
    requires sw > 0 && rw > 0.0 && rh > 0.0
    requires sw as real * rh <= rw * sh as real
    ensures var d := Trunc(sw as real / (rw / rh));
      0 <= d <= sh && WithinOnePixel(d, rw, sw as real * rh)
  {
    var w, h := sw as real, sh as real;
    var p := w * rh;
    assert w / (rw / rh) == p / rw;
    TruncQuotient(p, rw);
    var d := Trunc(p / rw);
    assert WithinOnePixel(d, rw, p);
    assert d == Trunc(sw as real / (rw / rh));
    assert rw * h == h * rw;
    assert (h + 1.0) * rw == h * rw + rw;
    assert d as real * rw < (h + 1.0) * rw;
    MulMonotoneInverse(d as real, h + 1.0, rw);
    assert (d as real) < h + 1.0;
  }

  /** Which branch `get_display_dimensions` takes for a screen wider than
      the remote. */
  lemma WideBranch(sw: int, sh: int, rw: real, rh: real)
    requires sh != 0 && rh != 0.0
    requires sw as real / sh as real > rw / rh
    ensures var dw := Trunc(sh as real * (rw / rh));
      DisplayDimensions(sw, sh, rw, rh) == Some(Viewport(dw, sh, (sw - dw) / 2, 0))
  {
  }

  /** The height-bound branch (screen wider than the remote). */
  lemma WideScreenViewport(sw: int, sh: int, rw: real, rh: real)
    requires sw > 0 && sh > 0 && rw > 0.0 && rh > 0.0
    requires sw as real * rh > rw * sh as real
    ensures var dw := Trunc(sh as real * (rw / rh));
      && 0 <= dw < sw
      && WithinOnePixel(dw, rh, sh as real * rw)
      && DisplayDimensions(sw, sh, rw, rh) == Some(Viewport(dw, sh, (sw - dw) / 2, 0))
  {
    AspectCompare(sw as real, sh as real, rw, rh);
    WideBranch(sw, sh, rw, rh);
    ScaledBelow(sw, sh, rw, rh);
  }

  /** The width-bound branch (screen at most as wide as the remote). */
  lemma TallScreenViewport(sw: int, sh: int, rw: real, rh: real)
    requires sw > 0 && sh > 0 && rw > 0.0 && rh > 0.0
    requires sw as real * rh <= rw * sh as real
    ensures var dh := Trunc(sw as real / (rw / rh));
      && 0 <= dh <= sh
      && WithinOnePixel(dh, rw, sw as real * rh)
      && DisplayDimensions(sw, sh, rw, rh) == Some(Viewport(sw, dh, 0, (sh - dh) / 2))
  {
    AspectCompare(sw as real, sh as real, rw, rh);
    assert rw / rh > 0.0;
    ScaledAtMost(sw, sh, rw, rh);
  }

  /** For positive sizes the viewport fits inside the window, is centred,
      fills it along the binding axis, and keeps the remote aspect ratio up
      to the truncation of one pixel. */
  lemma LetterboxFits(sw: int, sh: int, rw: real, rh: real)
    requires sw > 0 && sh > 0 && rw > 0.0 && rh > 0.0
    ensures DisplayDimensions(sw, sh, rw, rh).Some?
    ensures var v := DisplayDimensions(sw, sh, rw, rh).value;
      && (sw as real * rh > rw * sh as real ==>
            && v.height == sh && v.offsetY == 0
            && WithinOnePixel(v.width, rh, sh as real * rw))
      && (sw as real * rh <= rw * sh as real ==>
            && v.width == sw && v.offsetX == 0
            && WithinOnePixel(v.height, rw, sw as real * rh))
      && 0 <= v.width && 0 <= v.offsetX && v.offsetX + v.width <= sw
      && 0 <= v.height && 0 <= v.offsetY && v.offsetY + v.height <= sh
      && sw - v.width - 2 * v.offsetX <= 1 && sh - v.height - 2 * v.offsetY <= 1
  {
    if sw as real * rh > rw * sh as real {
      WideScreenViewport(sw, sh, rw, rh);
      CentreFits(sw, Trunc(sh as real * (rw / rh)));
    } else {
      TallScreenViewport(sw, sh, rw, rh);
      CentreFits(sh, Trunc(sw as real / (rw / rh)));
    }
  }

  // ---------------------------------------------------------------------
  // Mouse

  /** The pointer position inside the viewport, as fractions of its size;
      nothing when the pointer is over the letterbox bars. An empty viewport
      admits no position, so the division is never by zero. */
  function PointerMove(v: Viewport, x: int, y: int): (r: seq<InputMsg>)
    ensures r != [] <==> v.offsetX <= x < v.offsetX + v.width && v.offsetY <= y < v.offsetY + v.height
    ensures r != [] ==>
      && |r| == 1 && r[0].MoveMsg?
      && 0.0 <= r[0].x < 1.0 && 0.0 <= r[0].y < 1.0
      && r[0].x * v.width as real + v.offsetX as real == x as real
      && r[0].y * v.height as real + v.offsetY as real == y as real
  {
    if v.offsetX <= x < v.offsetX + v.width && v.offsetY <= y < v.offsetY + v.height then
      var nx := (x - v.offsetX) as real / v.width as real;
      var ny := (y - v.offsetY) as real / v.height as real;
      [MoveMsg(nx, ny)]
    else []
  }

  /** `mouse_pressed`, and what `pygame.mouse.get_pressed()` reports, for
      the left and right buttons. */
  datatype Buttons = Buttons(left: bool, right: bool)

  function Action(down: bool): string
  {
    if down then "press" else "release"
  }

  /** The two button blocks of `handle_mouse`: left first, then right, a click
      for each button whose state changed. The stored state is updated before
      each send, so it is the new state whether or not the send succeeds. */
  function ButtonEdges(prev: Buttons, now: Buttons): (r: (Buttons, seq<InputMsg>))
    ensures r.0 == now
  {
    var left := if prev.left != now.left then [ClickMsg("left", Action(now.left))] else [];
    var right := if prev.right != now.right then [ClickMsg("right", Action(now.right))] else [];
    (now, left + right)
  }

  /** The button state a receiver reconstructs from click messages. */
  function ApplyClicks(b: Buttons, msgs: seq<InputMsg>): Buttons
    decreases |msgs|
  {
    if msgs == [] then b
    else
      var m := msgs[0];
      var b' :=
        if m.ClickMsg? && m.button == "left" then b.(left := m.action == "press")
        else if m.ClickMsg? && m.button == "right" then b.(right := m.action == "press")
        else b;
      ApplyClicks(b', msgs[1..])
  }

  /** Edge detection is exact: replaying the clicks sent on the previous
      state yields the current state, no click is sent when nothing changed,
      and a left click always precedes a right one. */
  lemma ClicksTrackButtons(prev: Buttons, now: Buttons)
    ensures ApplyClicks(prev, ButtonEdges(prev, now).1) == now
    ensures ButtonEdges(prev, now).1 == [] <==> prev == now
    ensures |ButtonEdges(prev, now).1| <= 2
    ensures |ButtonEdges(prev, now).1| == 2 ==>
      ButtonEdges(prev, now).1[0].button == "left" && ButtonEdges(prev, now).1[1].button == "right"
    ensures var m := ButtonEdges(prev, now).1;
      (exists i | 0 <= i < |m| :: m[i].ClickMsg? && m[i].button == "left") <==> prev.left != now.left
    ensures var m := ButtonEdges(prev, now).1;
      (exists i | 0 <= i < |m| :: m[i].ClickMsg? && m[i].button == "right") <==> prev.right != now.right
    ensures var m := ButtonEdges(prev, now).1;
      forall i | 0 <= i < |m| :: && m[i].ClickMsg?
                                 && (m[i].button == "left" ==> m[i].action == Action(now.left))
                                 && (m[i].button == "right" ==> m[i].action == Action(now.right))
  {
    var msgs := ButtonEdges(prev, now).1;
    if msgs != [] {
      assert msgs[0].ClickMsg? && msgs[|msgs| - 1].ClickMsg?;
    }
    if prev.left != now.left && prev.right != now.right {
      var mid := prev.(left := now.left);
      assert ApplyClicks(prev, msgs) == ApplyClicks(mid, msgs[1..]);
      assert msgs[1..][1..] == [];
      assert ApplyClicks(mid, msgs[1..]) == ApplyClicks(now, msgs[1..][1..]);
    } else if prev.left != now.left || prev.right != now.right {
      assert msgs[1..] == [];
    }
  }

  /** The size of the remote screen as `get_display_dimensions` divides with it. */
  function RemoteViewport(size: Size, remoteWidth: Json, remoteHeight: Json): (r: Option<Viewport>)
    ensures r.Some? <==>
      && AsNumber(remoteWidth).Some? && AsNumber(remoteHeight).Some?
      && size.height != 0 && AsNumber(remoteHeight).value != 0.0
      && (AsNumber(remoteWidth).value != 0.0 || size.width as real / size.height as real > 0.0)
  {
    match (AsNumber(remoteWidth), AsNumber(remoteHeight))
    case (Some(rw), Some(rh)) => DisplayDimensions(size.width, size.height, rw, rh)
    case _ => None
  }

  /** `handle_mouse`: nothing before the window exists; `None` where
      `get_display_dimensions` raises (which ends the controller); otherwise
      the new button state and the messages sent, a move first. */
  function HandleMouse(screen: Option<Size>, remoteWidth: Json, remoteHeight: Json,
                       pressed: Buttons, x: int, y: int, now: Buttons): (r: Option<(Buttons, seq<InputMsg>)>)
    ensures screen.None? ==> r == Some((pressed, []))
    ensures r.Some? && screen.Some? ==> r.value.0 == now
    ensures r.None? <==> screen.Some? && RemoteViewport(screen.value, remoteWidth, remoteHeight).None?
    ensures r.Some? ==> forall i | 0 <= i < |r.value.1| :: r.value.1[i].MoveMsg? ==>
      i == 0 && 0.0 <= r.value.1[i].x < 1.0 && 0.0 <= r.value.1[i].y < 1.0
    ensures r.Some? && screen.Some? ==>
      r.value.1 == PointerMove(RemoteViewport(screen.value, remoteWidth, remoteHeight).value, x, y)
                   + ButtonEdges(pressed, now).1
  {
    match screen
    case None => Some((pressed, []))
    case Some(size) =>
      match RemoteViewport(size, remoteWidth, remoteHeight)
      case None => None
      case Some(v) =>
        var edges := ButtonEdges(pressed, now);
        Some((edges.0, PointerMove(v, x, y) + edges.1))
  }

  /** What a receiver learns from one `handle_mouse` call whose viewport is
      defined (the requires say exactly where `DisplayDimensions` is):
      replaying its messages on the old button state yields the current one,
      and a move leads them exactly when the pointer is over the drawn image. */
  lemma HandleMouseReplays(size: Size, remoteWidth: Json, remoteHeight: Json,
                           pressed: Buttons, x: int, y: int, now: Buttons)
    requires AsNumber(remoteWidth).Some? && AsNumber(remoteHeight).Some?
    requires size.height != 0 && AsNumber(remoteHeight).value != 0.0
    requires AsNumber(remoteWidth).value != 0.0 || size.width as real / size.height as real > 0.0
    ensures var r := HandleMouse(Some(size), remoteWidth, remoteHeight, pressed, x, y, now);
      && r.Some?
      && ApplyClicks(pressed, r.value.1) == now
      && var v := RemoteViewport(size, remoteWidth, remoteHeight).value;
         (r.value.1 != [] && r.value.1[0].MoveMsg? <==>
            v.offsetX <= x < v.offsetX + v.width && v.offsetY <= y < v.offsetY + v.height)
  {
    assert RemoteViewport(size, remoteWidth, remoteHeight).Some?;
    var v := RemoteViewport(size, remoteWidth, remoteHeight).value;
    var msgs := HandleMouse(Some(size), remoteWidth, remoteHeight, pressed, x, y, now).value.1;
    var edges := ButtonEdges(pressed, now).1;
    ClicksTrackButtons(pressed, now);
    if PointerMove(v, x, y) != [] {
      assert msgs[1..] == edges;
      assert ApplyClicks(pressed, msgs) == ApplyClicks(pressed, msgs[1..]);
    } else {
      assert msgs == edges;
      if msgs != [] {
        assert msgs[0].ClickMsg?;
      }
    }
  }

  // ---------------------------------------------------------------------
  // Screen-channel payloads

  /** `remote_width`, `remote_height` and `connection_active`. */
  datatype Session = Session(remoteWidth: Json, remoteHeight: Json, active: bool)

  const InitialSession := Session(JInt(1920), JInt(1080), false)

  /** What the loop does with one received payload. */
  datatype Dispatch =
    | Skip                      // `if data:` was false
    | Control(session: Session) // decoded as JSON: consumed, never drawn
    | Image(bytes: seq<byte>)   // decode error: handed to the image decoder

  /** The effect of a payload that decoded as JSON. */
  function ApplyControl(s: Session, v: Json): (s': Session)
    ensures v.JObj? && GetOr(v.fields, "type", JNull) == JStr("screen_info") ==>
      s' == Session(GetOr(v.fields, "width", JInt(1920)), GetOr(v.fields, "height", JInt(1080)), true)
    ensures !(v.JObj? && GetOr(v.fields, "type", JNull) == JStr("screen_info")) ==>
      s'.remoteWidth == s.remoteWidth && s'.remoteHeight == s.remoteHeight
    ensures s'.active <==> s.active || Activates(v)
  {
    if !v.JObj? then s
    else
      var t := GetOr(v.fields, "type", JNull);
      if t == JStr("connection_status") then
        if GetOr(v.fields, "status", JNull) == JStr("complete") then s.(active := true) else s
      else if t == JStr("screen_info") then
        Session(GetOr(v.fields, "width", JInt(1920)), GetOr(v.fields, "height", JInt(1080)), true)
      else s
  }

  /** Whether a decoded message turns the connection active. */
  predicate Activates(v: Json)
  {
    && v.JObj?
    && ((GetOr(v.fields, "type", JNull) == JStr("connection_status")
           && GetOr(v.fields, "status", JNull) == JStr("complete"))
        || GetOr(v.fields, "type", JNull) == JStr("screen_info"))
  }

  /** The payload branch of `main`. `data` is `None` after a short body. */
  function DispatchPayload(s: Session, data: Option<seq<byte>>, parse: seq<byte> -> Parse): (d: Dispatch)
    ensures d.Skip? <==> data.None? || data.value == []
    ensures d.Image? <==> data.Some? && data.value != [] && parse(data.value).DecodeError?
    ensures d.Image? ==> d.bytes == data.value
    ensures d.Control? ==> (s.active ==> d.session.active)
    ensures d.Control? ==> d.session == ApplyControl(s, parse(data.value).value)
    ensures data.Some? && data.value != [] && parse(data.value).Parsed? && parse(data.value).value.JObj? &&
            GetOr(parse(data.value).value.fields, "type", JNull) == JStr("screen_info") ==>
      var f := parse(data.value).value.fields;
      d == Control(Session(GetOr(f, "width", JInt(1920)), GetOr(f, "height", JInt(1080)), true))
    ensures d.Control? && !(parse(data.value).value.JObj? &&
                            GetOr(parse(data.value).value.fields, "type", JNull) == JStr("screen_info")) ==>
      d.session.remoteWidth == s.remoteWidth && d.session.remoteHeight == s.remoteHeight
  {
    if data.None? || data.value == [] then Skip
    else match parse(data.value)
      case DecodeError => Image(data.value)
      case Parsed(v) => Control(ApplyControl(s, v))
  }

  /** The received payloads that fail to decode as JSON, in order, skipping
      the missing and empty ones. Which payloads these are depends on the
      bytes alone, not on the session. */
  function Undecodable(payloads: seq<Option<seq<byte>>>, parse: seq<byte> -> Parse): seq<seq<byte>>
    decreases |payloads|
  {
    if payloads == [] then []
    else
      var p := payloads[0];
      (if p.Some? && p.value != [] && parse(p.value).DecodeError? then [p.value] else [])
      + Undecodable(payloads[1..], parse)
  }

  /** The session after a sequence of payloads, and the images drawn, in order:
      exactly the undecodable payloads. */
  function DispatchAll(s: Session, payloads: seq<Option<seq<byte>>>, parse: seq<byte> -> Parse): (r: (Session, seq<seq<byte>>))
    ensures |r.1| <= |payloads|
    ensures s.active ==> r.0.active
    ensures r.1 == Undecodable(payloads, parse)
    decreases |payloads|
  {
    if payloads == [] then (s, [])
    else
      var d := DispatchPayload(s, payloads[0], parse);
      var s' := if d.Control? then d.session else s;
      var rest := DispatchAll(s', payloads[1..], parse);
      (rest.0, (if d.Image? then [d.bytes] else []) + rest.1)
  }

  predicate ActivatingPayload(p: Option<seq<byte>>, parse: seq<byte> -> Parse)
  {
    p.Some? && p.value != [] && parse(p.value).Parsed? && Activates(parse(p.value).value)
  }

  /** The connection becomes active exactly when some payload is a
      `screen_info` or a complete `connection_status`, and stays active. */
  lemma {:induction false} ActiveIffAnnounced(s: Session, payloads: seq<Option<seq<byte>>>, parse: seq<byte> -> Parse)
    ensures DispatchAll(s, payloads, parse).0.active <==>
      s.active || exists i | 0 <= i < |payloads| :: ActivatingPayload(payloads[i], parse)
    decreases |payloads|
  {
    if payloads != [] {
      var d := DispatchPayload(s, payloads[0], parse);
      var s' := if d.Control? then d.session else s;
      assert s'.active <==> s.active || ActivatingPayload(payloads[0], parse);
      ActiveIffAnnounced(s', payloads[1..], parse);
      if exists i | 0 <= i < |payloads[1..]| :: ActivatingPayload(payloads[1..][i], parse) {
        var i :| 0 <= i < |payloads[1..]| && ActivatingPayload(payloads[1..][i], parse);
        assert ActivatingPayload(payloads[i + 1], parse);
      }
      if exists i | 0 <= i < |payloads| :: ActivatingPayload(payloads[i], parse) {
        var i :| 0 <= i < |payloads| && ActivatingPayload(payloads[i], parse);
        if i > 0 {
          assert ActivatingPayload(payloads[1..][i - 1], parse);
        }
      }
    }
  }

  /** Every image drawn is a non-empty payload that failed to decode as JSON:
      a payload that parses, whatever its origin, is never drawn. */
  lemma {:induction false} ImagesAreUndecodable(s: Session, payloads: seq<Option<seq<byte>>>, parse: seq<byte> -> Parse)
    ensures forall img | img in DispatchAll(s, payloads, parse).1 ::
      img != [] && parse(img).DecodeError? && Some(img) in payloads
    decreases |payloads|
  {
    if payloads != [] {
      var d := DispatchPayload(s, payloads[0], parse);
      var s' := if d.Control? then d.session else s;
      ImagesAreUndecodable(s', payloads[1..], parse);
      forall img | img in DispatchAll(s', payloads[1..], parse).1
        ensures Some(img) in payloads
      {
        assert Some(img) in payloads[1..];
      }
    }
  }
}
