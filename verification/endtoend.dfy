/** How the three programs fit together through the relay: what the
    controller sends on the input channel is what the controlled side acts
    on, and what the controlled side captures is what the controller draws. */
module EndToEnd {
  import opened Base
  import Framing
  import Relay
  import KeyNames
  import Controller
  import Controlled

  /** The JSON library's behaviour on one value: `json.dumps` never produces
      empty text, the text fits a frame, and `json.loads` reads it back. */
  predicate Codec(dumps: Json -> seq<byte>, parse: seq<byte> -> Parse, v: Json)
  {
    0 < |dumps(v)| < Framing.LengthLimit && parse(dumps(v)) == Parsed(v)
  }

  /** The frame `sendmsg` writes for `v`. */
  function FrameOf(dumps: Json -> seq<byte>, v: Json): seq<byte>
    requires |dumps(v)| < Framing.LengthLimit
  {
    Framing.Pack(dumps(v)).value
  }

  /** What the controlled side's `handle_input` does with the frame the
      controller wrote for `m`, arriving ahead of `rest`. */
  function Delivered(dumps: Json -> seq<byte>, parse: seq<byte> -> Parse, m: Controller.InputMsg,
                     rest: seq<byte>, screen: Controlled.Monitor, intended: bool): Controlled.Handled
    requires Codec(dumps, parse, Controller.ToJson(m))
  {
    Controlled.HandleInput(
      Framing.RecvMsgSpec(FrameOf(dumps, Controller.ToJson(m)) + rest, parse), screen, intended)
  }

  /** A relay in which the controller's input connection `c` is registered
      and the slot it forwards to holds the live connection `d`. */
  predicate InputRouted(st: Relay.Server, c: Relay.ConnId, d: Relay.ConnId)
  {
    && Relay.IsReading(st, c) && st.conns[c].clientType == JStr("controller_input")
    && st.slots.controlledInput == Some(d) && (d !in st.conns || !st.conns[d].Closed?)
  }

  /** An input message crosses the relay unchanged: the frame is read as one
      complete frame, forwarded byte for byte to the controlled input
      socket, and decoded there as the same message. */
  lemma InputCrossesRelay(dumps: Json -> seq<byte>, parse: seq<byte> -> Parse, m: Controller.InputMsg,
                          st: Relay.Server, c: Relay.ConnId, d: Relay.ConnId, rest: seq<byte>)
    requires Codec(dumps, parse, Controller.ToJson(m))
    requires InputRouted(st, c, d)
    ensures var frame := FrameOf(dumps, Controller.ToJson(m));
      var f := Framing.ReadFrame(frame);
      && f.Frame? && f.rest == [] && f.payload == dumps(Controller.ToJson(m))
      && Relay.Step(st, Relay.Data(c, f.header, f.payload)) == (st, [Relay.Send(d, frame)])
      && Framing.RecvMsgSpec(frame + rest, parse) == Framing.Message(Controller.ToJson(m))
  {
    var v := Controller.ToJson(m);
    var frame := FrameOf(dumps, v);
    Framing.ReadPackedFrame(dumps(v), []);
    assert frame + [] == frame;
    Framing.SendRecvRoundTrip(dumps, parse, v, rest);
    var f := Framing.ReadFrame(frame);
    Relay.DeliveredToLivePeer(st, c, f.header, f.payload);
  }

  /** Names the controller sends never select a special key on the
      controlled side: those all begin with `Key.`, controller names never
      with a capital K. */
  lemma ControllerNamesAreNotSpecial(key: int)
    ensures KeyNames.KeyName(key) !in Controlled.SpecialKeys
  {
    KeyNames.NamesNeverStartWithK(key);
    Controlled.SpecialNamesStartWithK();
  }

  /** The corrected strip passes every controller name through intact. */
  lemma KeyNamesSurviveStripRepr(key: int)
    ensures Controlled.StripRepr(KeyNames.KeyName(key)) == KeyNames.KeyName(key)
  {
    KeyNames.NamesNeverStartWithK(key);
    KeyNames.QuoteKeyName(key);
  }

  /** A key event the controller forwards is pressed or released on the
      controlled machine as a typed name: the controller's name after
      `strip("'")` as written, the name itself with the corrected strip. */
  lemma KeyEventInjected(w: Controller.Window, ev: Controller.KeyEvent, desktop: Controller.Size,
                         dumps: Json -> seq<byte>, parse: seq<byte> -> Parse,
                         rest: seq<byte>, screen: Controlled.Monitor, intended: bool)
    requires Controller.RouteKeyEvent(w, ev, desktop).1 != []
    requires Codec(dumps, parse, Controller.ToJson(Controller.RouteKeyEvent(w, ev, desktop).1[0]))
    ensures var name := KeyNames.KeyName(ev.key);
      var target := Controlled.Typed(if intended then name else Controlled.StripQuotes(name));
      Delivered(dumps, parse, Controller.RouteKeyEvent(w, ev, desktop).1[0], rest, screen, intended)
        == Controlled.Inject([if ev.KeyDown? then Controlled.Press(target) else Controlled.Release(target)])
  {
    var m := Controller.RouteKeyEvent(w, ev, desktop).1[0];
    var name := KeyNames.KeyName(ev.key);
    var kind := if ev.KeyDown? then "press" else "release";
    assert m == Controller.KeyMsg(kind, name);
    var fields := map["type" := JStr(kind), "key" := JStr(name)];
    assert Controller.ToJson(m) == JObj(fields);
    Framing.SendRecvRoundTrip(dumps, parse, JObj(fields), rest);
    ControllerNamesAreNotSpecial(ev.key);
    KeyNamesSurviveStripRepr(ev.key);
    assert "type" in fields && "key" in fields && fields["key"].s == name;
    assert Truthy(JObj(fields));
    var h := Controlled.HandleKeyboard(fields, intended);
    assert Delivered(dumps, parse, m, rest, screen, intended) == h;
  }

  /** The apostrophe key is lost as written: its name `'` is stripped to
      the empty string. With the corrected strip it arrives as `'`. */
  lemma ApostropheTypedAsEmpty(w: Controller.Window, desktop: Controller.Size,
                               dumps: Json -> seq<byte>, parse: seq<byte> -> Parse,
                               rest: seq<byte>, screen: Controlled.Monitor)
    requires Codec(dumps, parse, Controller.ToJson(Controller.KeyMsg("press", "'")))
    ensures Controller.RouteKeyEvent(w, Controller.KeyDown(39), desktop).1 == [Controller.KeyMsg("press", "'")]
    ensures Delivered(dumps, parse, Controller.KeyMsg("press", "'"), rest, screen, false)
      == Controlled.Inject([Controlled.Press(Controlled.Typed([]))])
    ensures Delivered(dumps, parse, Controller.KeyMsg("press", "'"), rest, screen, true)
      == Controlled.Inject([Controlled.Press(Controlled.Typed("'"))])
  {
    KeyNames.QuoteKeyName(39);
    KeyEventInjected(w, Controller.KeyDown(39), desktop, dumps, parse, rest, screen, false);
    KeyEventInjected(w, Controller.KeyDown(39), desktop, dumps, parse, rest, screen, true);
    Controlled.StripQuotesEmpty("'");
  }

  /** A pointer move inside the viewport puts the controlled machine's
      pointer at the same relative position of its monitor, which is inside
      the monitor. */
  lemma PointerLandsOnMonitor(v: Controller.Viewport, x: int, y: int,
                              dumps: Json -> seq<byte>, parse: seq<byte> -> Parse,
                              rest: seq<byte>, screen: Controlled.Monitor, intended: bool)
    requires screen.width > 0 && screen.height > 0
    requires Controller.PointerMove(v, x, y) != []
    requires Codec(dumps, parse, Controller.ToJson(Controller.PointerMove(v, x, y)[0]))
    ensures var h := Delivered(dumps, parse, Controller.PointerMove(v, x, y)[0], rest, screen, intended);
      && h.Inject? && |h.actions| == 1 && h.actions[0].MoveTo?
      && 0.0 <= h.actions[0].x < screen.width as real
      && 0.0 <= h.actions[0].y < screen.height as real
      && h.actions[0].x / screen.width as real == (x - v.offsetX) as real / v.width as real
      && h.actions[0].y / screen.height as real == (y - v.offsetY) as real / v.height as real
  {
    var m := Controller.PointerMove(v, x, y)[0];
    Framing.SendRecvRoundTrip(dumps, parse, Controller.ToJson(m), rest);
    Controlled.MoveLandsOnScreen(Controller.ToJson(m).fields, screen, m.x, m.y);
  }

  /** Each click the controller sends presses or releases the same button
      on the controlled machine, in the direction of its new state. */
  lemma ClickInjected(prev: Controller.Buttons, now: Controller.Buttons, i: nat,
                      dumps: Json -> seq<byte>, parse: seq<byte> -> Parse,
                      rest: seq<byte>, screen: Controlled.Monitor, intended: bool)
    requires i < |Controller.ButtonEdges(prev, now).1|
    requires Codec(dumps, parse, Controller.ToJson(Controller.ButtonEdges(prev, now).1[i]))
    ensures var m := Controller.ButtonEdges(prev, now).1[i];
      var h := Delivered(dumps, parse, m, rest, screen, intended);
      && (m.button == "left" || m.button == "right")
      && (m.button == "left" ==> h == Controlled.Inject([if now.left then Controlled.ButtonDown(Controlled.LeftButton)
                                                                   else Controlled.ButtonUp(Controlled.LeftButton)]))
      && (m.button == "right" ==> h == Controlled.Inject([if now.right then Controlled.ButtonDown(Controlled.RightButton)
                                                                     else Controlled.ButtonUp(Controlled.RightButton)]))
  {
    var msgs := Controller.ButtonEdges(prev, now).1;
    var m := msgs[i];
    assert m == Controller.ClickMsg("left", Controller.Action(now.left))
        || m == Controller.ClickMsg("right", Controller.Action(now.right));
    Framing.SendRecvRoundTrip(dumps, parse, Controller.ToJson(m), rest);
    var fields := Controller.ToJson(m).fields;
    assert fields["type"] == JStr("click") && "button" in fields && "action" in fields;
    assert fields["action"] == JStr(if m.action == "press" then "press" else "release");
  }

  /** A relay in which the controlled screen connection `c` is registered
      and the controller screen slot holds the live connection `d`. */
  predicate ScreenRouted(st: Relay.Server, c: Relay.ConnId, d: Relay.ConnId)
  {
    && Relay.IsReading(st, c) && st.conns[c].clientType == JStr("controlled_screen")
    && st.slots.controllerScreen == Some(d) && (d !in st.conns || !st.conns[d].Closed?)
  }

  function Hello(c: Relay.ConnId, name: string): Relay.Event
  {
    Relay.Accept(c, Framing.Message(JStr(name)))
  }

  /** The four hellos the clients send on connecting set up both routes:
      screen frames from the controlled side go to the controller's screen
      socket, input from the controller to the controlled input socket. */
  lemma HandshakeRoutes(a: Relay.ConnId, b: Relay.ConnId, c: Relay.ConnId, d: Relay.ConnId)
    requires a != b && a != c && a != d && b != c && b != d && c != d
    ensures var es := [Hello(a, "controlled_screen"), Hello(b, "controlled_input"),
                       Hello(c, "controller_screen"), Hello(d, "controller_input")];
      && ScreenRouted(Relay.Run(Relay.Initial, es, false).0, a, c)
      && InputRouted(Relay.Run(Relay.Initial, es, false).0, d, b)
      && Relay.Run(Relay.Initial, es, false).1 == []
  {
    HandshakeState(a, b, c, d);
  }

  /** The server state after the four handshakes: every slot filled by its
      own connection, every connection reading. */
  lemma HandshakeState(a: Relay.ConnId, b: Relay.ConnId, c: Relay.ConnId, d: Relay.ConnId)
    requires a != b && a != c && a != d && b != c && b != d && c != d
    ensures Relay.Run(Relay.Initial, [Hello(a, "controlled_screen"), Hello(b, "controlled_input"),
                                      Hello(c, "controller_screen"), Hello(d, "controller_input")], false)
      == (Relay.Server(Relay.Slots(Some(a), Some(c), Some(b), Some(d)),
                       map[a := Relay.Reading(JStr("controlled_screen")), b := Relay.Reading(JStr("controlled_input")),
                           c := Relay.Reading(JStr("controller_screen")), d := Relay.Reading(JStr("controller_input"))]),
          [])
  {
    var e0, e1, e2, e3 := Hello(a, "controlled_screen"), Hello(b, "controlled_input"),
                          Hello(c, "controller_screen"), Hello(d, "controller_input");
    var s1 := Relay.Advance(Relay.Initial, e0, false).0;
    var s2 := Relay.Advance(s1, e1, false).0;
    var s3 := Relay.Advance(s2, e2, false).0;
    var s4 := Relay.Advance(s3, e3, false).0;
    assert Relay.Advance(Relay.Initial, e0, false).1 == [] && Relay.Advance(s1, e1, false).1 == [];
    assert Relay.Advance(s2, e2, false).1 == [] && Relay.Advance(s3, e3, false).1 == [];
    assert s4.slots == Relay.Slots(Some(a), Some(c), Some(b), Some(d));
    assert s4.conns == map[a := Relay.Reading(JStr("controlled_screen")), b := Relay.Reading(JStr("controlled_input")),
                           c := Relay.Reading(JStr("controller_screen")), d := Relay.Reading(JStr("controller_input"))];
    Relay.RunFour(Relay.Initial, e0, e1, e2, e3, false);
  }


  /** A captured frame reaches the controller's screen: the relay forwards
      it unchanged and, being a JPEG rather than JSON, the controller hands
      exactly the encoded bytes to the image decoder. */
  lemma CapturedFrameDrawn(last: real, t: Controlled.Tick, s: Controller.Session,
                           parse: seq<byte> -> Parse,
                           st: Relay.Server, c: Relay.ConnId, d: Relay.ConnId)
    requires Controlled.CaptureTick(last, t).1.Captured? && t.encoded.Some?
    requires t.encoded.value != [] && parse(t.encoded.value).DecodeError?
    requires ScreenRouted(st, c, d)
    ensures var out := Controlled.CaptureTick(last, t).1.sent;
      var f := Framing.ReadFrame(out.value);
      && out.Some? && f.Frame? && f.payload == t.encoded.value
      && Relay.Step(st, Relay.Data(c, f.header, f.payload)) == (st, [Relay.Send(d, out.value)])
      && Controller.DispatchPayload(s, Some(f.payload), parse) == Controller.Image(t.encoded.value)
  {
    var out := Controlled.CaptureTick(last, t).1.sent.value;
    Framing.ReadPackedFrame(t.encoded.value, []);
    assert out + [] == out;
    var f := Framing.ReadFrame(out);
    Relay.DeliveredToLivePeer(st, c, f.header, f.payload);
  }

  // ---------------------------------------------------------------------
  // Activation of the controller's mouse forwarding

  /** A JPEG file begins with the SOI marker 0xFF 0xD8 (Annex B of ITU-T
      T.81), and the byte 0xFF never occurs in UTF-8 (section 3 of RFC
      3629), so `data.decode()` rejects every encoded capture. */
  predicate JpegCapture(p: seq<byte>)
  {
    p != [] && p[0] == 0xFF
  }

  ghost predicate RejectsJpeg(parse: seq<byte> -> Parse)
  {
    forall p: seq<byte> :: JpegCapture(p) ==> parse(p).DecodeError?
  }

  /** As shipped, the controller never turns `connection_active` on, so
      `handle_mouse` never runs: the only payloads on its screen channel are
      the bodies of the frames the capture loop sends, and none of them is
      JSON. */
  lemma MouseNeverEnabled(last: real, ticks: seq<Controlled.Tick>,
                          payloads: seq<Option<seq<byte>>>, parse: seq<byte> -> Parse)
    requires forall i | 0 <= i < |ticks| :: ticks[i].encoded.Some? ==> JpegCapture(ticks[i].encoded.value)
    requires RejectsJpeg(parse)
    requires forall i | 0 <= i < |payloads| :: payloads[i].Some? ==>
      exists f | f in Controlled.CaptureLoop(last, ticks).1 ::
        Framing.ReadFrame(f).Frame? && payloads[i].value == Framing.ReadFrame(f).payload
    ensures !Controller.DispatchAll(Controller.InitialSession, payloads, parse).0.active
  {
    Controller.ActiveIffAnnounced(Controller.InitialSession, payloads, parse);
    Controlled.SentFramesAreEncodedCaptures(last, ticks);
    forall i | 0 <= i < |payloads|
      ensures !Controller.ActivatingPayload(payloads[i], parse)
    {
      if payloads[i].Some? {
        var f :| f in Controlled.CaptureLoop(last, ticks).1 &&
                 Framing.ReadFrame(f).Frame? && payloads[i].value == Framing.ReadFrame(f).payload;
        var j :| 0 <= j < |ticks| && ticks[j].encoded == Some(Framing.ReadFrame(f).payload);
        assert JpegCapture(payloads[i].value);
      }
    }
  }

  /** The announcement the controller waits for: the controlled side's
      monitor size as a `screen_info` message. */
  function ScreenAnnouncement(m: Controlled.Monitor): Json
  {
    JObj(map["type" := JStr("screen_info"), "width" := JInt(m.width), "height" := JInt(m.height)])
  }

  /** With the controlled side sending `ScreenAnnouncement` on its screen
      channel before its first capture, the controller adopts the monitor's
      size and stays active, whatever follows. */
  lemma AnnouncedScreenEnablesMouse(m: Controlled.Monitor, dumps: Json -> seq<byte>,
                                    parse: seq<byte> -> Parse, later: seq<Option<seq<byte>>>)
    requires Codec(dumps, parse, ScreenAnnouncement(m))
    ensures Controller.DispatchPayload(Controller.InitialSession, Some(dumps(ScreenAnnouncement(m))), parse)
      == Controller.Control(Controller.Session(JInt(m.width), JInt(m.height), true))
    ensures Controller.DispatchAll(Controller.InitialSession, [Some(dumps(ScreenAnnouncement(m)))] + later, parse).0.active
  {
    var payloads := [Some(dumps(ScreenAnnouncement(m)))] + later;
    var fields := ScreenAnnouncement(m).fields;
    assert GetOr(fields, "type", JNull) == JStr("screen_info");
    assert GetOr(fields, "width", JInt(1920)) == JInt(m.width);
    assert GetOr(fields, "height", JInt(1080)) == JInt(m.height);
    assert Controller.ActivatingPayload(payloads[0], parse);
    Controller.ActiveIffAnnounced(Controller.InitialSession, payloads, parse);
  }
}
