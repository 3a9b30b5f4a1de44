/** The relay server of server.py: four global slots, one per (role, channel),
    filled by each connection's classification message, and a per-connection
    read loop that forwards raw frames to a fixed peer slot. The threads of the
    server are modelled as one sequential interleaving of their events. */
module Relay {
  import opened Base
  import Framing

  /** Identity of one accepted socket. Every accepted socket gets a fresh id. */
  type ConnId = nat

  datatype Role = ControlledScreen | ControllerScreen | ControlledInput | ControllerInput

  /** The classification string a client sends as its first message. */
  function RoleName(r: Role): string
  {
    match r
    case ControlledScreen => "controlled_screen"
    case ControllerScreen => "controller_screen"
    case ControlledInput => "controlled_input"
    case ControllerInput => "controller_input"
  }

  /** The `if client_type == ...` chain: a slot is chosen only for the four
      exact strings; every other decoded value, `None` included, selects none. */
  function Classify(v: Json): (r: Option<Role>)
    ensures r.Some? ==> v == JStr(RoleName(r.value))
    ensures r.None? ==> forall q: Role :: v != JStr(RoleName(q))
  {
    if v == JStr("controlled_screen") then Some(ControlledScreen)
    else if v == JStr("controller_screen") then Some(ControllerScreen)
    else if v == JStr("controlled_input") then Some(ControlledInput)
    else if v == JStr("controller_input") then Some(ControllerInput)
    else None
  }

  /** The server's four module-level variables. */
  datatype Slots = Slots(controlledScreen: Option<ConnId>, controllerScreen: Option<ConnId>,
                         controlledInput: Option<ConnId>, controllerInput: Option<ConnId>)

  const NoSlots := Slots(None, None, None, None)

  function Slot(t: Slots, r: Role): Option<ConnId>
  {
    match r
    case ControlledScreen => t.controlledScreen
    case ControllerScreen => t.controllerScreen
    case ControlledInput => t.controlledInput
    case ControllerInput => t.controllerInput
  }

  /** Assigning one global; the other three keep their occupants. */
  function WithSlot(t: Slots, r: Role, c: Option<ConnId>): (t': Slots)
    ensures Slot(t', r) == c
    ensures forall q: Role :: q != r ==> Slot(t', q) == Slot(t, q)
  {
    match r
    case ControlledScreen => t.(controlledScreen := c)
    case ControllerScreen => t.(controllerScreen := c)
    case ControlledInput => t.(controlledInput := c)
    case ControllerInput => t.(controllerInput := c)
  }

  /** The fixed forwarding direction: screen frames go from the controlled
      machine to the controller, input frames from the controller to the
      controlled machine; the other two roles never forward. */
  function Peer(r: Role): Option<Role>
  {
    match r
    case ControlledScreen => Some(ControllerScreen)
    case ControllerInput => Some(ControlledInput)
    case _ => None
  }

  /** One handler thread: still in its read loop with the decoded first
      message as `client_type`, ended through the teardown (socket closed),
      or ended by an uncaught exception (socket left open). */
  datatype ConnState = Reading(clientType: Json) | Closed | Dead

  datatype Server = Server(slots: Slots, conns: map<ConnId, ConnState>)

  const Initial := Server(NoSlots, map[])

  /** What a handler thread observes, in the order it observes it. */
  datatype Event =
    | Accept(conn: ConnId, first: Framing.Received)          // the classification `recvmsg`
    | Data(conn: ConnId, header: seq<byte>, body: seq<byte>)  // one complete frame of the read loop
    | Eof(conn: ConnId)                                       // a short header or a short body

  /** One `sendall` to the socket in a slot. */
  datatype Send = Send(target: ConnId, bytes: seq<byte>)

  /** `client_type` after the classification `recvmsg`: its `None` for a
      closed stream is the same Python value as a decoded JSON `null`. */
  function ClientType(m: Framing.Received): Json
    requires !m.Raised?
  {
    if m.Message? then m.value else JNull
  }

  /** Names the teardown compares `client_type` with. They match none of the
      four classification strings. */
  predicate LegacyName(v: Json)
  {
    v == JStr("controlled") || v == JStr("controller")
  }

  function IsReading(st: Server, c: ConnId): bool
  {
    c in st.conns && st.conns[c].Reading?
  }

  /** The socket frames of `c` are sent to: the occupant, right now, of the
      peer slot of `c`'s classification. */
  function ForwardTarget(st: Server, c: ConnId): (r: Option<ConnId>)
    requires IsReading(st, c)
    ensures r.Some? ==> st.conns[c].clientType in {JStr("controlled_screen"), JStr("controller_input")}
    ensures r.Some? ==> r == st.slots.controllerScreen || r == st.slots.controlledInput
  {
    match Classify(st.conns[c].clientType)
    case None => None
    case Some(role) =>
      match Peer(role)
      case None => None
      case Some(q) => Slot(st.slots, q)
  }

  /** Every occupied slot names a connection the server has accepted. */
  ghost predicate Valid(st: Server)
  {
    forall r: Role :: Slot(st.slots, r).Some? ==> Slot(st.slots, r).value in st.conns
  }

  /** The teardown as server.py writes it: compares with 'controlled' and
      'controller', then closes the socket. */
  function TeardownAsWritten(st: Server, c: ConnId): (r: Server)
    requires IsReading(st, c)
    ensures r.conns == st.conns[c := Closed]
    ensures !LegacyName(st.conns[c].clientType) ==> r.slots == st.slots
    ensures forall q: Role :: Slot(r.slots, q) == Slot(st.slots, q) || Slot(r.slots, q) == None
  {
    var t := st.conns[c].clientType;
    var slots :=
      if t == JStr("controlled") then WithSlot(st.slots, ControlledScreen, None)
      else if t == JStr("controller") then WithSlot(st.slots, ControllerScreen, None)
      else st.slots;
    Server(slots, st.conns[c := Closed])
  }

  /** Removing a connection from every slot it still occupies. */
  function Unregister(t: Slots, c: ConnId): (t': Slots)
    ensures forall r: Role :: Slot(t', r) == (if Slot(t, r) == Some(c) then None else Slot(t, r))
  {
    Slots(if t.controlledScreen == Some(c) then None else t.controlledScreen,
          if t.controllerScreen == Some(c) then None else t.controllerScreen,
          if t.controlledInput == Some(c) then None else t.controlledInput,
          if t.controllerInput == Some(c) then None else t.controllerInput)
  }

  /** The teardown the code evidently intends: the disconnecting socket
      leaves whatever slot it still holds, and only that. */
  function TeardownIntended(st: Server, c: ConnId): Server
    requires IsReading(st, c)
  {
    Server(Unregister(st.slots, c), st.conns[c := Closed])
  }

  function Teardown(st: Server, c: ConnId, intended: bool): Server
    requires IsReading(st, c)
  {
    if intended then TeardownIntended(st, c) else TeardownAsWritten(st, c)
  }

  /** One frame of the read loop: sent on, as read, to the peer slot's socket
      if one is registered, otherwise dropped. Sending on a socket whose own
      handler has already closed it raises, which ends the sender's handler
      without its teardown. */
  function Forward(st: Server, c: ConnId, header: seq<byte>, body: seq<byte>): (r: (Server, seq<Send>))
    requires IsReading(st, c)
    ensures r.0.slots == st.slots && r.0.conns.Keys == st.conns.Keys
    ensures r.1 == [] <==> (ForwardTarget(st, c).None? ||
      (ForwardTarget(st, c).value in st.conns && st.conns[ForwardTarget(st, c).value].Closed?))
    ensures r.1 != [] ==> r == (st, [Send(ForwardTarget(st, c).value, header + body)])
    ensures r.1 == [] && ForwardTarget(st, c).Some? ==> r.0.conns == st.conns[c := Dead]
  {
    match ForwardTarget(st, c)
    case None => (st, [])
    case Some(d) =>
      if d in st.conns && st.conns[d].Closed? then (st.(conns := st.conns[c := Dead]), [])
      else (st, [Send(d, header + body)])
  }

  function Advance(st: Server, e: Event, intended: bool): (r: (Server, seq<Send>))
    ensures |r.1| <= 1
    ensures r.1 != [] ==> e.Data? && e.body != [] && r.0 == st
    ensures r.0.conns.Keys == st.conns.Keys + (if e.Accept? then {e.conn} else {})
    ensures !e.Accept? ==> forall q: Role :: Slot(r.0.slots, q) == Slot(st.slots, q) || Slot(r.0.slots, q) == None
  {
    match e
    case Accept(c, first) =>
      if first.Raised? then (st.(conns := st.conns[c := Dead]), [])
      else
        var t := ClientType(first);
        var slots := match Classify(t)
          case Some(role) => WithSlot(st.slots, role, Some(c))
          case None => st.slots;
        (Server(slots, st.conns[c := Reading(t)]), [])
    case Data(c, header, body) =>
      if !IsReading(st, c) then (st, [])
      // `recvall(s, 0)` is b'', which `if not data` treats as the end
      else if body == [] then (Teardown(st, c, intended), [])
      else Forward(st, c, header, body)
    case Eof(c) =>
      if !IsReading(st, c) then (st, [])
      else (Teardown(st, c, intended), [])
  }

  /** `handle_client_packets`, one observed event at a time. */
  function Step(st: Server, e: Event): (r: (Server, seq<Send>))
    ensures !e.Accept? && !(IsReading(st, e.conn) && LegacyName(st.conns[e.conn].clientType)) ==>
      r.0.slots == st.slots
  {
    Advance(st, e, false)
  }

  /** The same handler with the intended teardown. */
  function StepIntended(st: Server, e: Event): (r: (Server, seq<Send>))
    ensures (e.Eof? || (e.Data? && e.body == [])) && IsReading(st, e.conn) ==>
      forall q: Role :: Slot(r.0.slots, q) != Some(e.conn)
  {
    Advance(st, e, true)
  }

  /** A sequential interleaving of the handlers' events, with every send in order. */
  function Run(st: Server, es: seq<Event>, intended: bool): (r: (Server, seq<Send>))
    ensures |r.1| <= |es|
    ensures st.conns.Keys <= r.0.conns.Keys
    decreases |es|
  {
    if es == [] then (st, [])
    else
      var first := Advance(st, es[0], intended);
      var rest := Run(first.0, es[1..], intended);
      (rest.0, first.1 + rest.1)
  }

  lemma RunSingle(st: Server, e: Event, intended: bool)
    ensures Run(st, [e], intended) == Advance(st, e, intended)
  {
    assert [e][1..] == [];
    assert Advance(st, e, intended).1 + [] == Advance(st, e, intended).1;
  }

  /** Running two event sequences one after the other is running their
      concatenation: the state threads through, and the sends concatenate. */
  lemma {:induction false} RunAppend(st: Server, es: seq<Event>, fs: seq<Event>, intended: bool)
    ensures var mid := Run(st, es, intended);
      Run(st, es + fs, intended) == (Run(mid.0, fs, intended).0, mid.1 + Run(mid.0, fs, intended).1)
    decreases |es|
  {
    if es == [] {
      assert es + fs == fs;
      assert [] + Run(st, fs, intended).1 == Run(st, fs, intended).1;
    } else {
      var e, rest := es[0], es[1..];
      assert es == [e] + rest;
      assert es + fs == [e] + (rest + fs);
      var first := Advance(st, e, intended);
      RunAppend(first.0, rest, fs, intended);
      RunCons(st, e, rest, intended);
      RunCons(st, e, rest + fs, intended);
      var mid := Run(first.0, rest, intended);
      SendsInFront(first.1, mid.1, Run(first.0, rest + fs, intended), Run(mid.0, fs, intended));
    }
  }

  /** The bookkeeping of `RunAppend`: sends made before both runs keep the
      append relation between them. */
  lemma SendsInFront(pre: seq<Send>, mid: seq<Send>, whole: (Server, seq<Send>), last: (Server, seq<Send>))
    requires whole == (last.0, mid + last.1)
    ensures (whole.0, pre + whole.1) == (last.0, (pre + mid) + last.1)
  {
    assert pre + (mid + last.1) == (pre + mid) + last.1;
  }

  /** One event in front of a run. */
  lemma RunCons(st: Server, e: Event, rest: seq<Event>, intended: bool)
    ensures var first := Advance(st, e, intended);
      Run(st, [e] + rest, intended) == (Run(first.0, rest, intended).0, first.1 + Run(first.0, rest, intended).1)
  {
    assert ([e] + rest)[0] == e && ([e] + rest)[1..] == rest;
  }

  /** One more event after a run: the state threads through and its sends
      are appended. */
  lemma RunSnoc(st: Server, es: seq<Event>, e: Event, intended: bool)
    ensures var mid := Run(st, es, intended);
      Run(st, es + [e], intended) == (Advance(mid.0, e, intended).0, mid.1 + Advance(mid.0, e, intended).1)
  {
    RunAppend(st, es, [e], intended);
    RunSingle(Run(st, es, intended).0, e, intended);
  }

  /** Four events, one at a time. */
  lemma RunFour(st: Server, e0: Event, e1: Event, e2: Event, e3: Event, intended: bool)
    ensures var r0 := Advance(st, e0, intended);
      var r1 := Advance(r0.0, e1, intended);
      var r2 := Advance(r1.0, e2, intended);
      var r3 := Advance(r2.0, e3, intended);
      Run(st, [e0, e1, e2, e3], intended) == (r3.0, r0.1 + r1.1 + r2.1 + r3.1)
  {
    RunSingle(st, e0, intended);
    RunSnoc(st, [e0], e1, intended);
    assert [e0] + [e1] == [e0, e1];
    RunSnoc(st, [e0, e1], e2, intended);
    assert [e0, e1] + [e2] == [e0, e1, e2];
    RunSnoc(st, [e0, e1, e2], e3, intended);
    assert [e0, e1, e2] + [e3] == [e0, e1, e2, e3];
  }

  // ---------------------------------------------------------------------
  // Classification

  /** The first message assigns the slot it names, superseding whatever
      connection held it; any other message leaves all four slots alone. */
  lemma AcceptAssignsSlot(st: Server, c: ConnId, m: Framing.Received)
    ensures var st' := Step(st, Accept(c, m)).0;
      && (m.Message? && Classify(m.value).Some? ==>
            && Slot(st'.slots, Classify(m.value).value) == Some(c)
            && forall q: Role :: q != Classify(m.value).value ==> Slot(st'.slots, q) == Slot(st.slots, q))
      && (!(m.Message? && Classify(m.value).Some?) ==> st'.slots == st.slots)
      && (m.Raised? <==> st'.conns[c] == Dead)
      && Step(st, Accept(c, m)).1 == []
  {
  }

  // ---------------------------------------------------------------------
  // Forwarding

  /** Only a non-empty frame is ever sent on, as a single `sendall` of its
      header and body, to the socket in the sender's fixed peer slot. */
  lemma SendsAreForwardedFrames(st: Server, e: Event)
    ensures var out := Step(st, e).1;
      out != [] ==>
        && e.Data? && e.body != [] && IsReading(st, e.conn)
        && out == [Send(ForwardTarget(st, e.conn).value, e.header + e.body)]
        && ForwardTarget(st, e.conn).Some?
  {
  }

  /** Frames from a controlled_screen connection go to the controller_screen
      slot, frames from controller_input to the controlled_input slot, and
      frames from any other connection nowhere. */
  lemma ForwardingDirection(st: Server, c: ConnId)
    requires IsReading(st, c)
    ensures st.conns[c].clientType == JStr("controlled_screen") ==>
      ForwardTarget(st, c) == st.slots.controllerScreen
    ensures st.conns[c].clientType == JStr("controller_input") ==>
      ForwardTarget(st, c) == st.slots.controlledInput
    ensures st.conns[c].clientType != JStr("controlled_screen") &&
            st.conns[c].clientType != JStr("controller_input") ==>
      ForwardTarget(st, c) == None
  {
  }

  /** With the peer slot empty, a frame is dropped: no send, no state change. */
  lemma DroppedWithoutPeer(st: Server, c: ConnId, header: seq<byte>, body: seq<byte>)
    requires IsReading(st, c) && ForwardTarget(st, c).None?
    ensures body != [] ==> Step(st, Data(c, header, body)) == (st, [])
  {
  }

  /** With a live peer registered, the frame is sent to it and nothing else
      changes. The slot is read at the time of each frame, so a peer that
      registers between two frames receives the second. */
  lemma DeliveredToLivePeer(st: Server, c: ConnId, header: seq<byte>, body: seq<byte>)
    requires IsReading(st, c) && ForwardTarget(st, c).Some? && body != []
    requires var d := ForwardTarget(st, c).value; d !in st.conns || !st.conns[d].Closed?
    ensures Step(st, Data(c, header, body)) == (st, [Send(ForwardTarget(st, c).value, header + body)])
  {
  }

  /** A connection whose slot has since been taken by a newer connection
      keeps forwarding: the check is on its own `client_type`, not on the
      slot it once held. */
  lemma SupersededSenderStillForwards(st: Server, prior: ConnId, later: ConnId, d: ConnId, body: seq<byte>)
    requires prior != later && IsReading(st, prior) && st.conns[prior].clientType == JStr("controlled_screen")
    requires st.slots.controllerScreen == Some(d) && d in st.conns && st.conns[d].Reading?
    requires |body| < Framing.LengthLimit
    ensures var st' := Step(st, Accept(later, Framing.Message(JStr("controlled_screen")))).0;
      && st'.slots.controlledScreen == Some(later)
      && (body != [] ==> Step(st', Data(prior, Framing.EncodeLength(|body|), body)).1
                         == [Send(d, Framing.EncodeLength(|body|) + body)])
  {
  }

  // ---------------------------------------------------------------------
  // End of a connection

  /** A frame of length zero ends the read loop exactly as end of stream does. */
  lemma ZeroLengthFrameEndsLoop(st: Server, c: ConnId, header: seq<byte>)
    ensures Step(st, Data(c, header, [])) == Step(st, Eof(c))
    ensures IsReading(st, c) ==> Step(st, Eof(c)).0.conns[c] == Closed && Step(st, Eof(c)).1 == []
  {
  }

  /** The teardown as written never clears the slot of a connection that
      classified as one of the four roles; only a client that sent the bare
      string "controlled" or "controller" clears a (screen) slot. */
  lemma TeardownClearsNoRoleSlot(st: Server, c: ConnId)
    requires IsReading(st, c)
    ensures var st' := Step(st, Eof(c)).0;
      && (!LegacyName(st.conns[c].clientType) ==> st'.slots == st.slots)
      && (st.conns[c].clientType == JStr("controlled") ==>
            st'.slots == st.slots.(controlledScreen := None))
      && (st.conns[c].clientType == JStr("controller") ==>
            st'.slots == st.slots.(controllerScreen := None))
  {
  }

  /** Every step keeps the slots pointing at accepted connections. */
  lemma AdvancePreservesValid(st: Server, e: Event, intended: bool)
    requires Valid(st)
    ensures Valid(Advance(st, e, intended).0)
  {
    var st' := Advance(st, e, intended).0;
    forall r: Role | Slot(st'.slots, r).Some?
      ensures Slot(st'.slots, r).value in st'.conns
    {
    }
  }

  lemma {:induction false} RunPreservesValid(st: Server, es: seq<Event>, intended: bool)
    requires Valid(st)
    ensures Valid(Run(st, es, intended).0)
    decreases |es|
  {
    if es != [] {
      AdvancePreservesValid(st, es[0], intended);
      RunPreservesValid(Advance(st, es[0], intended).0, es[1..], intended);
    }
  }

  // ---------------------------------------------------------------------
  // Registration order

  /** The connection whose classification of `role` comes last in `es`. */
  function LastRegistered(es: seq<Event>, role: Role): Option<ConnId>
    decreases |es|
  {
    if es == [] then None
    else match LastRegistered(es[1..], role)
      case Some(c) => Some(c)
      case None =>
        if es[0].Accept? && es[0].first.Message? && Classify(es[0].first.value) == Some(role)
        then Some(es[0].conn) else None
  }

  predicate NoLegacyClients(st: Server)
  {
    forall c | c in st.conns :: !(st.conns[c].Reading? && LegacyName(st.conns[c].clientType))
  }

  predicate NoLegacyAccepts(es: seq<Event>)
  {
    forall i | 0 <= i < |es| :: !(es[i].Accept? && es[i].first.Message? && LegacyName(es[i].first.value))
  }

  /** Whatever the interleaving, each slot ends up holding the last connection
      that classified for it, or keeps its occupant if none did: frames and
      disconnects never change a slot (as long as no client uses the two
      names the teardown compares with). */
  lemma {:induction false} LastRegistrationWins(st: Server, es: seq<Event>, role: Role)
    requires NoLegacyClients(st) && NoLegacyAccepts(es)
    ensures NoLegacyClients(Run(st, es, false).0)
    ensures Slot(Run(st, es, false).0.slots, role) ==
      match LastRegistered(es, role)
      case Some(c) => Some(c)
      case None => Slot(st.slots, role)
    decreases |es|
  {
    if es != [] {
      var st1 := Advance(st, es[0], false).0;
      assert NoLegacyClients(st1);
      assert NoLegacyAccepts(es[1..]) by {
        forall i | 0 <= i < |es[1..]| ensures !(es[1..][i].Accept? && es[1..][i].first.Message? && LegacyName(es[1..][i].first.value)) {
          assert es[1..][i] == es[i + 1];
        }
      }
      LastRegistrationWins(st1, es[1..], role);
    }
  }

  predicate AllRegistered(t: Slots)
  {
    t.controlledScreen.Some? && t.controllerScreen.Some? && t.controlledInput.Some? && t.controllerInput.Some?
  }

  /** Starting empty, the four slots are all filled after a run exactly when
      each of the four roles was classified at least once, in any order. */
  lemma AllFourRegisteredInAnyOrder(es: seq<Event>)
    requires NoLegacyAccepts(es)
    ensures AllRegistered(Run(Initial, es, false).0.slots) <==>
      forall r: Role :: LastRegistered(es, r).Some?
  {
    var t := Run(Initial, es, false).0.slots;
    LastRegistrationWins(Initial, es, ControlledScreen);
    LastRegistrationWins(Initial, es, ControllerScreen);
    LastRegistrationWins(Initial, es, ControlledInput);
    LastRegistrationWins(Initial, es, ControllerInput);
    assert t.controlledScreen.Some? <==> LastRegistered(es, ControlledScreen).Some?;
    assert t.controllerScreen.Some? <==> LastRegistered(es, ControllerScreen).Some?;
    assert t.controlledInput.Some? <==> LastRegistered(es, ControlledInput).Some?;
    assert t.controllerInput.Some? <==> LastRegistered(es, ControllerInput).Some?;
    if forall r: Role :: LastRegistered(es, r).Some? {
      assert AllRegistered(t);
    }
    if AllRegistered(t) {
      forall r: Role ensures LastRegistered(es, r).Some? {
        match r
        case ControlledScreen =>
        case ControllerScreen =>
        case ControlledInput =>
        case ControllerInput =>
      }
    }
  }

  // ---------------------------------------------------------------------
  // One connection's read loop

  /** The events one handler's read loop observes when its client sends `b`
      and then closes: a frame per complete non-empty frame, ending in a
      short read or a zero-length frame. */
  function ReaderEvents(c: ConnId, b: seq<byte>): (es: seq<Event>)
    ensures |es| >= 1
    ensures forall i | 0 <= i < |es| :: es[i].conn == c && !es[i].Accept?
    ensures forall i | 0 <= i < |es| - 1 :: es[i].Data? && es[i].body != []
    ensures es[|es| - 1].Eof? || (es[|es| - 1].Data? && es[|es| - 1].body == [])
    ensures !Framing.ReadFrame(b).Frame? ==> es == [Eof(c)]
    ensures Framing.ReadFrame(b).Frame? ==>
      es[0] == Data(c, Framing.ReadFrame(b).header, Framing.ReadFrame(b).payload)
    ensures forall i | 0 <= i < |es| :: es[i].Data? ==>
      |es[i].header| == Framing.HeaderSize && Framing.DecodeLength(es[i].header) == |es[i].body|
    decreases |b|
  {
    match Framing.ReadFrame(b)
    case Frame(header, body, rest) =>
      if body == [] then [Data(c, header, body)]
      else
        var tail := ReaderEvents(c, rest);
        DataInFront(c, header, body, tail);
        [Data(c, header, body)] + tail
    case _ => [Eof(c)]
  }

  /** A whole non-empty frame read in front of a read loop's events keeps
      the shape `ReaderEvents` promises. */
  lemma DataInFront(c: ConnId, header: seq<byte>, body: seq<byte>, tail: seq<Event>)
    requires body != [] && |header| == Framing.HeaderSize && Framing.DecodeLength(header) == |body|
    requires |tail| >= 1
    requires forall i | 0 <= i < |tail| :: tail[i].conn == c && !tail[i].Accept?
    requires forall i | 0 <= i < |tail| - 1 :: tail[i].Data? && tail[i].body != []
    requires tail[|tail| - 1].Eof? || (tail[|tail| - 1].Data? && tail[|tail| - 1].body == [])
    requires forall i | 0 <= i < |tail| :: tail[i].Data? ==>
      |tail[i].header| == Framing.HeaderSize && Framing.DecodeLength(tail[i].header) == |tail[i].body|
    ensures var es := [Data(c, header, body)] + tail;
      && (forall i | 0 <= i < |es| :: es[i].conn == c && !es[i].Accept?)
      && (forall i | 0 <= i < |es| - 1 :: es[i].Data? && es[i].body != [])
      && (es[|es| - 1].Eof? || (es[|es| - 1].Data? && es[|es| - 1].body == []))
      && (forall i | 0 <= i < |es| :: es[i].Data? ==>
            |es[i].header| == Framing.HeaderSize && Framing.DecodeLength(es[i].header) == |es[i].body|)
  {
    var es := [Data(c, header, body)] + tail;
    assert forall i | 1 <= i < |es| :: es[i] == tail[i - 1];
  }

  /** The bytes a list of events would put on the wire if every frame were sent on. */
  function Wire(es: seq<Event>): seq<byte>
    decreases |es|
  {
    if es == [] then []
    else (if es[0].Data? && es[0].body != [] then es[0].header + es[0].body else []) + Wire(es[1..])
  }

  lemma WireCons(e: Event, tail: seq<Event>)
    ensures Wire([e] + tail) == (if e.Data? && e.body != [] then e.header + e.body else []) + Wire(tail)
  {
    assert ([e] + tail)[0] == e && ([e] + tail)[1..] == tail;
  }

  /** A frame, then a prefix of what follows it, is a prefix of the stream,
      and the bytes after it are those after the inner prefix. */
  lemma FrameThenPrefix(b: seq<byte>, f: seq<byte>, rest: seq<byte>, w: seq<byte>)
    requires b == f + rest && w <= rest
    ensures f + w <= b && b[|f + w|..] == rest[|w|..]
  {
    assert b[..|f + w|] == f + w;
  }

  function SentBytes(out: seq<Send>): seq<byte>
    decreases |out|
  {
    if out == [] then [] else out[0].bytes + SentBytes(out[1..])
  }

  /** What a read loop forwards is, byte for byte, a prefix of its input: the
      frames it read, each with its original header. */
  lemma {:induction false} ReaderWireIsPrefix(c: ConnId, b: seq<byte>)
    ensures Wire(ReaderEvents(c, b)) <= b
    ensures var rest := b[|Wire(ReaderEvents(c, b))|..];
      !(Framing.ReadFrame(rest).Frame? && Framing.ReadFrame(rest).payload != [])
    decreases |b|
  {
    match Framing.ReadFrame(b)
    case Frame(header, body, rest) =>
      var es := ReaderEvents(c, b);
      if body == [] {
        assert Wire(es) == [] + Wire(es[1..]);
        assert es[1..] == [];
        assert b[|Wire(es)|..] == b;
      } else {
        ReaderWireIsPrefix(c, rest);
        assert es == [es[0]] + ReaderEvents(c, rest);
        WireCons(es[0], ReaderEvents(c, rest));
        FrameThenPrefix(b, header + body, rest, Wire(ReaderEvents(c, rest)));
      }
    case _ =>
      assert Wire([Eof(c)]) == [] + Wire([]);
      assert b[|Wire([Eof(c)])|..] == b;
  }

  /** While a live peer stays registered, running one connection's read loop
      sends the peer exactly the frames of that connection's stream, in order
      and unmodified, and nothing to anyone else; then the loop closes. */
  lemma {:induction false} ReaderDeliversAll(st: Server, c: ConnId, d: ConnId, es: seq<Event>)
    requires IsReading(st, c) && c != d && ForwardTarget(st, c) == Some(d)
    requires d in st.conns && !st.conns[d].Closed?
    requires |es| >= 1
    requires forall i | 0 <= i < |es| :: es[i].conn == c && !es[i].Accept?
    requires forall i | 0 <= i < |es| - 1 :: es[i].Data? && es[i].body != []
    requires es[|es| - 1].Eof? || (es[|es| - 1].Data? && es[|es| - 1].body == [])
    ensures SentBytes(Run(st, es, false).1) == Wire(es)
    ensures |Run(st, es, false).1| == |es| - 1
    ensures forall k | 0 <= k < |es| - 1 :: Run(st, es, false).1[k] == Send(d, es[k].header + es[k].body)
    ensures forall s | s in Run(st, es, false).1 :: s.target == d
    ensures c in Run(st, es, false).0.conns && Run(st, es, false).0.conns[c] == Closed
    decreases |es|
  {
    var first := Advance(st, es[0], false);
    if |es| == 1 {
      assert es[1..] == [];
      assert first.1 == [];
      assert Wire(es) == [] + Wire(es[1..]);
    } else {
      assert es[0].Data? && es[0].body != [];
      assert first == (st, [Send(d, es[0].header + es[0].body)]);
      ReaderDeliversAll(st, c, d, es[1..]);
      var rest := Run(st, es[1..], false);
      assert Run(st, es, false).1 == [Send(d, es[0].header + es[0].body)] + rest.1;
      assert ([Send(d, es[0].header + es[0].body)] + rest.1)[1..] == rest.1;
      assert forall k | 1 <= k < |es| - 1 :: es[1..][k - 1] == es[k];
    }
  }

  /** A header declaring exactly the body's length, followed by that body,
      reads back as one whole frame with nothing left over. */
  lemma WholeFrameReads(header: seq<byte>, body: seq<byte>)
    requires |header| == Framing.HeaderSize && Framing.DecodeLength(header) == |body|
    ensures Framing.ReadFrame(header + body) == Framing.Frame(header, body, [])
  {
    Framing.EncodeDecodeLength(header);
    assert header + body == Framing.Pack(body).value + [];
    Framing.ReadPackedFrame(body, []);
  }

  /** Combining the two: a controlled_screen client that sends `b` and closes
      has the controller_screen socket receive a byte-exact prefix of `b`. */
  lemma ScreenStreamRelayed(st: Server, c: ConnId, d: ConnId, b: seq<byte>)
    requires IsReading(st, c) && st.conns[c].clientType == JStr("controlled_screen")
    requires st.slots.controllerScreen == Some(d) && c != d && d in st.conns && !st.conns[d].Closed?
    ensures SentBytes(Run(st, ReaderEvents(c, b), false).1) <= b
    ensures var rest := b[|SentBytes(Run(st, ReaderEvents(c, b), false).1)|..];
      !(Framing.ReadFrame(rest).Frame? && Framing.ReadFrame(rest).payload != [])
    ensures forall s | s in Run(st, ReaderEvents(c, b), false).1 :: s.target == d
    ensures forall s | s in Run(st, ReaderEvents(c, b), false).1 ::
      && Framing.ReadFrame(s.bytes).Frame?
      && Framing.ReadFrame(s.bytes).payload != []
      && Framing.ReadFrame(s.bytes).rest == []
  {
    var es := ReaderEvents(c, b);
    var sends := Run(st, es, false).1;
    ReaderDeliversAll(st, c, d, es);
    ReaderWireIsPrefix(c, b);
    SendsAreWholeFrames(d, es, sends);
  }

  /** Sends that copy a read loop's data events one for one, header and
      body, each carry one whole non-empty frame. */
  lemma SendsAreWholeFrames(d: ConnId, es: seq<Event>, sends: seq<Send>)
    requires |sends| == |es| - 1
    requires forall i | 0 <= i < |es| - 1 :: es[i].Data? && es[i].body != []
    requires forall i | 0 <= i < |es| :: es[i].Data? ==>
      |es[i].header| == Framing.HeaderSize && Framing.DecodeLength(es[i].header) == |es[i].body|
    requires forall k | 0 <= k < |es| - 1 :: sends[k] == Send(d, es[k].header + es[k].body)
    ensures forall s | s in sends ::
      && Framing.ReadFrame(s.bytes).Frame?
      && Framing.ReadFrame(s.bytes).payload != []
      && Framing.ReadFrame(s.bytes).rest == []
  {
    forall s | s in sends
      ensures Framing.ReadFrame(s.bytes).Frame? && Framing.ReadFrame(s.bytes).payload != []
      ensures Framing.ReadFrame(s.bytes).rest == []
    {
      var k :| 0 <= k < |sends| && sends[k] == s;
      WholeFrameReads(es[k].header, es[k].body);
    }
  }

  // ---------------------------------------------------------------------
  // The teardown: as written, and as intended

  /** As written, a controller_screen that disconnects stays in its slot, so
      the next screen frame is sent to a closed socket: the send raises and
      the controlled_screen handler dies, leaving its socket open. */
  lemma StaleSlotKillsSender(h: seq<byte>, body: seq<byte>)
    requires body != []
    ensures var es := [Accept(1, Framing.Message(JStr("controller_screen"))),
                       Accept(2, Framing.Message(JStr("controlled_screen"))),
                       Eof(1),
                       Data(2, h, body)];
      && Run(Initial, es, false).0.slots.controllerScreen == Some(1)
      && 2 in Run(Initial, es, false).0.conns && Run(Initial, es, false).0.conns[2] == Dead
      && Run(Initial, es, false).1 == []
  {
    var e0, e1, e2, e3 := Accept(1, Framing.Message(JStr("controller_screen"))),
                          Accept(2, Framing.Message(JStr("controlled_screen"))),
                          Eof(1),
                          Data(2, h, body);
    var s1 := Advance(Initial, e0, false).0;
    var s2 := Advance(s1, e1, false).0;
    var s3 := Advance(s2, e2, false).0;
    StaleSlotSteps(h, body, s1, s2, s3);
    RunFour(Initial, e0, e1, e2, e3, false);
  }

  /** The steps of `StaleSlotKillsSender` one by one: after the first three
      the dead controller_screen still holds its slot, and the next frame
      kills the sender without sending anything. */
  lemma StaleSlotSteps(h: seq<byte>, body: seq<byte>, s1: Server, s2: Server, s3: Server)
    requires body != []
    requires s1 == Advance(Initial, Accept(1, Framing.Message(JStr("controller_screen"))), false).0
    requires s2 == Advance(s1, Accept(2, Framing.Message(JStr("controlled_screen"))), false).0
    requires s3 == Advance(s2, Eof(1), false).0
    ensures Advance(Initial, Accept(1, Framing.Message(JStr("controller_screen"))), false).1 == []
    ensures Advance(s1, Accept(2, Framing.Message(JStr("controlled_screen"))), false).1 == []
    ensures Advance(s2, Eof(1), false).1 == []
    ensures s3.slots.controllerScreen == Some(1)
    ensures Advance(s3, Data(2, h, body), false) == (s3.(conns := s3.conns[2 := Dead]), [])
  {
    assert s3.slots.controllerScreen == Some(1) && s3.conns[1] == Closed;
  }


  /** No slot names a socket the server has closed. */
  predicate NoStaleSlots(st: Server)
  {
    forall r: Role :: Slot(st.slots, r).Some? && Slot(st.slots, r).value in st.conns ==>
      !st.conns[Slot(st.slots, r).value].Closed?
  }

  /** With the intended teardown, a disconnect vacates exactly the slots the
      closing socket held, leaves the others untouched, and no slot ever
      names a closed socket. */
  lemma IntendedTeardownIsolates(st: Server, e: Event)
    requires NoStaleSlots(st)
    ensures NoStaleSlots(StepIntended(st, e).0)
    ensures (e.Eof? || (e.Data? && e.body == [])) && IsReading(st, e.conn) ==>
      forall r: Role :: Slot(StepIntended(st, e).0.slots, r) ==
        (if Slot(st.slots, r) == Some(e.conn) then None else Slot(st.slots, r))
  {
    var st' := StepIntended(st, e).0;
    forall r: Role | Slot(st'.slots, r).Some? && Slot(st'.slots, r).value in st'.conns
      ensures !st'.conns[Slot(st'.slots, r).value].Closed?
    {
    }
  }

  /** Under the intended teardown a frame with a registered peer is always
      delivered: no handler dies writing to a closed socket. */
  lemma IntendedNeverWritesToClosed(st: Server, c: ConnId, header: seq<byte>, body: seq<byte>)
    requires NoStaleSlots(st) && Valid(st)
    requires IsReading(st, c) && ForwardTarget(st, c).Some? && body != []
    ensures StepIntended(st, Data(c, header, body)) ==
      (st, [Send(ForwardTarget(st, c).value, header + body)])
  {
    var d := ForwardTarget(st, c).value;
    var role := Classify(st.conns[c].clientType).value;
    assert Slot(st.slots, Peer(role).value) == Some(d);
  }
}
