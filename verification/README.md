# Remote-desktop relay: a Dafny model

This project models a small remote-desktop system made of three Python programs:

- **server.py**: a relay. Four clients connect to it and announce a role: `controlled_screen`, `controller_screen`, `controlled_input` or `controller_input`. It forwards length-prefixed frames from the controlled screen to the controller's screen, and from the controller's input to the controlled input.
- **controller.py**: the viewer. It shows the remote screen letterboxed in a pygame window. It forwards key, pointer and button events as JSON messages, and keeps F11 and Escape for its own fullscreen toggle.
- **controlled.py**: the machine being controlled. It turns received messages into pynput keyboard and mouse actions. It captures its screen at most ten times a second and sends each capture as a JPEG frame.

The model is written in Dafny as pure functions over immutable datatypes, plus one imperative loop. It has seven modules:

| file | module | what it holds |
|---|---|---|
| base.dfy | `Base` | Bytes, `Option`, and the JSON values `json.loads` yields. Also Python truthiness and `dict.get`. |
| framing.dfy | `Framing` | The 4-byte big-endian length header; `sendmsg`; `recvall` over a stream the network delivers in arbitrary chunks; both variants of `recvmsg`. |
| relay.dfy | `Relay` | The server's four-slot table and forwarding rule, as a state machine over handler events. |
| keynames.dfy | `KeyNames` | `get_key_name`: the pygame key table and the `str(key)` fallback. |
| controller.dfy | `Controller` | The fullscreen toggle, key routing, letterbox geometry, pointer normalisation, button edge detection and screen-payload dispatch. |
| controlled.dfy | `Controlled` | Input dispatch, the keyboard, mouse and click mappings, `strip("'")`, and the capture-rate gate. |
| endtoend.dfy | `EndToEnd` | What one program sends, passed through the relay and acted on by the other. |

The JSON library is an oracle. `json.dumps(...).encode()` is a function `dumps: Json -> seq<byte>`. `json.loads(data.decode())` is a function `parse: seq<byte> -> Parse`, where `Parse` is a parsed value or a decode error. Properties that need the library to round-trip take that as a precondition.

The server's handler threads are modelled as one sequential interleaving of events. The events are the first `recvmsg` of a connection (`Accept`), one complete frame read by its loop (`Data`), and a short read (`Eof`). Each event yields a new state and the `sendall`s it performed.

Key codes are pygame 2's values of the `pygame.K_*` constants.

## Model

| member | source | states |
|---|---|---|
| Framing.EncodeLength | server.py:27-30 | The `struct.pack(">L", n)` header is exactly four bytes for every length below 2^32. |
| Framing.DecodeEncodeLength | server.py:30-36 | Unpacking a packed length gives the length back. |
| Framing.DecodeLength | server.py:36 | `struct.unpack(">L", h)[0]` of a 4-byte header is a length below 2^32. |
| Framing.EncodeDecodeLength | server.py:33-36 | Packing an unpacked header gives the header back, so every 4-byte header is a valid length. |
| Framing.Pack | controlled.py:19-22 | `sendmsg` writes a frame exactly when the payload is shorter than 2^32 bytes; otherwise `struct.pack` raises. The frame is 4 + n bytes and ends with the payload. |
| Framing.SendMsg | server.py:27-30 | `sendmsg` produces bytes exactly when the encoded value is shorter than 2^32 bytes. Those bytes read back as one frame: the packed length, the encoded value, and nothing after. |
| Framing.ReadFrame | server.py:32-39 | A stream shorter than 4 bytes is a short header. A stream shorter than 4 + the declared length is a short body. Otherwise the stream splits into header, payload of the declared length, and rest. |
| Framing.ReadPackedFrame | controller.py:26-51 | Framing round trip: a packed payload followed by any bytes reads back as that payload, its header, and the untouched remainder. |
| Framing.ReadFrameIsPackedPrefix | server.py:32-39 | The converse: whatever is read as a frame is the `sendmsg` encoding of its payload, and it was a prefix of the stream. |
| Framing.Recv | server.py:44 | `recv(max)` returns a prefix of the pending bytes of at most `max` bytes. It is empty only when `max` is 0 or the peer has closed. |
| Framing.RecvAll | server.py:41-48 | `recvall(s, n)` returns exactly the next `n` bytes and leaves the rest in the stream. If the stream ends first it returns `None` and the stream is drained. This holds however the network chunks the bytes. Every `recv` asks for at least one byte and at most `min(n, 4096)`. |
| Framing.RecvMsg | server.py:32-39 | server.py and controlled.py `recvmsg`: `None` only on a short header. A short body raises, because `None.decode()` fails, and so does undecodable JSON. Otherwise the parsed value, with the stream left after the frame. |
| Framing.RecvMsgChecked | controller.py:32-41 | controller.py `recvmsg`: the same, except that a short body returns `None`. |
| Framing.SendRecvRoundTrip | controller.py:26-41 | When the codec round-trips `v`, both `recvmsg` variants return `v` from what `sendmsg` wrote, and consume exactly that frame. |
| Framing.RecvMsgVariantsDiffer | controller.py:37-39 | The two `recvmsg` variants disagree exactly on a short body: there controller.py returns `None` and the others raise. |
| Relay.Classify | server.py:57-64 | A role is assigned only for the four exact strings. No other value has a role. |
| Relay.Unregister | server.py:88-91 | The corrected teardown: it removes the closing connection from the slots it still occupies, and leaves every other slot alone. |
| Relay.AcceptAssignsSlot | server.py:54-64 | A role message puts the connection in that role's slot, replacing any previous occupant, and changes no other slot. Any other first message, `None` included, changes no slot. A raising `recvmsg` kills the handler. Nothing is sent. |
| Relay.SendsAreForwardedFrames | server.py:75-82 | Only a non-empty frame is ever sent on. It goes as one `sendall` of the original header followed by the body, to the sender's peer slot. |
| Relay.ForwardingDirection | server.py:78-82 | Frames from `controlled_screen` go to the `controller_screen` slot and frames from `controller_input` to the `controlled_input` slot. Frames from any other classification go nowhere. |
| Relay.DroppedWithoutPeer | server.py:78-82 | With the peer slot empty, a frame is dropped: no send and no state change. |
| Relay.DeliveredToLivePeer | server.py:78-82 | With a live peer in the slot, the frame is sent to it and nothing else changes. The slot is read afresh for every frame. |
| Relay.SupersededSenderStillForwards | server.py:57-79 | A connection whose slot a newer connection has taken still forwards its frames. The check is on its own `client_type`. |
| Relay.ZeroLengthFrameEndsLoop | server.py:66-76 | A zero-length body ends the read loop exactly as end of stream does, because `b''` is falsy. |
| Relay.ForwardTarget | server.py:78-82 | Only a `controlled_screen` or `controller_input` connection has a forwarding target, and the target is the occupant of the `controller_screen` or `controlled_input` slot. |
| Relay.Forward | server.py:78-82 | A frame is sent, as one `sendall` of header and body to the peer slot's connection, unless the slot is empty or holds a closed socket. An empty slot drops the frame. A closed peer makes the `sendall` raise, which kills the sender. No slot changes. |
| Relay.TeardownAsWritten | server.py:88-92 | The teardown closes the connection. It never fills or moves a slot, and it clears none unless the client announced itself as 'controlled' or 'controller'. |
| Relay.Advance | server.py:54-92 | One handler event sends at most one message, and only for a non-empty frame, which changes no state. Only `Accept` adds a connection. Frames and disconnects never fill or move a slot. |
| Relay.Step | server.py:51-92 | With the teardown as written, any event other than `Accept` leaves the slots unchanged unless the reading client announced itself as 'controlled' or 'controller'. |
| Relay.StepIntended | server.py:88-92 | With the corrected teardown, after a disconnect no slot names the closed connection. |
| Relay.Run | server.py:51-92 | Over any sequence of events, at most one send per event, and no connection is ever forgotten. |
| Relay.RunAppend | server.py:51-92 | Running two event sequences one after the other is running their concatenation: the state threads through and the sends concatenate. |
| Relay.TeardownClearsNoRoleSlot | server.py:88-92 | As written, a disconnect never clears the slot of any of the four roles. Only a client named "controlled" or "controller" would clear a screen slot. |
| Relay.AdvancePreservesValid | server.py:51-92 | Every step keeps each slot pointing at a connection the server accepted. |
| Relay.RunPreservesValid | server.py:51-92 | The same holds over any interleaving of events. |
| Relay.LastRegistrationWins | server.py:54-92 | When no client announces itself as 'controlled' or 'controller' (the clients send only the four role names: controlled.py:45-46, controller.py:246-247), after any interleaving, each slot holds the last connection that registered for it, or its old occupant if none did. Frames and disconnects never change a slot. |
| Relay.AllFourRegisteredInAnyOrder | server.py:57-64 | When no client announces itself as 'controlled' or 'controller', starting empty, all four slots are filled exactly when each role registered at least once, in any order. |
| Relay.ReaderEvents | server.py:66-76 | The events one read loop sees for the bytes its client sends: one non-empty frame after another, ending in a short read or a zero-length frame. If the bytes do not start with a complete frame the loop sees only the short read; otherwise its first event is that frame, header and body. Every frame event is a whole frame: a 4-byte header declaring exactly its body's length. |
| Relay.ReaderWireIsPrefix | server.py:66-82 | The frames a read loop would forward are a byte-exact prefix of its input, and a maximal one: what follows them does not start with a complete non-empty frame. |
| Relay.ReaderDeliversAll | server.py:66-92 | While a live peer stays registered, a read loop sends that peer exactly its frames, in order and unmodified: the k-th send is the k-th frame's header and body. It sends nothing to anyone else, and then closes. |
| Relay.WholeFrameReads | server.py:68-79 | A header declaring exactly the body's length, followed by that body, reads back as one whole frame with nothing left over, so what `sendall` forwards is itself one frame. |
| Relay.ScreenStreamRelayed | server.py:78-79 | The `controller_screen` socket receives a byte-exact prefix of what the `controlled_screen` client sent, and nothing is sent anywhere else. Only bytes that do not start with a complete non-empty frame are held back. Every send is exactly one complete non-empty frame, so no incomplete frame is ever forwarded. |
| Relay.StaleSlotKillsSender | server.py:88-92 | As written, a disconnected `controller_screen` stays in its slot. The next screen frame is written to the closed socket, which raises and ends the `controlled_screen` handler without sending anything. |
| Relay.IntendedTeardownIsolates | server.py:88-92 | With the corrected teardown, a disconnect clears exactly the slots the closing socket held, and no slot ever names a closed socket. |
| Relay.IntendedNeverWritesToClosed | server.py:78-92 | With the corrected teardown, a frame with a registered peer is always delivered. |
| KeyNames.TableName | controller.py:57-86 | The key table maps only positive codes, and every name in it is non-empty and has no capital letter. |
| KeyNames.KeyName | controller.py:55-87 | A key's name is never empty. A code in the table gets its table name; any other code gets `str(key)`, which reads back as the code. |
| KeyNames.NatString | controller.py:87 | `str(n)` is a non-empty string of decimal digits. It has one digit exactly when n < 10. |
| KeyNames.IntString | controller.py:87 | `str(k)` starts with `-` or a digit, and the rest is digits. |
| KeyNames.NatStringValue | controller.py:87 | The decimal digits of `str(n)` read back as `n`. |
| KeyNames.IntStringValue | controller.py:87 | `int(str(k)) == k` for every integer. |
| KeyNames.IntStringInjective | controller.py:87 | Distinct unmapped codes are sent under distinct names. |
| KeyNames.NamesNeverStartWithK | controller.py:57-87 | No key name is empty or begins with a capital K. |
| KeyNames.QuoteKeyName | controller.py:81 | Only the quote key's name begins with `'`, and that name is the single character `'`. |
| KeyNames.LocalKeyNamesAreUnique | controller.py:90-102 | Only the F11 code is named "f11" and only the Escape code "esc". No `str(key)` fallback can trigger the local handling. |
| KeyNames.ShiftSidesCollapse | controller.py:75 | Left and right Shift are both sent as "shift", and no other code is. |
| KeyNames.NumericTableNames | controller.py:65-67 | The only table names that look like numbers are the ten digits, each the name of the code equal to its character code. |
| KeyNames.UnmappedCollisions | controller.py:57-87 | An unmapped code shares a name with a mapped one exactly when it is 0 to 7: `str(k)` is then the name of digit key 48 + k. |
| Controller.ToggleFullscreen | controller.py:114-136 | Without a screen the toggle does nothing. Otherwise the mode flag flips and a screen exists afterwards. |
| Controller.ToggleTwiceRestores | controller.py:114-136 | Leaving fullscreen keeps `original_size`. Entering fullscreen saves the current size, so toggling twice from windowed mode returns to that size. |
| Controller.ToJson | controller.py:105-108 | The dicts `sendmsg` serialises are non-empty, so truthy, and carry `type`: a key event has exactly `type` and `key`, a move (controller.py:162-166) exactly `type`, `x` and `y`, and a click (controller.py:182-186) exactly `type`, `button` and `action`. |
| Controller.ToJsonInjective | controller.py:162-186 | Two messages are sent as the same dict exactly when they are the same message. |
| Controller.HandleKeyEvent | controller.py:90-111 | Nothing is sent exactly for an F11 press, and for an Escape press in fullscreen. Those toggle the mode. Any other event is sent once as `{type, key}` with the key's name and leaves the window unchanged. |
| Controller.RouteKeyEvent | controller.py:283-296 | Nothing is sent exactly for F11 events, Escape releases, and Escape presses in fullscreen. Every other event is sent once as `{type, key}` with the key's name (`KeyName`: the table name, else `str(key)`), and leaves the window unchanged. A suppressed press toggles the mode. |
| Controller.EscapeReleaseNeverSent | controller.py:286-296 | In windowed mode an Escape press is sent but its release never is. |
| Controller.Trunc | controller.py:221-227 | `int()` of a float truncates toward zero: for x >= 0 the result is the largest integer at most x, and for x < 0 the smallest integer at least x. |
| Controller.DisplayDimensions | controller.py:207-231 | The viewport is undefined exactly where a division raises ZeroDivisionError. |
| Controller.AspectCompare | controller.py:215-218 | Comparing the aspect quotients, as the code does, agrees with comparing the cross products. |
| Controller.ScaledBelow | controller.py:218-221 | In the height-bound branch, the truncated width is below the screen width and within one pixel of the exact remote-aspect width. |
| Controller.ScaledAtMost | controller.py:224-227 | In the width-bound branch, the truncated height is at most the screen height and within one pixel of the exact height. |
| Controller.WideScreenViewport | controller.py:218-223 | A screen wider than the remote gets the full height with no vertical offset, and the width truncated from the aspect ratio. |
| Controller.TallScreenViewport | controller.py:224-229 | Any other screen gets the full width with no horizontal offset, and the height truncated from the aspect ratio. |
| Controller.LetterboxFits | controller.py:207-231 | For positive sizes, the viewport fills the binding axis and keeps the remote aspect ratio to within one pixel. The offsets are non-negative, the viewport fits inside the screen, and the two bars differ by at most one pixel. |
| Controller.RemoteViewport | controller.py:207-217 | The viewport against the stored remote size is defined exactly when both remote dimensions are numbers, the window and remote heights are non-zero, and the remote width is non-zero unless the window aspect is positive. Everywhere else a division raises. |
| Controller.PointerMove | controller.py:151-167 | A move is sent exactly when the pointer is inside the viewport. Its coordinates lie in [0, 1), and scaling them back by the viewport size gives the pointer position. |
| Controller.ButtonEdges | controller.py:171-204 | The stored button state becomes the current state, whether or not the sends succeed. |
| Controller.ClicksTrackButtons | controller.py:171-204 | Replaying the clicks sent on the old state gives the new state. At most two clicks are sent, none when nothing changed, left before right. A click for a button is sent exactly when that button changed, and its action is the button's new state. |
| Controller.HandleMouse | controller.py:139-204 | With no window, nothing happens. The call raises exactly when the window exists and the viewport is undefined. Otherwise the button state is updated, and the messages are the pointer move, if any, followed by the button clicks. A move comes first with coordinates in [0, 1). |
| Controller.HandleMouseReplays | controller.py:139-204 | Whenever the viewport is defined (numeric remote sizes, a non-zero window height and remote height, and not a zero remote width with a non-positive window aspect), the call succeeds, replaying its clicks on the old buttons gives the new ones, and it starts with a move exactly when the pointer is inside the viewport. |
| Controller.ApplyControl | controller.py:325-353 | A `screen_info` dict sets the remote size to its `width` and `height`, defaulting to 1920 and 1080, and activates the connection. Any other value keeps the remote size. The connection is active afterwards exactly when it was before or the value is a `screen_info` or a complete `connection_status`. |
| Controller.DispatchPayload | controller.py:321-357 | An empty or missing payload is skipped. Only a payload that fails to decode reaches the image path, with its bytes unchanged. A decoded payload is applied as a control message: it never clears `connection_active`; a `screen_info` sets the remote size (defaults 1920 and 1080) and activates; anything else keeps the remote size. |
| Controller.DispatchAll | controller.py:303-357 | Over a sequence of received payloads, the images drawn are exactly the non-empty payloads that fail to decode, in the order received, whatever the session state (`Controller.Undecodable` lists them independently). At most one image is drawn per payload, and an active connection stays active. |
| Controller.ActiveIffAnnounced | controller.py:321-351 | The connection becomes active exactly when some payload is a `screen_info` or a `connection_status` whose status is `complete`, and it stays active. |
| Controller.ImagesAreUndecodable | controller.py:321-357 | Every image drawn is a non-empty received payload that failed to decode. Nothing that parses as JSON is ever drawn. |
| Controlled.StripLeft | controlled.py:100 | Left strip: the result is a suffix of the input, everything removed is quotes, and the result does not start with a quote. |
| Controlled.StripRight | controlled.py:100 | Right strip: the result is a prefix of the input, everything removed is quotes, and the result does not end with a quote. |
| Controlled.StripQuotes | controlled.py:100 | `key.strip("'")`: the input is quotes, then the result, then quotes. The result has no quote at either end. |
| Controlled.StripQuotesUnique | controlled.py:100 | That characterization determines the result: any split into quotes, a core with no quote at either end, and quotes gives the same core. |
| Controlled.StripQuotesIdempotent | controlled.py:100 | Stripping twice is the same as stripping once. |
| Controlled.StripQuotesEmpty | controlled.py:100 | The strip yields the empty name exactly when the name consists of quotes only. |
| Controlled.StripRepr | controlled.py:100 | The corrected strip removes one enclosing pair of quotes from a quoted name of at least three characters, and changes nothing else. |
| Controlled.HandleKeyboard | controlled.py:73-104 | The handler raises exactly when `key` is missing or not a string, or `type` is missing. Otherwise it performs one action: a press exactly when the type is "press", else a release. A name in `special_keys` selects its special key; any other name is typed after the strip. |
| Controlled.ButtonOf | controlled.py:117-122 | "left" and "right" map to the two buttons. Any other value passes through unchanged. |
| Controlled.HandleMouseInput | controlled.py:107-127 | A move with numeric `x` and `y` sets the position to `(x*W, y*H)`; a missing or non-numeric coordinate raises. A click raises exactly when `button` or `action` is missing. Action "press" presses, "release" releases, and any other action does nothing. |
| Controlled.MoveLandsOnScreen | controlled.py:108-115 | Coordinates in [0, 1) put the pointer inside the monitor, and dividing by the monitor size gives them back. |
| Controlled.HandleInput | controlled.py:58-68 | `None` and falsy messages do nothing. A raising `recvmsg`, or a truthy message that is not a dict with `type`, ends the thread. A truthy dict with `type` goes to the keyboard handler for press/release and to the mouse handler for move/click. Keyboard actions come only from press/release messages, moves only from move messages, and button actions only from click messages. |
| Controlled.UnknownTypesIgnored | controlled.py:63-68 | A dict whose type is none of the four is ignored. |
| Controlled.CaptureTick | controlled.py:143-154 | A frame is grabbed exactly when `now - last >= 1/10`, and `last` moves to `now` only then. The bytes sent are the length-prefixed encoding when it succeeded. A frame too large to pack stops the loop. |
| Controlled.CaptureLoop | controlled.py:142-156 | Over a sequence of clock ticks the loop grabs at most once per tick and sends at most once per grab. |
| Controlled.CaptureLoopSingle | controlled.py:144-154 | One pass grabs, at time `now`, exactly when at least 1/10 s has passed since `last`. It sends exactly when it grabbed, the encoding succeeded and the frame fits the length header; what it sends is the packed encoding. |
| Controlled.CaptureLoopAppend | controlled.py:142-156 | Running the loop over two stretches of passes is running it over their concatenation: the second stretch starts from the last grab time of the first, and the grabs and sends concatenate. Once a pass stops the loop, later passes do nothing. |
| Controlled.DuePassIsCaptured | controlled.py:143-154 | A pass that comes at least 1/10 s after the last grab, with the loop not stopped, is grabbed at its own time, and its encoding is sent if it fits the header. |
| Controlled.CapturesSpaced | controlled.py:138-146 | Successive grabs are at least 1/10 s apart, and the first is at least 1/10 s after the start, whatever the clock readings. |
| Controlled.SentFramesAreEncodedCaptures | controlled.py:149-154 | Every frame sent is one complete length-prefixed frame whose body is an encoded capture, with nothing after it. |
| EndToEnd.InputCrossesRelay | server.py:81-82 | A controller message is read by the relay as one frame, forwarded byte for byte to the controlled input, and decoded there as the same message. |
| EndToEnd.HandshakeRoutes | server.py:57-64 | The four hellos the clients send set up both forwarding routes. |
| EndToEnd.ControllerNamesAreNotSpecial | controlled.py:77-94 | No name the controller sends is a key of `special_keys`, so every forwarded key takes the strip branch. |
| EndToEnd.KeyNamesSurviveStripRepr | controlled.py:100 | The corrected strip leaves every controller key name intact. |
| EndToEnd.KeyEventInjected | controlled.py:94-104 | A forwarded key event is pressed or released, matching the controller event, as a typed name. As written the name is stripped; with the correction it is the controller's name itself. |
| EndToEnd.ApostropheTypedAsEmpty | controlled.py:100 | As written, the apostrophe key arrives as a press of the empty name. With the correction it arrives as `'`. |
| EndToEnd.PointerLandsOnMonitor | controlled.py:107-115 | A pointer inside the viewport moves the controlled pointer to the same relative position of its monitor, which lies inside the monitor. |
| EndToEnd.ClickInjected | controlled.py:117-127 | Each click the controller sends presses or releases the same button, in the direction of its new state. |
| EndToEnd.MouseNeverEnabled | controller.py:299-357 | As written, whatever the controlled client's capture loop sends, the controller's `connection_active` stays false, so `handle_mouse` is never called: every frame is a JPEG, whose first byte 0xFF no JSON decoder accepts. |
| EndToEnd.AnnouncedScreenEnablesMouse | controller.py:330-353 | The correction: once the controlled client announces its monitor as a `screen_info` message, the controller takes that size as the remote size and the connection becomes active, whatever follows. |
| EndToEnd.CapturedFrameDrawn | controlled.py:151-154 | A captured JPEG crosses the relay unchanged, and the controller hands exactly those bytes to the image decoder. |

## Left out

- Sockets, `accept` loops, threads and the missing locking (server.py:94-131, controlled.py:131-133). The relay is one sequential interleaving of handler events. Connection ids given to `Accept` are taken to be fresh.
- A peer that closes from its own side while still in a slot. Writing to it would fail inside the operating system, which is not modelled. Only a socket the server closed itself makes `sendall` raise.
- The server's `finally` block, which closes whatever sockets remain (server.py:119-131).
- pygame window and rendering calls, PIL decoding and resizing, mss capture, cv2 JPEG encoding, and pynput injection. They are replaced by their inputs (window size, pointer position, button state, monitor size, encoded bytes) and their outputs (the `Action` values handed to pynput).
- The JSON library, which is an oracle (`dumps`, `parse`).
- Floating point. Remote sizes, normalised coordinates and clock readings are exact reals, so results may differ from Python floats at rounding edges.
- The window resize after `screen_info` in windowed mode (controller.py:337-349). It uses a float square root, sets the window size, and rewrites `original_size`, which `toggle_fullscreen` later restores when leaving fullscreen. The model's window is not touched by a `screen_info`.
- The controller's busy retry when the screen socket reaches end of stream (controller.py:306-316), and its other I/O error handling. `DispatchPayload` starts from the payload that loop obtained.
- The `connection_active` guard on `handle_mouse` in `main` (controller.py:298-300). `HandleMouse` is the call itself.
- The `print` diagnostics, and the process bootstrap in client.py.
- Controlled.HandleMouseInput: a string or list coordinate is treated as raising. Python's `*` would repeat the sequence, and the failure would come from pynput's position setter, which is not modelled.
- Controlled.HandleKeyboard: what pynput does with a typed name that is not exactly one character (empty, or longer) is not modelled. The action records the name it is given.
- Controller.ActiveIffAnnounced: a `screen_info` received in windowed mode can make the resize raise: a width or height that is not a number, or a zero height, at controller.py:339 (`remote_width / remote_height` raises TypeError or ZeroDivisionError), a width of zero at controller.py:344 (the aspect ratio is zero), or exactly one negative dimension (the square root at controller.py:344 is complex, and `int()` of it raises). The `except Exception` at controller.py:392 then skips `connection_active = True`. The model, which leaves the resize out, activates the connection regardless. The same applies to Controller.DispatchPayload and Controller.ApplyControl.
- Controller.HandleMouse: a non-numeric `screen_info` width or height is treated as making `get_display_dimensions` raise, without distinguishing the Python exception types.

## Findings

| source | as written | input that shows it | evidently intended | confidence | as-written member | corrected member |
|---|---|---|---|---|---|---|
| server.py:88-91 | The teardown compares `client_type` with 'controlled' and 'controller', names no client uses, so a disconnecting client never leaves its slot. | A `controller_screen` connects, a `controlled_screen` connects, the `controller_screen` disconnects, and the `controlled_screen` sends a frame. The frame is written to the closed socket, which raises and ends that handler. | A disconnecting client is removed from the slot it holds. | not executed | Relay.StaleSlotKillsSender | Relay.IntendedNeverWritesToClosed |
| controlled.py:100 | `key.strip("'")` removes every leading and trailing quote. The controller's name for the quote key (controller.py:81) is the single character `'`. | The quote key pressed on the controller (pygame code 39) is sent as `'` and injected as a press of the empty name. | Only a quoted name such as `'a'` loses its quotes; the quote key types a quote. | not executed | EndToEnd.ApostropheTypedAsEmpty | EndToEnd.KeyNamesSurviveStripRepr |
| controller.py:299-353 | `handle_mouse` runs only once `connection_active` is set, which only a `connection_status` or `screen_info` JSON message on the screen channel does. The controlled client sends nothing on that channel but JPEG frames (controlled.py:149-154), so the controller never forwards pointer or button input. | Any session: the first frame is a JPEG starting with 0xFF, which is not valid UTF-8, so `data.decode()` raises UnicodeDecodeError and the frame is drawn; so is every later one. | The controlled client announces its screen with a `screen_info` message, which activates the connection. | not executed | EndToEnd.MouseNeverEnabled | EndToEnd.AnnouncedScreenEnablesMouse |

The relay's `Step` follows the teardown as written and `StepIntended` the corrected one. Both are built from `Relay.Advance` with its `intended` flag. In the same way, `Controlled.HandleKeyboard` and `Controlled.HandleInput` take an `intended` flag that selects `StripQuotes` (as written) or `StripRepr` (corrected).

`EndToEnd.PointerLandsOnMonitor` and `EndToEnd.ClickInjected` describe the pointer path once the connection is active. As written that path is never taken; it needs the `screen_info` announcement of the third finding.
