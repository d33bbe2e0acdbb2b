# vncmanager, verified

vncmanager sits between VNC clients and Xvnc servers. It parses and rewrites the
RFB traffic of each client, can move a client from one server to another in
mid-session, and keeps a list of sessions that greeter programs display. This
project models its three linked parts in Dafny and proves what they promise:

1. **The rewriting tunnel** (`VncTunnel`, `rfb.h`, `XvncConnection`). `Standard`
   and `ClientMessages` are decoders written from RFC 6143 (sections 7.5, 7.6.1,
   7.7, 7.8) and from the community RFB specification, with exact integer sizes.
   `Relay` and `ClientRelay` are the tunnel as a function of octets, with its own
   32-bit arithmetic; class `VncTunnel` implements them over two streams.
   `UpdateProofs.UpdatePreserved` and `ClientRelayProofs.RunPreserved` are the
   meaning-preservation results, and `TightFraming`, `FramingProofs` and
   `FormatFraming` say exactly when the tunnel's framing is the standard's.
   `TunnelRun` and `ZlibStreams` carry invariants over whole runs, with messages
   still on their way from the server and a switch to another one;
   `TunnelStreams.ClientStreamReads` and `ServerStreamReads` say what each peer
   reads in the stream it gets; `MainLoop`, `HandshakeEnds` and `FailedAttempts`
   treat exceptions and attempts that fail, `UnfitUpdates` updates with more
   records than announced.
   `WireFormats`, `EncodingLists`, `Asking`, `SwitchedNames` and `SwitchedTight`
   state layouts, message types, offers and what a switch owes the client in the
   terms of the wire, with every number written out.
2. **The stream stack** (`FdStream`, `Stream`, `StreamFormatter`): classes with
   arrays and loops, exact on one queue of pending octets for every
   partial-transfer schedule.
3. **The session list** (`Xvnc`, `XvncManager`, `GreeterConnection`,
   `ControllerConnection`): classes for one thread's view, and state machines
   (`GreeterCache` with `GreeterProgress`, `Connections`, `Controllers`) for all
   interleavings.

`ReadSelector` treats dispatch with cancellation, `Handshake` and
`Initialization` the handshake of the program's two ends and the one a greeter
takes part in.

A handler's result is compared with its specification by success value, octets
consumed, octets sent and new field values. An exception is a `Failure`; a system
call may fail anywhere (`Errno`), and then only the error is stated.

## What the code does outside its premises

These are properties of the code as it stands; each is proved together with the
exact condition under which the code is right.

- **Tight.** The tunnel takes Tight pixels to be three octets, but sizes copied
  and gradient data by `bitsPerPixel`. Its framing is the standard's on every
  input exactly for three-octet Tight pixels and, with 32-bit pixels, rectangles
  that do not have one to three pixels (`TightFraming.TightFramingExact`). A
  palette of one colour, which the specification does not describe, is read as one
  bit per pixel by both sides.
- **Saturated count.** When 65535 rectangles arrive while a desktop name is
  queued, the tunnel may send more records than it can announce
  (`UpdateProofs.SaturatedFits`, `UpdateProofs.SaturationLeavesOctets`). A Tight
  rectangle among the records left over puts the client's zlib streams out of step
  (`UnfitUpdates.WhatIsFound`, `UnfitUpdates.GetsOutOfStep`). Runs are of
  updates whose records fit.
- **Updates overtaken by a format.** The tunnel reads what is on its way from the
  server in the format it stored last, whatever it was drawn in. A reader finds
  such an update exactly when each rectangle has the same extent in both formats
  (`FormatFraming.UnreadReadsBack`), all updates exactly when pixels and Tight
  pixels have the same size (`FormatFraming.FormatFramingExact`), and one pixel is
  enough to go wrong (`FormatFraming.LateUpdateMisread`). A run reads an update
  only under that condition, which holds by itself when the client changes the
  pixel size only while nothing is on its way (`TunnelRun.CalmUnread`).
- **XCursor.** The six colour octets are counted for empty cursors too
  (`FramingProofs.XCursorSizeExact`).
- **Sizes.** Raw, Cursor and Tight products are signed 32-bit; where they overflow
  the program is undefined and the model fails. The RRE size wraps modulo 2^32
  (`FramingProofs.RawSizeExact`, `CursorSizeExact`, `RreSizeExact`).
- **Pixel formats.** `ntoh` and `hton` are not inverse for a big-endian format: one
  passes through unchanged exactly when it is little-endian
  (`ClientRelayProofs.FormatUnchanged`).
- **Failed attempts.** A new server's refusal leaves the current connection, the
  formats and the client alone. A new server that closes before the end of the
  message being read disconnects the client, because the main loop takes its
  eof_exception for the client's; so does a failing system call. The tunnel goes on
  exactly when the server said all that the handshake reads
  (`HandshakeEnds.AttemptTakes`, `MainLoop.AttemptSurvived`,
  `FailedAttempts.FailedAttemptsInvisible`); `MainLoop.ClosedServerDisconnects` and
  `FailedAttempts.ClosedServerEndsRun` show servers that do not.
- **Encoding lists.** A list is announced with its length exactly unless it has
  65535 encodings, all of them offered and none DesktopName
  (`ClientRelayProofs.ListFitsExactly`, `ClientRelayProofs.AnnouncedCount`); it is
  announced as empty then (`ClientRelayProofs.FullListTruncated`). At a switch
  Tight is offered again, and a full list that fitted without it may not fit any
  more (`TunnelStreams.ReleasedFitsExactly`, `TunnelStreams.ReleasedListOverflows`).
- **Empty offers.** With no security type configured, the client side waits for a
  reason and the server side for a choice; in no other case do they wait for each
  other (`Handshake.HandshakeAgrees`). Configuration.cpp:57-64 refuses such a
  configuration.
- **Session list version.** `XvncManager.h:71-74` says the number increases
  whenever the list changes. Creating a session and losing one do not bump it: a
  new session is invisible, and a lost one is announced when its object is
  destroyed. The model follows the code, and coherence is stated accordingly
  (`GreeterCache.CacheCoherent`).

## Model

| member | source | states |
|---|---|---|
| `UpdateProofs.UpdatePreserved` | VncTunnel.cpp:442-653 | If the standard reads the server's octets as an update and the tunnel accepts it, the tunnel stops where the update stops, and a standard reader of the client's stream finds exactly the intended update (queued name first, names replaced, dropped or turned into dummies, the rest verbatim, LastRect when owed) and nothing is left over, if and only if the records fit the announced count; they do unless the count saturated |
| `UpdateProofs.UpdateOutcome` | VncTunnel.cpp:442-653 | Which well-formed updates are refused and with which exception, and otherwise the exact octets consumed and sent |
| `UpdateProofs.CountExactly` | VncTunnel.cpp:444-464 | With every number written out: an update is refused for its count exactly when 65535 rectangles arrive while a name is queued and the client does not take LastRect; otherwise one more is announced for a queued name, or 65535 in that case, the name goes in front, and LastRect behind exactly when a name was dropped or there was no room and the server sent none |
| `WireFormats.ImageNumbers` | VncTunnel.cpp:526-596 | What the client is shown in place of a rectangle: a name as it came, or the one before it in place of a key; nothing, a black pixel or a copied one for clients without DesktopName; all four resets if one is queued; everything else untouched |
| `WireFormats.KeysApproved` | Xvnc.cpp:110-127 | After an update the session has approved exactly the keys it had and those named behind the prefix in it |
| `WireFormats.NameIsLastNamed` | VncTunnel.cpp:526-537 | After an update the session has the name of its last DesktopName rectangle that was no key |
| `WireFormats.SizeIsLastAnnounced` | VncTunnel.cpp:516-560 | After an update the tunnel has the size of its last rectangle that announced one: DesktopSize always, ExtendedDesktopSize with status 0 |
| `WireFormats.DummyWritten` | VncTunnel.cpp:681-705 | The octets of the dummy rectangle: a black pixel, or the pixel to its right copied into the corner |
| `WireFormats.NameWritten` | VncTunnel.cpp:791-810 | The octets of a made-up DesktopName rectangle |
| `WireFormats.LastRectWritten` | VncTunnel.cpp:713-718 | The octets of the LastRect rectangle |
| `UpdateProofs.ViewShape` | VncTunnel.cpp:444-464 | The intended update fits the announced count unless saturated, and a shorter one ends in LastRect |
| `UpdateProofs.SaturatedFits` | VncTunnel.cpp:453-459 | With a saturated count the records fit exactly when those shown, the name in front and the LastRect behind are at most 65535; for a client that takes DesktopName, when the server ended with LastRect before its last slot |
| `UpdateProofs.SaturationLeavesOctets` | VncTunnel.cpp:453-459 | A concrete accepted update whose rewriting leaves rectangles unread |
| `UpdateProofs.ReadsBack` | VncTunnel.cpp:645-652 | What a reader told to expect a count finds in any list of records, longer or shorter |
| `RelayProofs.RectForwarded` | VncTunnel.cpp:469-643 | One rectangle is consumed to its end and replaced by its intended image; it fails exactly when a name can be neither sent, dropped nor replaced |
| `RelayProofs.RectsForwarded` | VncTunnel.cpp:468-643 | The same for the whole loop, ending early at LastRect |
| `RelayProofs.TightForwarded` | VncTunnel.cpp:562-637 | A Tight rectangle passes through with its reset flags forced exactly when a reset is queued |
| `RelayProofs.NameForwarded` | VncTunnel.cpp:526-548 | A DesktopName rectangle is sent with the stored name, dropped, or turned into a dummy |
| `TightFraming.TightFramingExact` | VncTunnel.cpp:585-636 | For data sizes that do not overflow: Tight framing agrees with the standard on every input if and only if Tight pixels are three octets long and the size is not one to three 32-bit pixels; forcing the reset bits changes nothing |
| `TightFraming.FillDiffers` | VncTunnel.cpp:598-600 | A Fill rectangle that shows the disagreement for other pixel sizes |
| `TightFraming.SmallCopyDiffers` | VncTunnel.cpp:612-630 | A rectangle of one to three 32-bit pixels that shows the disagreement on data sizes |
| `FramingProofs.TightImageForwarded` | VncTunnel.cpp:598-634 | Fill, JPEG and basic images under the framing premises are forwarded verbatim to their end |
| `FramingProofs.ChunkForwarded` | VncTunnel.cpp:565-583 | Every compact length of one to three octets is decoded and its data forwarded |
| `FramingProofs.DataSizesAgree` | VncTunnel.cpp:612-633 | Both sides agree whether data is compressed and on its size when not |
| `FramingProofs.RawSizeExact` | VncTunnel.cpp:482-484 | The Raw size is defined exactly up to 2^31 - 1 bits and is then the standard's |
| `FramingProofs.CursorSizeExact` | VncTunnel.cpp:490-492 | The Cursor size fails exactly when its pixels do, and is otherwise the standard's |
| `FramingProofs.XCursorSizeExact` | VncTunnel.cpp:494-496 | The XCursor size never overflows and is right exactly for non-empty cursors |
| `FramingProofs.RreSizeExact` | VncTunnel.cpp:508-513 | The RRE size is right exactly below 2^32 |
| `FramingProofs.TightDataSizeExact` | VncTunnel.cpp:628 | The data size per filter, and where it overflows |
| `StandardCodec.EncodeDecodedRects` | rfb.h:309-333 | A decoded list of rectangles is well formed and is exactly the octets read |
| `StandardCodec.DecodeEncodedRects` | rfb.h:309-333 | A well-formed list of the announced length, or ending in LastRect, decodes back |
| `StandardCodec.DecodeEncodedFirst` | rfb.h:309-333 | A reader leaves everything beyond the announced number unread |
| `Rfb.HeaderRoundTrip` | rfb.h:309-333 | Receiving and re-sending a rectangle header leaves its octets alone |
| `WireFormats.HeaderLayout` | rfb.h:309-333 | Where the fields of a rectangle header lie, most significant octet first, the encoding signed |
| `WireFormats.EncodingNumbers` | rfb.h:73-91 | The number of each encoding |
| `WireFormats.FormatLayout` | rfb.h:102-126 | Where the fields of a pixel format lie |
| `WireFormats.ServerInitLayout` | rfb.h:152-177 | Where ServerInit has the size, the format and the length of the name |
| `Rfb.SameExactly` | rfb.h:128-140 | operator== compares every field but the padding |
| `Rfb.WithAllResets` | VncTunnel.cpp:588-594 | Forcing the reset flags keeps the rest of the control octet |
| `ClientRelayProofs.RunPreserved` | VncTunnel.cpp:279-411 | Over any run of client messages whose formats are not refused and whose lists can be announced, each dispatch consumes one message, and the standard reads from the server's stream exactly their images in order |
| `ClientRelayProofs.MessageRelayed` | VncTunnel.cpp:279-411 | One dispatch: what is consumed, what is sent, and the new settings |
| `ClientRelayProofs.RunRelayed` | VncTunnel.cpp:279-411 | The same for whole runs on the octet level |
| `ClientRelayProofs.FormatUnchanged` | rfb.h:116-126 | A format passes through unchanged exactly when it is little-endian |
| `WireFormats.FormatPassedOn` | rfb.h:116-126 | What the server is sent of a client's format, field by field |
| `WireFormats.FormatRefused` | VncTunnel.cpp:319-330 | A SetPixelFormat is refused exactly for pixels of other than 8, 16, 24 or 32 bits |
| `WireFormats.ClientTypes` | VncTunnel.cpp:285-316 | A client message is refused as unknown exactly if its type is not 0, 2, 3, 4, 5, 6 or 251 |
| `WireFormats.ClientMessageLayout` | rfb.h:179-289 | The first octet and the length of each client message |
| `EncodingLists.OfferExactly` | VncTunnel.cpp:332-382 | For every list, number by number: the server is offered exactly the client's encodings among the ten the tunnel relays and the JPEG quality levels, in the client's order, without a Tight held back, and DesktopName behind them if it is missing; and the tunnel remembers exactly those of the client |
| `EncodingLists.RelaysWhatIsListed` | VncTunnel.cpp:478-641 | A rectangle is refused as unknown exactly if its encoding is not one of the ten |
| `EncodingLists.OfferIsRelayed` | VncTunnel.cpp:332-382 | No rectangle in an encoding that the server was offered is refused as unknown |
| `ClientRelayProofs.ListFitsExactly` | VncTunnel.cpp:340-379 | The server's list fits 16 bits exactly when the client's is shorter than 65535, has DesktopName, or has an encoding that is not offered |
| `ClientRelayProofs.AnnouncedCount` | XvncConnection.cpp:330-337 | The count the server reads is the length of its list exactly then, and 0 otherwise |
| `ClientRelayProofs.FullListTruncated` | XvncConnection.cpp:330-337 | A full encoding list with DesktopName appended is announced with a count of zero |
| `ClientMessages.DecodeEncodedClients` | rfb.h:179-289 | Encoded client messages decode back, leaving what follows |
| `ClientMessages.EncodeDecodedClients` | rfb.h:179-289 | Decoded client messages are well formed and exactly the octets read |
| `ZlibStreams.RectInStep` | VncTunnel.cpp:585-596 | One rectangle keeps both ends of the four zlib streams in step, and a Tight rectangle finds them equal after its resets |
| `ZlibStreams.ViewInStep` | VncTunnel.cpp:585-596 | The same for a whole update and its rewriting |
| `ServerMessages.DecodeEncodedServers` | rfb.h:309-333 | A stream of encoded server messages decodes back, each in its own format |
| `ServerRelayProofs.ServerMessageRelayed` | VncTunnel.cpp:413-440 | One dispatch of a server message of any kind: what is consumed, what the client is sent, and the new fields |
| `ServerRelayProofs.ForClientReadsBack` | VncTunnel.cpp:413-440 | The client reads that back exactly when the records fit |
| `WireFormats.ServerTypes` | VncTunnel.cpp:413-440 | A server message is refused as unknown if its type is none of 0, 1, 2 and 3, and colour map entries always fail |
| `WireFormats.ServerMessageLayout` | VncTunnel.cpp:413-440 | The first octet of each server message, and the length of a bell and a text |
| `WireFormats.ColourMapRead` | VncTunnel.cpp:655-665 | Colour map entries are read to their end before the dispatch throws |
| `FormatFraming.FormatFramingExact` | VncTunnel.cpp:319-330 | The standard reads all octets alike in two formats if and only if their pixels and Tight pixels have the same size |
| `FormatFraming.UnreadReadsBack` | VncTunnel.cpp:319-330 | A reader with another format finds an update and its end exactly when each rectangle has the same extent in both formats |
| `FormatFraming.RelayFormatExact` | VncTunnel.cpp:478-634 | The tunnel treats all octets alike under two stored formats if and only if they have the same bits per pixel |
| `FormatFraming.LateUpdateMisread` | VncTunnel.cpp:319-330 | A 32-bit pixel read after a 16-bit format was stored: accepted, and two octets left to be taken for a message |
| `TunnelRun.StepKeeps` | VncTunnel.cpp:86-118 | Client messages, server messages sent and read, formats taken up, names set by other tunnels, switch attempts and their outcomes, and exceptions keep the run invariant |
| `TunnelRun.RunKeeps` | VncTunnel.cpp:86-118 | The invariant holds in every world of every run, to its end |
| `TunnelRun.EndsExactly` | VncTunnel.cpp:86-118 | A run has disconnected the client if and only if something other than the refusal of an attempt was thrown in it, and that came last |
| `TunnelRun.ZlibAgrees` | VncTunnel.cpp:773 | In every run whose updates fit their counts, across the switch, as far as the tunnel has read: a reset is queued and the server's streams are fresh, or both ends agree on all four |
| `TunnelRun.ListsAgree` | VncTunnel.cpp:332-382 | After the first SetEncodings, with the numbers written out: the server's list is the client's encodings among the ten known ones and the quality levels, in the client's order, behind a Tight released since and before a DesktopName that was missing; as a set it is what the client supports plus DesktopName minus a Tight held back |
| `TunnelRun.FormatsAgree` | VncTunnel.cpp:765-767 | In every world the tunnel's format agrees with its connection's, the client's, and the last one the server was told in bits per pixel, depth, both flags, maxima and shifts |
| `TunnelRun.UnreadFound` | VncTunnel.cpp:319-330 | An update on its way is found by a reader with the tunnel's present format exactly when its rectangles have the same extent in both |
| `TunnelRun.CalmUnread` | VncTunnel.cpp:319-330 | If the client changes pixel sizes only while nothing is on its way and the server sends only after taking them up, everything on its way is well formed in the tunnel's format |
| `TunnelRun.SwitchesOnce` | VncTunnel.cpp:730-778 | At most one switch and one made-up name; attempts and outcomes always find the greeter the code asserts; without a greeter nothing is switched |
| `TunnelRun.OutcomesNeedAttempts` | VncTunnel.cpp:730-778 | In every run there are no more outcomes than commands of the greeter, with one to spare while an attempt is in progress, and after a command either outcome may come |
| `SwitchedNames.NamesExactly` | VncTunnel.cpp:775-810 | In every world of every run a name is queued exactly when a switch has completed for a client that then took DesktopName and no update was handed over since, and one name has been made up exactly when one was |
| `SwitchedNames.NewNameShown` | VncTunnel.cpp:791-810 | The first update after such a switch is shown with the session's name in front, which is that of the switch unless another tunnel changed it |
| `SwitchedNames.NoNameShown` | VncTunnel.cpp:775-777 | A client that did not take DesktopName at the switch, or was not switched, never gets a made-up name |
| `SwitchedTight.HeldBackExactly` | VncTunnel.cpp:730-737 | Tight is held back exactly in a tunnel that started with a greeter, until the first attempt of a switch |
| `SwitchedTight.TightOffered` | VncTunnel.cpp:359-364 | The server's list has Tight exactly if the client asked for it and the tunnel started without a greeter or an attempt was made |
| `SwitchedTight.ResetsExactly` | VncTunnel.cpp:585-596 | In every world of every run a reset is queued exactly when a switch has completed and no Tight rectangle was handed over since |
| `SwitchedTight.FirstTightResets` | VncTunnel.cpp:585-596 | The first Tight rectangle behind a switch is shown with all four resets, every other with its own |
| `HandshakeEnds.AttemptTakes` | XvncConnection.cpp:95-318 | Whatever a server says and however far it gets: the handshake runs into the end of the stream exactly when the server said less than a length read off its octets; otherwise it leaves exactly what lies behind, or fails with a ConnectionException |
| `HandshakeEnds.ResumeTakes` | XvncConnection.cpp:150-188 | The same after the greeter's answer |
| `MainLoop.AttemptSurvived` | VncTunnel.cpp:93-116 | After a failed handshake the tunnel goes on, without the attempt, exactly when the server said all of it; otherwise it disconnects the client |
| `MainLoop.ResumeSurvived` | VncTunnel.cpp:93-116 | The same after the greeter's answer |
| `MainLoop.ClosedServerDisconnects` | VncTunnel.cpp:108-110 | A server that closes after its version, or in the middle of its reason, disconnects the client |
| `MainLoop.DispatchNotSurvived` | VncTunnel.cpp:93-116 | Whatever clientReceive or serverReceive throws ends the tunnel |
| `MainLoop.CaughtExactly` | VncTunnel.cpp:93-116 | The loop goes on exactly after a ConnectionException that does not name the current connection, and gives up at most the attempt |
| `FailedAttempts.FailedAttemptsInvisible` | VncTunnel.cpp:93-116 | Of any events none of which completes a switch, leave out all attempts and failures: the others may still happen, with the same messages for the client; and the tunnel ends up as it would have without them, Tight in the server's list aside, if and only if every failure was a refusal |
| `FailedAttempts.FailureDecided` | VncTunnel.cpp:93-116 | Whatever the new server says: the failed attempt ends the run exactly when the server stopped short |
| `FailedAttempts.ClosedServerEndsRun` | VncTunnel.cpp:108-110 | A run that a server ends by closing after its version |
| `TunnelRun.AdvertisedOnly` | VncTunnel.cpp:526-548 | If what the tunnel reads keeps to the list it last sent and the client does not retract DesktopName while a name is queued, every rectangle sent to the client has an encoding it asked for |
| `TunnelRun.KeysStayHidden` | VncTunnel.cpp:526-537 | No DesktopName rectangle of any run shows a controller key, whatever names and keys other tunnels set meanwhile |
| `TunnelRun.ClientEventRelayed` | VncTunnel.cpp:279-317 | A run's client event is one dispatch of clientReceive on its octets |
| `TunnelRun.ServerEventRelayed` | VncTunnel.cpp:413-440 | Reading the next message of a run is one dispatch of serverReceive on the octets under way, and the client, with its own format, reads what it was meant to read |
| `TunnelStreams.ClientStreamReads` | VncTunnel.cpp:413-653 | In every run, with names set by other tunnels between its events, a standard reader of all the octets serverReceive has sent the client, with the client's format of each moment, finds exactly the intended messages in order |
| `TunnelStreams.ServerStreamReads` | VncTunnel.cpp:279-411 | In every run whose lists can be announced, a standard reader of all the octets sent to the current server finds the images of the client's messages, behind what the switch had to say |
| `TunnelStreams.SwitchSaid` | VncTunnel.cpp:765-771 | A new server reads the format if any field but the padding differs, the list, and a request for the whole framebuffer |
| `WireFormats.SwitchLayout` | XvncConnection.cpp:330-350 | The octets of the list's count and of the request: not incremental, from the corner to the whole size |
| `TunnelStreams.ReleasedFitsExactly` | VncTunnel.cpp:732-737 | The list passed on at a switch fits 16 bits exactly when the client's is shorter than 65535, has DesktopName or an unknown encoding, or lost two entries of Tight |
| `TunnelStreams.ReleasedListOverflows` | VncTunnel.cpp:732-737 | A list that is announced while Tight is held back and overflows the count at the switch |
| `UnfitUpdates.WhatIsFound` | VncTunnel.cpp:453-459 | Of any accepted update the client finds the announced records and leaves the rest; its zlib streams stay in step exactly when the rest would not change them or a reset is still queued |
| `UnfitUpdates.GetsOutOfStep` | VncTunnel.cpp:453-459 | A run to an accepted update that leaves the client's streams fresh and the server's not |
| `Tunnels.VncTunnel.constructor` | VncTunnel.cpp:61-84 | The state in which the main loop starts |
| `Tunnels.VncTunnel.RegisterHandlers` | VncTunnel.cpp:267-274 | The descriptors of the client, of the current connection and of the greeter are registered for their handlers |
| `Tunnels.VncTunnel.DispatchReady` | ReadSelector.cpp:72-79 | The loop over the ready descriptors calls the tunnel's own handlers, and what they do is a dispatch, in the sense of `ReadSelectors.Dispatch`, of handlers that keep the discipline |
| `Tunnels.VncTunnel.Select` | VncTunnel.cpp:267-277 | Registration and dispatch together: serverReceive only ever runs for the descriptor of the connection that is then current, and the greeter's handler for that of the greeter there is |
| `Tunnels.VncTunnel.GreeterReceive` | GreeterConnection.cpp:182-214 | An attempt, an answer or nothing; whenever it moves what other handlers rely on, it cancels or throws |
| `Tunnels.VncTunnel.ProcessFramebufferUpdate` | VncTunnel.cpp:442-653 | Computes `Relay.RelayUpdate` on the two streams and the fields; its final assertion never fails |
| `Tunnels.VncTunnel.AnnounceRectangles` | VncTunnel.cpp:444-464 | The re-counted header with its numbers: one more for a queued name, 65535 when there is no room for it, or a refusal then if the client does not take LastRect |
| `Tunnels.VncTunnel.ProcessRectangles` | VncTunnel.cpp:468-643 | The rectangle loop computes `Relay.RelayRects`, and LastRect is owed only to clients that support it |
| `Tunnels.VncTunnel.ProcessRectangle` | VncTunnel.cpp:469-642 | One iteration of the loop |
| `Tunnels.VncTunnel.ProcessBody` | VncTunnel.cpp:480-642 | The switch over the encoding computes `Relay.RelayBody` |
| `Tunnels.VncTunnel.ProcessPassThru` | VncTunnel.cpp:480-506 | Raw, CopyRect, Cursor and XCursor are forwarded by a size computed from the header |
| `Tunnels.VncTunnel.ProcessRre` | VncTunnel.cpp:508-514 | An RRE rectangle is forwarded by its subrectangle count |
| `Tunnels.VncTunnel.ProcessTight` | VncTunnel.cpp:562-637 | A Tight rectangle, clearing the queued reset |
| `Tunnels.VncTunnel.ForwardTightVariableLengthData` | VncTunnel.cpp:565-583 | The compact length and its data |
| `Tunnels.VncTunnel.ForwardTightFilter` | VncTunnel.cpp:607-626 | The filter and the palette |
| `Tunnels.VncTunnel.ForwardTightImage` | VncTunnel.cpp:598-634 | Fill, JPEG and basic compression |
| `Tunnels.VncTunnel.ProcessDesktopName` | VncTunnel.cpp:526-548 | The name goes to the session, and the stored one, nothing, or a dummy to the client |
| `Tunnels.VncTunnel.ProcessExtendedDesktopSize` | VncTunnel.cpp:550-560 | The size is taken over on success, and the layout forwarded |
| `Tunnels.VncTunnel.SendExtraRectangles` | VncTunnel.cpp:791-810 | The queued name is sent and no longer queued |
| `Tunnels.VncTunnel.SendDummyRectangle` | VncTunnel.cpp:681-711 | A black pixel, a copied pixel, or an exception |
| `Tunnels.VncTunnel.ServerReceive` | VncTunnel.cpp:413-440 | One dispatch; the push-back buffer never overflows and is empty afterwards; the descriptors that other handlers rely on stay as they are |
| `Tunnels.VncTunnel.ProcessServerCutText` | VncTunnel.cpp:667-672 | The text is forwarded to its end |
| `Tunnels.VncTunnel.ProcessSetColourMapEntries` | VncTunnel.cpp:424-427 | Always ends in an exception |
| `Tunnels.VncTunnel.ClientReceive` | VncTunnel.cpp:279-317 | One dispatch; the push-back buffer never overflows and is empty afterwards; the descriptors that other handlers rely on stay as they are |
| `Tunnels.VncTunnel.ProcessClientMessage` | VncTunnel.cpp:285-316 | The switch over the message type computes `ClientRelay.RelayMessage` |
| `Tunnels.VncTunnel.ProcessSetPixelFormat` | VncTunnel.cpp:319-330 | The format is checked, stored and sent on |
| `Tunnels.VncTunnel.ChooseEncodings` | VncTunnel.cpp:340-379 | The loop computes the client's set and the server's list |
| `Tunnels.VncTunnel.ProcessSetEncodings` | VncTunnel.cpp:332-382 | The list is read, filtered and sent on |
| `Tunnels.VncTunnel.ProcessClientCutText` | VncTunnel.cpp:399-404 | The text is forwarded to its end |
| `Tunnels.VncTunnel.ProcessSetDesktopSize` | VncTunnel.cpp:406-411 | The screens are forwarded to their end |
| `Tunnels.VncTunnel.StartSwitch` | VncTunnel.cpp:730-742 | Tight is released, a previous attempt closed, the new one becomes potential, and the dispatch is cancelled |
| `Tunnels.VncTunnel.SwitchToConnection` | VncTunnel.cpp:730-750 | The attempt with its handshake: the switch is done, with the new connection's display and the octets sent to it; or the greeter is asked for a password or credentials; or it fails, and but for a system error the current connection is as it was and the attempt is there for the main loop to give up; and the dispatch is cancelled |
| `Tunnels.VncTunnel.GreeterAnswers` | GreeterConnection.cpp:198-213 | A password or credentials end the handshake with the switch, or it fails, and but for a system error the tunnel is as it was; a switch cancels the dispatch |
| `Tunnels.VncTunnel.Promote` | VncTunnel.cpp:752-763 | The greeter goes, the potential connection becomes current, the old one is closed, and the dispatch is cancelled |
| `Tunnels.VncTunnel.ConnectionSwitched` | VncTunnel.cpp:752-778 | The same, and the new server is configured, a zlib reset queued, and a name if the client takes one |
| `Tunnels.VncTunnel.ConfigureServer` | VncTunnel.cpp:765-771 | Exactly the format if it differs, the list and a full update request |
| `Tunnels.VncTunnel.PotentialConnectionFailed` | VncTunnel.cpp:93-107 | Only the attempt is given up, and the greeter shows the error |
| `Tunnels.VncTunnel.Catch` | VncTunnel.cpp:93-116 | The catch clauses of the main loop: whether it goes on, with which attempt, and what the greeter is shown |
| `Tunnels.VncTunnel.Negotiate` | VncTunnel.cpp:121-153 | Version and security type, up to the client's choice, with the octets of every refusal |
| `Tunnels.VncTunnel.FinishNone` | VncTunnel.cpp:172-179 | Security result, ClientInit, ServerInit and the name, which is never a controller key |
| `Streams.FdStream.Recv` | FdStream.cpp:61-78 | Exactly len octets in order for every partial-transfer schedule, or an exception |
| `Streams.FdStream.Send` | FdStream.cpp:80-94 | All octets in order, or an exception after a prefix |
| `Streams.FdStream.Forward` | Stream.h:69-72 | The octets are kept and passed on |
| `Streams.FdStream.ForwardDirectly` | Stream.cpp:30-44 | Precisely length octets in order through 4096-octet chunks |
| `Streams.FdStream.TakeFd` | FdStream.cpp:96-101 | The descriptor leaves the stream |
| `StreamFormatters.StreamFormatter.RecvRaw` | StreamFormatter.cpp:41-54 | Takes exactly length octets off the queue of pushed-back and stream octets |
| `StreamFormatters.StreamFormatter.ForwardRaw` | StreamFormatter.cpp:63-71 | Takes them off and passes them on, on both branches |
| `StreamFormatters.StreamFormatter.ForwardDirectly` | StreamFormatter.cpp:73-85 | The same without keeping them |
| `StreamFormatters.StreamFormatter.PushBack` | StreamFormatter.h:305-313 | The octet becomes the first pending one, or the buffer is full |
| `StreamFormatters.StreamFormatter.Send` | StreamFormatter.cpp:36-39 | The value's octets are sent |
| `XvncConnections.XvncConnection.constructor` | XvncConnection.cpp:41-47 | Opening counts as one connection of the session |
| `XvncConnections.XvncConnection.Close` | XvncConnection.cpp:49-54 | Closing counts one connection less |
| `XvncConnections.XvncConnection.StartInitialization` | XvncConnection.cpp:95-136 | Version and security negotiation, with the first supported type |
| `XvncConnections.XvncConnection.SelectType` | XvncConnection.cpp:120-127 | The loop finds the first supported type |
| `XvncConnections.XvncConnection.ReceiveSecurityResult` | XvncConnection.cpp:277-286 | Success, or an exception after the reason |
| `XvncConnections.XvncConnection.CompleteInitialization` | XvncConnection.cpp:288-310 | Size, format and name are those of ServerInit |
| `XvncConnections.XvncConnection.Initialize` | XvncConnection.cpp:56-64 | The whole client side for security type None |
| `XvncConnections.XvncConnection.Attempt` | XvncConnection.cpp:66-93 | The client side with a greeter: initialized, or waiting for a password or credentials, or failed |
| `XvncConnections.XvncConnection.NegotiateVeNCrypt` | XvncConnection.cpp:190-240 | VeNCrypt version, status and subtype, with the first supported subtype |
| `XvncConnections.XvncConnection.Resume` | XvncConnection.cpp:150-188 | The handshake after the greeter's answer |
| `XvncConnections.XvncConnection.SendSetPixelFormat` | XvncConnection.cpp:320-328 | The format is remembered and sent |
| `XvncConnections.XvncConnection.SendSetEncodings` | XvncConnection.cpp:330-337 | Count and list are sent |
| `Asking.FirstTypeTaken` | XvncConnection.cpp:95-143 | Of every offer the first of None, VncAuth and VeNCrypt is chosen and sent: None ends the handshake without the greeter, VncAuth asks it for a password, VeNCrypt goes on to subtypes |
| `Asking.FirstSubtypeTaken` | XvncConnection.cpp:190-240 | Of every offer of subtypes the first of None, VncAuth and Plain is chosen and sent: VncAuth asks for a password, Plain for credentials |
| `Asking.CredentialsFound` | XvncConnection.cpp:262-275 | A reader finds the length of the user name, that of the password, and the two in this order |
| `Asking.ResponseFound` | XvncConnection.cpp:166-188 | A password answers the sixteen octets of the challenge, and nothing else is read or sent |
| `Asking.OtherVersionRefused` | XvncConnection.cpp:95-104 | Both sides refuse every version but RFB 003.008, octet for octet |
| `Asking.NothingSupported` | XvncConnection.cpp:120-136 | An offer without a supported type is refused |
| `Asking.VeNCryptRefused` | XvncConnection.cpp:190-215 | Another VeNCrypt version, or one that is not acknowledged with 0, is refused |
| `Asking.ResultExactly` | XvncConnection.cpp:277-286 | A security result is a success exactly when its four octets are 0 |
| `Asking.ChoiceTaken` | VncTunnel.cpp:121-153 | The server side takes the client's choice exactly if it was offered |
| `Initialization.InitializeAgrees` | XvncConnection.cpp:56-64 | On everything the program's own server side ever says to it, for every offer: the client side reads every octet and learns exactly the display served if None is offered, fails if only other types are, and waits for more if none are |
| `Initialization.AttemptAgrees` | XvncConnection.cpp:66-93 | With a server whose first acceptable type is None, the attempt never asks the greeter and learns the same |
| `Initialization.RefusalUnderstood` | VncTunnel.cpp:126-153 | Every refusal of the server side is an exception with a reason at the program's own client side, whatever was offered |
| `Initialization.NegotiateAgrees` | VncTunnel.cpp:121-179 | On the whole output of the program's own client side the server side reads every octet and says exactly what that client expects |
| `Handshake.HandshakeAgrees` | VncTunnel.cpp:121-179 | In every interleaving the two ends take at most ten actions; when none is left, they are done with equal size, format and name exactly if None is configured, the client side has rejected exactly if only other types are, and each waits for the other exactly if nothing is configured |
| `Handshake.NoDeadlock` | XvncConnection.cpp:95-143 | Before both are done or the client side gave up, some side can move, except exactly where the client side waits for a reason and the server side for a choice, which takes an empty offer |
| `Handshake.ConfiguredSecurityTypes` | VncTunnel.cpp:812-840 | The loop computes the offered types |
| `Handshake.OfferedTypes` | VncTunnel.cpp:812-840 | None is offered exactly when configured, VeNCrypt when anything else is |
| `Handshake.VeNCryptOnce` | VncTunnel.cpp:826-831 | VeNCrypt is offered at most once |
| `Handshake.OfferedInOrder` | VncTunnel.cpp:812-840 | The offer in the order of the configuration: a None for each None, and VeNCrypt in place of the first of the others |
| `Handshake.FirstOffered` | VncTunnel.cpp:812-840 | The first type offered is None exactly if the first subtype configured is |
| `GreeterCache.CacheCoherent` | GreeterConnection.cpp:121-180 | In every interleaving: with no setter between store and bump and the current version sent, a greeter's list shows every managed visible session as it is now, and an extra entry is a still visible session that is still referenced or about to be hidden by its destructor |
| `GreeterCache.StepKeeps` | Xvnc.cpp:86-138 | Every field-level step of setters, manager and greeters keeps the invariant behind it |
| `GreeterProgress.CatchesUp` | GreeterConnection.cpp:121-180 | From every reachable state a greeter that no other thread comes between gets up to date in a number of steps that the state bounds, and then, with no setter between store and bump, lists exactly what it should |
| `GreeterProgress.GetsOn` | GreeterConnection.cpp:163-180 | A greeter that is not up to date can always take a step, which brings it nearer |
| `GreeterProgress.ListsNeedAnnouncements` | GreeterConnection.cpp:121-132 | In every run a greeter has begun no more lists than there were announcements |
| `GreeterProgress.SetterAlone` | Xvnc.cpp:97-138 | A setter that no other thread comes between stores its field and nothing else, and moves the version exactly if the value is new |
| `GreeterProgress.VersionCounts` | XvncManager.cpp:86-91 | In every run the version is the number of announcements |
| `GreeterProgress.ManagedExactly` | XvncManager.cpp:34-103 | In every run a session is managed exactly from its creation, which gives it a new identifier, to the death of its process |
| `Sessions.Xvnc.MarkVisible` | Xvnc.cpp:97-108 | Visibility is set, and exactly changes are announced |
| `Sessions.Xvnc.SetDesktopName` | Xvnc.cpp:110-127 | A key is approved or the name set, so that no stored name is ever a key, and exactly changed names are announced |
| `Desktop.KeyApproved` | Xvnc.cpp:114-117 | For every key: the key behind the prefix is approved, and nothing else changes |
| `Desktop.NameStored` | Xvnc.cpp:119-127 | Every other name is stored, and no key is approved |
| `Sessions.Xvnc.SetSessionUsername` | Xvnc.cpp:129-138 | The name is set, and exactly changes are announced |
| `Sessions.XvncManager.CreateSession` | XvncManager.cpp:34-43 | A new invisible session under an identifier never used before |
| `Sessions.XvncManager.GetSession` | XvncManager.cpp:45-55 | The managed session or none |
| `Sessions.XvncManager.GetSessionByDisplayNumber` | XvncManager.cpp:57-68 | The managed session with the smallest identifier on the display, or none |
| `Sessions.XvncManager.HasVisibleSessions` | XvncManager.cpp:77-84 | Whether some managed session is visible |
| `Sessions.XvncManager.ChildDied` | XvncManager.cpp:93-103 | At most one session goes, the first of that process, and none other |
| `Greeters.GreeterConnection.Update` | GreeterConnection.cpp:121-132 | The list is sent again exactly when the version moved |
| `Greeters.GreeterConnection.SendSessions` | GreeterConnection.cpp:163-180 | Count and lines of the visible sessions in order |
| `Greeters.LinesExactly` | GreeterConnection.cpp:163-180 | The lines are exactly those of the visible sessions, as they are, in the order of their identifiers |
| `Connections.CountsAreExact` | Xvnc.cpp:140-165 | Over every interleaving of tunnels a session's count is the number of live connections to it, disconnect never finds zero, and all counts end at zero |
| `Connections.StepConserves` | VncTunnel.cpp:739-761 | Opening, closing and promoting connections keep the counts exact |
| `ReadSelectors.ReadSelector.Select` | ReadSelector.cpp:53-80 | The handlers of the ready descriptors run in ascending order until one cancels or throws, and it throws exactly when the last one did |
| `ReadSelectors.ReadyAscending` | ReadSelector.cpp:72-79 | The dispatch order is strictly ascending |
| `ReadSelectors.ReadyComplete` | ReadSelector.cpp:72-79 | The queue holds exactly the registered descriptors that are ready |
| `ReadSelectors.OnlyCancelStops` | ReadSelector.cpp:72-79 | Only a handler that cancelled or threw keeps those behind it from running |
| `ReadSelectors.OnlyLastCancels` | ReadSelector.cpp:75-77 | No handler runs after one that cancelled or threw |
| `ReadSelectors.PointersStillValid` | ReadSelector.h:70-74 | If whoever changes what other handlers rely on cancels or throws, every handler that runs finds it as it was when the descriptors were registered |
| `ReadSelectors.TunnelDispatchSafe` | VncTunnel.cpp:267-277 | For every ready set and all handlers that keep the discipline every handler of VncTunnel promises: serverReceive only ever runs for the descriptor of the connection that is current when it runs, and the greeter's handler for that of the greeter there is |
| `ReadSelectors.RegisteredExactly` | VncTunnel.cpp:267-277 | Each of the tunnel's descriptors has its own handler, and no other has one |
| `ReadSelectors.UndisciplinedDispatchUnsafe` | ReadSelector.h:70-74 | Without the cancellation serverReceive runs for a descriptor that is not the current connection's |
| `Controllers.AwaitApproval` | ControllerConnection.cpp:83-94 | Approved exactly when one of the 101 polls finds the key, at the first such poll |
| `Controllers.KeysGuardSessions` | ControllerConnection.cpp:66-124 | Over every run: stored names are never keys, approved keys are never withdrawn, a controller commands only sessions that approved the key it presented, and a visible session has such a key |
| `Controllers.ApprovedExactly` | Xvnc.cpp:110-127 | In every state of every run a session's approved keys are exactly those its Xvnc named behind the prefix |
| `Controllers.PollDecides` | ControllerConnection.cpp:83-113 | In every run a poll lets a controller in if and only if its session's Xvnc named the key it presented at some earlier step; the 101st that finds nothing turns it away, any other lets it wait |
| `Controllers.CommandsObeyed` | ControllerConnection.cpp:66-124 | A controller is attached to the session with the smallest identifier on its display or turned away, waits from its first try, and shows or hides its own session only |

## Left out

- Sockets, select, fork and exec, signals, pipes, xauth and configuration parsing: inputs come as octets, ready sets and parameters.
- TLS and VeNCrypt towards the client after the choice of a security type; DES, which is a parameter of the password's answer.
- TightFraming.TightFramingExact: data sizes below 2^31 octets, beyond which the size computation is undefined.
- UpdateProofs.UpdatePreserved: rectangles that meet `Intended.Framed`, the exact conditions of the framing results; outside them the tunnel and the standard part ways as shown above.
- Streams.FdStream.Recv: errors of the system call are one kind, because nothing distinguishes them later.
- Greeters.GreeterConnection.Update: one thread's view; interference is in GreeterCache.
- Controllers.AwaitApproval: other threads appear as the key sets the polls find.
- Initialization.InitializeAgrees: fewer than 256 security types, because the count is one octet.
- Handshake.HandshakeAgrees: fewer than 256 security types, because the count is one octet.
- TunnelRun.RunKeeps: messages on their way from the client; a client message takes effect when the tunnel reads it.
- TunnelRun.ZlibAgrees: updates whose records fit the announced count; UnfitUpdates says what the others do.
- TunnelRun.FormatsAgree: little-endian formats only, because the code does not convert big-endian ones.
- TunnelRun.SwitchesOnce: sessions that exist and connections that open; stale greeter answers after a deleted attempt are outside the runs.
- ReadSelectors.ReadSelector.Select: handlers are functions on a world, because they cannot re-enter the selector other than by cancelling; `Tunnels.VncTunnel.DispatchReady` is the same loop over the tunnel's own handlers.
- Tunnels.VncTunnel.SwitchToConnection: after a failing system call only the error is stated, because the tunnel ends then.
- The desktop name is read by a tunnel without the session's lock; a name changed by another tunnel during one dispatch is not modelled, only between dispatches.
- The count line that precedes the lines of a session list under interference: visibility is read twice, so the two agree only for an atomic send.
- Contents of zlib and JPEG data: opaque chunks with a history per stream.
- Integer overflow of the version and connection counters.
- The parsing of greeter and controller commands, log output, and the server's accept loop.
