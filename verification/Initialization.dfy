/** The two handshakes, each as a function of the octets its peer has sent:
    XvncConnection::initialize (XvncConnection.cpp:56-318), implemented by class
    XvncConnection, and VncTunnel::clientInitalize for security type None
    (VncTunnel.cpp:121-179, 245-265), implemented by class VncTunnel. */
module Initialization {
  import opened Bytes
  import opened ClientMessages
  import opened Failures
  import H = Handshake
  import opened FramingProofs
  import opened Relay
  import opened Rfb

  /** The first offered type that is supported, or 0. */
  function Select(types: bytes, supported: set<byte>): byte {
    if types == [] then 0 else if types[0] in supported then types[0] else Select(types[1..], supported)
  }

  /** A reason string read off the stream; the exception carries it. */
  function FailWithReason(io: Io): Error {
    match Take(io, 4)
    case Failure(e) => e
    case Success((length, io1)) =>
      match Take(io1, GetU32(length))
      case Failure(e) => e
      case Success(_) => ConnectionFailed
  }

  function StartInitialization(supported: set<byte>, io: Io): Result<(byte, Io)> {
    var (version, io1) :- Take(io, 12);
    if version != H.VERSION then
      Failure(ConnectionFailed)
    else
      var (count, io2) :- Take(Put(io1, version), 1);
      if count[0] == 0 then
        Failure(FailWithReason(io2))
      else
        var (types, io3) :- Take(io2, count[0]);
        var selected := Select(types, supported);
        if selected == 0 then Failure(ConnectionFailed) else Success((selected, Put(io3, [selected])))
  }

  function ReceiveSecurityResult(io: Io): Result<Io> {
    var (status, io1) :- Take(io, 4);
    if GetU32(status) != 0 then Failure(FailWithReason(io1)) else Success(io1)
  }

  /** What ServerInit says, with the name that follows it. */
  function CompleteInitialization(io: Io): Result<(H.Display, Io)> {
    var (b, io1) :- Take(Put(io, [1]), 24);
    var (name, io2) :- Take(io1, GetU32(b[20..]));
    Success((H.Display(GetU16(b[..2]), GetU16(b[2..4]), ReadPixelFormat(b[4..20]).Ntoh(), name), io2))
  }

  /** handleNoneSecurity, which also ends the other handshakes. */
  function Finish(io: Io): Result<(H.Display, Io)> {
    var io1 :- ReceiveSecurityResult(io);
    CompleteInitialization(io1)
  }

  function Initialize(io: Io): Result<(H.Display, Io)> {
    var (selected, io1) :- StartInitialization({H.SECURITY_NONE}, io);
    Finish(io1)
  }

  lemma {:induction false} SelectsNone(types: bytes)
    ensures Select(types, {H.SECURITY_NONE}) == if H.SECURITY_NONE in types then H.SECURITY_NONE else 0
  {
    if types != [] {
      SelectsNone(types[1..]);
      assert H.SECURITY_NONE in types <==> types[0] == H.SECURITY_NONE || H.SECURITY_NONE in types[1..];
    }
  }

  /** How far the program's own server side gets with its own client side. */
  ghost function LastWord(types: bytes): H.ServerPc {
    if H.SECURITY_NONE in types then H.Served else H.AwaitChoice
  }

  /** On everything the program's own server side ever says to it, initialize reads
      every octet, learns exactly the display served, and says exactly what the
      client of module Handshake says, when None is offered; it fails when only
      other types are; and when none are, it still waits for a reason. */
  lemma InitializeAgrees(d: H.Display, types: bytes)
    requires H.DisplayOk(d) && |types| < 0x100
    ensures Initialize(Io(H.SaidByServer(d, types, LastWord(types)), [])) ==
            if H.SECURITY_NONE in types then Success((d, Io([], H.SaidByClient(H.Connected(d)))))
            else if types != [] then Failure(ConnectionFailed)
            else Failure(Eof)
  {
    hide Take, Put, H.ServerInit, GetU32, GetU16, PutU32, ReadPixelFormat, PixelFormat.Ntoh, Select, FailWithReason;
    var init, ok := H.ServerInit(d), PutU32(0);
    var afterTypes := if H.SECURITY_NONE in types then ok + (init + d.name) else [];
    assert H.SaidByServer(d, types, LastWord(types)) == H.VERSION + ([|types|] + (types + afterTypes));
    TakeAppend(H.VERSION, [|types|] + (types + afterTypes), []);
    TakeAppend([|types|], types + afterTypes, H.VERSION);
    TakeAppend(types, afterTypes, H.VERSION);
    PutMeans([], H.VERSION, [|types|] + (types + afterTypes));
    SelectsNone(types);
    if H.SECURITY_NONE in types {
      PutMeans(H.VERSION, [H.SECURITY_NONE], afterTypes);
      var said := H.VERSION + [H.SECURITY_NONE];
      TakeAppend(ok, init + d.name, said);
      PutMeans(said, [1], init + d.name);
      TakeAppend(init, d.name, said + [1]);
      H.ServerInitReadsBack(d);
      assert d.name + [] == d.name;
      TakeAppend(d.name, [], said + [1]);
    } else if types == [] {
      NoReason(H.VERSION);
    }
  }

  lemma NoReason(out: bytes)
    ensures FailWithReason(Io([] + [], out)) == Eof
  {
  }

  // ---------------------------------------------------------------- with the greeter's help

  // VeNCrypt subtypes of the handshake with Xvnc.
  const SUBTYPE_NONE: s32 := 1
  const SUBTYPE_VNC_AUTH: s32 := 2
  const SUBTYPE_PLAIN: s32 := 256

  /** Where initialize with handlers stops: initialized, or waiting for the greeter. */
  datatype Asked = Ready(display: H.Display) | NeedsPassword | NeedsCredentials

  /** The first subtype that is supported, or 0. */
  function SelectSubtype(subtypes: seq<s32>): s32 {
    if subtypes == [] then 0
    else if subtypes[0] in {SUBTYPE_NONE, SUBTYPE_VNC_AUTH, SUBTYPE_PLAIN} then subtypes[0]
    else SelectSubtype(subtypes[1..])
  }

  /** The VeNCrypt negotiation, up to the chosen subtype. */
  function VeNCrypt(io: Io): Result<(s32, Io)> {
    var (version, io1) :- Take(io, 2);
    if version != [0, 2] then
      Failure(ConnectionFailed)
    else
      var (status, io2) :- Take(Put(io1, version), 1);
      if status[0] != 0 then
        Failure(ConnectionFailed)
      else
        var (length, io3) :- Take(io2, 1);
        var count: int := length[0];
        var (list, io4) :- Take(io3, 4 * count);
        var selected := SelectSubtype(DecodeList(list));
        if selected == 0 then Failure(ConnectionFailed)
        else Success((selected, Put(io4, PutU32(ToUnsigned(selected)))))
  }

  /** handleNoneSecurity */
  function HandleNone(io: Io): Result<(Asked, Io)> {
    var (d, io1) :- Finish(io);
    Success((Ready(d), io1))
  }

  function HandleVeNCrypt(io: Io): Result<(Asked, Io)> {
    var (selected, io1) :- VeNCrypt(io);
    if selected == SUBTYPE_NONE then HandleNone(io1)
    else if selected == SUBTYPE_VNC_AUTH then Success((NeedsPassword, io1))
    else Success((NeedsCredentials, io1))
  }

  /** initialize with handlers, for a connection that a greeter asked for. */
  function Attempt(io: Io): Result<(Asked, Io)> {
    var (selected, io1) :- StartInitialization({H.SECURITY_NONE, H.SECURITY_VNC_AUTH, H.SECURITY_VENCRYPT}, io);
    if selected == H.SECURITY_NONE then HandleNone(io1)
    else if selected == H.SECURITY_VNC_AUTH then Success((NeedsPassword, io1))
    else HandleVeNCrypt(io1)
  }

  /** What the greeter answers. */
  datatype Answer = Password(password: bytes) | Credentials(username: bytes, password: bytes)

  /** The octets sent for an answer, which a password encrypts a challenge into
      (handleVncAuthSecurityWithPassword, handleVeNCryptSecurityWithCredentials). */
  function SendAnswer(encrypt: (bytes, bytes) -> bytes, answer: Answer, io: Io): Result<Io> {
    match answer
    case Password(password) =>
      var (challenge, io1) :- Take(io, 16);
      Success(Put(io1, encrypt(password, challenge)))
    case Credentials(username, password) =>
      Success(Put(Put(Put(io, CredentialsHeader(username, password)), username), password))
  }

  /** The rest of the handshake after the greeter's answer. */
  function Resume(encrypt: (bytes, bytes) -> bytes, answer: Answer, io: Io): Result<(H.Display, Io)> {
    var io1 :- SendAnswer(encrypt, answer, io);
    Finish(io1)
  }

  function CredentialsHeader(username: bytes, password: bytes): bytes {
    PutU32(|username| % 0x1_0000_0000) + PutU32(|password| % 0x1_0000_0000)
  }

  /** A server whose first acceptable offer is None is never asked about anything
      else: the attempt is initialize without handlers. */
  lemma AttemptAgrees(d: H.Display, types: bytes)
    requires H.DisplayOk(d) && |types| < 0x100
    requires Select(types, {H.SECURITY_NONE, H.SECURITY_VNC_AUTH, H.SECURITY_VENCRYPT}) == H.SECURITY_NONE
    ensures Attempt(Io(H.SaidByServer(d, types, H.Served), [])) == Success((Ready(d), Io([], H.SaidByClient(H.Connected(d)))))
  {
    hide StartInitialization, ReceiveSecurityResult, CompleteInitialization, Select, H.SaidByServer, H.SaidByClient;
    SelectedIsOffered(types, {H.SECURITY_NONE, H.SECURITY_VNC_AUTH, H.SECURITY_VENCRYPT});
    SelectsNone(types);
    StartAgrees(d, types, {H.SECURITY_NONE, H.SECURITY_VNC_AUTH, H.SECURITY_VENCRYPT});
    StartAgrees(d, types, {H.SECURITY_NONE});
    InitializeAgrees(d, types);
  }

  lemma StartAgrees(d: H.Display, types: bytes, supported: set<byte>)
    requires H.DisplayOk(d) && 0 < |types| < 0x100 && Select(types, supported) != 0
    ensures StartInitialization(supported, Io(H.SaidByServer(d, types, H.Served), [])) ==
            Success((Select(types, supported), Io(PutU32(0) + (H.ServerInit(d) + d.name), H.VERSION + [Select(types, supported)])))
  {
    hide Take, Put, H.ServerInit, PutU32, Select, FailWithReason;
    var more := PutU32(0) + (H.ServerInit(d) + d.name);
    assert H.SaidByServer(d, types, H.Served) == H.VERSION + ([|types|] + (types + more));
    TakeAppend(H.VERSION, [|types|] + (types + more), []);
    PutMeans([], H.VERSION, [|types|] + (types + more));
    TakeAppend([|types|], types + more, H.VERSION);
    TakeAppend(types, more, H.VERSION);
    PutMeans(H.VERSION, [Select(types, supported)], more);
  }

  lemma {:induction false} SelectedIsOffered(types: bytes, supported: set<byte>)
    ensures Select(types, supported) != 0 ==> Select(types, supported) in types
  {
    if types != [] {
      SelectedIsOffered(types[1..], supported);
    }
  }

  /** The offered types and the client's choice among them. */
  function Offer(types: bytes, io: Io): Result<(byte, Io)> {
    var (chosen, io1) :- Take(Put(Put(io, [|types| % 0x100]), types), 1);
    if chosen[0] !in types then Failure(ClientRefused) else Success((chosen[0], io1))
  }

  /** The server side up to the client's choice of a security type. */
  function Negotiate(types: bytes, io: Io): Result<(byte, Io)> {
    var (version, io1) :- Take(Put(io, H.VERSION), 12);
    if version != H.VERSION then Failure(ClientRefused) else Offer(types, io1)
  }

  /** Everything the server side has said when it refuses: the version with a
      reason, or the offer with a failed security result and a reason. */
  function Refusal(types: bytes, io: Io): bytes {
    H.VERSION +
    (if |io.input| < 12 || io.input[..12] != H.VERSION then [0] + H.Reason(H.BAD_VERSION) else RefusedOffer(types))
  }

  function RefusedOffer(types: bytes): bytes {
    [|types| % 0x100] + types + (PutU32(1) + H.Reason(H.BAD_TYPE))
  }

  /** The program's own client side understands every refusal as one, whatever was
      offered to it. */
  lemma RefusalUnderstood(types: bytes, io: Io)
    requires |types| < 0x100
    ensures Initialize(Io(Refusal(types, io), [])) == Failure(ConnectionFailed)
  {
    hide Initialize, RefusedOffer, H.Reason;
    if |io.input| < 12 || io.input[..12] != H.VERSION {
      VersionRefused();
    } else {
      OfferRefused(types);
    }
  }

  lemma VersionRefused()
    ensures Initialize(Io(H.VERSION + ([0] + H.Reason(H.BAD_VERSION)), [])) == Failure(ConnectionFailed)
  {
    hide Take, Put, H.Reason, FailWithReason, Finish;
    TakeAppend(H.VERSION, [0] + H.Reason(H.BAD_VERSION), []);
    PutMeans([], H.VERSION, [0] + H.Reason(H.BAD_VERSION));
    TakeAppend([0], H.Reason(H.BAD_VERSION), H.VERSION);
    ReasonRead(H.BAD_VERSION, H.VERSION);
  }

  lemma OfferRefused(types: bytes)
    requires |types| < 0x100
    ensures Initialize(Io(H.VERSION + RefusedOffer(types), [])) == Failure(ConnectionFailed)
  {
    hide Take, Put, PutU32, GetU32, H.Reason, Select, FailWithReason, CompleteInitialization;
    var reason := PutU32(1) + H.Reason(H.BAD_TYPE);
    assert RefusedOffer(types) == [|types|] + (types + reason);
    TakeAppend(H.VERSION, [|types|] + (types + reason), []);
    PutMeans([], H.VERSION, [|types|] + (types + reason));
    TakeAppend([|types|], types + reason, H.VERSION);
    TakeAppend(types, reason, H.VERSION);
    SelectsNone(types);
    if types == [] {
      assert types + reason == reason;
      ShortReason(H.VERSION);
    } else if H.SECURITY_NONE in types {
      PutMeans(H.VERSION, [H.SECURITY_NONE], reason);
      TakeAppend(PutU32(1), H.Reason(H.BAD_TYPE), H.VERSION + [H.SECURITY_NONE]);
      ReasonRead(H.BAD_TYPE, H.VERSION + [H.SECURITY_NONE]);
    }
  }

  lemma ReasonShape(text: string)
    requires |text| < 0x100
    ensures H.Reason(text) == PutU32(|text|) + H.Ascii(text)
  {
  }

  lemma ReasonRead(text: string, out: bytes)
    requires |text| < 0x100
    ensures FailWithReason(Io(H.Reason(text), out)) == ConnectionFailed
  {
    hide H.Reason, H.Ascii, PutU32, GetU32, Take;
    var reason := H.Ascii(text);
    ReasonShape(text);
    TakeAppend(PutU32(|text|), reason, out);
    assert reason + [] == reason;
    TakeAppend(reason, [], out);
  }

  /** After an empty offer the failed result itself is read as a reason's length. */
  lemma ShortReason(out: bytes)
    ensures FailWithReason(Io(PutU32(1) + H.Reason(H.BAD_TYPE), out)) == ConnectionFailed
  {
    var reason := H.Reason(H.BAD_TYPE);
    assert |reason| >= 1;
    hide H.Reason;
    TakeAppend(PutU32(1), reason, out);
  }

  /** handleNoneSecurity and finishClientInitialization. */
  function FinishNone(d: H.Display, io: Io): Result<Io>
    requires d.pf.WellSized() && |d.name| < 0x1_0000_0000
  {
    var (_, io1) :- Take(Put(io, PutU32(0)), 1);
    Success(Put(Put(io1, H.ServerInit(d)), d.name))
  }

  /** On everything the program's own client side says, the server side reads every
      octet, settles on None, and says exactly what the server of module Handshake
      says. */
  lemma NegotiateAgrees(d: H.Display, types: bytes)
    requires H.DisplayOk(d) && |types| < 0x100 && H.SECURITY_NONE in types
    ensures
      var chosen := Negotiate(types, Io(H.SaidByClient(H.Connected(d)), []));
      && chosen.Success? && chosen.value.0 == H.SECURITY_NONE
      && FinishNone(d, chosen.value.1) == Success(Io([], H.SaidByServer(d, types, H.Served)))
  {
    hide Take, Put, H.ServerInit, PutU32;
    var more := [H.SECURITY_NONE] + [1];
    assert H.SaidByClient(H.Connected(d)) == H.VERSION + more;
    PutMeans([], H.VERSION, H.VERSION + more);
    TakeAppend(H.VERSION, more, H.VERSION);
    PutMeans(H.VERSION, [|types|], more);
    PutMeans(H.VERSION + [|types|], types, more);
    var offered := H.VERSION + [|types|] + types;
    TakeAppend([H.SECURITY_NONE], [1], offered);
    assert Negotiate(types, Io(H.VERSION + more, [])) == Success((H.SECURITY_NONE, Io([1], offered)));
    FinishSays(d, offered);
    assert H.SaidByServer(d, types, H.Served) == offered + PutU32(0) + H.ServerInit(d) + d.name by {
      ServedSays(d, types, PutU32(0), H.ServerInit(d) + d.name);
    }
  }

  lemma FinishSays(d: H.Display, offered: bytes)
    requires H.DisplayOk(d)
    ensures FinishNone(d, Io([1], offered)) == Success(Io([], offered + PutU32(0) + H.ServerInit(d) + d.name))
  {
    hide Take, Put, H.ServerInit, PutU32;
    PutMeans(offered, PutU32(0), [1]);
    assert [1] + [] == [1];
    TakeAppend([1], [], offered + PutU32(0));
    PutMeans(offered + PutU32(0), H.ServerInit(d), []);
    PutMeans(offered + PutU32(0) + H.ServerInit(d), d.name, []);
  }

  lemma ServedSays(d: H.Display, types: bytes, ok: bytes, init: bytes)
    requires H.DisplayOk(d) && |types| < 0x100 && ok == PutU32(0) && init == H.ServerInit(d) + d.name
    ensures H.SaidByServer(d, types, H.Served) == H.VERSION + [|types|] + types + ok + H.ServerInit(d) + d.name
  {
  }

  lemma PutMeans(out: bytes, b: bytes, input: bytes)
    ensures Put(Io(input, out), b) == Io(input, out + b)
    ensures [] + b == b
  {
  }
}
