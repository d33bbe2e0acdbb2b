/** The program's server side of the RFB handshake (VncTunnel.cpp:121-179,
    245-265, 812-840) against its own client side (XvncConnection.cpp:56-64,
    95-148, 277-310) restricted to security type None, over two FIFO byte channels,
    in any interleaving. Sections 7.1 and 7.3 of RFC 6143. */
module Handshake {
  import opened Bytes
  import opened Failures
  import opened Rfb

  // "RFB 003.008\n"
  const VERSION: bytes := [82, 70, 66, 32, 48, 48, 51, 46, 48, 48, 56, 10]

  const SECURITY_NONE: byte := 1
  const SECURITY_VNC_AUTH: byte := 2
  const SECURITY_VENCRYPT: byte := 19

  function Ascii(text: string): (b: bytes)
    ensures |b| == |text|
  {
    seq(|text|, i requires 0 <= i < |text| => text[i] as int % 0x100)
  }

  /** VncTunnel::sendReason */
  function Reason(text: string): bytes {
    PutU32(|text| % 0x1_0000_0000) + Ascii(text)
  }

  const BAD_VERSION := "Client version is not supported."
  const BAD_TYPE := "Client chosen invalid security type."

  // ---------------------------------------------------------------- offered security types

  datatype Subtype = SubtypeNone | TlsNone | X509None

  /** The types for the first n configured subtypes: one None for each None, one
      VeNCrypt for all the others. */
  function TypesOf(subtypes: seq<Subtype>): bytes {
    if subtypes == [] then []
    else
      var last, before := subtypes[|subtypes| - 1], subtypes[..|subtypes| - 1];
      TypesOf(before) +
      (if last.SubtypeNone? then [SECURITY_NONE]
       else if exists s :: s in before && !s.SubtypeNone? then []
       else [SECURITY_VENCRYPT])
  }

  method ConfiguredSecurityTypes(venCryptSubtypes: seq<Subtype>) returns (securityTypes: bytes)
    ensures securityTypes == TypesOf(venCryptSubtypes)
  {
    securityTypes := [];
    var venCryptIncluded := false;
    for i := 0 to |venCryptSubtypes|
      invariant securityTypes == TypesOf(venCryptSubtypes[..i])
      invariant venCryptIncluded <==> exists s :: s in venCryptSubtypes[..i] && !s.SubtypeNone?
    {
      assert venCryptSubtypes[..i + 1][..i] == venCryptSubtypes[..i];
      assert forall s :: s in venCryptSubtypes[..i + 1] <==> s in venCryptSubtypes[..i] || s == venCryptSubtypes[i];
      match venCryptSubtypes[i]
      case SubtypeNone =>
        securityTypes := securityTypes + [SECURITY_NONE];
      case _ =>
        if !venCryptIncluded {
          securityTypes := securityTypes + [SECURITY_VENCRYPT];
          venCryptIncluded := true;
        }
    }
    assert venCryptSubtypes[..|venCryptSubtypes|] == venCryptSubtypes;
  }

  /** None is offered exactly when it is configured, VeNCrypt when anything else is. */
  lemma {:induction false} OfferedTypes(subtypes: seq<Subtype>)
    ensures SECURITY_NONE in TypesOf(subtypes) <==> SubtypeNone in subtypes
    ensures SECURITY_VENCRYPT in TypesOf(subtypes) <==> exists s :: s in subtypes && !s.SubtypeNone?
  {
    if subtypes != [] {
      var before := subtypes[..|subtypes| - 1];
      OfferedTypes(before);
      assert forall s :: s in subtypes <==> s in before || s == subtypes[|subtypes| - 1];
    }
  }

  /** VeNCrypt is offered once at most. */
  lemma {:induction false} VeNCryptOnce(subtypes: seq<Subtype>, i: nat, j: nat)
    requires i < j < |TypesOf(subtypes)|
    ensures TypesOf(subtypes)[i] != SECURITY_VENCRYPT || TypesOf(subtypes)[j] != SECURITY_VENCRYPT
  {
    var before := subtypes[..|subtypes| - 1];
    if j < |TypesOf(before)| {
      VeNCryptOnce(before, i, j);
    } else {
      OfferedTypes(before);
      assert TypesOf(subtypes)[i] in TypesOf(before);
    }
  }

  /** The offer in the order of the configuration: 1 for each None, 19 for the first of
      the others. */
  function InOrder(subtypes: seq<Subtype>, included: bool): bytes {
    if subtypes == [] then []
    else if subtypes[0].SubtypeNone? then [1] + InOrder(subtypes[1..], included)
    else (if included then [] else [19]) + InOrder(subtypes[1..], true)
  }

  predicate SomeOther(subtypes: seq<Subtype>) {
    exists s :: s in subtypes && !s.SubtypeNone?
  }

  lemma {:induction false} InOrderSplits(a: seq<Subtype>, b: seq<Subtype>, included: bool)
    ensures InOrder(a + b, included) == InOrder(a, included) + InOrder(b, included || SomeOther(a))
  {
    if a == [] {
      assert a + b == b;
    } else {
      assert (a + b)[1..] == a[1..] + b;
      InOrderSplits(a[1..], b, included || !a[0].SubtypeNone?);
      assert SomeOther(a) <==> !a[0].SubtypeNone? || SomeOther(a[1..]) by {
        assert forall s :: s in a <==> s == a[0] || s in a[1..];
      }
    }
  }

  lemma OneMoreType(before: seq<Subtype>, last: Subtype)
    ensures TypesOf(before + [last]) == TypesOf(before) + InOrder([last], SomeOther(before))
  {
    assert (before + [last])[..|before|] == before;
    assert [last][1..] == [];
  }

  lemma {:induction false} OfferedInOrder(subtypes: seq<Subtype>)
    ensures TypesOf(subtypes) == InOrder(subtypes, false)
  {
    if subtypes != [] {
      var last, before := subtypes[|subtypes| - 1], subtypes[..|subtypes| - 1];
      OfferedInOrder(before);
      hide TypesOf, InOrder, SomeOther;
      assert subtypes == before + [last];
      OneMoreType(before, last);
      InOrderSplits(before, [last], false);
    }
  }

  /** A client that takes the first offer gets what is configured first. */
  lemma FirstOffered(subtypes: seq<Subtype>)
    requires subtypes != []
    ensures TypesOf(subtypes) != [] && TypesOf(subtypes)[0] == if subtypes[0].SubtypeNone? then 1 else 19
  {
    OfferedInOrder(subtypes);
  }

  // ---------------------------------------------------------------- the two programs

  /** What the server side serves: its framebuffer, format and desktop name. */
  datatype Display = Display(width: u16, height: u16, pf: PixelFormat, name: bytes)

  ghost predicate DisplayOk(d: Display) {
    d.pf.WellSized() && d.pf.bigEndianFlag == 0 && |d.name| < 0x1_0000_0000
  }

  /** ServerInitMessage followed by the name. */
  function ServerInit(d: Display): (b: bytes)
    requires d.pf.WellSized() && |d.name| < 0x1_0000_0000
    ensures |b| == 24
  {
    PutU16(d.width) + PutU16(d.height) + d.pf.Hton().Bytes() + PutU32(|d.name|)
  }

  datatype ServerPc = SendVersion | AwaitVersion | AwaitChoice | AwaitClientInit | Served | Refused

  datatype ClientPc =
    | ReadVersion
    | ReadCount
    | ReadTypes(count: nat)
    | ReadResult
    | ReadServerInit
    | ReadName(width: u16, height: u16, pf: PixelFormat, length: nat)
    | ReadReasonLength
    | ReadReason(length: nat)
    | Connected(display: Display)
    | Rejected

  datatype State = State(server: ServerPc, client: ClientPc, toClient: bytes, toServer: bytes)

  const START := State(SendVersion, ReadVersion, [], [])

  /** The server side's next action, or None when it waits for octets or is done. */
  function ServerMove(d: Display, types: bytes, s: State): Option<State>
    requires d.pf.WellSized() && |d.name| < 0x1_0000_0000
  {
    match s.server
    case SendVersion =>
      Some(s.(server := AwaitVersion, toClient := s.toClient + VERSION))
    case AwaitVersion =>
      if |s.toServer| < 12 then None
      else if s.toServer[..12] != VERSION then Some(s.(server := Refused, toClient := s.toClient + ([0] + Reason(BAD_VERSION))))
      else Some(s.(server := AwaitChoice, toServer := s.toServer[12..],
                   toClient := s.toClient + ([|types| % 0x100] + types)))
    case AwaitChoice =>
      if |s.toServer| < 1 then None
      else if s.toServer[0] !in types || s.toServer[0] != SECURITY_NONE then
        Some(s.(server := Refused, toServer := s.toServer[1..], toClient := s.toClient + (PutU32(1) + Reason(BAD_TYPE))))
      else Some(s.(server := AwaitClientInit, toServer := s.toServer[1..], toClient := s.toClient + PutU32(0)))
    case AwaitClientInit =>
      if |s.toServer| < 1 then None
      else Some(s.(server := Served, toServer := s.toServer[1..], toClient := s.toClient + (ServerInit(d) + d.name)))
    case _ => None
  }

  /** The client side's next action, or None when it waits for octets or is done. */
  function ClientMove(s: State): Option<State> {
    match s.client
    case ReadVersion =>
      if |s.toClient| < 12 then None
      else if s.toClient[..12] != VERSION then Some(s.(client := Rejected))
      else Some(s.(client := ReadCount, toClient := s.toClient[12..], toServer := s.toServer + VERSION))
    case ReadCount =>
      if |s.toClient| < 1 then None
      else if s.toClient[0] == 0 then Some(s.(client := ReadReasonLength, toClient := s.toClient[1..]))
      else Some(s.(client := ReadTypes(s.toClient[0]), toClient := s.toClient[1..]))
    case ReadTypes(count) =>
      if |s.toClient| < count then None
      else if SECURITY_NONE !in s.toClient[..count] then Some(s.(client := Rejected))
      else Some(s.(client := ReadResult, toClient := s.toClient[count..], toServer := s.toServer + [SECURITY_NONE]))
    case ReadResult =>
      if |s.toClient| < 4 then None
      else if GetU32(s.toClient[..4]) != 0 then Some(s.(client := ReadReasonLength, toClient := s.toClient[4..]))
      else Some(s.(client := ReadServerInit, toClient := s.toClient[4..], toServer := s.toServer + [1]))
    case ReadServerInit =>
      if |s.toClient| < 24 then None
      else
        var b := s.toClient[..24];
        Some(s.(client := ReadName(GetU16(b[..2]), GetU16(b[2..4]), ReadPixelFormat(b[4..20]).Ntoh(), GetU32(b[20..])),
                toClient := s.toClient[24..]))
    case ReadName(width, height, pf, length) =>
      if |s.toClient| < length then None
      else Some(s.(client := Connected(Display(width, height, pf, s.toClient[..length])), toClient := s.toClient[length..]))
    case ReadReasonLength =>
      if |s.toClient| < 4 then None
      else Some(s.(client := ReadReason(GetU32(s.toClient[..4])), toClient := s.toClient[4..]))
    case ReadReason(length) =>
      if |s.toClient| < length then None
      else Some(s.(client := Rejected, toClient := s.toClient[length..]))
    case _ => None
  }

  // ---------------------------------------------------------------- what has been said and heard

  /** All octets the server side has sent on its way to a successful end. */
  ghost function SaidByServer(d: Display, types: bytes, pc: ServerPc): bytes
    requires DisplayOk(d) && |types| < 0x100
  {
    match pc
    case SendVersion => []
    case AwaitVersion => VERSION
    case AwaitChoice => VERSION + ([|types|] + types)
    case AwaitClientInit => VERSION + ([|types|] + types) + PutU32(0)
    case _ => VERSION + ([|types|] + types) + PutU32(0) + (ServerInit(d) + d.name)
  }

  ghost function HeardByServer(pc: ServerPc): nat {
    match pc
    case SendVersion => 0
    case AwaitVersion => 0
    case AwaitChoice => 12
    case AwaitClientInit => 13
    case _ => 14
  }

  ghost function SaidByClient(pc: ClientPc): bytes {
    match pc
    case ReadVersion => []
    case ReadCount => VERSION
    case ReadTypes(_) => VERSION
    case ReadResult => VERSION + [SECURITY_NONE]
    case ReadReasonLength => VERSION
    case ReadReason(_) => VERSION
    case Rejected => VERSION
    case _ => VERSION + [SECURITY_NONE] + [1]
  }

  ghost function HeardByClient(d: Display, types: bytes, pc: ClientPc): nat {
    match pc
    case ReadVersion => 0
    case ReadCount => 12
    case ReadTypes(_) => 13
    case ReadResult => 13 + |types|
    case ReadServerInit => 17 + |types|
    case ReadName(_, _, _, _) => 41 + |types|
    case Connected(_) => 41 + |types| + |d.name|
    case _ => 13
  }

  /** What the client side remembers is what the server side serves. */
  ghost predicate Remembers(d: Display, types: bytes, pc: ClientPc) {
    match pc
    case ReadTypes(count) => count == |types| > 0
    case ReadName(width, height, pf, length) => width == d.width && height == d.height && pf == d.pf && length == |d.name|
    case Connected(display) => display == d
    case ReadReasonLength => types == []
    case ReadReason(_) => false
    case Rejected => types != []
    case _ => true
  }

  /** Both channels hold exactly what was said and not yet heard. */
  ghost predicate Inv(d: Display, types: bytes, s: State)
    requires DisplayOk(d) && |types| < 0x100
  {
    && !s.server.Refused?
    && HeardByClient(d, types, s.client) <= |SaidByServer(d, types, s.server)|
    && s.toClient == SaidByServer(d, types, s.server)[HeardByClient(d, types, s.client)..]
    && HeardByServer(s.server) <= |SaidByClient(s.client)|
    && s.toServer == SaidByClient(s.client)[HeardByServer(s.server)..]
    && Remembers(d, types, s.client)
    && (SECURITY_NONE !in types ==> s.client.ReadVersion? || s.client.ReadCount? || s.client.ReadTypes? || s.client.ReadReasonLength? || s.client.Rejected?)
    && (s.client.Rejected? ==> SECURITY_NONE !in types)
  }

  lemma ServerInitReadsBack(d: Display)
    requires DisplayOk(d)
    ensures
      var b := ServerInit(d);
      && GetU16(b[..2]) == d.width && GetU16(b[2..4]) == d.height
      && ReadPixelFormat(b[4..20]).Ntoh() == d.pf && GetU32(b[20..]) == |d.name|
  {
  }

  /** Saying more leaves the unheard part in place. */
  lemma SayMore(said: bytes, heard: nat, more: bytes)
    requires heard <= |said|
    ensures (said + more)[heard..] == said[heard..] + more
  {
  }

  lemma ServerGreetingKeeps(d: Display, types: bytes, s: State)
    requires DisplayOk(d) && |types| < 0x100 && Inv(d, types, s) && ServerMove(d, types, s).Some?
    requires s.server.SendVersion?
    ensures Inv(d, types, ServerMove(d, types, s).value)
  {
  }

  /** The client side sends back the right version. */
  lemma VersionComesBack(pc: ClientPc)
    requires |SaidByClient(pc)| >= 12
    ensures SaidByClient(pc)[..12] == VERSION
  {
  }

  /** The server side hears n octets and says some more. */
  lemma ServerSays(d: Display, types: bytes, s: State, pc: ServerPc, n: nat, more: bytes)
    requires DisplayOk(d) && |types| < 0x100 && Inv(d, types, s) && !pc.Refused? && n <= |s.toServer|
    requires SaidByServer(d, types, pc) == SaidByServer(d, types, s.server) + more
    requires HeardByServer(pc) == HeardByServer(s.server) + n
    ensures Inv(d, types, s.(server := pc, toServer := s.toServer[n..], toClient := s.toClient + more))
  {
    hide SaidByServer, SaidByClient, HeardByServer, HeardByClient, Remembers, DisplayOk;
    SayMore(SaidByServer(d, types, s.server), HeardByClient(d, types, s.client), more);
  }

  lemma VersionHeard(d: Display, types: bytes, s: State)
    requires DisplayOk(d) && |types| < 0x100 && Inv(d, types, s) && s.server.AwaitVersion? && |s.toServer| >= 12
    ensures s.toServer[..12] == VERSION
  {
    hide SaidByServer, HeardByClient, Remembers, DisplayOk, SaidByClient, VERSION;
    var said := SaidByClient(s.client);
    assert said[0..] == said;
    VersionComesBack(s.client);
  }

  lemma OfferMade(d: Display, types: bytes, s: State)
    requires DisplayOk(d) && |types| < 0x100 && s.server.AwaitVersion?
    requires |s.toServer| >= 12 && s.toServer[..12] == VERSION
    ensures ServerMove(d, types, s) ==
            Some(s.(server := AwaitChoice, toServer := s.toServer[12..], toClient := s.toClient + ([|types|] + types)))
    ensures SaidByServer(d, types, AwaitChoice) == SaidByServer(d, types, AwaitVersion) + ([|types|] + types)
    ensures HeardByServer(AwaitChoice) == HeardByServer(AwaitVersion) + 12
  {
    hide ServerInit, PutU32, Reason;
  }

  lemma VersionArrived(d: Display, types: bytes, s: State)
    requires DisplayOk(d) && s.server.AwaitVersion? && ServerMove(d, types, s).Some?
    ensures |s.toServer| >= 12
  {
  }

  lemma ServerVersionKeeps(d: Display, types: bytes, s: State)
    requires DisplayOk(d) && |types| < 0x100 && Inv(d, types, s) && ServerMove(d, types, s).Some?
    requires s.server.AwaitVersion?
    ensures Inv(d, types, ServerMove(d, types, s).value)
  {
    hide Inv, ServerMove, SaidByServer, HeardByServer, VERSION, DisplayOk;
    VersionArrived(d, types, s);
    VersionHeard(d, types, s);
    OfferMade(d, types, s);
    ServerSays(d, types, s, AwaitChoice, 12, [|types|] + types);
  }

  lemma ServerChoiceKeeps(d: Display, types: bytes, s: State)
    requires DisplayOk(d) && |types| < 0x100 && Inv(d, types, s) && ServerMove(d, types, s).Some?
    requires s.server.AwaitChoice?
    ensures Inv(d, types, ServerMove(d, types, s).value)
  {
  }

  lemma ServerInitKeeps(d: Display, types: bytes, s: State)
    requires DisplayOk(d) && |types| < 0x100 && Inv(d, types, s) && ServerMove(d, types, s).Some?
    requires s.server.AwaitClientInit?
    ensures Inv(d, types, ServerMove(d, types, s).value)
  {
  }

  lemma ServerStepKeeps(d: Display, types: bytes, s: State)
    requires DisplayOk(d) && |types| < 0x100 && Inv(d, types, s) && ServerMove(d, types, s).Some?
    ensures Inv(d, types, ServerMove(d, types, s).value)
  {
    hide Inv;
    match s.server
    case AwaitChoice => ServerChoiceKeeps(d, types, s);
    case AwaitClientInit => ServerInitKeeps(d, types, s);
    case AwaitVersion => ServerVersionKeeps(d, types, s);
    case _ => ServerGreetingKeeps(d, types, s);
  }

  /** The client side up to its list of types. */
  lemma VersionKeeps(d: Display, types: bytes, s: State)
    requires DisplayOk(d) && |types| < 0x100 && Inv(d, types, s) && ClientMove(s).Some?
    requires s.client.ReadVersion? || s.client.ReadCount?
    ensures Inv(d, types, ClientMove(s).value)
  {
  }

  lemma TypesKeep(d: Display, types: bytes, s: State)
    requires DisplayOk(d) && |types| < 0x100 && Inv(d, types, s) && ClientMove(s).Some?
    requires s.client.ReadTypes?
    ensures Inv(d, types, ClientMove(s).value)
  {
    hide ServerInit, PutU32, GetU32, GetU16, ReadPixelFormat, PixelFormat.Ntoh, DisplayOk;
    assert s.toClient[..|types|] == types;
    SayMore(SaidByClient(s.client), HeardByServer(s.server), [SECURITY_NONE]);
  }

  lemma ResultKeeps(d: Display, types: bytes, s: State)
    requires DisplayOk(d) && |types| < 0x100 && Inv(d, types, s) && ClientMove(s).Some?
    requires s.client.ReadResult?
    ensures Inv(d, types, ClientMove(s).value)
  {
    hide ServerInit, PutU32, GetU32, GetU16, ReadPixelFormat, PixelFormat.Ntoh, DisplayOk;
    assert s.toClient[..4] == PutU32(0);
  }

  /** The client side from ServerInit on. */
  lemma InitKeeps(d: Display, types: bytes, s: State)
    requires DisplayOk(d) && |types| < 0x100 && Inv(d, types, s) && ClientMove(s).Some?
    requires s.client.ReadServerInit? || s.client.ReadName?
    ensures Inv(d, types, ClientMove(s).value)
  {
    hide ServerInit, PutU32, GetU32, GetU16, ReadPixelFormat, PixelFormat.Ntoh;
    ServerInitReadsBack(d);
    if s.client.ReadServerInit? {
      assert s.toClient[..24] == ServerInit(d);
    } else {
      assert s.toClient[..|d.name|] == d.name;
    }
  }

  /** A server side that offered nothing never says why. */
  lemma ReasonNeverComes(d: Display, types: bytes, s: State)
    requires DisplayOk(d) && |types| < 0x100 && Inv(d, types, s)
    requires s.client.ReadReasonLength? || s.client.ReadReason? || s.client.Connected? || s.client.Rejected?
    ensures ClientMove(s).None?
  {
    hide ServerInit, PutU32;
  }

  lemma ClientStepKeeps(d: Display, types: bytes, s: State)
    requires DisplayOk(d) && |types| < 0x100 && Inv(d, types, s) && ClientMove(s).Some?
    ensures Inv(d, types, ClientMove(s).value)
  {
    hide Inv, ClientMove;
    match s.client
    case ReadVersion => VersionKeeps(d, types, s);
    case ReadCount => VersionKeeps(d, types, s);
    case ReadResult => ResultKeeps(d, types, s);
    case ReadServerInit => InitKeeps(d, types, s);
    case ReadName(_, _, _, _) => InitKeeps(d, types, s);
    case ReadTypes(_) => TypesKeep(d, types, s);
    case _ => ReasonNeverComes(d, types, s);
  }

  /** Both sides are done, or the client side has given up. */
  predicate Over(s: State) {
    s.client.Rejected? || (s.server.Served? && s.client.Connected?)
  }

  /** The client side waits for a reason while the server side waits for a choice. */
  predicate Stuck(s: State) {
    s == State(AwaitChoice, ReadReasonLength, [], [])
  }

  /** Some side can move until it is over, except that an empty offer, whose count
      the client side takes for a refusal, leaves each side waiting for the other. */
  lemma NoDeadlock(d: Display, types: bytes, s: State)
    requires DisplayOk(d) && |types| < 0x100 && Inv(d, types, s) && !Over(s)
    ensures ServerMove(d, types, s).None? && ClientMove(s).None? <==> Stuck(s)
    ensures Stuck(s) ==> types == []
  {
    hide ServerInit, PutU32, GetU32, GetU16, ReadPixelFormat, Reason;
  }

  // ---------------------------------------------------------------- runs

  ghost predicate IsStep(d: Display, types: bytes, s: State, s': State)
    requires DisplayOk(d)
  {
    ServerMove(d, types, s) == Some(s') || ClientMove(s) == Some(s')
  }

  ghost predicate IsRun(d: Display, types: bytes, states: seq<State>)
    requires DisplayOk(d)
  {
    && states != [] && states[0] == START
    && forall k :: 0 <= k < |states| - 1 ==> IsStep(d, types, states[k], states[k + 1])
  }

  /** Actions left to the two sides. */
  function StepsLeft(s: State): nat {
    (match s.server
     case SendVersion => 4
     case AwaitVersion => 3
     case AwaitChoice => 2
     case AwaitClientInit => 1
     case _ => 0) +
    (match s.client
     case ReadVersion => 6
     case ReadCount => 5
     case ReadTypes(_) => 4
     case ReadResult => 3
     case ReadServerInit => 2
     case ReadName(_, _, _, _) => 1
     case ReadReasonLength => 2
     case ReadReason(_) => 1
     case _ => 0)
  }

  lemma {:induction false} RunKeeps(d: Display, types: bytes, states: seq<State>, k: nat)
    requires DisplayOk(d) && |types| < 0x100 && IsRun(d, types, states) && k < |states|
    ensures Inv(d, types, states[k]) && StepsLeft(states[k]) + k <= 10
  {
    hide Inv, ServerMove, ClientMove;
    if k == 0 {
      StartInv(d, types);
    } else {
      RunKeeps(d, types, states, k - 1);
      var s := states[k - 1];
      assert IsStep(d, types, s, states[k]);
      if ServerMove(d, types, s) == Some(states[k]) {
        ServerStepKeeps(d, types, s);
      } else {
        ClientStepKeeps(d, types, s);
      }
      StepCounts(d, types, s, states[k]);
    }
  }

  lemma StartInv(d: Display, types: bytes)
    requires DisplayOk(d) && |types| < 0x100
    ensures Inv(d, types, START) && StepsLeft(START) == 10
  {
  }

  lemma ServerCounts(d: Display, types: bytes, s: State)
    requires DisplayOk(d) && ServerMove(d, types, s).Some?
    ensures StepsLeft(ServerMove(d, types, s).value) < StepsLeft(s)
  {
    hide ServerInit, PutU32, Reason;
  }

  lemma ClientCounts(s: State)
    requires ClientMove(s).Some?
    ensures StepsLeft(ClientMove(s).value) < StepsLeft(s)
  {
    hide GetU32, GetU16, ReadPixelFormat, PixelFormat.Ntoh;
  }

  lemma StepCounts(d: Display, types: bytes, s: State, s': State)
    requires DisplayOk(d) && IsStep(d, types, s, s')
    ensures StepsLeft(s') < StepsLeft(s)
  {
    hide ServerMove, ClientMove, StepsLeft;
    if ServerMove(d, types, s) == Some(s') {
      ServerCounts(d, types, s);
    } else {
      ClientCounts(s);
    }
  }

  lemma SomethingOffered(subtypes: seq<Subtype>)
    requires subtypes != []
    ensures TypesOf(subtypes) != []
  {
    OfferedTypes(subtypes);
    var last := subtypes[|subtypes| - 1];
    assert last in subtypes;
  }

  /** MAIN RESULT. For every configuration, every display and every interleaving
      the two sides take at most ten actions in all. When none is possible any
      more: if None was configured, both are done and the client side holds exactly
      the server side's size, format and name; if something else was, the client
      side has rejected; and only if nothing was, each waits for the other. */
  lemma HandshakeAgrees(d: Display, subtypes: seq<Subtype>, states: seq<State>)
    requires DisplayOk(d) && |TypesOf(subtypes)| < 0x100 && IsRun(d, TypesOf(subtypes), states)
    ensures
      var last := states[|states| - 1];
      && |states| <= 11
      && (ServerMove(d, TypesOf(subtypes), last).None? && ClientMove(last).None? ==>
            && (last == State(Served, Connected(d), [], []) <==> SubtypeNone in subtypes)
            && (last.client.Rejected? <==> SubtypeNone !in subtypes && subtypes != [])
            && (Stuck(last) <==> subtypes == []))
  {
    var types, last := TypesOf(subtypes), states[|states| - 1];
    RunKeeps(d, types, states, |states| - 1);
    OfferedTypes(subtypes);
    if subtypes != [] {
      SomethingOffered(subtypes);
    }
    if ServerMove(d, types, last).None? && ClientMove(last).None? && !Over(last) {
      NoDeadlock(d, types, last);
    }
  }
}
