/** What the handshake with a new server says to it, and what it asks of the greeter
    (XvncConnection.cpp:66-275), on the octets that both sides put onto the wire. */
module Asking {
  import opened Bytes
  import opened ClientMessages
  import opened Failures
  import opened FramingProofs
  import H = Handshake
  import opened I = Initialization
  import opened Relay
  import opened Rfb

  // ---------------------------------------------------------------- the first supported offer

  /** The i-th offer is supported and none before it is. */
  ghost predicate FirstOf<T>(offers: seq<T>, supported: set<T>, i: nat) {
    i < |offers| && offers[i] in supported && forall j :: 0 <= j < i ==> offers[j] !in supported
  }

  lemma {:induction false} SelectsFirst(types: bytes, supported: set<byte>, i: nat)
    requires FirstOf(types, supported, i)
    ensures Select(types, supported) == types[i]
  {
    if i > 0 {
      SelectsFirst(types[1..], supported, i - 1);
    }
  }

  lemma {:induction false} SelectsNothing(types: bytes, supported: set<byte>)
    requires forall t :: t in types ==> t !in supported
    ensures Select(types, supported) == 0
  {
    if types != [] {
      SelectsNothing(types[1..], supported);
    }
  }

  lemma {:induction false} SelectsFirstSubtype(subtypes: seq<s32>, i: nat)
    requires FirstOf(subtypes, {1, 2, 256}, i)
    ensures SelectSubtype(subtypes) == subtypes[i]
  {
    if i > 0 {
      SelectsFirstSubtype(subtypes[1..], i - 1);
    }
  }

  // ---------------------------------------------------------------- security types

  /** The server's version, and its offer of security types. */
  function Offers(types: bytes): bytes {
    H.VERSION + [|types| % 256] + types
  }

  lemma StartsWithFirst(types: bytes, i: nat, more: bytes)
    requires |types| < 256 && FirstOf(types, {1, 2, 19}, i)
    ensures StartInitialization({1, 2, 19}, Io(Offers(types) + more, [])) == Success((types[i], Io(more, H.VERSION + [types[i]])))
  {
    hide Take, Put, Select, FailWithReason;
    assert Offers(types) + more == H.VERSION + ([|types|] + (types + more));
    TakeAppend(H.VERSION, [|types|] + (types + more), []);
    PutMeans([], H.VERSION, [|types|] + (types + more));
    TakeAppend([|types|], types + more, H.VERSION);
    TakeAppend(types, more, H.VERSION);
    SelectsFirst(types, {1, 2, 19}, i);
    PutMeans(H.VERSION, [types[i]], more);
  }

  /** The first of None (1), VncAuth (2) and VeNCrypt (19) that the server offers is
      taken: None ends the handshake without the greeter, VncAuth asks it for a
      password, and VeNCrypt goes on to subtypes. */
  lemma FirstTypeTaken(types: bytes, i: nat, more: bytes)
    requires |types| < 256 && FirstOf(types, {1, 2, 19}, i)
    ensures
      var r, told := Attempt(Io(Offers(types) + more, [])), H.VERSION + [types[i]];
      && (types[i] == 1 ==> r == HandleNone(Io(more, told)) && (r.Success? ==> r.value.0.Ready?))
      && (types[i] == 2 ==> r == Success((NeedsPassword, Io(more, told))))
      && (types[i] == 19 ==> r == HandleVeNCrypt(Io(more, told)))
  {
    hide StartInitialization, I.Finish, VeNCrypt, Offers;
    StartsWithFirst(types, i, more);
  }

  // ---------------------------------------------------------------- VeNCrypt subtypes

  /** Version 0.2, a status of 0, and the offer of subtypes. */
  function OffersSubtypes(subtypes: seq<s32>): bytes {
    [0, 2] + [0] + [|subtypes| % 256] + EncodeList(subtypes)
  }

  /** The first of None (1), VncAuth (2) and Plain (256) that the server offers is
      taken: VncAuth asks the greeter for a password, and Plain for credentials. */
  lemma FirstSubtypeTaken(subtypes: seq<s32>, i: nat, more: bytes, out: bytes)
    requires |subtypes| < 256 && FirstOf(subtypes, {1, 2, 256}, i)
    ensures
      var r, told := HandleVeNCrypt(Io(OffersSubtypes(subtypes) + more, out)), out + [0, 2] + [0, 0, subtypes[i] / 256, subtypes[i] % 256];
      && (subtypes[i] == 1 ==> r == HandleNone(Io(more, told)))
      && (subtypes[i] == 2 ==> r == Success((NeedsPassword, Io(more, told))))
      && (subtypes[i] == 256 ==> r == Success((NeedsCredentials, Io(more, told))))
  {
    hide I.Finish;
    SubtypeNumber(subtypes[i]);
    VeNCryptTakesFirst(subtypes, i, more, out);
    hide VeNCrypt, OffersSubtypes, PutU32;
  }

  lemma SubtypeNumber(n: s32)
    requires n in {1, 2, 256}
    ensures PutU32(ToUnsigned(n)) == [0, 0, n / 256, n % 256]
  {
  }

  lemma VeNCryptTakesFirst(subtypes: seq<s32>, i: nat, more: bytes, out: bytes)
    requires |subtypes| < 256 && FirstOf(subtypes, {1, 2, 256}, i)
    ensures VeNCrypt(Io(OffersSubtypes(subtypes) + more, out)) ==
            Success((subtypes[i], Io(more, out + [0, 2] + PutU32(ToUnsigned(subtypes[i])))))
  {
    hide Take, Put, PutU32, EncodeList, DecodeList, SelectSubtype;
    var list := EncodeList(subtypes);
    assert OffersSubtypes(subtypes) + more == [0, 2] + ([0] + ([|subtypes|] + (list + more)));
    TakeAppend([0, 2], [0] + ([|subtypes|] + (list + more)), out);
    PutMeans(out, [0, 2], [0] + ([|subtypes|] + (list + more)));
    TakeAppend([0], [|subtypes|] + (list + more), out + [0, 2]);
    TakeAppend([|subtypes|], list + more, out + [0, 2]);
    TakeAppend(list, more, out + [0, 2]);
    ListReadsBack(subtypes);
    SelectsFirstSubtype(subtypes, i);
    PutMeans(out + [0, 2], PutU32(ToUnsigned(subtypes[i])), more);
  }

  // ---------------------------------------------------------------- answers

  /** Credentials as the server finds them: the length of the user name, that of the
      password, and then the two, without anything of the server's being read. */
  lemma CredentialsFound(encrypt: (bytes, bytes) -> bytes, username: bytes, password: bytes, io: Io)
    requires |username| < 0x1_0000_0000 && |password| < 0x1_0000_0000
    ensures
      var r := SendAnswer(encrypt, Credentials(username, password), io);
      && r.Success? && r.value.input == io.input && io.output <= r.value.output
      && var sent := r.value.output[|io.output|..];
         && |sent| == 8 + |username| + |password|
         && GetU32(sent[..4]) == |username| && GetU32(sent[4..8]) == |password|
         && sent[8..8 + |username|] == username && sent[8 + |username|..] == password
  {
    hide PutU32, GetU32;
    var a, b := PutU32(|username|), PutU32(|password|);
    var sent := SendAnswer(encrypt, Credentials(username, password), io).value.output;
    assert sent == io.output + (a + b + username + password);
    var tail := sent[|io.output|..];
    assert tail == a + b + username + password;
    assert tail[..4] == a && tail[4..8] == b && tail[8..8 + |username|] == username && tail[8 + |username|..] == password;
  }

  /** A password as the server finds it: the response to the sixteen octets that it
      sent as a challenge, and nothing else. */
  lemma ResponseFound(encrypt: (bytes, bytes) -> bytes, password: bytes, challenge: bytes, more: bytes, out: bytes)
    requires |challenge| == 16
    ensures SendAnswer(encrypt, Password(password), Io(challenge + more, out)) ==
            Success(Io(more, out + encrypt(password, challenge)))
  {
    TakeAppend(challenge, more, out);
  }

  // ---------------------------------------------------------------- refusals

  /** Either side refuses every version but "RFB 003.008", octet for octet. */
  lemma OtherVersionRefused(io: Io, supported: set<byte>, types: bytes)
    requires |io.input| >= 12 && io.input[..12] != H.Ascii("RFB 003.008\n")
    ensures StartInitialization(supported, io) == Failure(ConnectionFailed)
    ensures Attempt(io) == Failure(ConnectionFailed) && Initialize(io) == Failure(ConnectionFailed)
    ensures Negotiate(types, io) == Failure(ClientRefused)
  {
    assert H.VERSION == H.Ascii("RFB 003.008\n");
    hide H.Ascii, I.Finish, HandleNone, HandleVeNCrypt, Select, Offer;
    assert StartInitialization(supported, io) == Failure(ConnectionFailed);
    assert StartInitialization({1, 2, 19}, io) == StartInitialization({1}, io) == Failure(ConnectionFailed);
    hide StartInitialization;
  }

  /** An offer of which nothing is supported is refused. */
  lemma NothingSupported(types: bytes, more: bytes)
    requires 0 < |types| < 256 && forall t :: t in types ==> t !in {1, 2, 19}
    ensures Attempt(Io(Offers(types) + more, [])) == Failure(ConnectionFailed)
  {
    hide Take, Put, Select, FailWithReason, HandleNone, HandleVeNCrypt;
    assert Offers(types) + more == H.VERSION + ([|types|] + (types + more));
    TakeAppend(H.VERSION, [|types|] + (types + more), []);
    PutMeans([], H.VERSION, [|types|] + (types + more));
    TakeAppend([|types|], types + more, H.VERSION);
    TakeAppend(types, more, H.VERSION);
    SelectsNothing(types, {1, 2, 19});
  }

  /** The server side takes the client's choice exactly if it was offered. */
  lemma ChoiceTaken(types: bytes, choice: byte, more: bytes)
    requires |types| < 256
    ensures Negotiate(types, Io(H.VERSION + [choice] + more, [])) ==
            if choice in types then Success((choice, Io(more, H.VERSION + [|types|] + types))) else Failure(ClientRefused)
  {
    hide Take, Put;
    assert H.VERSION + [choice] + more == H.VERSION + ([choice] + more);
    PutMeans([], H.VERSION, H.VERSION + ([choice] + more));
    TakeAppend(H.VERSION, [choice] + more, H.VERSION);
    PutMeans(H.VERSION, [|types|], [choice] + more);
    PutMeans(H.VERSION + [|types|], types, [choice] + more);
    TakeAppend([choice], more, H.VERSION + [|types|] + types);
  }

  /** A security result is a success exactly when its four octets are 0. */
  lemma ResultExactly(io: Io)
    requires |io.input| >= 4
    ensures ReceiveSecurityResult(io) == Success(io.(input := io.input[4..])) <==> io.input[..4] == [0, 0, 0, 0]
    ensures ReceiveSecurityResult(io).Success? <==> io.input[..4] == [0, 0, 0, 0]
  {
    hide FailWithReason;
    var b := io.input[..4];
    assert GetU32(b) == 0 <==> (b[0] as int) == 0 && (b[1] as int) == 0 && (b[2] as int) == 0 && (b[3] as int) == 0;
  }

  /** VeNCrypt goes on only with version 0.2, which the server has to acknowledge with a
      0, and a subtype that is supported. */
  lemma VeNCryptRefused(io: Io)
    requires |io.input| >= 3 && io.input[..3] != [0, 2, 0]
    ensures VeNCrypt(io) == Failure(ConnectionFailed)
  {
    hide SelectSubtype, DecodeList, PutU32;
    assert io.input[..2][0] == io.input[0] && io.input[..2][1] == io.input[1];
    assert io.input[2..][..1][0] == io.input[2];
    assert io.input[..3] == [io.input[0], io.input[1], io.input[2]];
  }
}
