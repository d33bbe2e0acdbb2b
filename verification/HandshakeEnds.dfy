/** Where the handshake with a server ends (XvncConnection.cpp:95-318): how many of
    the server's octets it takes, read off those octets, and what becomes of a
    server that says less. */
module HandshakeEnds {
  import opened Bytes
  import opened ClientMessages
  import opened Failures
  import H = Handshake
  import I = Initialization
  import opened Relay
  import opened Rfb

  // ---------------------------------------------------------------- lengths

  /** A length of four octets and that many octets more. */
  function ReasonLength(b: bytes): nat {
    4 + if |b| < 4 then 0 else GetU32(b[..4])
  }

  /** ServerInit and the name it announces. */
  function InitLength(b: bytes): nat {
    24 + if |b| < 24 then 0 else GetU32(b[20..24])
  }

  /** The security result, and ServerInit or the reason. */
  function ResultLength(b: bytes): nat {
    4 + if |b| < 4 then 0 else if GetU32(b[..4]) == 0 then InitLength(b[4..]) else ReasonLength(b[4..])
  }

  /** The chosen VeNCrypt subtype and what follows it before the greeter is asked. */
  function SubtypeLength(count: nat, b: bytes): nat {
    4 * count +
    (if |b| >= 4 * count && I.SelectSubtype(DecodeList(b[..4 * count])) == I.SUBTYPE_NONE then ResultLength(b[4 * count..]) else 0)
  }

  /** Version, status, count and subtypes; a wrong version or status is the last. */
  function VeNCryptLength(b: bytes): nat {
    if |b| < 2 || b[..2] != [0, 2] then 2
    else if |b| < 3 || b[2] != 0 then 3
    else if |b| < 4 then 4
    else 4 + SubtypeLength(b[3], b[4..])
  }

  /** What the selected type brings. */
  function SelectedLength(selected: byte, b: bytes): nat {
    if selected == H.SECURITY_NONE then ResultLength(b)
    else if selected == H.SECURITY_VENCRYPT then VeNCryptLength(b)
    else 0
  }

  /** The offered types and what the selected one brings. */
  function TypesLength(count: nat, b: bytes): nat {
    count + if |b| < count then 0 else SelectedLength(I.Select(b[..count], SUPPORTED), b[count..])
  }

  const SUPPORTED: set<byte> := {H.SECURITY_NONE, H.SECURITY_VNC_AUTH, H.SECURITY_VENCRYPT}

  /** All the octets of a server that initialize with handlers reads by itself. */
  function AttemptLength(b: bytes): nat {
    if |b| < 12 || b[..12] != H.VERSION then 12
    else if |b| < 13 then 13
    else if b[12] == 0 then 13 + ReasonLength(b[13..])
    else 13 + TypesLength(b[12], b[13..])
  }

  /** Those it reads after the greeter's answer. */
  function ResumeLength(answer: I.Answer, b: bytes): nat {
    match answer
    case Password(_) => 16 + (if |b| < 16 then 0 else ResultLength(b[16..]))
    case Credentials(_, _) => ResultLength(b)
  }

  // ---------------------------------------------------------------- exactly when the end is missing

  /** A step of the handshake that takes n octets of b: it runs into the end of the
      stream exactly when there are fewer, fails in no other way than by a
      ConnectionException, and leaves the octets behind its n. */
  ghost predicate Takes<T(!new)>(r: Result<(T, Io)>, b: bytes, n: nat) {
    match r
    case Success((_, io)) => |b| >= n && io.input == b[n..]
    case Failure(e) => if |b| < n then e == Eof else e == ConnectionFailed
  }

  lemma ReasonTakes(b: bytes, out: bytes)
    ensures I.FailWithReason(Io(b, out)) == if |b| < ReasonLength(b) then Eof else ConnectionFailed
  {
  }

  lemma InitTakes(b: bytes, out: bytes)
    ensures Takes(I.CompleteInitialization(Io(b, out)), b, InitLength(b))
  {
    hide GetU16, GetU32, ReadPixelFormat, PixelFormat.Ntoh;
    if |b| >= 24 {
      assert b[..24][20..] == b[20..24];
    }
  }

  lemma FinishTakes(b: bytes, out: bytes)
    ensures Takes(I.Finish(Io(b, out)), b, ResultLength(b))
  {
    hide I.CompleteInitialization, I.FailWithReason, InitLength, ReasonLength, GetU32;
    if |b| >= 4 {
      InitTakes(b[4..], out);
      ReasonTakes(b[4..], out);
      Longer(b, 4, if GetU32(b[..4]) == 0 then InitLength(b[4..]) else ReasonLength(b[4..]));
    }
  }

  lemma Longer(b: bytes, n: nat, m: nat)
    requires n <= |b|
    ensures |b| < n + m <==> |b[n..]| < m
    ensures |b| >= n + m ==> b[n..][m..] == b[n + m..]
  {
  }

  lemma NoneTakes(b: bytes, out: bytes)
    ensures Takes(I.HandleNone(Io(b, out)), b, ResultLength(b))
  {
    hide I.Finish, ResultLength;
    FinishTakes(b, out);
  }

  /** Supported subtypes are not 0. */
  lemma {:induction false} SelectedSubtype(l: seq<s32>)
    ensures I.SelectSubtype(l) in {0, I.SUBTYPE_NONE, I.SUBTYPE_VNC_AUTH, I.SUBTYPE_PLAIN}
  {
    if l != [] {
      SelectedSubtype(l[1..]);
    }
  }

  lemma SubtypeTakes(count: nat, b: bytes, out: bytes)
    requires |b| >= 4 * count
    ensures SubtypeLength(count, b) >= 4 * count
    ensures
      var selected := I.SelectSubtype(DecodeList(b[..4 * count]));
      && (selected == I.SUBTYPE_NONE ==>
            Takes(I.HandleNone(Io(b[4 * count..], out)), b[4 * count..], SubtypeLength(count, b) - 4 * count))
      && (selected != I.SUBTYPE_NONE ==> SubtypeLength(count, b) == 4 * count)
  {
    hide I.HandleNone, ResultLength;
    NoneTakes(b[4 * count..], out);
  }

  lemma VeNCryptTakes(b: bytes, out: bytes)
    ensures Takes(I.HandleVeNCrypt(Io(b, out)), b, VeNCryptLength(b))
  {
    hide I.HandleNone, SubtypeLength, DecodeList, PutU32, I.SelectSubtype;
    if |b| >= 4 && b[..2] == [0, 2] && b[2] == 0 {
      var count: int := b[3];
      assert b[2..][..1] == [b[2]] && b[2..][1..] == b[3..] && b[3..][..1] == [b[3]] && b[3..][1..] == b[4..];
      if |b[4..]| >= 4 * count {
        var selected := I.SelectSubtype(DecodeList(b[4..][..4 * count]));
        SubtypeTakes(count, b[4..], out + [0, 2] + PutU32(ToUnsigned(selected)));
        Longer(b, 4, SubtypeLength(count, b[4..]));
        Longer(b[4..], 4 * count, SubtypeLength(count, b[4..]) - 4 * count);
      } else {
        TooShort(count, b[4..]);
      }
    } else if |b| >= 3 && b[..2] == [0, 2] {
      assert b[2..][..1] == [b[2]];
    }
  }

  lemma TooShort(count: nat, b: bytes)
    requires |b| < 4 * count
    ensures SubtypeLength(count, b) == 4 * count
  {
  }

  lemma {:induction false} SelectedType(types: bytes)
    ensures I.Select(types, SUPPORTED) in {0} + SUPPORTED
  {
    if types != [] {
      SelectedType(types[1..]);
    }
  }

  lemma TypesSplit(count: nat, b: bytes)
    requires count <= |b|
    ensures TypesLength(count, b) == count + SelectedLength(I.Select(b[..count], SUPPORTED), b[count..])
  {
    hide ResultLength, VeNCryptLength, I.Select;
  }

  lemma SelectionTakes(selected: byte, b: bytes, out: bytes)
    ensures selected == H.SECURITY_NONE ==> Takes(I.HandleNone(Io(b, out)), b, SelectedLength(selected, b))
    ensures selected == H.SECURITY_VENCRYPT ==> Takes(I.HandleVeNCrypt(Io(b, out)), b, SelectedLength(selected, b))
  {
    hide I.HandleNone, I.HandleVeNCrypt, ResultLength, VeNCryptLength, Takes;
    NoneTakes(b, out);
    VeNCryptTakes(b, out);
  }

  lemma StartTakes(b: bytes, out: bytes)
    ensures
      match I.StartInitialization(SUPPORTED, Io(b, out))
      case Success((selected, io)) =>
        && |b| >= 13 && b[..12] == H.VERSION && b[12] != 0 && |b| >= 13 + (b[12] as int)
        && selected == I.Select(b[13..][..b[12]], SUPPORTED) != 0 && io.input == b[13..][b[12]..]
      case Failure(e) => if |b| < AttemptLength(b) then e == Eof else e == ConnectionFailed
  {
    hide I.Select, I.FailWithReason, ReasonLength, ResultLength, VeNCryptLength, GetU32;
    if |b| >= 13 && b[..12] == H.VERSION {
      assert b[12..][..1] == [b[12]] && b[12..][1..] == b[13..];
      if b[12] == 0 {
        ReasonTakes(b[13..], out + H.VERSION);
        Longer(b, 13, ReasonLength(b[13..]));
      }
    }
  }

  /** MAIN RESULT. Whatever a server says and however far it gets: the handshake runs
      into the end of the stream exactly when the server said less than AttemptLength
      reads off; otherwise it leaves exactly what lies behind, or fails with a
      ConnectionException. */
  lemma AttemptTakes(b: bytes, out: bytes)
    ensures Takes(I.Attempt(Io(b, out)), b, AttemptLength(b))
  {
    hide I.StartInitialization, I.HandleNone, I.HandleVeNCrypt, I.Select, TypesLength, SelectedLength, ReasonLength;
    StartTakes(b, out);
    if I.StartInitialization(SUPPORTED, Io(b, out)).Success? {
      var (selected, io) := I.StartInitialization(SUPPORTED, Io(b, out)).value;
      var count: int := b[12];
      var rest := b[13..][count..];
      TypesSplit(count, b[13..]);
      SelectionTakes(selected, rest, io.output);
      SelectedType(b[13..][..count]);
      NothingMore(selected, rest);
      Longer(b, 13, TypesLength(count, b[13..]));
      Longer(b[13..], count, SelectedLength(selected, rest));
    }
  }

  lemma NothingMore(selected: byte, b: bytes)
    ensures selected == H.SECURITY_VNC_AUTH ==> SelectedLength(selected, b) == 0
  {
    hide ResultLength, VeNCryptLength;
  }

  /** The same after the greeter's answer. */
  lemma ResumeTakes(encrypt: (bytes, bytes) -> bytes, answer: I.Answer, b: bytes, out: bytes)
    ensures Takes(I.Resume(encrypt, answer, Io(b, out)), b, ResumeLength(answer, b))
  {
    hide I.Finish, ResultLength, I.CredentialsHeader;
    match answer
    case Password(password) =>
      if |b| >= 16 {
        FinishTakes(b[16..], out + encrypt(password, b[..16]));
        Longer(b, 16, ResultLength(b[16..]));
      }
    case Credentials(username, password) =>
      FinishTakes(b, out + I.CredentialsHeader(username, password) + username + password);
  }
}
