/**
 * The host tool's remote-button command: key and action names are checked
 * against fixed tables, a SessionInit message is sent and its SessionInfo
 * reply awaited, then a ButtonEvent carrying the same timestamp is sent and
 * its ButtonAck classified.
 *
 * The message object of the tool's `msg` module is modelled only as far as
 * this file uses it: a type, and a byte buffer whose payload starts at
 * offset 4, written with little-endian 32- and 16-bit stores. Header bytes
 * 0..3 and the packet framing of send_msg are not specified here.
 */
module Button {
  import opened Bytes
  import RemoteKeyApi
  import RemoteKey
  import opened KeyTable

  const MSG_SESSION_INIT: nat := 0x0514
  const MSG_SESSION_INFO: nat := 0x0515
  const MSG_BUTTON_EVENT: nat := 0x0610
  const MSG_BUTTON_ACK: nat := 0x0611

  const ACTION_PRESS: byte := 0
  const ACTION_RELEASE: byte := 1

  /** Under the firmware's key numbering, where PTT is 16 and KEY_INVALID is
      above 18, every key the tool can name passes the firmware's
      IsAllowedKey check. Whether an event is accepted also depends on the
      key state the queue predicts. */
  lemma HostKeysAllowed(codes: RemoteKey.KeyCodes)
    requires codes.ptt == 16 && codes.invalid > 18
    ensures forall name :: name in KEY_MAP ==> RemoteKey.IsAllowedKey(codes, KEY_MAP[name])
  {
    KeyMapEntriesBounded();
  }

  // ---------------------------------------------------------------------------
  // Names

  function UpperChar(c: char): char
  {
    if 'a' <= c <= 'z' then (c as int - 32) as char else c
  }

  function LowerChar(c: char): char
  {
    if 'A' <= c <= 'Z' then (c as int + 32) as char else c
  }

  /** str.upper(), for ASCII letters. */
  function Upper(s: string): string
  {
    seq(|s|, i requires 0 <= i < |s| => UpperChar(s[i]))
  }

  /** str.lower(), for ASCII letters. */
  function Lower(s: string): string
  {
    seq(|s|, i requires 0 <= i < |s| => LowerChar(s[i]))
  }

  /** The code of a key name, compared upper-cased. */
  function LookupKey(name: string): (r: Option<byte>)
    ensures r.Some? <==> Upper(name) in KEY_MAP
    ensures r.Some? ==> r.value == KEY_MAP[Upper(name)]
    ensures r.Some? ==> r.value <= 18 && r.value != 16
  {
    KeyMapEntriesBounded();
    var key := Upper(name);
    if key in KEY_MAP then Some(KEY_MAP[key]) else None
  }

  /** Upper-casing leaves a name without lower-case letters alone, and
      undoes lower-casing it. */
  lemma UpperOfUpperCase(s: string)
    requires NoLowerCase(s)
    ensures Upper(s) == s && Upper(Lower(s)) == s
  {
  }

  /** Every name of the table is found as written and in lower case. */
  lemma LookupFindsEveryKey(name: string)
    requires name in KEY_MAP
    ensures LookupKey(name) == Some(KEY_MAP[name])
    ensures LookupKey(Lower(name)) == Some(KEY_MAP[name])
  {
    KeyNamesUpperCase();
    UpperOfUpperCase(name);
  }

  /** The action of an action name, compared lower-cased: only "press" and
      "release" are actions, and their codes are the firmware's. */
  function ParseAction(name: string): (r: Option<byte>)
    ensures r == Some(RemoteKeyApi.ACTION_PRESS) <==> Lower(name) == "press"
    ensures r == Some(RemoteKeyApi.ACTION_RELEASE) <==> Lower(name) == "release"
    ensures r.None? <==> Lower(name) != "press" && Lower(name) != "release"
  {
    var action := Lower(name);
    if action == "press" then Some(ACTION_PRESS)
    else if action == "release" then Some(ACTION_RELEASE)
    else None
  }

  // ---------------------------------------------------------------------------
  // Messages

  /** A message of the `msg` module: its type, and its buffer, whose payload
      starts at offset 4. */
  class Msg {
    const msgType: nat
    const buf: array<byte>

    /** Msg.make(type, length): room for a 4-byte header and the payload. */
    constructor Make(msgType: nat, length: nat)
      ensures this.msgType == msgType && buf.Length == 4 + length && fresh(buf)
    {
      this.msgType := msgType;
      buf := new byte[4 + length];
    }

    /** Stores `field` at `offset`; the other bytes are unchanged. */
    method Store(offset: nat, field: seq<byte>)
      requires offset + |field| <= buf.Length
      modifies buf
      ensures buf[offset..offset + |field|] == field
      ensures forall k :: 0 <= k < buf.Length && !(offset <= k < offset + |field|) ==>
        buf[k] == old(buf[k])
    {
      forall k | 0 <= k < |field| {
        buf[offset + k] := field[k];
      }
    }

    /** set_word_LE: the value modulo 2^32, little-endian. */
    method SetWordLE(offset: nat, v: int)
      requires offset + 4 <= buf.Length
      modifies buf
      ensures buf[offset..offset + 4] == LittleEndian(v, 4)
      ensures forall k :: 0 <= k < buf.Length && !(offset <= k < offset + 4) ==>
        buf[k] == old(buf[k])
    {
      Store(offset, LittleEndian(v, 4));
    }

    /** set_hw_LE: the value modulo 2^16, little-endian. */
    method SetHwLE(offset: nat, v: int)
      requires offset + 2 <= buf.Length
      modifies buf
      ensures buf[offset..offset + 2] == LittleEndian(v, 2)
      ensures forall k :: 0 <= k < buf.Length && !(offset <= k < offset + 2) ==>
        buf[k] == old(buf[k])
    {
      Store(offset, LittleEndian(v, 2));
    }

    /** get_hw_LE: the 16-bit value that set_hw_LE would have stored there. */
    function GetHwLE(offset: nat): (v: nat)
      reads buf
      requires offset + 2 <= buf.Length
      ensures v < 0x1_0000 && LittleEndian(v, 2) == buf[offset..offset + 2]
    {
      HalfWordAt(buf[..], offset)
    }
  }

  /** The layout make_session_init produces. */
  ghost predicate SessionInitLayout(m: Msg, ts: int)
    reads m.buf
  {
    m.msgType == MSG_SESSION_INIT && m.buf.Length == 4 + 4 &&
    m.buf[4..8] == LittleEndian(ts, 4)
  }

  /** The layout make_button_msg produces. */
  ghost predicate ButtonLayout(m: Msg, ts: int, seqNo: int, key: int, action: int, holdMs: int)
    reads m.buf
  {
    m.msgType == MSG_BUTTON_EVENT && m.buf.Length == 4 + 10 &&
    m.buf[4..8] == LittleEndian(ts, 4) &&
    m.buf[8..10] == LittleEndian(seqNo, 2) &&
    m.buf[10] == key % 256 && m.buf[11] == action % 256 &&
    m.buf[12..14] == LittleEndian(holdMs % 0x1_0000, 2)
  }

  /** The fields of a ButtonEvent read back as the timestamp modulo 2^32,
      the sequence number modulo 2^16, the low bytes of key and action, and
      the hold time modulo 2^16. */
  lemma ButtonFieldsReadBack(m: Msg, ts: int, seqNo: int, key: int, action: int, holdMs: int)
    requires ButtonLayout(m, ts, seqNo, key, action, holdMs)
    ensures FromLittleEndian(m.buf[4..8]) == ts % 0x1_0000_0000
    ensures FromLittleEndian(m.buf[8..10]) == seqNo % 0x1_0000
    ensures m.buf[10] == key % 256 && m.buf[11] == action % 256
    ensures FromLittleEndian(m.buf[12..14]) == holdMs % 0x1_0000
  {
    LittleEndian32(ts);
    LittleEndian16(seqNo);
    LittleEndian16(holdMs % 0x1_0000);
  }

  method MakeSessionInit(ts: int) returns (m: Msg)
    ensures fresh(m) && fresh(m.buf) && SessionInitLayout(m, ts)
  {
    m := new Msg.Make(MSG_SESSION_INIT, 4);
    m.SetWordLE(4, ts);
  }

  method MakeButtonMsg(ts: int, seqNo: int, key: int, action: int, holdMs: int) returns (m: Msg)
    ensures fresh(m) && fresh(m.buf) && ButtonLayout(m, ts, seqNo, key, action, holdMs)
  {
    m := new Msg.Make(MSG_BUTTON_EVENT, 10);
    m.SetWordLE(4, ts);
    m.SetHwLE(8, seqNo);
    m.buf[10] := key % 256;
    m.buf[11] := action % 256;
    m.SetHwLE(12, holdMs % 0x1_0000);
    assert m.buf[4..8] == LittleEndian(ts, 4) by {
      forall k | 4 <= k < 8 ensures m.buf[k] == LittleEndian(ts, 4)[k - 4] { }
    }
    assert m.buf[8..10] == LittleEndian(seqNo, 2) by {
      forall k | 8 <= k < 10 ensures m.buf[k] == LittleEndian(seqNo, 2)[k - 8] { }
    }
  }

  // ---------------------------------------------------------------------------
  // Receiving

  /** The position of the first message of type `t`, if any. */
  function FirstOfType(ms: seq<Msg>, t: nat): (r: Option<nat>)
    ensures r.Some? ==> r.value < |ms| && ms[r.value].msgType == t &&
                        forall j :: 0 <= j < r.value ==> ms[j].msgType != t
    ensures r.None? ==> forall j :: 0 <= j < |ms| ==> ms[j].msgType != t
    decreases |ms|
  {
    if ms == [] then None
    else if ms[0].msgType == t then Some(0)
    else match FirstOfType(ms[1..], t)
      case None => None
      case Some(i) => Some(i + 1)
  }

  /** wait_for_msg over the messages that arrive before the timeout, in
      order: messages of other types are discarded, the first one of the
      wanted type is returned, and with none found every message is spent. */
  method WaitForMsg(incoming: seq<Msg>, msgType: nat) returns (found: Option<Msg>, rest: seq<Msg>)
    ensures found.Some? ==> found.value.msgType == msgType
    ensures match FirstOfType(incoming, msgType)
      case None => found.None? && rest == []
      case Some(i) => found == Some(incoming[i]) && rest == incoming[i + 1..]
  {
    var i := 0;
    while i < |incoming|
      invariant 0 <= i <= |incoming|
      invariant forall j :: 0 <= j < i ==> incoming[j].msgType != msgType
    {
      var m := incoming[i];
      if m.msgType == msgType {
        FirstIsUnique(incoming, msgType, i);
        return Some(m), incoming[i + 1..];
      }
      i := i + 1;
    }
    FirstIsUnique(incoming, msgType, -1);
    return None, [];
  }

  /** FirstOfType is determined by the first matching position. */
  lemma FirstIsUnique(ms: seq<Msg>, t: nat, i: int)
    requires -1 <= i < |ms|
    requires i >= 0 ==> ms[i].msgType == t
    requires forall j :: 0 <= j < (if i == -1 then |ms| else i) ==> ms[j].msgType != t
    ensures FirstOfType(ms, t) == if i == -1 then None else Some(i)
  {
  }

  // ---------------------------------------------------------------------------
  // send_button

  /** The port as send_button sees it: the messages it has sent, in order,
      and the messages that will be fetched from it, in arrival order. */
  class Port {
    var written: seq<Msg>
    var incoming: seq<Msg>

    constructor (incoming: seq<Msg>)
      ensures written == [] && this.incoming == incoming
    {
      written := [];
      this.incoming := incoming;
    }

    /** send_msg: the message is framed and written (framing not modelled). */
    method Send(m: Msg)
      modifies this
      ensures written == old(written) + [m] && incoming == old(incoming)
    {
      written := written + [m];
    }
  }

  /** The name the tool prints for a non-zero status code. */
  datatype StatusName = Busy | Invalid | Stale | Unknown(code: byte)

  /** status_map: the host's names agree with the firmware's status codes. */
  function NameOf(status: byte): (n: StatusName)
    ensures n == Busy <==> RemoteKeyApi.Decode(status) == Some(RemoteKeyApi.Busy)
    ensures n == Invalid <==> RemoteKeyApi.Decode(status) == Some(RemoteKeyApi.Invalid)
    ensures n == Stale <==> RemoteKeyApi.Decode(status) == Some(RemoteKeyApi.Stale)
    ensures n.Unknown? <==> status == 0 || status > 3
    ensures n.Unknown? ==> n.code == status
  {
    if status == 1 then Busy
    else if status == 2 then Invalid
    else if status == 3 then Stale
    else Unknown(status)
  }

  datatype Reason =
    | InvalidKey(key: string)
    | InvalidAction(action: string)
    | NoSessionReply
    | NoButtonAck
    | SeqMismatch(expected: nat, got: nat)
    | Rejected(status: StatusName, depth: byte)

  /** What send_button returns: success with the firmware's queue depth, a
      failure with its reason, or the IndexError raised by reading status
      and depth when the ack is shorter than 8 bytes. */
  datatype ButtonResult = Accepted(depth: byte) | Failed(reason: Reason) | Raised

  /** The reading of a ButtonAck: seq at offset 4 (16-bit little-endian),
      status at 6 and queue depth at 7. A sequence mismatch fails whatever
      the status; status 0 is the only success. */
  function ClassifyAck(buf: seq<byte>, seqNo: int): (r: ButtonResult)
    ensures r == Raised <==> |buf| < 8
    ensures |buf| >= 8 && FromLittleEndian(buf[4..6]) != seqNo % 0x1_0000 ==>
      r == Failed(SeqMismatch(seqNo % 0x1_0000, FromLittleEndian(buf[4..6])))
    ensures r.Accepted? <==>
      |buf| >= 8 && FromLittleEndian(buf[4..6]) == seqNo % 0x1_0000 && buf[6] == 0
    ensures r.Accepted? ==> r.depth == buf[7]
    ensures |buf| >= 8 && FromLittleEndian(buf[4..6]) == seqNo % 0x1_0000 && buf[6] != 0 ==>
      r == Failed(Rejected(NameOf(buf[6]), buf[7]))
    ensures r.Failed? && r.reason.Rejected? ==>
      buf[6] != 0 && r.reason.status == NameOf(buf[6]) && r.reason.depth == buf[7]
  {
    if |buf| < 8 then Raised
    else
      var ackSeq := HalfWordAt(buf, 4);
      var status := buf[6];
      var depth := buf[7];
      if ackSeq != seqNo % 0x1_0000 then Failed(SeqMismatch(seqNo % 0x1_0000, ackSeq))
      else if status == 0 then Accepted(depth)
      else Failed(Rejected(NameOf(status), depth))
  }

  /** The second half of the exchange: the button event goes out and the
      first ack waiting on the port decides the result. */
  method ButtonRound(port: Port, key: byte, action: byte, ts: nat, seqNo: int)
    returns (r: ButtonResult)
    modifies port
    ensures var n := |old(port.written)|;
      var ack := FirstOfType(old(port.incoming), MSG_BUTTON_ACK);
      && |port.written| == n + 1 && port.written[..n] == old(port.written)
      && ButtonLayout(port.written[n], ts, seqNo, key, action, 0)
      && (ack.None? ==> r == Failed(NoButtonAck) && port.incoming == [])
      && (ack.Some? ==>
            port.incoming == old(port.incoming)[ack.value + 1..] &&
            r == ClassifyAck(old(port.incoming)[ack.value].buf[..], seqNo))
  {
    var button := MakeButtonMsg(ts, seqNo, key, action, 0);
    port.Send(button);
    var ack, rest := WaitForMsg(port.incoming, MSG_BUTTON_ACK);
    port.incoming := rest;
    if ack.None? {
      return Failed(NoButtonAck);
    }
    r := ClassifyAck(ack.value.buf[..], seqNo);
  }

  /** The protocol part of send_button once the key code and the action
      are known: session init, its reply, the button event and its ack. */
  method Exchange(port: Port, key: byte, action: byte, ts: nat, seqNo: int)
    returns (r: ButtonResult)
    modifies port
    ensures var n := |old(port.written)|;
      var reply := FirstOfType(old(port.incoming), MSG_SESSION_INFO);
      && |port.written| > n && port.written[..n] == old(port.written)
      && SessionInitLayout(port.written[n], ts)
      && (reply.None? ==>
            r == Failed(NoSessionReply) && |port.written| == n + 1 && port.incoming == [])
      && (reply.Some? ==>
            var later := old(port.incoming)[reply.value + 1..];
            var ack := FirstOfType(later, MSG_BUTTON_ACK);
            && |port.written| == n + 2
            && ButtonLayout(port.written[n + 1], ts, seqNo, key, action, 0)
            && (ack.None? ==> r == Failed(NoButtonAck) && port.incoming == [])
            && (ack.Some? ==>
                  port.incoming == later[ack.value + 1..] &&
                  r == ClassifyAck(later[ack.value].buf[..], seqNo)))
  {
    var init := MakeSessionInit(ts);
    port.Send(init);
    ghost var sent := port.written;
    assert SessionInitLayout(sent[|sent| - 1], ts);
    var reply, rest := WaitForMsg(port.incoming, MSG_SESSION_INFO);
    port.incoming := rest;
    if reply.None? {
      return Failed(NoSessionReply);
    }
    r := ButtonRound(port, key, action, ts, seqNo);
    ghost var n := |sent| - 1;
    assert port.written[..|sent|] == sent;
    assert port.written[..n] == sent[..n] == old(port.written);
    assert port.written[n] == init;
  }

  /** send_button with the clock reading `clockMs` (milliseconds): a key
      name or an action that is not known fails before anything is sent,
      otherwise the exchange runs with the low 32 bits of the clock. */
  method SendButton(port: Port, keyName: string, actionName: string, seqNo: int, clockMs: int)
    returns (r: ButtonResult)
    modifies port
    ensures LookupKey(keyName).None? ==>
      r == Failed(InvalidKey(Upper(keyName))) && unchanged(port)
    ensures LookupKey(keyName).Some? && ParseAction(actionName).None? ==>
      r == Failed(InvalidAction(Lower(actionName))) && unchanged(port)
    ensures LookupKey(keyName).Some? && ParseAction(actionName).Some? ==>
      var ts := clockMs % 0x1_0000_0000;
      var n := |old(port.written)|;
      var reply := FirstOfType(old(port.incoming), MSG_SESSION_INFO);
      && |port.written| > n && port.written[..n] == old(port.written)
      && SessionInitLayout(port.written[n], ts)
      && (reply.None? ==>
            r == Failed(NoSessionReply) && |port.written| == n + 1 && port.incoming == [])
      && (reply.Some? ==>
            var later := old(port.incoming)[reply.value + 1..];
            var ack := FirstOfType(later, MSG_BUTTON_ACK);
            && |port.written| == n + 2
            && ButtonLayout(port.written[n + 1], ts, seqNo,
                            LookupKey(keyName).value, ParseAction(actionName).value, 0)
            && (ack.None? ==> r == Failed(NoButtonAck) && port.incoming == [])
            && (ack.Some? ==>
                  port.incoming == later[ack.value + 1..] &&
                  r == ClassifyAck(later[ack.value].buf[..], seqNo)))
    ensures r.Accepted? ==> |port.written| == |old(port.written)| + 2
  {
    var key := LookupKey(keyName);
    if key.None? {
      return Failed(InvalidKey(Upper(keyName)));
    }
    var action := ParseAction(actionName);
    if action.None? {
      return Failed(InvalidAction(Lower(actionName)));
    }
    r := Exchange(port, key.value, action.value, clockMs % 0x1_0000_0000, seqNo);
  }
}
