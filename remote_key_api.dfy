/**
 * The remote-key interface shared by the firmware and the host tool: the
 * acknowledgement statuses an enqueue can answer with, and the two actions.
 */
module RemoteKeyApi {
  import opened Bytes

  /** REMOTE_KEY_ACK_STATUS_e. */
  datatype AckStatus = Accepted | Busy | Invalid | Stale {

    /** The enumerator's value; distinct statuses have distinct codes. */
    function Code(): (c: byte)
      ensures c < 4
      ensures Decode(c) == Some(this)
    {
      match this
      case Accepted => 0
      case Busy => 1
      case Invalid => 2
      case Stale => 3
    }
  }

  /** The status a code on the wire stands for, if any. */
  function Decode(c: byte): (s: Option<AckStatus>)
    ensures s.Some? <==> c < 4
  {
    if c == 0 then Some(Accepted)
    else if c == 1 then Some(Busy)
    else if c == 2 then Some(Invalid)
    else if c == 3 then Some(Stale)
    else None
  }

  /** REMOTE_KEY_ACTION_e. */
  const ACTION_PRESS: byte := 0
  const ACTION_RELEASE: byte := 1
}
