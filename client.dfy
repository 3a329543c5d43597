/**
  The client's request/response cycle: the version check, `get` on the
  `*msg` it allocates, and the shaping of the result by `CustomClient` and
  `ExtClient`. The network layer and the clock are parameters: a `Network`
  value says what each of them does during one call.
 */
module NtpClient {
  import opened Results
  import opened Header
  import opened Wire
  import opened GoTime
  import opened Timestamp
  import opened Offset

  /** The caller's parameters. The timeout is carried but never read: the deadline is fixed at 5 s. */
  datatype Request = Request(host: string, port: nat, version: nat, timeout: Duration)

  /** What `ExtClient` returns. `statum` keeps the source's spelling of "stratum". */
  datatype Response = Response(local: Instant, remote: Instant, diff: Duration, statum: int, err: Option<Error>)

  /** The operations the client asks of the network layer, in the order it asks them. */
  datatype Call = Resolve | Dial | SetDeadline | Write(packet: Msg) | Read | Close

  /**
    What the network layer and the clock do during one call: the outcome of
    resolving the address, of dialing and of the write; the bytes the
    connection then delivers and the error it reports after them; the
    `time.Now()` taken just before the write and the one taken in `diff`.
   */
  datatype Network = Network(
    resolveErr: Option<Error>,
    dialErr: Option<Error>,
    writeErr: Option<Error>,
    inbound: seq<bv8>,
    readEnd: Error,
    sentAt: Instant,
    doneAt: Instant)

  predicate ValidVersion(version: nat)
  {
    version == 4 || version == 3
  }

  /**
    None of the network layer's errors is the client's own "invalid version"
    error, as in Go, where that error is a value of its own.
   */
  predicate NetErrorsDistinct(net: Network)
  {
    && net.resolveErr != Some(InvalidVersion)
    && net.dialErr != Some(InvalidVersion)
    && net.writeErr != Some(InvalidVersion)
    && net.readEnd != InvalidVersion
  }

  /** `int(b)` for a byte. */
  function ByteValue(b: bv8): (n: int)
    ensures 0 <= n <= 255
  {
    b as int
  }

  /** The packet `get` writes: `m` with its first byte prepared for a client of `version`. */
  function ClientRequest(m: Msg, version: nat): (r: Msg)
    ensures version < 8 ==> ModeBits(r.liVnMode) == Client && VersionBits(r.liVnMode) == version as bv8
    ensures version < 8 ==> LeapBits(r.liVnMode) == LeapBits(m.liVnMode)
    ensures r.(liVnMode := m.liVnMode) == m
  {
    m.(liVnMode := ClientHeader(m.liVnMode, version))
  }

  /** Preparing a request twice is the same as preparing it once. */
  lemma ClientRequestIdempotent(m: Msg, version: nat)
    ensures ClientRequest(ClientRequest(m, version), version) == ClientRequest(m, version)
  {
    ClientHeaderIdempotent(m.liVnMode, version);
  }

  /** The datagram a fresh client sends: the prepared first byte, then 47 zero bytes. */
  lemma RequestDatagram(version: nat)
    requires ValidVersion(version)
    ensures var bs := Encode(ClientRequest(Zero, version));
      && bs[0] == (if version == 3 then 0x1B else 0x23)
      && forall i :: 1 <= i < WireSize ==> bs[i] == 0
  {
    ClientHeaderOfZero();
    EncodeFirstByteOnly(ClientRequest(Zero, version));
  }

  /**
    The reply a call ends with, or the first error on its way: the version
    check, then resolution, dialing, the write and the read of the network
    layer, each error passed on unchanged.
   */
  function Outcome(r: Request, net: Network): (o: Result<Msg>)
    ensures !ValidVersion(r.version) ==> o == Err(InvalidVersion)
    ensures ValidVersion(r.version) && net.resolveErr.Some? ==> o == Err(net.resolveErr.value)
    ensures ValidVersion(r.version) && net.resolveErr.None? && net.dialErr.Some? ==> o == Err(net.dialErr.value)
    ensures ValidVersion(r.version) && net.resolveErr.None? && net.dialErr.None? && net.writeErr.Some? ==>
              o == Err(net.writeErr.value)
    ensures ValidVersion(r.version) && net.resolveErr.None? && net.dialErr.None? && net.writeErr.None?
            && |net.inbound| < WireSize ==>
              o == Err(if 0 < |net.inbound| && net.readEnd == Eof then UnexpectedEof else net.readEnd)
    ensures NetErrorsDistinct(net) ==> (o == Err(InvalidVersion) <==> !ValidVersion(r.version))
    ensures o.Ok? <==> ValidVersion(r.version) && net.resolveErr.None? && net.dialErr.None?
                       && net.writeErr.None? && WireSize <= |net.inbound|
    ensures o.Ok? ==> Encode(o.value) == net.inbound[..WireSize]
  {
    if !ValidVersion(r.version) then Err(InvalidVersion)
    else if net.resolveErr.Some? then Err(net.resolveErr.value)
    else if net.dialErr.Some? then Err(net.dialErr.value)
    else if net.writeErr.Some? then Err(net.writeErr.value)
    else ReadMsg(net.inbound, net.readEnd)
  }

  /** The `*msg` that `get` fills in: first the request it writes, then the reply it reads. */
  class Packet {
    var msg: Msg

    /** `&msg{}`. */
    constructor ()
      ensures msg == Zero
    {
      msg := Zero;
    }

    /**
      `get(m, con, version)`: sets the mode, then the version, of the first
      byte in place; notes the local send time; writes the packet; and, when
      the write succeeds, reads the reply over it. A failed read leaves the
      request in place.
     */
    method Get(version: nat, net: Network) returns (original: Instant, err: Option<Error>, calls: seq<Call>)
      modifies this
      ensures original == net.sentAt
      ensures calls == Exchanged(old(msg), version, net)
      ensures net.writeErr.Some? ==> err == net.writeErr && msg == ClientRequest(old(msg), version)
      ensures net.writeErr.None? ==>
        match ReadMsg(net.inbound, net.readEnd)
        case Ok(reply) => err == None && msg == reply
        case Err(e) => err == Some(e) && msg == ClientRequest(old(msg), version)
    {
      msg := msg.(liVnMode := WithMode(msg.liVnMode, Client));
      msg := msg.(liVnMode := WithVersion(msg.liVnMode, version));
      original := net.sentAt;
      calls := [Write(msg)] + (if net.writeErr.None? then [Read] else []);
      if net.writeErr.Some? {
        err := net.writeErr;
        return;
      }
      match ReadMsg(net.inbound, net.readEnd)
      case Ok(reply) =>
        msg := reply;
        err := None;
      case Err(e) =>
        err := Some(e);
    }
  }

  /** The calls `get` makes: the write of the prepared `m`, then the read when the write succeeded. */
  function Exchanged(m: Msg, version: nat, net: Network): seq<Call>
  {
    [Write(ClientRequest(m, version))] + (if net.writeErr.None? then [Read] else [])
  }

  /**
    The calls of one exchange on an open connection: the deadline, the write,
    the read when the write succeeded, and the deferred close.
   */
  predicate ExchangeCalls(calls: seq<Call>, version: nat, net: Network)
  {
    calls == [Resolve, Dial, SetDeadline] + Exchanged(Zero, version, net) + [Close]
  }

  /**
    `CustomClient(r)`: the server's receive timestamp as an instant, or an
    error and 1970-01-01. A version other than 3 or 4 is refused before any
    network call; once the connection is open it is closed exactly once, last.
   */
  method CustomClient(r: Request, net: Network) returns (t: Instant, err: Option<Error>, calls: seq<Call>)
    ensures match Outcome(r, net)
      case Ok(reply) => err == None && t == Utc(reply.receiveTime)
      case Err(e) => err == Some(e) && t == ErrTime
    ensures !ValidVersion(r.version) ==> calls == []
    ensures ValidVersion(r.version) && net.resolveErr.Some? ==> calls == [Resolve]
    ensures ValidVersion(r.version) && net.resolveErr.None? && net.dialErr.Some? ==> calls == [Resolve, Dial]
    ensures ValidVersion(r.version) && net.resolveErr.None? && net.dialErr.None? ==> ExchangeCalls(calls, r.version, net)
  {
    if r.version != 4 && r.version != 3 {
      return ErrTime, Some(InvalidVersion), [];
    }
    if net.resolveErr.Some? {
      return ErrTime, net.resolveErr, [Resolve];
    }
    if net.dialErr.Some? {
      return ErrTime, net.dialErr, [Resolve, Dial];
    }
    var data := new Packet();
    var _, e, exchanged := data.Get(r.version, net);
    calls := [Resolve, Dial, SetDeadline] + exchanged + [Close];
    if e.Some? {
      return ErrTime, e, calls;
    }
    t := Utc(data.msg.receiveTime);
    err := None;
  }

  /**
    `ExtClient(r)`: on success the local send time, the server's receive
    time, the offset and the stratum; on failure only the error, every other
    field at its zero value.
   */
  method ExtClient(r: Request, net: Network) returns (resp: Response, calls: seq<Call>)
    ensures match Outcome(r, net)
      case Ok(reply) =>
        resp == Response(net.sentAt, Utc(reply.receiveTime), Diff(reply, net.sentAt, net.doneAt), ByteValue(reply.stratum), None)
      case Err(e) => resp == Response(ZeroTime, ZeroTime, 0, 0, Some(e))
    ensures 0 <= resp.statum <= 255
    ensures !ValidVersion(r.version) ==> calls == []
    ensures ValidVersion(r.version) && net.resolveErr.Some? ==> calls == [Resolve]
    ensures ValidVersion(r.version) && net.resolveErr.None? && net.dialErr.Some? ==> calls == [Resolve, Dial]
    ensures ValidVersion(r.version) && net.resolveErr.None? && net.dialErr.None? ==> ExchangeCalls(calls, r.version, net)
  {
    var failed := Response(ZeroTime, ZeroTime, 0, 0, None);
    if r.version != 4 && r.version != 3 {
      return failed.(err := Some(InvalidVersion)), [];
    }
    if net.resolveErr.Some? {
      return failed.(err := net.resolveErr), [Resolve];
    }
    if net.dialErr.Some? {
      return failed.(err := net.dialErr), [Resolve, Dial];
    }
    var data := new Packet();
    var original, e, exchanged := data.Get(r.version, net);
    calls := [Resolve, Dial, SetDeadline] + exchanged + [Close];
    if e.Some? {
      return failed.(err := e), calls;
    }
    resp := Response(original, Utc(data.msg.receiveTime), Diff(data.msg, original, net.doneAt), ByteValue(data.msg.stratum), None);
  }
}
