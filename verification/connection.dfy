/**
 * RFCOMM connections on Linux (btmain.c): finding a service's channel,
 * connecting, binding to the first free channel, accepting, the byte-stream
 * calls and closing.
 */
module Connection {
  import opened BtTypes
  import BtUtil
  import opened Bluez

  /** `bt_socket_t` on Linux: a descriptor, `INVALID_SOCKET` when none. */
  class Socket {
    var s: int

    constructor (s: int)
      ensures this.s == s
    {
      this.s := s;
    }
  }

  // ---------------------------------------------------------------------
  // Service lookup and connect
  // ---------------------------------------------------------------------

  /** The port of the last record that has an access-protocol list, if any. */
  function LastPort(rs: seq<SdpRecord>): Option<int>
  {
    if rs == [] then None
    else if rs[|rs| - 1].accessPort.Some? then rs[|rs| - 1].accessPort
    else LastPort(rs[..|rs| - 1])
  }

  /**
   * `LastPort` finds no port exactly when no record has one, and otherwise
   * the port of a record after which no record has one.
   */
  lemma {:induction false} LastPortMeaning(rs: seq<SdpRecord>)
    ensures LastPort(rs).None? <==> forall i :: 0 <= i < |rs| ==> rs[i].accessPort.None?
    ensures LastPort(rs).Some? ==>
      exists i :: 0 <= i < |rs| && rs[i].accessPort == LastPort(rs)
                  && forall j :: i < j < |rs| ==> rs[j].accessPort.None?
    decreases |rs|
  {
    if rs == [] {
    } else if rs[|rs| - 1].accessPort.Some? {
      assert rs[|rs| - 1].accessPort == LastPort(rs);
    } else {
      var init := rs[..|rs| - 1];
      LastPortMeaning(init);
      assert forall i :: 0 <= i < |init| ==> init[i] == rs[i];
      if LastPort(init).Some? {
        var i :| 0 <= i < |init| && init[i].accessPort == LastPort(init)
                 && forall j :: i < j < |init| ==> init[j].accessPort.None?;
        assert rs[i].accessPort == LastPort(rs);
      }
    }
  }

  /** What `bt_find_service_channel` returns: -2 for no SDP server, -1 for no port, else the port. */
  function LookupResult(server: SdpServer, uuid: BtUtil.UuidT): int
  {
    if server.Unreachable? then -2
    else match LastPort(Responses(server, uuid))
      case None => -1
      case Some(p) => p
  }

  /**
   * `bt_find_service_channel`: walks the records of the search and keeps the
   * port of the last one with access protocols; -1 when none has one, -2 when
   * the device's SDP server cannot be reached.
   */
  method FindServiceChannel(device: BtUtil.BdAddr, uuid: BtUtil.UuidT, server: SdpServer) returns (channel: int)
    ensures channel == LookupResult(server, uuid)
    ensures server.Unreachable? ==> channel == -2
    ensures server.Reachable? && channel == -2 ==>
      exists i :: 0 <= i < |Responses(server, uuid)| && Responses(server, uuid)[i].accessPort == Some(-2)
    ensures server.Reachable? && (forall i :: 0 <= i < |Responses(server, uuid)| ==> Responses(server, uuid)[i].accessPort.None?)
            ==> channel == -1
  {
    if server.Unreachable? {
      return -2;
    }
    var rs := Responses(server, uuid);
    channel := -1;
    var k := 0;
    while k < |rs|
      modifies {}
      invariant 0 <= k <= |rs|
      invariant channel == (match LastPort(rs[..k]) case None => -1 case Some(p) => p)
    {
      assert rs[..k + 1][..k] == rs[..k];
      if rs[k].accessPort.Some? {
        channel := rs[k].accessPort.value;
      }
      k := k + 1;
    }
    assert rs[..k] == rs;
    LastPortMeaning(rs);
  }

  /**
   * `bt_connect_to_port`: invalidates `sock`, allocates a socket and
   * connects it to the channel; on every failure `sock` stays invalid, and a
   * socket that fails to connect is closed (`closed`).
   */
  method ConnectToPort(address: Addr, port: Byte, sock: Socket, radio: Radio) returns (r: BtErr, closed: Option<int>)
    modifies sock
    ensures radio.fd == INVALID_SOCKET ==> r == ErrAllocatingSocket && closed == None
    ensures radio.fd != INVALID_SOCKET && (address, port) !in radio.listening ==>
      r == ErrConnectionFailure && closed == Some(radio.fd)
    ensures radio.fd != INVALID_SOCKET && (address, port) in radio.listening ==> r == Success && closed == None
    ensures sock.s == if r == Success then radio.fd else INVALID_SOCKET
  {
    sock.s := INVALID_SOCKET;
    closed := None;
    var s := radio.fd;
    if s == INVALID_SOCKET {
      return ErrAllocatingSocket, None;
    }
    if (address, port) !in radio.listening {
      return ErrConnectionFailure, Some(s);
    }
    sock.s := s;
    return Success, None;
  }

  /**
   * `bt_connect_to_service`: looks up the service's channel; -2 means the
   * device was not found and -1 that the service was not, and any other
   * channel, truncated to a byte, is connected to with `ConnectToPort`.
   */
  method ConnectToService(address: Addr, service: Uuid, sock: Socket, server: SdpServer, radio: Radio)
    returns (r: BtErr, closed: Option<int>)
    modifies sock
    ensures LookupResult(server, BtUtil.UuidToUuidT(service)) == -2 ==> r == ErrDeviceNotFound && unchanged(sock) && closed == None
    ensures LookupResult(server, BtUtil.UuidToUuidT(service)) == -1 ==> r == ErrServiceNotFound && unchanged(sock) && closed == None
    ensures server.Unreachable? ==> r == ErrDeviceNotFound
    ensures LookupResult(server, BtUtil.UuidToUuidT(service)) !in {-1, -2} ==>
      var port := LookupResult(server, BtUtil.UuidToUuidT(service)) % 256;
      (radio.fd == INVALID_SOCKET ==> r == ErrAllocatingSocket && closed == None)
      && (radio.fd != INVALID_SOCKET && (address, port) !in radio.listening ==>
            r == ErrConnectionFailure && closed == Some(radio.fd))
      && (radio.fd != INVALID_SOCKET && (address, port) in radio.listening ==> r == Success && closed == None)
      && sock.s == (if r == Success then radio.fd else INVALID_SOCKET)
  {
    var bdaddr := BtUtil.AddrToBdaddr(address);
    var uuid := BtUtil.UuidToUuidT(service);
    var channel := FindServiceChannel(bdaddr, uuid, server);
    if channel == -2 {
      return ErrDeviceNotFound, None;
    } else if channel == -1 {
      return ErrServiceNotFound, None;
    }
    r, closed := ConnectToPort(address, channel % 256, sock, radio);
  }

  // ---------------------------------------------------------------------
  // Binding and accepting
  // ---------------------------------------------------------------------

  /** The highest RFCOMM channel `dynamic_bind_rc` tries. */
  const MAX_CHANNEL: int := 31

  /** The first channel from `from` to 31 on which `bind` succeeds. */
  function FirstFree(bindable: set<int>, from: int): (c: Option<int>)
    requires 1 <= from
    decreases MAX_CHANNEL + 1 - from
    ensures c.Some? ==> from <= c.value <= MAX_CHANNEL && c.value in bindable
                        && forall k :: from <= k < c.value ==> k !in bindable
    ensures c.None? ==> forall k :: from <= k <= MAX_CHANNEL ==> k !in bindable
  {
    if from > MAX_CHANNEL then None
    else if from in bindable then Some(from)
    else FirstFree(bindable, from + 1)
  }

  /**
   * `dynamic_bind_rc` as written: tries channels 1, 2, ... 31 until `bind`
   * succeeds, but the check after the loop turns a success on channel 30
   * into a failure. On success the channel is written to `port` when it is
   * not NULL.
   */
  method DynamicBindRc(sock: int, bindable: set<int>, port: Ref?<int>) returns (err: int)
    modifies port
    ensures err == 0 <==> FirstFree(bindable, 1).Some? && FirstFree(bindable, 1).value != 30
    ensures err != 0 ==> err == -1
    ensures err == 0 && port != null ==> port.value == FirstFree(bindable, 1).value
    ensures err != 0 && port != null ==> unchanged(port)
  {
    err := -1;
    var found := 0;
    var check := 1;
    while check < 32 && err != 0
      modifies {}
      invariant 1 <= check <= 32
      invariant err == 0 || err == -1
      invariant err != 0 ==> forall k :: 1 <= k < check ==> k !in bindable
      invariant err == 0 ==> found == check - 1 && FirstFree(bindable, 1) == Some(found)
    {
      err := if check in bindable then 0 else -1;
      if err == 0 {
        found := check;
        assert FirstFree(bindable, check) == Some(check);
        FirstFreeSkips(bindable, 1, check);
      }
      check := check + 1;
    }
    if err != 0 {
      FirstFreeNone(bindable, 1, check);
    }
    if check == 31 {
      err := -1;
    }
    if err == 0 && port != null {
      port.value := found;
    }
  }

  /**
   * `dynamic_bind_rc` without the check on channel 30: succeeds exactly when
   * some channel from 1 to 31 binds, and reports the first such channel.
   */
  method DynamicBindFirstFit(sock: int, bindable: set<int>, port: Ref?<int>) returns (err: int)
    modifies port
    ensures err == 0 <==> exists c :: 1 <= c <= MAX_CHANNEL && c in bindable
    ensures err != 0 ==> err == -1
    ensures err == 0 && port != null ==>
      1 <= port.value <= MAX_CHANNEL && port.value in bindable
      && forall k :: 1 <= k < port.value ==> k !in bindable
    ensures err != 0 && port != null ==> unchanged(port)
  {
    err := -1;
    var found := 0;
    var check := 1;
    while check < 32 && err != 0
      modifies {}
      invariant 1 <= check <= 32
      invariant err == 0 || err == -1
      invariant err != 0 ==> forall k :: 1 <= k < check ==> k !in bindable
      invariant err == 0 ==> found == check - 1 && 1 <= found <= MAX_CHANNEL && found in bindable
                             && forall k :: 1 <= k < found ==> k !in bindable
    {
      err := if check in bindable then 0 else -1;
      if err == 0 {
        found := check;
      }
      check := check + 1;
    }
    if err == 0 && port != null {
      port.value := found;
    }
  }

  /** When no channel below `c` binds, the first free channel from `from` is the first from `c`. */
  lemma {:induction false} FirstFreeSkips(bindable: set<int>, from: int, c: int)
    requires 1 <= from <= c
    requires forall k :: from <= k < c ==> k !in bindable
    ensures FirstFree(bindable, from) == FirstFree(bindable, c)
    decreases c - from
  {
    if from < c {
      FirstFreeSkips(bindable, from + 1, c);
    }
  }

  lemma FirstFreeNone(bindable: set<int>, from: int, c: int)
    requires 1 <= from && c == MAX_CHANNEL + 1
    requires forall k :: from <= k < c ==> k !in bindable
    ensures FirstFree(bindable, from).None?
  {
  }

  /** The bind test that accepts only channel 15 gets channel 15 back. */
  lemma BindOnly15(bindable: set<int>)
    requires bindable == {15}
    ensures FirstFree(bindable, 1) == Some(15)
  {
    assert 15 in bindable;
  }

  /**
   * A backend on which only channel 30 is free: `dynamic_bind_rc` binds it
   * and yet reports failure, while the first-fit probe reports channel 30.
   */
  method BindOnlyChannel30() returns (asWritten: int, corrected: int, channel: int)
    ensures asWritten == -1
    ensures corrected == 0 && channel == 30
  {
    assert FirstFree({30}, 1) == Some(30) by {
      FirstFreeSkips({30}, 1, 30);
    }
    var p := new Ref(0);
    asWritten := DynamicBindRc(0, {30}, p);
    var q := new Ref(0);
    corrected := DynamicBindFirstFit(0, {30}, q);
    channel := q.value;
  }

  /**
   * `bt_accept_with_timeout`: a ready listener (`select` above 0) takes the
   * descriptor `accept` returns, which is an error when negative; `select`
   * returning 0 is a timeout and a negative result an error, both leaving
   * `sock` alone.
   */
  method AcceptWithTimeout(listener: Socket, sock: Socket, selected: int, accepted: int) returns (r: BtErr)
    modifies sock
    ensures selected > 0 ==> sock.s == accepted && (r == Success <==> accepted >= 0) && (r != Success ==> r == ErrUnknown)
    ensures selected == 0 ==> r == ErrTimeout && unchanged(sock)
    ensures selected < 0 ==> r == ErrUnknown && unchanged(sock)
  {
    if selected > 0 {
      r := Success;
    } else if selected == 0 {
      r := ErrTimeout;
    } else {
      r := ErrUnknown;
    }
    if r == Success {
      sock.s := accepted;
      if sock.s < 0 || sock.s == INVALID_SOCKET {
        r := ErrUnknown;
      }
    }
  }

  /**
   * `bt_disconnect`: closes a valid socket once and marks it invalid; a NULL
   * or already invalid socket is left alone. `closed` is the descriptor closed.
   */
  method Disconnect(socket: Socket?) returns (closed: Option<int>)
    modifies socket
    ensures socket == null ==> closed == None
    ensures socket != null ==> socket.s == INVALID_SOCKET
    ensures socket != null ==> closed == if old(socket.s) == INVALID_SOCKET then None else Some(old(socket.s))
  {
    if socket == null {
      return None;
    }
    if socket.s == INVALID_SOCKET {
      return None;
    }
    closed := Some(socket.s);
    socket.s := INVALID_SOCKET;
  }

  /** Disconnecting twice closes the descriptor once. */
  method DisconnectTwice(socket: Socket) returns (first: Option<int>, second: Option<int>)
    modifies socket
    ensures first.Some? <==> old(socket.s) != INVALID_SOCKET
    ensures second == None && socket.s == INVALID_SOCKET
  {
    first := Disconnect(socket);
    second := Disconnect(socket);
  }

  // ---------------------------------------------------------------------
  // Byte streams
  // ---------------------------------------------------------------------

  /**
   * `bt_recv` on the pointer `buffer + start`: `*numBytes` is set to 0 and
   * one `recv` of `*numBytes` bytes is made. A positive count is a success
   * and becomes `*numBytes`, with that many of the pending bytes copied in
   * order; a 0 return (the stream ended, or nothing was asked for) is
   * `SocketClosed`; an error is `SocketClosed` for ECONNRESET and
   * `ErrUnknown` otherwise.
   */
  method Recv(socket: Socket?, peer: Peer, buffer: array?<Byte>, start: nat, numBytes: Ref<nat>) returns (r: BtErr)
    requires buffer != null ==> start + numBytes.value <= buffer.Length
    modifies peer`incoming, buffer, numBytes
    ensures socket == null || buffer == null ==>
      r == ErrBadParam && unchanged(numBytes) && peer.incoming == old(peer.incoming) && (buffer != null ==> unchanged(buffer))
    ensures socket != null && buffer != null ==> (r == Success <==> old(numBytes.value) > 0 && old(peer.incoming) != [])
    ensures r == Success ==>
      buffer != null && numBytes.value == Min(old(numBytes.value), |old(peer.incoming)[0]|)
      && buffer[start..start + numBytes.value] == Flatten(old(peer.incoming))[..numBytes.value]
      && Flatten(peer.incoming) == Flatten(old(peer.incoming))[numBytes.value..]
      && buffer[..start] == old(buffer[..start])
      && buffer[start + numBytes.value..] == old(buffer[..])[start + numBytes.value..]
    ensures socket != null && buffer != null && r != Success ==>
      numBytes.value == 0 && peer.incoming == old(peer.incoming) && unchanged(buffer)
      && r == if old(peer.incoming) == [] then HangupError(peer.recvEnd) else SocketClosed
  {
    if socket == null || buffer == null {
      return ErrBadParam;
    }
    var want := numBytes.value;
    numBytes.value := 0;
    var n, errno := KernelRecv(peer, buffer, start, want);
    if n > 0 {
      numBytes.value := n;
      r := Success;
    } else {
      r := StreamError(n, errno);
    }
  }

  /** The error `bt_recv` and `bt_send` report for a call that moved no bytes. */
  function StreamError(n: int, errno: int): (e: BtErr)
    requires n <= 0
    ensures e == if n == 0 then HangupError(Closed) else HangupError(Fails(errno))
  {
    if n == 0 then SocketClosed
    else if errno == ECONNRESET then SocketClosed
    else ErrUnknown
  }

  /**
   * `bt_read`: calls `bt_recv` until `*numBytes` bytes have arrived. It
   * succeeds exactly when the stream carries that many bytes before its end,
   * and then holds the first `*numBytes` of them; otherwise it holds every
   * byte the stream carried, reports their number and the stream's end as
   * `bt_recv` maps it.
   */
  method Read(socket: Socket?, peer: Peer, buffer: array?<Byte>, numBytes: Ref<nat>) returns (r: BtErr)
    requires buffer != null ==> numBytes.value <= buffer.Length
    modifies peer`incoming, buffer, numBytes
    ensures socket == null || buffer == null ==>
      r == ErrBadParam && unchanged(numBytes) && peer.incoming == old(peer.incoming) && (buffer != null ==> unchanged(buffer))
    ensures socket != null && buffer != null ==> (r == Success <==> old(numBytes.value) <= |Flatten(old(peer.incoming))|)
    ensures r == Success ==>
      buffer != null && numBytes.value == old(numBytes.value)
      && buffer[..numBytes.value] == Flatten(old(peer.incoming))[..numBytes.value]
      && Flatten(peer.incoming) == Flatten(old(peer.incoming))[numBytes.value..]
    ensures socket != null && buffer != null && r != Success ==>
      numBytes.value == |Flatten(old(peer.incoming))|
      && buffer[..numBytes.value] == Flatten(old(peer.incoming))
      && peer.incoming == [] && r == HangupError(peer.recvEnd)
    ensures buffer != null ==> buffer[numBytes.value..] == old(buffer[..])[numBytes.value..]
  {
    if socket == null || buffer == null {
      return ErrBadParam;
    }
    ghost var stream := Flatten(peer.incoming);
    var remaining := numBytes.value;
    var received := 0;
    var n := new Ref<nat>(0);
    while remaining > 0
      invariant 0 <= received && 0 <= remaining && received + remaining == old(numBytes.value) <= buffer.Length
      invariant received <= |stream|
      invariant buffer[..received] == stream[..received]
      invariant buffer[received..] == old(buffer[..])[received..]
      invariant Flatten(peer.incoming) == stream[received..]
      invariant numBytes.value == old(numBytes.value)
      invariant fresh(n)
      decreases remaining
    {
      var e, got := RecvMore(socket, peer, buffer, received, remaining, n, stream);
      if e != Success {
        numBytes.value := received;
        return e;
      }
      received := received + got;
      remaining := remaining - got;
    }
    numBytes.value := received;
    return Success;
  }

  /**
   * One `bt_recv` of `bt_read`'s loop, seen against the whole `stream`:
   * it extends the prefix already in `buffer`, or finds the stream used up.
   */
  method RecvMore(socket: Socket, peer: Peer, buffer: array<Byte>, received: nat, remaining: nat,
                  n: Ref<nat>, ghost stream: seq<Byte>) returns (e: BtErr, got: nat)
    requires 0 < remaining && received + remaining <= buffer.Length
    requires received <= |stream| && buffer[..received] == stream[..received]
    requires Flatten(peer.incoming) == stream[received..]
    modifies peer`incoming, buffer, n
    ensures e == Success ==>
      0 < got <= remaining && received + got <= |stream|
      && buffer[..received + got] == stream[..received + got]
      && Flatten(peer.incoming) == stream[received + got..]
      && buffer[received + got..] == old(buffer[..])[received + got..]
    ensures e != Success ==>
      received == |stream| && peer.incoming == [] && unchanged(buffer) && e == HangupError(peer.recvEnd)
  {
    n.value := remaining;
    ghost var pending := Flatten(peer.incoming);
    e := Recv(socket, peer, buffer, received, n);
    if e != Success {
      got := 0;
      return;
    }
    got := n.value;
    var k := received + got;
    assert buffer[..received] == stream[..received];
    assert buffer[received..k] == stream[received..k] by {
      assert buffer[received..k] == pending[..got];
    }
    assert buffer[..k] == buffer[..received] + buffer[received..k];
    SliceJoin(stream, received, k);
  }

  /** A prefix is the shorter prefix followed by the slice between them. */
  lemma SliceJoin(s: seq<Byte>, i: nat, j: nat)
    requires i <= j <= |s|
    ensures s[..j] == s[..i] + s[i..j]
  {
  }

  /**
   * `bt_send` from the pointer `buffer + start`: `*numBytes` is set to 0 and
   * one `send` of `*numBytes` bytes is made. A positive count is a success,
   * becomes `*numBytes` and that many bytes are delivered in order; a 0
   * return is `SocketClosed`; an error is `SocketClosed` for ECONNRESET and
   * `ErrUnknown` otherwise.
   */
  method Send(socket: Socket?, peer: Peer, buffer: array?<Byte>, start: nat, numBytes: Ref<nat>) returns (r: BtErr)
    requires buffer != null ==> start + numBytes.value <= buffer.Length
    modifies peer`window, peer`delivered, numBytes
    ensures socket == null || buffer == null ==> r == ErrBadParam && unchanged(numBytes) && unchanged(peer)
    ensures socket != null && buffer != null ==>
      (r == Success <==> old(numBytes.value) > 0 && (old(peer.window) != [] || peer.sendEnd.None?))
      && (r == Success ==>
            0 < numBytes.value <= old(numBytes.value)
            && peer.delivered == old(peer.delivered) + buffer[start..start + numBytes.value]
            && (old(peer.window) != [] ==> Sum(peer.window) + numBytes.value == Sum(old(peer.window)))
            && (old(peer.window) == [] ==> numBytes.value == old(numBytes.value) && peer.window == []))
      && (r != Success ==>
            numBytes.value == 0 && unchanged(peer)
            && r == if old(peer.window) == [] && peer.sendEnd.Some? then HangupError(peer.sendEnd.value) else SocketClosed)
  {
    if socket == null || buffer == null {
      return ErrBadParam;
    }
    var want := numBytes.value;
    numBytes.value := 0;
    var n, errno := KernelSend(peer, buffer, start, want);
    if n > 0 {
      numBytes.value := n;
      r := Success;
    } else {
      r := StreamError(n, errno);
    }
  }

  function Max0(x: int): nat
  {
    if x > 0 then x else 0
  }

  /**
   * `bt_write`: calls `bt_send` until all `numBytes` bytes are out, stopping
   * at the first failing send. It succeeds exactly when the peer accepts that
   * many bytes before its end, and then all of them are delivered in order;
   * otherwise the bytes up to the end are delivered and the end is reported
   * as `bt_send` maps it.
   */
  method Write(socket: Socket?, peer: Peer, buffer: array?<Byte>, numBytes: nat) returns (r: BtErr)
    requires buffer != null ==> numBytes <= buffer.Length
    modifies peer`window, peer`delivered
    ensures socket == null || buffer == null ==> r == ErrBadParam && unchanged(peer)
    ensures socket != null && buffer != null ==> (r == Success <==> peer.sendEnd.None? || numBytes <= Sum(old(peer.window)))
    ensures r == Success ==>
      buffer != null && peer.delivered == old(peer.delivered) + buffer[..numBytes]
      && Sum(peer.window) == Max0(Sum(old(peer.window)) - numBytes)
    ensures socket != null && buffer != null && r != Success ==>
      Sum(old(peer.window)) < numBytes && peer.sendEnd.Some?
      && peer.delivered == old(peer.delivered) + buffer[..Sum(old(peer.window))]
      && peer.window == [] && r == HangupError(peer.sendEnd.value)
  {
    if socket == null || buffer == null {
      return ErrBadParam;
    }
    ghost var cap := Sum(peer.window);
    var remaining := numBytes;
    var sent := 0;
    var n := new Ref<nat>(0);
    while remaining > 0
      invariant 0 <= sent && 0 <= remaining && sent + remaining == numBytes
      invariant peer.delivered == old(peer.delivered) + buffer[..sent]
      invariant Sum(peer.window) == Max0(cap - sent)
      invariant peer.sendEnd.Some? ==> sent <= cap
      invariant fresh(n)
      decreases remaining
    {
      n.value := remaining;
      var e := Send(socket, peer, buffer, sent, n);
      if e != Success {
        assert peer.window == [] && peer.sendEnd.Some? && sent == cap;
        return e;
      }
      var got := n.value;
      var k := sent + got;
      assert buffer[..k] == buffer[..sent] + buffer[sent..k];
      sent := k;
      remaining := remaining - got;
    }
    return Success;
  }
}
