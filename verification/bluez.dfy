/**
 * What BlueZ and the Linux kernel answer to the calls the session and
 * stream code of btmain.c makes. Every answer is data handed in by the
 * caller, so each operation of the model is specified for every answer the
 * backend may give.
 */
module Bluez {
  import opened BtTypes
  import BtUtil

  /** `INVALID_SOCKET` on Linux: the descriptor of no socket. */
  const INVALID_SOCKET: int := -1

  /** `ECONNRESET` on Linux. */
  const ECONNRESET: int := 104

  /** The three class-of-device bytes of an `inquiry_info`, most significant first. */
  type DevClass = s: seq<bv8> | |s| == 3 witness [0, 0, 0]

  /**
   * One answer of `hci_inquiry`, together with what `hci_read_remote_name`
   * reports for that device (`None` when it fails).
   */
  datatype InquiryInfo = InquiryInfo(bdaddr: Addr, devClass: DevClass, remoteName: Option<string>)

  /** A `uuid_t` as BlueZ builds it: the value fits its type tag. */
  type SdpUuid = t: BtUtil.UuidT | BtUtil.ValidUuidT(t) witness BtUtil.Uuid16(0)

  /**
   * One SDP record as the BlueZ accessors read it, `None` where the accessor
   * fails: `sdp_get_service_name`, `sdp_get_service_desc`, the first class
   * of `sdp_get_service_classes`, and the RFCOMM port `sdp_get_proto_port`
   * finds in the list of `sdp_get_access_protos`.
   */
  datatype SdpRecord = SdpRecord(
    name: Option<string>,
    description: Option<string>,
    serviceClass: Option<SdpUuid>,
    accessPort: Option<int>)

  /**
   * The SDP server of a remote device: `sdp_connect` fails, or it answers
   * `sdp_service_search_attr_req` for each searched UUID with a response
   * list (`None` where the search returns an error).
   */
  datatype SdpServer =
    | Unreachable
    | Reachable(search: BtUtil.UuidT -> Option<seq<SdpRecord>>)

  /** The records a search returns; a failed search leaves the response list empty. */
  function Responses(server: SdpServer, uuid: BtUtil.UuidT): (rs: seq<SdpRecord>)
    requires server.Reachable?
    ensures server.search(uuid).None? ==> rs == []
  {
    match server.search(uuid)
    case None => []
    case Some(rs) => rs
  }

  /**
   * The RFCOMM side of the radio: the descriptor `socket` returns
   * (`INVALID_SOCKET` when it fails), and the (address, channel) pairs on
   * which `connect` succeeds.
   */
  datatype Radio = Radio(fd: int, listening: set<(Addr, int)>)

  /** How a stream ends: `recv`/`send` return 0, or -1 with this errno. */
  datatype Hangup = Closed | Fails(errno: int)

  /** A non-empty run of bytes. */
  type Chunk = s: seq<Byte> | |s| > 0 witness [0]

  /** A positive byte count. */
  type Pos = n: int | n > 0 witness 1

  /** `bt_recv`/`bt_send`'s reading of a stream's end as a library error. */
  function HangupError(h: Hangup): (e: BtErr)
    ensures e == SocketClosed || e == ErrUnknown
    ensures e == ErrUnknown <==> h.Fails? && h.errno != ECONNRESET
  {
    match h
    case Closed => SocketClosed
    case Fails(errno) => if errno == ECONNRESET then SocketClosed else ErrUnknown
  }

  /**
   * The kernel's end of one connected RFCOMM socket. A `recv` of `len`
   * bytes delivers at most `len` bytes of the first pending chunk (the rest
   * stays pending) and, once nothing is pending, reports `recvEnd`. A `send`
   * of `len` bytes is accepted up to the first count of `window` (the rest of
   * that count stays available); once the window is used up, `sendEnd` says
   * whether further sends are accepted whole (`None`) or fail.
   */
  class Peer {
    var incoming: seq<Chunk>
    var recvEnd: Hangup
    var window: seq<Pos>
    var sendEnd: Option<Hangup>
    var delivered: seq<Byte>

    constructor (incoming: seq<Chunk>, recvEnd: Hangup, window: seq<Pos>, sendEnd: Option<Hangup>)
      ensures this.incoming == incoming && this.recvEnd == recvEnd
      ensures this.window == window && this.sendEnd == sendEnd && delivered == []
    {
      this.incoming := incoming;
      this.recvEnd := recvEnd;
      this.window := window;
      this.sendEnd := sendEnd;
      delivered := [];
    }
  }

  /**
   * The bytes a stream of chunks carries, in order: the first chunk comes
   * first, and every chunk adds at least one byte.
   */
  function Flatten(cs: seq<Chunk>): (bs: seq<Byte>)
    ensures |bs| >= |cs|
    ensures cs != [] ==> cs[0] <= bs
  {
    if cs == [] then [] else cs[0] + Flatten(cs[1..])
  }

  /** The last chunk of a stream is the last bytes it carries. */
  lemma {:induction false} FlattenEndsWithLast(cs: seq<Chunk>)
    requires cs != []
    ensures |cs[|cs| - 1]| <= |Flatten(cs)|
    ensures Flatten(cs)[|Flatten(cs)| - |cs[|cs| - 1]|..] == cs[|cs| - 1]
    decreases |cs|
  {
    if |cs| > 1 {
      FlattenEndsWithLast(cs[1..]);
      assert cs[1..][|cs[1..]| - 1] == cs[|cs| - 1];
    }
  }

  /** The number of bytes a window accepts before its end. */
  function Sum(w: seq<Pos>): (n: nat)
    ensures n == 0 <==> w == []
  {
    if w == [] then 0 else w[0] + Sum(w[1..])
  }

  function Min(a: int, b: int): int
  {
    if a < b then a else b
  }

  /**
   * `recv(2)` of `len` bytes into `buffer` from `start`: delivers up to `len`
   * bytes of the first pending chunk and keeps the rest pending; with nothing
   * pending it reports the stream's end (0, or -1 and the errno).
   */
  method KernelRecv(peer: Peer, buffer: array<Byte>, start: nat, len: nat) returns (n: int, errno: int)
    requires start + len <= buffer.Length
    modifies peer`incoming, buffer
    ensures n > 0 <==> len > 0 && old(peer.incoming) != []
    ensures n > 0 ==>
      n == Min(len, |old(peer.incoming)[0]|)
      && buffer[start..start + n] == Flatten(old(peer.incoming))[..n]
      && Flatten(peer.incoming) == Flatten(old(peer.incoming))[n..]
      && buffer[..start] == old(buffer[..start]) && buffer[start + n..] == old(buffer[start + n..])
    ensures n <= 0 ==> peer.incoming == old(peer.incoming) && unchanged(buffer)
    ensures n < 0 <==> n <= 0 && old(peer.incoming) == [] && peer.recvEnd.Fails?
    ensures n < 0 ==> errno == peer.recvEnd.errno
  {
    errno := 0;
    if peer.incoming == [] {
      n := if peer.recvEnd.Closed? then 0 else -1;
      if peer.recvEnd.Fails? {
        errno := peer.recvEnd.errno;
      }
      return;
    }
    var c := peer.incoming[0];
    n := Min(len, |c|);
    if n == 0 {
      return;
    }
    Copy(buffer, start, c[..n]);
    assert Flatten(peer.incoming) == c + Flatten(peer.incoming[1..]);
    if n < |c| {
      FlattenAfterPartial(c, peer.incoming[1..], n);
      peer.incoming := [c[n..]] + peer.incoming[1..];
    } else {
      peer.incoming := peer.incoming[1..];
    }
  }

  /** `memcpy` of `data` into `buffer` from `start`. */
  method Copy(buffer: array<Byte>, start: nat, data: seq<Byte>)
    requires start + |data| <= buffer.Length
    modifies buffer
    ensures buffer[start..start + |data|] == data
    ensures buffer[..start] == old(buffer[..start])
    ensures buffer[start + |data|..] == old(buffer[start + |data|..])
  {
    forall i | start <= i < start + |data| {
      buffer[i] := data[i - start];
    }
  }

  lemma FlattenAfterPartial(c: Chunk, rest: seq<Chunk>, n: nat)
    requires n < |c|
    ensures Flatten([c[n..]] + rest) == (c + Flatten(rest))[n..]
  {
    assert ([c[n..]] + rest)[1..] == rest;
  }

  /**
   * `send(2)` of `len` bytes from `buffer` at `start`: accepted up to the
   * first count of the window (the rest of that count stays available); with
   * the window used up, accepted whole or refused as `sendEnd` says.
   */
  method KernelSend(peer: Peer, buffer: array<Byte>, start: nat, len: nat) returns (n: int, errno: int)
    requires start + len <= buffer.Length
    modifies peer`window, peer`delivered
    ensures n > 0 <==> len > 0 && (old(peer.window) != [] || peer.sendEnd.None?)
    ensures n > 0 ==>
      n <= len && peer.delivered == old(peer.delivered) + buffer[start..start + n]
      && (old(peer.window) != [] ==> Sum(peer.window) + n == Sum(old(peer.window)))
      && (old(peer.window) == [] ==> n == len && peer.window == [])
    ensures n <= 0 ==> unchanged(peer)
    ensures n < 0 <==> n <= 0 && old(peer.window) == [] && peer.sendEnd.Some? && peer.sendEnd.value.Fails?
    ensures n < 0 ==> errno == peer.sendEnd.value.errno
  {
    errno := 0;
    if peer.window == [] {
      if peer.sendEnd.None? {
        n := len;
        if n > 0 {
          peer.delivered := peer.delivered + buffer[start..start + n];
        }
      } else {
        n := if peer.sendEnd.value.Closed? then 0 else -1;
        if peer.sendEnd.value.Fails? {
          errno := peer.sendEnd.value.errno;
        }
      }
      return;
    }
    var k := peer.window[0];
    n := Min(len, k);
    if n == 0 {
      return;
    }
    peer.delivered := peer.delivered + buffer[start..start + n];
    if n < k {
      peer.window := [k - n] + peer.window[1..];
      assert peer.window[1..] == old(peer.window)[1..];
    } else {
      peer.window := peer.window[1..];
    }
  }
}
