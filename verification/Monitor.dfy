/** monitor.c and client_monitor.c: the UDP protocol that reports the server's counters. Both programs mix network
    order and the byte order of their host; `le` tells whether a host is little-endian. */
module Monitor {
  import opened Wrappers

  type Byte = x: int | 0 <= x < 256

  const SIGNATURE := 0xfffe
  const VERSION := 0
  const TOKEN := 0xffe91a2b3c4d5e6f
  const BUFFER_SIZE := 22

  // ----- Integers as bytes

  function Pow256(n: nat): nat {
    if n == 0 then 1 else 256 * Pow256(n - 1)
  }

  /** The n big-endian bytes of a value. */
  function WriteBE(v: nat, n: nat): (s: seq<Byte>)
    ensures |s| == n
  {
    if n == 0 then [] else WriteBE(v / 256, n - 1) + [v % 256]
  }

  function ReadBE(s: seq<Byte>): nat {
    if s == [] then 0 else ReadBE(s[..|s| - 1]) * 256 + s[|s| - 1]
  }

  function Reversed(s: seq<Byte>): (r: seq<Byte>)
    ensures |r| == |s| && forall i :: 0 <= i < |s| ==> r[i] == s[|s| - 1 - i]
  {
    if s == [] then [] else Reversed(s[1..]) + [s[0]]
  }

  lemma {:induction false} ReadWritten(v: nat, n: nat)
    requires v < Pow256(n)
    ensures ReadBE(WriteBE(v, n)) == v
  {
    if n > 0 {
      ReadWritten(v / 256, n - 1);
      assert WriteBE(v, n)[..n - 1] == WriteBE(v / 256, n - 1);
    }
  }

  lemma {:induction false} WriteRead(s: seq<Byte>)
    ensures WriteBE(ReadBE(s), |s|) == s && ReadBE(s) < Pow256(|s|)
  {
    if s != [] {
      WriteRead(s[..|s| - 1]);
      assert s == s[..|s| - 1] + [s[|s| - 1]];
    }
  }

  lemma ReversedTwice(s: seq<Byte>)
    ensures Reversed(Reversed(s)) == s
  {
  }

  /** An n-byte integer in the memory of a host, and back. */
  function Store(le: bool, v: nat, n: nat): seq<Byte> {
    if le then Reversed(WriteBE(v, n)) else WriteBE(v, n)
  }

  function Load(le: bool, s: seq<Byte>): nat {
    ReadBE(if le then Reversed(s) else s)
  }

  /** htons, htonl, ntohs and ntohl: exchange the bytes on a little-endian host. */
  function Swap(le: bool, v: nat, n: nat): nat {
    if le then ReadBE(Reversed(WriteBE(v, n))) else v
  }

  /** htobe64, which fills the memory of its result byte by byte. */
  function HtoBe64(le: bool, v: nat): nat {
    Load(le, WriteBE(v, 8))
  }

  /** be64toh, which reads the memory of its argument byte by byte. */
  function Be64toH(le: bool, v: nat): nat {
    ReadBE(Store(le, v, 8))
  }

  /** Converting to network order and storing puts the big-endian bytes in memory, on either host. */
  lemma SwapThenStore(le: bool, v: nat, n: nat)
    requires v < Pow256(n)
    ensures Store(le, Swap(le, v, n), n) == WriteBE(v, n)
  {
    if le {
      WriteRead(Reversed(WriteBE(v, n)));
      ReversedTwice(WriteBE(v, n));
    }
  }

  /** Loading big-endian bytes and converting from network order gives the value, on either host. */
  lemma LoadThenSwap(le: bool, v: nat, n: nat)
    requires v < Pow256(n)
    ensures Swap(le, Load(le, WriteBE(v, n)), n) == v
  {
    ReadWritten(v, n);
    if le {
      WriteRead(Reversed(WriteBE(v, n)));
      ReversedTwice(WriteBE(v, n));
    }
  }

  lemma HtoBe64ThenStore(le: bool, v: nat)
    requires v < Pow256(8)
    ensures Store(le, HtoBe64(le, v), 8) == WriteBE(v, 8)
  {
    var s := WriteBE(v, 8);
    WriteRead(if le then Reversed(s) else s);
    ReversedTwice(s);
  }

  lemma LoadThenBe64toH(le: bool, v: nat)
    requires v < Pow256(8)
    ensures Be64toH(le, Load(le, WriteBE(v, 8))) == v
  {
    var s := WriteBE(v, 8);
    WriteRead(if le then Reversed(s) else s);
    ReversedTwice(s);
    ReadWritten(v, 8);
  }

  // ----- Requests

  /** hi << 8 | lo */
  function U16(hi: Byte, lo: Byte): nat {
    hi as int * 256 + lo as int
  }

  /** (v >> 8) & 0xff and v & 0xff of a 16-bit value. */
  function HighLow(v: nat): seq<Byte> {
    [v / 256 % 256, v % 256]
  }

  /** The 14 bytes that the client sends. */
  function RequestImage(le: bool, id: nat, cmd: Byte): seq<Byte> {
    HighLow(Swap(le, SIGNATURE, 2)) + [VERSION] + HighLow(Swap(le, id, 2)) + WriteBE(TOKEN, 8) + [cmd]
  }

  /** prepare_buffer */
  method PrepareBuffer(buffer: array<Byte>, le: bool, id: nat, cmd: Byte)
    requires buffer.Length == 14 && id < 0x1_0000
    modifies buffer
    ensures buffer[..] == RequestImage(le, id, cmd)
  {
    hide RequestImage, Swap, WriteBE;
    var signature, netId := Swap(le, SIGNATURE, 2), Swap(le, id, 2);
    TokenShifts();
    buffer[0] := signature / 256 % 256;
    buffer[1] := signature % 256;
    buffer[2] := VERSION;
    buffer[3] := netId / 256 % 256;
    buffer[4] := netId % 256;
    buffer[5] := TOKEN / 0x100_0000_0000_0000 % 256;
    buffer[6] := TOKEN / 0x1_0000_0000_0000 % 256;
    buffer[7] := TOKEN / 0x100_0000_0000 % 256;
    buffer[8] := TOKEN / 0x1_0000_0000 % 256;
    buffer[9] := TOKEN / 0x100_0000 % 256;
    buffer[10] := TOKEN / 0x1_0000 % 256;
    buffer[11] := TOKEN / 0x100 % 256;
    buffer[12] := TOKEN % 256;
    buffer[13] := cmd;
    ImageParts(le, id, cmd);
    TokenBytes();
    assert buffer[..][5..13] == [0xff, 0xe9, 0x1a, 0x2b, 0x3c, 0x4d, 0x5e, 0x6f];
    SamePacket(buffer[..], RequestImage(le, id, cmd));
  }

  lemma TokenShifts()
    ensures TOKEN / 0x100_0000_0000_0000 % 256 == 0xff && TOKEN / 0x1_0000_0000_0000 % 256 == 0xe9
    ensures TOKEN / 0x100_0000_0000 % 256 == 0x1a && TOKEN / 0x1_0000_0000 % 256 == 0x2b
    ensures TOKEN / 0x100_0000 % 256 == 0x3c && TOKEN / 0x1_0000 % 256 == 0x4d
    ensures TOKEN / 0x100 % 256 == 0x5e && TOKEN % 256 == 0x6f
  {
  }

  lemma TokenBytes()
    ensures WriteBE(TOKEN, 8) == [0xff, 0xe9, 0x1a, 0x2b, 0x3c, 0x4d, 0x5e, 0x6f]
  {
    assert WriteBE(TOKEN, 8) == WriteBE(TOKEN / 256, 7) + [0x6f];
    assert WriteBE(0xffe91a2b3c4d5e, 7) == WriteBE(0xffe91a2b3c4d, 6) + [0x5e];
    assert WriteBE(0xffe91a2b3c4d, 6) == WriteBE(0xffe91a2b3c, 5) + [0x4d];
    assert WriteBE(0xffe91a2b3c, 5) == WriteBE(0xffe91a2b, 4) + [0x3c];
    assert WriteBE(0xffe91a2b, 4) == WriteBE(0xffe91a, 3) + [0x2b];
    assert WriteBE(0xffe91a, 3) == WriteBE(0xffe9, 2) + [0x1a];
    assert WriteBE(0xffe9, 2) == WriteBE(0xff, 1) + [0xe9];
    assert WriteBE(0xff, 1) == WriteBE(0, 0) + [0xff];
  }

  datatype Verdict = Accepted(command: Byte, id: nat) | Rejected(status: nat)

  const S_SUCCESS := 0
  const S_INV_VERS := 1
  const S_AUTH_FAIL := 2
  const S_INV_CMD := 3
  const S_INV_REQ_LEN := 4
  const S_SIGNATURE_ERR := 6

  /** parse_monitor_message without the response, in the order of its checks. */
  method ParseMessage(le: bool, packet: seq<Byte>, status: nat) returns (v: Verdict)
    ensures v == Classify(le, packet, status)
  {
    if |packet| < 14 {
      return Rejected(status);
    }
    var signature := Swap(le, U16(packet[0], packet[1]), 2);
    var version := packet[2];
    var id := Swap(le, U16(packet[3], packet[4]), 2);
    var token: nat := 0;
    for i := 0 to 8
      invariant token == ReadBE(packet[5..5 + i])
    {
      assert packet[5..5 + (i + 1)][..i] == packet[5..5 + i];
      var next: nat := packet[5 + i];
      token := token * 256 + next;
    }
    var command := packet[13];
    if signature != SIGNATURE {
      return Rejected(status);
    }
    if version != VERSION {
      return Rejected(S_INV_VERS);
    }
    if token != TOKEN {
      return Rejected(S_AUTH_FAIL);
    }
    if command > 5 {
      return Rejected(S_INV_CMD);
    }
    if |packet| != 14 {
      return Rejected(S_INV_REQ_LEN);
    }
    return Accepted(command, id);
  }

  function Classify(le: bool, packet: seq<Byte>, status: nat): Verdict {
    if |packet| < 14 || Swap(le, U16(packet[0], packet[1]), 2) != SIGNATURE then Rejected(status)
    else if packet[2] != VERSION then Rejected(S_INV_VERS)
    else if ReadBE(packet[5..13]) != TOKEN then Rejected(S_AUTH_FAIL)
    else if packet[13] > 5 then Rejected(S_INV_CMD)
    else if |packet| != 14 then Rejected(S_INV_REQ_LEN)
    else Accepted(packet[13], Swap(le, U16(packet[3], packet[4]), 2))
  }

  /** ntohs undoes htons, and on a little-endian host exchanges the two bytes. */
  lemma SwapTwice(le: bool, hi: Byte, lo: Byte)
    ensures Swap(le, U16(hi, lo), 2) == if le then U16(lo, hi) else U16(hi, lo)
    ensures Swap(le, Swap(le, U16(hi, lo), 2), 2) == U16(hi, lo)
  {
    if le {
      ExchangedBytes(hi, lo);
      ExchangedBytes(lo, hi);
    }
  }

  lemma ExchangedBytes(hi: Byte, lo: Byte)
    ensures Swap(true, U16(hi, lo), 2) == U16(lo, hi)
  {
    TwoBytes(hi, lo);
    TwoBytes(lo, hi);
    assert Reversed([hi, lo]) == [lo, hi];
  }

  lemma TwoBytes(hi: Byte, lo: Byte)
    ensures WriteBE(U16(hi, lo), 2) == [hi, lo] && ReadBE([hi, lo]) == U16(hi, lo)
    ensures HighLow(U16(hi, lo)) == [hi, lo]
  {
    assert WriteBE(U16(hi, lo), 2) == WriteBE(hi, 1) + [lo] && WriteBE(hi, 1) == WriteBE(0, 0) + [hi];
    assert [hi, lo][..1] == [hi] && [hi][..0] == [];
    assert ReadBE([hi, lo]) == ReadBE([hi]) * 256 + lo && ReadBE([hi]) == ReadBE([]) * 256 + hi;
  }

  /** A server takes exactly the images that a client on a host of its own byte order makes of a 16-bit id and one of
      the six commands, and reads both back. */
  lemma AcceptsExactlyRequests(le: bool, packet: seq<Byte>, status: nat, id: nat, cmd: Byte)
    ensures Classify(le, packet, status) == Accepted(cmd, id) <==>
              id < 0x1_0000 && cmd <= 5 && packet == RequestImage(le, id, cmd)
  {
    hide Swap, RequestImage, HighLow, U16, ReadBE, WriteBE;
    ImageParts(le, id, cmd);
    TokenIs64Bits();
    ReadWritten(TOKEN, 8);
    if |packet| == 14 {
      assert packet[..2] == [packet[0], packet[1]] && packet[3..5] == [packet[3], packet[4]];
      WriteRead(packet[5..13]);
      FromNet(le, packet[0], packet[1], SIGNATURE);
      FromNet(le, packet[3], packet[4], id);
      SamePacket(packet, RequestImage(le, id, cmd));
    }
  }

  /** Two received bytes are read as v exactly when they are the bytes that are sent for v. */
  lemma FromNet(le: bool, b0: Byte, b1: Byte, v: nat)
    ensures Swap(le, U16(b0, b1), 2) < 0x1_0000
    ensures v < 0x1_0000 ==> (Swap(le, U16(b0, b1), 2) == v <==> [b0, b1] == HighLow(Swap(le, v, 2)))
  {
    hide Swap, HighLow;
    SwapTwice(le, b0, b1);
    if v < 0x1_0000 {
      var hi: Byte, lo: Byte := v / 256, v % 256;
      SwapTwice(le, hi, lo);
      TwoBytes(hi, lo);
      TwoBytes(lo, hi);
      SameNumber(b0, b1, hi, lo);
      SameNumber(b1, b0, hi, lo);
    }
  }

  lemma SameNumber(a: Byte, b: Byte, c: Byte, d: Byte)
    ensures U16(a, b) < 0x1_0000 && (U16(a, b) == U16(c, d) <==> a == c && b == d)
  {
  }

  lemma SamePacket(p: seq<Byte>, q: seq<Byte>)
    requires |p| == |q| == 14
    ensures p == q <==> p[..2] == q[..2] && p[2] == q[2] && p[3..5] == q[3..5] && p[5..13] == q[5..13] && p[13] == q[13]
  {
    if p[..2] == q[..2] && p[2] == q[2] && p[3..5] == q[3..5] && p[5..13] == q[5..13] && p[13] == q[13] {
      assert p == p[..2] + [p[2]] + p[3..5] + p[5..13] + [p[13]];
      assert q == q[..2] + [q[2]] + q[3..5] + q[5..13] + [q[13]];
    }
  }

  lemma ImageParts(le: bool, id: nat, cmd: Byte)
    ensures var p := RequestImage(le, id, cmd);
            |p| == 14 && p[..2] == HighLow(Swap(le, SIGNATURE, 2)) && p[2] == VERSION
            && p[3..5] == HighLow(Swap(le, id, 2)) && p[5..13] == WriteBE(TOKEN, 8) && p[13] == cmd
  {
  }

  lemma TokenIs64Bits()
    ensures TOKEN < Pow256(8) && Pow256(4) == 0x1_0000_0000 && Pow256(8) == 0x1_0000_0000_0000_0000
  {
    assert Pow256(2) == 0x1_0000;
    assert Pow256(4) == 0x1_0000_0000;
    assert Pow256(6) == 0x1_0000_0000_0000;
  }

  /** The two byte orders do not understand each other: the signature arrives exchanged. */
  lemma MixedHostsDisagree(client: bool, server: bool, id: nat, cmd: Byte, status: nat)
    requires id < 0x1_0000 && cmd <= 5
    ensures Classify(server, RequestImage(client, id, cmd), status).Accepted? <==> client == server
  {
    if client == server {
      AcceptsExactlyRequests(server, RequestImage(client, id, cmd), status, id, cmd);
    } else {
      hide Swap, RequestImage;
      ImageParts(client, id, cmd);
      SwapTwice(client, 0xff, 0xfe);
      TwoBytes(0xff, 0xfe);
      TwoBytes(0xfe, 0xff);
      SwapTwice(server, 0xff, 0xfe);
      SwapTwice(server, 0xfe, 0xff);
      var p := RequestImage(client, id, cmd);
      assert p[0] == p[..2][0] && p[1] == p[..2][1];
    }
  }

  /** The packet of a big-endian client, byte by byte, and the two fields that a little-endian one exchanges. */
  lemma ImageBytes(hi: Byte, lo: Byte, cmd: Byte)
    ensures RequestImage(false, U16(hi, lo), cmd)
            == [0xff, 0xfe, 0, hi, lo, 0xff, 0xe9, 0x1a, 0x2b, 0x3c, 0x4d, 0x5e, 0x6f, cmd]
    ensures RequestImage(true, U16(hi, lo), cmd)
            == [0xfe, 0xff, 0, lo, hi, 0xff, 0xe9, 0x1a, 0x2b, 0x3c, 0x4d, 0x5e, 0x6f, cmd]
  {
    hide Swap, WriteBE;
    TokenBytes();
    TwoBytes(hi, lo);
    TwoBytes(lo, hi);
    SwapTwice(true, hi, lo);
    SwapTwice(false, hi, lo);
    TwoBytes(0xff, 0xfe);
    TwoBytes(0xfe, 0xff);
    SwapTwice(true, 0xff, 0xfe);
    SwapTwice(false, 0xff, 0xfe);
    assert U16(0xff, 0xfe) == SIGNATURE;
  }

  /** How packets are refused: one that is short or has another signature not at all, and otherwise the first field that
      is wrong tells, in the order version, token, command, length. */
  lemma RefusalsTell(le: bool, packet: seq<Byte>, status: nat)
    ensures var v := Classify(le, packet, status);
            var own := |packet| >= 14 && packet[..2] == HighLow(Swap(le, 0xfffe, 2));
            && (!own ==> v == Rejected(status))
            && (own && packet[2] != 0 ==> v == Rejected(1))
            && (own && packet[2] == 0 && packet[5..13] != [0xff, 0xe9, 0x1a, 0x2b, 0x3c, 0x4d, 0x5e, 0x6f] ==>
               v == Rejected(2))
            && (own && packet[2] == 0 && packet[5..13] == [0xff, 0xe9, 0x1a, 0x2b, 0x3c, 0x4d, 0x5e, 0x6f] ==>
                  && (packet[13] > 5 ==> v == Rejected(3))
                  && (packet[13] <= 5 && |packet| > 14 ==> v == Rejected(4))
                  && (packet[13] <= 5 && |packet| == 14 ==> v.Accepted? && v.command == packet[13]))
  {
    hide Swap, ReadBE, WriteBE, HighLow, U16;
    if |packet| >= 14 {
      FromNet(le, packet[0], packet[1], 0xfffe);
      assert packet[..2] == [packet[0], packet[1]];
      TokenBytes();
      TokenIs64Bits();
      ReadWritten(TOKEN, 8);
      WriteRead(packet[5..13]);
    }
  }

  // ----- Counters and responses

  /** print_bytes_recieved: the number the client shows for a counter command. */
  function ShownCount(le: bool, cmd: Byte, response: seq<Byte>): nat
    requires |response| >= 14
  {
    if cmd == 2 then Be64toH(le, Load(le, response[6..14])) else Swap(le, Load(le, response[6..10]), 4)
  }

  /** What the client shows for the STATUS command. */
  predicate ShownOn(response: seq<Byte>)
    requires |response| >= 14
  {
    response[6] != 0
  }

  class Counters {
    var sentBytes: nat // uint64_t
    var currConnections: nat // uint32_t
    var totalConnections: nat // uint32_t

    predicate Valid()
      reads this
    {
      sentBytes < 0x1_0000_0000_0000_0000 && currConnections < 0x1_0000_0000 && totalConnections < 0x1_0000_0000
    }

    constructor ()
      ensures Valid() && sentBytes == currConnections == totalConnections == 0
    {
      sentBytes, currConnections, totalConnections := 0, 0, 0;
    }

    /** monitor_add_connection */
    method AddConnection()
      requires Valid()
      modifies this
      ensures Valid() && sentBytes == old(sentBytes)
      ensures currConnections == (old(currConnections) + 1) % 0x1_0000_0000
      ensures totalConnections == (old(totalConnections) + 1) % 0x1_0000_0000
    {
      currConnections := (currConnections + 1) % 0x1_0000_0000;
      totalConnections := (totalConnections + 1) % 0x1_0000_0000;
    }

    /** monitor_close_connection */
    method CloseConnection()
      requires Valid()
      modifies this`currConnections
      ensures Valid() && currConnections == (old(currConnections) - 1) % 0x1_0000_0000
    {
      currConnections := (currConnections - 1) % 0x1_0000_0000;
    }

    /** monitor_add_sent_bytes with the result of send, which is converted to an unsigned long. */
    method AddSentBytes(bytes: int)
      requires Valid() && bytes >= -1
      modifies this`sentBytes
      ensures Valid() && sentBytes == (old(sentBytes) + bytes) % 0x1_0000_0000_0000_0000
    {
      sentBytes := (sentBytes + bytes % 0x1_0000_0000_0000_0000) % 0x1_0000_0000_0000_0000;
    }

    /** The counter that a command asks for. */
    function Counter(cmd: Byte): nat
      reads this
    {
      if cmd == 0 then totalConnections else if cmd == 1 then currConnections else sentBytes
    }

    /** handle_udp_packet: the 22 bytes sent back, or nothing for a packet that is not of this protocol. */
    method HandlePacket(le: bool, packet: seq<Byte>) returns (response: Option<seq<Byte>>)
      requires Valid()
      ensures match Classify(le, packet, S_SIGNATURE_ERR)
        case Rejected(status) =>
          if status == S_SIGNATURE_ERR then response == None
          else
            && response.Some? && |response.value| == BUFFER_SIZE && response.value[5] == status
            && response.value[..5] == [0, 0, 0, 0, 0]
        case Accepted(cmd, _) =>
          && response.Some? && |response.value| == BUFFER_SIZE && response.value[..5] == packet[..5]
             && response.value[5] == S_SUCCESS
          && (cmd == 0 ==> response.value[6..10] == WriteBE(totalConnections, 4))
          && (cmd == 1 ==> response.value[6..10] == WriteBE(currConnections, 4))
          && (cmd == 2 ==> response.value[6..14] == WriteBE(sentBytes, 8))
          && (cmd >= 3 ==> response.value[6] == cmd)
    {
      hide Swap, Load, Store, HtoBe64, WriteBE;
      var v := ParseMessage(le, packet, S_SIGNATURE_ERR);
      var out: seq<Byte> := seq(BUFFER_SIZE, _ => 0);
      match v {
        case Rejected(status) =>
          if status < S_SIGNATURE_ERR {
            return Some(out[5 := status]);
          }
          return None;
        case Accepted(cmd, _) =>
          AcceptedSignature(le, packet, S_SIGNATURE_ERR);
          var header := HighLow(Swap(le, SIGNATURE, 2)) + [VERSION, packet[3], packet[4], S_SUCCESS];
          assert header[..5] == packet[..5];
          out := header + Payload(le, cmd);
          PayloadBytes(le, cmd);
          return Some(out);
      }
    }

    /** process_valid_command: what is written from byte 6 on. */
    function Payload(le: bool, cmd: Byte): (s: seq<Byte>)
      requires Valid() && cmd <= 5
      reads this
      ensures |s| == 16
    {
      if cmd <= 1 then Store(le, Swap(le, Counter(cmd), 4), 4) + seq(12, _ => 0)
      else if cmd == 2 then Store(le, HtoBe64(le, Counter(cmd)), 8) + seq(8, _ => 0)
      else [cmd] + seq(15, _ => 0)
    }

    lemma PayloadBytes(le: bool, cmd: Byte)
      requires Valid() && cmd <= 5
      ensures cmd <= 1 ==> Payload(le, cmd)[..4] == WriteBE(Counter(cmd), 4)
      ensures cmd == 2 ==> Payload(le, cmd)[..8] == WriteBE(Counter(cmd), 8)
    {
      TokenIs64Bits();
      if cmd <= 1 {
        SwapThenStore(le, Counter(cmd), 4);
      } else if cmd == 2 {
        HtoBe64ThenStore(le, Counter(cmd));
      }
    }
  }

  /** The header that is sent back equals the one received. */
  lemma AcceptedSignature(le: bool, packet: seq<Byte>, status: nat)
    requires Classify(le, packet, status).Accepted?
    ensures packet[..3] == HighLow(Swap(le, SIGNATURE, 2)) + [VERSION]
  {
    FromNet(le, packet[0], packet[1], SIGNATURE);
    assert packet[..3] == [packet[0], packet[1]] + [packet[2]];
  }

  /** From client to server and back, on hosts of the same byte order: the client shows the server's counter, and for
      STATUS it always shows that transformations are on. */
  method Ask(counters: Counters, le: bool, id: nat, cmd: Byte) returns (response: seq<Byte>)
    requires counters.Valid() && id < 0x1_0000 && cmd <= 5
    ensures |response| == 22 && response[3..5] == HighLow(Swap(le, id, 2)) && response[5] == S_SUCCESS
    ensures cmd == 0 ==> ShownCount(le, cmd, response) == counters.totalConnections
    ensures cmd == 1 ==> ShownCount(le, cmd, response) == counters.currConnections
    ensures cmd == 2 ==> ShownCount(le, cmd, response) == counters.sentBytes
    ensures cmd == 3 ==> ShownOn(response)
  {
    hide Swap, Load, Be64toH, WriteBE, RequestImage;
    var buffer := new Byte[14];
    PrepareBuffer(buffer, le, id, cmd);
    AcceptsExactlyRequests(le, buffer[..], S_SIGNATURE_ERR, id, cmd);
    ImageParts(le, id, cmd);
    var r := counters.HandlePacket(le, buffer[..]);
    response := r.value;
    assert response[3..5] == response[..5][3..5] == buffer[..][..5][3..5] == buffer[..][3..5];
    TokenIs64Bits();
    if cmd <= 1 {
      LoadThenSwap(le, counters.Counter(cmd), 4);
    } else if cmd == 2 {
      LoadThenBe64toH(le, counters.Counter(cmd));
    }
  }
}
