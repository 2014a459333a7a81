/** IP and TCP headers with their checksums (drivers/network.c:248-266, 402-435; section 3.1 of RFC 791 and section 3.1
of RFC 793). */
module Packets {
  import opened Arithmetic
  import opened ByteOrder
  import opened ByteType
  import opened InternetChecksum

  const MTU: nat := 1500
  const IP_HEADER: nat := 20
  const TCP_HEADER: nat := 20
  const PROTOCOL_TCP: nat := 6

  /** Network order: what storing a byte-swapped word leaves in memory */
  function Big16(word: nat): (bytes: seq<Byte>)
    requires word < 0x1_0000
    ensures |bytes| == 2
  {
    [word / 0x100, word % 0x100]
  }

  function Big32(word: nat): (bytes: seq<Byte>)
    requires word < 0x1_0000_0000
    ensures |bytes| == 4
  {
    [word / 0x100_0000, word / 0x1_0000 % 0x100, word / 0x100 % 0x100, word % 0x100]
  }

  /** The IP header before its checksum is filled in: version 4, five words, time to live 64 */
  function IpFields(total: nat, protocol: Byte, source: nat, dest: nat): (header: seq<Byte>)
    requires total < 0x1_0000 && source < 0x1_0000_0000 && dest < 0x1_0000_0000
    ensures |header| == IP_HEADER && header[10] == header[11] == 0
  {
    [0x45, 0] + Big16(total) + [0, 0, 0, 0, 64, protocol, 0, 0] + Big32(source) + Big32(dest)
  }

  /** The TCP header before its checksum is filled in: data offset 5, window 65535, sequence numbers 0 */
  function TcpFields(sourcePort: nat, destPort: nat, flags: Byte): (header: seq<Byte>)
    requires sourcePort < 0x1_0000 && destPort < 0x1_0000
    ensures |header| == TCP_HEADER && header[16] == header[17] == 0
  {
    Big16(sourcePort) + Big16(destPort) + [0, 0, 0, 0, 0, 0, 0, 0]
    + Big16(0x5000 + flags) + Big16(0xFFFF) + [0, 0, 0, 0]
  }

  /** Addresses, a zero byte, the protocol and the length of the segment */
  function PseudoHeader(source: nat, dest: nat, length: nat): (header: seq<Byte>)
    requires source < 0x1_0000_0000 && dest < 0x1_0000_0000 && length < 0x1_0000
    ensures |header| == 12
  {
    Big32(source) + Big32(dest) + Big32(PROTOCOL_TCP * 0x1_0000 + length)
  }

  // ---- What a receiver reads

  /** The big-endian word of two bytes at an offset */
  function Read16(bytes: seq<Byte>, i: nat): nat
    requires i + 2 <= |bytes|
  {
    0x100 * bytes[i] as int + bytes[i + 1] as int
  }

  /** The big-endian word of four bytes at an offset */
  function Read32(bytes: seq<Byte>, i: nat): nat
    requires i + 4 <= |bytes|
  {
    0x1_0000 * Read16(bytes, i) + Read16(bytes, i + 2)
  }

  lemma FourBytes(word: nat)
    ensures word == 0x1_0000 * (0x100 * (word / 0x100_0000) + word / 0x1_0000 % 0x100)
                    + (0x100 * (word / 0x100 % 0x100) + word % 0x100)
  {
    var high, low := word / 0x1_0000, word % 0x1_0000;
    assert word == 0x1_0000 * high + low && high == 0x100 * (high / 0x100) + high % 0x100;
    DivModNested(word, 0x1_0000, 0x100);
    DivModNested(word, 0x100, 0x100);
    assert low == 0x100 * (low / 0x100) + low % 0x100;
  }

  lemma ReadsBack(bytes: seq<Byte>, i: nat, word: nat)
    ensures word < 0x1_0000 && i + 2 <= |bytes| && bytes[i..i + 2] == Big16(word) ==> Read16(bytes, i) == word
    ensures word < 0x1_0000_0000 && i + 4 <= |bytes| && bytes[i..i + 4] == Big32(word) ==> Read32(bytes, i) == word
  {
    if word < 0x1_0000 && i + 2 <= |bytes| && bytes[i..i + 2] == Big16(word) {
      assert bytes[i] == Big16(word)[0] && bytes[i + 1] == Big16(word)[1];
    }
    if word < 0x1_0000_0000 && i + 4 <= |bytes| && bytes[i..i + 4] == Big32(word) {
      var read := bytes[i..i + 4];
      assert read[0] == bytes[i] && read[1] == bytes[i + 1] && read[2] == bytes[i + 2] && read[3] == bytes[i + 3];
      FourBytes(word);
    }
  }

  /** The header of section 3.1 of RFC 791: version 4 with five words, the total length, no fragment, the time to live,
  the protocol and the two addresses. */
  ghost predicate IpHeader(header: seq<Byte>, total: nat, protocol: Byte, source: nat, dest: nat) {
    && |header| == 20
    && header[0] / 16 == 4 && header[0] % 16 == 5 && Read16(header, 2) == total && Read16(header, 6) == 0
    && header[8] == 64 && header[9] == protocol && Read32(header, 12) == source && Read32(header, 16) == dest
  }

  /** The header of section 3.1 of RFC 793: the ports, sequence and acknowledgement numbers, five words, the flags, the
  window and no urgent data. */
  ghost predicate TcpHeader(header: seq<Byte>, sourcePort: nat, destPort: nat, flags: Byte) {
    && |header| == 20
    && Read16(header, 0) == sourcePort && Read16(header, 2) == destPort
    && Read32(header, 4) == Read32(header, 8) == 0 && header[12] / 16 == 5 && header[12] % 16 == 0
    && header[13] == flags && Read16(header, 14) == 65535 && Read16(header, 18) == 0
  }

  lemma IpFieldsRead(total: nat, protocol: Byte, source: nat, dest: nat, word: nat)
    requires total < 0x1_0000 && source < 0x1_0000_0000 && dest < 0x1_0000_0000 && word <= MODULUS
    ensures IpHeader(PutWord(IpFields(total, protocol, source, dest), 10, word), total, protocol, source, dest)
  {
    var fields := IpFields(total, protocol, source, dest);
    var header := PutWord(fields, 10, word);
    assert fields[2..4] == Big16(total) && fields[12..16] == Big32(source) && fields[16..20] == Big32(dest);
    assert header[2..4] == Big16(total);
    assert header[12..16] == Big32(source) && header[16..20] == Big32(dest);
    ReadsBack(header, 2, total);
    ReadsBack(header, 12, source);
    ReadsBack(header, 16, dest);
  }

  lemma TcpFieldsRead(sourcePort: nat, destPort: nat, flags: Byte, word: nat)
    requires sourcePort < 0x1_0000 && destPort < 0x1_0000 && word <= MODULUS
    ensures TcpHeader(PutWord(TcpFields(sourcePort, destPort, flags), 16, word), sourcePort, destPort, flags)
  {
    var header := PutWord(TcpFields(sourcePort, destPort, flags), 16, word);
    assert header[0..2] == Big16(sourcePort) && header[2..4] == Big16(destPort);
    ReadsBack(header, 0, sourcePort);
    ReadsBack(header, 2, destPort);
  }

  /** The prefix of section 3.1 of RFC 793: the addresses, a zero byte, protocol 6 and the length of the segment. */
  lemma PseudoHeaderReads(source: nat, dest: nat, length: nat)
    requires source < 0x1_0000_0000 && dest < 0x1_0000_0000 && length < 0x1_0000
    ensures var prefix := PseudoHeader(source, dest, length);
            && Read32(prefix, 0) == source && Read32(prefix, 4) == dest
            && prefix[8] == 0 && prefix[9] == 6 && Read16(prefix, 10) == length
  {
    var prefix := PseudoHeader(source, dest, length);
    assert prefix[0..4] == Big32(source) && prefix[4..8] == Big32(dest);
    ReadsBack(prefix, 0, source);
    ReadsBack(prefix, 4, dest);
  }

  // ---- Checksums

  /** What a receiver tests: the sum over prefix and data is all ones, so that the checksum is 0. */
  ghost predicate Verifies(prefix: seq<Byte>, data: seq<Byte>) {
    OnesSum(prefix + data) == MODULUS
  }

  lemma {:induction false} SumBound(data: seq<Byte>)
    ensures Sum(data) <= MODULUS * |data|
  {
    if |data| >= 2 { SumBound(data[2..]); }
  }

  /** A segment with its checksum filled in verifies behind the prefix that the checksum was computed over. */
  lemma FilledInVerifies(prefix: seq<Byte>, data: seq<Byte>, k: nat, at: nat, filled: seq<Byte>)
    requires k + 1 < |data| && data[k] == 0 && data[k + 1] == 0 && at == |prefix| + k && at % 2 == 0
    requires filled == PutWord(data, k, MODULUS - OnesSum(prefix + data))
    ensures Verifies(prefix, filled)
  {
    ChecksumVerifies(prefix + data, at);
    PutBehind(prefix, data, k, MODULUS - OnesSum(prefix + data));
  }

  lemma PutBehind(prefix: seq<Byte>, data: seq<Byte>, k: nat, word: nat)
    requires k + 1 < |data| && word <= MODULUS
    ensures PutWord(prefix + data, |prefix| + k, word) == prefix + PutWord(data, k, word)
  {
  }

  /** The checksum of a header without a prefix */
  lemma FieldsVerify(fields: seq<Byte>, c: nat)
    requires |fields| == IP_HEADER && fields[10] == fields[11] == 0 && c <= MODULUS
    requires c == MODULUS - OnesSum(fields) <==> Sum(fields) < 0x1_0000_0000
    ensures c == MODULUS - OnesSum(fields) && Verifies([], PutWord(fields, 10, c))
  {
    var header := PutWord(fields, 10, c);
    SumBound(fields);
    assert [] + fields == fields && [] + header == header;
    FilledInVerifies([], fields, 10, 10, header);
  }

  class NetInterface {
    var ip: nat

    predicate Valid()
      reads this
    {
      ip < 0x1_0000_0000
    }

    method PutAll(packet: array<Byte>, at: nat, bytes: seq<Byte>)
      requires at + |bytes| <= packet.Length
      modifies packet
      ensures packet[..at + |bytes|] == old(packet[..at]) + bytes
      ensures packet[at + |bytes|..] == old(packet[at + |bytes|..])
    {
      var i := 0;
      while i < |bytes|
        invariant i <= |bytes| && packet[..at + i] == old(packet[..at]) + bytes[..i]
        invariant packet[at + i..] == old(packet[at + i..])
      {
        assert old(packet[at + i..])[1..] == old(packet[at + i + 1..]);
        packet[at + i] := bytes[i];
        assert packet[..at + i + 1] == packet[..at + i] + [bytes[i]];
        i := i + 1;
      }
    }

    /** `ip_send` up to the hand-over to the link layer: the header says what it should, its checksum verifies, and the
    data follows. */
    method IpSend(dest: nat, protocol: Byte, data: seq<Byte>) returns (sent: seq<Byte>)
      requires Valid() && dest < 0x1_0000_0000 && |data| <= 1480
      ensures |sent| == IP_HEADER + |data| && sent[IP_HEADER..] == data && Verifies([], sent[..IP_HEADER])
      ensures IpHeader(sent[..IP_HEADER], |sent|, protocol, ip, dest)
      ensures var fields := IpFields(|sent|, protocol, ip, dest);
              sent[..IP_HEADER] == PutWord(fields, 10, MODULUS - OnesSum(fields))
    {
      var packet := new Byte[MTU];
      FillIpFields(packet, IP_HEADER + |data|, protocol, dest);
      ghost var fields := packet[..IP_HEADER];
      var c := Checksum(packet[..IP_HEADER]);
      FieldsVerify(fields, c);
      ghost var header := PutWord(fields, 10, c);
      packet[10], packet[11] := c % 0x100, c / 0x100;
      assert packet[..IP_HEADER] == header;
      IpFieldsRead(IP_HEADER + |data|, protocol, ip, dest, c);
      PutAll(packet, IP_HEADER, data);
      sent := packet[..IP_HEADER + |data|];
      assert sent == header + data;
    }

    method FillIpFields(packet: array<Byte>, total: nat, protocol: Byte, dest: nat)
      requires Valid() && packet.Length >= IP_HEADER && total < 0x1_0000 && dest < 0x1_0000_0000
      modifies packet
      ensures packet[..IP_HEADER] == IpFields(total, protocol, ip, dest)
    {
      PutAll(packet, 0, [0x45, 0]);
      PutAll(packet, 2, Big16(total));
      PutAll(packet, 4, [0, 0, 0, 0, 64, protocol, 0, 0]);
      PutAll(packet, 12, Big32(ip));
      PutAll(packet, 16, Big32(dest));
    }

    method FillTcpFields(packet: array<Byte>, sourcePort: nat, destPort: nat, flags: Byte)
      requires packet.Length >= TCP_HEADER && sourcePort < 0x1_0000 && destPort < 0x1_0000
      modifies packet
      ensures packet[..TCP_HEADER] == TcpFields(sourcePort, destPort, flags)
    {
      PutAll(packet, 0, Big16(sourcePort));
      PutAll(packet, 2, Big16(destPort));
      PutAll(packet, 4, [0, 0, 0, 0]);
      PutAll(packet, 8, [0, 0, 0, 0]);
      PutAll(packet, 12, Big16(0x5000 + flags));
      PutAll(packet, 14, Big16(0xFFFF));
      PutAll(packet, 16, [0, 0]);
      PutAll(packet, 18, [0, 0]);
    }

    /** `tcp_send`: the segment carries its header and data, and verifies behind the pseudo-header. */
    method TcpSend(dest: nat, destPort: nat, sourcePort: nat, flags: Byte, data: seq<Byte>) returns (sent: seq<Byte>)
      requires Valid() && dest < 0x1_0000_0000 && destPort < 0x1_0000 && sourcePort < 0x1_0000
      requires |data| <= 1460
      ensures |sent| == IP_HEADER + TCP_HEADER + |data| && sent[IP_HEADER + TCP_HEADER..] == data
      ensures Verifies([], sent[..IP_HEADER]) && IpHeader(sent[..IP_HEADER], |sent|, 6, ip, dest)
      ensures TcpHeader(sent[IP_HEADER..IP_HEADER + TCP_HEADER], sourcePort, destPort, flags)
      ensures Verifies(PseudoHeader(ip, dest, TCP_HEADER + |data|), sent[IP_HEADER..])
      ensures var fields, pseudo := TcpFields(sourcePort, destPort, flags), PseudoHeader(ip, dest, TCP_HEADER + |data|);
              sent[IP_HEADER..] == PutWord(fields + data, 16, MODULUS - OnesSum(pseudo + (fields + data)))
    {
      var packet := new Byte[MTU];
      FillTcpFields(packet, sourcePort, destPort, flags);
      PutAll(packet, TCP_HEADER, data);
      var length := TCP_HEADER + |data|;
      ghost var segment := TcpFields(sourcePort, destPort, flags) + data;
      assert packet[..length] == segment;
      var pseudo := PseudoHeader(ip, dest, length);
      var c := Checksum(pseudo + packet[..length]);
      SumBound(pseudo + segment);
      FilledInVerifies(pseudo, segment, 16, 28, PutWord(segment, 16, c));
      packet[16], packet[17] := c % 0x100, c / 0x100;
      assert packet[..length] == PutWord(segment, 16, c);
      sent := IpSend(dest, PROTOCOL_TCP, packet[..length]);
      TcpFieldsRead(sourcePort, destPort, flags, c);
      assert sent[IP_HEADER + TCP_HEADER..] == sent[IP_HEADER..][TCP_HEADER..];
      assert sent[IP_HEADER..IP_HEADER + TCP_HEADER] == PutWord(TcpFields(sourcePort, destPort, flags), 16, c);
    }
  }
}
