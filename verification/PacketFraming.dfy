/** Sending and receiving packets over a byte stream whose reads and writes are cut arbitrarily
    (xacto/src/protocol.c, and the two loops it uses from xacto/src/csapp.c 749-792). */
module PacketFraming {

  import opened Bytes
  import opened Sequences

  // ---------------------------------------------------------------------------------------------
  // Streams
  // ---------------------------------------------------------------------------------------------

  /** What one read or write call does: move up to n bytes, but at least one if there is one; be interrupted by a
      signal; or fail. */
  datatype Outcome = Moves(n: nat) | Interrupted | Fails

  function Min(a: int, b: int): int {
    if a < b then a else b
  }

  /** How many of `most` bytes a call moves. */
  function Moved(n: nat, most: nat): nat {
    if most == 0 then 0 else if n == 0 then 1 else Min(n, most)
  }

  /** One direction of a connection: the bytes on their way, followed by end of file, and what the coming calls
      will do. When the schedule is used up, calls move all they are asked to. */
  class Stream {
    var bytes: seq<byte>
    var schedule: seq<Outcome>

    constructor (schedule: seq<Outcome>)
      ensures bytes == [] && this.schedule == schedule
    {
      this.bytes, this.schedule := [], schedule;
    }

    function Coming(most: nat): Outcome
      reads this
    {
      if schedule == [] then Moves(most) else schedule[0]
    }

    method Write(buf: array<byte>, from: nat, nleft: nat) returns (nwritten: int, interrupted: bool)
      requires 0 < nleft && from + nleft <= buf.Length
      modifies this
      ensures schedule == if old(schedule) == [] then [] else old(schedule)[1..]
      ensures match old(Coming(nleft))
        case Moves(n) => 0 < nwritten <= nleft && bytes == old(bytes) + buf[from..from + nwritten]
        case Interrupted => nwritten == -1 && interrupted && bytes == old(bytes)
        case Fails => nwritten == -1 && !interrupted && bytes == old(bytes)
    {
      var outcome := Coming(nleft);
      if schedule != [] {
        schedule := schedule[1..];
      }
      match outcome
      case Moves(n) =>
        var k := Moved(n, nleft);
        bytes := bytes + buf[from..from + k];
        return k, false;
      case Interrupted => return -1, true;
      case Fails => return -1, false;
    }

    method Read(buf: array<byte>, from: nat, nleft: nat) returns (nread: int, interrupted: bool)
      requires 0 < nleft && from + nleft <= buf.Length
      modifies this, buf
      ensures schedule == if old(schedule) == [] then [] else old(schedule)[1..]
      ensures match old(Coming(nleft))
        case Moves(n) =>
          && 0 <= nread <= Min(nleft, |old(bytes)|) && (nread == 0 <==> old(bytes) == [])
          && bytes == old(bytes)[nread..]
          && buf[..] == old(buf[..from]) + old(bytes)[..nread] + old(buf[from + nread..])
        case Interrupted => nread == -1 && interrupted && bytes == old(bytes) && buf[..] == old(buf[..])
        case Fails => nread == -1 && !interrupted && bytes == old(bytes) && buf[..] == old(buf[..])
    {
      var outcome := Coming(nleft);
      if schedule != [] {
        schedule := schedule[1..];
      }
      match outcome
      case Moves(n) =>
        var k := Moved(n, Min(nleft, |bytes|));
        ghost var was := buf[..];
        forall i | 0 <= i < k {
          buf[from + i] := bytes[i];
        }
        assert buf[..] == was[..from] + bytes[..k] + was[from + k..];
        bytes := bytes[k..];
        return k, false;
      case Interrupted => return -1, true;
      case Fails => return -1, false;
    }
  }

  /** The calls between two points of a schedule went as follows. */
  function Used(before: seq<Outcome>, after: seq<Outcome>): seq<Outcome> {
    if |after| <= |before| then before[..|before| - |after|] else []
  }

  ghost predicate Later(before: seq<Outcome>, after: seq<Outcome>) {
    |after| <= |before| && after == before[|before| - |after|..]
  }

  lemma UsedOne(a: seq<Outcome>, b: seq<Outcome>)
    requires Later(a, b)
    ensures b == [] ==> Used(a, b) == a
    ensures b != [] ==> Later(a, b[1..]) && Used(a, b[1..]) == Used(a, b) + [b[0]]
  {
  }

  /** A proper part of the data, from its beginning, has been written. */
  ghost predicate PartlyWritten(before: seq<byte>, after: seq<byte>, data: seq<byte>) {
    exists k: nat | k < |data| :: after == before + data[..k]
  }

  lemma Partly(before: seq<byte>, data: seq<byte>, k: nat)
    requires k < |data|
    ensures PartlyWritten(before, before + data[..k], data)
  {
  }

  /** Writes the first n bytes of a buffer, however the write calls are cut. It gives up exactly when a call
      fails. */
  method RioWriten(fd: Stream, usrbuf: array<byte>, n: nat) returns (r: int)
    requires n <= usrbuf.Length
    modifies fd
    ensures Later(old(fd.schedule), fd.schedule)
    ensures r == -1 <==> Fails in Used(old(fd.schedule), fd.schedule)
    ensures r != -1 ==> r == n && fd.bytes == old(fd.bytes) + usrbuf[..n]
    ensures r == -1 ==> PartlyWritten(old(fd.bytes), fd.bytes, usrbuf[..n])
  {
    assert Later(fd.schedule, fd.schedule) && Used(fd.schedule, fd.schedule) == [];
    hide Later, Used, PartlyWritten;
    var nleft := n;
    var bufp := 0;
    while nleft > 0
      invariant 0 <= nleft && 0 <= bufp && bufp + nleft == n
      invariant Later(old(fd.schedule), fd.schedule) && Fails !in Used(old(fd.schedule), fd.schedule)
      invariant fd.bytes == old(fd.bytes) + usrbuf[..bufp]
      decreases nleft, |fd.schedule|
    {
      UsedOne(old(fd.schedule), fd.schedule);
      var nwritten, interrupted := fd.Write(usrbuf, bufp, nleft);
      if nwritten <= 0 {
        if interrupted {
          nwritten := 0;
        } else {
          Partly(old(fd.bytes), usrbuf[..n], bufp);
          assert usrbuf[..n][..bufp] == usrbuf[..bufp];
          return -1;
        }
      }
      nleft := nleft - nwritten;
      bufp := bufp + nwritten;
    }
    return n;
  }

  /** Reads n bytes into a buffer, or as many as come before the end of the stream, however the read calls are
      cut. It gives up exactly when a call fails. */
  method RioReadn(fd: Stream, usrbuf: array<byte>, n: nat) returns (r: int)
    requires n <= usrbuf.Length
    modifies fd, usrbuf
    ensures Later(old(fd.schedule), fd.schedule)
    ensures r == -1 <==> Fails in Used(old(fd.schedule), fd.schedule)
    ensures r != -1 ==>
        && r == Min(n, |old(fd.bytes)|) && fd.bytes == old(fd.bytes)[r..]
        && usrbuf[..] == Filled(old(fd.bytes), old(usrbuf[..]), r)
  {
    ghost var schedule, bytes, was := fd.schedule, fd.bytes, usrbuf[..];
    assert Later(schedule, schedule) && Used(schedule, schedule) == [];
    FilledNot(bytes, was);
    assert Progress(fd.bytes, usrbuf[..], bytes, was, 0);
    hide Later, Used, Progress;
    var nleft := n;
    var bufp := 0;
    while nleft > 0
      invariant 0 <= nleft && 0 <= bufp <= |bytes| && bufp + nleft == n
      invariant Later(schedule, fd.schedule) && Fails !in Used(schedule, fd.schedule)
      invariant Progress(fd.bytes, usrbuf[..], bytes, was, bufp)
      decreases nleft, |fd.schedule|
    {
      var nread, interrupted := ReadFurther(fd, usrbuf, bufp, nleft, schedule, bytes, was);
      if nread < 0 {
        if interrupted {
          nread := 0;
        } else {
          return -1;
        }
      } else if nread == 0 {
        break;
      }
      nleft := nleft - nread;
      bufp := bufp + nread;
    }
    ProgressIs(fd.bytes, usrbuf[..], bytes, was, bufp);
    return n - nleft;
  }

  /** bufp bytes have come out of the stream into the buffer. */
  ghost predicate Progress(now: seq<byte>, buf: seq<byte>, bytes: seq<byte>, was: seq<byte>, bufp: nat) {
    bufp <= |bytes| && bufp <= |was| && now == bytes[bufp..] && buf == Filled(bytes, was, bufp)
  }

  lemma ProgressIs(now: seq<byte>, buf: seq<byte>, bytes: seq<byte>, was: seq<byte>, bufp: nat)
    requires Progress(now, buf, bytes, was, bufp)
    ensures bufp <= |bytes| && bufp <= |was| && now == bytes[bufp..] && buf == Filled(bytes, was, bufp)
  {
  }

  /** One read call, which fills the buffer further. */
  method ReadFurther(fd: Stream, usrbuf: array<byte>, bufp: nat, nleft: nat, ghost schedule: seq<Outcome>,
                     ghost bytes: seq<byte>, ghost was: seq<byte>)
    returns (nread: int, interrupted: bool)
    requires 0 < nleft && bufp + nleft <= usrbuf.Length == |was| && bufp <= |bytes|
    requires Later(schedule, fd.schedule) && Fails !in Used(schedule, fd.schedule)
    requires Progress(fd.bytes, usrbuf[..], bytes, was, bufp)
    modifies fd, usrbuf
    ensures Later(schedule, fd.schedule)
    ensures if nread < 0 && !interrupted then Fails in Used(schedule, fd.schedule)
            else Fails !in Used(schedule, fd.schedule)
    ensures nread < 0 && interrupted ==> |fd.schedule| < |old(fd.schedule)|
    ensures nread >= 0 ==> nread <= nleft && bufp + nread <= |bytes| && (nread == 0 ==> bufp == |bytes|)
    ensures Progress(fd.bytes, usrbuf[..], bytes, was, if nread < 0 then bufp else bufp + nread)
  {
    UsedOne(schedule, fd.schedule);
    hide Later, Used, Filled;
    ghost var before := usrbuf[..];
    nread, interrupted := fd.Read(usrbuf, bufp, nleft);
    if nread >= 0 {
      FilledFurther(bytes, was, bufp, nread);
      assert usrbuf[..] == before[..bufp] + bytes[bufp..][..nread] + before[bufp + nread..];
    }
  }

  /** A buffer whose first bufp bytes have been filled. */
  function Filled(bytes: seq<byte>, buf: seq<byte>, bufp: nat): seq<byte>
    requires bufp <= |bytes| && bufp <= |buf|
  {
    bytes[..bufp] + buf[bufp..]
  }

  lemma FilledNot(bytes: seq<byte>, buf: seq<byte>)
    ensures Filled(bytes, buf, 0) == buf
  {
  }

  lemma FilledFurther(bytes: seq<byte>, buf: seq<byte>, bufp: nat, k: nat)
    requires bufp + k <= |bytes| && bufp + k <= |buf|
    ensures var was := Filled(bytes, buf, bufp);
      |was| == |buf| && was[..bufp] + bytes[bufp..][..k] + was[bufp + k..] == Filled(bytes, buf, bufp + k)
    ensures bytes[bufp..][k..] == bytes[bufp + k..]
  {
  }

  // ---------------------------------------------------------------------------------------------
  // Packets
  // ---------------------------------------------------------------------------------------------

  const HEADER_SIZE: nat := 16

  /** The fixed-size part of a packet. Its fourth byte is padding, which travels with the rest. */
  datatype Header = Header(ptype: byte, status: byte, isNull: byte, pad: byte,
                           size: word, seconds: word, nanoseconds: word)

  /** The bytes of a header in the memory of a little-endian host. */
  function Memory(h: Header): (b: seq<byte>)
    ensures |b| == HEADER_SIZE
  {
    [h.ptype, h.status, h.isNull, h.pad] + WordBytes(h.size) + WordBytes(h.seconds) + WordBytes(h.nanoseconds)
  }

  function FromMemory(b: seq<byte>): Header
    requires |b| == HEADER_SIZE
  {
    Header(b[0], b[1], b[2], b[3], FromBytes(b[4..8]), FromBytes(b[8..12]), FromBytes(b[12..16]))
  }

  lemma MemoryRoundTrip(h: Header, b: seq<byte>)
    requires |b| == HEADER_SIZE
    ensures FromMemory(Memory(h)) == h
    ensures Memory(FromMemory(b)) == b
  {
    BytesOfWord(h.size);
    BytesOfWord(h.seconds);
    BytesOfWord(h.nanoseconds);
    WordOfBytes(b[4..8]);
    WordOfBytes(b[8..12]);
    WordOfBytes(b[12..16]);
    hide WordBytes, FromBytes;
    var m := Memory(h);
    assert m[4..8] == WordBytes(h.size) && m[8..12] == WordBytes(h.seconds) && m[12..16] == WordBytes(h.nanoseconds);
    assert b == [b[0], b[1], b[2], b[3]] + b[4..8] + b[8..12] + b[12..16];
  }

  /** Both htonl and ntohl, on a little-endian host. */
  function Swapped(x: word): word {
    FromBytes(Reversed(WordBytes(x)))
  }

  /** The swapped word lies in memory most significant byte first, and swapping it back gives the word. */
  lemma SwappedIsNetworkOrder(x: word)
    ensures WordBytes(Swapped(x)) == Reversed(WordBytes(x))
    ensures Swapped(Swapped(x)) == x
  {
    WordOfBytes(Reversed(WordBytes(x)));
    BytesOfWord(x);
    hide WordBytes, FromBytes;
    assert Reversed(Reversed(WordBytes(x))) == WordBytes(x);
  }

  /** A header with its multi-byte fields converted between host and network byte order. */
  function Converted(h: Header): Header {
    h.(size := Swapped(h.size), seconds := Swapped(h.seconds), nanoseconds := Swapped(h.nanoseconds))
  }

  lemma ConvertedTwice(h: Header)
    ensures Converted(Converted(h)) == h
  {
    SwappedIsNetworkOrder(h.size);
    SwappedIsNetworkOrder(h.seconds);
    SwappedIsNetworkOrder(h.nanoseconds);
  }

  /** The caller's storage for a header. */
  class Packet {
    var ptype: byte
    var status: byte
    var isNull: byte
    var pad: byte
    var size: word
    var seconds: word
    var nanoseconds: word

    constructor (h: Header)
      ensures View() == h
    {
      ptype, status, isNull, pad := h.ptype, h.status, h.isNull, h.pad;
      size, seconds, nanoseconds := h.size, h.seconds, h.nanoseconds;
    }

    function View(): Header
      reads this
    {
      Header(ptype, status, isNull, pad, size, seconds, nanoseconds)
    }

    method Set(h: Header)
      modifies this
      ensures View() == h
    {
      ptype, status, isNull, pad := h.ptype, h.status, h.isNull, h.pad;
      size, seconds, nanoseconds := h.size, h.seconds, h.nanoseconds;
    }
  }

  /** What a header and the data given with it put on the wire. */
  function Wire(h: Header, data: Option<seq<byte>>): seq<byte> {
    Memory(Converted(h)) + (if data.Some? then data.value else [])
  }

  /** Sends a packet. The header is converted in place, so the caller gets it back in network byte order. Of the
      data, as many bytes are sent as the header says. */
  method SendPacket(fd: Stream, pkt: Packet, data: array?<byte>) returns (r: int)
    requires data != null ==> pkt.size <= data.Length
    modifies fd, pkt
    ensures Later(old(fd.schedule), fd.schedule)
    ensures r == if Fails in Used(old(fd.schedule), fd.schedule) then -1 else 0
    ensures pkt.View() == Converted(old(pkt.View()))
    ensures r == 0 ==>
        fd.bytes == old(fd.bytes) + Wire(old(pkt.View()), if data == null then None else Some(data[..old(pkt.size)]))
  {
    var oldSize := if data != null then pkt.size else 0;
    pkt.size := Swapped(pkt.size);
    pkt.seconds := Swapped(pkt.seconds);
    pkt.nanoseconds := Swapped(pkt.nanoseconds);
    var bytes := Memory(pkt.View());
    assert pkt.View() == Converted(old(pkt.View()));
    hide Memory, Swapped, Converted;
    var header := new byte[HEADER_SIZE](i requires 0 <= i < HEADER_SIZE => bytes[i]);
    assert header[..] == bytes;
    r := SendBytes(fd, header, data, oldSize);
  }

  /** The header and then, if there are any, the first size bytes of the data. */
  method SendBytes(fd: Stream, header: array<byte>, data: array?<byte>, size: nat) returns (r: int)
    requires header.Length == HEADER_SIZE && if data == null then size == 0 else size <= data.Length
    modifies fd
    ensures Later(old(fd.schedule), fd.schedule)
    ensures r == if Fails in Used(old(fd.schedule), fd.schedule) then -1 else 0
    ensures r == 0 ==> fd.bytes == old(fd.bytes) + (header[..] + (if data == null then [] else data[..size]))
  {
    var w := RioWriten(fd, header, HEADER_SIZE);
    assert header[..HEADER_SIZE] == header[..];
    ghost var middle := fd.schedule;
    UsedInTurn(old(fd.schedule), middle, middle);
    if w < 0 {
      return -1;
    }
    if size != 0 {
      hide Later, Used;
      w := RioWriten(fd, data, size);
      UsedInTurn(old(fd.schedule), middle, fd.schedule);
      if w < 0 {
        return -1;
      }
    }
    return 0;
  }

  lemma UsedInTurn(a: seq<Outcome>, b: seq<Outcome>, c: seq<Outcome>)
    requires Later(a, b) && Later(b, c)
    ensures Later(a, c) && Used(a, c) == Used(a, b) + Used(b, c)
  {
  }

  function Zeros(n: nat): (z: seq<byte>)
    ensures |z| == n && forall i | 0 <= i < n :: z[i] == 0
  {
    seq(n, _ => 0)
  }

  /** What is received from a stream of bytes into storage whose memory is mem, if no call fails. */
  datatype Received = Got(h: Header, data: Option<seq<byte>>, rest: seq<byte>) | Failed

  function Receive(bytes: seq<byte>, mem: seq<byte>, wanted: bool): Received
    requires |mem| == HEADER_SIZE
  {
    var n := Min(HEADER_SIZE, |bytes|);
    if n == 0 then Failed
    else
      var h := Converted(FromMemory(bytes[..n] + mem[n..]));
      ReceivePayload(h, bytes[n..], wanted)
  }

  function ReceivePayload(h: Header, bytes: seq<byte>, wanted: bool): (r: Received)
    ensures r.Got? ==> r.h == h
  {
    if !wanted || h.size == 0 then Got(h, None, bytes)
    else
      var k := Min(h.size, |bytes|);
      if k == 0 then Failed else Got(h, Some(bytes[..k] + Zeros(h.size - k)), bytes[k..])
  }

  /** Receives a packet; its payload only if it is wanted. The caller's pointer, which was `was`, is written only
      when a payload arrives. The end of the stream is noticed only where nothing at
      all could be read: at the start of the header, or at the start of a payload. */
  method RecvPacket(fd: Stream, pkt: Packet, wanted: bool, was: array?<byte>)
    returns (r: int, data: array?<byte>)
    modifies fd, pkt
    ensures Later(old(fd.schedule), fd.schedule)
    ensures Fails in Used(old(fd.schedule), fd.schedule) ==> r == -1
    ensures r == -1 ==> data == was
    ensures Fails !in Used(old(fd.schedule), fd.schedule) ==>
      match Receive(old(fd.bytes), Memory(old(pkt.View())), wanted)
      case Failed => r == -1
      case Got(h, d, rest) =>
        && r == 0 && pkt.View() == h && fd.bytes == rest
        && (if d.Some? then data != null && fresh(data) && data[..] == d.value else data == was)
  {
    data := was;
    var bytes := Memory(pkt.View());
    var header := new byte[HEADER_SIZE](i requires 0 <= i < HEADER_SIZE => bytes[i]);
    assert header[..] == bytes;
    hide Memory, Swapped, FromMemory;
    var n := RioReadn(fd, header, HEADER_SIZE);
    if n <= 0 {
      return -1, was;
    }
    pkt.Set(FromMemory(header[..]));
    pkt.size := Swapped(pkt.size);
    pkt.seconds := Swapped(pkt.seconds);
    pkt.nanoseconds := Swapped(pkt.nanoseconds);
    assert pkt.View() == Converted(FromMemory(header[..]));
    ghost var middle := fd.schedule;
    hide Later, Used, Converted, ReceivePayload;
    r, data := RecvPayload(fd, pkt.View(), wanted, was);
    UsedInTurn(old(fd.schedule), middle, fd.schedule);
  }

  /** If the length field of the header is nonzero, the payload. */
  method RecvPayload(fd: Stream, h: Header, wanted: bool, was: array?<byte>) returns (r: int, data: array?<byte>)
    modifies fd
    ensures Later(old(fd.schedule), fd.schedule)
    ensures Fails in Used(old(fd.schedule), fd.schedule) ==> r == -1
    ensures r == -1 ==> data == was
    ensures Fails !in Used(old(fd.schedule), fd.schedule) ==>
      match ReceivePayload(h, old(fd.bytes), wanted)
      case Failed => r == -1
      case Got(_, d, rest) =>
        && r == 0 && fd.bytes == rest
        && (if d.Some? then data != null && fresh(data) && data[..] == d.value else data == was)
  {
    data := was;
    if wanted && h.size != 0 {
      var temp := new byte[h.size](i => 0);
      assert temp[..] == Zeros(h.size);
      var k := RioReadn(fd, temp, h.size);
      if k <= 0 {
        return -1, was;
      }
      assert Zeros(h.size)[k..] == Zeros(h.size - k);
      data := temp;
    }
    return 0, data;
  }

  // ---------------------------------------------------------------------------------------------
  // What arrives
  // ---------------------------------------------------------------------------------------------

  datatype Message = Message(h: Header, data: Option<seq<byte>>)

  /** The data, if there is any, is as long as the header says. */
  ghost predicate Sendable(m: Message) {
    m.data.Some? ==> |m.data.value| == m.h.size
  }

  /** There is data exactly when the header announces some. */
  ghost predicate Matched(m: Message) {
    m.data.Some? <==> m.h.size != 0
  }

  /** A word most significant byte first, as the network has it. */
  function NetworkBytes(w: word): seq<byte> {
    [w / 0x100_0000, (w / 0x1_0000) % 0x100, (w / 0x100) % 0x100, w % 0x100]
  }

  /** The word that four bytes from position i on stand for in network order. */
  function NetworkWord(b: seq<byte>, i: nat): word
    requires i + 4 <= |b|
  {
    (b[i] as int) * 0x100_0000 + (b[i + 1] as int) * 0x1_0000 + (b[i + 2] as int) * 0x100 + b[i + 3] as int
  }

  /** On the wire a packet is four single bytes, the size and the two times in network order, and the data. */
  lemma WireLayout(h: Header, data: Option<seq<byte>>)
    ensures Wire(h, data) ==
      [h.ptype, h.status, h.isNull, h.pad]
      + NetworkBytes(h.size) + NetworkBytes(h.seconds) + NetworkBytes(h.nanoseconds)
      + (if data.Some? then data.value else [])
  {
    SwappedIsNetworkOrder(h.size);
    SwappedIsNetworkOrder(h.seconds);
    SwappedIsNetworkOrder(h.nanoseconds);
    hide Swapped;
  }

  lemma SwappedWord(b: seq<byte>, i: nat)
    requires i + 4 <= |b|
    ensures Swapped(FromBytes(b[i..i + 4])) == NetworkWord(b, i)
  {
    var four := b[i..i + 4];
    WordOfBytes(four);
    assert Reversed(four) == [b[i + 3], b[i + 2], b[i + 1], b[i]];
  }

  /** And from those places the header of a received packet is read, whatever bytes arrive. A header cut short is
      completed with what the caller's storage held. */
  lemma ReceivedLayout(bytes: seq<byte>, mem: seq<byte>, wanted: bool)
    requires |mem| == HEADER_SIZE
    ensures bytes == [] ==> Receive(bytes, mem, wanted) == Failed
    ensures var n, r := Min(HEADER_SIZE, |bytes|), Receive(bytes, mem, wanted);
      var b := bytes[..n] + mem[n..];
      r.Got? ==> r.h == Header(b[0], b[1], b[2], b[3], NetworkWord(b, 4), NetworkWord(b, 8), NetworkWord(b, 12))
    ensures !wanted && bytes != [] ==>
      var r := Receive(bytes, mem, wanted); r.Got? && r.data == None && r.rest == bytes[Min(HEADER_SIZE, |bytes|)..]
  {
    var n := Min(HEADER_SIZE, |bytes|);
    var b := bytes[..n] + mem[n..];
    SwappedWord(b, 4);
    SwappedWord(b, 8);
    SwappedWord(b, 12);
    hide Swapped, NetworkWord, FromBytes;
  }

  lemma ReceiveHeader(h: Header, tail: seq<byte>, mem: seq<byte>, wanted: bool)
    requires |mem| == HEADER_SIZE
    ensures Receive(Memory(Converted(h)) + tail, mem, wanted) == ReceivePayload(h, tail, wanted)
  {
    var bytes := Memory(Converted(h)) + tail;
    MemoryRoundTrip(Converted(h), mem);
    ConvertedTwice(h);
    hide Memory, FromMemory, Converted, ReceivePayload;
    assert bytes[..HEADER_SIZE] + mem[HEADER_SIZE..] == Memory(Converted(h));
    assert bytes[HEADER_SIZE..] == tail;
  }

  lemma WireIsHeaderAndData(m: Message, rest: seq<byte>)
    ensures Wire(m.h, m.data) + rest
         == Memory(Converted(m.h)) + ((if m.data.Some? then m.data.value else []) + rest)
  {
    hide Memory, Converted;
    var header, payload := Memory(Converted(m.h)), if m.data.Some? then m.data.value else [];
    assert (header + payload) + rest == header + (payload + rest);
  }

  lemma ReceiveMatched(m: Message, rest: seq<byte>, mem: seq<byte>)
    requires Sendable(m) && Matched(m) && |mem| == HEADER_SIZE
    ensures Receive(Wire(m.h, m.data) + rest, mem, true) == Got(m.h, m.data, rest)
  {
    WireIsHeaderAndData(m, rest);
    hide Receive, Wire, Memory, Converted;
    var payload := if m.data.Some? then m.data.value else [];
    ReceiveHeader(m.h, payload + rest, mem, true);
    if m.data.Some? {
      assert (payload + rest)[..m.h.size] == payload && (payload + rest)[m.h.size..] == rest;
      assert payload + Zeros(0) == payload;
    } else {
      assert payload + rest == rest;
    }
  }

  lemma ReceiveUnmatched(m: Message, rest: seq<byte>, mem: seq<byte>)
    requires Sendable(m) && !Matched(m) && |mem| == HEADER_SIZE
    ensures var r := Receive(Wire(m.h, m.data) + rest, mem, true); r.Got? ==> r.data.Some? != m.data.Some?
  {
    WireIsHeaderAndData(m, rest);
    hide Receive, Wire, Memory, Converted;
    ReceiveHeader(m.h, (if m.data.Some? then m.data.value else []) + rest, mem, true);
  }

  /** A packet arrives as it was sent, and the stream is left at the start of what follows it, if and only if
      there was data exactly when the header announced some. */
  lemma ReceiveSent(m: Message, rest: seq<byte>, mem: seq<byte>)
    requires Sendable(m) && |mem| == HEADER_SIZE
    ensures Receive(Wire(m.h, m.data) + rest, mem, true) == Got(m.h, m.data, rest) <==> Matched(m)
  {
    hide *;
    if Matched(m) {
      ReceiveMatched(m, rest, mem);
    } else {
      ReceiveUnmatched(m, rest, mem);
    }
  }

  /** A packet that announces a byte of data and has none does not arrive as it was sent. */
  lemma SizeWithoutData(rest: seq<byte>, mem: seq<byte>)
    requires |mem| == HEADER_SIZE
    ensures var h := Header(3, 0, 1, 0, 1, 0, 0); Receive(Wire(h, None) + rest, mem, true) != Got(h, None, rest)
  {
    ReceiveSent(Message(Header(3, 0, 1, 0, 1, 0, 0), None), rest, mem);
  }

  function WireAll(ms: seq<Message>): seq<byte> {
    if ms == [] then [] else Wire(ms[0].h, ms[0].data) + WireAll(ms[1..])
  }

  /** k packets received one after the other: whether all arrived, the packets, and what is left. */
  function ReceiveAll(k: nat, bytes: seq<byte>, mem: seq<byte>): (bool, seq<Message>, seq<byte>)
    requires |mem| == HEADER_SIZE
  {
    if k == 0 then (true, [], bytes)
    else
      match Receive(bytes, mem, true)
      case Failed => (false, [], bytes)
      case Got(h, data, rest) =>
        var r := ReceiveAll(k - 1, rest, mem);
        (r.0, [Message(h, data)] + r.1, r.2)
  }

  lemma {:induction false} AllMatchedArrive(ms: seq<Message>, rest: seq<byte>, mem: seq<byte>)
    requires |mem| == HEADER_SIZE && forall m | m in ms :: Sendable(m) && Matched(m)
    ensures ReceiveAll(|ms|, WireAll(ms) + rest, mem) == (true, ms, rest)
  {
    if ms == [] {
      assert WireAll(ms) + rest == rest;
    } else {
      var m, tail := ms[0], WireAll(ms[1..]) + rest;
      Regroup(Wire(m.h, m.data), WireAll(ms[1..]), rest);
      assert WireAll(ms) + rest == Wire(m.h, m.data) + tail;
      assert ms == [m] + ms[1..] && m in ms;
      hide Receive, Wire, WireAll, Matched, Sendable;
      AllMatchedArrive(ms[1..], rest, mem);
      ReceiveMatched(m, tail, mem);
    }
  }

  lemma FirstUnmatchedDoesNot(ms: seq<Message>, bytes: seq<byte>, tail: seq<byte>, rest: seq<byte>, mem: seq<byte>)
    requires |mem| == HEADER_SIZE && ms != [] && Sendable(ms[0]) && !Matched(ms[0])
    requires bytes == Wire(ms[0].h, ms[0].data) + tail
    ensures ReceiveAll(|ms|, bytes, mem) != (true, ms, rest)
  {
    ReceiveFirst(|ms|, bytes, mem);
    hide *;
    ReceiveUnmatched(ms[0], tail, mem);
  }

  lemma LaterUnmatchedDoesNot(ms: seq<Message>, bytes: seq<byte>, tail: seq<byte>, rest: seq<byte>, mem: seq<byte>)
    requires |mem| == HEADER_SIZE && ms != [] && Sendable(ms[0]) && Matched(ms[0])
    requires bytes == Wire(ms[0].h, ms[0].data) + tail
    requires ReceiveAll(|ms| - 1, tail, mem) != (true, ms[1..], rest)
    ensures ReceiveAll(|ms|, bytes, mem) != (true, ms, rest)
  {
    hide *;
    var m, r := ms[0], ReceiveAll(|ms| - 1, tail, mem);
    ReceiveFirst(|ms|, bytes, mem);
    ReceiveMatched(m, tail, mem);
    assert ReceiveAll(|ms|, bytes, mem) == (r.0, [m] + r.1, r.2);
    assert ms == [m] + ms[1..];
    HeadTail(m, r.1, m, ms[1..]);
  }

  lemma {:induction false} OneUnmatchedDoesNot(ms: seq<Message>, rest: seq<byte>, mem: seq<byte>)
    requires |mem| == HEADER_SIZE && forall m | m in ms :: Sendable(m)
    requires exists m :: m in ms && !Matched(m)
    ensures ReceiveAll(|ms|, WireAll(ms) + rest, mem) != (true, ms, rest)
  {
    var m, tail := ms[0], WireAll(ms[1..]) + rest;
    assert m in ms && ms == [m] + ms[1..];
    Regroup(Wire(m.h, m.data), WireAll(ms[1..]), rest);
    hide ReceiveAll, Wire, Matched, Sendable;
    if !Matched(m) {
      FirstUnmatchedDoesNot(ms, WireAll(ms) + rest, tail, rest, mem);
    } else {
      OneUnmatchedDoesNot(ms[1..], rest, mem);
      LaterUnmatchedDoesNot(ms, WireAll(ms) + rest, tail, rest, mem);
    }
  }

  /** A whole conversation arrives as it was sent, and nothing else is touched, if and only if every packet had
      data exactly when its header announced some. */
  lemma ReceiveAllSent(ms: seq<Message>, rest: seq<byte>, mem: seq<byte>)
    requires |mem| == HEADER_SIZE && forall m | m in ms :: Sendable(m)
    ensures ReceiveAll(|ms|, WireAll(ms) + rest, mem) == (true, ms, rest) <==> forall m | m in ms :: Matched(m)
  {
    if forall m | m in ms :: Matched(m) {
      AllMatchedArrive(ms, rest, mem);
    } else {
      OneUnmatchedDoesNot(ms, rest, mem);
    }
  }

  lemma ReceiveFirst(k: nat, bytes: seq<byte>, mem: seq<byte>)
    requires k > 0 && |mem| == HEADER_SIZE
    ensures match Receive(bytes, mem, true)
      case Failed => !ReceiveAll(k, bytes, mem).0
      case Got(h, data, rest) =>
        var r := ReceiveAll(k - 1, rest, mem); ReceiveAll(k, bytes, mem) == (r.0, [Message(h, data)] + r.1, r.2)
  {
  }

  /** When the stream ends inside a payload, the packet is received all the same, with zeros for what is missing. */
  lemma CutPayloadIsFilled(m: Message, k: nat, mem: seq<byte>)
    requires Sendable(m) && Matched(m) && |mem| == HEADER_SIZE
    requires HEADER_SIZE < k < |Wire(m.h, m.data)|
    ensures var n := k - HEADER_SIZE;
      Receive(Wire(m.h, m.data)[..k], mem, true) == Got(m.h, Some(m.data.value[..n] + Zeros(m.h.size - n)), [])
  {
    var header, data := Memory(Converted(m.h)), m.data.value;
    var tail := data[..k - HEADER_SIZE];
    assert Wire(m.h, m.data) == header + data;
    assert m.data == Some(data) && |data| == m.h.size;
    hide *;
    PrefixOfConcat(header, data, k);
    ReceiveHeader(m.h, tail, mem, true);
    ReceiveCut(m.h, tail);
  }

  /** A payload cut off at any place, its ends included, is refused or arrives as it was sent, exactly when none of
      it is there or all that is missing is zero. */
  lemma PayloadWholeOrRefusedIff(m: Message, k: nat, mem: seq<byte>)
    requires Sendable(m) && Matched(m) && m.data.Some? && |mem| == HEADER_SIZE
    requires HEADER_SIZE <= k <= |Wire(m.h, m.data)|
    ensures |m.data.value| == m.h.size == |Wire(m.h, m.data)| - HEADER_SIZE
    ensures var n, r := k - HEADER_SIZE, Receive(Wire(m.h, m.data)[..k], mem, true);
      r.Failed? || (r.h == m.h && r.data == m.data) <==>
      n == 0 || m.data.value[n..] == Zeros(m.h.size - n)
  {
    var header, data, n := Memory(Converted(m.h)), m.data.value, k - HEADER_SIZE;
    assert Wire(m.h, m.data) == header + data && |data| == m.h.size;
    if n == 0 {
      assert Wire(m.h, m.data)[..k] == header + [];
      hide *;
      ReceiveHeader(m.h, [], mem, true);
      ReceiveNothing(m.h);
    } else if n == m.h.size {
      assert Wire(m.h, m.data)[..k] == Wire(m.h, m.data) + [];
      assert data[n..] == [] == Zeros(0);
      hide Receive, Wire;
      ReceiveMatched(m, [], mem);
    } else {
      hide *;
      CutPayloadIsFilled(m, k, mem);
      FilledIsWhole(data, n);
    }
  }

  lemma ReceiveNothing(h: Header)
    requires h.size > 0
    ensures ReceivePayload(h, [], true) == Failed
  {
  }

  lemma FilledIsWhole(data: seq<byte>, n: nat)
    requires n <= |data|
    ensures data[..n] + Zeros(|data| - n) == data <==> data[n..] == Zeros(|data| - n)
  {
    var filled := data[..n] + Zeros(|data| - n);
    assert data == data[..n] + data[n..];
    assert filled[n..] == Zeros(|data| - n);
  }

  /** A payload of 5 and 6, cut off in between, arrives as 5 and 0. */
  lemma CutPayloadArrives(h: Header, mem: seq<byte>)
    requires h.size == 2 && |mem| == HEADER_SIZE
    ensures |Wire(h, Some([5, 6]))| == HEADER_SIZE + 2
    ensures Receive(Wire(h, Some([5, 6]))[..HEADER_SIZE + 1], mem, true) == Got(h, Some([5, 0]), [])
  {
    var m := Message(h, Some([5, 6]));
    assert Sendable(m) && Matched(m);
    WireLength(m);
    hide *;
    CutPayloadIsFilled(m, HEADER_SIZE + 1, mem);
    assert [5, 6][..1] + Zeros(1) == [5, 0];
  }

  lemma WireLength(m: Message)
    requires Sendable(m)
    ensures |Wire(m.h, m.data)| == HEADER_SIZE + if m.data.Some? then m.h.size else 0
  {
  }

  lemma ReceiveCut(h: Header, bytes: seq<byte>)
    requires 0 < |bytes| < h.size
    ensures ReceivePayload(h, bytes, true) == Got(h, Some(bytes + Zeros(h.size - |bytes|)), [])
  {
    assert bytes[..|bytes|] == bytes && bytes[|bytes|..] == [];
  }

  lemma PrefixOfConcat(a: seq<byte>, b: seq<byte>, k: nat)
    requires |a| <= k <= |a| + |b|
    ensures (a + b)[..k] == a + b[..k - |a|]
  {
  }

  // ---------------------------------------------------------------------------------------------
  // A conversation
  // ---------------------------------------------------------------------------------------------

  lemma {:induction false} WireAllNext(ms: seq<Message>, m: Message)
    ensures WireAll(ms + [m]) == WireAll(ms) + Wire(m.h, m.data)
  {
    if ms == [] {
      assert [m][1..] == [];
    } else {
      WireAllNext(ms[1..], m);
      hide Wire;
      assert (ms + [m])[1..] == ms[1..] + [m];
      assert Wire(ms[0].h, ms[0].data) + (WireAll(ms[1..]) + Wire(m.h, m.data))
          == (Wire(ms[0].h, ms[0].data) + WireAll(ms[1..])) + Wire(m.h, m.data);
    }
  }

  /** Sends one message, from storage of its own. */
  method SendMessage(fd: Stream, m: Message) returns (ok: bool)
    requires Sendable(m)
    modifies fd
    ensures Later(old(fd.schedule), fd.schedule)
    ensures ok <==> Fails !in Used(old(fd.schedule), fd.schedule)
    ensures ok ==> fd.bytes == old(fd.bytes) + Wire(m.h, m.data)
  {
    var pkt := new Packet(m.h);
    var data: array?<byte> := null;
    if m.data.Some? {
      var payload := m.data.value;
      var buffer := new byte[|payload|](i requires 0 <= i < |payload| => payload[i]);
      assert buffer[..] == payload && buffer[..m.h.size] == payload;
      data := buffer;
    }
    hide Later, Used, Wire;
    var r := SendPacket(fd, pkt, data);
    ok := r == 0;
  }

  /** Receives one message into cleared storage. */
  method ReceiveMessage(fd: Stream) returns (r: Option<Message>)
    modifies fd
    ensures Later(old(fd.schedule), fd.schedule)
    ensures Fails in Used(old(fd.schedule), fd.schedule) ==> r == None
    ensures Fails !in Used(old(fd.schedule), fd.schedule) ==>
      match Receive(old(fd.bytes), Memory(CLEARED), true)
      case Failed => r == None
      case Got(h, data, rest) => r == Some(Message(h, data)) && fd.bytes == rest
  {
    var pkt := new Packet(CLEARED);
    hide Later, Used, Receive, Memory;
    var status, data := RecvPacket(fd, pkt, true, null);
    if status == 0 {
      r := Some(Message(pkt.View(), if data == null then None else Some(data[..])));
    } else {
      r := None;
    }
  }

  const CLEARED := Header(0, 0, 0, 0, 0, 0, 0)

  lemma SentNext(bytes: seq<byte>, ms: seq<Message>, i: nat)
    requires i < |ms|
    ensures bytes + WireAll(ms[..i + 1]) == bytes + WireAll(ms[..i]) + Wire(ms[i].h, ms[i].data)
  {
    assert ms[..i + 1] == ms[..i] + [ms[i]];
    WireAllNext(ms[..i], ms[i]);
    Regroup(bytes, WireAll(ms[..i]), Wire(ms[i].h, ms[i].data));
    hide *;
  }

  method SendAll(fd: Stream, ms: seq<Message>) returns (ok: bool)
    requires forall m | m in ms :: Sendable(m)
    modifies fd
    ensures Later(old(fd.schedule), fd.schedule)
    ensures ok <==> Fails !in Used(old(fd.schedule), fd.schedule)
    ensures ok ==> fd.bytes == old(fd.bytes) + WireAll(ms)
  {
    ghost var schedule, bytes := fd.schedule, fd.bytes;
    assert Later(schedule, schedule) && Used(schedule, schedule) == [];
    assert ms[..0] == [] && bytes + WireAll([]) == bytes;
    hide Later, Used, WireAll, Wire, Sendable;
    for i := 0 to |ms|
      invariant Later(schedule, fd.schedule) && Fails !in Used(schedule, fd.schedule)
      invariant fd.bytes == bytes + WireAll(ms[..i])
    {
      ghost var before := fd.schedule;
      SentNext(bytes, ms, i);
      var sent := SendMessage(fd, ms[i]);
      UsedInTurn(schedule, before, fd.schedule);
      if !sent {
        return false;
      }
    }
    assert ms[..|ms|] == ms;
    return true;
  }

  /** A received prefix in front of what is received later. */
  function Behind(ms: seq<Message>, r: (bool, seq<Message>, seq<byte>)): (bool, seq<Message>, seq<byte>) {
    (r.0, ms + r.1, r.2)
  }

  lemma ReceiveOneMore(ms: seq<Message>, k: nat, bytes: seq<byte>, mem: seq<byte>)
    requires k > 0 && |mem| == HEADER_SIZE
    ensures match Receive(bytes, mem, true)
      case Failed => !Behind(ms, ReceiveAll(k, bytes, mem)).0
      case Got(h, data, rest) =>
        Behind(ms, ReceiveAll(k, bytes, mem)) == Behind(ms + [Message(h, data)], ReceiveAll(k - 1, rest, mem))
  {
    ReceiveFirst(k, bytes, mem);
    var got := Receive(bytes, mem, true);
    hide Receive, ReceiveAll;
    if got.Got? {
      Regroup(ms, [Message(got.h, got.data)], ReceiveAll(k - 1, got.rest, mem).1);
    }
  }

  lemma BehindEnds(r: (bool, seq<Message>, seq<byte>), ms: seq<Message>, bytes: seq<byte>)
    ensures Behind([], r) == r && Behind(ms, (true, [], bytes)) == (true, ms, bytes)
  {
    assert [] + r.1 == r.1 && ms + [] == ms;
  }

  /** Receives k messages, as the specification of reception says. */
  method ReceiveMessages(fd: Stream, k: nat) returns (ok: bool, ms: seq<Message>)
    modifies fd
    ensures Later(old(fd.schedule), fd.schedule)
    ensures Fails in Used(old(fd.schedule), fd.schedule) ==> !ok
    ensures Fails !in Used(old(fd.schedule), fd.schedule) ==>
      var r := ReceiveAll(k, old(fd.bytes), Memory(CLEARED)); ok == r.0 && (ok ==> ms == r.1 && fd.bytes == r.2)
  {
    ghost var schedule, all := fd.schedule, ReceiveAll(k, fd.bytes, Memory(CLEARED));
    assert Later(schedule, schedule) && Used(schedule, schedule) == [];
    BehindEnds(all, [], []);
    ms := [];
    hide Later, Used, Receive, ReceiveAll, Behind, Memory;
    for i := 0 to k
      invariant Later(schedule, fd.schedule) && Fails !in Used(schedule, fd.schedule)
      invariant all == Behind(ms, ReceiveAll(k - i, fd.bytes, Memory(CLEARED)))
    {
      ghost var before := fd.schedule;
      ReceiveOneMore(ms, k - i, fd.bytes, Memory(CLEARED));
      var m := ReceiveMessage(fd);
      UsedInTurn(schedule, before, fd.schedule);
      if m == None {
        return false, ms;
      }
      ms := ms + [m.value];
    }
    ReceiveNone(fd.bytes, Memory(CLEARED));
    BehindEnds(all, ms, fd.bytes);
    return true, ms;
  }

  lemma ReceiveNone(bytes: seq<byte>, mem: seq<byte>)
    requires |mem| == HEADER_SIZE
    ensures ReceiveAll(0, bytes, mem) == (true, [], bytes)
  {
  }

  /** Sends messages over a fresh connection and receives as many at its other end. However the writes and the
      reads are cut and interrupted, as long as none fails, the messages received are those sent, if every one has
      data exactly when its header announces some; and nothing is left on the way. */
  method Converse(ms: seq<Message>, sending: seq<Outcome>, receiving: seq<Outcome>)
    returns (ok: bool, received: seq<Message>, rest: seq<byte>)
    requires forall m | m in ms :: Sendable(m) && Matched(m)
    ensures Fails !in sending && Fails !in receiving ==> ok
    ensures ok ==> received == ms && rest == []
  {
    var fd := new Stream(sending);
    ok := SendAll(fd, ms);
    if !ok {
      return false, [], fd.bytes;
    }
    AllMatchedArrive(ms, [], Memory(CLEARED));
    assert fd.bytes == WireAll(ms) + [];
    fd.schedule := receiving;
    hide Memory, ReceiveAll, WireAll, Sendable, Matched;
    ok, received := ReceiveMessages(fd, |ms|);
    rest := fd.bytes;
  }
}
