/** The reading side of the FastCGI client of fcli.c: a socket that delivers its bytes in arbitrary pieces,
    and the loop that sorts the records of the reply into buffers. */
module FcgiClient {
  import opened FcgiRecords
  import opened Octets

  /** A connection: what the server has sent and not been read yet, how many bytes each read is going to get,
      and whether reading fails or ends when nothing is left. */
  class Socket {
    var incoming: seq<Octet>
    var cuts: seq<nat>
    const broken: bool

    constructor (bytes: seq<Octet>, pieces: seq<nat>, fails: bool)
      ensures incoming == bytes && broken == fails
    {
      incoming, cuts, broken := bytes, pieces, fails;
    }

    // read(2)
    method Read(buf: array<Octet>, at: nat, len: nat) returns (res: int)
      requires 0 < len && at + len <= buf.Length
      modifies this, buf
      ensures if old(incoming) == [] then res == (if broken then -1 else 0) && incoming == [] && buf[..] == old(buf[..])
              else 1 <= res <= len && res <= |old(incoming)| && incoming == old(incoming)[res..]
                   && buf[..] == old(buf[..])[..at] + old(incoming)[..res] + old(buf[..])[at + res..]
    {
      if incoming == [] { return if broken then -1 else 0; }
      var n := if cuts == [] then len else cuts[0];
      if cuts != [] { cuts := cuts[1..]; }
      if n < 1 { n := 1; }
      if n > len { n := len; }
      if n > |incoming| { n := |incoming|; }
      forall k | 0 <= k < n { buf[at + k] := incoming[k]; }
      incoming := incoming[n..];
      return n;
    }
  }

  // realloc of a buffer whose first len bytes are used, to take n more and a final zero
  method Grow(mem: array<Octet>, len: nat, n: nat) returns (m: array<Octet>)
    requires len <= mem.Length
    ensures fresh(m) && m.Length == len + n + 1 && m[..len] == mem[..len]
  {
    m := new Octet[len + n + 1];
    forall k | 0 <= k < len { m[k] := mem[k]; }
  }

  class Client {
    const sock: Socket
    var data: array<Octet>
    var dataLen: nat
    var error: array<Octet>
    var errorLen: nat
    var other: array<Octet>
    var otherLen: nat
    var doneHeader: bool
    var msgRemain: nat
    var paddingLen: nat
    var readDone: bool
    var readStatus: Status
    var reqStatus: int

    ghost predicate Valid()
      reads this
    {
      && data != error && data != other && error != other
      && dataLen < data.Length && errorLen < error.Length && otherLen < other.Length
    }

    /** What has been received so far. */
    ghost function Got(): Reply
      reads this, data, error, other
      requires Valid()
    {
      Reply(data[..dataLen], error[..errorLen], other[..otherLen], reqStatus, readDone, readStatus)
    }

    // The error of a stream that ends too soon
    ghost function Early(): Status {
      if sock.broken then SockRead else ProtErr
    }

    // fc_edge, the start of a request
    constructor (s: Socket)
      ensures Valid() && Got() == NOTHING && sock == s && fresh(data) && fresh(error) && fresh(other)
      ensures !doneHeader && msgRemain == 0 && paddingLen == 0
    {
      sock := s;
      data, error, other := new Octet[1], new Octet[1], new Octet[1];
      dataLen, errorLen, otherLen := 0, 0, 0;
      doneHeader, msgRemain, paddingLen, readDone, readStatus, reqStatus := false, 0, 0, false, Okay, 0;
    }

    // check_read, for a length that is not positive
    method CheckRead(readLen: int)
      requires readLen <= 0 && (doneHeader || !readDone)
      modifies this`readStatus
      ensures readStatus == if readLen < 0 then SockRead else ProtErr
    {
      if readLen < 0 { readStatus := SockRead; return; }
      if doneHeader || msgRemain > 0 || paddingLen > 0 { readStatus := ProtErr; return; }
      if !readDone { readStatus := ProtErr; }
    }

    // One call of read, behind what has been read already; a length that is not positive is noted as an error.
    method ReadPiece(buf: array<Octet>, at: nat, len: nat, gotten: nat, ghost b0: seq<Octet>, ghost was: seq<Octet>)
      returns (res: int)
      requires gotten < len && at + len <= buf.Length == |b0| && (doneHeader || !readDone)
      requires gotten <= |was| && sock.incoming == was[gotten..] && Holds(buf, b0, at, was, gotten)
      modifies sock, buf, this`readStatus
      ensures if res > 0
              then gotten + res <= len && gotten + res <= |was| && sock.incoming == was[gotten + res..]
                   && readStatus == old(readStatus) && Holds(buf, b0, at, was, gotten + res)
              else |was| < len && readStatus == Early() && buf[..at] == b0[..at]
    {
      ghost var b1 := buf[..];
      res := sock.Read(buf, at + gotten, len - gotten);
      if res <= 0 {
        CheckRead(res);
      } else {
        ReadAt(b1, buf[..], was[gotten..], at + gotten, res);
      }
    }

    // What one read has changed, byte by byte
    static lemma {:induction false} ReadAt(b1: seq<Octet>, b2: seq<Octet>, rest: seq<Octet>, at: nat, n: nat)
      requires at + n <= |b1| && n <= |rest| && b2 == b1[..at] + rest[..n] + b1[at + n..]
      ensures |b2| == |b1| && forall k :: 0 <= k < |b1| ==> b2[k] == if at <= k < at + n then rest[k - at] else b1[k]
    {
    }

    // What a buffer holds when the first bytes of a stream have been put into it
    static ghost predicate Holds(buf: array<Octet>, b0: seq<Octet>, at: nat, was: seq<Octet>, n: nat)
      reads buf
    {
      && n <= |was| && at + n <= |b0| == buf.Length
      && (forall k :: 0 <= k < |b0| && !(at <= k < at + n) ==> buf[k] == b0[k])
      && (forall k :: at <= k < at + n ==> buf[k] == was[k - at])
    }

    /** vv_read_socket: however the bytes come in, either all len bytes are read or the error is noted. */
    method ReadSocket(buf: array<Octet>, at: nat, len: nat) returns (res: int)
      requires 0 < len && at + len <= buf.Length && (doneHeader || !readDone)
      modifies sock, buf, this`readStatus
      ensures if |old(sock.incoming)| >= len
              then res == len && sock.incoming == old(sock.incoming)[len..] && readStatus == old(readStatus)
                   && Holds(buf, old(buf[..]), at, old(sock.incoming), len)
              else res <= 0 && readStatus == Early() && buf[..at] == old(buf[..at])
    {
      ghost var was, b0 := sock.incoming, buf[..];
      var gotten := 0;
      while true
        invariant 0 <= gotten < len && gotten <= |was| && sock.incoming == was[gotten..]
        invariant readStatus == old(readStatus) && Holds(buf, b0, at, was, gotten)
        decreases len - gotten
      {
        res := ReadPiece(buf, at, len, gotten, b0, was);
        if res <= 0 { return; }
        gotten := gotten + res;
        if gotten >= len { break; }
      }
      return len;
    }

    // There is room for n more bytes and a final zero where content of this kind goes.
    ghost predicate Room(kind: Octet, n: nat)
      reads this
    {
      if kind == STDOUT then dataLen + n < data.Length
      else if kind == STDERR then errorLen + n < error.Length
      else otherLen + n < other.Length
    }

    // The buffer of a kind of content gets the size it needs.
    method MakeRoom(kind: Octet, n: nat)
      requires Valid()
      modifies this`data, this`error, this`other
      ensures Valid() && Got() == old(Got()) && Room(kind, n)
      ensures data == old(data) || fresh(data)
      ensures error == old(error) || fresh(error)
      ensures other == old(other) || fresh(other)
    {
      if kind == STDOUT {
        data := Grow(data, dataLen, n);
      } else if kind == STDERR {
        error := Grow(error, errorLen, n);
      } else {
        other := Grow(other, otherLen, n);
      }
    }

    // The header of the next record, which has to be of the version and for the request that are ours
    method FetchHeader() returns (ok: bool, h: Header)
      requires Valid() && !readDone && readStatus.Okay?
      modifies this`readStatus, sock
      ensures Valid()
      ensures !ok ==> Got() == Demux(old(sock.incoming), old(Got()), Early()) && !readStatus.Okay?
      ensures ok ==>
        && |old(sock.incoming)| >= HEADER_LENGTH && h == ParseHeader(old(sock.incoming))
        && h.version == VERSION && h.id == REQUEST_ID && sock.incoming == old(sock.incoming)[HEADER_LENGTH..]
        && Got() == old(Got())
    {
      ok, h := false, Header(0, 0, 0, 0, 0);
      var header := new Octet[HEADER_LENGTH];
      ghost var was := sock.incoming;
      var cnt := ReadSocket(header, 0, HEADER_LENGTH);
      if cnt <= 0 { return; }
      assert header[..] == was[..HEADER_LENGTH];
      h := ParseHeader(header[..]);
      if h.version != VERSION { readStatus := BadVer; return; }
      if h.id != REQUEST_ID { readStatus := ProtErr; return; }
      ok := true;
    }

    // The header of the next record, and a buffer of the size it asks for (fcli.c:391-441)
    method ReadHeader() returns (ok: bool, h: Header)
      requires Valid() && !doneHeader && msgRemain == 0 && paddingLen == 0 && !readDone && readStatus.Okay?
      modifies this, sock
      ensures Valid()
      ensures !ok ==> Got() == Demux(old(sock.incoming), old(Got()), Early()) && !readStatus.Okay?
      ensures ok ==>
        && |old(sock.incoming)| >= HEADER_LENGTH && h == ParseHeader(old(sock.incoming))
        && h.version == VERSION && h.id == REQUEST_ID && sock.incoming == old(sock.incoming)[HEADER_LENGTH..]
        && Got() == old(Got()) && Room(h.kind, h.length)
        && doneHeader && msgRemain == h.length && paddingLen == h.padding
      ensures data == old(data) || fresh(data)
      ensures error == old(error) || fresh(error)
      ensures other == old(other) || fresh(other)
    {
      ok, h := FetchHeader();
      if ok {
        msgRemain, paddingLen := h.length, h.padding;
        MakeRoom(h.kind, h.length);
        doneHeader := true;
      }
    }

    // The body of an end record, just read behind the other bytes (fcli.c:334-355); false is an error
    method EndRequest(cnt: nat) returns (ok: bool)
      requires Valid() && 0 < cnt && otherLen + cnt < other.Length && readStatus.Okay? && !readDone
      modifies this`readDone, this`readStatus, this`reqStatus, data, error
      ensures Valid() && Got() == Absorb(old(Got()), END_REQUEST, old(other[otherLen..otherLen + cnt]))
      ensures ok <==> readStatus.Okay?
      ensures data[dataLen] == 0 && error[errorLen] == 0
    {
      data[dataLen] := 0;
      error[errorLen] := 0;
      assert data[..dataLen] == old(data[..dataLen]) && error[..errorLen] == old(error[..errorLen]);
      if cnt != 8 { readStatus := ProtErr; return false; }
      ghost var c := other[otherLen..otherLen + cnt];
      readDone := true;
      assert c[4] == other[otherLen + 4];
      if other[otherLen + 4] != 0 { readStatus := Srv; return false; }
      BigEndian4(c[..4]);
      reqStatus := Signed32(other[otherLen] as int * 0x1000000 + other[otherLen + 1] as int * 0x10000
                            + other[otherLen + 2] as int * 0x100 + other[otherLen + 3] as int);
      return true;
    }

    // Content that goes behind the standard output
    method ReadStdout(n: nat) returns (ok: bool)
      requires Valid() && 0 < n && Room(STDOUT, n) && doneHeader
      modifies this`dataLen, this`readStatus, sock, data
      ensures Valid()
      ensures if |old(sock.incoming)| < n then !ok && Got() == old(Got()).(status := Early())
              else ok && Got() == Absorb(old(Got()), STDOUT, old(sock.incoming)[..n])
                   && sock.incoming == old(sock.incoming)[n..]
    {
      var cnt := ReadSocket(data, dataLen, n);
      if cnt <= 0 { return false; }
      assert data[..dataLen + cnt] == old(data[..dataLen]) + old(sock.incoming)[..cnt];
      dataLen := dataLen + cnt;
      ok := true;
    }

    // Content that goes behind the standard error
    method ReadStderr(n: nat) returns (ok: bool)
      requires Valid() && 0 < n && Room(STDERR, n) && doneHeader
      modifies this`errorLen, this`readStatus, sock, error
      ensures Valid()
      ensures if |old(sock.incoming)| < n then !ok && Got() == old(Got()).(status := Early())
              else ok && Got() == Absorb(old(Got()), STDERR, old(sock.incoming)[..n])
                   && sock.incoming == old(sock.incoming)[n..]
    {
      var cnt := ReadSocket(error, errorLen, n);
      if cnt <= 0 { return false; }
      assert error[..errorLen + cnt] == old(error[..errorLen]) + old(sock.incoming)[..cnt];
      errorLen := errorLen + cnt;
      ok := true;
    }

    // Any other content; an end record is interpreted and does not stay.
    method ReadOther(kind: Octet, n: nat) returns (ok: bool)
      requires Valid() && 0 < n && Room(kind, n) && doneHeader && !readDone && readStatus.Okay?
      requires kind != STDOUT && kind != STDERR
      modifies this`otherLen, this`readDone, this`readStatus, this`reqStatus
      modifies sock, data, error, other
      ensures Valid()
      ensures if |old(sock.incoming)| < n then !ok && Got() == old(Got()).(status := Early())
              else Got() == Absorb(old(Got()), kind, old(sock.incoming)[..n]) && ok == readStatus.Okay?
                   && (ok ==> sock.incoming == old(sock.incoming)[n..])
      ensures readDone ==> data[dataLen] == 0 && error[errorLen] == 0
    {
      var cnt := ReadSocket(other, otherLen, n);
      if cnt <= 0 { return false; }
      if kind == END_REQUEST {
        assert other[..otherLen] == old(other[..otherLen]);
        assert other[otherLen..otherLen + cnt] == old(sock.incoming)[..cnt];
        ok := EndRequest(cnt);
      } else {
        assert other[..otherLen + cnt] == old(other[..otherLen]) + old(sock.incoming)[..cnt];
        otherLen := otherLen + cnt;
        ok := true;
      }
    }

    // The content of a record (fcli.c:311-359); false is an error
    method ReadMessage(kind: Octet) returns (ok: bool)
      requires Valid() && 0 < msgRemain && Room(kind, msgRemain) && doneHeader && !readDone && readStatus.Okay?
      modifies this`dataLen, this`errorLen, this`otherLen, this`msgRemain, this`readDone, this`readStatus,
               this`reqStatus
      modifies sock, data, error, other
      ensures Valid()
      ensures var n := old(msgRemain);
              if |old(sock.incoming)| < n then !ok && Got() == old(Got()).(status := Early())
              else Got() == Absorb(old(Got()), kind, old(sock.incoming)[..n]) && ok == readStatus.Okay?
                   && (ok ==> sock.incoming == old(sock.incoming)[n..] && msgRemain == 0)
      ensures readDone ==> data[dataLen] == 0 && error[errorLen] == 0
    {
      if kind == STDOUT {
        ok := ReadStdout(msgRemain);
      } else if kind == STDERR {
        ok := ReadStderr(msgRemain);
      } else {
        ok := ReadOther(kind, msgRemain);
      }
      if ok { msgRemain := 0; }
    }

    // The padding of a record, which is thrown away (fcli.c:380-386)
    method ReadPadding() returns (ok: bool)
      requires Valid() && doneHeader && readStatus.Okay? && paddingLen <= 255
      modifies this`readStatus, this`paddingLen, sock
      ensures Valid()
      ensures if |old(sock.incoming)| < old(paddingLen) then !ok && readStatus == Early()
              else ok && sock.incoming == old(sock.incoming)[old(paddingLen)..] && paddingLen == 0
                   && readStatus == old(readStatus)
    {
      if paddingLen > 0 {
        var padb := new Octet[256];
        var cnt := ReadSocket(padb, 0, paddingLen);
        if cnt <= 0 { return false; }
        paddingLen := 0;
      }
      return true;
    }

    // The content of a record, and the refusal of our own (fcli.c:311-372)
    method ReadContent(kind: Octet) returns (ok: bool)
      requires Valid() && Room(kind, msgRemain) && doneHeader && !readDone && readStatus.Okay?
      modifies this`dataLen, this`errorLen, this`otherLen, this`msgRemain, this`readDone, this`readStatus,
               this`reqStatus
      modifies sock, data, error, other
      ensures Valid()
      ensures var n := old(msgRemain);
              if |old(sock.incoming)| < n then !ok && Got() == old(Got()).(status := Early())
              else Got() == AfterContent(old(Got()), kind, old(sock.incoming)[..n]) && ok == readStatus.Okay?
                   && (ok ==> sock.incoming == old(sock.incoming)[n..] && msgRemain == 0)
      ensures readDone ==> data[dataLen] == 0 && error[errorLen] == 0
    {
      if msgRemain > 0 {
        ok := ReadMessage(kind);
        if !ok { return; }
      }
      if kind == UNKNOWN_TYPE {
        readStatus := Unk;
        return false;
      }
      return true;
    }

    // What follows a header (fcli.c:308-388); false ends the reading
    method ReadBody(h: Header) returns (ok: bool)
      requires Valid() && Room(h.kind, h.length) && doneHeader && !readDone && readStatus.Okay?
      requires msgRemain == h.length && paddingLen == h.padding <= 255
      modifies this`dataLen, this`errorLen, this`otherLen, this`msgRemain, this`readDone, this`readStatus,
               this`reqStatus
      modifies this`doneHeader, this`paddingLen, sock, data, error, other
      ensures Valid() && Got() == Body(h, old(sock.incoming), old(Got()), Early())
      ensures ok == readStatus.Okay?
      ensures ok ==> h.length + h.padding <= |old(sock.incoming)|
                     && sock.incoming == old(sock.incoming)[h.length + h.padding..]
                     && !doneHeader && msgRemain == 0 && paddingLen == 0
      ensures readDone ==> data[dataLen] == 0 && error[errorLen] == 0
    {
      ok := ReadContent(h.kind);
      if !ok { return; }
      ok := ReadPadding();
      if !ok { return; }
      doneHeader := false;
    }

    // Between two records of a stream whose outcome is the target
    ghost predicate BeforeRecord(target: Reply)
      reads this, sock, data, error, other
    {
      && Valid() && readStatus.Okay? && !readDone
      && !doneHeader && msgRemain == 0 && paddingLen == 0 && Demux(sock.incoming, Got(), Early()) == target
    }

    // Behind the header of a record; hb is the stream from the header on.
    ghost predicate BehindHeader(h: Header, hb: seq<Octet>, target: Reply)
      reads this, sock, data, error, other
    {
      && Valid() && readStatus.Okay? && !readDone
      && doneHeader && msgRemain == h.length && paddingLen == h.padding && Room(h.kind, h.length)
      && |hb| >= HEADER_LENGTH && hb[HEADER_LENGTH..] == sock.incoming && Demux(hb, Got(), Early()) == target
      && h == ParseHeader(hb) && h.version == VERSION && h.id == REQUEST_ID
    }

    ghost predicate Ended(target: Reply)
      reads this, data, error, other
    {
      Valid() && Got() == target && (readStatus.Okay? ==> readDone && data[dataLen] == 0 && error[errorLen] == 0)
    }

    // The header of a record; a false result ends the reply.
    method TakeHeader(ghost target: Reply) returns (ok: bool, h: Header, ghost hb: seq<Octet>)
      requires BeforeRecord(target)
      modifies this, sock
      ensures data == old(data) || fresh(data)
      ensures error == old(error) || fresh(error)
      ensures other == old(other) || fresh(other)
      ensures if ok then BehindHeader(h, hb, target) && |sock.incoming| < |old(sock.incoming)| else Ended(target)
    {
      hb := sock.incoming;
      ok, h := ReadHeader();
    }

    // The body of a record; a false result ends the reply.
    method TakeBody(h: Header, ghost hb: seq<Octet>, ghost target: Reply) returns (more: bool)
      requires BehindHeader(h, hb, target)
      modifies this`dataLen, this`errorLen, this`otherLen, this`msgRemain, this`readDone, this`readStatus,
               this`reqStatus
      modifies this`doneHeader, this`paddingLen, sock, data, error, other
      ensures if more then BeforeRecord(target) && |sock.incoming| <= |old(sock.incoming)| else Ended(target)
    {
      DemuxBody(hb, Got(), Early());
      var ok := ReadBody(h);
      more := ok && !readDone;
    }

    /** fc_server_read: the outcome is that of the stream, in whatever pieces its bytes arrive. */
    method ServerRead()
      requires Valid() && !doneHeader && msgRemain == 0 && paddingLen == 0 && !readDone && readStatus.Okay?
      modifies this, sock, data, error, other
      ensures Valid() && Got() == Demux(old(sock.incoming), old(Got()), Early())
      ensures readStatus.Okay? ==> readDone && data[dataLen] == 0 && error[errorLen] == 0
    {
      ghost var target := Demux(sock.incoming, Got(), Early());
      ghost var hb := [];
      var h := Header(0, 0, 0, 0, 0);
      var more := true;
      while more
        invariant data == old(data) || fresh(data)
        invariant error == old(error) || fresh(error)
        invariant other == old(other) || fresh(other)
        invariant if !more then Ended(target) else if doneHeader then BehindHeader(h, hb, target)
                  else BeforeRecord(target)
        decreases more, |sock.incoming|, doneHeader
      {
        if doneHeader {
          more := TakeBody(h, hb, target);
        } else {
          more, h, hb := TakeHeader(target);
        }
      }
    }
  }
}
