/** The writing side of the FastCGI client of fcli.c: parameters are sized in a first pass and written in a
    second, the body goes out in packets, and the socket takes its bytes in arbitrary pieces. */
module FcgiRequest {
  import opened FcgiRecords
  import opened FcgiParams
  import opened FcgiWire
  import opened Octets
  import opened Sequences

  /** A connection to the server: what has been sent, how much each write is going to take, and how many
      bytes are still taken before writing fails. */
  class Peer {
    var sent: seq<Octet>
    var cuts: seq<nat>
    var room: nat

    constructor (pieces: seq<nat>, capacity: nat)
      ensures sent == []
    {
      sent, cuts, room := [], pieces, capacity;
    }

    // write(2)
    method Write(buf: seq<Octet>) returns (res: int)
      modifies this
      ensures res <= |buf| && (res < 0 || (res == 0 ==> buf == []))
      ensures (res < 0 <==> buf != [] && old(room) == 0) && room + |sent| == old(room + |sent|)
      ensures sent == if res < 0 then old(sent) else old(sent) + buf[..res]
    {
      if buf == [] { return 0; }
      if room == 0 { return -1; }
      var n := if cuts == [] then |buf| else cuts[0];
      if cuts != [] { cuts := cuts[1..]; }
      if n < 1 { n := 1; }
      if n > |buf| { n := |buf|; }
      if n > room { n := room; }
      room := room - n;
      sent := sent + buf[..n];
      return n;
    }
  }

  // The bytes of build_hdr
  function BuildHdr(contentLen: nat, kind: Octet): seq<Octet>
    requires contentLen <= MAX_LENGTH
  {
    [VERSION, kind, 0, REQUEST_ID, contentLen / 256, contentLen % 256, 0, 0]
  }

  lemma {:induction false} HeaderAndContent(kind: Octet, content: seq<Octet>)
    requires |content| <= MAX_LENGTH
    ensures Encode(Plain(kind, content)) == BuildHdr(|content|, kind) + content
  {
  }

  lemma {:induction false} EncodeJoin(a: seq<Record>, b: seq<Record>)
    requires forall i :: 0 <= i < |a| ==> Fits(a[i])
    requires forall i :: 0 <= i < |b| ==> Fits(b[i])
    ensures EncodeAll(a + b) == EncodeAll(a) + EncodeAll(b)
    decreases |a|
  {
    if a == [] {
      assert a + b == b;
    } else {
      assert (a + b)[1..] == a[1..] + b;
      EncodeJoin(a[1..], b);
      Regroup(Encode(a[0]), EncodeAll(a[1..]), EncodeAll(b));
    }
  }

  method Append(mem: array<Octet>, at: nat, bytes: seq<Octet>)
    requires at + |bytes| <= mem.Length
    modifies mem
    ensures mem[..at + |bytes|] == old(mem[..at]) + bytes
  {
    forall k | 0 <= k < |bytes| { mem[at + k] := bytes[k]; }
  }

  datatype Result = Sent | SockWrite | EnvTooLong

  class Sender {
    const out: Peer
    var paramLen: nat
    var env: array<Octet>
    var envP: nat

    constructor (p: Peer)
      ensures out == p
    {
      out, paramLen, env, envP := p, 0, new Octet[0], 0;
    }

    /** Sending n bytes fails exactly for want of room. */
    ghost predicate Used(ok: bool, n: nat, room: nat, sent: nat)
      reads out
    {
      && out.room + |out.sent| == room + sent
      && (if ok then |out.sent| == sent + n else out.room == 0 && |out.sent| < sent + n)
    }

    /** vv_write_socket: all bytes are sent, or a part of them and an error. */
    method WriteSocket(buf: seq<Octet>) returns (ok: bool)
      modifies out
      ensures ok ==> out.sent == old(out.sent) + buf
      ensures old(out.sent) <= out.sent <= old(out.sent) + buf
      ensures Used(ok, |buf|, old(out.room), |old(out.sent)|)
    {
      ghost var was := out.sent;
      var written := 0;
      assert was + buf[..0] == was;
      while true
        invariant 0 <= written <= |buf| && out.sent == was + buf[..written]
        invariant written == |buf| ==> buf == []
        invariant out.room + |out.sent| == old(out.room + |out.sent|)
        decreases |buf| - written, buf == []
      {
        var res := out.Write(buf[written..]);
        if res < 0 { return false; }
        assert buf[..written] + buf[written..][..res] == buf[..written + res];
        written := written + res;
        if written >= |buf| { break; }
      }
      assert buf[..written] == buf;
      return true;
    }

    // vv_size_env
    method SizeEnv(nameLen: nat, valLen: nat)
      modifies this`paramLen
      ensures paramLen == old(paramLen) + PairSize(nameLen, valLen)
    {
      if nameLen < 0x80 { paramLen := paramLen + 1; } else { paramLen := paramLen + 4; }
      if valLen < 0x80 { paramLen := paramLen + 1; } else { paramLen := paramLen + 4; }
      paramLen := paramLen + nameLen;
      paramLen := paramLen + valLen;
    }

    // The bytes of a length, appended as vv_send_env appends them
    static method AddLength(hdr0: seq<Octet>, n: nat) returns (hdr: seq<Octet>)
      requires n < LENGTH_LIMIT
      ensures hdr == hdr0 + EncodeLength(n)
    {
      hdr := hdr0;
      if n < 0x80 {
        hdr := hdr + [n];
      } else {
        hdr := hdr + [n / 0x1000000 + 0x80];
        hdr := hdr + [n / 0x10000 % 0x100];
        hdr := hdr + [n / 0x100 % 0x100];
        hdr := hdr + [n % 0x100];
      }
    }

    // Bytes put behind those already there
    method Put(bytes: seq<Octet>)
      requires envP + |bytes| <= env.Length
      modifies this`envP, env
      ensures envP == old(envP) + |bytes| && env[..envP] == old(env[..envP]) + bytes
    {
      Append(env, envP, bytes);
      envP := envP + |bytes|;
    }

    /** vv_send_env: the pair is put behind those already there. */
    method SendEnv(p: Pair)
      requires |p.name| < LENGTH_LIMIT && |p.value| < LENGTH_LIMIT
      requires envP + PairSize(|p.name|, |p.value|) <= env.Length
      modifies this`envP, env
      ensures envP == old(envP) + PairSize(|p.name|, |p.value|)
      ensures env[..envP] == old(env[..envP]) + EncodePair(p)
    {
      var hdr := AddLength([], |p.name|);
      hdr := AddLength(hdr, |p.value|);
      Regroup4(env[..envP], hdr, p.name, p.value);
      Put(hdr);
      Put(p.name);
      Put(p.value);
    }

    // The first pass over the parameters (fcli.c:909-929)
    method SizeParams(ps: seq<Pair>)
      modifies this`paramLen
      ensures paramLen == TotalSize(ps)
    {
      paramLen := 0;
      for i := 0 to |ps|
        invariant paramLen == TotalSize(ps[..i])
      {
        SizeEnv(|ps[i].name|, |ps[i].value|);
        assert ps[..i + 1][..i] == ps[..i];
      }
      assert ps[..|ps|] == ps;
    }

    /** The second pass (fcli.c:934-952): the buffer of the size found in the first one is filled exactly. */
    method WriteParams(ps: seq<Pair>)
      requires Encodable(ps) && paramLen == TotalSize(ps)
      modifies this`env, this`envP
      ensures fresh(env) && envP == env.Length == paramLen && env[..] == EncodePairs(ps)
    {
      env := new Octet[paramLen];
      envP := 0;
      for i := 0 to |ps|
        invariant fresh(env) && env.Length == paramLen && envP == TotalSize(ps[..i]) <= paramLen
        invariant env[..envP] == EncodePairs(ps[..i])
      {
        assert ps[..i + 1][..i] == ps[..i] && ps[..i + 1][i] == ps[i];
        SizeGrows(ps, i + 1);
        SendEnv(ps[i]);
      }
      assert ps[..|ps|] == ps && env[..] == env[..envP];
    }

    static lemma {:induction false} SizeGrows(ps: seq<Pair>, i: nat)
      requires i <= |ps|
      ensures TotalSize(ps[..i]) <= TotalSize(ps)
      decreases |ps| - i
    {
      if i == |ps| {
        assert ps[..i] == ps;
      } else {
        SizeGrows(ps, i + 1);
        assert ps[..i + 1][..i] == ps[..i];
      }
    }

    // A header, and the content behind it
    method SendRecord(kind: Octet, content: seq<Octet>) returns (ok: bool)
      requires |content| <= MAX_LENGTH
      modifies out
      ensures ok ==> out.sent == old(out.sent) + Encode(Plain(kind, content))
      ensures Used(ok, |Encode(Plain(kind, content))|, old(out.room), |old(out.sent)|)
    {
      ghost var was := out.sent;
      HeaderAndContent(kind, content);
      ok := WriteSocket(BuildHdr(|content|, kind));
      if ok && content != [] { ok := WriteSocket(content); }
      Regroup(was, BuildHdr(|content|, kind), content);
      assert was + BuildHdr(|content|, kind) + [] == was + BuildHdr(|content|, kind);
    }

    /** The body in packets, and the empty record that ends it (fcli.c:959-984). */
    method SendBody(body: seq<Octet>) returns (ok: bool)
      modifies out
      ensures AllFit(BodyRecords(body))
      ensures ok ==> out.sent == old(out.sent) + EncodeAll(BodyRecords(body))
      ensures ok ==> forall rs: seq<Record> ::
                AllFit(rs) && out.sent == old(out.sent) + EncodeAll(rs) ==> Stream(rs, 5) && Contents(rs, 5) == body
      ensures Used(ok, |EncodeAll(BodyRecords(body))|, old(out.room), |old(out.sent)|)
    {
      ghost var target := out.sent + EncodeBody(body);
      var ibody := body;
      BodyFits(body);
      while |ibody| > 0
        invariant out.sent + EncodeBody(ibody) == target
        invariant out.room + |out.sent| == old(out.room + |out.sent|)
        decreases |ibody|
      {
        var packet := if |ibody| > PACKET then PACKET else |ibody|;
        BodyStep(out.sent, ibody, packet);
        ok := SendRecord(STDIN, ibody[..packet]);
        if !ok { return; }
        ibody := ibody[packet..];
      }
      BodySent(old(out.sent), body);
      EncodeOne(Plain(STDIN, []));
      assert BodyRecords(ibody) == [Plain(STDIN, [])];
      ok := SendRecord(STDIN, []);
    }

    static lemma {:induction false} BodySent(was: seq<Octet>, body: seq<Octet>)
      ensures AllFit(BodyRecords(body))
      ensures forall rs: seq<Record> :: AllFit(rs) && was + EncodeAll(BodyRecords(body)) == was + EncodeAll(rs) ==>
                Stream(rs, 5) && Contents(rs, 5) == body
    {
      BodyStream(body);
      forall rs: seq<Record> | AllFit(rs) && was + EncodeAll(BodyRecords(body)) == was + EncodeAll(rs)
        ensures Stream(rs, 5) && Contents(rs, 5) == body
      {
        SameBehind(was, EncodeAll(rs), EncodeAll(BodyRecords(body)));
        SameRecords(rs, BodyRecords(body));
      }
    }

    static lemma {:induction false} SameBehind(was: seq<Octet>, a: seq<Octet>, b: seq<Octet>)
      requires was + a == was + b
      ensures a == b
    {
      assert (was + a)[|was|..] == a && (was + b)[|was|..] == b;
    }

    static function BodyRecords(body: seq<Octet>): seq<Record> { Packets(body) + [Plain(STDIN, [])] }

    static lemma {:induction false} BodyFits(body: seq<Octet>)
      ensures AllFit(BodyRecords(body))
    {
      PacketsCarry(body);
    }

    static ghost function EncodeBody(body: seq<Octet>): seq<Octet> {
      BodyFits(body);
      EncodeAll(BodyRecords(body))
    }

    static lemma {:induction false} BodyStep(sent: seq<Octet>, body: seq<Octet>, n: nat)
      requires body != [] && n == if |body| > PACKET then PACKET else |body|
      ensures sent + EncodeBody(body) == sent + Encode(Plain(STDIN, body[..n])) + EncodeBody(body[n..])
    {
      PacketsStep(body);
      BodyFits(body[n..]);
      var r := Plain(STDIN, body[..n]);
      assert BodyRecords(body) == [r] + BodyRecords(body[n..]) && BodyRecords(body)[1..] == BodyRecords(body[n..]);
      Regroup(sent, Encode(r), EncodeBody(body[n..]));
    }

    static lemma {:induction false} OneMore(was: seq<Octet>, done: seq<Record>, r: Record)
      requires AllFit(done) && Fits(r)
      ensures AllFit(done + [r])
      ensures was + EncodeAll(done) + Encode(r) == was + EncodeAll(done + [r])
    {
      EncodeJoin(done, [r]);
      EncodeOne(r);
      Regroup(was, EncodeAll(done), Encode(r));
    }

    static const BEGIN: seq<Octet> := BuildHdr(8, BEGIN_REQUEST) + [0, 1, 0, 0, 0, 0, 0, 0]

    /** The bytes a request would like to send: of one with too many parameters only the first record goes out. */
    static ghost function Wanted(ps: seq<Pair>, body: seq<Octet>): seq<Octet>
      requires Encodable(ps)
    {
      if TotalSize(ps) < PACKET then
        RequestFits(ps, body);
        EncodeAll(RequestRecords(ps, body))
      else BEGIN
    }

    static lemma {:induction false} RequestFits(ps: seq<Pair>, body: seq<Octet>)
      requires Encodable(ps) && TotalSize(ps) < PACKET
      ensures AllFit(HeadRecords(ps)) && AllFit(RequestRecords(ps, body))
    {
      HeadEncodes([], ps);
      BodyFits(body);
    }

    static ghost function HeadWanted(ps: seq<Pair>): seq<Octet>
      requires Encodable(ps)
    {
      if TotalSize(ps) < PACKET then
        HeadEncodes([], ps);
        EncodeAll(HeadRecords(ps))
      else BEGIN
    }

    // The parameters, and the empty record behind them
    method SendParams(ps: seq<Pair>) returns (ok: bool)
      requires Encodable(ps) && paramLen == TotalSize(ps) < PACKET
      modifies this, out
      ensures ok ==> out.sent == old(out.sent) + Encode(Plain(PARAMS, EncodePairs(ps))) + Encode(Plain(PARAMS, []))
      ensures Used(ok, HEADER_LENGTH + TotalSize(ps) + HEADER_LENGTH, old(out.room), |old(out.sent)|)
    {
      WriteParams(ps);
      assert env[..envP] == env[..];
      ok := SendRecord(PARAMS, env[..envP]);
      if ok { ok := SendRecord(PARAMS, []); }
    }

    // The records before the body (fcli.c:866-956)
    method SendHead(ps: seq<Pair>) returns (r: Result)
      requires Encodable(ps)
      modifies this, out
      ensures r != SockWrite ==> (r == Sent <==> TotalSize(ps) < PACKET)
      ensures r == Sent ==> out.sent == old(out.sent) + HeadWanted(ps)
      ensures Used(r != SockWrite, |HeadWanted(ps)|, old(out.room), |old(out.sent)|)
    {
      ghost var was := out.sent;
      HeaderAndContent(BEGIN_REQUEST, [0, 1, 0, 0, 0, 0, 0, 0]);
      if TotalSize(ps) < PACKET { HeadEncodes(was, ps); HeadLength(ps); }
      var ok := WriteSocket(BEGIN);
      if !ok { return SockWrite; }
      SizeParams(ps);
      if paramLen >= PACKET { return EnvTooLong; }
      ok := SendParams(ps);
      return if ok then Sent else SockWrite;
    }

    static lemma {:induction false} HeadLength(ps: seq<Pair>)
      requires Encodable(ps) && TotalSize(ps) < PACKET
      ensures |HeadWanted(ps)| == |BEGIN| + HEADER_LENGTH + TotalSize(ps) + HEADER_LENGTH
    {
      HeadEncodes([], ps);
    }

    static lemma {:induction false} HeadEncodes(was: seq<Octet>, ps: seq<Pair>)
      requires Encodable(ps) && TotalSize(ps) < PACKET
      ensures AllFit(HeadRecords(ps)) && Encode(Plain(BEGIN_REQUEST, [0, 1, 0, 0, 0, 0, 0, 0])) == BEGIN
      ensures was + BEGIN + Encode(Plain(PARAMS, EncodePairs(ps)))
              + Encode(Plain(PARAMS, [])) == was + EncodeAll(HeadRecords(ps))
    {
      var a, b, c := Plain(BEGIN_REQUEST, [0, 1, 0, 0, 0, 0, 0, 0]), Plain(PARAMS, EncodePairs(ps)), Plain(PARAMS, []);
      HeaderAndContent(BEGIN_REQUEST, [0, 1, 0, 0, 0, 0, 0, 0]);
      EncodeOne(a);
      OneMore(was, [a], b);
      OneMore(was, [a] + [b], c);
      assert HeadRecords(ps) == [a] + [b] + [c];
    }

    /** A whole request: it is sent if the peer takes all its bytes, and otherwise fails for want of room or,
        its parameters having 65527 bytes or more, after the record that begins it. */
    method Request(ps: seq<Pair>, body: seq<Octet>) returns (r: Result)
      requires Encodable(ps)
      modifies this, out
      ensures TotalSize(ps) < PACKET ==> AllFit(RequestRecords(ps, body))
      ensures r == SockWrite <==> old(out.room) < |Wanted(ps, body)|
      ensures r == EnvTooLong <==> |Wanted(ps, body)| <= old(out.room) && TotalSize(ps) >= PACKET
      ensures r == Sent <==> |Wanted(ps, body)| <= old(out.room) && TotalSize(ps) < PACKET
      ensures r == Sent ==> out.sent == old(out.sent) + EncodeAll(RequestRecords(ps, body))
      ensures r == Sent ==> forall rs: seq<Record> ::
                AllFit(rs) && out.sent == old(out.sent) + EncodeAll(rs) ==> Understood(rs, ps, body)
    {
      ghost var was := out.sent;
      if TotalSize(ps) < PACKET { WantedParts(was, ps, body); }
      r := SendHead(ps);
      if r == Sent && body != [] {
        var ok := SendBody(body);
        if !ok { r := SockWrite; }
      }
      if r == Sent { SentUnderstood(was, ps, body); }
    }

    static lemma {:induction false} SentUnderstood(was: seq<Octet>, ps: seq<Pair>, body: seq<Octet>)
      requires Encodable(ps) && AllFit(RequestRecords(ps, body))
      ensures forall rs: seq<Record> ::
                AllFit(rs) && was + EncodeAll(RequestRecords(ps, body)) == was + EncodeAll(rs) ==>
                  Understood(rs, ps, body)
    {
      forall rs: seq<Record>
        | AllFit(rs) && was + EncodeAll(RequestRecords(ps, body)) == was + EncodeAll(rs)
        ensures Understood(rs, ps, body)
      {
        SameBehind(was, EncodeAll(rs), EncodeAll(RequestRecords(ps, body)));
        BytesUnderstood(ps, body, rs);
      }
    }

    static lemma {:induction false} WantedParts(was: seq<Octet>, ps: seq<Pair>, body: seq<Octet>)
      requires Encodable(ps) && TotalSize(ps) < PACKET
      ensures AllFit(RequestRecords(ps, body))
      ensures body == [] ==> Wanted(ps, body) == HeadWanted(ps)
      ensures body != [] ==> AllFit(BodyRecords(body))
                             && was + Wanted(ps, body) == was + HeadWanted(ps) + EncodeAll(BodyRecords(body))
                             && |Wanted(ps, body)| == |HeadWanted(ps)| + |EncodeAll(BodyRecords(body))|
    {
      RequestFits(ps, body);
      var head := HeadRecords(ps);
      if body != [] {
        BodyFits(body);
        EncodeJoin(head, BodyRecords(body));
        Regroup(was, EncodeAll(head), EncodeAll(BodyRecords(body)));
      } else {
        assert RequestRecords(ps, body) == head;
      }
    }
  }

  lemma {:induction false} EncodeOne(r: Record)
    requires Fits(r)
    ensures EncodeAll([r]) == Encode(r)
  {
    assert [r][1..] == [] && Encode(r) + [] == Encode(r);
  }
}
