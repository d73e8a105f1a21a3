/** What travels between client and server, in the words of the FastCGI 1.0 specification: the layout of a record
    (section 3.3), the order of a request's records (sections 3.3 and 5), and how a reply fails. */
module FcgiWire {
  import opened FcgiRecords
  import opened FcgiParams
  import opened Octets
  import opened Sequences

  // ---- The layout of a record ----

  /** Version 1, the type, the request id 1, the length of the content with its high byte first, the length of the
      padding, a reserved byte; then the content and the padding. */
  lemma {:induction false} RecordLayout(r: Record)
    requires Fits(r)
    ensures var b := Encode(r); var n := |r.content|;
            && |b| == 8 + n + |r.padding| && b[0] == 1 && b[1] == r.kind && b[2] == 0 && b[3] == 1
            && b[4] as int * 256 + b[5] as int == n && b[6] as int == |r.padding| && b[7] == r.reserved
            && b[8..8 + n] == r.content && b[8 + n..] == r.padding
  {
  }

  // A record is told by its bytes.
  lemma {:induction false} SameRecord(r: Record, q: Record, a: seq<Octet>, b: seq<Octet>)
    requires Fits(r) && Fits(q) && Encode(r) + a == Encode(q) + b
    ensures r == q && a == b
  {
    Parts(r, a);
    Parts(q, b);
    assert (Encode(r) + a)[7] == r.reserved && (Encode(q) + b)[7] == q.reserved;
    assert (Encode(r) + a)[1] == r.kind && (Encode(q) + b)[1] == q.kind;
  }

  ghost predicate AllFit(rs: seq<Record>) {
    forall i :: 0 <= i < |rs| ==> Fits(rs[i])
  }

  /** And so are the records of a stream. */
  lemma {:induction false} SameRecords(rs: seq<Record>, qs: seq<Record>)
    requires AllFit(rs) && AllFit(qs) && EncodeAll(rs) == EncodeAll(qs)
    ensures rs == qs
    decreases |rs|
  {
    if rs != [] && qs != [] {
      SameRecord(rs[0], qs[0], EncodeAll(rs[1..]), EncodeAll(qs[1..]));
      SameRecords(rs[1..], qs[1..]);
      assert rs == [rs[0]] + rs[1..] && qs == [qs[0]] + qs[1..];
    }
  }

  // ---- The records of a request ----

  /** A stream of one type: records with content, and one empty record behind them. */
  ghost predicate Stream(rs: seq<Record>, kind: int) {
    && rs != [] && (forall i :: 0 <= i < |rs| ==> rs[i].kind == kind)
    && forall i :: 0 <= i < |rs| ==> (rs[i].content == [] <==> i == |rs| - 1)
  }

  /** The record that begins a request (type 1, the role of a responder, the connection to be closed), the
      parameters (type 4) as a stream, and behind them, if there is a body, the standard input (type 5) as a
      stream; and nothing else. The parameters end with the record before the one at k. */
  ghost predicate OrderedAt(rs: seq<Record>, k: nat, body: bool) {
    && 1 <= k <= |rs| && rs[0].kind == 1 && rs[0].content == [0, 1, 0, 0, 0, 0, 0, 0]
    && Stream(rs[1..k], 4)
    && if body then Stream(rs[k..], 5) else k == |rs|
  }

  ghost predicate Ordered(rs: seq<Record>, body: bool) {
    exists k :: OrderedAt(rs, k, body)
  }

  // A length is one byte, or four, the highest first, with the top bit set.
  predicate IsLength(n: int, b: seq<Octet>) {
    || (|b| == 1 && n < 128 && b[0] as int == n)
    || (|b| == 4 && b[0] >= 128
        && n == (b[0] as int - 128) * 0x1000000 + b[1] as int * 0x10000 + b[2] as int * 0x100 + b[3] as int)
  }

  // A pair: the two lengths, the name and the value (section 3.4)
  predicate IsPair(b: seq<Octet>, p: Pair, i: nat, j: nat) {
    && i <= j <= |b| && IsLength(|p.name|, b[..i]) && IsLength(|p.value|, b[i..j]) && b[j..] == p.name + p.value
    && (i == 1 <==> |p.name| < 128) && (j == i + 1 <==> |p.value| < 128)
  }

  ghost predicate OnePair(b: seq<Octet>, p: Pair) {
    exists i: nat, j: nat :: IsPair(b, p, i, j)
  }

  /** The bytes are the pairs one after the other, each with lengths as short as possible. */
  ghost predicate Lists(b: seq<Octet>, ps: seq<Pair>)
    decreases |ps|
  {
    if ps == [] then b == []
    else exists k :: 0 <= k <= |b| && ListsTo(b, ps, k)
  }

  ghost predicate ListsTo(b: seq<Octet>, ps: seq<Pair>, k: int)
    requires ps != [] && 0 <= k <= |b|
    decreases |ps|, 0
  {
    Lists(b[..k], ps[..|ps| - 1]) && OnePair(b[k..], ps[|ps| - 1])
  }

  lemma {:induction false} LengthWritten(n: nat)
    requires n < LENGTH_LIMIT
    ensures IsLength(n, EncodeLength(n)) && |EncodeLength(n)| == if n < 128 then 1 else 4
  {
    FourBytes(n);
  }

  lemma {:induction false} FourParts(l: seq<Octet>, m: seq<Octet>, a: seq<Octet>, c: seq<Octet>)
    ensures var b := l + m + a + c; b[..|l|] == l && b[|l|..|l| + |m|] == m && b[|l| + |m|..] == a + c
  {
    assert l + m + a + c == l + (m + (a + c));
  }

  lemma {:induction false} PairWritten(p: Pair)
    requires |p.name| < LENGTH_LIMIT && |p.value| < LENGTH_LIMIT
    ensures OnePair(EncodePair(p), p)
  {
    var l, m := EncodeLength(|p.name|), EncodeLength(|p.value|);
    LengthWritten(|p.name|);
    LengthWritten(|p.value|);
    var b := EncodePair(p);
    FourParts(l, m, p.name, p.value);
    assert IsPair(b, p, |l|, |l| + |m|);
  }

  /** The parameters as they are sent */
  lemma {:induction false} PairsListed(ps: seq<Pair>)
    requires Encodable(ps)
    ensures Lists(EncodePairs(ps), ps)
    decreases |ps|
  {
    if ps != [] {
      var init, p := ps[..|ps| - 1], ps[|ps| - 1];
      PairsListed(init);
      PairWritten(p);
      var b, k := EncodePairs(ps), |EncodePairs(init)|;
      assert b[..k] == EncodePairs(init) && b[k..] == EncodePair(p);
      assert ListsTo(b, ps, k);
    }
  }

  /** What a server makes of the records: they are in order, and their contents are the parameters and the body.
      Without any parameter one more empty record comes in front of the one that ends the parameters. */
  ghost predicate Understood(rs: seq<Record>, ps: seq<Pair>, body: seq<Octet>) {
    && (if ps != [] then Ordered(rs, body != [])
        else |rs| > 2 && rs[1].kind == 4 && rs[1].content == [] && Ordered([rs[0]] + rs[2..], body != []))
    && Lists(Contents(rs, 4), ps) && DecodePairs(Contents(rs, 4)) == Pairs(ps) && Contents(rs, 5) == body
  }

  lemma {:induction false} BodyStream(body: seq<Octet>)
    ensures var rs := Packets(body) + [Plain(STDIN, [])];
            AllFit(rs) && Stream(rs, 5) && Contents(rs, 5) == body
  {
    PacketsCarry(body);
    ContentsJoin(Packets(body), [Plain(STDIN, [])], 5);
    ContentsOne(Plain(STDIN, []), 5);
    var rs := Packets(body) + [Plain(STDIN, [])];
    forall i | 0 <= i < |rs| ensures rs[i].kind == 5 && (rs[i].content == [] <==> i == |rs| - 1) {
      if i < |Packets(body)| { assert rs[i] == Packets(body)[i]; }
    }
  }

  /** All packets but the last have 65527 bytes, and the last one has at most as many. */
  lemma {:induction false} PacketSizes(body: seq<Octet>, i: nat)
    requires i < |Packets(body)|
    ensures if i < |Packets(body)| - 1 then |Packets(body)[i].content| == 65527
            else 1 <= |Packets(body)[i].content| <= 65527
    decreases |body|
  {
    if |body| > PACKET && i > 0 {
      PacketSizes(body[PACKET..], i - 1);
    } else if |body| > PACKET {
      assert Packets(body[PACKET..]) != [];
    }
  }

  lemma {:induction false} SomeParameters(ps: seq<Pair>)
    requires Encodable(ps) && ps != []
    ensures EncodePairs(ps) != []
  {
    assert |EncodePair(ps[|ps| - 1])| > 0;
  }

  lemma {:induction false} RequestOrdered(ps: seq<Pair>, body: seq<Octet>)
    requires Encodable(ps) && ps != []
    ensures Ordered(RequestRecords(ps, body), body != [])
  {
    var rs := RequestRecords(ps, body);
    SomeParameters(ps);
    assert rs[1..3] == [Plain(PARAMS, EncodePairs(ps)), Plain(PARAMS, [])];
    if body != [] {
      BodyStream(body);
      assert rs[3..] == Packets(body) + [Plain(STDIN, [])];
    }
    assert OrderedAt(rs, 3, body != []);
  }

  lemma {:induction false} BareOrdered(body: seq<Octet>)
    ensures var rs := RequestRecords([], body);
            && |rs| > 2 && rs[1].kind == 4 && rs[1].content == []
            && Ordered([rs[0]] + rs[2..], body != [])
  {
    var rs := RequestRecords([], body);
    var less := [rs[0]] + rs[2..];
    assert less[1..2] == [Plain(PARAMS, [])];
    if body != [] {
      BodyStream(body);
      assert less[2..] == Packets(body) + [Plain(STDIN, [])];
    }
    assert OrderedAt(less, 2, body != []);
  }

  lemma {:induction false} RequestUnderstood(ps: seq<Pair>, body: seq<Octet>)
    requires Encodable(ps)
    ensures Understood(RequestRecords(ps, body), ps, body)
  {
    RequestCarries(ps, body);
    PairsListed(ps);
    if ps != [] { RequestOrdered(ps, body); } else { BareOrdered(body); }
  }

  /** Whatever records have the bytes of a request, a server understands them. */
  lemma {:induction false} BytesUnderstood(ps: seq<Pair>, body: seq<Octet>, rs: seq<Record>)
    requires Encodable(ps) && AllFit(RequestRecords(ps, body)) && AllFit(rs)
    requires EncodeAll(rs) == EncodeAll(RequestRecords(ps, body))
    ensures Understood(rs, ps, body)
  {
    SameRecords(rs, RequestRecords(ps, body));
    RequestUnderstood(ps, body);
  }

  // ---- Replies that fail ----

  lemma {:induction false} Behind(rs: seq<Record>, b: seq<Octet>, p: Reply, early: Status)
    requires AllStream(rs) && p.status.Okay? && !p.done
    ensures Demux(EncodeAll(rs) + b, p, early) == Demux(b, Gather(p, rs), early)
    ensures Gather(p, rs).status.Okay? && !Gather(p, rs).done
    decreases |rs|
  {
    if rs == [] {
      assert [] + b == b;
    } else {
      var r, rest := rs[0], rs[1..];
      assert Streams(r) && AllStream(rest);
      Regroup(Encode(r), EncodeAll(rest), b);
      DemuxOne(r, EncodeAll(rest) + b, p, early);
      Behind(rest, b, Absorb(p, r.kind, r.content), early);
    }
  }

  /** Behind any good records: another version, another request, an end record (type 3) whose length is not 8 or
      whose protocol status (its fifth byte) is not 0, and a record of an unknown type (type 11) are told apart. */
  lemma {:induction false} Refusals(rs: seq<Record>, b: seq<Octet>, early: Status)
    requires AllStream(rs) && |b| >= 8
    ensures var s := Demux(EncodeAll(rs) + b, NOTHING, early).status; var n := b[4] as int * 256 + b[5] as int;
            && (b[0] != 1 ==> s == BadVer)
            && (b[0] == 1 && (b[2] != 0 || b[3] != 1) ==> s == ProtErr)
            && (b[0] == 1 && b[2] == 0 && b[3] == 1 ==>
                  && (|b| < 8 + n ==> s == early)
                  && (|b| >= 8 + n && b[1] == 3 && n != 0 && n != 8 ==> s == ProtErr)
                  && (|b| >= 16 && b[1] == 3 && n == 8 && b[12] != 0 ==> s == Srv)
                  && (|b| >= 8 + n && b[1] == 11 ==> s == Unk))
  {
    Behind(rs, b, NOTHING, early);
  }
}
