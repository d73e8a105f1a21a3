/** Name-value pairs (section 3.4 of the FastCGI 1.0 specification) and the records of a request. */
module FcgiParams {
  import opened FcgiRecords
  import opened Octets
  import opened Sequences

  const BEGIN_REQUEST: Octet := 1
  const LENGTH_LIMIT: nat := 0x8000_0000
  const PACKET: nat := MAX_LENGTH - HEADER_LENGTH

  datatype Pair = Pair(name: seq<Octet>, value: seq<Octet>)

  predicate Encodable(ps: seq<Pair>) {
    forall i :: 0 <= i < |ps| ==> |ps[i].name| < LENGTH_LIMIT && |ps[i].value| < LENGTH_LIMIT
  }

  // ---- As the client writes them ----

  /** A length: one byte, or four with the top bit set. */
  function EncodeLength(n: nat): (b: seq<Octet>)
    requires n < LENGTH_LIMIT
    ensures |b| == LengthSize(n)
  {
    if n < 0x80 then [n]
    else [n / 0x1000000 + 0x80, n / 0x10000 % 0x100, n / 0x100 % 0x100, n % 0x100]
  }

  function LengthSize(n: nat): nat { if n < 0x80 then 1 else 4 }

  /** vv_size_env */
  function PairSize(nameLen: nat, valLen: nat): nat {
    LengthSize(nameLen) + LengthSize(valLen) + nameLen + valLen
  }

  /** vv_send_env */
  function EncodePair(p: Pair): (b: seq<Octet>)
    requires |p.name| < LENGTH_LIMIT && |p.value| < LENGTH_LIMIT
    ensures |b| == PairSize(|p.name|, |p.value|)
  {
    EncodeLength(|p.name|) + EncodeLength(|p.value|) + p.name + p.value
  }

  function TotalSize(ps: seq<Pair>): nat {
    if ps == [] then 0 else TotalSize(ps[..|ps| - 1]) + PairSize(|ps[|ps| - 1].name|, |ps[|ps| - 1].value|)
  }

  function EncodePairs(ps: seq<Pair>): (b: seq<Octet>)
    requires Encodable(ps)
    ensures |b| == TotalSize(ps)
  {
    if ps == [] then [] else EncodePairs(ps[..|ps| - 1]) + EncodePair(ps[|ps| - 1])
  }

  // ---- As the specification reads them ----

  datatype Length = Length(n: nat, size: nat) | NoLength

  function DecodeLength(b: seq<Octet>): (r: Length)
    ensures r.Length? ==> 1 <= r.size <= |b|
  {
    if b == [] then NoLength
    else if b[0] < 0x80 then Length(b[0], 1)
    else if |b| < 4 then NoLength
    else Length(BigEndian([b[0] - 0x80, b[1], b[2], b[3]]), 4)
  }

  datatype Decoded = Pairs(ps: seq<Pair>) | Malformed

  function DecodePairs(b: seq<Octet>): Decoded
    decreases |b|
  {
    if b == [] then Pairs([])
    else
      var n := DecodeLength(b);
      if n.NoLength? then Malformed
      else
        var v := DecodeLength(b[n.size..]);
        if v.NoLength? || |b| < n.size + v.size + n.n + v.n then Malformed
        else
          var body := b[n.size + v.size..];
          var rest := DecodePairs(body[n.n + v.n..]);
          if rest.Malformed? then Malformed
          else Pairs([Pair(body[..n.n], body[n.n..n.n + v.n])] + rest.ps)
  }

  lemma {:induction false} LengthBack(n: nat, rest: seq<Octet>)
    requires n < LENGTH_LIMIT
    ensures DecodeLength(EncodeLength(n) + rest) == Length(n, LengthSize(n))
    ensures (EncodeLength(n) + rest)[LengthSize(n)..] == rest
  {
    var b := EncodeLength(n) + rest;
    if n >= 0x80 {
      var c: seq<Octet> := [n / 0x1000000, n / 0x10000 % 0x100, n / 0x100 % 0x100, n % 0x100];
      BigEndian4(c);
      FourBytes(n);
      assert [b[0] - 0x80, b[1], b[2], b[3]] == c;
    }
  }

  lemma {:induction false} FourBytes(n: nat)
    ensures n == n / 0x1000000 * 0x1000000 + n / 0x10000 % 0x100 * 0x10000 + n / 0x100 % 0x100 * 0x100 + n % 0x100
  {
    assert n / 0x10000 == n / 0x1000000 * 0x100 + n / 0x10000 % 0x100;
    assert n / 0x100 == n / 0x10000 * 0x100 + n / 0x100 % 0x100;
  }

  lemma {:induction false} PairBack(p: Pair, rest: seq<Octet>)
    requires |p.name| < LENGTH_LIMIT && |p.value| < LENGTH_LIMIT
    ensures DecodePairs(EncodePair(p) + rest) ==
            if DecodePairs(rest).Malformed? then Malformed else Pairs([p] + DecodePairs(rest).ps)
  {
    var b := EncodePair(p) + rest;
    var l, m := EncodeLength(|p.name|), EncodeLength(|p.value|);
    var tail := p.name + p.value + rest;
    assert b == l + (m + tail) by { FiveParts(l, m, p.name, p.value, rest); }
    LengthBack(|p.name|, m + tail);
    LengthBack(|p.value|, tail);
    assert b[|l| + |m|..] == tail by { TwoDropped(l, m, tail); }
    ThreeParts(p.name, p.value, rest);
  }

  lemma {:induction false} FiveParts(a: seq<Octet>, b: seq<Octet>, c: seq<Octet>, d: seq<Octet>, e: seq<Octet>)
    ensures a + b + c + d + e == a + (b + (c + d + e))
  {
  }

  lemma {:induction false} TwoDropped(a: seq<Octet>, b: seq<Octet>, c: seq<Octet>)
    ensures (a + (b + c))[|a| + |b|..] == c
  {
  }

  lemma {:induction false} ThreeParts(a: seq<Octet>, b: seq<Octet>, c: seq<Octet>)
    ensures (a + b + c)[..|a|] == a && (a + b + c)[|a|..|a| + |b|] == b && (a + b + c)[|a| + |b|..] == c
  {
  }

  lemma {:induction false} PairsBack(ps: seq<Pair>, rest: seq<Octet>)
    requires Encodable(ps) && DecodePairs(rest).Pairs?
    ensures DecodePairs(EncodePairs(ps) + rest) == Pairs(ps + DecodePairs(rest).ps)
    decreases |ps|
  {
    if ps == [] {
      assert [] + rest == rest && [] + DecodePairs(rest).ps == DecodePairs(rest).ps;
    } else {
      var init, last := ps[..|ps| - 1], ps[|ps| - 1];
      var d := DecodePairs(rest).ps;
      assert DecodePairs(EncodePair(last) + rest) == Pairs([last] + d) by { PairBack(last, rest); }
      PairsBack(init, EncodePair(last) + rest);
      assert EncodePairs(ps) + rest == EncodePairs(init) + (EncodePair(last) + rest) by {
        Regroup(EncodePairs(init), EncodePair(last), rest);
      }
      LastApart(ps, d);
    }
  }

  lemma {:induction false} LastApart(ps: seq<Pair>, d: seq<Pair>)
    requires ps != []
    ensures ps[..|ps| - 1] + ([ps[|ps| - 1]] + d) == ps + d
  {
  }

  /** What is written for a list of pairs, a reader following the specification reads as that list. */
  lemma {:induction false} ParamsRoundTrip(ps: seq<Pair>)
    requires Encodable(ps)
    ensures DecodePairs(EncodePairs(ps)) == Pairs(ps)
  {
    PairsBack(ps, []);
    assert EncodePairs(ps) + [] == EncodePairs(ps) && ps + [] == ps;
  }

  // ---- The records of a request ----

  function Plain(kind: Octet, content: seq<Octet>): Record { Record(kind, content, [], 0) }

  /** The body in records of at most 65527 bytes. */
  function Packets(body: seq<Octet>): seq<Record>
    decreases |body|
  {
    if body == [] then []
    else if |body| > PACKET then [Plain(STDIN, body[..PACKET])] + Packets(body[PACKET..])
    else [Plain(STDIN, body)]
  }

  // The records before the body
  function HeadRecords(ps: seq<Pair>): seq<Record>
    requires Encodable(ps)
  {
    [Plain(BEGIN_REQUEST, [0, 1, 0, 0, 0, 0, 0, 0]), Plain(PARAMS, EncodePairs(ps)), Plain(PARAMS, [])]
  }

  /** The request: begin, parameters, and if there is a body its packets; each stream ends with an empty record. */
  function RequestRecords(ps: seq<Pair>, body: seq<Octet>): seq<Record>
    requires Encodable(ps)
  {
    HeadRecords(ps) + if body == [] then [] else Packets(body) + [Plain(STDIN, [])]
  }

  lemma {:induction false} PacketsStep(body: seq<Octet>)
    requires body != []
    ensures var n := if |body| > PACKET then PACKET else |body|;
            Packets(body) == [Plain(STDIN, body[..n])] + Packets(body[n..])
  {
    if |body| <= PACKET {
      assert body[..|body|] == body && Packets(body[|body|..]) == [];
    }
  }

  /** The packets carry the whole body in order, none of them empty and none too long. */
  lemma {:induction false} PacketsCarry(body: seq<Octet>)
    ensures Contents(Packets(body), STDIN) == body
    ensures forall kind :: kind != STDIN ==> Contents(Packets(body), kind) == []
    ensures forall i :: 0 <= i < |Packets(body)| ==>
              Packets(body)[i].kind == STDIN && 1 <= |Packets(body)[i].content| <= PACKET && Fits(Packets(body)[i])
    decreases |body|
  {
    if |body| > PACKET {
      PacketsCarry(body[PACKET..]);
      assert Packets(body)[1..] == Packets(body[PACKET..]);
      assert body[..PACKET] + body[PACKET..] == body;
    }
  }

  lemma {:induction false} ContentsJoin(a: seq<Record>, b: seq<Record>, kind: Octet)
    ensures Contents(a + b, kind) == Contents(a, kind) + Contents(b, kind)
    decreases |a|
  {
    if a == [] {
      assert a + b == b;
    } else {
      assert (a + b)[1..] == a[1..] + b;
      ContentsJoin(a[1..], b, kind);
    }
  }

  lemma {:induction false} ContentsOne(r: Record, kind: Octet)
    ensures Contents([r], kind) == if r.kind == kind then r.content else []
  {
    assert [r][1..] == [];
  }

  // The records before the body.
  lemma {:induction false} HeadContents(a: Record, b: Record, c: Record, kind: Octet)
    ensures Contents([a, b, c], kind) == Contents([a], kind) + Contents([b], kind) + Contents([c], kind)
  {
    assert [a, b, c] == [a] + [b] + [c];
    ContentsJoin([a] + [b], [c], kind);
    ContentsJoin([a], [b], kind);
  }

  /** A server that reads the request by the specification gets the parameters and the body. */
  lemma {:induction false} RequestCarries(ps: seq<Pair>, body: seq<Octet>)
    requires Encodable(ps)
    ensures Contents(RequestRecords(ps, body), PARAMS) == EncodePairs(ps) && DecodePairs(EncodePairs(ps)) == Pairs(ps)
    ensures Contents(RequestRecords(ps, body), STDIN) == body
  {
    var a, b, c := Plain(BEGIN_REQUEST, [0, 1, 0, 0, 0, 0, 0, 0]), Plain(PARAMS, EncodePairs(ps)), Plain(PARAMS, []);
    var rest := if body == [] then [] else Packets(body) + [Plain(STDIN, [])];
    PacketsCarry(body);
    forall kind | kind == PARAMS || kind == STDIN
      ensures Contents([a, b, c] + rest, kind) == if kind == PARAMS then EncodePairs(ps) else body
    {
      HeadContents(a, b, c, kind);
      ContentsOne(a, kind);
      ContentsOne(b, kind);
      ContentsOne(c, kind);
      ContentsJoin([a, b, c], rest, kind);
      ContentsOne(Plain(STDIN, []), kind);
      ContentsJoin(Packets(body), [Plain(STDIN, [])], kind);
    }
    ParamsRoundTrip(ps);
  }
}
