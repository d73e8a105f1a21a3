/** FastCGI records as bytes (section 3.3 of the FastCGI 1.0 specification) and what the client of fcli.c
    makes of a stream of them. */
module FcgiRecords {
  import opened Octets
  import opened Sequences

  const VERSION: Octet := 1
  const END_REQUEST: Octet := 3
  const PARAMS: Octet := 4
  const STDIN: Octet := 5
  const STDOUT: Octet := 6
  const STDERR: Octet := 7
  const UNKNOWN_TYPE: Octet := 11
  const REQUEST_ID: nat := 1
  const HEADER_LENGTH: nat := 8
  const MAX_LENGTH: nat := 0xFFFF

  // ---- Records ----

  datatype Header = Header(version: Octet, kind: Octet, id: nat, length: nat, padding: nat)

  function BigEndian2(high: nat, low: nat): nat { low + high * 256 }

  /** The eight bytes of a header; the last one is reserved. */
  function ParseHeader(b: seq<Octet>): (h: Header)
    requires |b| >= HEADER_LENGTH
    ensures h.length <= MAX_LENGTH && h.padding <= 255
  {
    Header(b[0], b[1], BigEndian2(b[2], b[3]), BigEndian2(b[4], b[5]), b[6])
  }

  datatype Record = Record(kind: Octet, content: seq<Octet>, padding: seq<Octet>, reserved: Octet)

  predicate Fits(r: Record) {
    |r.content| <= MAX_LENGTH && |r.padding| <= 255
  }

  /** A record of the client's request, as sent. */
  function Encode(r: Record): (b: seq<Octet>)
    requires Fits(r)
    ensures |b| == HEADER_LENGTH + |r.content| + |r.padding|
  {
    [VERSION, r.kind, REQUEST_ID / 256, REQUEST_ID % 256, |r.content| / 256, |r.content| % 256, |r.padding|, r.reserved]
    + r.content + r.padding
  }

  function EncodeAll(rs: seq<Record>): seq<Octet>
    requires forall i :: 0 <= i < |rs| ==> Fits(rs[i])
  {
    if rs == [] then [] else Encode(rs[0]) + EncodeAll(rs[1..])
  }

  // The parts of a stream that starts with a record.
  lemma {:induction false} Parts(r: Record, tail: seq<Octet>)
    requires Fits(r)
    ensures var b := Encode(r) + tail; var n := HEADER_LENGTH + |r.content|;
            && ParseHeader(b) == Header(VERSION, r.kind, REQUEST_ID, |r.content|, |r.padding|)
            && b[HEADER_LENGTH..n] == r.content && b[n..n + |r.padding|] == r.padding
            && b[n + |r.padding|..] == tail
  {
  }

  // ---- What the client makes of a reply ----

  datatype Status = Okay | SockRead | ProtErr | BadVer | Srv | Unk

  datatype Reply = Reply(data: seq<Octet>, error: seq<Octet>, other: seq<Octet>, app: int, done: bool, status: Status)

  const NOTHING: Reply := Reply([], [], [], 0, false, Okay)

  /** The number whose bytes are given, the highest first. */
  function BigEndian(c: seq<Octet>): nat {
    if c == [] then 0 else BigEndian(c[..|c| - 1]) * 256 + c[|c| - 1]
  }

  function Signed32(u: nat): int {
    if u < 0x8000_0000 then u else u - 0x1_0000_0000
  }

  lemma {:induction false} BigEndian4(c: seq<Octet>)
    requires |c| == 4
    ensures BigEndian(c) == c[0] as int * 0x1000000 + c[1] as int * 0x10000 + c[2] as int * 0x100 + c[3] as int
  {
    assert c[..3][..2] == c[..2] && c[..2][..1] == c[..1] && c[..1][..0] == [];
    assert BigEndian(c[..1]) == c[0] as int;
    assert BigEndian(c[..2]) == c[0] as int * 0x100 + c[1] as int;
    assert BigEndian(c[..3]) == c[0] as int * 0x10000 + c[1] as int * 0x100 + c[2] as int;
  }

  // The status of the request in the body of an end record, as a signed 32-bit number.
  function AppStatus(c: seq<Octet>): int
    requires |c| >= 4
  {
    Signed32(BigEndian(c[..4]))
  }

  /** What the content of one record adds. */
  function Absorb(p: Reply, kind: Octet, c: seq<Octet>): Reply {
    if c == [] then p
    else if kind == STDOUT then p.(data := p.data + c)
    else if kind == STDERR then p.(error := p.error + c)
    else if kind == END_REQUEST then
      if |c| != 8 then p.(status := ProtErr)
      else if c[4] != 0 then p.(done := true, status := Srv)
      else p.(done := true, app := AppStatus(c))
    else p.(other := p.other + c)
  }

  // The content of a record, and what its kind alone says.
  function AfterContent(p: Reply, kind: Octet, c: seq<Octet>): Reply {
    var q := Absorb(p, kind, c);
    if q.status.Okay? && kind == UNKNOWN_TYPE then q.(status := Unk) else q
  }

  /** fc_server_read on a whole stream; `early` is the error when the stream ends too soon. */
  function Demux(b: seq<Octet>, p: Reply, early: Status): Reply
    decreases |b|
  {
    if |b| < HEADER_LENGTH then p.(status := early)
    else
      var h := ParseHeader(b);
      if h.version != VERSION then p.(status := BadVer)
      else if h.id != REQUEST_ID then p.(status := ProtErr)
      else if |b| < HEADER_LENGTH + h.length then p.(status := early)
      else
        var q := AfterContent(p, h.kind, b[HEADER_LENGTH..HEADER_LENGTH + h.length]);
        if !q.status.Okay? then q
        else if |b| < HEADER_LENGTH + h.length + h.padding then q.(status := early)
        else if q.done then q
        else Demux(b[HEADER_LENGTH + h.length + h.padding..], q, early)
  }

  /** What a record with header h comes to, b being the stream behind the header. */
  function Body(h: Header, b: seq<Octet>, p: Reply, early: Status): Reply {
    if |b| < h.length then p.(status := early)
    else
      var q := AfterContent(p, h.kind, b[..h.length]);
      if q.status.Okay? && |b| < h.length + h.padding then q.(status := early) else q
  }

  lemma {:induction false} DemuxBody(b: seq<Octet>, p: Reply, early: Status)
    requires |b| >= HEADER_LENGTH && ParseHeader(b).version == VERSION && ParseHeader(b).id == REQUEST_ID
    requires !early.Okay?
    ensures var h, rest := ParseHeader(b), b[HEADER_LENGTH..];
            var q := Body(h, rest, p, early);
            && (q.status.Okay? ==> h.length + h.padding <= |rest|)
            && Demux(b, p, early) ==
               if !q.status.Okay? || q.done then q else Demux(rest[h.length + h.padding..], q, early)
  {
    var h, rest := ParseHeader(b), b[HEADER_LENGTH..];
    if |rest| >= h.length { assert rest[..h.length] == b[HEADER_LENGTH..HEADER_LENGTH + h.length]; }
    if |rest| >= h.length + h.padding {
      assert rest[h.length + h.padding..] == b[HEADER_LENGTH + h.length + h.padding..];
    }
  }

  // ---- Replies as a server sends them ----

  /** A record that neither ends the reply (type 3) nor is refused (type 11). */
  predicate Streams(r: Record) {
    |r.content| < 65536 && |r.padding| < 256 && r.kind != 11 && (r.kind == 3 ==> r.content == [])
  }

  /** The record that ends a completed request. */
  predicate Completes(r: Record) {
    |r.padding| < 256 && r.kind == 3 && |r.content| == 8 && r.content[4] == 0
  }

  predicate AllStream(rs: seq<Record>) {
    forall i :: 0 <= i < |rs| ==> Streams(rs[i])
  }

  /** The contents of the records of one kind, put together. */
  function Contents(rs: seq<Record>, kind: Octet): seq<Octet> {
    if rs == [] then [] else (if rs[0].kind == kind then rs[0].content else []) + Contents(rs[1..], kind)
  }

  function Others(rs: seq<Record>): seq<Octet> {
    if rs == [] then []
    else (if rs[0].kind == STDOUT || rs[0].kind == STDERR then [] else rs[0].content) + Others(rs[1..])
  }

  lemma {:induction false} DemuxOne(r: Record, tail: seq<Octet>, p: Reply, early: Status)
    requires Streams(r) && p.status.Okay? && !p.done
    ensures Demux(Encode(r) + tail, p, early) == Demux(tail, Absorb(p, r.kind, r.content), early)
    ensures Absorb(p, r.kind, r.content).status.Okay? && !Absorb(p, r.kind, r.content).done
  {
    Parts(r, tail);
  }

  lemma {:induction false} DemuxEnd(r: Record, tail: seq<Octet>, p: Reply, early: Status)
    requires Completes(r) && p.status.Okay? && !p.done
    ensures Demux(Encode(r) + tail, p, early) == p.(done := true, app := AppStatus(r.content))
  {
    Parts(r, tail);
  }

  // What the contents of records add, one after another.
  function Gather(p: Reply, rs: seq<Record>): Reply
    decreases |rs|
  {
    if rs == [] then p else Gather(Absorb(p, rs[0].kind, rs[0].content), rs[1..])
  }

  lemma {:induction false} GatherIs(p: Reply, rs: seq<Record>)
    requires AllStream(rs)
    ensures Gather(p, rs) ==
            p.(data := p.data + Contents(rs, STDOUT), error := p.error + Contents(rs, STDERR),
                    other := p.other + Others(rs))
    decreases |rs|
  {
    if rs == [] {
      assert p.data + [] == p.data && p.error + [] == p.error && p.other + [] == p.other;
    } else {
      var r, rest := rs[0], rs[1..];
      var q := Absorb(p, r.kind, r.content);
      GatherIs(q, rest);
      Regroup(p.data, if r.kind == STDOUT then r.content else [], Contents(rest, STDOUT));
      Regroup(p.error, if r.kind == STDERR then r.content else [], Contents(rest, STDERR));
      Regroup(p.other, if r.kind == STDOUT || r.kind == STDERR then [] else r.content, Others(rest));
      assert p.data + [] == p.data && p.error + [] == p.error && p.other + [] == p.other;
    }
  }

  lemma {:induction false} DemuxFrom(rs: seq<Record>, end: Record, tail: seq<Octet>, p: Reply, early: Status)
    requires AllStream(rs) && Completes(end) && p.status.Okay? && !p.done
    ensures Demux(EncodeAll(rs) + (Encode(end) + tail), p, early) ==
            Gather(p, rs).(done := true, app := AppStatus(end.content))
    decreases |rs|
  {
    if rs == [] {
      assert [] + (Encode(end) + tail) == Encode(end) + tail;
      DemuxEnd(end, tail, p, early);
    } else {
      var r, rest := rs[0], rs[1..];
      assert Streams(r) && AllStream(rest);
      Regroup(Encode(r), EncodeAll(rest), Encode(end) + tail);
      DemuxOne(r, EncodeAll(rest) + (Encode(end) + tail), p, early);
      DemuxFrom(rest, end, tail, Absorb(p, r.kind, r.content), early);
    }
  }

  /** The first four bytes are a signed number in two's complement, the highest byte first. */
  ghost predicate StartsWithStatus(c: seq<Octet>, n: int) {
    && |c| >= 4 && -0x8000_0000 <= n < 0x8000_0000
    && var u := if n < 0 then n + 0x1_0000_0000 else n;
       c[..4] == [u / 0x1000000, u / 0x10000 % 0x100, u / 0x100 % 0x100, u % 0x100]
  }

  lemma {:induction false} StatusRead(c: seq<Octet>, n: int)
    requires StartsWithStatus(c, n)
    ensures AppStatus(c) == n
  {
    var u := if n < 0 then n + 0x1_0000_0000 else n;
    BigEndian4(c[..4]);
    assert u / 0x10000 == u / 0x1000000 * 0x100 + u / 0x10000 % 0x100;
    assert u / 0x100 == u / 0x10000 * 0x100 + u / 0x100 % 0x100;
  }

  lemma {:induction false} FourDigits(a: nat, b: nat, c: nat, d: nat)
    requires b < 0x100 && c < 0x100 && d < 0x100
    ensures var u := a * 0x1000000 + b * 0x10000 + c * 0x100 + d;
            u / 0x1000000 == a && u / 0x10000 % 0x100 == b && u / 0x100 % 0x100 == c && u % 0x100 == d
  {
    var u := a * 0x1000000 + b * 0x10000 + c * 0x100 + d;
    assert u == ((a * 0x100 + b) * 0x100 + c) * 0x100 + d;
    assert u / 0x10000 == a * 0x100 + b && u / 0x100 == (a * 0x100 + b) * 0x100 + c;
  }

  lemma {:induction false} StatusStarts(c: seq<Octet>)
    requires |c| >= 4
    ensures StartsWithStatus(c, AppStatus(c))
  {
    BigEndian4(c[..4]);
    FourDigits(c[0], c[1], c[2], c[3]);
    assert c[..4] == [c[0], c[1], c[2], c[3]];
  }

  /** A complete reply, whatever the order, padding and number of its records, gives the standard output (type 6),
      the standard error (type 7) and the status that were sent, the status being the one that its last record
      starts with. */
  lemma {:induction false} ReplyReceived(rs: seq<Record>, end: Record, tail: seq<Octet>, early: Status, n: int)
    requires AllStream(rs) && Completes(end)
    ensures var r := Demux(EncodeAll(rs) + (Encode(end) + tail), NOTHING, early);
            && r == Reply(Contents(rs, 6), Contents(rs, 7), Others(rs), r.app, true, Okay)
            && StartsWithStatus(end.content, r.app) && (StartsWithStatus(end.content, n) ==> r.app == n)
  {
    DemuxFrom(rs, end, tail, NOTHING, early);
    GatherIs(NOTHING, rs);
    assert [] + Contents(rs, STDOUT) == Contents(rs, STDOUT) && [] + Contents(rs, STDERR) == Contents(rs, STDERR);
    assert [] + Others(rs) == Others(rs);
    StatusStarts(end.content);
    if StartsWithStatus(end.content, n) { StatusRead(end.content, n); }
  }

  // A record cut short.
  lemma {:induction false} CutOne(r: Record, k: nat, p: Reply, early: Status)
    requires Streams(r) || Completes(r)
    requires p.status.Okay? && !p.done && k < |Encode(r)|
    ensures Demux(Encode(r)[..k], p, early).status == early
  {
    var b := Encode(r)[..k];
    var n := HEADER_LENGTH + |r.content|;
    Parts(r, []);
    assert Encode(r) + [] == Encode(r);
    if k >= HEADER_LENGTH {
      assert ParseHeader(b) == ParseHeader(Encode(r));
      if k >= n { assert b[HEADER_LENGTH..n] == Encode(r)[HEADER_LENGTH..n]; }
    }
  }

  lemma {:induction false} CutFirst(r: Record, y: seq<Octet>, k: nat, p: Reply, early: Status)
    requires Streams(r) && p.status.Okay? && !p.done && k <= |Encode(r) + y|
    ensures var t := Demux((Encode(r) + y)[..k], p, early);
            if k < |Encode(r)| then t.status == early
            else t == Demux(y[..k - |Encode(r)|], Absorb(p, r.kind, r.content), early)
  {
    CutJoined(Encode(r), y, k);
    if k < |Encode(r)| {
      CutOne(r, k, p, early);
    } else {
      DemuxOne(r, y[..k - |Encode(r)|], p, early);
    }
  }

  /** A reply that breaks off anywhere is reported as an error. */
  lemma {:induction false} ReplyCutShort(rs: seq<Record>, end: Record, k: nat, p: Reply, early: Status)
    requires AllStream(rs) && Completes(end) && p.status.Okay? && !p.done
    requires k < |EncodeAll(rs) + Encode(end)|
    ensures Demux((EncodeAll(rs) + Encode(end))[..k], p, early).status == early
    decreases |rs|
  {
    if rs == [] {
      assert EncodeAll(rs) + Encode(end) == Encode(end);
      CutOne(end, k, p, early);
    } else {
      var r, rest := rs[0], rs[1..];
      var y := EncodeAll(rest) + Encode(end);
      assert Streams(r) && AllStream(rest);
      assert EncodeAll(rs) + Encode(end) == Encode(r) + y by { Regroup(Encode(r), EncodeAll(rest), Encode(end)); }
      CutFirst(r, y, k, p, early);
      if k >= |Encode(r)| {
        ReplyCutShort(rest, end, k - |Encode(r)|, Absorb(p, r.kind, r.content), early);
      }
    }
  }

  lemma {:induction false} CutJoined(a: seq<Octet>, b: seq<Octet>, k: nat)
    requires k <= |a| + |b|
    ensures (a + b)[..k] == if k < |a| then a[..k] else a + b[..k - |a|]
  {
  }

  // ---- Nothing else is a success ----

  // The record at the start of a stream.
  function First(b: seq<Octet>): Record
    requires |b| >= HEADER_LENGTH && |b| >= HEADER_LENGTH + ParseHeader(b).length + ParseHeader(b).padding
  {
    var h := ParseHeader(b);
    var n := HEADER_LENGTH + h.length;
    Record(h.kind, b[HEADER_LENGTH..n], b[n..n + h.padding], b[7])
  }

  lemma {:induction false} FirstIs(b: seq<Octet>)
    requires |b| >= HEADER_LENGTH && |b| >= HEADER_LENGTH + ParseHeader(b).length + ParseHeader(b).padding
    requires ParseHeader(b).version == VERSION && ParseHeader(b).id == REQUEST_ID
    ensures var h := ParseHeader(b);
            Fits(First(b)) && b == Encode(First(b)) + b[HEADER_LENGTH + h.length + h.padding..]
  {
    var h := ParseHeader(b);
    var n := HEADER_LENGTH + h.length;
    assert b[2] == 0 && b[3] == 1;
    assert b[..HEADER_LENGTH] == [b[0], b[1], b[2], b[3], b[4], b[5], b[6], b[7]];
    var high: int, low: int := b[4], b[5];
    assert h.length == low + high * 256 && h.length / 256 == high && h.length % 256 == low;
    assert b == b[..HEADER_LENGTH] + b[HEADER_LENGTH..n] + b[n..n + h.padding] + b[n + h.padding..];
  }

  /** The client reports success only for a stream that starts with a complete reply. */
  lemma {:induction false} SuccessIsReply(b: seq<Octet>, p: Reply, early: Status)
    returns (rs: seq<Record>, end: Record, tail: seq<Octet>)
    requires p.status.Okay? && !p.done && !early.Okay?
    requires Demux(b, p, early).status.Okay?
    ensures AllStream(rs) && Completes(end) && b == EncodeAll(rs) + (Encode(end) + tail)
    decreases |b|
  {
    var h := ParseHeader(b);
    var n := HEADER_LENGTH + h.length + h.padding;
    FirstIs(b);
    var q := AfterContent(p, h.kind, b[HEADER_LENGTH..HEADER_LENGTH + h.length]);
    if q.done {
      rs, end, tail := [], First(b), b[n..];
      assert b == [] + (Encode(end) + tail);
    } else {
      rs, end, tail := SuccessIsReply(b[n..], q, early);
      assert Streams(First(b));
      EncodeFirst(First(b), rs, Encode(end) + tail);
      rs := [First(b)] + rs;
    }
  }

  lemma {:induction false} EncodeFirst(r: Record, rs: seq<Record>, tail: seq<Octet>)
    requires Streams(r) && AllStream(rs)
    ensures AllStream([r] + rs) && Encode(r) + (EncodeAll(rs) + tail) == EncodeAll([r] + rs) + tail
  {
    assert ([r] + rs)[1..] == rs;
    Regroup(Encode(r), EncodeAll(rs), tail);
  }
}
