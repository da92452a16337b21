/**
The mDNS announcement (net/mdns_advertise.cpp) and a reader for it that
follows RFC 1035 sections 3.1, 3.3.14 and 4.1.
*/
module Mdns {
  import opened Bytes

  const DOT: byte := 46

  // ----- Writing ----------------------------------------------------------------------

  type u16 = x: int | 0 <= x < 0x1_0000

  /** The low eight bits of a length, as a cast to uint8_t keeps them. */
  function LowByte(n: nat): byte {
    if n < 256 then n else LowByte(n - 256)
  }

  /** A size cast to uint16_t. */
  function LowU16(n: nat): u16 {
    if n < 0x1_0000 then n else LowU16(n - 0x1_0000)
  }

  function U16(v: u16): (r: seq<byte>)
    ensures |r| == 2
  {
    [v / 256, v - 256 * (v / 256)]
  }

  /** Position of the first dot at or after `i`, or the length of the name. */
  function NextDot(name: seq<byte>, i: nat): (d: nat)
    requires i <= |name|
    ensures i <= d <= |name|
    decreases |name| - i
  {
    if i < |name| && name[i] != DOT then NextDot(name, i + 1) else i
  }

  /** The parts of a dotted name from `start` on. */
  function Labels(name: seq<byte>, start: nat): (v: seq<seq<byte>>)
    requires start <= |name|
    ensures v != []
    decreases |name| - start
  {
    var d := NextDot(name, start);
    if d < |name| then [name[start..d]] + Labels(name, d + 1) else [name[start..d]]
  }

  function EncodeLabel(l: seq<byte>): (r: seq<byte>)
    ensures |r| == 1 + |l|
  {
    [LowByte(|l|)] + l
  }

  /** Each label behind its length byte, then the root. */
  function EncodeLabels(labels: seq<seq<byte>>): seq<byte> {
    if labels == [] then [0] else EncodeLabel(labels[0]) + EncodeLabels(labels[1..])
  }

  /** What the loop writes from `start` on. */
  function EncodeFrom(name: seq<byte>, start: nat): seq<byte>
    requires start <= |name| + 1
    decreases |name| + 1 - start
  {
    if start > |name| then [0]
    else
      var d := NextDot(name, start);
      EncodeLabel(name[start..d]) + EncodeFrom(name, d + 1)
  }

  function Encoded(name: seq<byte>): seq<byte> { EncodeFrom(name, 0) }

  lemma FirstEncoded(l: seq<byte>, more: seq<seq<byte>>)
    ensures EncodeLabels([l] + more) == EncodeLabel(l) + EncodeLabels(more)
  {
    assert ([l] + more)[1..] == more;
  }

  lemma EncodedOn(name: seq<byte>, start: nat, d: nat)
    requires start <= |name| && d == NextDot(name, start)
    ensures EncodeFrom(name, start) == EncodeLabel(name[start..d]) + EncodeFrom(name, d + 1)
  {
  }

  lemma LabelOn(name: seq<byte>, start: nat, d: nat)
    requires start <= |name| && d == NextDot(name, start)
    ensures Labels(name, start) == [name[start..d]] + (if d < |name| then Labels(name, d + 1) else [])
  {
    assert [name[start..d]] + [] == [name[start..d]];
  }

  /** Each dot starts a label, and the last one is followed by the root. */
  lemma {:induction false} EncodedByLabel(name: seq<byte>, start: nat)
    requires start <= |name|
    ensures EncodeFrom(name, start) == EncodeLabels(Labels(name, start))
    decreases |name| - start
  {
    var d := NextDot(name, start);
    EncodedOn(name, start, d);
    LabelOn(name, start, d);
    if d < |name| {
      EncodedByLabel(name, d + 1);
      FirstEncoded(name[start..d], Labels(name, d + 1));
    } else {
      FirstEncoded(name[start..d], []);
    }
  }

  lemma AppendLabel(out: seq<byte>, l: seq<byte>, more: seq<byte>)
    ensures out + (EncodeLabel(l) + more) == ((out + [LowByte(|l|)]) + l) + more
  {
    ConcatAssoc(out, EncodeLabel(l), more);
    ConcatAssoc(out, [LowByte(|l|)], l);
  }

  /** Writing one label leaves less to write of the same whole. */
  lemma OneLabelOn(name: seq<byte>, start: nat, dot: nat, out: seq<byte>, whole: seq<byte>)
    requires start <= |name| && dot == NextDot(name, start)
    requires out + EncodeFrom(name, start) == whole
    ensures ((out + [LowByte(dot - start)]) + name[start..dot]) + EncodeFrom(name, dot + 1) == whole
  {
    var l := name[start..dot];
    assert EncodeFrom(name, start) == EncodeLabel(l) + EncodeFrom(name, dot + 1);
    AppendLabel(out, l, EncodeFrom(name, dot + 1));
  }

  method EncodeName(name: seq<byte>) returns (out: seq<byte>)
    ensures out == Encoded(name)
  {
    out := [];
    var start := 0;
    ghost var whole := EncodeFrom(name, 0);
    assert out + whole == whole;
    while start <= |name|
      invariant 0 <= start <= |name| + 1
      invariant out + EncodeFrom(name, start) == whole
    {
      var dot := NextDot(name, start);
      OneLabelOn(name, start, dot, out, whole);
      out := out + [LowByte(dot - start)];
      out := out + name[start..dot];
      start := dot + 1;
    }
    out := out + [0];
  }

  /** NAME TYPE CLASS TTL RDLENGTH RDATA; the cache-flush bit is the top bit of the class. */
  datatype Record = Record(name: seq<byte>, kind: u16, rdata: seq<byte>, ttlHigh: u16, ttlLow: u16, flush: bool)

  function ClassOf(flush: bool): u16 { if flush then 0x8001 else 1 }

  function Fixed(r: Record): (b: seq<byte>)
    ensures |b| == 10
  {
    U16(r.kind) + U16(ClassOf(r.flush)) + U16(r.ttlHigh) + U16(r.ttlLow) + U16(LowU16(|r.rdata|))
  }

  function RecordBytes(r: Record): seq<byte> { Encoded(r.name) + (Fixed(r) + r.rdata) }

  /** The byte vector the packet grows in. */
  class Packet {
    var out: seq<byte>

    constructor ()
      ensures out == []
    {
      out := [];
    }

    method PutU16(v: u16)
      modifies this
      ensures out == old(out) + U16(v)
    {
      out := out + [v / 256];
      out := out + [v - 256 * (v / 256)];
    }

    method AppendRecord(r: Record)
      modifies this
      ensures out == old(out) + RecordBytes(r)
    {
      var enc := EncodeName(r.name);
      out := out + enc;
      PutU16(r.kind);
      PutU16(if r.flush then 0x8001 else 1);
      PutU16(r.ttlHigh);
      PutU16(r.ttlLow);
      PutU16(LowU16(|r.rdata|));
      out := out + r.rdata;
    }
  }

  // ----- Reading ----------------------------------------------------------------------

  function ReadU16(s: seq<byte>): nat
    requires |s| >= 2
  {
    s[0] as int * 256 + s[1] as int
  }

  /** RFC 1035 section 3.1: labels of 1 to 63 bytes up to the root; the rest is what follows. */
  function ReadLabels(s: seq<byte>): Option<(seq<seq<byte>>, seq<byte>)>
    decreases |s|
  {
    if s == [] then None
    else if s[0] == 0 then Some(([], s[1..]))
    else if s[0] > 63 || |s| <= s[0] then None
    else
      var n: nat := 1 + s[0] as int;
      var more :- ReadLabels(s[n..]);
      Some(([s[1..n]] + more.0, more.1))
  }

  /** A name takes at most 255 bytes. */
  function ReadName(s: seq<byte>): Option<(seq<seq<byte>>, seq<byte>)> {
    var r :- ReadLabels(s);
    if |s| - |r.1| > 255 then None else Some(r)
  }

  datatype Answer = Answer(name: seq<seq<byte>>, kind: nat, class_: nat, ttl: nat, rdata: seq<byte>)

  /** RFC 1035 section 4.1.3. */
  function ReadRecord(s: seq<byte>): Option<(Answer, seq<byte>)> {
    var r :- ReadName(s);
    var f := r.1;
    if |f| < 10 then None
    else
      var n := ReadU16(f[8..]);
      if |f| < 10 + n then None
      else
        var ttl := ReadU16(f[4..]) * 0x1_0000 + ReadU16(f[6..]);
        Some((Answer(r.0, ReadU16(f), ReadU16(f[2..]), ttl, f[10..10 + n]), f[10 + n..]))
  }

  function ReadRecords(s: seq<byte>, count: nat): Option<(seq<Answer>, seq<byte>)>
    decreases count
  {
    if count == 0 then Some(([], s))
    else
      var first :- ReadRecord(s);
      var more :- ReadRecords(first.1, count - 1);
      Some(([first.0] + more.0, more.1))
  }

  /** The answers of a response that asks nothing and whose every byte is used. */
  function ReadPacket(s: seq<byte>): Option<seq<Answer>> {
    if |s| < 12 || ReadU16(s[2..]) != 0x8400 || ReadU16(s[4..]) != 0 || ReadU16(s[8..]) != 0 || ReadU16(s[10..]) != 0
    then None
    else
      var r :- ReadRecords(s[12..], ReadU16(s[6..]));
      if r.1 == [] then Some(r.0) else None
  }

  /** RFC 1035 section 3.3.14: strings behind their length bytes. */
  function ReadStrings(s: seq<byte>): Option<seq<seq<byte>>>
    decreases |s|
  {
    if s == [] then Some([])
    else if |s| <= s[0] then None
    else
      var n: nat := 1 + s[0] as int;
      var more :- ReadStrings(s[n..]);
      Some([s[1..n]] + more)
  }

  // ----- Names are read back --------------------------------------------------------------

  predicate PlainLabel(l: seq<byte>) { 1 <= |l| <= 63 }

  ghost predicate PlainLabels(labels: seq<seq<byte>>) {
    forall k | 0 <= k < |labels| :: PlainLabel(labels[k])
  }

  /** One label read from the front. */
  lemma FirstLabel(labels: seq<seq<byte>>, rest: seq<byte>)
    requires labels != []
    ensures var n := LowByte(|labels[0]|);
            var s := EncodeLabels(labels) + rest;
            s[0] == n && s[1..] == labels[0] + (EncodeLabels(labels[1..]) + rest)
  {
    var l, more := labels[0], EncodeLabels(labels[1..]);
    ConcatAssoc([LowByte(|l|)] + l, more, rest);
    ConcatAssoc([LowByte(|l|)], l, more + rest);
  }

  lemma {:induction false} LabelsReadBack(labels: seq<seq<byte>>, rest: seq<byte>)
    requires PlainLabels(labels)
    ensures ReadLabels(EncodeLabels(labels) + rest) == Some((labels, rest))
    decreases |labels|
  {
    var s := EncodeLabels(labels) + rest;
    if labels == [] {
      assert s[1..] == rest;
    } else {
      var l, more := labels[0], EncodeLabels(labels[1..]) + rest;
      FirstLabel(labels, rest);
      LabelsReadBack(labels[1..], rest);
      assert PlainLabel(l);
      LabelRead(s, l, more, labels[1..], rest);
      assert [l] + labels[1..] == labels;
    }
  }

  lemma LabelRead(s: seq<byte>, l: seq<byte>, more: seq<byte>, labels: seq<seq<byte>>, rest: seq<byte>)
    requires PlainLabel(l) && s != [] && s[0] == LowByte(|l|) && s[1..] == l + more
    requires ReadLabels(more) == Some((labels, rest))
    ensures ReadLabels(s) == Some(([l] + labels, rest))
  {
    assert s[1..1 + |l|] == s[1..][..|l|] == l;
    assert s[1 + |l|..] == s[1..][|l|..] == more;
  }

  /** With any other label, whatever is read is something else. */
  lemma {:induction false} OddLabelsNotReadBack(labels: seq<seq<byte>>, rest: seq<byte>)
    requires !PlainLabels(labels)
    ensures ReadLabels(EncodeLabels(labels) + rest) != Some((labels, rest))
    decreases |labels|
  {
    var s, l := EncodeLabels(labels) + rest, labels[0];
    var more := EncodeLabels(labels[1..]) + rest;
    FirstLabel(labels, rest);
    if PlainLabel(l) {
      assert s[1..1 + |l|] == l && s[1 + |l|..] == more;
      assert !PlainLabels(labels[1..]) by {
        var k :| 0 <= k < |labels| && !PlainLabel(labels[k]);
        assert labels[1..][k - 1] == labels[k];
      }
      OddLabelsNotReadBack(labels[1..], rest);
      var r := ReadLabels(more);
      if r.Some? && [l] + r.value.0 == labels {
        assert labels[1..] == r.value.0;
      }
    } else {
      var r := ReadLabels(s);
      if r.Some? && r.value.0 != [] {
        assert |r.value.0[0]| == s[0] <= 63;
      }
    }
  }

  /**
  A name is read back, whatever follows it, if and only if each of its labels
  has 1 to 63 bytes and the whole takes at most 255.
  */
  lemma NameReadBackIff(name: seq<byte>, rest: seq<byte>)
    ensures ReadName(Encoded(name) + rest) == Some((Labels(name, 0), rest)) <==>
            PlainLabels(Labels(name, 0)) && |Encoded(name)| <= 255
  {
    EncodedByLabel(name, 0);
    if PlainLabels(Labels(name, 0)) {
      LabelsReadBack(Labels(name, 0), rest);
    } else {
      OddLabelsNotReadBack(Labels(name, 0), rest);
    }
  }

  // ----- Dotted names ---------------------------------------------------------------------

  ghost predicate DotFree(l: seq<byte>) {
    forall i | 0 <= i < |l| :: l[i] != DOT
  }

  function Dotted(labels: seq<seq<byte>>): seq<byte> {
    if labels == [] then []
    else if |labels| == 1 then labels[0]
    else labels[0] + ([DOT] + Dotted(labels[1..]))
  }

  lemma {:induction false} NextDotIs(name: seq<byte>, i: nat, d: nat)
    requires i <= d <= |name|
    requires forall j | i <= j < d :: name[j] != DOT
    requires d < |name| ==> name[d] == DOT
    ensures NextDot(name, i) == d
    decreases d - i
  {
    if i < d {
      NextDotIs(name, i + 1, d);
    }
  }

  /** `b` is what `s` holds from position `m` on. */
  ghost predicate Behind(s: seq<byte>, m: nat, b: seq<byte>) {
    |s| == m + |b| && forall i | 0 <= i < |b| :: s[m + i] == b[i]
  }

  lemma {:induction false} NextDotBehind(s: seq<byte>, m: nat, b: seq<byte>, i: nat)
    requires Behind(s, m, b) && i <= |b|
    ensures NextDot(s, m + i) == m + NextDot(b, i)
    decreases |b| - i
  {
    if i < |b| && b[i] != DOT {
      NextDotBehind(s, m, b, i + 1);
    }
  }

  lemma SliceBehind(s: seq<byte>, m: nat, b: seq<byte>, i: nat, d: nat)
    requires Behind(s, m, b) && i <= d <= |b|
    ensures s[m + i..m + d] == b[i..d]
  {
  }

  lemma {:induction false} LabelsBehind(s: seq<byte>, m: nat, b: seq<byte>, i: nat)
    requires Behind(s, m, b) && i <= |b|
    ensures Labels(s, m + i) == Labels(b, i)
    decreases |b| - i
  {
    var d := NextDot(b, i);
    NextDotBehind(s, m, b, i);
    SliceBehind(s, m, b, i, d);
    if d < |b| {
      LabelsBehind(s, m, b, d + 1);
    }
  }

  /** The labels of a dotted name are the ones it was joined from, when they hold no dots. */
  lemma {:induction false} LabelsOfDotted(labels: seq<seq<byte>>)
    requires labels != [] && forall k | 0 <= k < |labels| :: DotFree(labels[k])
    ensures Labels(Dotted(labels), 0) == labels
    decreases |labels|
  {
    var l, name := labels[0], Dotted(labels);
    assert DotFree(l);
    if |labels| == 1 {
      NextDotIs(name, 0, |l|);
      assert name[0..|l|] == l;
    } else {
      var rest := Dotted(labels[1..]);
      LabelsOfDotted(labels[1..]);
      LabelBefore(l, rest);
      assert labels == [l] + labels[1..];
    }
  }

  lemma LabelBefore(l: seq<byte>, rest: seq<byte>)
    requires DotFree(l)
    ensures Labels(l + ([DOT] + rest), 0) == [l] + Labels(rest, 0)
  {
    var name, front := l + ([DOT] + rest), l + [DOT];
    assert name == front + rest;
    assert name[|l|] == DOT;
    NextDotIs(name, 0, |l|);
    assert name[0..|l|] == l;
    assert Behind(name, |front|, rest);
    LabelsBehind(name, |front|, rest, 0);
  }

  // ----- The announcement -----------------------------------------------------------------

  /** "_opensidecar", "_tcp", "local", "opendisplay", "id=" and "pv=" */
  const SERVICE: seq<byte> := [95, 111, 112, 101, 110, 115, 105, 100, 101, 99, 97, 114]
  const TCP: seq<byte> := [95, 116, 99, 112]
  const LOCAL: seq<byte> := [108, 111, 99, 97, 108]
  const DEFAULT_HOST: seq<byte> := [111, 112, 101, 110, 100, 105, 115, 112, 108, 97, 121]
  const ID_KEY: seq<byte> := [105, 100, 61]
  const PV_KEY: seq<byte> := [112, 118, 61]
  const SPACE: byte := 32

  const TYPE_A: u16 := 1
  const TYPE_PTR: u16 := 12
  const TYPE_TXT: u16 := 16
  const TYPE_SRV: u16 := 33

  /** What the advertisement is about; `pv` is the decimal text of the protocol version. */
  datatype Service = Service(instance: seq<byte>, id: seq<byte>, pv: seq<byte>, port: u16, address: seq<byte>)

  function NoSpaces(s: seq<byte>): (r: seq<byte>)
    ensures |r| <= |s|
    ensures DotFree(s) ==> DotFree(r)
  {
    if s == [] then [] else (if s[0] == SPACE then [] else [s[0]]) + NoSpaces(s[1..])
  }

  function HostLabel(instance: seq<byte>): seq<byte> {
    if NoSpaces(instance) == [] then DEFAULT_HOST else NoSpaces(instance)
  }

  function HostName(instance: seq<byte>): seq<byte> { Dotted([HostLabel(instance), LOCAL]) }

  function ServiceDomain(): seq<byte> { Dotted([SERVICE, TCP, LOCAL]) }

  function FullInstance(instance: seq<byte>): seq<byte> { Dotted([instance, SERVICE, TCP, LOCAL]) }

  function TxtString(s: seq<byte>): seq<byte> { EncodeLabel(s) }

  function PtrRecord(domain: seq<byte>, instance: seq<byte>): Record {
    Record(domain, TYPE_PTR, Encoded(instance), 0, 4500, false)
  }

  function SrvData(host: seq<byte>, port: u16): seq<byte> {
    U16(0) + U16(0) + U16(port) + Encoded(host)
  }

  function SrvRecord(instance: seq<byte>, host: seq<byte>, port: u16): Record {
    Record(instance, TYPE_SRV, SrvData(host, port), 0, 120, true)
  }

  function TxtData(id: seq<byte>, pv: seq<byte>): seq<byte> {
    TxtString(ID_KEY + id) + TxtString(PV_KEY + pv)
  }

  function TxtRecord(instance: seq<byte>, id: seq<byte>, pv: seq<byte>): Record {
    Record(instance, TYPE_TXT, TxtData(id, pv), 0, 120, true)
  }

  function ARecord(host: seq<byte>, address: seq<byte>): Record {
    Record(host, TYPE_A, address, 0, 120, true)
  }

  /** Response and authoritative, nothing asked, four answers. */
  const HEADER: seq<byte> := [0, 0, 0x84, 0, 0, 0, 0, 4, 0, 0, 0, 0]

  function AllBytes(records: seq<Record>): seq<byte> {
    if records == [] then [] else RecordBytes(records[0]) + AllBytes(records[1..])
  }

  /** The records of the announcement under its three names. */
  function RecordsOf(domain: seq<byte>, instance: seq<byte>, host: seq<byte>, v: Service): seq<Record> {
    [PtrRecord(domain, instance), SrvRecord(instance, host, v.port), TxtRecord(instance, v.id, v.pv),
     ARecord(host, v.address)]
  }

  function Records(v: Service): seq<Record> {
    RecordsOf(ServiceDomain(), FullInstance(v.instance), HostName(v.instance), v)
  }

  function Announcement(v: Service): seq<byte> { HEADER + AllBytes(Records(v)) }

  method BuildSrv(host: seq<byte>, port: u16) returns (rdata: seq<byte>)
    ensures rdata == SrvData(host, port)
  {
    var srv := new Packet();
    srv.PutU16(0);
    srv.PutU16(0);
    srv.PutU16(port);
    var hostEnc := EncodeName(host);
    assert [] + U16(0) == U16(0);
    rdata := srv.out + hostEnc;
  }

  method BuildHeader() returns (pkt: Packet)
    ensures fresh(pkt) && pkt.out == HEADER
  {
    pkt := new Packet();
    pkt.PutU16(0);
    pkt.PutU16(0x8400);
    pkt.PutU16(0);
    pkt.PutU16(4);
    pkt.PutU16(0);
    pkt.PutU16(0);
    assert U16(0) == [0, 0] && U16(0x8400) == [0x84, 0] && U16(4) == [0, 4];
  }

  method BuildPacket(domain: seq<byte>, instance: seq<byte>, host: seq<byte>, v: Service) returns (bytes: seq<byte>)
    ensures bytes == HEADER + AllBytes(RecordsOf(domain, instance, host, v))
  {
    var pkt := BuildHeader();
    var target := EncodeName(instance);
    pkt.AppendRecord(Record(domain, TYPE_PTR, target, 0, 4500, false));
    var srv := BuildSrv(host, v.port);
    pkt.AppendRecord(Record(instance, TYPE_SRV, srv, 0, 120, true));
    var txt := TxtString(ID_KEY + v.id);
    txt := txt + TxtString(PV_KEY + v.pv);
    pkt.AppendRecord(Record(instance, TYPE_TXT, txt, 0, 120, true));
    pkt.AppendRecord(Record(host, TYPE_A, v.address, 0, 120, true));
    FourRecords(PtrRecord(domain, instance), SrvRecord(instance, host, v.port), TxtRecord(instance, v.id, v.pv),
                ARecord(host, v.address));
    bytes := pkt.out;
  }

  lemma FourRecords(a: Record, b: Record, c: Record, d: Record)
    ensures HEADER + AllBytes([a, b, c, d]) ==
            (((HEADER + RecordBytes(a)) + RecordBytes(b)) + RecordBytes(c)) + RecordBytes(d)
  {
    FirstBytes(a, [b, c, d]);
    FirstBytes(b, [c, d]);
    FirstBytes(c, [d]);
    FirstBytes(d, []);
    FourParts(HEADER, RecordBytes(a), RecordBytes(b), RecordBytes(c), RecordBytes(d));
  }

  lemma FirstBytes(a: Record, more: seq<Record>)
    ensures AllBytes([a] + more) == RecordBytes(a) + AllBytes(more)
  {
    assert ([a] + more)[1..] == more;
  }

  lemma FourParts(h: seq<byte>, a: seq<byte>, b: seq<byte>, c: seq<byte>, d: seq<byte>)
    ensures h + (a + (b + (c + (d + [])))) == (((h + a) + b) + c) + d
  {
  }

  method BuildAnnouncement(v: Service) returns (announcement: seq<byte>)
    ensures announcement == Announcement(v)
  {
    announcement := BuildPacket(ServiceDomain(), FullInstance(v.instance), HostName(v.instance), v);
  }

  // ----- The announcement is read back ------------------------------------------------------

  predicate Readable(name: seq<byte>) {
    |Encoded(name)| <= 255 && forall k | 0 <= k < |Labels(name, 0)| :: PlainLabel(Labels(name, 0)[k])
  }

  function AnswerOf(r: Record): Answer {
    Answer(Labels(r.name, 0), r.kind, ClassOf(r.flush), r.ttlHigh * 0x1_0000 + r.ttlLow, r.rdata)
  }

  lemma FixedReadBack(r: Record, b: seq<byte>)
    requires |r.rdata| < 0x1_0000
    ensures var f := Fixed(r) + b;
            && ReadU16(f) == r.kind
            && ReadU16(f[2..]) == ClassOf(r.flush)
            && ReadU16(f[4..]) == r.ttlHigh
            && ReadU16(f[6..]) == r.ttlLow
            && ReadU16(f[8..]) == |r.rdata|
  {
    var k, c, h, l, n := U16(r.kind), U16(ClassOf(r.flush)), U16(r.ttlHigh), U16(r.ttlLow), U16(LowU16(|r.rdata|));
    var f := Fixed(r) + b;
    assert f[0] == k[0] && f[1] == k[1];
    assert f[2..][0] == c[0] && f[2..][1] == c[1];
    assert f[4..][0] == h[0] && f[4..][1] == h[1];
    assert f[6..][0] == l[0] && f[6..][1] == l[1];
    assert f[8..][0] == n[0] && f[8..][1] == n[1];
  }

  /** A record is read back, whatever follows it, if its name fits the DNS limits. */
  lemma RecordReadBack(r: Record, rest: seq<byte>)
    requires Readable(r.name) && |r.rdata| < 0x1_0000
    ensures ReadRecord(RecordBytes(r) + rest) == Some((AnswerOf(r), rest))
  {
    var f := Fixed(r) + (r.rdata + rest);
    NameReadBackIff(r.name, f);
    FixedReadBack(r, r.rdata + rest);
    RecordSplits(r, rest);
    assert f[10..10 + |r.rdata|] == r.rdata && f[10 + |r.rdata|..] == rest;
  }

  lemma RecordSplits(r: Record, rest: seq<byte>)
    ensures RecordBytes(r) + rest == Encoded(r.name) + (Fixed(r) + (r.rdata + rest))
  {
    ConcatAssoc(Encoded(r.name), Fixed(r) + r.rdata, rest);
    ConcatAssoc(Fixed(r), r.rdata, rest);
  }

  function AnswersOf(records: seq<Record>): seq<Answer> {
    if records == [] then [] else [AnswerOf(records[0])] + AnswersOf(records[1..])
  }

  ghost predicate AllReadable(records: seq<Record>) {
    forall k | 0 <= k < |records| :: Readable(records[k].name) && |records[k].rdata| < 0x1_0000
  }

  lemma {:induction false} RecordsReadBack(records: seq<Record>)
    requires AllReadable(records)
    ensures ReadRecords(AllBytes(records), |records|) == Some((AnswersOf(records), []))
    decreases |records|
  {
    if records != [] {
      RecordReadBack(records[0], AllBytes(records[1..]));
      RecordsReadBack(records[1..]);
    }
  }

  lemma EncodedSize(l: seq<byte>, more: seq<seq<byte>>)
    ensures |EncodeLabels([l] + more)| == 1 + |l| + |EncodeLabels(more)|
  {
    FirstEncoded(l, more);
  }

  /** Names of one free label before the fixed ones stay within 255 bytes. */
  lemma NameReadable(l: seq<byte>, more: seq<seq<byte>>, name: seq<byte>)
    requires name == Dotted([l] + more) && DotFree(l)
    requires forall k | 0 <= k < |more| :: DotFree(more[k]) && PlainLabel(more[k])
    requires |EncodeLabels(more)| <= 100
    ensures Labels(name, 0) == [l] + more
    ensures Readable(name) <==> PlainLabel(l)
    ensures forall rest: seq<byte> :: ReadName(Encoded(name) + rest) == Some(([l] + more, rest)) <==> PlainLabel(l)
  {
    var labels := [l] + more;
    forall k | 0 <= k < |labels|
      ensures DotFree(labels[k]) && (k > 0 ==> PlainLabel(labels[k]))
    {
      if k > 0 {
        assert labels[k] == more[k - 1];
      }
    }
    LabelsOfDotted(labels);
    EncodedByLabel(name, 0);
    EncodedSize(l, more);
    assert labels[0] == l;
    assert PlainLabels(labels) <==> PlainLabel(l);
    forall rest: seq<byte>
      ensures ReadName(Encoded(name) + rest) == Some((labels, rest)) <==> PlainLabel(l)
    {
      NameReadBackIff(name, rest);
    }
  }

  /** The fixed labels hold no dots, are plain, and leave room for a free one. */
  lemma FixedLabels()
    ensures DotFree(SERVICE) && DotFree(TCP) && DotFree(LOCAL) && DotFree(DEFAULT_HOST)
    ensures PlainLabel(SERVICE) && PlainLabel(TCP) && PlainLabel(LOCAL) && PlainLabel(DEFAULT_HOST)
    ensures |EncodeLabels([LOCAL])| <= 10 && |EncodeLabels([TCP, LOCAL])| <= 20
    ensures |EncodeLabels([SERVICE, TCP, LOCAL])| <= 40
  {
    EncodedSize(LOCAL, []);
    EncodedSize(TCP, [LOCAL]);
    EncodedSize(SERVICE, [TCP, LOCAL]);
    assert [LOCAL] + [] == [LOCAL];
  }

  function InstanceLabels(v: Service): seq<seq<byte>> { [v.instance] + [SERVICE, TCP, LOCAL] }

  function HostLabels(v: Service): seq<seq<byte>> { [HostLabel(v.instance)] + [LOCAL] }

  /** A dot-free instance name is read back from the PTR record if and only if it has 1 to 63 bytes. */
  lemma InstanceReadableIff(v: Service)
    requires DotFree(v.instance)
    ensures ReadName(Records(v)[0].rdata) == Some((InstanceLabels(v), [])) <==> 1 <= |v.instance| <= 63
  {
    FixedLabels();
    NameReadable(v.instance, [SERVICE, TCP, LOCAL], FullInstance(v.instance));
    var rdata := Records(v)[0].rdata;
    assert rdata + [] == rdata == Encoded(FullInstance(v.instance));
  }

  lemma OneString(b: seq<byte>)
    ensures ReadStrings(TxtString(b)) == Some([b]) <==> |b| <= 255
  {
    var s := TxtString(b);
    var r := ReadStrings(s);
    if |b| <= 255 {
      assert s[1..1 + |b|] == b && s[1 + |b|..] == [];
      assert [b] + [] == [b];
    } else if r.Some? {
      assert |r.value[0]| == LowByte(|b|);
    }
  }

  /** RFC 1035 character strings carry at most 255 bytes; longer ones do not come back. */
  lemma TxtReadBackIff(a: seq<byte>, b: seq<byte>)
    ensures ReadStrings(TxtString(a) + TxtString(b)) == Some([a, b]) <==> |a| <= 255 && |b| <= 255
  {
    var s := TxtString(a) + TxtString(b);
    var r := ReadStrings(s);
    if |a| <= 255 {
      assert s[1..1 + |a|] == a && s[1 + |a|..] == TxtString(b);
      OneString(b);
      var more := ReadStrings(TxtString(b));
      assert more.Some? ==> r == Some([a] + more.value) && ([a] + more.value)[1..] == more.value;
      assert [a, b][1..] == [b] && [a, b] == [a] + [b];
    } else if r.Some? {
      assert |r.value[0]| == LowByte(|a|);
    }
  }

  /** Four answers of the announcement's types, classes and lifetimes, under these names. */
  function FourAnswers(domain: seq<seq<byte>>, instance: seq<seq<byte>>, host: seq<seq<byte>>, r: seq<Record>)
      : seq<Answer>
    requires |r| == 4
  {
    [Answer(domain, 12, 1, 4500, r[0].rdata),
     Answer(instance, 33, 0x8001, 120, r[1].rdata),
     Answer(instance, 16, 0x8001, 120, r[2].rdata),
     Answer(host, 1, 0x8001, 120, r[3].rdata)]
  }

  /** What a reader following RFC 1035 finds in the announcement. */
  function Announced(v: Service): seq<Answer> {
    FourAnswers([SERVICE, TCP, LOCAL], InstanceLabels(v), HostLabels(v), Records(v))
  }

  lemma HostReadable(v: Service)
    requires DotFree(v.instance) && |v.instance| <= 63
    ensures PlainLabel(HostLabel(v.instance)) && Readable(HostName(v.instance))
    ensures Labels(HostName(v.instance), 0) == HostLabels(v)
    ensures forall rest: seq<byte> :: ReadName(Encoded(HostName(v.instance)) + rest) == Some((HostLabels(v), rest))
  {
    FixedLabels();
    NameReadable(HostLabel(v.instance), [LOCAL], HostName(v.instance));
  }

  /**
  For a dot-free instance name of 1 to 63 bytes and TXT strings of at most 255,
  the packet is exactly four records with the intended names, types, classes,
  cache-flush bits and lifetimes, every byte is used, and the data of each
  record reads back as the instance, the port and host, the id and version, and
  the address.
  */
  lemma {:induction false} AnnouncementReadBack(v: Service)
    requires DotFree(v.instance) && 1 <= |v.instance| <= 63
    requires |ID_KEY + v.id| <= 255 && |PV_KEY + v.pv| <= 255 && |v.address| == 4
    ensures ReadPacket(Announcement(v)) == Some(Announced(v))
    ensures var answers := Announced(v);
            && ReadName(answers[0].rdata) == Some((InstanceLabels(v), []))
            && |answers[1].rdata| >= 6 && ReadU16(answers[1].rdata) == ReadU16(answers[1].rdata[2..]) == 0
            && ReadU16(answers[1].rdata[4..]) == v.port
            && ReadName(answers[1].rdata[6..]) == Some((HostLabels(v), []))
            && ReadStrings(answers[2].rdata) == Some([ID_KEY + v.id, PV_KEY + v.pv])
            && answers[3].rdata == v.address
  {
    InstanceReadableIff(v);
    PacketReadBack(v);
    SrvReadBack(v);
    TxtReadBackIff(ID_KEY + v.id, PV_KEY + v.pv);
  }

  /** The bytes of a text of ASCII characters. */
  function Ascii(s: string): (b: seq<byte>)
    ensures |b| == |s|
  {
    seq(|s|, i requires 0 <= i < |s| => s[i] as int % 256)
  }

  /** The answer says this, under this name. */
  ghost predicate Says(a: Answer, name: seq<seq<byte>>, kind: nat, class_: nat, ttl: nat) {
    a.name == name && a.kind == kind && a.class_ == class_ && a.ttl == ttl
  }

  lemma FixedTexts()
    ensures SERVICE == Ascii("_opensidecar") && TCP == Ascii("_tcp") && LOCAL == Ascii("local")
    ensures ID_KEY == Ascii("id=") && PV_KEY == Ascii("pv=") && DEFAULT_HOST == Ascii("opendisplay")
  {
  }

  /**
  The announcement in the terms of RFC 6762 and RFC 1035: a shared PTR record
  from _opensidecar._tcp.local to the instance for 4500 seconds, and for 120
  seconds, replacing what was cached, the instance's SRV record (priority and
  weight 0, its port and host), its TXT record (id and pv) and the host's address.
  */
  lemma AnnouncementSays(v: Service) returns (a: seq<Answer>)
    requires DotFree(v.instance) && 1 <= |v.instance| <= 63
    requires |v.id| <= 252 && |v.pv| <= 252 && |v.address| == 4
    ensures ReadPacket(Announcement(v)) == Some(a) && |a| == 4
    ensures var service := [Ascii("_opensidecar"), Ascii("_tcp"), Ascii("local")];
            var host := [HostLabel(v.instance), Ascii("local")];
            && Says(a[0], service, 12, 0x0001, 4500) && ReadName(a[0].rdata) == Some(([v.instance] + service, []))
            && Says(a[1], [v.instance] + service, 33, 0x8001, 120) && |a[1].rdata| >= 6
            && a[1].rdata[..4] == [0, 0, 0, 0] && ReadU16(a[1].rdata[4..]) == v.port
            && ReadName(a[1].rdata[6..]) == Some((host, []))
            && Says(a[2], [v.instance] + service, 16, 0x8001, 120)
            && ReadStrings(a[2].rdata) == Some([Ascii("id=") + v.id, Ascii("pv=") + v.pv])
            && Says(a[3], host, 1, 0x8001, 120) && a[3].rdata == v.address
  {
    FixedTexts();
    AnnouncementReadBack(v);
    a := Announced(v);
    assert [HostLabel(v.instance)] + [LOCAL] == [HostLabel(v.instance), LOCAL];
    assert a[1].rdata[..4] == [0, 0, 0, 0] by {
      assert a[1].rdata[0] == 0 && a[1].rdata[1] == 0 && a[1].rdata[2] == 0 && a[1].rdata[3] == 0;
    }
  }

  lemma {:induction false} NoSpacesAppend(a: seq<byte>, b: seq<byte>)
    ensures NoSpaces(a + b) == NoSpaces(a) + NoSpaces(b)
  {
    if a == [] {
      assert a + b == b;
    } else {
      assert (a + b)[0] == a[0] && (a + b)[1..] == a[1..] + b;
      NoSpacesAppend(a[1..], b);
      ConcatAssoc(if a[0] == SPACE then [] else [a[0]], NoSpaces(a[1..]), NoSpaces(b));
    }
  }

  lemma {:induction false} NoSpacesKept(a: seq<byte>)
    requires forall i | 0 <= i < |a| :: a[i] != 32
    ensures NoSpaces(a) == a
  {
    if a != [] {
      NoSpacesKept(a[1..]);
      assert a == [a[0]] + a[1..];
    }
  }

  /** The host is the instance with each space left out, and "opendisplay" when nothing else is there. */
  lemma HostWithoutSpaces(a: seq<byte>, b: seq<byte>)
    ensures HostLabel([]) == HostLabel([32]) == Ascii("opendisplay")
    ensures HostLabel(a + [32] + b) == HostLabel(a + b)
    ensures a != [] && (forall i | 0 <= i < |a| :: a[i] != 32) ==> HostLabel(a) == a
  {
    FixedTexts();
    NoSpacesAppend(a + [32], b);
    NoSpacesAppend(a, [32]);
    NoSpacesAppend(a, b);
    assert NoSpaces([32]) == [] + NoSpaces([32][1..]) == [];
    assert NoSpaces(a) + [] == NoSpaces(a);
    if forall i | 0 <= i < |a| :: a[i] != 32 {
      NoSpacesKept(a);
    }
  }

  lemma SrvReadBack(v: Service)
    requires DotFree(v.instance) && |v.instance| <= 63
    ensures var rdata := SrvData(HostName(v.instance), v.port);
            && |rdata| >= 6 && ReadU16(rdata) == ReadU16(rdata[2..]) == 0 && ReadU16(rdata[4..]) == v.port
            && ReadName(rdata[6..]) == Some((HostLabels(v), []))
  {
    HostReadable(v);
    var host := Encoded(HostName(v.instance));
    var rdata := SrvData(HostName(v.instance), v.port);
    assert rdata[6..] == host == host + [];
    assert rdata[4..][0] == U16(v.port)[0] && rdata[4..][1] == U16(v.port)[1];
    assert rdata[0] == rdata[1] == rdata[2..][0] == rdata[2..][1] == 0;
  }

  lemma {:induction false} PacketReadBack(v: Service)
    requires DotFree(v.instance) && 1 <= |v.instance| <= 63
    requires |ID_KEY + v.id| <= 255 && |PV_KEY + v.pv| <= 255 && |v.address| == 4
    ensures ReadPacket(Announcement(v)) == Some(Announced(v))
  {
    var r := Records(v);
    RecordsReadable(v);
    RecordsReadBack(r);
    HeaderReadBack(AllBytes(r));
    AnswersNamed(ServiceDomain(), FullInstance(v.instance), HostName(v.instance), v);
  }

  lemma AnswersNamed(domain: seq<byte>, instance: seq<byte>, host: seq<byte>, v: Service)
    ensures var r := RecordsOf(domain, instance, host, v);
            AnswersOf(r) == FourAnswers(Labels(domain, 0), Labels(instance, 0), Labels(host, 0), r)
  {
    var r := RecordsOf(domain, instance, host, v);
    AnswersListed(r[0], r[1], r[2], r[3]);
    assert r == [r[0], r[1], r[2], r[3]];
  }

  /** The header announces four answers and nothing else. */
  lemma HeaderReadBack(body: seq<byte>)
    ensures ReadPacket(HEADER + body) ==
            match ReadRecords(body, 4)
            case Some(r) => (if r.1 == [] then Some(r.0) else None)
            case None => None
  {
    var s := HEADER + body;
    assert s[12..] == body;
    assert s[2..][0] == 0x84 && s[2..][1] == 0 && s[4..][0] == 0 && s[4..][1] == 0 && s[6..][0] == 0 && s[6..][1] == 4;
    assert s[8..][0] == 0 && s[8..][1] == 0 && s[10..][0] == 0 && s[10..][1] == 0;
  }

  lemma FirstAnswer(a: Record, more: seq<Record>)
    ensures AnswersOf([a] + more) == [AnswerOf(a)] + AnswersOf(more)
  {
    assert ([a] + more)[1..] == more;
  }

  lemma AnswersListed(a: Record, b: Record, c: Record, d: Record)
    ensures AnswersOf([a, b, c, d]) == [AnswerOf(a), AnswerOf(b), AnswerOf(c), AnswerOf(d)]
  {
    FirstAnswer(a, [b, c, d]);
    FirstAnswer(b, [c, d]);
    FirstAnswer(c, [d]);
    FirstAnswer(d, []);
  }

  lemma NamesReadable(v: Service)
    requires DotFree(v.instance) && 1 <= |v.instance| <= 63
    ensures Readable(ServiceDomain()) && Readable(FullInstance(v.instance)) && Readable(HostName(v.instance))
    ensures Labels(ServiceDomain(), 0) == [SERVICE, TCP, LOCAL]
    ensures Labels(FullInstance(v.instance), 0) == InstanceLabels(v)
    ensures Labels(HostName(v.instance), 0) == HostLabels(v)
  {
    FixedLabels();
    assert [SERVICE] + [TCP, LOCAL] == [SERVICE, TCP, LOCAL];
    NameReadable(SERVICE, [TCP, LOCAL], ServiceDomain());
    InstanceName(v);
    HostReadable(v);
  }

  lemma InstanceName(v: Service)
    requires DotFree(v.instance) && 1 <= |v.instance| <= 63
    ensures Readable(FullInstance(v.instance)) && Labels(FullInstance(v.instance), 0) == InstanceLabels(v)
  {
    FixedLabels();
    NameReadable(v.instance, [SERVICE, TCP, LOCAL], FullInstance(v.instance));
  }

  lemma RecordsFit(domain: seq<byte>, instance: seq<byte>, host: seq<byte>, v: Service)
    requires Readable(domain) && Readable(instance) && Readable(host)
    requires |ID_KEY + v.id| <= 255 && |PV_KEY + v.pv| <= 255 && |v.address| == 4
    ensures AllReadable(RecordsOf(domain, instance, host, v))
  {
    var r := RecordsOf(domain, instance, host, v);
    assert Readable(r[0].name) && |r[0].rdata| <= 255;
    assert Readable(r[1].name) && |r[1].rdata| <= 261;
    assert Readable(r[2].name) && |r[2].rdata| <= 512;
    assert Readable(r[3].name) && |r[3].rdata| == 4;
    forall k | 0 <= k < |r|
      ensures Readable(r[k].name) && |r[k].rdata| < 0x1_0000
    {
      assert k == 0 || k == 1 || k == 2 || k == 3;
    }
  }

  lemma {:induction false} RecordsReadable(v: Service)
    requires DotFree(v.instance) && 1 <= |v.instance| <= 63
    requires |ID_KEY + v.id| <= 255 && |PV_KEY + v.pv| <= 255 && |v.address| == 4
    ensures AllReadable(Records(v))
    ensures Labels(ServiceDomain(), 0) == [SERVICE, TCP, LOCAL]
    ensures Labels(FullInstance(v.instance), 0) == InstanceLabels(v)
    ensures Labels(HostName(v.instance), 0) == HostLabels(v)
  {
    NamesReadable(v);
    RecordsFit(ServiceDomain(), FullInstance(v.instance), HostName(v.instance), v);
  }
}
