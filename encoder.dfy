/**
 * The other side of the decoder: what a name server writes (RFC 1035,
 * section 4.1.3), without compression. Every record written here decodes
 * to the record the client reports for it.
 */
module Encoder {
  import opened Wire
  import opened Text
  import opened Names
  import opened Query
  import opened Decoder

  /** RDATA as a server writes it. */
  datatype WireData =
    | AddressData(a: byte, b: byte, c: byte, d: byte)
    | NameData(rrType: u16, target: seq<seq<byte>>)       // NS or CNAME
    | MxData(preference: u16, exchange: seq<seq<byte>>)
    | OtherData(rrType: u16, rdata: seq<byte>)            // a type the client does not decode

  datatype WireRecord = WireRecord(owner: seq<seq<byte>>, rrClass: u16, ttl: u32, data: WireData)

  predicate DataOk(d: WireData)
  {
    match d
    case AddressData(_, _, _, _) => true
    case NameData(t, ls) => (t == TYPE_NS || t == TYPE_CNAME) && AllLabels(ls) && WireLength(ls) < 0x1_0000
    case MxData(_, ls) => AllLabels(ls) && WireLength(ls) + 2 < 0x1_0000
    case OtherData(t, bytes) => t != TYPE_A && t != TYPE_NS && t != TYPE_CNAME && t != TYPE_MX && |bytes| < 0x1_0000
  }

  predicate RecordOk(w: WireRecord)
  {
    AllLabels(w.owner) && DataOk(w.data)
  }

  function TypeOf(d: WireData): u16
  {
    match d
    case AddressData(_, _, _, _) => TYPE_A
    case NameData(t, _) => t
    case MxData(_, _) => TYPE_MX
    case OtherData(t, _) => t
  }

  function RDataBytes(d: WireData): (r: seq<byte>)
    requires DataOk(d)
    ensures |r| < 0x1_0000
  {
    match d
    case AddressData(a, b, c, e) => [a, b, c, e]
    case NameData(_, ls) => EncodedLength(ls); EncodeLabels(ls)
    case MxData(p, ls) => EncodedLength(ls); Be16(p) + EncodeLabels(ls)
    case OtherData(_, bytes) => bytes
  }

  /** The owner name, TYPE, CLASS, TTL, RDLENGTH and RDATA. */
  function EncodeRecord(w: WireRecord): seq<byte>
    requires RecordOk(w)
  {
    var rdata := RDataBytes(w.data);
    EncodeLabels(w.owner) + (FixedBytes(TypeOf(w.data), w.rrClass, w.ttl, |rdata|) + rdata)
  }

  function FixedBytes(t: u16, c: u16, ttl: u32, n: u16): (r: seq<byte>)
    ensures |r| == 10
  {
    Be16(t) + Be16(c) + Be32(ttl) + Be16(n)
  }

  /** The record the client reports for a written record. */
  function Expected(w: WireRecord, section: Section, auth: bool): Record
  {
    Record(section, auth, NameText(w.owner), w.rrClass, w.ttl, ExpectedData(w.data))
  }

  function ExpectedData(d: WireData): RData
  {
    match d
    case AddressData(a, b, c, e) => Address(a, b, c, e)
    case NameData(t, ls) => if t == TYPE_CNAME then CanonicalName(NameText(ls)) else NameServer(NameText(ls))
    case MxData(p, ls) => MailExchange(p, NameText(ls))
    case OtherData(t, _) => Unsupported(t)
  }

  // ---------------------------------------------------------------------
  // Slicing helpers

  lemma Halves(buf: seq<byte>, p: nat, x: seq<byte>, y: seq<byte>)
    requires p + |x + y| <= |buf| && buf[p..p + |x + y|] == x + y
    ensures buf[p..p + |x|] == x && buf[p + |x|..p + |x| + |y|] == y
  {
    assert buf[p..p + |x|] == (x + y)[..|x|];
    assert buf[p + |x|..p + |x| + |y|] == (x + y)[|x|..];
  }

  lemma NameAt(buf: seq<byte>, p: nat, ls: seq<seq<byte>>)
    requires AllLabels(ls)
    requires p + |EncodeLabels(ls)| <= |buf| && buf[p..p + |EncodeLabels(ls)|] == EncodeLabels(ls)
    ensures DecodeName(buf, p) == Some(NameResult(NameText(ls), p + |EncodeLabels(ls)|))
  {
    WalkEncoded(buf, p, ls, |buf|);
  }

  lemma FixedFields(buf: seq<byte>, q: nat, t: u16, c: u16, ttl: u32, n: u16)
    requires q + 10 <= |buf| && buf[q..q + 10] == FixedBytes(t, c, ttl, n)
    ensures FixedAt(buf, q) == Some(Fixed(t, c, ttl, n))
  {
    var f := buf[q..q + 10];
    assert buf[q] == f[0] && buf[q + 1] == f[1] && buf[q + 2] == f[2] && buf[q + 3] == f[3];
    assert buf[q + 4] == f[4] && buf[q + 5] == f[5] && buf[q + 6] == f[6] && buf[q + 7] == f[7];
    assert buf[q + 8] == f[8] && buf[q + 9] == f[9];
  }

  lemma AddressAt(buf: seq<byte>, q: nat, a: byte, b: byte, c: byte, e: byte)
    requires q + 4 <= |buf| && buf[q..q + 4] == [a, b, c, e]
    ensures RDataAt(buf, q, TYPE_A, 4) == Some(DataNext(Address(a, b, c, e), q + 4))
  {
    assert buf[q..q + 4][0] == buf[q] && buf[q..q + 4][1] == buf[q + 1];
    assert buf[q..q + 4][2] == buf[q + 2] && buf[q..q + 4][3] == buf[q + 3];
  }

  lemma HostAt(buf: seq<byte>, q: nat, t: u16, ls: seq<seq<byte>>)
    requires t == TYPE_NS || t == TYPE_CNAME
    requires AllLabels(ls) && |EncodeLabels(ls)| < 0x1_0000
    requires q + |EncodeLabels(ls)| <= |buf| && buf[q..q + |EncodeLabels(ls)|] == EncodeLabels(ls)
    ensures RDataAt(buf, q, t, |EncodeLabels(ls)|)
      == Some(DataNext(if t == TYPE_CNAME then CanonicalName(NameText(ls)) else NameServer(NameText(ls)), q + |EncodeLabels(ls)|))
  {
    NameAt(buf, q, ls);
  }

  lemma ExchangeAt(buf: seq<byte>, q: nat, pref: u16, ls: seq<seq<byte>>)
    requires AllLabels(ls) && |EncodeLabels(ls)| + 2 < 0x1_0000
    requires var r := Be16(pref) + EncodeLabels(ls); q + |r| <= |buf| && buf[q..q + |r|] == r
    ensures RDataAt(buf, q, TYPE_MX, 2 + |EncodeLabels(ls)|)
      == Some(DataNext(MailExchange(pref, NameText(ls)), q + 2 + |EncodeLabels(ls)|))
  {
    Halves(buf, q, Be16(pref), EncodeLabels(ls));
    assert buf[q..q + 2][0] == buf[q] && buf[q..q + 2][1] == buf[q + 1];
    NameAt(buf, q + 2, ls);
  }

  lemma DataAt(buf: seq<byte>, q: nat, d: WireData)
    requires DataOk(d)
    requires q + |RDataBytes(d)| <= |buf| && buf[q..q + |RDataBytes(d)|] == RDataBytes(d)
    ensures RDataAt(buf, q, TypeOf(d), |RDataBytes(d)|) == Some(DataNext(ExpectedData(d), q + |RDataBytes(d)|))
  {
    match d
    case AddressData(a, b, c, e) => AddressAt(buf, q, a, b, c, e);
    case NameData(t, ls) => EncodedLength(ls); HostAt(buf, q, t, ls);
    case MxData(p, ls) => EncodedLength(ls); ExchangeAt(buf, q, p, ls);
    case OtherData(t, bytes) =>
  }

  // ---------------------------------------------------------------------
  // One decoding step at a time

  lemma RecordOf(buf: seq<byte>, p: nat, section: Section, auth: bool, n: NameResult, f: Fixed, d: DataNext)
    requires DecodeName(buf, p) == Some(n)
    requires FixedAt(buf, n.nextOffset) == Some(f)
    requires RDataAt(buf, n.nextOffset + 10, f.rrType, f.rdLength) == Some(d)
    ensures DecodeRecord(buf, p, section, auth) == Some(Parsed(Record(section, auth, n.name, f.rrClass, f.ttl, d.data), d.next))
  {
  }

  // ---------------------------------------------------------------------
  // Round trips

  /** The owner name of an encoded record is read back first. */
  lemma OwnerOfRecord(buf: seq<byte>, p: nat, w: WireRecord)
    requires RecordOk(w)
    requires p + |EncodeRecord(w)| <= |buf| && buf[p..p + |EncodeRecord(w)|] == EncodeRecord(w)
    ensures DecodeName(buf, p) == Some(NameResult(NameText(w.owner), p + |EncodeLabels(w.owner)|))
  {
    var rdata := RDataBytes(w.data);
    Halves(buf, p, EncodeLabels(w.owner), FixedBytes(TypeOf(w.data), w.rrClass, w.ttl, |rdata|) + rdata);
    NameAt(buf, p, w.owner);
  }

  /** Then the ten octets of fixed fields. */
  lemma FixedOfRecord(buf: seq<byte>, p: nat, w: WireRecord)
    requires RecordOk(w)
    requires p + |EncodeRecord(w)| <= |buf| && buf[p..p + |EncodeRecord(w)|] == EncodeRecord(w)
    ensures FixedAt(buf, p + |EncodeLabels(w.owner)|) == Some(Fixed(TypeOf(w.data), w.rrClass, w.ttl, |RDataBytes(w.data)|))
  {
    var rdata := RDataBytes(w.data);
    var fixed := FixedBytes(TypeOf(w.data), w.rrClass, w.ttl, |rdata|);
    Halves(buf, p, EncodeLabels(w.owner), fixed + rdata);
    var q := p + |EncodeLabels(w.owner)|;
    Halves(buf, q, fixed, rdata);
    FixedFields(buf, q, TypeOf(w.data), w.rrClass, w.ttl, |rdata|);
  }

  /** The RDATA of an encoded record sits ten octets after its owner name. */
  lemma DataSlice(buf: seq<byte>, p: nat, w: WireRecord)
    requires RecordOk(w)
    requires p + |EncodeRecord(w)| <= |buf| && buf[p..p + |EncodeRecord(w)|] == EncodeRecord(w)
    ensures var q := p + |EncodeLabels(w.owner)| + 10;
      q + |RDataBytes(w.data)| <= |buf| && buf[q..q + |RDataBytes(w.data)|] == RDataBytes(w.data)
  {
    var rdata := RDataBytes(w.data);
    var fixed := FixedBytes(TypeOf(w.data), w.rrClass, w.ttl, |rdata|);
    Halves(buf, p, EncodeLabels(w.owner), fixed + rdata);
    Halves(buf, p + |EncodeLabels(w.owner)|, fixed, rdata);
  }

  /** Then the RDATA, which ends where the record does. */
  lemma DataOfRecord(buf: seq<byte>, p: nat, w: WireRecord)
    requires RecordOk(w)
    requires p + |EncodeRecord(w)| <= |buf| && buf[p..p + |EncodeRecord(w)|] == EncodeRecord(w)
    ensures var q := p + |EncodeLabels(w.owner)| + 10;
      RDataAt(buf, q, TypeOf(w.data), |RDataBytes(w.data)|) == Some(DataNext(ExpectedData(w.data), q + |RDataBytes(w.data)|))
  {
    DataSlice(buf, p, w);
    DataAt(buf, p + |EncodeLabels(w.owner)| + 10, w.data);
  }

  /** The three parts of an encoded record, each read back in turn. */
  lemma RecordFields(buf: seq<byte>, p: nat, w: WireRecord) returns (n: NameResult, f: Fixed, d: DataNext)
    requires RecordOk(w)
    requires p + |EncodeRecord(w)| <= |buf| && buf[p..p + |EncodeRecord(w)|] == EncodeRecord(w)
    ensures DecodeName(buf, p) == Some(n) && n.name == NameText(w.owner)
    ensures FixedAt(buf, n.nextOffset) == Some(f) && f.rrClass == w.rrClass && f.ttl == w.ttl
    ensures RDataAt(buf, n.nextOffset + 10, f.rrType, f.rdLength) == Some(d)
    ensures d.data == ExpectedData(w.data) && d.next == p + |EncodeRecord(w)|
  {
    OwnerOfRecord(buf, p, w);
    FixedOfRecord(buf, p, w);
    DataOfRecord(buf, p, w);
    n := NameResult(NameText(w.owner), p + |EncodeLabels(w.owner)|);
    f := Fixed(TypeOf(w.data), w.rrClass, w.ttl, |RDataBytes(w.data)|);
    d := DataNext(ExpectedData(w.data), p + |EncodeLabels(w.owner)| + 10 + |RDataBytes(w.data)|);
  }

  /** A record written at `p` is read back as the record the client reports
      for it, and the cursor ends right after it. */
  lemma RecordRoundTrip(buf: seq<byte>, p: nat, w: WireRecord, section: Section, auth: bool)
    requires RecordOk(w)
    requires p + |EncodeRecord(w)| <= |buf| && buf[p..p + |EncodeRecord(w)|] == EncodeRecord(w)
    ensures DecodeRecord(buf, p, section, auth) == Some(Parsed(Expected(w, section, auth), p + |EncodeRecord(w)|))
  {
    var n, f, d := RecordFields(buf, p, w);
    RecordOf(buf, p, section, auth, n, f, d);
  }

  /** An A record with RDLENGTH 4 and RDATA 93, 184, 216, 34, whatever its
      owner, class and TTL, is read back as that address. */
  lemma AddressExample(buf: seq<byte>, p: nat, owner: seq<seq<byte>>, rrClass: u16, ttl: u32, section: Section, auth: bool)
    requires AllLabels(owner)
    requires var e := EncodeRecord(WireRecord(owner, rrClass, ttl, AddressData(93, 184, 216, 34)));
      p + |e| <= |buf| && buf[p..p + |e|] == e
    ensures var e := EncodeRecord(WireRecord(owner, rrClass, ttl, AddressData(93, 184, 216, 34)));
      DecodeRecord(buf, p, section, auth)
        == Some(Parsed(Record(section, auth, NameText(owner), rrClass, ttl, Address(93, 184, 216, 34)), p + |e|))
  {
    RecordRoundTrip(buf, p, WireRecord(owner, rrClass, ttl, AddressData(93, 184, 216, 34)), section, auth);
  }
}
