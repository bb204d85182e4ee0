/**
 * The query builder: the record-type selector, and the single-question
 * query message of RFC 1035, section 4.1 (a 12-octet header, section
 * 4.1.1, and one question, section 4.1.2).
 */
module Query {
  import opened Wire
  import opened Text
  import opened Names

  const TYPE_A: u16 := 0x0001
  const TYPE_NS: u16 := 0x0002
  /** Received in answers, never asked for. */
  const TYPE_CNAME: u16 := 0x0005
  const TYPE_MX: u16 := 0x000f
  const CLASS_IN: u16 := 0x0001

  /** The header flags of a query: only RD (recursion desired) is set. */
  const QUERY_FLAGS: u16 := 0x0100

  /** `Character.toUpperCase` under `Locale.ROOT` gives `u`, for the capital
      letters the selector compares against: besides the letter itself and
      its lower case, the long s (U+017F) upper-cases to 'S'. */
  predicate UpperIs(c: char, u: char)
  {
    c == u || (u in "ANSMX" && (c as int) == (u as int) + 32) || (u == 'S' && c == '\U{017F}')
  }

  /** `t.toUpperCase(Locale.ROOT).equals(word)` for a word of the capitals
      above. Upper-casing never shortens a string, so only strings of the
      word's length, each of whose characters upper-cases to one character,
      can match. */
  predicate UpperEquals(t: string, word: string)
  {
    |t| == |word| && forall k :: 0 <= k < |t| ==> UpperIs(t[k], word[k])
  }

  /** `qtypeFromString`: "A", "NS" or "MX" in any case; a missing selector
      and every other string give A. */
  function QTypeFromString(s: Option<string>): (code: u16)
    ensures code == TYPE_NS <==> s.Some? && UpperEquals(s.value, "NS")
    ensures code == TYPE_MX <==> s.Some? && UpperEquals(s.value, "MX")
    ensures code == TYPE_A <==> !(s.Some? && (UpperEquals(s.value, "NS") || UpperEquals(s.value, "MX")))
  {
    match s
    case None => TYPE_A
    case Some(t) =>
      if UpperEquals(t, "A") then TYPE_A
      else if UpperEquals(t, "NS") then
        assert UpperIs(t[0], 'N');
        TYPE_NS
      else if UpperEquals(t, "MX") then TYPE_MX
      else TYPE_A
  }

  lemma QTypeExamples()
    ensures QTypeFromString(Some("mx")) == QTypeFromString(Some("MX")) == QTypeFromString(Some("Mx")) == TYPE_MX
    ensures QTypeFromString(Some("ns")) == QTypeFromString(Some("NS")) == QTypeFromString(Some("n\U{017F}")) == TYPE_NS
    ensures QTypeFromString(Some("a")) == QTypeFromString(None) == QTypeFromString(Some("AAAA")) == TYPE_A
    ensures QTypeFromString(Some("")) == QTypeFromString(Some("cname")) == TYPE_A
  {
    assert !UpperEquals("AAAA", "NS") && !UpperEquals("AAAA", "MX");
    assert !UpperEquals("cname", "NS") && !UpperEquals("cname", "MX");
  }

  /** `QueryResult`: the transaction id and the packet that carries it. */
  datatype QueryResult = QueryResult(transactionId: u16, packet: seq<byte>)

  /** ID, FLAGS, QDCOUNT = 1, ANCOUNT = NSCOUNT = ARCOUNT = 0. */
  function QueryHeader(id: u16): seq<byte>
  {
    Be16(id) + Be16(QUERY_FLAGS) + Be16(1) + Be16(0) + Be16(0) + Be16(0)
  }

  /** What `buildQuery` returns for the id it draws: the header, the encoded
      name, QTYPE and QCLASS; or the label the name encoder refused (the
      client then exits). */
  function QueryFor(id: u16, qname: string, qtype: Option<string>): Result<QueryResult, string>
    requires IsAscii(qname)
  {
    match EncodedName(qname)
    case Err(l) => Err(l)
    case Ok(e) => Ok(QueryResult(id, QueryPacket(id, e, QTypeFromString(qtype))))
  }

  /** The header, then the question: the encoded name `e`, QTYPE, QCLASS. */
  function QueryPacket(id: u16, e: seq<byte>, qtype: u16): seq<byte>
  {
    QueryHeader(id) + e + Be16(qtype) + Be16(CLASS_IN)
  }

  /** `buildQuery`, with the random id drawn by `new Random().nextInt(65536)`
      passed in: writes the six header fields, the encoded name, QTYPE and
      QCLASS to the output stream in turn. */
  method BuildQuery(id: u16, qname: string, qtype: Option<string>) returns (r: Result<QueryResult, string>)
    requires IsAscii(qname)
    ensures r == QueryFor(id, qname, qtype)
  {
    var out: seq<byte> := [];
    out := out + Be16(id);
    out := out + Be16(QUERY_FLAGS);
    out := out + Be16(1);
    out := out + Be16(0);
    out := out + Be16(0);
    out := out + Be16(0);
    var name := EncodeName(qname);
    if name.Err? {
      return Err(name.error);
    }
    out := out + name.value;
    out := out + Be16(QTypeFromString(qtype));
    out := out + Be16(CLASS_IN);
    assert out == QueryPacket(id, name.value, QTypeFromString(qtype));
    return Ok(QueryResult(id, out));
  }

  /** Building fails exactly when the name encoder does, with the same
      label, and otherwise carries the id it was given. */
  lemma QueryOutcome(id: u16, qname: string, qtype: Option<string>)
    requires IsAscii(qname)
    ensures QueryFor(id, qname, qtype).Err? <==> EncodedName(qname).Err?
    ensures QueryFor(id, qname, qtype).Err? ==> QueryFor(id, qname, qtype).error == EncodedName(qname).error
    ensures QueryFor(id, qname, qtype).Ok? ==>
      QueryFor(id, qname, qtype).value == QueryResult(id, QueryPacket(id, EncodedName(qname).value, QTypeFromString(qtype)))
  {
  }

  /** The layout of a query packet: the header fields at their offsets, the
      encoded name from offset 12, then QTYPE and QCLASS; 16 octets besides
      the name. */
  lemma QueryLayout(id: u16, e: seq<byte>, qtype: u16)
    ensures var p := QueryPacket(id, e, qtype);
      |p| == 12 + |e| + 4 &&
      U16(p[0], p[1]) == id &&
      p[2..4] == [0x01, 0x00] &&
      p[4..6] == [0x00, 0x01] &&
      p[6..12] == [0, 0, 0, 0, 0, 0] &&
      p[12..12 + |e|] == e &&
      U16(p[12 + |e|], p[13 + |e|]) == qtype &&
      p[14 + |e|..] == [0x00, 0x01]
  {
    HeaderOctets(id);
    Slices(QueryHeader(id), e, Be16(qtype), Be16(CLASS_IN));
  }

  lemma HeaderOctets(id: u16)
    ensures QueryHeader(id) == [id / 0x100, id % 0x100, 0x01, 0x00, 0x00, 0x01, 0, 0, 0, 0, 0, 0]
  {
  }

  /** Where the four parts of a query sit in their concatenation. */
  lemma Slices(h: seq<byte>, e: seq<byte>, t: seq<byte>, c: seq<byte>)
    requires |h| == 12 && |t| == 2 && |c| == 2
    ensures var p := h + e + t + c;
      |p| == 12 + |e| + 4 && p[..12] == h && p[12..12 + |e|] == e &&
      p[12 + |e|] == t[0] && p[13 + |e|] == t[1] && p[14 + |e|..] == c
  {
    var p := h + e + t + c;
    assert p[..12] == h;
    assert p[12..12 + |e|] == e;
    assert p[14 + |e|..] == c;
  }

  /** Round trip: the name of a built query, read back at offset 12, is the
      name asked for, and the question's QTYPE follows it. */
  lemma QueryNameRoundTrip(id: u16, qname: string, qtype: Option<string>)
    requires IsAscii(qname)
    requires forall k :: 0 <= k < |Pieces(qname)| ==> LegalLabel(Pieces(qname)[k])
    ensures QueryFor(id, qname, qtype).Ok?
    ensures var p := QueryFor(id, qname, qtype).value.packet;
      DecodeName(p, 12) == Some(NameResult(qname, 12 + |EncodedName(qname).value|)) &&
      DecodeName(p, 12).value.nextOffset + 4 == |p|
  {
    JavaSplitNoEmpty(qname);
    QueryOutcome(id, qname, qtype);
    QueryLayout(id, EncodedName(qname).value, QTypeFromString(qtype));
    var p := QueryFor(id, qname, qtype).value.packet;
    NameRoundTrip(p, 12, qname);
  }
}
