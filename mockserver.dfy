/**
 * The test server: for every query it receives it sends back a bare
 * twelve-octet header, with the query's id and with FLAGS chosen by the
 * mode word of its command line, so that each header check of the client
 * can be driven in turn.
 *
 * The socket loop, the port and the log lines are not modelled; the
 * datagram received and the mode are parameters.
 */
module MockServer {
  import opened Wire
  import opened Names
  import opened Query
  import opened Decoder

  /** QR = 1, RD = 1, RA = 1, RCODE = 0: a normal successful answer. */
  const BASE_FLAGS: bv16 := 0x8180

  /** The RCODE a mode word asks for: "rcode1" to "rcode5", otherwise 0. */
  function RcodeOf(mode: string): bv16
  {
    if mode == "rcode1" then 1
    else if mode == "rcode2" then 2
    else if mode == "rcode3" then 3
    else if mode == "rcode4" then 4
    else if mode == "rcode5" then 5
    else 0
  }

  /** The `if`/`elif` chain of `build_dns_response`. It has no `else`, so
      "good", "bad_id" and every unknown word keep the base flags. Read as
      header fields: only QR, TC, RA and RCODE ever differ from the base. */
  function ResponseFlags(mode: string): (flags: bv16)
    ensures var f := DecodeFlags(flags);
      f.opcode == 0 && f.aa == 0 && f.rd == 1 && f.z == 0 &&
      f.qr == (if mode == "bad_qr" then 0 else 1) &&
      f.ra == (if mode == "no_ra" then 0 else 1) &&
      f.tc == (if mode == "truncated" then 1 else 0) &&
      f.rcode == RcodeOf(mode)
    ensures flags in {0x8180, 0x0180, 0x8100, 0x8380, 0x8181, 0x8182, 0x8183, 0x8184, 0x8185}
  {
    var flags := BASE_FLAGS;
    if mode == "bad_id" then flags
    else if mode == "bad_qr" then flags & !(1 << 15)
    else if mode == "no_ra" then flags & !(1 << 7)
    else if mode == "truncated" then flags | (1 << 9)
    else if mode == "rcode1" then (flags & !0xF) | 1
    else if mode == "rcode2" then (flags & !0xF) | 2
    else if mode == "rcode3" then (flags & !0xF) | 3
    else if mode == "rcode4" then (flags & !0xF) | 4
    else if mode == "rcode5" then (flags & !0xF) | 5
    else flags
  }

  /** `build_dns_response`: `struct.pack("!HHHHHH", ...)` of the id, the
      flags, QDCOUNT = 1 and three zero counts. No question follows, although
      QDCOUNT says one does. */
  function BuildDnsResponse(tid: u16, mode: string): (r: seq<byte>)
    ensures |r| == 12
    ensures U16(r[0], r[1]) == tid && FlagWord(r[2], r[3]) == ResponseFlags(mode)
    ensures U16(r[4], r[5]) == 1 && U16(r[6], r[7]) == 0 && U16(r[8], r[9]) == 0 && U16(r[10], r[11]) == 0
  {
    Packed(ResponseFlags(mode));
    Be16(tid) + Be16(ResponseFlags(mode) as int) + Be16(1) + Be16(0) + Be16(0) + Be16(0)
  }

  /** The flag words the modes produce, packed into two octets and read back
      as the client reads them. */
  lemma Packed(x: bv16)
    requires x in {0x8180, 0x0180, 0x8100, 0x8380, 0x8181, 0x8182, 0x8183, 0x8184, 0x8185}
    ensures var b := Be16(x as int); FlagWord(b[0], b[1]) == x
  {
    if x == 0x8180 { assert Be16(0x8180) == [0x81, 0x80]; assert FlagWord(0x81, 0x80) == 0x8180; }
    else if x == 0x0180 { assert Be16(0x0180) == [0x01, 0x80]; assert FlagWord(0x01, 0x80) == 0x0180; }
    else if x == 0x8100 { assert Be16(0x8100) == [0x81, 0x00]; assert FlagWord(0x81, 0x00) == 0x8100; }
    else if x == 0x8380 { assert Be16(0x8380) == [0x83, 0x80]; assert FlagWord(0x83, 0x80) == 0x8380; }
    else if x == 0x8181 { assert Be16(0x8181) == [0x81, 0x81]; assert FlagWord(0x81, 0x81) == 0x8181; }
    else if x == 0x8182 { assert Be16(0x8182) == [0x81, 0x82]; assert FlagWord(0x81, 0x82) == 0x8182; }
    else if x == 0x8183 { assert Be16(0x8183) == [0x81, 0x83]; assert FlagWord(0x81, 0x83) == 0x8183; }
    else if x == 0x8184 { assert Be16(0x8184) == [0x81, 0x84]; assert FlagWord(0x81, 0x84) == 0x8184; }
    else { assert Be16(0x8185) == [0x81, 0x85]; assert FlagWord(0x81, 0x85) == 0x8185; }
  }

  /** The id the server answers with: the first two octets of the query, or
      one more than that, modulo 2^16, in "bad_id" mode. A datagram shorter
      than two octets makes `struct.unpack` raise, and nothing is sent. */
  function EchoedId(query: seq<byte>, mode: string): (id: Option<u16>)
    ensures id.Some? <==> |query| >= 2
    ensures id.Some? && mode != "bad_id" ==> id.value == U16(query[0], query[1])
    ensures id.Some? && mode == "bad_id" ==> id.value != U16(query[0], query[1])
  {
    if |query| < 2 then None
    else
      var tid := U16(query[0], query[1]);
      if mode == "bad_id" then Some((tid + 1) % 0x1_0000) else Some(tid)
  }

  /** One turn of the server loop: the datagram received, the datagram sent. */
  function Reply(query: seq<byte>, mode: string): (r: Option<seq<byte>>)
    ensures r.Some? <==> |query| >= 2
    ensures r.Some? ==> |r.value| == 12 && U16(r.value[0], r.value[1]) == EchoedId(query, mode).value
  {
    match EchoedId(query, mode)
    case None => None
    case Some(tid) =>
      var b := BuildDnsResponse(tid, mode);
      Some(b)
  }

  /** The reply carries the query's own id exactly when the mode is not
      "bad_id". */
  lemma IdEchoed(query: seq<byte>, mode: string)
    requires |query| >= 2
    ensures var r := Reply(query, mode).value;
      U16(r[0], r[1]) == U16(query[0], query[1]) <==> mode != "bad_id"
  {
    var tid := EchoedId(query, mode).value;
    assert tid == U16(query[0], query[1]) <==> mode != "bad_id";
  }

  /** What the client makes of the reply in each mode. */
  function Verdict(mode: string): Decoded
  {
    if mode == "bad_id" then Decoded(false, Failed(IdMismatch))
    else if mode == "bad_qr" then Decoded(false, Failed(NotAResponse))
    else if mode == "rcode3" then Decoded(false, NotFound)
    else if RcodeOf(mode) != 0 then Decoded(false, Failed(ServerError(RcodeOf(mode) as int)))
    else Decoded(mode == "no_ra", Failed(Malformed))
  }

  /** A reply header whose id matches and whose RCODE is 0 still fails: the
      client looks for the question QDCOUNT announces and finds the end of
      the message instead. So "good", "truncated" (TC is never looked at)
      and "no_ra" (after its warning) end as malformed. */
  lemma MissingQuestion(buf: seq<byte>, auth: bool)
    requires |buf| == 12 && U16(buf[4], buf[5]) == 1
    ensures DecodeBody(buf, auth) == Failed(Malformed)
  {
    assert Walk(buf, 12, |buf|) == None;
  }

  /** Every mode triggers the check it is named after, for any query that
      carries the id the client expects. */
  lemma ModeOutcome(query: seq<byte>, mode: string, expectedId: u16)
    requires |query| >= 2 && U16(query[0], query[1]) == expectedId
    ensures Reply(query, mode).Some?
    ensures DecodeResponse(Reply(query, mode).value, expectedId) == Verdict(mode)
  {
    var id := EchoedId(query, mode).value;
    var r := BuildDnsResponse(id, mode);
    if FlagsOf(r).rcode == 0 {
      MissingQuestion(r, false);
    }
  }

  /** The whole exchange: the client's own query, answered by the server in
      any mode, ends as the mode intends. */
  lemma Exchange(id: u16, qname: string, qtype: Option<string>, mode: string)
    requires IsAscii(qname)
    requires QueryFor(id, qname, qtype).Ok?
    ensures var q := QueryFor(id, qname, qtype).value.packet;
      Reply(q, mode).Some? && DecodeResponse(Reply(q, mode).value, id) == Verdict(mode)
  {
    var q := QueryFor(id, qname, qtype).value.packet;
    QueryOutcome(id, qname, qtype);
    QueryLayout(id, EncodedName(qname).value, QTypeFromString(qtype));
    ModeOutcome(q, mode, id);
  }
}
