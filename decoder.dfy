/**
 * The response decoder: the header checks of `parseAnswer`, the question
 * skip, and the resource records of `parseRecords` (RFC 1035, sections
 * 4.1.1 to 4.1.3, with the RDATA of sections 3.3.1, 3.3.9, 3.3.11 and
 * 3.4.1).
 *
 * Printing and `System.exit` are replaced by a returned `Decoded` value;
 * an octet read past the end of the response (an exception in the Java)
 * is `Malformed`.
 */
module Decoder {
  import opened Wire
  import opened Text
  import opened Names
  import opened Query

  // ---------------------------------------------------------------------
  // Header flags (RFC 1035, section 4.1.1)

  /** The fields of the FLAGS word, each as `(flags >> shift) & mask`. */
  datatype Flags = Flags(qr: bv16, opcode: bv16, aa: bv16, tc: bv16, rd: bv16, ra: bv16, z: bv16, rcode: bv16)

  predicate FlagsInRange(x: Flags)
  {
    x.qr <= 1 && x.opcode <= 0xF && x.aa <= 1 && x.tc <= 1 && x.rd <= 1 && x.ra <= 1 && x.z <= 7 && x.rcode <= 0xF
  }

  /** `((response[2] & 0xFF) << 8) | (response[3] & 0xFF)`. */
  function FlagWord(hi: byte, lo: byte): bv16
  {
    ((hi as bv16) << 8) | (lo as bv16)
  }

  function DecodeFlags(f: bv16): (r: Flags)
    ensures FlagsInRange(r)
  {
    Flags((f >> 15) & 1, (f >> 11) & 0xF, (f >> 10) & 1, (f >> 9) & 1,
          (f >> 8) & 1, (f >> 7) & 1, (f >> 4) & 7, f & 0xF)
  }

  /** The FLAGS word with the given fields. */
  function EncodeFlags(x: Flags): bv16
  {
    (x.qr << 15) | (x.opcode << 11) | (x.aa << 10) | (x.tc << 9) | (x.rd << 8) | (x.ra << 7) | (x.z << 4) | x.rcode
  }

  /** The fields of a FLAGS word are all of it. */
  lemma FlagsRoundTrip(f: bv16)
    ensures EncodeFlags(DecodeFlags(f)) == f
  {
  }

  /** Every combination of fields in range is some FLAGS word. */
  lemma FieldsRoundTrip(x: Flags)
    requires FlagsInRange(x)
    ensures DecodeFlags(EncodeFlags(x)) == x
  {
  }

  /** QR and RA are the top bits of the two octets of FLAGS. */
  lemma TopBits(hi: byte, lo: byte)
    ensures DecodeFlags(FlagWord(hi, lo)).qr == 1 <==> hi >= 0x80
    ensures DecodeFlags(FlagWord(hi, lo)).ra == 1 <==> lo >= 0x80
  {
  }

  // ---------------------------------------------------------------------
  // Resource records (RFC 1035, section 4.1.3)

  datatype Section = Answer | Authority | Additional

  /** What `parseRecords` reports for one record's RDATA. */
  datatype RData =
    | Address(a: byte, b: byte, c: byte, d: byte)    // type A with RDLENGTH 4
    | BadAddressLength(rdLength: u16)                // type A, any other RDLENGTH: a notice
    | CanonicalName(cname: string)                   // type CNAME
    | NameServer(host: string)                       // type NS
    | MailExchange(preference: u16, exchange: string) // type MX
    | Unsupported(rrType: u16)                       // any other type: a notice

  /** A decoded record, tagged with its section and with the response's AA
      bit (the `auth`/`nonauth` label printed with every record). */
  datatype Record = Record(section: Section, authoritative: bool, owner: string, rrClass: u16, ttl: u32, data: RData)

  /** The dotted-decimal text printed for an A record: digits and dots
      only, and it splits at its dots into exactly the four numerals. */
  function Dotted(a: byte, b: byte, c: byte, d: byte): (s: string)
    ensures forall k :: 0 <= k < |s| ==> s[k] == '.' || '0' <= s[k] <= '9'
    ensures Pieces(s) == [Decimal(a), Decimal(b), Decimal(c), Decimal(d)]
  {
    var ps := [Decimal(a), Decimal(b), Decimal(c), Decimal(d)];
    DecimalHasNoDot(a);
    DecimalHasNoDot(b);
    DecimalHasNoDot(c);
    DecimalHasNoDot(d);
    var s := Decimal(a) + "." + Decimal(b) + "." + Decimal(c) + "." + Decimal(d);
    assert Join(ps) == s by {
      JoinSnoc([Decimal(a)], Decimal(b));
      assert [Decimal(a)] + [Decimal(b)] == [Decimal(a), Decimal(b)];
      JoinSnoc([Decimal(a), Decimal(b)], Decimal(c));
      assert [Decimal(a), Decimal(b)] + [Decimal(c)] == [Decimal(a), Decimal(b), Decimal(c)];
      JoinSnoc([Decimal(a), Decimal(b), Decimal(c)], Decimal(d));
      assert [Decimal(a), Decimal(b), Decimal(c)] + [Decimal(d)] == ps;
    }
    PiecesJoin(ps);
    s
  }

  /** The printed address splits at its dots into four decimal numerals
      that read back as the four octets. */
  lemma DottedRoundTrip(a: byte, b: byte, c: byte, d: byte)
    ensures var ps := Pieces(Dotted(a, b, c, d));
      |ps| == 4 && ParseDecimal(ps[0]) == a && ParseDecimal(ps[1]) == b &&
      ParseDecimal(ps[2]) == c && ParseDecimal(ps[3]) == d
  {
    DecimalRoundTrip(a);
    DecimalRoundTrip(b);
    DecimalRoundTrip(c);
    DecimalRoundTrip(d);
  }

  /** The address of the usual example record prints as expected. */
  lemma DottedExample()
    ensures Dotted(93, 184, 216, 34) == "93.184.216.34"
  {
    ExampleNumerals();
  }

  lemma ExampleNumerals()
    ensures Decimal(93) == "93" && Decimal(184) == "184" && Decimal(216) == "216" && Decimal(34) == "34"
  {
    assert Digit(1) == '1' && Digit(2) == '2' && Digit(3) == '3' && Digit(4) == '4';
    assert Digit(6) == '6' && Digit(8) == '8' && Digit(9) == '9';
    assert Decimal(18) == "18";
    assert Decimal(21) == "21";
  }

  /** TYPE, CLASS, TTL and RDLENGTH: the ten octets after the owner name. */
  datatype Fixed = Fixed(rrType: u16, rrClass: u16, ttl: u32, rdLength: u16)

  function FixedAt(buf: seq<byte>, q: nat): (r: Option<Fixed>)
    ensures r.Some? <==> q + 10 <= |buf|
  {
    if q + 10 > |buf| then None
    else Some(Fixed(U16(buf[q], buf[q + 1]), U16(buf[q + 2], buf[q + 3]),
                    U32(buf[q + 4], buf[q + 5], buf[q + 6], buf[q + 7]), U16(buf[q + 8], buf[q + 9])))
  }

  /** The fields read are the ones whose big-endian writing gives back the
      ten octets they were read from. */
  lemma FixedReencodes(buf: seq<byte>, q: nat)
    requires q + 10 <= |buf|
    ensures var f := FixedAt(buf, q).value;
      buf[q..q + 10] == Be16(f.rrType) + Be16(f.rrClass) + Be32(f.ttl) + Be16(f.rdLength)
  {
    Be16OfU16(buf[q], buf[q + 1]);
    Be16OfU16(buf[q + 2], buf[q + 3]);
    Be32OfU32(buf[q + 4], buf[q + 5], buf[q + 6], buf[q + 7]);
    Be16OfU16(buf[q + 8], buf[q + 9]);
  }

  /** RDATA and where the cursor goes after it. */
  datatype DataNext = DataNext(data: RData, next: nat)

  /** The `switch (type)` of `parseRecords`, with the cursor at `q`, just
      after the fixed fields. A and unsupported types move by RDLENGTH;
      CNAME, NS and MX (after its two-octet preference) read a name and
      move to that name's resume offset. */
  function RDataAt(buf: seq<byte>, q: nat, t: u16, rdLength: u16): Option<DataNext>
  {
    if t == TYPE_A then
      if rdLength == 4 then
        if q + 4 > |buf| then None
        else Some(DataNext(Address(buf[q], buf[q + 1], buf[q + 2], buf[q + 3]), q + 4))
      else Some(DataNext(BadAddressLength(rdLength), q + rdLength))
    else if t == TYPE_CNAME || t == TYPE_NS || t == TYPE_MX then
      if t == TYPE_MX && q + 2 > |buf| then None
      else
        match DecodeName(buf, if t == TYPE_MX then q + 2 else q)
        case None => None
        case Some(n) => Some(DataNext(Named(buf, q, t, n.name), n.nextOffset))
    else Some(DataNext(Unsupported(t), q + rdLength))
  }

  /** The RDATA of a record whose data holds a name. */
  function Named(buf: seq<byte>, q: nat, t: u16, name: string): RData
    requires t == TYPE_CNAME || t == TYPE_NS || (t == TYPE_MX && q + 2 <= |buf|)
  {
    if t == TYPE_CNAME then CanonicalName(name)
    else if t == TYPE_NS then NameServer(name)
    else MailExchange(U16(buf[q], buf[q + 1]), name)
  }

  datatype Parsed = Parsed(record: Record, next: nat)

  /** One iteration of the `parseRecords` loop, from the owner name at `pos`. */
  function DecodeRecord(buf: seq<byte>, pos: nat, section: Section, auth: bool): Option<Parsed>
  {
    match DecodeName(buf, pos)
    case None => None
    case Some(n) =>
      match FixedAt(buf, n.nextOffset)
      case None => None
      case Some(f) =>
        match RDataAt(buf, n.nextOffset + 10, f.rrType, f.rdLength)
        case None => None
        case Some(d) => Some(Parsed(Record(section, auth, n.name, f.rrClass, f.ttl, d.data), d.next))
  }

  method ParseRecord(buf: seq<byte>, pos: nat, section: Section, auth: bool) returns (r: Option<Parsed>)
    ensures r == DecodeRecord(buf, pos, section, auth)
  {
    var owner := ParseName(buf, pos);
    if owner.None? {
      return None;
    }
    var p := owner.value.nextOffset;
    if p + 10 > |buf| {
      return None;
    }
    var rrType := U16(buf[p], buf[p + 1]);
    var rrClass := U16(buf[p + 2], buf[p + 3]);
    var ttl := U32(buf[p + 4], buf[p + 5], buf[p + 6], buf[p + 7]);
    var rdLength := U16(buf[p + 8], buf[p + 9]);
    var data := ParseData(buf, p + 10, rrType, rdLength);
    if data.None? {
      return None;
    }
    return Some(Parsed(Record(section, auth, owner.value.name, rrClass, ttl, data.value.data), data.value.next));
  }

  /** The `switch (type)` of the `parseRecords` loop, with the cursor at `p`. */
  method ParseData(buf: seq<byte>, p: nat, rrType: u16, rdLength: u16) returns (r: Option<DataNext>)
    ensures r == RDataAt(buf, p, rrType, rdLength)
  {
    if rrType == TYPE_A {
      if rdLength == 4 {
        if p + 4 > |buf| {
          return None;
        }
        return Some(DataNext(Address(buf[p], buf[p + 1], buf[p + 2], buf[p + 3]), p + 4));
      }
      return Some(DataNext(BadAddressLength(rdLength), p + rdLength));
    } else if rrType == TYPE_CNAME || rrType == TYPE_NS {
      var target := ParseName(buf, p);
      if target.None? {
        return None;
      }
      var data := if rrType == TYPE_CNAME then CanonicalName(target.value.name) else NameServer(target.value.name);
      return Some(DataNext(data, target.value.nextOffset));
    } else if rrType == TYPE_MX {
      if p + 2 > |buf| {
        return None;
      }
      var preference := U16(buf[p], buf[p + 1]);
      var exchange := ParseName(buf, p + 2);
      if exchange.None? {
        return None;
      }
      return Some(DataNext(MailExchange(preference, exchange.value.name), exchange.value.nextOffset));
    }
    return Some(DataNext(Unsupported(rrType), p + rdLength));
  }

  /** An A record whose RDLENGTH is not 4, and a record of a type the client
      does not know, are reported with a notice, and the cursor moves on by
      RDLENGTH without reading the RDATA, even past the end of the response. */
  lemma SkippedByLength(buf: seq<byte>, pos: nat, section: Section, auth: bool, n: NameResult, f: Fixed)
    requires DecodeName(buf, pos) == Some(n) && FixedAt(buf, n.nextOffset) == Some(f)
    requires (f.rrType == TYPE_A && f.rdLength != 4) || f.rrType !in {TYPE_A, TYPE_NS, TYPE_CNAME, TYPE_MX}
    ensures var data := if f.rrType == TYPE_A then BadAddressLength(f.rdLength) else Unsupported(f.rrType);
      DecodeRecord(buf, pos, section, auth)
        == Some(Parsed(Record(section, auth, n.name, f.rrClass, f.ttl, data), n.nextOffset + 10 + f.rdLength))
  {
  }

  /** The records of a section and where the cursor stops after them. */
  datatype Records = Records(records: seq<Record>, next: nat)

  /** `count` records read in turn from `pos`: all of the section's records,
      each tagged with the section and the AA label. */
  function DecodeRecords(buf: seq<byte>, pos: nat, count: nat, section: Section, auth: bool): Option<Records>
    decreases count
  {
    if count == 0 then Some(Records([], pos))
    else
      match DecodeRecord(buf, pos, section, auth)
      case None => None
      case Some(p) =>
        match DecodeRecords(buf, p.next, count - 1, section, auth)
        case None => None
        case Some(rest) => Some(Records([p.record] + rest.records, rest.next))
  }

  /** A section read in full has `count` records, each tagged with the
      section and the AA label. */
  lemma {:induction false} RecordsTagged(buf: seq<byte>, pos: nat, count: nat, section: Section, auth: bool)
    requires DecodeRecords(buf, pos, count, section, auth).Some?
    ensures var rs := DecodeRecords(buf, pos, count, section, auth).value.records;
      |rs| == count && forall k :: 0 <= k < count ==> rs[k].section == section && rs[k].authoritative == auth
    decreases count
  {
    if count > 0 {
      var p := DecodeRecord(buf, pos, section, auth).value;
      RecordsTagged(buf, p.next, count - 1, section, auth);
      var rest := DecodeRecords(buf, p.next, count - 1, section, auth).value.records;
      var rs := DecodeRecords(buf, pos, count, section, auth).value.records;
      assert rs == [p.record] + rest;
      assert forall k :: 1 <= k < count ==> rs[k] == rest[k - 1];
    }
  }

  /** The records read so far, then the rest of the section. */
  function After(done: seq<Record>, r: Option<Records>): Option<Records>
  {
    match r
    case None => None
    case Some(rs) => Some(Records(done + rs.records, rs.next))
  }

  lemma AfterNothing(r: Option<Records>)
    ensures After([], r) == r
  {
    match r
    case None =>
    case Some(rs) => AppendEmpty(rs.records);
  }

  /** One turn of the `parseRecords` loop keeps its invariant: `whole`, the
      section read from its start, is the records read so far and then the
      rest of the section. */
  lemma Advance(buf: seq<byte>, count: nat, section: Section, auth: bool, i: nat, p: nat,
                done: seq<Record>, one: Parsed, whole: Option<Records>)
    requires i < count && DecodeRecord(buf, p, section, auth) == Some(one)
    requires whole == After(done, DecodeRecords(buf, p, count - i, section, auth))
    ensures whole == After(done + [one.record], DecodeRecords(buf, one.next, count - (i + 1), section, auth))
  {
    match DecodeRecords(buf, one.next, count - (i + 1), section, auth)
    case None =>
    case Some(rest) => AppendAssoc(done, [one.record], rest.records);
  }

  /** `parseRecords`: a `for` loop over the section's `count` records. */
  method ParseRecords(buf: seq<byte>, pos: nat, count: nat, section: Section, auth: bool) returns (r: Option<Records>)
    ensures r == DecodeRecords(buf, pos, count, section, auth)
  {
    var p := pos;
    var done: seq<Record> := [];
    AfterNothing(DecodeRecords(buf, pos, count, section, auth));
    for i := 0 to count
      invariant DecodeRecords(buf, pos, count, section, auth) == After(done, DecodeRecords(buf, p, count - i, section, auth))
    {
      var one := ParseRecord(buf, p, section, auth);
      if one.None? {
        return None;
      }
      var parsed := one.value;
      Advance(buf, count, section, auth, i, p, done, parsed, DecodeRecords(buf, pos, count, section, auth));
      done := done + [parsed.record];
      p := parsed.next;
    }
    AppendEmpty(done);
    return Some(Records(done, p));
  }

  // ---------------------------------------------------------------------
  // Questions and the whole response

  /** Where the question section ends: each question is a name and four
      octets (QTYPE, QCLASS) that are skipped without being read. */
  function QuestionsEnd(buf: seq<byte>, pos: nat, count: nat): Option<nat>
    decreases count
  {
    if count == 0 then Some(pos)
    else
      match DecodeName(buf, pos)
      case None => None
      case Some(n) => QuestionsEnd(buf, n.nextOffset + 4, count - 1)
  }

  /** Skipping `m + n` questions is skipping `m`, then `n` more from there. */
  lemma {:induction false} QuestionsSplit(buf: seq<byte>, pos: nat, m: nat, n: nat)
    ensures QuestionsEnd(buf, pos, m + n)
      == match QuestionsEnd(buf, pos, m) case None => None case Some(p) => QuestionsEnd(buf, p, n)
    decreases m
  {
    if m > 0 {
      match DecodeName(buf, pos)
      case None =>
      case Some(nr) => QuestionsSplit(buf, nr.nextOffset + 4, m - 1, n);
    }
  }

  /** The question of the client's own query, skipped as a response's
      question, ends exactly at the end of the packet. */
  lemma OwnQuestionSkipped(id: u16, qname: string, qtype: Option<string>)
    requires IsAscii(qname)
    requires forall k :: 0 <= k < |Pieces(qname)| ==> LegalLabel(Pieces(qname)[k])
    ensures QueryFor(id, qname, qtype).Ok?
    ensures var p := QueryFor(id, qname, qtype).value.packet;
      QuestionsEnd(p, 12, 1) == Some(|p|)
  {
    QueryNameRoundTrip(id, qname, qtype);
  }

  /** The question-skipping loop of `parseAnswer`. */
  method SkipQuestions(buf: seq<byte>, pos: nat, count: nat) returns (r: Option<nat>)
    ensures r == QuestionsEnd(buf, pos, count)
  {
    var p := pos;
    for q := 0 to count
      invariant QuestionsEnd(buf, pos, count) == QuestionsEnd(buf, p, count - q)
    {
      var name := ParseName(buf, p);
      if name.None? {
        return None;
      }
      p := name.value.nextOffset;
      p := p + 4;
    }
    return Some(p);
  }

  datatype Fatal =
    | IdMismatch
    | NotAResponse
    | ServerError(code: nat)      // RCODE 1, 2, 4 or 5
    | UnexpectedRcode(code: nat)  // RCODE 6 to 15
    | Malformed                   // an octet read past the end of the response

  datatype Outcome =
    | NotFound                    // RCODE 3: prints NOTFOUND and exits with status 0
    | Resolved(records: seq<Record>)
    | Failed(error: Fatal)

  /** The outcome, and whether the "does not support recursive queries"
      warning (RA = 0) was printed on the way. */
  datatype Decoded = Decoded(raMissing: bool, outcome: Outcome)

  /** The three sections, read in turn, each from where the previous ended. */
  function DecodeSections(buf: seq<byte>, pos: nat, an: nat, ns: nat, ar: nat, auth: bool): Outcome
  {
    match DecodeRecords(buf, pos, an, Answer, auth)
    case None => Failed(Malformed)
    case Some(a) =>
      match DecodeRecords(buf, a.next, ns, Authority, auth)
      case None => Failed(Malformed)
      case Some(b) =>
        match DecodeRecords(buf, b.next, ar, Additional, auth)
        case None => Failed(Malformed)
        case Some(c) => Resolved(a.records + b.records + c.records)
  }

  /** What follows an RCODE of 0: the counts, the questions, the records. */
  function DecodeBody(buf: seq<byte>, auth: bool): Outcome
  {
    if |buf| < 12 then Failed(Malformed)
    else
      match QuestionsEnd(buf, 12, U16(buf[4], buf[5]))
      case None => Failed(Malformed)
      case Some(p) => DecodeSections(buf, p, U16(buf[6], buf[7]), U16(buf[8], buf[9]), U16(buf[10], buf[11]), auth)
  }

  /** The `switch (rcode)` of `parseAnswer`. */
  function RcodeOutcome(buf: seq<byte>, f: Flags): Outcome
  {
    if f.rcode == 0 then DecodeBody(buf, f.aa == 1)
    else if f.rcode == 3 then NotFound
    else if f.rcode == 1 || f.rcode == 2 || f.rcode == 4 || f.rcode == 5 then Failed(ServerError(f.rcode as int))
    else Failed(UnexpectedRcode(f.rcode as int))
  }

  /** What `parseAnswer(response, expectedId)` does. */
  function DecodeResponse(buf: seq<byte>, expectedId: u16): Decoded
  {
    if |buf| < 4 then Decoded(false, Failed(Malformed))
    else if U16(buf[0], buf[1]) != expectedId then Decoded(false, Failed(IdMismatch))
    else
      var f := DecodeFlags(FlagWord(buf[2], buf[3]));
      if f.qr != 1 then Decoded(false, Failed(NotAResponse))
      else Decoded(f.ra != 1, RcodeOutcome(buf, f))
  }

  /** `parseAnswer`. */
  method ParseAnswer(buf: seq<byte>, expectedId: u16) returns (r: Decoded)
    ensures r == DecodeResponse(buf, expectedId)
  {
    if |buf| < 4 {
      return Decoded(false, Failed(Malformed));
    }
    var id := U16(buf[0], buf[1]);
    var flags := FlagWord(buf[2], buf[3]);
    if id != expectedId {
      return Decoded(false, Failed(IdMismatch));
    }
    var qr := (flags >> 15) & 1;
    if qr != 1 {
      return Decoded(false, Failed(NotAResponse));
    }
    var aa := (flags >> 10) & 1;
    var ra := (flags >> 7) & 1;
    var raMissing := ra != 1;
    var rcode := flags & 0xF;
    if rcode == 3 {
      return Decoded(raMissing, NotFound);
    } else if rcode == 1 || rcode == 2 || rcode == 4 || rcode == 5 {
      return Decoded(raMissing, Failed(ServerError(rcode as int)));
    } else if rcode != 0 {
      return Decoded(raMissing, Failed(UnexpectedRcode(rcode as int)));
    }
    var outcome := ParseBody(buf, aa == 1);
    return Decoded(raMissing, outcome);
  }

  /** The rest of `parseAnswer` once RCODE is 0: the four counts, the
      question skip and the three sections. */
  method ParseBody(buf: seq<byte>, auth: bool) returns (r: Outcome)
    ensures r == DecodeBody(buf, auth)
  {
    if |buf| < 12 {
      return Failed(Malformed);
    }
    var qdCount := U16(buf[4], buf[5]);
    var anCount := U16(buf[6], buf[7]);
    var nsCount := U16(buf[8], buf[9]);
    var arCount := U16(buf[10], buf[11]);
    var pos := SkipQuestions(buf, 12, qdCount);
    if pos.None? {
      return Failed(Malformed);
    }
    var answers := ParseRecords(buf, pos.value, anCount, Answer, auth);
    if answers.None? {
      return Failed(Malformed);
    }
    var authority := ParseRecords(buf, answers.value.next, nsCount, Authority, auth);
    if authority.None? {
      return Failed(Malformed);
    }
    var additional := ParseRecords(buf, authority.value.next, arCount, Additional, auth);
    if additional.None? {
      return Failed(Malformed);
    }
    return Resolved(answers.value.records + authority.value.records + additional.value.records);
  }

  // ---------------------------------------------------------------------
  // What the checks of `parseAnswer` guarantee

  /** The header fields the checks look at, for a response of at least four
      octets. */
  function IdOf(buf: seq<byte>): u16
    requires |buf| >= 4
  {
    U16(buf[0], buf[1])
  }

  function FlagsOf(buf: seq<byte>): Flags
    requires |buf| >= 4
  {
    DecodeFlags(FlagWord(buf[2], buf[3]))
  }

  /** The checks run in a fixed order, and each outcome is reached exactly
      when the checks before it pass and its own condition holds. */
  lemma CheckOrder(buf: seq<byte>, expectedId: u16)
    ensures var d := DecodeResponse(buf, expectedId);
      (d.outcome == Failed(IdMismatch) <==> |buf| >= 4 && IdOf(buf) != expectedId) &&
      (d.outcome == Failed(NotAResponse) <==> |buf| >= 4 && IdOf(buf) == expectedId && FlagsOf(buf).qr != 1) &&
      (d.raMissing <==> |buf| >= 4 && IdOf(buf) == expectedId && FlagsOf(buf).qr == 1 && FlagsOf(buf).ra != 1) &&
      (d.outcome == NotFound <==> |buf| >= 4 && IdOf(buf) == expectedId && FlagsOf(buf).qr == 1 && FlagsOf(buf).rcode == 3) &&
      (forall c :: d.outcome == Failed(ServerError(c)) <==>
         |buf| >= 4 && IdOf(buf) == expectedId && FlagsOf(buf).qr == 1 && c in {1, 2, 4, 5} && FlagsOf(buf).rcode as int == c) &&
      (forall c :: d.outcome == Failed(UnexpectedRcode(c)) <==>
         |buf| >= 4 && IdOf(buf) == expectedId && FlagsOf(buf).qr == 1 && 6 <= c <= 15 && FlagsOf(buf).rcode as int == c) &&
      (d.outcome.Resolved? ==> |buf| >= 12 && IdOf(buf) == expectedId && FlagsOf(buf).qr == 1 && FlagsOf(buf).rcode == 0)
  {
    if |buf| >= 4 {
      var f := FlagsOf(buf);
      assert 0 <= f.rcode as int <= 15;
    }
  }

  /** A decoded response lists ANCOUNT answers, then NSCOUNT authority
      records, then ARCOUNT additional records, every one labelled with the
      header's AA bit. */
  lemma ResolvedLayout(buf: seq<byte>, expectedId: u16)
    requires DecodeResponse(buf, expectedId).outcome.Resolved?
    ensures |buf| >= 12
    ensures var rs := DecodeResponse(buf, expectedId).outcome.records;
      var an, ns, ar := U16(buf[6], buf[7]), U16(buf[8], buf[9]), U16(buf[10], buf[11]);
      |rs| == an + ns + ar &&
      (forall k :: 0 <= k < an ==> rs[k].section == Answer) &&
      (forall k :: an <= k < an + ns ==> rs[k].section == Authority) &&
      (forall k :: an + ns <= k < |rs| ==> rs[k].section == Additional) &&
      (forall k :: 0 <= k < |rs| ==> rs[k].authoritative == (FlagsOf(buf).aa == 1))
  {
    CheckOrder(buf, expectedId);
    var auth := FlagsOf(buf).aa == 1;
    var an, ns, ar := U16(buf[6], buf[7]), U16(buf[8], buf[9]), U16(buf[10], buf[11]);
    var p := QuestionsEnd(buf, 12, U16(buf[4], buf[5])).value;
    var a := DecodeRecords(buf, p, an, Answer, auth).value;
    var b := DecodeRecords(buf, a.next, ns, Authority, auth).value;
    var c := DecodeRecords(buf, b.next, ar, Additional, auth).value;
    RecordsTagged(buf, p, an, Answer, auth);
    RecordsTagged(buf, a.next, ns, Authority, auth);
    RecordsTagged(buf, b.next, ar, Additional, auth);
    assert DecodeResponse(buf, expectedId).outcome.records == a.records + b.records + c.records;
    ThreeSections(a.records, b.records, c.records, auth);
  }

  lemma ThreeSections(a: seq<Record>, b: seq<Record>, c: seq<Record>, auth: bool)
    requires forall k :: 0 <= k < |a| ==> a[k].section == Answer && a[k].authoritative == auth
    requires forall k :: 0 <= k < |b| ==> b[k].section == Authority && b[k].authoritative == auth
    requires forall k :: 0 <= k < |c| ==> c[k].section == Additional && c[k].authoritative == auth
    ensures var rs := a + b + c;
      (forall k :: 0 <= k < |a| ==> rs[k].section == Answer) &&
      (forall k :: |a| <= k < |a| + |b| ==> rs[k].section == Authority) &&
      (forall k :: |a| + |b| <= k < |rs| ==> rs[k].section == Additional) &&
      (forall k :: 0 <= k < |rs| ==> rs[k].authoritative == auth)
  {
    var rs := a + b + c;
    forall k | 0 <= k < |rs|
      ensures rs[k] == if k < |a| then a[k] else if k < |a| + |b| then b[k - |a|] else c[k - |a| - |b|]
    {
    }
  }
}
