# A verified model of a single-question DNS client

This project models the protocol engine of a small DNS client written in
Java (`DNSClient.java`), together with the header-only test server
(`mockserver.py`) the client is exercised against. The client:

- builds one RFC 1035 query, with a 12-octet header (section 4.1.1) and a
  single question (section 4.1.2);
- sends it over UDP, retrying on timeouts;
- checks the header of the reply, then walks the question, answer,
  authority and additional sections (section 4.1.3);
- follows message compression pointers (section 4.1.4) and reports A, NS,
  CNAME and MX records.

Modules, in dependency order:

| module | file | what it holds |
|---|---|---|
| `Wire` | `wire.dfy` | octets and 16/32-bit big-endian integers, `Option`, `Result` |
| `Text` | `text.dfy` | Java's `String.split("\\.")`, joining with dots, decimal numerals |
| `Names` | `names.dfy` | `encodeName` and `parseName`: the name codec and its pointer handling |
| `Query` | `query.dfy` | the type codes, `qtypeFromString` and `buildQuery` |
| `Transport` | `transport.dfy` | the retry loop of `sendQuery`, over a sequence of attempt outcomes |
| `Decoder` | `decoder.dfy` | `parseAnswer`, the question skip and `parseRecords` |
| `Encoder` | `encoder.dfy` | the writer side of one resource record, used to state round trips for the decoder |
| `MockServer` | `mockserver.dfy` | `build_dns_response`, the `bad_id` id tweak, and the client's verdict in every mode |

The code that works step by step keeps its loops. These are the
`ByteArrayOutputStream` appends of `encodeName` and `buildQuery`, the
`while (true)` of `parseName`, the retry loop, the question skip and the
record loop. Each loop becomes a `method` whose `ensures` equates its result
with a specification function:

- `EncodedName` for `EncodeName`;
- `DecodeName` for `ParseName`;
- `Send` for `SendQuery`;
- `DecodeRecords` for `ParseRecords`;
- `DecodeResponse` for `ParseAnswer`.

The properties are proved as lemmas about those functions. Inputs and
outputs are modelled as follows:

- Buffers are immutable `seq<byte>`, where `byte` is `0..255`: Java's
  `b & 0xFF` reading.
- The random transaction id and the socket behaviour enter as parameters:
  - `ids[i]` is the id drawn on attempt `i`;
  - `attempts[i]` says whether attempt `i` could not open a socket, timed
    out, hit another I/O error, or received a datagram.
- Printing and `System.exit` become returned values:
  - `Decoded(raMissing, outcome)`, where `outcome` is `NotFound`,
    `Resolved(records)` or `Failed(error)`;
  - a `Result` with a `SendError` for the transport.
- An array read past the end of the response, an exception in the Java,
  becomes `Failed(Malformed)`.

Where the code departs from what RFC 1035 or a careful client would do, the
model follows the code:

- `sendQuery` opens the socket before it builds the query
  (`DNSClient.java:264` then `:269`). So an illegal name is reported only
  after a socket has been opened, and a socket failure on the first attempt
  is reported even for a name with an illegal label. See
  `Transport.BadNameIsFatal`.
- The label check counts characters, not octets (`DNSClient.java:210`).
  Names are ASCII here, so the two agree.
- `parseName` accepts any pointer target, including one that does not move
  forward, as long as the walk ends. Section 4.1.4 of RFC 1035 has a pointer
  refer to a prior occurrence of a name; the code accepts any target, and so
  does the model. Only a walk that never ends, a pointer cycle, is cut off, by a jump
  cap of `|buf|`. `Names.CapIsExact` shows that this cap loses no read the
  Java loop completes.
- Length octets `0x40` to `0xBF` are read as ordinary labels, longer than
  the 63 octets RFC 1035 allows.
- The cursor moves past the question's four octets and past an RDLENGTH that
  is not read, without a bounds check (`DNSClient.java:461`, `:361`, `:385`).
  Only a later octet read can fail.
- A trailing dot is dropped by `split` ("a." encodes like "a") and "." encodes
  as the root name `[0]`. The empty name `""` is rejected, because it splits
  into one empty label. See `Names.SplitEdgeCases`.

## Model

| member | source | states |
|---|---|---|
| `Wire.Be16` | DNSClient.java:233-238 | `writeShort` writes two octets, high first, that read back as the same 16-bit value |
| `Wire.Be32` | DNSClient.java:345-346 | four big-endian octets that read back as the TTL the client assembles from them |
| `Text.Pieces` | DNSClient.java:207 | splitting at every dot gives at least one piece, no piece holds a dot, and every character of a piece comes from the input |
| `Text.JavaSplit` | DNSClient.java:207 | `split("\\.")`: its pieces hold no dot and only characters of the input |
| `Text.DropTrailingEmpty` | DNSClient.java:207 | `split` drops exactly the trailing empty strings: the result is a prefix, it does not end in "", and everything dropped is "" |
| `Text.JoinPieces` | DNSClient.java:207 | joining the pieces of a string with dots gives the string back |
| `Text.PiecesJoin` | DNSClient.java:207 | splitting a dot-joined list of dot-free labels gives the list back |
| `Text.JavaSplitNoEmpty` | DNSClient.java:207 | when no piece is empty, Java's split agrees with splitting at every dot |
| `Text.Decimal` | DNSClient.java:353-356 | the decimal numeral of a number is non-empty, all digits, and has no leading zero |
| `Text.DecimalRoundTrip` | DNSClient.java:353-356 | reading the numeral back gives the number |
| `Text.DecimalHasNoDot` | DNSClient.java:353-356 | a numeral has no dot, so the dotted address splits back into its four numerals |
| `Names.Octets` | DNSClient.java:214 | the UTF-8 octets of an ASCII label are as many as its characters (so the length octet of line 213 is right) |
| `Names.CharsOfOctets` | DNSClient.java:329 | the `(char)(b & 0xFF)` reading of an ASCII label's octets gives the label back |
| `Names.EncodedLength` | DNSClient.java:213-216 | the encoded labels are one length octet plus the label per label, plus the final 0, and end in 0 |
| `Names.SplitName` | DNSClient.java:207 | the labels `encodeName` iterates over are ASCII and hold no dot |
| `Names.FirstIllegal` | DNSClient.java:208-212 | the label named in the exception is the first of length 0 or over 63; all before it pass |
| `Names.EncodeName` | DNSClient.java:205-218 | the append loop produces exactly `EncodedName`: the encoded labels, or the first illegal label |
| `Names.EncodedNameShape` | DNSClient.java:205-218 | encoding succeeds iff every label has 1 to 63 characters; then its length is the sum of (label length + 1) plus 1 and it ends in 0; otherwise the error is an illegal label of the name |
| `Names.SplitEdgeCases` | DNSClient.java:207-216 | "." encodes as `[0]`, "" fails with the empty label, "a." encodes like "a" |
| `Names.Walk` | DNSClient.java:303-336 | every label a successful read returns is non-empty and its length octet is neither 0 nor a pointer |
| `Names.PointerStep` | DNSClient.java:312-319 | one pointer turn of the loop: jump to the 14-bit target, and record `pos + 2` as resume offset only on the first pointer |
| `Names.LabelStep` | DNSClient.java:326-332 | one label turn: the label is appended, after a dot unless it is the first |
| `Names.EndStep` | DNSClient.java:321-324 | the zero octet ends the name; the resume offset is the first pointer's, or the octet after the zero |
| `Names.AppendChars` | DNSClient.java:329-331 | the inner loop appends the label's octets as characters |
| `Names.ParseName` | DNSClient.java:303-336 | the `while (true)` loop computes exactly `DecodeName`, with the jump cap in place of the hang |
| `Names.WalkEncoded` | DNSClient.java:303-336 | a run of encoded labels is read back as those labels, and scanning resumes just after the final 0 |
| `Names.EncodedNameReadsBack` | DNSClient.java:303-336 | an encoded name, wherever it is placed, decodes to its labels joined with dots and resumes after it |
| `Names.LabelsReadBack` | DNSClient.java:303-336 | legal ASCII labels, encoded, decode to their dotted join |
| `Names.NameRoundTrip` | DNSClient.java:303-336 | a name whose dot-separated labels all have 1 to 63 characters encodes, and decodes back to itself, resuming at the end of the encoding |
| `Names.UnjumpedLayout` | DNSClient.java:321-334 | a read that takes no pointer resumes just past the terminating 0, and the octets it covered are exactly its encoded labels |
| `Names.JumpedLayout` | DNSClient.java:312-319 | a read that takes a pointer resumes 2 octets after the first pointer it meets, whatever pointers follow |
| `Names.TrailDistinct` | DNSClient.java:309-333 | the pointers a completed read follows are at distinct offsets |
| `Names.CapSuffices` | DNSClient.java:309-333 | a read that completes with any number of jumps completes with `|buf|` jumps, with the same result |
| `Names.CapIsExact` | DNSClient.java:309-333 | `DecodeName` returns what the uncapped loop returns whenever that loop ends |
| `Names.PointerAtStart` | DNSClient.java:312-319 | a name that starts with a pointer decodes as the name at the target, resuming at the pointer + 2 |
| `Names.PointerChain` | DNSClient.java:312-319 | a pointer to a pointer decodes as the name at the second target, resuming after the first pointer |
| `Names.ChainExample` | DNSClient.java:303-336 | "com" at 0 with a pointer to it at 5 and a pointer to that at 7: all three read "com", resuming at 5, 7 and 9 |
| `Names.SelfPointerNeverEnds` | DNSClient.java:309-319 | a pointer to itself never ends the walk, for any number of jumps |
| `Names.CycleIsMalformed` | DNSClient.java:309-319 | with the jump cap, the self-pointer is reported as malformed |
| `Query.QTypeFromString` | DNSClient.java:188-202 | the code is NS iff the upper-cased type is "NS", MX iff it is "MX", and A otherwise (no type, "A", anything else) |
| `Query.QTypeExamples` | DNSClient.java:188-202 | "mx", "Mx" give MX; "ns" and "n" followed by long s (which upper-cases to "NS") give NS; "", "cname", "AAAA" and no type give A |
| `Query.BuildQuery` | DNSClient.java:221-252 | the stream writes produce exactly `QueryFor`: the packet, or the encoder's error |
| `Query.QueryOutcome` | DNSClient.java:221-252 | unfolding step used as a proof hint: the result of building is the encoder's error, or the id with header, name, QTYPE and QCLASS |
| `Query.QueryLayout` | DNSClient.java:233-243 | the packet is 12 + |name| + 4 octets: id, `0x0100`, QDCOUNT 1, six zeros, the encoded name, QTYPE, QCLASS 1 |
| `Query.HeaderOctets` | DNSClient.java:233-238 | the header, octet by octet |
| `Query.QueryNameRoundTrip` | DNSClient.java:241 | for legal ASCII names, the question name read at offset 12 is the name itself, and the 4 octets after it end the packet |
| `Transport.Truncated` | DNSClient.java:277-283 | the received response is the first `min(|d|, 1024)` octets of the datagram |
| `Transport.SendQuery` | DNSClient.java:254-301 | the `while (retries < maxRetries)` loop computes exactly `Send`: the result and the queries built |
| `Transport.TimeoutStep` | DNSClient.java:286-288 | unfolding step used as a proof hint for the loop: a timeout adds the built query and continues with the counter one higher |
| `Transport.SendTimedOut` | DNSClient.java:286-288 | unfolding step used as a proof hint for the lemmas about runs: after a timeout the run is the next attempt's run, preceded by the query just built |
| `Transport.SuccessAfterTimeouts` | DNSClient.java:260-284 | on success every earlier attempt timed out, `retriesUsed` counts them and is below `maxRetries`, the response is the truncated datagram of 1024 octets at most, and its id is that attempt's id |
| `Transport.TimeoutsThenReply` | DNSClient.java:260-288 | k timeouts then a reply give that reply with k retries, after k + 1 queries |
| `Transport.ExhaustedExactly` | DNSClient.java:261 | the retries are exhausted iff the counter is already at the bound, or the name is legal and every remaining attempt times out |
| `Transport.NoAttempts` | DNSClient.java:298-300 | `maxRetries <= 0` fails with exhaustion without any attempt or query |
| `Transport.FailureIsFatal` | DNSClient.java:289-291 | a non-timeout I/O error, or a socket that cannot be opened, stops at once with a socket error, after no further attempt |
| `Transport.BadNameIsFatal` | DNSClient.java:264-269 | an illegal name fails on the first attempt, with the label, unless the socket failed first |
| `Transport.FreshQueries` | DNSClient.java:269 | each attempt builds its own query with that attempt's id; only the last of them was not a timeout |
| `Transport.ThreeTimeoutsThenReply` | DNSClient.java:260-300 | three timeouts then a reply succeed with 3 retries when 4 are allowed, and fail with exhaustion when 3 are |
| `Decoder.DecodeFlags` | DNSClient.java:405-420 | every header field taken from the flags fits its width |
| `Decoder.FlagsRoundTrip` | DNSClient.java:405-420 | the fields put back together give the flags word |
| `Decoder.FieldsRoundTrip` | DNSClient.java:405-420 | fields that fit their widths, packed and read, come back unchanged |
| `Decoder.TopBits` | DNSClient.java:405-415 | QR is 1 iff the third octet is at least 0x80; RA is 1 iff the fourth octet is |
| `Decoder.Dotted` | DNSClient.java:353-356 | the printed address holds only digits and dots, and splits at its dots into exactly the four octets' numerals |
| `Decoder.DottedRoundTrip` | DNSClient.java:353-356 | the dotted text of an address splits into four numerals that read back as its octets |
| `Decoder.DottedExample` | DNSClient.java:353-356 | 93, 184, 216, 34 print as "93.184.216.34" |
| `Decoder.FixedAt` | DNSClient.java:343-347 | the fixed fields are read iff ten octets remain at the cursor |
| `Decoder.FixedReencodes` | DNSClient.java:343-347 | written back big-endian, the fields read give the ten octets they came from |
| `Decoder.ParseRecord` | DNSClient.java:340-348 | one record, owner name, fixed fields and RDATA, is exactly `DecodeRecord` |
| `Decoder.ParseData` | DNSClient.java:350-387 | the `switch (type)` is exactly `RDataAt` |
| `Decoder.SkippedByLength` | DNSClient.java:351-386 | an A record with RDLENGTH other than 4, or an unknown type, gives a notice and moves the cursor by RDLENGTH |
| `Decoder.RecordsTagged` | DNSClient.java:338-390 | a section decodes to `count` records, all tagged with that section and with the AA label |
| `Decoder.ParseRecords` | DNSClient.java:338-390 | the `for` loop is exactly `DecodeRecords` |
| `Decoder.SkipQuestions` | DNSClient.java:455-462 | the question loop is exactly `QuestionsEnd`: a name plus 4 octets per question |
| `Decoder.QuestionsSplit` | DNSClient.java:455-462 | skipping m + n questions is skipping m, then n more from where those end |
| `Decoder.OwnQuestionSkipped` | DNSClient.java:455-462 | the question of the client's own query, skipped as the loop skips it, ends exactly at the end of the packet |
| `Decoder.ParseAnswer` | DNSClient.java:393-484 | `parseAnswer` is exactly `DecodeResponse` |
| `Decoder.ParseBody` | DNSClient.java:450-483 | counts, questions and the three sections are exactly `DecodeBody` |
| `Decoder.CheckOrder` | DNSClient.java:399-448 | each outcome holds iff the checks before it passed: id mismatch first, then QR, the RA warning only, then RCODE 3 as not found, 1/2/4/5 as server errors, 6-15 as unexpected, and records only for RCODE 0 |
| `Decoder.ResolvedLayout` | DNSClient.java:450-483 | a resolved response holds anCount + nsCount + arCount records, in answer, authority, additional order, all with the AA label |
| `Decoder.ThreeSections` | DNSClient.java:465-483 | three tagged sections stay in order and keep their tags when joined |
| `Encoder.RDataBytes` | DNSClient.java:350-387 | the RDATA written for a record fits a 16-bit RDLENGTH |
| `Encoder.FixedBytes` | DNSClient.java:343-348 | the fixed fields take ten octets |
| `Encoder.FixedFields` | DNSClient.java:343-348 | written TYPE, CLASS, TTL and RDLENGTH are read back unchanged, TTL as an unsigned 32-bit value |
| `Encoder.AddressAt` | DNSClient.java:351-362 | four address octets are read as the address, and the cursor moves by 4 |
| `Encoder.HostAt` | DNSClient.java:364-374 | an encoded NS or CNAME name is read as that name, and the cursor moves to its end |
| `Encoder.ExchangeAt` | DNSClient.java:376-381 | a preference and an encoded name are read as the MX pair, and the cursor moves past the name |
| `Encoder.DataAt` | DNSClient.java:350-387 | every RDATA the writer produces is read back as the RDATA the client reports, ending where it was written |
| `Encoder.RecordRoundTrip` | DNSClient.java:340-387 | an encoded record is decoded as the same owner, class, TTL and data, and the cursor ends just after it |
| `Encoder.AddressExample` | DNSClient.java:351-362 | an A record for 93.184.216.34 is read back as that address, whatever its owner, class and TTL |
| `MockServer.ResponseFlags` | mockserver.py:9-29 | only QR (`bad_qr`), RA (`no_ra`), TC (`truncated`) and RCODE (`rcodeN`) ever leave the base `0x8180`; opcode, AA, Z stay 0, RD stays 1, and the word is one of nine values |
| `MockServer.BuildDnsResponse` | mockserver.py:32-38 | twelve octets: the id, the flags, QDCOUNT 1 and three zero counts |
| `MockServer.Packed` | mockserver.py:32-38 | each of the nine flag words, packed and read as the client reads it, is unchanged |
| `MockServer.EchoedId` | mockserver.py:50-53 | an id is sent iff the datagram has two octets; it equals the query's id except in `bad_id` mode, where it never does |
| `MockServer.Reply` | mockserver.py:50-55 | a reply is sent iff the datagram has two octets; it has twelve octets and carries the id `EchoedId` chooses |
| `MockServer.IdEchoed` | mockserver.py:50-55 | the reply carries the query's id iff the mode is not `bad_id` |
| `MockServer.MissingQuestion` | DNSClient.java:455-462 | a bare header announcing one question is malformed to the client |
| `MockServer.ModeOutcome` | mockserver.py:48-56 | for any query carrying the expected id the server answers, and the client's verdict is the one the mode is named after |
| `MockServer.Exchange` | mockserver.py:52-55 | the client's own query, answered in any mode, ends as the mode intends |

## Left out

- Sockets, `setSoTimeout`, `System.nanoTime` and `sock.close` are not
  modelled (`DNSClient.java:264-280`, `:292-296`). They are I/O and the
  clock: each attempt's outcome is a parameter, and the elapsed time is not
  reported.
- `new Random().nextInt(65536)` (`DNSClient.java:223`) is a parameter: the
  sequence of ids drawn, one per attempt. That the ids are likely to be
  different is a statistical fact and is not stated.
- `Transport.SendQuery` needs an id and an outcome for every attempt
  (`|ids| >= maxRetries`): this bounds the model's inputs, not the client's
  callers.
- All printing and `System.exit` are left out. They become the returned
  outcome; `NotFound` stands for the `exit(0)` of RCODE 3.
- `getArguments`, `isNumeric`, `convertToInetAddress` and `main` are not
  part of this model (`DNSClient.java:54-185`, `:487-529`). They are
  command-line handling.
- `Names.EncodeName` requires an ASCII name: the UTF-8 encoding of other
  characters (`DNSClient.java:214`) is not modelled, so the character-count
  check of line 210 and the octet count agree.
- `Names.ParseName` bounds the number of pointers followed by `|buf|`, where
  the Java has no bound. A cycle made of pointers alone, such as `0xC0 0x00`
  at offset 0, never ends in the Java. A cycle through a label, such as
  `[1, 97, 0xC0, 0x00]`, appends "a." to the `StringBuilder` on every turn
  until the JVM runs out of memory. In both cases the model reports
  `Malformed` (see Findings). `Names.CapIsExact` shows that nothing else
  changes.
- Output printed before a failing read is not part of the outcome. The Java
  prints each section banner (`DNSClient.java:469`, `:475`, `:481`) and each
  record as soon as it is decoded (`:357`, `:366`, `:372`, `:379`, `:384`),
  so a later read past the end throws after some records were shown. For
  example `[0, 0,1, 0,1, 0,0,0,0, 0,4, 93,184,216,34]` as an answer section
  of two records prints the first and then fails. The model returns
  `Failed(Malformed)` with none of the earlier records.
- The mock server's socket loop, port and log lines (`mockserver.py:42-57`)
  are not modelled; the received datagram and the mode are parameters.
- `Encoder.RecordRoundTrip` covers one record at a time. Round trips of
  whole sections, of the question and of a whole response are not stated;
  their proofs are too costly for the verifier.
- The Java `int` arithmetic never overflows on these inputs (offsets are at
  most a datagram of 1024 octets plus a 16-bit RDLENGTH), so integers are
  unbounded in the model.

## Findings

| source | as written | input that shows it | evidently intended | confidence | as-written member | corrected member |
|---|---|---|---|---|---|---|
| DNSClient.java:309-319 | `while (true)` follows every compression pointer, with no limit on jumps | the two octets `0xC0 0x00` read at offset 0: a pointer to itself | a pointer cycle ends the read as a malformed message | not executed | `Names.SelfPointerNeverEnds` | `Names.CycleIsMalformed` |
