/**
 * The name codec: a dotted domain name to length-prefixed labels
 * (RFC 1035, section 3.1) and back, following the message compression
 * pointers of RFC 1035, section 4.1.4.
 */
module Names {
  import opened Wire
  import opened Text

  /** A label as the decoder reads it: a length octet that is neither the
      terminating zero nor a pointer (below 0xC0), and that many octets. */
  predicate IsLabel(l: seq<byte>)
  {
    0 < |l| < 0xC0
  }

  predicate AllLabels(ls: seq<seq<byte>>)
  {
    forall k :: 0 <= k < |ls| ==> IsLabel(ls[k])
  }

  /** The length check `encodeName` makes on each label (RFC 1035, section
      2.3.4), on the label's character count. */
  predicate LegalLabel(s: string)
  {
    1 <= |s| <= 63
  }

  predicate IsAscii(s: string)
  {
    forall c :: c in s ==> c < 128 as char
  }

  /** The octets of an ASCII string (what `getBytes("UTF-8")` gives for it). */
  function Octets(s: string): (o: seq<byte>)
    requires IsAscii(s)
    ensures |o| == |s|
  {
    seq(|s|, k requires 0 <= k < |s| => assert s[k] in s; Octet(s[k]))
  }

  function Octet(c: char): byte
    requires c < 128 as char
  {
    c as int
  }

  /** `(char)(b & 0xFF)` octet by octet: the Latin-1 reading of a label. */
  function Chars(l: seq<byte>): (s: string)
    ensures |s| == |l|
  {
    seq(|l|, k requires 0 <= k < |l| => l[k] as char)
  }

  lemma CharsOfOctets(s: string)
    requires IsAscii(s)
    ensures Chars(Octets(s)) == s
  {
    var t := Chars(Octets(s));
    forall k | 0 <= k < |s| ensures t[k] == s[k] {
      assert s[k] in s;
    }
  }

  /** The labels, each preceded by its length octet, without a terminator. */
  function LabelRun(ls: seq<seq<byte>>): seq<byte>
    requires AllLabels(ls)
  {
    if |ls| == 0 then [] else [|ls[0]|] + ls[0] + LabelRun(ls[1..])
  }

  /** The wire form of a name: its labels, then a zero length octet. */
  function EncodeLabels(ls: seq<seq<byte>>): seq<byte>
    requires AllLabels(ls)
  {
    LabelRun(ls) + [0]
  }

  /** The octets a name takes on the wire: one length octet per label plus
      its content, plus the terminating octet. */
  function WireLength(ls: seq<seq<byte>>): nat
  {
    if |ls| == 0 then 1 else |ls[0]| + 1 + WireLength(ls[1..])
  }

  lemma {:induction false} EncodedLength(ls: seq<seq<byte>>)
    requires AllLabels(ls)
    ensures |EncodeLabels(ls)| == WireLength(ls)
    ensures EncodeLabels(ls)[|EncodeLabels(ls)| - 1] == 0
    decreases |ls|
  {
    if |ls| > 0 {
      EncodedLength(ls[1..]);
    }
  }

  lemma {:induction false} LabelRunSnoc(ls: seq<seq<byte>>, l: seq<byte>)
    requires AllLabels(ls) && IsLabel(l)
    ensures AllLabels(ls + [l])
    ensures LabelRun(ls + [l]) == LabelRun(ls) + [|l|] + l
    decreases |ls|
  {
    if |ls| > 0 {
      assert (ls + [l])[1..] == ls[1..] + [l];
      LabelRunSnoc(ls[1..], l);
    } else {
      assert ls + [l] == [l];
    }
  }

  /** Writing label `k` of a name extends the run of the labels before it. */
  lemma LabelRunGrows(ls: seq<seq<byte>>, k: nat, l: seq<byte>)
    requires k < |ls| && ls[k] == l && IsLabel(l) && AllLabels(ls[..k])
    ensures AllLabels(ls[..k + 1])
    ensures LabelRun(ls[..k + 1]) == LabelRun(ls[..k]) + [|l|] + l
  {
    assert ls[..k + 1] == ls[..k] + [l];
    LabelRunSnoc(ls[..k], l);
  }

  /** The labels of a dotted name as octet strings. */
  function OctetLabels(ls: seq<string>): (r: seq<seq<byte>>)
    requires forall k :: 0 <= k < |ls| ==> IsAscii(ls[k])
    ensures |r| == |ls|
    ensures forall k :: 0 <= k < |r| ==> r[k] == Octets(ls[k])
  {
    seq(|ls|, k requires 0 <= k < |ls| => Octets(ls[k]))
  }

  /** The labels `encodeName` checks and writes: Java's split of the name. */
  function SplitName(name: string): (ls: seq<string>)
    requires IsAscii(name)
    ensures forall k :: 0 <= k < |ls| ==> IsAscii(ls[k]) && '.' !in ls[k]
  {
    var ls := JavaSplit(name);
    assert forall k :: 0 <= k < |ls| ==> IsAscii(ls[k]) by {
      forall k | 0 <= k < |ls| ensures IsAscii(ls[k]) {
        forall c | c in ls[k] ensures c < 128 as char {
          assert c in name;
        }
      }
    }
    ls
  }

  /** The index of the first label that fails the length check. */
  function FirstIllegal(ls: seq<string>): (k: nat)
    requires exists j :: 0 <= j < |ls| && !LegalLabel(ls[j])
    ensures k < |ls| && !LegalLabel(ls[k])
    ensures forall j :: 0 <= j < k ==> LegalLabel(ls[j])
  {
    if !LegalLabel(ls[0]) then 0
    else
      assert exists j :: 0 <= j < |ls[1..]| && !LegalLabel(ls[1..][j]) by {
        var j :| 0 <= j < |ls| && !LegalLabel(ls[j]);
        assert ls[1..][j - 1] == ls[j];
      }
      1 + FirstIllegal(ls[1..])
  }

  /** What `encodeName` produces: the encoded labels when every label passes
      the length check, or the first label that fails it (the one named in
      the `IOException`). */
  function EncodedName(name: string): (r: Result<seq<byte>, string>)
    requires IsAscii(name)
  {
    var ls := SplitName(name);
    if forall k :: 0 <= k < |ls| ==> LegalLabel(ls[k])
    then Ok(EncodeLabels(OctetLabels(ls)))
    else Err(ls[FirstIllegal(ls)])
  }

  /** `encodeName`: appends each label's length and octets to the output
      stream, failing on the first label of length 0 or over 63. */
  method EncodeName(name: string) returns (r: Result<seq<byte>, string>)
    requires IsAscii(name)
    ensures r == EncodedName(name)
  {
    var labels := SplitName(name);
    ghost var octets := OctetLabels(labels);
    var out: seq<byte> := [];
    for k := 0 to |labels|
      invariant forall j :: 0 <= j < k ==> LegalLabel(labels[j])
      invariant AllLabels(octets[..k])
      invariant out == LabelRun(octets[..k])
    {
      var piece := labels[k];
      if |piece| == 0 || |piece| > 63 {
        return Err(piece);
      }
      LabelRunGrows(octets, k, Octets(piece));
      out := out + [|piece|] + Octets(piece);
    }
    assert octets[..|labels|] == octets;
    out := out + [0];
    return Ok(out);
  }

  /** The labels read from a name, where scanning resumes after it, and
      whether a compression pointer was followed. */
  datatype Walked = Walked(labels: seq<seq<byte>>, resume: nat, jumped: bool)

  /** `((b & 0x3F) << 8) | next`: the 14-bit offset a pointer refers to. */
  function PointerTarget(b: byte, next: byte): nat
  {
    (b % 0x40) * 0x100 + next
  }

  /** Reading a name at `pos` with at most `jumps` pointers left to follow.
      A length octet with both top bits set (`(b & 0xC0) == 0xC0`) is a
      pointer; every other non-zero octet is an ordinary label, 0x40..0xBF
      included. The first pointer fixes the resume offset. There is no result
      (which the client reports as malformed) when an octet past the end of
      the buffer would be read, or when more than `jumps` pointers would be
      followed. */
  function Walk(buf: seq<byte>, pos: nat, jumps: nat): (r: Option<Walked>)
    ensures r.Some? ==> AllLabels(r.value.labels)
    decreases jumps, |buf| - pos
  {
    if pos >= |buf| then None
    else
      var length := buf[pos];
      if length >= 0xC0 then
        if pos + 1 >= |buf| || jumps == 0 then None
        else
          match Walk(buf, PointerTarget(length, buf[pos + 1]), jumps - 1)
          case None => None
          case Some(w) => Some(Walked(w.labels, pos + 2, true))
      else if length == 0 then Some(Walked([], pos + 1, false))
      else if pos + 1 + length > |buf| then None
      else
        match Walk(buf, pos + 1 + length, jumps)
        case None => None
        case Some(w) => Some(Walked([buf[pos + 1..pos + 1 + length]] + w.labels, w.resume, w.jumped))
  }

  function LabelStrings(ls: seq<seq<byte>>): (r: seq<string>)
    ensures |r| == |ls|
    ensures forall k :: 0 <= k < |ls| ==> r[k] == Chars(ls[k])
  {
    seq(|ls|, k requires 0 <= k < |ls| => Chars(ls[k]))
  }


  /** The dotted text the `StringBuilder` holds after appending `ls`. */
  function NameText(ls: seq<seq<byte>>): string
  {
    Join(LabelStrings(ls))
  }

  lemma NameTextSnoc(ls: seq<seq<byte>>, l: seq<byte>)
    ensures NameText(ls + [l]) == (if |ls| == 0 then "" else NameText(ls) + ".") + Chars(l)
  {
    assert LabelStrings(ls + [l]) == LabelStrings(ls) + [Chars(l)];
    JoinSnoc(LabelStrings(ls), Chars(l));
  }

  /** `NameResult`: the decoded name and the offset the caller resumes at. */
  datatype NameResult = NameResult(name: string, nextOffset: nat)

  /** What `parseName(buf, offset)` returns when it returns; the jump cap is
      the buffer length, which never rejects a name the uncapped loop would
      decode (see `CapIsExact`). */
  function DecodeName(buf: seq<byte>, offset: nat): Option<NameResult>
  {
    match Walk(buf, offset, |buf|)
    case None => None
    case Some(w) => Some(NameResult(NameText(w.labels), w.resume))
  }

  /** The rest of a decode, given the labels read so far and the pointer
      state (`jumped`, `jumpPos`) of the loop in `parseName`. */
  function Continue(acc: seq<seq<byte>>, jumped: bool, jumpPos: nat, r: Option<Walked>): Option<Walked>
  {
    match r
    case None => None
    case Some(w) => Some(Walked(acc + w.labels, if jumped then jumpPos else w.resume, jumped || w.jumped))
  }

  lemma ContinueFromStart(r: Option<Walked>)
    ensures Continue([], false, 0, r) == r
  {
    match r
    case None =>
    case Some(w) => assert [] + w.labels == w.labels;
  }

  lemma PointerStep(buf: seq<byte>, pos: nat, length: byte, jumps: nat, acc: seq<seq<byte>>, jumped: bool, jumpPos: nat)
    requires pos + 1 < |buf| && buf[pos] == length >= 0xC0 && jumps > 0
    ensures Continue(acc, jumped, jumpPos, Walk(buf, pos, jumps))
         == Continue(acc, true, if jumped then jumpPos else pos + 2, Walk(buf, PointerTarget(length, buf[pos + 1]), jumps - 1))
  {
  }

  lemma LabelStep(buf: seq<byte>, pos: nat, length: byte, jumps: nat, acc: seq<seq<byte>>, jumped: bool, jumpPos: nat)
    requires pos < |buf| && buf[pos] == length && 0 < length < 0xC0 && pos + 1 + length <= |buf|
    requires AllLabels(acc)
    ensures var l := buf[pos + 1..pos + 1 + length];
      AllLabels(acc + [l]) &&
      NameText(acc + [l]) == (if |acc| == 0 then "" else NameText(acc) + ".") + Chars(l) &&
      Continue(acc, jumped, jumpPos, Walk(buf, pos, jumps))
        == Continue(acc + [l], jumped, jumpPos, Walk(buf, pos + 1 + length, jumps))
  {
    var l := buf[pos + 1..pos + 1 + length];
    NameTextSnoc(acc, l);
    match Walk(buf, pos + 1 + length, jumps)
    case None =>
    case Some(w) => assert (acc + [l]) + w.labels == acc + ([l] + w.labels);
  }

  lemma EndStep(buf: seq<byte>, pos: nat, jumps: nat, acc: seq<seq<byte>>, jumped: bool, jumpPos: nat)
    requires pos < |buf| && buf[pos] == 0
    ensures Continue(acc, jumped, jumpPos, Walk(buf, pos, jumps)) == Some(Walked(acc, if jumped then jumpPos else pos + 1, jumped))
  {
    assert acc + [] == acc;
  }

  /** The inner loop of `parseName`: `length` octets from `pos`, each
      appended to the builder as the character with that code. */
  method AppendChars(sb: string, buf: seq<byte>, pos: nat, length: nat) returns (out: string)
    requires pos + length <= |buf|
    ensures out == sb + Chars(buf[pos..pos + length])
  {
    out := sb;
    var i := 0;
    while i < length
      invariant 0 <= i <= length
      invariant out == sb + Chars(buf[pos..pos + i])
    {
      assert buf[pos..pos + i + 1] == buf[pos..pos + i] + [buf[pos + i]];
      out := out + [buf[pos + i] as char];
      i := i + 1;
    }
  }

  /** `parseName`: the `while (true)` loop over `pos`, `jumped`, `jumpPos`
      and the `StringBuilder`, with two changes the Java lacks: every octet
      read is bounds-checked, and at most `|buf|` pointers are followed. */
  method ParseName(buf: seq<byte>, offset: nat) returns (r: Option<NameResult>)
    ensures r == DecodeName(buf, offset)
  {
    var sb: string := "";
    var pos: nat := offset;
    var jumped := false;
    var jumpPos: nat := 0;
    var jumpsLeft: nat := |buf|;
    ghost var acc: seq<seq<byte>> := [];
    ContinueFromStart(Walk(buf, offset, |buf|));
    while true
      invariant AllLabels(acc)
      invariant sb == NameText(acc)
      invariant |acc| == 0 <==> |sb| == 0
      invariant Walk(buf, offset, |buf|) == Continue(acc, jumped, jumpPos, Walk(buf, pos, jumpsLeft))
      decreases jumpsLeft, |buf| - pos
    {
      if pos >= |buf| {
        return None;
      }
      var length := buf[pos];
      if length >= 0xC0 {
        if pos + 1 >= |buf| || jumpsLeft == 0 {
          return None;
        }
        var pointer := PointerTarget(length, buf[pos + 1]);
        PointerStep(buf, pos, length, jumpsLeft, acc, jumped, jumpPos);
        if !jumped {
          jumpPos := pos + 2;
        }
        pos := pointer;
        jumped := true;
        jumpsLeft := jumpsLeft - 1;
      } else if length == 0 {
        EndStep(buf, pos, jumpsLeft, acc, jumped, jumpPos);
        pos := pos + 1;
        break;
      } else {
        if pos + 1 + length > |buf| {
          return None;
        }
        LabelStep(buf, pos, length, jumpsLeft, acc, jumped, jumpPos);
        ghost var run := buf[pos + 1..pos + 1 + length];
        if |sb| > 0 {
          sb := sb + ".";
        }
        sb := AppendChars(sb, buf, pos + 1, length);
        acc := acc + [run];
        pos := pos + 1 + length;
      }
    }
    r := Some(NameResult(sb, if jumped then jumpPos else pos));
  }

  // ---------------------------------------------------------------------
  // Reading back what the encoder writes

  lemma SliceOfSlice(buf: seq<byte>, p: nat, q: nat, a: nat, b: nat)
    requires p <= q <= |buf| && a <= b <= q - p
    ensures buf[p..q][a..b] == buf[p + a..p + b]
  {
    assert |buf[p..q][a..b]| == b - a;
    forall i | 0 <= i < b - a ensures buf[p..q][a..b][i] == buf[p + a..p + b][i] {
    }
  }

  /** A name written without compression, wherever it sits in a buffer,
      reads back as its labels, and scanning resumes right after it. */
  lemma {:induction false} WalkEncoded(buf: seq<byte>, p: nat, ls: seq<seq<byte>>, jumps: nat)
    requires AllLabels(ls)
    requires p + |EncodeLabels(ls)| <= |buf|
    requires buf[p..p + |EncodeLabels(ls)|] == EncodeLabels(ls)
    ensures Walk(buf, p, jumps) == Some(Walked(ls, p + |EncodeLabels(ls)|, false))
    decreases |ls|
  {
    if |ls| == 0 {
      assert buf[p] == buf[p..p + 1][0] == 0;
    } else {
      EncodedCons(buf, p, ls);
      WalkEncoded(buf, p + 1 + |ls[0]|, ls[1..], jumps);
      assert [ls[0]] + ls[1..] == ls;
    }
  }

  /** The first label of an encoded name, and the encoding of the rest after it. */
  lemma EncodedCons(buf: seq<byte>, p: nat, ls: seq<seq<byte>>)
    requires AllLabels(ls) && |ls| > 0
    requires p + |EncodeLabels(ls)| <= |buf|
    requires buf[p..p + |EncodeLabels(ls)|] == EncodeLabels(ls)
    ensures buf[p] == |ls[0]|
    ensures p + 1 + |ls[0]| + |EncodeLabels(ls[1..])| == p + |EncodeLabels(ls)|
    ensures buf[p + 1..p + 1 + |ls[0]|] == ls[0]
    ensures buf[p + 1 + |ls[0]|..p + |EncodeLabels(ls)|] == EncodeLabels(ls[1..])
  {
    var e := EncodeLabels(ls);
    var n := |ls[0]|;
    assert e == [n] + ls[0] + EncodeLabels(ls[1..]);
    assert buf[p] == buf[p..p + |e|][0];
    SliceOfSlice(buf, p, p + |e|, 1, 1 + n);
    SliceOfSlice(buf, p, p + |e|, 1 + n, |e|);
  }

  /** `encodeName` succeeds exactly when every label of the split name
      passes the length check; its output is then one length octet plus
      the label's octets per label, and a final zero. */
  lemma EncodedNameShape(name: string)
    requires IsAscii(name)
    ensures var ls := SplitName(name);
      (EncodedName(name).Ok? <==> forall k :: 0 <= k < |ls| ==> LegalLabel(ls[k])) &&
      (EncodedName(name).Ok? ==>
         var e := EncodedName(name).value;
         |e| == WireLength(OctetLabels(ls)) && e[|e| - 1] == 0) &&
      (EncodedName(name).Err? ==>
         EncodedName(name).error in ls && !LegalLabel(EncodedName(name).error))
  {
    var ls := SplitName(name);
    if forall k :: 0 <= k < |ls| ==> LegalLabel(ls[k]) {
      EncodedLength(OctetLabels(ls));
    }
  }

  /** A name `encodeName` accepted, found at `p` in a buffer, decodes to the
      dot-joined labels it was split into (a trailing dot is lost), and
      scanning resumes right after it. */
  lemma EncodedNameReadsBack(buf: seq<byte>, p: nat, name: string)
    requires IsAscii(name) && EncodedName(name).Ok?
    requires p + |EncodedName(name).value| <= |buf|
    requires buf[p..p + |EncodedName(name).value|] == EncodedName(name).value
    ensures DecodeName(buf, p) == Some(NameResult(Join(SplitName(name)), p + |EncodedName(name).value|))
  {
    var ls := SplitName(name);
    assert forall k :: 0 <= k < |ls| ==> LegalLabel(ls[k]);
    assert forall k :: 0 <= k < |OctetLabels(ls)| ==> IsLabel(OctetLabels(ls)[k]);
    LabelsReadBack(buf, p, ls);
  }

  /** The decoding half of the above, on the split labels: checked ASCII
      labels, written out, read back as their dot-joined text. */
  lemma LabelsReadBack(buf: seq<byte>, p: nat, ls: seq<string>)
    requires forall k :: 0 <= k < |ls| ==> IsAscii(ls[k]) && LegalLabel(ls[k])
    requires AllLabels(OctetLabels(ls))
    requires p + |EncodeLabels(OctetLabels(ls))| <= |buf|
    requires buf[p..p + |EncodeLabels(OctetLabels(ls))|] == EncodeLabels(OctetLabels(ls))
    ensures DecodeName(buf, p) == Some(NameResult(Join(ls), p + |EncodeLabels(OctetLabels(ls))|))
  {
    var os := OctetLabels(ls);
    WalkEncoded(buf, p, os, |buf|);
    assert LabelStrings(os) == ls by {
      forall k | 0 <= k < |ls| ensures LabelStrings(os)[k] == ls[k] {
        CharsOfOctets(ls[k]);
      }
    }
  }

  /** Round trip: an ASCII name whose dot-separated pieces are all 1 to 63
      characters long encodes, and decodes back to itself. */
  lemma NameRoundTrip(buf: seq<byte>, p: nat, name: string)
    requires IsAscii(name)
    requires forall k :: 0 <= k < |Pieces(name)| ==> LegalLabel(Pieces(name)[k])
    ensures EncodedName(name).Ok?
    ensures p + |EncodedName(name).value| <= |buf| && buf[p..p + |EncodedName(name).value|] == EncodedName(name).value
      ==> DecodeName(buf, p) == Some(NameResult(name, p + |EncodedName(name).value|))
  {
    JavaSplitNoEmpty(name);
    JoinPieces(name);
    if p + |EncodedName(name).value| <= |buf| && buf[p..p + |EncodedName(name).value|] == EncodedName(name).value {
      EncodedNameReadsBack(buf, p, name);
    }
  }

  /** Java's split drops a trailing dot: the root name "." is the single zero
      octet, "" is refused as an empty label, and "a." is written as "a". */
  lemma SplitEdgeCases()
    ensures EncodedName(".") == Ok([0])
    ensures EncodedName("") == Err("")
    ensures EncodedName("a.") == EncodedName("a") == Ok([1, 'a' as int, 0])
  {
    assert "."[1..] == "";
    assert Pieces(".") == ["", ""];
    assert SplitName(".") == [];
    assert OctetLabels([]) == [];
    assert SplitName("") == [""];
    assert !LegalLabel(SplitName("")[0]);
    assert FirstIllegal(SplitName("")) == 0;
    assert "a."[1..] == ".";
    assert ['a'] + "" == "a";
    assert Pieces("a.") == ["a", ""];
    assert SplitName("a.") == ["a"] == SplitName("a");
    assert LegalLabel(SplitName("a")[0]);
    assert Octets("a") == [97];
    assert OctetLabels(["a"]) == [[97]];
    assert LabelRun([[97]]) == [1, 97] + LabelRun([]);
    assert EncodeLabels([]) == [0];
    assert EncodeLabels([[97]]) == [1, 97, 0];
  }

  /** Without a pointer, a name occupies exactly its uncompressed encoding:
      the labels read are laid out contiguously from `p`, followed by the
      terminating zero, and scanning resumes just past that zero. */
  lemma {:induction false} UnjumpedLayout(buf: seq<byte>, p: nat, jumps: nat)
    requires Walk(buf, p, jumps).Some? && !Walk(buf, p, jumps).value.jumped
    ensures var w := Walk(buf, p, jumps).value;
      w.resume == p + |EncodeLabels(w.labels)| <= |buf| &&
      buf[p..w.resume] == EncodeLabels(w.labels) &&
      buf[w.resume - 1] == 0
    decreases |buf| - p
  {
    var w := Walk(buf, p, jumps).value;
    var n := buf[p];
    if n != 0 {
      assert n < 0xC0;
      var w' := Walk(buf, p + 1 + n, jumps).value;
      UnjumpedLayout(buf, p + 1 + n, jumps);
      var l := buf[p + 1..p + 1 + n];
      assert w.labels == [l] + w'.labels;
      assert w.labels[1..] == w'.labels;
      assert buf[p..w.resume] == [n] + l + buf[p + 1 + n..w.resume];
    }
  }

  /** With a pointer, scanning resumes two octets after the FIRST pointer,
      which sits right after some ordinary labels read from `p`; the other
      labels are those read at the pointer's target, whatever further
      pointers that read follows. */
  lemma {:induction false} JumpedLayout(buf: seq<byte>, p: nat, jumps: nat, w: Walked) returns (q: nat, k: nat, target: Walked)
    requires Walk(buf, p, jumps) == Some(w) && w.jumped
    ensures p <= q && q + 2 == w.resume <= |buf| && buf[q] >= 0xC0 && jumps > 0
    ensures k <= |w.labels| && buf[p..q] == LabelRun(w.labels[..k])
    ensures Follows(buf, q, jumps, target)
    ensures target.labels == w.labels[k..]
    decreases |buf| - p
  {
    if buf[p] >= 0xC0 {
      q, k := p, 0;
      target := JumpHere(buf, q, jumps, w);
    } else {
      var n := buf[p];
      assert n != 0;
      var w' := LabelHere(buf, p, jumps, w);
      var k';
      q, k', target := JumpedLayout(buf, p + 1 + n, jumps, w');
      k := k' + 1;
      Regroup(w.labels, buf[p + 1..p + 1 + n], w'.labels, k');
      RunStep(buf, p, q, w'.labels[..k']);
    }
  }

  /** The pointer at `q` leads, with one jump fewer, to the read `target`. */
  predicate Follows(buf: seq<byte>, q: nat, jumps: nat, target: Walked)
    requires q + 1 < |buf| && jumps > 0
  {
    Walk(buf, PointerTarget(buf[q], buf[q + 1]), jumps - 1) == Some(target)
  }

  lemma Regroup(all: seq<seq<byte>>, l: seq<byte>, rest: seq<seq<byte>>, k: nat)
    requires all == [l] + rest && k <= |rest|
    ensures all[..k + 1] == [l] + rest[..k]
    ensures all[k + 1..] == rest[k..]
  {
  }

  lemma LabelHere(buf: seq<byte>, p: nat, jumps: nat, w: Walked) returns (w': Walked)
    requires p < |buf| && 0 < buf[p] < 0xC0 && Walk(buf, p, jumps) == Some(w)
    ensures p + 1 + buf[p] <= |buf|
    ensures Walk(buf, p + 1 + buf[p], jumps) == Some(w')
    ensures w.labels == [buf[p + 1..p + 1 + buf[p]]] + w'.labels
    ensures w.resume == w'.resume && w.jumped == w'.jumped
  {
    w' := Walk(buf, p + 1 + buf[p], jumps).value;
  }

  lemma JumpHere(buf: seq<byte>, p: nat, jumps: nat, w: Walked) returns (target: Walked)
    requires Walk(buf, p, jumps) == Some(w) && buf[p] >= 0xC0
    ensures p + 2 == w.resume <= |buf| && jumps > 0
    ensures Follows(buf, p, jumps, target)
    ensures target.labels == w.labels
  {
    target := Walk(buf, PointerTarget(buf[p], buf[p + 1]), jumps - 1).value;
  }

  lemma RunStep(buf: seq<byte>, p: nat, q: nat, rest: seq<seq<byte>>)
    requires p < |buf| && 0 < buf[p] < 0xC0 && p + 1 + buf[p] <= q <= |buf|
    requires AllLabels(rest) && buf[p + 1 + buf[p]..q] == LabelRun(rest)
    ensures AllLabels([buf[p + 1..p + 1 + buf[p]]] + rest)
    ensures buf[p..q] == LabelRun([buf[p + 1..p + 1 + buf[p]]] + rest)
  {
    var l := buf[p + 1..p + 1 + buf[p]];
    assert ([l] + rest)[1..] == rest;
    assert buf[p..q] == [buf[p]] + l + buf[p + 1 + buf[p]..q];
  }

  // ---------------------------------------------------------------------
  // The jump cap: the pointers followed by a successful read are distinct
  // positions of the buffer, so no more than |buf| of them are ever needed.

  /** The positions of the pointers a successful read follows, in order. */
  function Trail(buf: seq<byte>, pos: nat, jumps: nat): seq<nat>
    requires Walk(buf, pos, jumps).Some?
    decreases jumps, |buf| - pos
  {
    var length := buf[pos];
    if length >= 0xC0 then [pos] + Trail(buf, PointerTarget(length, buf[pos + 1]), jumps - 1)
    else if length == 0 then []
    else Trail(buf, pos + 1 + length, jumps)
  }

  lemma {:induction false} TrailFacts(buf: seq<byte>, pos: nat, jumps: nat)
    requires Walk(buf, pos, jumps).Some?
    ensures |Trail(buf, pos, jumps)| <= jumps
    ensures forall a :: 0 <= a < |Trail(buf, pos, jumps)| ==> Trail(buf, pos, jumps)[a] + 1 < |buf|
    decreases jumps, |buf| - pos
  {
    var length := buf[pos];
    if length >= 0xC0 {
      TrailFacts(buf, PointerTarget(length, buf[pos + 1]), jumps - 1);
    } else if length != 0 {
      TrailFacts(buf, pos + 1 + length, jumps);
    }
  }

  /** Any number of jumps at least the length of the trail gives the same read. */
  lemma {:induction false} Refuel(buf: seq<byte>, pos: nat, jumps: nat, more: nat)
    requires Walk(buf, pos, jumps).Some?
    requires more >= |Trail(buf, pos, jumps)|
    ensures Walk(buf, pos, more) == Walk(buf, pos, jumps)
    ensures Trail(buf, pos, more) == Trail(buf, pos, jumps)
    decreases jumps, |buf| - pos
  {
    var length := buf[pos];
    if length >= 0xC0 {
      Refuel(buf, PointerTarget(length, buf[pos + 1]), jumps - 1, more - 1);
    } else if length != 0 {
      Refuel(buf, pos + 1 + length, jumps, more);
    }
  }

  /** A pointer on the trail starts a successful read whose own trail is no
      longer than the whole trail. */
  lemma {:induction false} Reach(buf: seq<byte>, s: nat, jumps: nat, q: nat) returns (g: nat)
    requires Walk(buf, s, jumps).Some?
    requires q in Trail(buf, s, jumps)
    ensures Walk(buf, q, g).Some? && |Trail(buf, q, g)| <= |Trail(buf, s, jumps)|
    decreases jumps, |buf| - s
  {
    var length := buf[s];
    if length >= 0xC0 {
      if q == s {
        g := jumps;
      } else {
        g := Reach(buf, PointerTarget(length, buf[s + 1]), jumps - 1, q);
      }
    } else {
      g := Reach(buf, s + 1 + length, jumps, q);
    }
  }

  predicate Distinct(s: seq<nat>)
  {
    forall a, b :: 0 <= a < b < |s| ==> s[a] != s[b]
  }

  /** A successful read never visits the same pointer twice. */
  lemma {:induction false} TrailDistinct(buf: seq<byte>, pos: nat, jumps: nat)
    requires Walk(buf, pos, jumps).Some?
    ensures Distinct(Trail(buf, pos, jumps))
    decreases jumps, |buf| - pos
  {
    var length := buf[pos];
    if length >= 0xC0 {
      var target := PointerTarget(length, buf[pos + 1]);
      var rest := Trail(buf, target, jumps - 1);
      TrailDistinct(buf, target, jumps - 1);
      if pos in rest {
        var g := Reach(buf, target, jumps - 1, pos);
        TrailFacts(buf, pos, g);
        TrailFacts(buf, pos, jumps);
        if g <= jumps {
          Refuel(buf, pos, g, jumps);
        } else {
          Refuel(buf, pos, jumps, g);
        }
        assert false;
      }
      var t := Trail(buf, pos, jumps);
      assert t == [pos] + rest;
      forall a, b | 0 <= a < b < |t| ensures t[a] != t[b] {
        if a == 0 {
          assert t[b] == rest[b - 1] && rest[b - 1] in rest;
        } else {
          assert t[a] == rest[a - 1] && t[b] == rest[b - 1];
          assert rest[a - 1] != rest[b - 1];
        }
      }
    } else if length != 0 {
      TrailDistinct(buf, pos + 1 + length, jumps);
      assert Trail(buf, pos, jumps) == Trail(buf, pos + 1 + length, jumps);
    }
  }

  /** A sequence of distinct naturals below `n` has at most `n` elements. */
  lemma {:induction false} DistinctBelow(s: seq<nat>, n: nat)
    requires Distinct(s)
    requires forall a :: 0 <= a < |s| ==> s[a] < n
    ensures |s| <= n
    decreases n
  {
    if |s| > 0 {
      assert s[0] < n;
      if a :| 0 <= a < |s| && s[a] == n - 1 {
        var t := s[..a] + s[a + 1..];
        assert forall i :: 0 <= i < |t| ==> t[i] == if i < a then s[i] else s[i + 1];
        forall i | 0 <= i < |t| ensures t[i] < n - 1 {
          if i < a { assert s[i] != s[a]; } else { assert s[i + 1] != s[a]; }
        }
        DistinctBelow(t, n - 1);
      } else {
        DistinctBelow(s, n - 1);
      }
    }
  }

  /** If a read succeeds with any number of jumps, it succeeds with the cap
      `|buf|` that `DecodeName` uses and gives the same result: the cap only
      turns the reads on which the Java loop never ends (a pointer cycle)
      into `Malformed`. */
  lemma CapSuffices(buf: seq<byte>, pos: nat, jumps: nat)
    requires Walk(buf, pos, jumps).Some?
    ensures Walk(buf, pos, |buf|) == Walk(buf, pos, jumps)
  {
    TrailFacts(buf, pos, jumps);
    TrailDistinct(buf, pos, jumps);
    DistinctBelow(Trail(buf, pos, jumps), |buf|);
    Refuel(buf, pos, jumps, |buf|);
  }

  lemma CapIsExact(buf: seq<byte>, pos: nat, jumps: nat)
    requires Walk(buf, pos, jumps).Some?
    ensures DecodeName(buf, pos) == Some(NameResult(NameText(Walk(buf, pos, jumps).value.labels), Walk(buf, pos, jumps).value.resume))
  {
    CapSuffices(buf, pos, jumps);
  }

  /** A pointer at `p` reads as the name at its 14-bit target, and scanning
      resumes two octets after it; one fails exactly when the other does. */
  lemma PointerAtStart(buf: seq<byte>, p: nat)
    requires p + 1 < |buf| && buf[p] >= 0xC0
    ensures var target := PointerTarget(buf[p], buf[p + 1]);
      DecodeName(buf, p) == match DecodeName(buf, target)
                            case None => None
                            case Some(n) => Some(NameResult(n.name, p + 2))
  {
    var target := PointerTarget(buf[p], buf[p + 1]);
    if Walk(buf, target, |buf| - 1).Some? {
      CapSuffices(buf, target, |buf| - 1);
    } else if Walk(buf, target, |buf|).Some? {
      assert Walk(buf, p, |buf| + 1).Some?;
      CapSuffices(buf, p, |buf| + 1);
      assert false;
    }
  }

  /** A two-level chain, a pointer to a pointer, reads as the name at the
      second target, and scanning resumes after the first pointer. */
  lemma PointerChain(buf: seq<byte>, p: nat)
    requires p + 1 < |buf| && buf[p] >= 0xC0
    requires var q := PointerTarget(buf[p], buf[p + 1]); q + 1 < |buf| && buf[q] >= 0xC0
    ensures var q := PointerTarget(buf[p], buf[p + 1]);
      DecodeName(buf, p) == match DecodeName(buf, PointerTarget(buf[q], buf[q + 1]))
                            case None => None
                            case Some(n) => Some(NameResult(n.name, p + 2))
  {
    PointerAtStart(buf, p);
    PointerAtStart(buf, PointerTarget(buf[p], buf[p + 1]));
  }

  /** "com" at offset 0, a pointer to it at 5 and a pointer to that pointer
      at 7, at the start of any message: all three read as "com". */
  lemma ChainExample(buf: seq<byte>)
    requires |buf| >= 9 && buf[..9] == [3, 99, 111, 109, 0, 0xC0, 0x00, 0xC0, 0x05]
    ensures DecodeName(buf, 0) == Some(NameResult("com", 5))
    ensures DecodeName(buf, 5) == Some(NameResult("com", 7))
    ensures DecodeName(buf, 7) == Some(NameResult("com", 9))
  {
    var com: seq<byte> := [99, 111, 109];
    assert EncodeLabels([com]) == [3, 99, 111, 109, 0] by {
      assert LabelRun([com]) == [3] + com + LabelRun([]);
    }
    assert buf[0..5] == buf[..9][0..5];
    WalkEncoded(buf, 0, [com], |buf|);
    assert NameText([com]) == "com" by {
      assert LabelStrings([com]) == [Chars(com)];
      assert Chars(com) == "com";
    }
    assert buf[5] == buf[..9][5] && buf[6] == buf[..9][6] && buf[7] == buf[..9][7] && buf[8] == buf[..9][8];
    PointerAtStart(buf, 5);
    PointerChain(buf, 7);
  }

  /** A pointer to itself is never resolved, however many jumps are allowed:
      the Java loop spins forever on it. */
  lemma {:induction false} SelfPointerNeverEnds(buf: seq<byte>, p: nat, jumps: nat)
    requires p + 1 < |buf| && buf[p] >= 0xC0 && PointerTarget(buf[p], buf[p + 1]) == p
    ensures Walk(buf, p, jumps) == None
  {
    if jumps > 0 {
      SelfPointerNeverEnds(buf, p, jumps - 1);
    }
  }

  /** With the jump cap, the same self-pointer ends the read as malformed
      instead of hanging the client. */
  lemma CycleIsMalformed(buf: seq<byte>, p: nat)
    requires p + 1 < |buf| && buf[p] >= 0xC0 && PointerTarget(buf[p], buf[p + 1]) == p
    ensures DecodeName(buf, p) == None
  {
    SelfPointerNeverEnds(buf, p, |buf|);
  }
}
