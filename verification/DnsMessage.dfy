/** The explicit-server DNS lookup (app/services/hostname_resolver.py): building an
    A query, skipping names, and picking the first A record out of a reply, on the
    message format of section 4.1 of RFC 1035. */
module DnsMessage {
  import opened Wrappers

  type Byte = x: int | 0 <= x < 256

  type Bytes = seq<Byte>

  type Word = x: int | 0 <= x < 0x1_0000

  type DoubleWord = x: int | 0 <= x < 0x1_0000_0000

  function U16(n: Word): (b: Bytes)
    ensures |b| == 2 && (b[0] as int) * 256 + b[1] == n
  {
    [n / 256, n % 256]
  }

  function U32(n: DoubleWord): (b: Bytes)
    ensures |b| == 4
  {
    U16(n / 0x1_0000) + U16(n % 0x1_0000)
  }

  function ReadU16(p: Bytes, at: nat): Word
    requires at + 2 <= |p|
  {
    (p[at] as int) * 256 + p[at + 1]
  }

  // ----- Reading -----

  /** `(length & 0xC0) == 0xC0`: both bits the mask selects are set, which is a comparison. */
  predicate PointerBits(length: Byte): (both: bool)
    ensures both <==> length >= 192
  {
    length / 128 % 2 == 1 && length / 64 % 2 == 1
  }

  function SkipName(p: Bytes, offset: nat): (r: nat)
    ensures r >= offset
    decreases |p| - offset
  {
    if offset >= |p| then offset
    else if p[offset] == 0 then offset + 1
    else if PointerBits(p[offset]) then offset + 2
    else SkipName(p, offset + 1 + p[offset])
  }

  method SkipDnsName(p: Bytes, start: nat) returns (offset: nat)
    ensures offset == SkipName(p, start)
  {
    offset := start;
    while offset < |p|
      invariant SkipName(p, offset) == SkipName(p, start)
      decreases |p| - offset
    {
      var length := p[offset];
      if length == 0 {
        return offset + 1;
      }
      if PointerBits(length) {
        return offset + 2;
      }
      offset := offset + 1 + length;
    }
  }

  function SkipQuestions(p: Bytes, offset: nat, count: nat): Option<nat>
    decreases count
  {
    if count == 0 then Some(offset)
    else
      var o := SkipName(p, offset);
      if o + 4 > |p| then None else SkipQuestions(p, o + 4, count - 1)
  }

  function ScanAnswers(p: Bytes, offset: nat, count: nat): Option<Bytes>
    decreases count
  {
    if count == 0 then None
    else
      var o := SkipName(p, offset);
      if o + 10 > |p| then None
      else
        var rdlength := ReadU16(p, o + 8);
        if o + 10 + rdlength > |p| then None
        else if ReadU16(p, o) == 1 && ReadU16(p, o + 2) == 1 && rdlength == 4 then Some(p[o + 10..o + 14])
        else ScanAnswers(p, o + 10 + rdlength, count - 1)
  }

  function ParseReply(p: Bytes): Option<Bytes> {
    if |p| < 12 || ReadU16(p, 6) == 0 then None
    else
      var o := SkipQuestions(p, 12, ReadU16(p, 4));
      if o.None? then None else ScanAnswers(p, o.value, ReadU16(p, 6))
  }

  /** The four address bytes; the source joins them with dots. */
  method ParseDnsARecord(p: Bytes) returns (address: Option<Bytes>)
    ensures address == ParseReply(p)
  {
    hide SkipName, ReadU16;
    if |p| < 12 {
      return None;
    }
    var qdcount, ancount := ReadU16(p, 4), ReadU16(p, 6);
    if ancount == 0 {
      return None;
    }
    var offset: nat := 12;
    var i := 0;
    while i < qdcount
      invariant 0 <= i <= qdcount
      invariant SkipQuestions(p, 12, qdcount) == SkipQuestions(p, offset, qdcount - i)
    {
      offset := SkipDnsName(p, offset);
      if offset + 4 > |p| {
        return None;
      }
      offset := offset + 4;
      i := i + 1;
    }
    hide SkipQuestions;
    ghost var first := offset;
    i := 0;
    while i < ancount
      invariant 0 <= i <= ancount
      invariant ScanAnswers(p, first, ancount) == ScanAnswers(p, offset, ancount - i)
    {
      offset := SkipDnsName(p, offset);
      if offset + 10 > |p| {
        return None;
      }
      var rtype, rclass, rdlength := ReadU16(p, offset), ReadU16(p, offset + 2), ReadU16(p, offset + 8);
      offset := offset + 10;
      if offset + rdlength > |p| {
        return None;
      }
      if rtype == 1 && rclass == 1 && rdlength == 4 {
        return Some(p[offset..offset + 4]);
      }
      offset := offset + rdlength;
      i := i + 1;
    }
    address := None;
  }

  /** Whatever bytes arrive, an answer is four consecutive bytes of the payload behind its header. */
  lemma AnswerIsInsidePayload(p: Bytes) returns (at: nat)
    requires ParseReply(p).Some?
    ensures 12 <= at && at + 4 <= |p| && ParseReply(p) == Some(p[at..at + 4])
  {
    var o := SkipQuestions(p, 12, ReadU16(p, 4));
    QuestionsAdvance(p, 12, ReadU16(p, 4));
    at := AnswerPosition(p, o.value, ReadU16(p, 6));
  }

  lemma {:induction false} QuestionsAdvance(p: Bytes, offset: nat, count: nat)
    ensures SkipQuestions(p, offset, count).Some? ==> SkipQuestions(p, offset, count).value >= offset
    decreases count
  {
    if count > 0 {
      var o := SkipName(p, offset);
      if o + 4 <= |p| {
        QuestionsAdvance(p, o + 4, count - 1);
      }
    }
  }

  lemma {:induction false} AnswerPosition(p: Bytes, offset: nat, count: nat) returns (at: nat)
    requires ScanAnswers(p, offset, count).Some?
    ensures offset <= at && at + 4 <= |p| && ScanAnswers(p, offset, count) == Some(p[at..at + 4])
    decreases count
  {
    var o := SkipName(p, offset);
    var rdlength := ReadU16(p, o + 8);
    if ReadU16(p, o) == 1 && ReadU16(p, o + 2) == 1 && rdlength == 4 {
      at := o + 10;
    } else {
      at := AnswerPosition(p, o + 10 + rdlength, count - 1);
    }
  }

  // ----- The wire format of RFC 1035, section 4.1 -----

  /** A name is labels ended by the root byte or by a compression pointer. */
  datatype NameEnd = Root | Pointer(high: Byte, low: Byte)

  datatype Name = Name(labels: seq<Bytes>, end: NameEnd)

  datatype Question = Question(name: Name, qtype: Word, qclass: Word)

  datatype Record = Record(name: Name, rtype: Word, rclass: Word, ttl: DoubleWord, rdata: Bytes)

  /** `rest` is everything behind the answer section. */
  datatype Message = Message(id: Word, flags: Word, questions: seq<Question>, answers: seq<Record>,
                             nscount: Word, arcount: Word, rest: Bytes)

  /** Section 4.1.4 limits labels to 63 bytes; the skipping code copes with up to 191. */
  predicate WellFormedName(name: Name) {
    && (forall i :: 0 <= i < |name.labels| ==> 1 <= |name.labels[i]| < 192)
    && (name.end.Pointer? ==> name.end.high >= 192)
  }

  predicate WellFormed(m: Message) {
    && |m.questions| < 0x1_0000 && |m.answers| < 0x1_0000
    && (forall i :: 0 <= i < |m.questions| ==> WellFormedName(m.questions[i].name))
    && (forall i :: 0 <= i < |m.answers| ==> WellFormedName(m.answers[i].name) && |m.answers[i].rdata| < 0x1_0000)
  }

  function EncodeLabels(labels: seq<Bytes>): Bytes
    requires forall i :: 0 <= i < |labels| ==> |labels[i]| < 256
  {
    if labels == [] then [] else [|labels[0]|] + labels[0] + EncodeLabels(labels[1..])
  }

  function EncodeEnd(end: NameEnd): Bytes {
    match end
    case Root => [0]
    case Pointer(high, low) => [high, low]
  }

  function EncodeName(name: Name): Bytes
    requires WellFormedName(name)
  {
    EncodeLabels(name.labels) + EncodeEnd(name.end)
  }

  function EncodeQuestion(q: Question): Bytes
    requires WellFormedName(q.name)
  {
    EncodeName(q.name) + U16(q.qtype) + U16(q.qclass)
  }

  function EncodeFields(r: Record): Bytes
    requires |r.rdata| < 0x1_0000
  {
    U16(r.rtype) + U16(r.rclass) + U32(r.ttl) + U16(|r.rdata|) + r.rdata
  }

  function EncodeRecord(r: Record): Bytes
    requires WellFormedName(r.name) && |r.rdata| < 0x1_0000
  {
    EncodeName(r.name) + EncodeFields(r)
  }

  function EncodeQuestions(qs: seq<Question>): Bytes
    requires forall i :: 0 <= i < |qs| ==> WellFormedName(qs[i].name)
  {
    if qs == [] then [] else EncodeQuestion(qs[0]) + EncodeQuestions(qs[1..])
  }

  function EncodeRecords(rs: seq<Record>): Bytes
    requires forall i :: 0 <= i < |rs| ==> WellFormedName(rs[i].name) && |rs[i].rdata| < 0x1_0000
  {
    if rs == [] then [] else EncodeRecord(rs[0]) + EncodeRecords(rs[1..])
  }

  function EncodeHeader(id: Word, flags: Word, qd: Word, an: Word, ns: Word, ar: Word): (b: Bytes)
    ensures |b| == 12 && ReadU16(b, 4) == qd && ReadU16(b, 6) == an
  {
    U16(id) + U16(flags) + U16(qd) + U16(an) + U16(ns) + U16(ar)
  }

  function Encode(m: Message): Bytes
    requires WellFormed(m)
  {
    EncodeHeader(m.id, m.flags, |m.questions|, |m.answers|, m.nscount, m.arcount)
    + EncodeQuestions(m.questions) + EncodeRecords(m.answers) + m.rest
  }

  // ----- Round trips -----

  /** Skipping, inside any bytes, starts where a name starts and ends where it ends. */
  lemma {:induction false} SkipsEncodedName(pre: Bytes, labels: seq<Bytes>, end: NameEnd, post: Bytes)
    requires WellFormedName(Name(labels, end))
    ensures SkipName(pre + EncodeName(Name(labels, end)) + post, |pre|) == |pre| + |EncodeName(Name(labels, end))|
    decreases |labels|
  {
    var p := pre + EncodeName(Name(labels, end)) + post;
    if labels == [] {
      assert p[|pre|] == EncodeEnd(end)[0];
    } else {
      var head: Bytes := [|labels[0]|] + labels[0];
      assert p[|pre|] == |labels[0]|;
      SkipsEncodedName(pre + head, labels[1..], end, post);
      assert (pre + head) + EncodeName(Name(labels[1..], end)) + post == p;
    }
  }

  lemma ReadsU16(pre: Bytes, n: Word, post: Bytes)
    ensures ReadU16(pre + U16(n) + post, |pre|) == n
  {
  }

  lemma SkipsOneQuestion(pre: Bytes, q: Question, behind: Bytes, count: nat)
    requires WellFormedName(q.name) && count >= 1
    ensures var p, next := pre + EncodeQuestion(q) + behind, |pre| + |EncodeQuestion(q)|;
            SkipQuestions(p, |pre|, count) == SkipQuestions(p, next, count - 1)
  {
    var name, tail := EncodeName(q.name), U16(q.qtype) + U16(q.qclass);
    SkipsEncodedName(pre, q.name.labels, q.name.end, tail + behind);
    hide EncodeName, U16;
    assert EncodeQuestion(q) == name + tail;
    assert pre + EncodeQuestion(q) + behind == pre + name + (tail + behind);
  }

  lemma {:induction false} SkipsEncodedQuestions(pre: Bytes, qs: seq<Question>, post: Bytes)
    requires forall i :: 0 <= i < |qs| ==> WellFormedName(qs[i].name)
    ensures SkipQuestions(pre + EncodeQuestions(qs) + post, |pre|, |qs|) == Some(|pre| + |EncodeQuestions(qs)|)
    decreases |qs|
  {
    hide EncodeQuestion, SkipName, WellFormedName;
    if qs != [] {
      var rest := EncodeQuestions(qs[1..]);
      SkipsOneQuestion(pre, qs[0], rest + post, |qs|);
      SkipsEncodedQuestions(pre + EncodeQuestion(qs[0]), qs[1..], post);
      assert pre + EncodeQuestions(qs) + post == (pre + EncodeQuestion(qs[0])) + rest + post;
      assert pre + EncodeQuestions(qs) + post == pre + EncodeQuestion(qs[0]) + (rest + post);
    }
  }

  predicate IsAddress(r: Record) { r.rtype == 1 && r.rclass == 1 && |r.rdata| == 4 }

  /** The rdata of the first A/IN record of length 4. */
  function FirstAddress(rs: seq<Record>): (a: Option<Bytes>)
    ensures a.None? <==> forall i :: 0 <= i < |rs| ==> !IsAddress(rs[i])
    ensures a.Some? ==> exists i :: 0 <= i < |rs| && IsAddress(rs[i]) && rs[i].rdata == a.value &&
                                    forall j :: 0 <= j < i ==> !IsAddress(rs[j])
  {
    if rs == [] then None
    else if IsAddress(rs[0]) then
      assert rs[0].rdata == rs[0].rdata;
      Some(rs[0].rdata)
    else
      var a := FirstAddress(rs[1..]);
      assert a.Some? ==> exists i :: 0 <= i < |rs| && IsAddress(rs[i]) && rs[i].rdata == a.value &&
                                     forall j :: 0 <= j < i ==> !IsAddress(rs[j]) by {
        if a.Some? {
          var i :| 0 <= i < |rs[1..]| && IsAddress(rs[1..][i]) && rs[1..][i].rdata == a.value &&
                   forall j :: 0 <= j < i ==> !IsAddress(rs[1..][j]);
          assert IsAddress(rs[i + 1]) && rs[i + 1].rdata == a.value;
          assert forall j :: 0 < j < i + 1 ==> rs[j] == rs[1..][j - 1];
        }
      }
      assert forall i :: 0 < i < |rs| ==> rs[i] == rs[1..][i - 1];
      a
  }

  /** The fixed fields of a record, read back at their offsets. */
  lemma RecordFields(pre: Bytes, r: Record, post: Bytes)
    requires |r.rdata| < 0x1_0000
    ensures var p := pre + EncodeFields(r) + post;
            && |p| == |pre| + 10 + |r.rdata| + |post|
            && ReadU16(p, |pre|) == r.rtype && ReadU16(p, |pre| + 2) == r.rclass
            && ReadU16(p, |pre| + 8) == |r.rdata|
            && p[|pre| + 10..|pre| + 10 + |r.rdata|] == r.rdata
  {
    FieldsInOrder(pre, U16(r.rtype), U16(r.rclass), U32(r.ttl), U16(|r.rdata|), r.rdata, post);
    hide U16, U32, ReadU16;
    var rest := U32(r.ttl) + U16(|r.rdata|) + r.rdata + post;
    ReadsU16(pre, r.rtype, U16(r.rclass) + rest);
    ReadsU16(pre + U16(r.rtype), r.rclass, rest);
    ReadsU16(pre + U16(r.rtype) + U16(r.rclass) + U32(r.ttl), |r.rdata|, r.rdata + post);
  }

  /** The same bytes, cut before each field that is read. */
  lemma FieldsInOrder(pre: Bytes, t: Bytes, c: Bytes, ttl: Bytes, n: Bytes, data: Bytes, post: Bytes)
    ensures var p, rest := pre + (t + c + ttl + n + data) + post, ttl + n + data + post;
            && p == pre + t + (c + rest)
            && p == (pre + t) + c + rest
            && p == (pre + t + c + ttl) + n + (data + post)
    ensures var p, at := pre + (t + c + ttl + n + data) + post, |pre| + |t| + |c| + |ttl| + |n|;
            |p| == at + |data| + |post| && p[at..at + |data|] == data
  {
    var p, front := pre + (t + c + ttl + n + data) + post, pre + t + c + ttl + n;
    assert p == front + data + post;
  }

  lemma Regroup(a: Bytes, b: Bytes, c: Bytes, d: Bytes)
    ensures a + (b + c) + d == a + b + (c + d)
    ensures a + (b + c) + d == (a + b) + c + d
  {
  }

  /** One unfolding of the scan, for a record whose fields are known. */
  lemma ScanStep(p: Bytes, at: nat, o: nat, r: Record, count: nat)
    requires SkipName(p, at) == o && count >= 1 && o + 10 + |r.rdata| <= |p|
    requires ReadU16(p, o) == r.rtype && ReadU16(p, o + 2) == r.rclass && ReadU16(p, o + 8) == |r.rdata|
    requires p[o + 10..o + 10 + |r.rdata|] == r.rdata
    ensures ScanAnswers(p, at, count) ==
            if IsAddress(r) then Some(r.rdata) else ScanAnswers(p, o + 10 + |r.rdata|, count - 1)
  {
    hide SkipName, ReadU16;
  }

  lemma ScansOneRecord(pre: Bytes, r: Record, behind: Bytes, count: nat)
    requires WellFormedName(r.name) && |r.rdata| < 0x1_0000 && count >= 1
    ensures var p, next := pre + EncodeRecord(r) + behind, |pre| + |EncodeRecord(r)|;
            ScanAnswers(p, |pre|, count) == if IsAddress(r) then Some(r.rdata) else ScanAnswers(p, next, count - 1)
  {
    hide EncodeName, EncodeFields, ReadU16, SkipName, ScanAnswers, IsAddress;
    var name, fields := EncodeName(r.name), EncodeFields(r);
    SkipsEncodedName(pre, r.name.labels, r.name.end, fields + behind);
    RecordFields(pre + name, r, behind);
    Regroup(pre, name, fields, behind);
    ScanStep(pre + EncodeRecord(r) + behind, |pre|, |pre| + |name|, r, count);
  }

  lemma {:induction false} ScansEncodedRecords(pre: Bytes, rs: seq<Record>, post: Bytes)
    requires forall i :: 0 <= i < |rs| ==> WellFormedName(rs[i].name) && |rs[i].rdata| < 0x1_0000
    ensures ScanAnswers(pre + EncodeRecords(rs) + post, |pre|, |rs|) == FirstAddress(rs)
    decreases |rs|
  {
    hide EncodeRecord, WellFormedName, IsAddress, ScanAnswers, FirstAddress;
    if rs == [] {
      NothingToScan(pre + EncodeRecords(rs) + post, |pre|);
    } else {
      var head, rest := EncodeRecord(rs[0]), EncodeRecords(rs[1..]);
      ScansOneRecord(pre, rs[0], rest + post, |rs|);
      ScansEncodedRecords(pre + head, rs[1..], post);
      Regroup(pre, head, rest, post);
      FirstAddressCons(rs);
    }
  }

  lemma NothingToScan(p: Bytes, at: nat)
    ensures ScanAnswers(p, at, 0) == None && FirstAddress([]) == None
  {
  }

  lemma FirstAddressCons(rs: seq<Record>)
    requires rs != []
    ensures FirstAddress(rs) == if IsAddress(rs[0]) then Some(rs[0].rdata) else FirstAddress(rs[1..])
  {
  }

  /** Parsing any well-formed reply - label or compressed names, any number of questions
      and answers, anything behind them - gives its first A/IN address, or None. */
  lemma ParseInvertsEncode(m: Message)
    requires WellFormed(m)
    ensures ParseReply(Encode(m)) == FirstAddress(m.answers)
  {
    hide EncodeHeader, EncodeQuestions, EncodeRecords, SkipQuestions, ScanAnswers, FirstAddress;
    var header := EncodeHeader(m.id, m.flags, |m.questions|, |m.answers|, m.nscount, m.arcount);
    var questions, answers := EncodeQuestions(m.questions), EncodeRecords(m.answers);
    SkipsEncodedQuestions(header, m.questions, answers + m.rest);
    ScansEncodedRecords(header + questions, m.answers, m.rest);
    HeaderCounts(header, questions + answers + m.rest);
    assert Encode(m) == header + (questions + answers + m.rest);
    assert Encode(m) == header + questions + (answers + m.rest);
    if m.answers == [] {
      NoRecordsNoAddress();
    }
  }

  lemma HeaderCounts(header: Bytes, behind: Bytes)
    requires |header| == 12
    ensures ReadU16(header + behind, 4) == ReadU16(header, 4) && ReadU16(header + behind, 6) == ReadU16(header, 6)
  {
  }

  lemma NoRecordsNoAddress()
    ensures FirstAddress([]) == None
  {
  }

  // ----- Building a query -----

  /** str.split("."). */
  function SplitDots(s: string): (parts: seq<string>)
    ensures |parts| >= 1
  {
    if s == "" then [""]
    else
      var rest := SplitDots(s[1..]);
      if s[0] == '.' then [""] + rest else [[s[0]] + rest[0]] + rest[1..]
  }

  function JoinDots(parts: seq<string>): string
    requires |parts| >= 1
  {
    if |parts| == 1 then parts[0] else parts[0] + "." + JoinDots(parts[1..])
  }

  function NonEmpty(parts: seq<string>): (labels: seq<string>)
    ensures forall i :: 0 <= i < |labels| ==> labels[i] != ""
  {
    if parts == [] then []
    else
      var n := |parts| - 1;
      NonEmpty(parts[..n]) + (if parts[n] == "" then [] else [parts[n]])
  }

  lemma {:induction false} SplitInvertsJoin(s: string)
    ensures JoinDots(SplitDots(s)) == s
    ensures forall i :: 0 <= i < |SplitDots(s)| ==> '.' !in SplitDots(s)[i]
  {
    if s != "" {
      var rest := SplitDots(s[1..]);
      SplitInvertsJoin(s[1..]);
      assert s == [s[0]] + s[1..];
      if s[0] == '.' {
        assert SplitDots(s)[1..] == rest;
      } else {
        assert SplitDots(s)[1..] == rest[1..];
        assert forall i :: 1 <= i < |SplitDots(s)| ==> SplitDots(s)[i] == rest[i];
      }
    }
  }

  predicate Ascii(text: string) {
    forall i :: 0 <= i < |text| ==> text[i] as int < 128
  }

  function AsciiBytes(text: string): (b: Bytes)
    requires Ascii(text)
    ensures |b| == |text| && forall i :: 0 <= i < |b| ==> b[i] == text[i] as int
  {
    seq(|text|, i requires 0 <= i < |text| => text[i] as int)
  }

  /** OverflowRaised: `to_bytes(1)` on a label of more than 255 characters, which the code does not catch. */
  datatype Query = NoQuery | OverflowRaised | Built(bytes: Bytes)

  /** The labels in turn: the first one too long, or not ASCII, decides. */
  function QueryName(labels: seq<string>): Query {
    if labels == [] then Built([])
    else if |labels[0]| > 255 then OverflowRaised
    else if !Ascii(labels[0]) then NoQuery
    else
      var rest := QueryName(labels[1..]);
      if rest.Built? then Built([|labels[0]|] + AsciiBytes(labels[0]) + rest.bytes) else rest
  }

  function BuildDnsQuery(hostname: string, id: Word): Query {
    var labels := NonEmpty(SplitDots(hostname));
    if labels == [] then NoQuery
    else
      var name := QueryName(labels);
      if !name.Built? then name
      else Built(EncodeHeader(id, 0x0100, 1, 0, 0, 0) + name.bytes + [0] + U16(1) + U16(1))
  }

  /** The bytes of the labels, when every label encodes. */
  function LabelBytes(labels: seq<string>): seq<Bytes>
    requires forall i :: 0 <= i < |labels| ==> Ascii(labels[i])
  {
    seq(|labels|, i requires 0 <= i < |labels| => AsciiBytes(labels[i]))
  }

  lemma {:induction false} QueryNameIsEncodedLabels(labels: seq<string>)
    ensures QueryName(labels).Built? <==> forall i :: 0 <= i < |labels| ==> |labels[i]| <= 255 && Ascii(labels[i])
    ensures QueryName(labels).Built? ==> QueryName(labels).bytes == EncodeLabels(LabelBytes(labels))
  {
    if labels != [] {
      QueryNameIsEncodedLabels(labels[1..]);
      assert forall i :: 0 < i < |labels| ==> labels[i] == labels[1..][i - 1];
      if QueryName(labels).Built? {
        assert LabelBytes(labels)[1..] == LabelBytes(labels[1..]);
      }
    }
  }

  /** Which labels keep a query from being built: the first one that is too long or not ASCII
      decides, and too long comes first. */
  lemma {:induction false} QueryNameFailure(labels: seq<string>)
    ensures QueryName(labels) == OverflowRaised <==>
            exists i :: 0 <= i < |labels| && |labels[i]| > 255 && AllEncode(labels[..i])
    ensures QueryName(labels) == NoQuery <==>
            exists i :: 0 <= i < |labels| && |labels[i]| <= 255 && !Encodes(labels[i]) && AllEncode(labels[..i])
  {
    if labels != [] {
      assert labels[..0] == [];
      if AllEncode([labels[0]]) {
        assert [labels[0]][0] == labels[0];
        QueryNameFailure(labels[1..]);
        forall i | 0 < i < |labels|
          ensures labels[1..][i - 1] == labels[i] && AllEncode(labels[..i]) == AllEncode(labels[1..][..i - 1])
        {
          assert labels[..i] == [labels[0]] + labels[1..][..i - 1];
          AllEncodeCons(labels[0], labels[1..][..i - 1]);
        }
      } else {
        assert forall i :: 0 < i <= |labels| ==> labels[..i][0] == labels[0];
      }
    }
  }

  /** 255 characters at most, each of seven bits. */
  predicate Encodes(text: string) {
    |text| <= 255 && forall i :: 0 <= i < |text| ==> text[i] <= 127 as char
  }

  predicate AllEncode(labels: seq<string>) {
    forall i :: 0 <= i < |labels| ==> Encodes(labels[i])
  }

  lemma AllEncodeCons(head: string, labels: seq<string>)
    ensures AllEncode([head] + labels) <==> Encodes(head) && AllEncode(labels)
  {
    var all := [head] + labels;
    assert all[0] == head && forall i :: 0 < i < |all| ==> all[i] == labels[i - 1];
    assert forall i :: 0 <= i < |labels| ==> labels[i] == all[i + 1];
  }

  /** The labels of a hostname are its non-empty parts, in order, at positions `at`. */
  lemma {:induction false} NonEmptyMeaning(parts: seq<string>) returns (at: seq<nat>)
    ensures |at| == |NonEmpty(parts)| && (forall i, j :: 0 <= i < j < |at| ==> at[i] < at[j])
    ensures forall i :: 0 <= i < |at| ==> at[i] < |parts| && NonEmpty(parts)[i] == parts[at[i]]
    ensures forall k: nat :: k < |parts| ==> (k in at <==> parts[k] != "")
  {
    if parts == [] {
      at := [];
    } else {
      var n := |parts| - 1;
      at := NonEmptyMeaning(parts[..n]);
      if parts[n] != "" {
        at := at + [n];
      }
    }
  }

  /** When a query is built at all, and its fixed bytes: the transaction id, the recursion flag,
      one question and nothing else; then the labels' encoding, the root, type A and class IN. */
  lemma QueryBytes(hostname: string, id: Word)
    ensures BuildDnsQuery(hostname, id).Built? <==>
            NonEmpty(SplitDots(hostname)) != [] && AllEncode(NonEmpty(SplitDots(hostname)))
    ensures BuildDnsQuery(hostname, id).Built? ==>
      var q, name := BuildDnsQuery(hostname, id).bytes, EncodeLabels(LabelBytes(NonEmpty(SplitDots(hostname))));
      && |q| == 12 + |name| + 5
      && (q[0] as int) * 256 + q[1] == id && q[2..12] == [1, 0, 0, 1, 0, 0, 0, 0, 0, 0]
      && q[12..12 + |name|] == name && q[12 + |name|..] == [0, 0, 1, 0, 1]
  {
    hide SplitDots, NonEmpty, QueryName, EncodeLabels;
    var labels := NonEmpty(SplitDots(hostname));
    QueryNameIsEncodedLabels(labels);
    if BuildDnsQuery(hostname, id).Built? {
      var header, name := EncodeHeader(id, 0x0100, 1, 0, 0, 0), EncodeLabels(LabelBytes(labels));
      HeaderBytes(id);
      assert U16(1) == [0, 1];
      assert BuildDnsQuery(hostname, id).bytes == header + name + [0, 0, 1, 0, 1];
    }
  }

  lemma HeaderBytes(id: Word)
    ensures var h := EncodeHeader(id, 0x0100, 1, 0, 0, 0);
            (h[0] as int) * 256 + h[1] == id && h[2..12] == [1, 0, 0, 1, 0, 0, 0, 0, 0, 0]
  {
    assert U16(0) == [0, 0] && U16(1) == [0, 1] && U16(0x0100) == [1, 0];
  }

  /** A label of 192..255 bytes is taken for a pointer, and the skip stops short of the end. */
  lemma {:induction false} LongLabelStopsShort(pre: Bytes, labels: seq<Bytes>, post: Bytes)
    requires forall i :: 0 <= i < |labels| ==> 1 <= |labels[i]| < 256
    requires exists i :: 0 <= i < |labels| && |labels[i]| >= 192
    ensures SkipName(pre + EncodeLabels(labels) + post, |pre|) < |pre| + |EncodeLabels(labels)|
    decreases |labels|
  {
    var p := pre + EncodeLabels(labels) + post;
    var head: Bytes := [|labels[0]|] + labels[0];
    assert p[|pre|] == |labels[0]|;
    if |labels[0]| < 192 {
      assert forall i :: 0 < i < |labels| ==> labels[i] == labels[1..][i - 1];
      LongLabelStopsShort(pre + head, labels[1..], post);
      assert (pre + head) + EncodeLabels(labels[1..]) + post == p;
    }
  }

  /** Skipping the name of a built query from offset 12 lands on its last four bytes
      exactly when no label is 192 bytes or longer - in particular for every name
      RFC 1035 allows. */
  lemma QuerySkipsToItsTail(hostname: string, id: Word)
    requires BuildDnsQuery(hostname, id).Built?
    ensures var q := BuildDnsQuery(hostname, id).bytes;
            SkipName(q, 12) == |q| - 4 <==>
            forall i :: 0 <= i < |NonEmpty(SplitDots(hostname))| ==> |NonEmpty(SplitDots(hostname))[i]| < 192
  {
    hide EncodeHeader, EncodeLabels, SplitDots, NonEmpty, QueryName, U16, SkipName;
    var labels := NonEmpty(SplitDots(hostname));
    QueryNameIsEncodedLabels(labels);
    var wire := LabelBytes(labels);
    var header := EncodeHeader(id, 0x0100, 1, 0, 0, 0);
    var q := BuildDnsQuery(hostname, id).bytes;
    var tail := U16(1) + U16(1);
    assert q == header + EncodeLabels(wire) + ([0] + tail);
    if forall i :: 0 <= i < |labels| ==> |labels[i]| < 192 {
      SkipsEncodedName(header, wire, Root, tail);
      assert q == header + EncodeName(Name(wire, Root)) + tail;
    } else {
      var i :| 0 <= i < |labels| && |labels[i]| >= 192;
      assert |wire[i]| >= 192;
      LongLabelStopsShort(header, wire, [0] + tail);
    }
  }

  lemma {:induction false} NothingToSplit(s: string)
    requires '.' !in s
    ensures SplitDots(s) == [s]
  {
    if s != "" {
      assert s == [s[0]] + s[1..];
      NothingToSplit(s[1..]);
    }
  }

  /** A query is built for a single label of 192 to 255 characters, and skipping its name
      does not reach the question's type and class. */
  lemma LongLabelIsMisread(hostname: string, id: Word)
    requires Ascii(hostname) && '.' !in hostname && 192 <= |hostname| <= 255
    ensures BuildDnsQuery(hostname, id).Built?
    ensures var q := BuildDnsQuery(hostname, id).bytes; SkipName(q, 12) != |q| - 4
  {
    hide QueryName, SplitDots, SkipName;
    NothingToSplit(hostname);
    var labels := NonEmpty([hostname]);
    assert [hostname][..0] == [] && NonEmpty([]) == [];
    assert labels == [hostname];
    QueryNameIsEncodedLabels(labels);
    QuerySkipsToItsTail(hostname, id);
    assert |NonEmpty(SplitDots(hostname))[0]| >= 192;
  }

  lemma AMisreadQuery(id: Word)
    ensures var hostname := seq(192, _ => 'a');
            BuildDnsQuery(hostname, id).Built? && var q := BuildDnsQuery(hostname, id).bytes; SkipName(q, 12) != |q| - 4
  {
    LongLabelIsMisread(seq(192, _ => 'a'), id);
  }

  /** A built query is a one-question message for the hostname's labels, type A, class IN. */
  lemma QueryIsAWellFormedMessage(hostname: string, id: Word)
    requires BuildDnsQuery(hostname, id).Built?
    requires forall i :: 0 <= i < |NonEmpty(SplitDots(hostname))| ==> |NonEmpty(SplitDots(hostname))[i]| <= 63
    ensures forall i :: 0 <= i < |NonEmpty(SplitDots(hostname))| ==> Ascii(NonEmpty(SplitDots(hostname))[i])
    ensures var question := Question(Name(LabelBytes(NonEmpty(SplitDots(hostname))), Root), 1, 1);
            var m := Message(id, 0x0100, [question], [], 0, 0, []);
            WellFormed(m) && BuildDnsQuery(hostname, id).bytes == Encode(m)
  {
    hide EncodeHeader, EncodeLabels, SplitDots, NonEmpty, QueryName, U16;
    var labels := NonEmpty(SplitDots(hostname));
    QueryNameIsEncodedLabels(labels);
    var question := Question(Name(LabelBytes(labels), Root), 1, 1);
    assert EncodeQuestions([question]) == EncodeQuestion(question) + EncodeQuestions([]);
  }
}
