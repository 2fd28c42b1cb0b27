/** The wire format as a grammar, independent of any decoder: which bytes lay out which message.
    Decode accepts exactly those bytes. */
module Grammar {
  import opened Bytes
  import opened Names
  import opened Messages
  import opened RoundTrip
  import opened Reencoding

  // ----- Fixed words -----

  lemma U16Exact(buf: bytes, pos: nat, w: u16)
    ensures Holds(buf, pos, U16(w)) <==> pos + 2 <= |buf| && U16At(buf, pos) == w
  {
    if pos + 2 <= |buf| {
      assert buf[pos..pos + 2] == [buf[pos], buf[pos + 1]];
    }
  }

  lemma HoldsConcat(buf: bytes, pos: nat, x: bytes, y: bytes)
    ensures Holds(buf, pos, x + y) <==> Holds(buf, pos, x) && Holds(buf, pos + |x|, y)
  {
    if Holds(buf, pos, x + y) {
      HoldsParts(buf, pos, x, y);
    }
    if Holds(buf, pos, x) && Holds(buf, pos + |x|, y) {
      assert buf[pos..pos + |x + y|] == buf[pos..pos + |x|] + buf[pos + |x|..pos + |x| + |y|];
    }
  }

  lemma WordHalves(hi: u16, lo: u16, w: u32)
    ensures hi as int * 0x1_0000 + lo == w <==> hi == w / 0x1_0000 && lo == w % 0x1_0000
  {
  }

  lemma U32Exact(buf: bytes, pos: nat, w: u32)
    ensures Holds(buf, pos, U32(w)) <==> pos + 4 <= |buf| && U32At(buf, pos) == w
  {
    hide U16, U16At, Holds;
    HoldsConcat(buf, pos, U16(w / 0x1_0000), U16(w % 0x1_0000));
    U16Exact(buf, pos, w / 0x1_0000);
    U16Exact(buf, pos + 2, w % 0x1_0000);
    if pos + 4 <= |buf| {
      WordHalves(U16At(buf, pos), U16At(buf, pos + 2), w);
    }
  }

  // ----- Names -----

  predicate SpelledName(buf: bytes, pos: nat, name: bytes, labels: seq<bytes>) {
    WireLen(labels) <= MAX_WIRE && name == Lower(NameOf(labels))
  }

  /** The bytes at `pos` spell `name` in any letter case, with backward pointers only, at most 32. */
  ghost predicate NameAt(buf: bytes, pos: nat, name: bytes) {
    exists labels, depth: nat ::
      Spells(buf, pos, labels, depth) && depth <= MAX_HOPS && SpelledName(buf, pos, name, labels)
  }

  lemma NameExact(buf: bytes, pos: nat, name: bytes)
    ensures ReadName(buf, pos) == Ok(name) <==> NameAt(buf, pos, name)
  {
    hide ReadLabels, Spells, WireLen, NameOf;
    if ReadName(buf, pos) == Ok(name) {
      var labels := ReadLabels(buf, pos, 0, 0).value;
      DecoderExact(buf, pos, labels);
      var depth: nat :| depth <= MAX_HOPS && Spells(buf, pos, labels, depth);
      assert SpelledName(buf, pos, name, labels);
    }
    if NameAt(buf, pos, name) {
      var labels, depth: nat :|
        Spells(buf, pos, labels, depth) && depth <= MAX_HOPS && SpelledName(buf, pos, name, labels);
      SpelledReads(buf, pos, labels, depth, 0, 0);
    }
  }

  // ----- Payloads -----

  predicate SplitsInto(data: bytes, strings: seq<bytes>) { TextsFit(strings) && TextBytes(strings) == data }

  ghost predicate Splits(data: bytes) { exists strings :: SplitsInto(data, strings) }

  lemma TextsExact(data: bytes, strings: seq<bytes>)
    ensures ReadTexts(data) == Ok(strings) <==> SplitsInto(data, strings)
  {
    hide TextsFit, TextBytes, ReadTexts;
    if ReadTexts(data).Ok? {
      ReadTextsBack(data);
    }
    if SplitsInto(data, strings) {
      TextsRead(strings);
    }
  }

  /** `len` octets at `base` are the payload `d` of a record of that type. Names may point anywhere
      before themselves, and where they end is not compared with `len`. */
  ghost predicate PayloadAt(rtype: u16, buf: bytes, base: nat, len: nat, d: RData)
    requires base + len <= |buf|
  {
    var data := buf[base..base + len];
    match d
    case NoPayload => false
    case AData(addr) => rtype == TYPE_A && addr.V4? && data == addr.quad
    case AAAAData(addr) => rtype == TYPE_AAAA && addr.V6? && data == addr.octets
    case TXTData(strings) => rtype == TYPE_TXT && strings != [] && SplitsInto(data, strings)
    case NSData(host) => rtype == TYPE_NS && NameAt(buf, base, host)
    case CNAMEData(target) => rtype == TYPE_CNAME && NameAt(buf, base, target)
    case SOAData(mname, rname, _, _, _, _, _) => rtype == TYPE_SOA && SOAAt(buf, base, d)
    case RawData(raw) => rtype !in {TYPE_A, TYPE_AAAA, TYPE_TXT, TYPE_NS, TYPE_CNAME, TYPE_SOA} && data == raw
  }

  ghost predicate SOAAt(buf: bytes, base: nat, d: RData)
    requires d.SOAData?
  {
    && NameAt(buf, base, d.mname) && NameAt(buf, NameEnd(buf, base), d.rname)
    && Holds(buf, NameEnd(buf, NameEnd(buf, base)),
             U32(d.serial) + U32(d.refresh) + U32(d.retry) + U32(d.expire) + U32(d.minimum))
  }

  lemma FiveWords(buf: bytes, p: nat, a: u32, b: u32, c: u32, d: u32, e: u32)
    ensures Holds(buf, p, U32(a) + U32(b) + U32(c) + U32(d) + U32(e)) <==>
            p + 20 <= |buf| && U32At(buf, p) == a && U32At(buf, p + 4) == b && U32At(buf, p + 8) == c
            && U32At(buf, p + 12) == d && U32At(buf, p + 16) == e
  {
    hide U32, U32At, Holds;
    HoldsConcat(buf, p, U32(a), U32(b));
    HoldsConcat(buf, p, U32(a) + U32(b), U32(c));
    HoldsConcat(buf, p, U32(a) + U32(b) + U32(c), U32(d));
    HoldsConcat(buf, p, U32(a) + U32(b) + U32(c) + U32(d), U32(e));
    U32Exact(buf, p, a);
    U32Exact(buf, p + 4, b);
    U32Exact(buf, p + 8, c);
    U32Exact(buf, p + 12, d);
    U32Exact(buf, p + 16, e);
  }

  lemma SOAExact(buf: bytes, base: nat, d: RData)
    ensures ReadSOA(buf, base) == Ok(d) <==> d.SOAData? && SOAAt(buf, base, d)
  {
    hide ReadName, NameEnd, NameAt, U32, U32At, Holds;
    if d.SOAData? {
      NameExact(buf, base, d.mname);
      NameExact(buf, NameEnd(buf, base), d.rname);
      FiveWords(buf, NameEnd(buf, NameEnd(buf, base)), d.serial, d.refresh, d.retry, d.expire, d.minimum);
    }
  }

  lemma PayloadExact(rtype: u16, buf: bytes, base: nat, len: nat, d: RData)
    requires base + len <= |buf|
    ensures ReadData(rtype, buf, base, len) == Ok(d) <==> PayloadAt(rtype, buf, base, len, d)
  {
    hide ReadName, NameEnd, NameAt, ReadSOA, SOAAt, ReadTexts, SplitsInto;
    SOAExact(buf, base, d);
    match d
    case NSData(host) => NameExact(buf, base, host);
    case CNAMEData(target) => NameExact(buf, base, target);
    case TXTData(strings) => TextsExact(buf[base..base + len], strings);
    case _ =>
  }

  // ----- Records and questions -----

  /** A record: owner name, type, class, TTL, payload length, payload. */
  ghost predicate RecordAt(buf: bytes, pos: nat, rr: RR, end: nat) {
    var p := NameEnd(buf, pos);
    && NameAt(buf, pos, rr.name) && p + 10 <= end <= |buf| && end - p - 10 <= 0xFFFF
    && Holds(buf, p, U16(rr.rtype) + U16(rr.class_) + U32(rr.ttl) + U16(end - p - 10))
    && PayloadAt(rr.rtype, buf, p + 10, end - p - 10, rr.data)
  }

  lemma FixedWords(buf: bytes, p: nat, a: u16, b: u16, c: u32, d: u16)
    ensures Holds(buf, p, U16(a) + U16(b) + U32(c) + U16(d)) <==>
            p + 10 <= |buf| && U16At(buf, p) == a && U16At(buf, p + 2) == b && U32At(buf, p + 4) == c
            && U16At(buf, p + 8) == d
  {
    hide U16, U32, U16At, U32At, Holds;
    HoldsConcat(buf, p, U16(a), U16(b));
    HoldsConcat(buf, p, U16(a) + U16(b), U32(c));
    HoldsConcat(buf, p, U16(a) + U16(b) + U32(c), U16(d));
    U16Exact(buf, p, a);
    U16Exact(buf, p + 2, b);
    U32Exact(buf, p + 4, c);
    U16Exact(buf, p + 8, d);
  }

  lemma RecordExact(buf: bytes, pos: nat, rr: RR, end: nat)
    ensures ReadRR(buf, pos) == Ok((rr, end)) <==> RecordAt(buf, pos, rr, end)
  {
    hide ReadName, NameEnd, NameAt, ReadData, PayloadAt, U16, U32, U16At, U32At, Holds;
    NameExact(buf, pos, rr.name);
    var p := NameEnd(buf, pos);
    if p + 10 <= |buf| {
      var len := U16At(buf, p + 8);
      FixedWords(buf, p, rr.rtype, rr.class_, rr.ttl, len);
      if p + 10 + len <= |buf| {
        PayloadExact(rr.rtype, buf, p + 10, len, rr.data);
      }
      if p + 10 <= end && end - p - 10 <= 0xFFFF {
        FixedWords(buf, p, rr.rtype, rr.class_, rr.ttl, end - p - 10);
      }
    }
  }

  ghost predicate QuestionAt(buf: bytes, pos: nat, q: Question, end: nat) {
    var p := NameEnd(buf, pos);
    NameAt(buf, pos, q.name) && end == p + 4 && Holds(buf, p, U16(q.qtype) + U16(q.class_))
  }

  lemma QuestionExact(buf: bytes, pos: nat, q: Question, end: nat)
    ensures ReadQuestion(buf, pos) == Ok((q, end)) <==> QuestionAt(buf, pos, q, end)
  {
    hide ReadName, NameEnd, NameAt, U16, U16At, Holds;
    NameExact(buf, pos, q.name);
    var p := NameEnd(buf, pos);
    HoldsConcat(buf, p, U16(q.qtype), U16(q.class_));
    U16Exact(buf, p, q.qtype);
    U16Exact(buf, p + 2, q.class_);
  }

  /** Records one behind the other. */
  ghost predicate RecordsAt(buf: bytes, pos: nat, rrs: seq<RR>, end: nat)
    decreases |rrs|
  {
    if rrs == [] then pos == end
    else exists mid :: RecordAt(buf, pos, rrs[0], mid) && RecordsAt(buf, mid, rrs[1..], end)
  }

  ghost predicate QuestionsAt(buf: bytes, pos: nat, qs: seq<Question>, end: nat)
    decreases |qs|
  {
    if qs == [] then pos == end
    else exists mid :: QuestionAt(buf, pos, qs[0], mid) && QuestionsAt(buf, mid, qs[1..], end)
  }

  lemma {:induction false} RecordsExact(buf: bytes, pos: nat, rrs: seq<RR>, end: nat)
    ensures ReadRRs(buf, pos, |rrs|) == Ok((rrs, end)) <==> RecordsAt(buf, pos, rrs, end)
    decreases |rrs|
  {
    hide ReadRR, RecordAt;
    if rrs != [] {
      assert rrs == [rrs[0]] + rrs[1..];
      var first := ReadRR(buf, pos);
      if first.Ok? {
        RecordExact(buf, pos, first.value.0, first.value.1);
        RecordsExact(buf, first.value.1, rrs[1..], end);
      }
      if RecordsAt(buf, pos, rrs, end) {
        var mid :| RecordAt(buf, pos, rrs[0], mid) && RecordsAt(buf, mid, rrs[1..], end);
        RecordExact(buf, pos, rrs[0], mid);
      }
    }
  }

  lemma {:induction false} QuestionsExact(buf: bytes, pos: nat, qs: seq<Question>, end: nat)
    ensures ReadQuestions(buf, pos, |qs|) == Ok((qs, end)) <==> QuestionsAt(buf, pos, qs, end)
    decreases |qs|
  {
    hide ReadQuestion, QuestionAt;
    if qs != [] {
      assert qs == [qs[0]] + qs[1..];
      var first := ReadQuestion(buf, pos);
      if first.Ok? {
        QuestionExact(buf, pos, first.value.0, first.value.1);
        QuestionsExact(buf, first.value.1, qs[1..], end);
      }
      if QuestionsAt(buf, pos, qs, end) {
        var mid :| QuestionAt(buf, pos, qs[0], mid) && QuestionsAt(buf, mid, qs[1..], end);
        QuestionExact(buf, pos, qs[0], mid);
      }
    }
  }

  // ----- Messages -----

  /** Twelve octets: ID, flags, four counts. Three flag bits are ignored (section 4.1.1 of RFC 1035
      reserves them). */
  predicate HeaderAt(buf: bytes, m: Message) {
    && |buf| >= 12 && CountsFit(m) && m.header.opcode < 16 && m.header.rcode < 16
    && U16At(buf, 0) == m.header.id && FlagWord(m.header) == U16At(buf, 2) / 0x80 * 0x80 + U16At(buf, 2) % 16
    && U16At(buf, 4) == |m.questions| && U16At(buf, 6) == |m.answers|
    && U16At(buf, 8) == |m.authority| && U16At(buf, 10) == |m.additional|
  }

  ghost predicate SectionsAt(buf: bytes, m: Message, q: nat, a: nat, n: nat, end: nat) {
    && QuestionsAt(buf, 12, m.questions, q) && RecordsAt(buf, q, m.answers, a)
    && RecordsAt(buf, a, m.authority, n) && RecordsAt(buf, n, m.additional, end)
  }

  /** The bytes lay out `m`; anything may follow. */
  ghost predicate LaysOut(buf: bytes, m: Message) {
    HeaderAt(buf, m) && exists q, a, n, end :: SectionsAt(buf, m, q, a, n, end)
  }

  lemma HeaderFields(id: u16, f: u16)
    ensures var h := HeaderOf(id, f); h.id == id && h.opcode < 16 && h.rcode < 16
  {
  }

  lemma HeaderExact(id: u16, f: u16, h: Header)
    ensures HeaderOf(id, f) == h <==>
            h.id == id && h.opcode < 16 && h.rcode < 16 && FlagWord(h) == f / 0x80 * 0x80 + f % 16
  {
    hide FlagWord, HeaderOf;
    HeaderFields(id, f);
    FlagsDropReserved(id, f);
    FlagsRoundTrip(HeaderOf(id, f));
    FlagsRoundTrip(h);
  }

  /** Decode reads a message exactly from the bytes that lay it out. */
  lemma DecodeExact(buf: bytes, m: Message)
    ensures DecodeMessage(buf) == Ok(m) <==> LaysOut(buf, m)
  {
    hide ReadQuestions, ReadRRs, QuestionsAt, RecordsAt, HeaderOf, FlagWord, U16At;
    if DecodeMessage(buf) == Ok(m) {
      DecodedLaysOut(buf, m);
    }
    if LaysOut(buf, m) {
      LaidOutDecodes(buf, m);
    }
  }

  lemma DecodedLaysOut(buf: bytes, m: Message)
    requires DecodeMessage(buf) == Ok(m)
    ensures LaysOut(buf, m)
  {
    hide ReadQuestions, ReadRRs, QuestionsAt, RecordsAt, HeaderOf, FlagWord, U16At;
    DecodeAccounting(buf);
    HeaderExact(U16At(buf, 0), U16At(buf, 2), m.header);
    var q := ReadQuestions(buf, 12, U16At(buf, 4)).value.1;
    var a := ReadRRs(buf, q, U16At(buf, 6)).value.1;
    var n := ReadRRs(buf, a, U16At(buf, 8)).value.1;
    var end := ReadRRs(buf, n, U16At(buf, 10)).value.1;
    QuestionsExact(buf, 12, m.questions, q);
    RecordsExact(buf, q, m.answers, a);
    RecordsExact(buf, a, m.authority, n);
    RecordsExact(buf, n, m.additional, end);
    assert SectionsAt(buf, m, q, a, n, end);
  }

  lemma LaidOutDecodes(buf: bytes, m: Message)
    requires LaysOut(buf, m)
    ensures DecodeMessage(buf) == Ok(m)
  {
    hide ReadQuestions, ReadRRs, QuestionsAt, RecordsAt, HeaderOf, FlagWord, U16At;
    HeaderExact(U16At(buf, 0), U16At(buf, 2), m.header);
    var q, a, n, end :| SectionsAt(buf, m, q, a, n, end);
    QuestionsExact(buf, 12, m.questions, q);
    RecordsExact(buf, q, m.answers, a);
    RecordsExact(buf, a, m.authority, n);
    RecordsExact(buf, n, m.additional, end);
  }

  // ----- Malformed payloads -----

  /** At `pos` stands a record whose payload no record of its type can have: an address of the wrong
      length, or text that does not split into strings. */
  ghost predicate MalformedAt(buf: bytes, pos: nat) {
    var p := NameEnd(buf, pos);
    && p + 10 <= |buf| && p + 10 + U16At(buf, p + 8) <= |buf|
    && var len := U16At(buf, p + 8);
       match U16At(buf, p)
       case 1 => len != 4
       case 28 => len != 16
       case 16 => len == 0 || !Splits(buf[p + 10..p + 10 + len])
       case _ => false
  }

  lemma MalformedFails(buf: bytes, pos: nat)
    requires MalformedAt(buf, pos)
    ensures ReadRR(buf, pos).Err?
  {
    hide ReadName, NameEnd, TextsFit, TextBytes, ReadTexts;
    var p := NameEnd(buf, pos);
    var len := U16At(buf, p + 8);
    var data := buf[p + 10..p + 10 + len];
    if ReadTexts(data).Ok? {
      TextsExact(data, ReadTexts(data).value);
      if len == 0 {
        NoTexts();
        TextsExact(data, []);
      }
    }
  }

  lemma {:induction false} ReadRRsConcat(buf: bytes, pos: nat, a: nat, b: nat)
    requires ReadRRs(buf, pos, a).Ok? && ReadRRs(buf, ReadRRs(buf, pos, a).value.1, b).Ok?
    ensures ReadRRs(buf, pos, a + b).Ok?
    ensures ReadRRs(buf, pos, a + b).value.1 == ReadRRs(buf, ReadRRs(buf, pos, a).value.1, b).value.1
    decreases a
  {
    hide ReadRR;
    if a > 0 {
      ReadRRsConcat(buf, ReadRR(buf, pos).value.1, a - 1, b);
    }
  }

  lemma {:induction false} MalformedStops(buf: bytes, pos: nat, before: seq<RR>, bad: nat, n: nat)
    requires RecordsAt(buf, pos, before, bad) && MalformedAt(buf, bad) && |before| < n
    ensures ReadRRs(buf, pos, n).Err?
    decreases n
  {
    hide ReadRR, RecordAt, MalformedAt;
    if before == [] {
      MalformedFails(buf, pos);
    } else {
      var mid :| RecordAt(buf, pos, before[0], mid) && RecordsAt(buf, mid, before[1..], bad);
      RecordExact(buf, pos, before[0], mid);
      MalformedStops(buf, mid, before[1..], bad, n - 1);
    }
  }

  /** Wherever among the announced records a malformed one stands, Decode fails. */
  lemma MalformedRecordFails(buf: bytes, qs: seq<Question>, p: nat, before: seq<RR>, bad: nat)
    requires |buf| >= 12 && |qs| == U16At(buf, 4) && QuestionsAt(buf, 12, qs, p)
    requires RecordsAt(buf, p, before, bad) && MalformedAt(buf, bad)
    requires |before| < U16At(buf, 6) as int + U16At(buf, 8) + U16At(buf, 10)
    ensures DecodeMessage(buf).Err?
  {
    hide ReadQuestions, ReadRRs, QuestionsAt, RecordsAt, HeaderOf, U16At, MalformedAt;
    QuestionsExact(buf, 12, qs, p);
    var an, ns, ar: nat := U16At(buf, 6), U16At(buf, 8), U16At(buf, 10);
    MalformedStops(buf, p, before, bad, an + ns + ar);
    if DecodeMessage(buf).Ok? {
      var a := ReadRRs(buf, p, an).value.1;
      ReadRRsConcat(buf, p, an, ns);
      ReadRRsConcat(buf, p, an + ns, ar);
    }
  }
}
