/** Decoding what was encoded: every record, every section, the whole message. */
module RoundTrip {
  import opened Bytes
  import opened Names
  import opened Emission
  import opened Messages

  // ----- What decoding normalizes -----

  predicate Typed(rtype: u16, d: RData) {
    match d
    case NoPayload => false
    case AData(addr) => rtype == TYPE_A && addr.V4?
    case AAAAData(addr) => rtype == TYPE_AAAA && addr.V6?
    case TXTData(strings) => rtype == TYPE_TXT && strings != []
    case NSData(_) => rtype == TYPE_NS
    case CNAMEData(_) => rtype == TYPE_CNAME
    case SOAData(_, _, _, _, _, _, _) => rtype == TYPE_SOA
    case RawData(_) => rtype !in {TYPE_A, TYPE_AAAA, TYPE_TXT, TYPE_NS, TYPE_CNAME, TYPE_SOA}
  }

  predicate AllTyped(rrs: seq<RR>) { forall i :: 0 <= i < |rrs| ==> Typed(rrs[i].rtype, rrs[i].data) }

  /** Each record's payload variant is the one its type calls for. */
  predicate WellTyped(m: Message) { AllTyped(m.answers) && AllTyped(m.authority) && AllTyped(m.additional) }

  function LowerData(d: RData): RData {
    match d
    case NSData(host) => NSData(Lower(host))
    case CNAMEData(target) => CNAMEData(Lower(target))
    case SOAData(mname, rname, _, _, _, _, _) => d.(mname := Lower(mname), rname := Lower(rname))
    case _ => d
  }

  function LowerRR(rr: RR): RR { rr.(name := Lower(rr.name), data := LowerData(rr.data)) }

  function LowerRRs(rrs: seq<RR>): (r: seq<RR>)
    ensures |r| == |rrs| && forall i :: 0 <= i < |rrs| ==> r[i] == LowerRR(rrs[i])
  {
    if rrs == [] then [] else [LowerRR(rrs[0])] + LowerRRs(rrs[1..])
  }

  function LowerQuestions(qs: seq<Question>): (r: seq<Question>)
    ensures |r| == |qs| && forall i :: 0 <= i < |qs| ==> r[i] == qs[i].(name := Lower(qs[i].name))
  {
    if qs == [] then [] else [qs[0].(name := Lower(qs[0].name))] + LowerQuestions(qs[1..])
  }

  /** Names in lowercase, opcode and rcode cut to four bits. */
  function Normal(m: Message): Message {
    Message(m.header.(opcode := m.header.opcode % 16, rcode := m.header.rcode % 16),
            LowerQuestions(m.questions), LowerRRs(m.answers), LowerRRs(m.authority), LowerRRs(m.additional))
  }

  // ----- Reading one piece list back -----

  /** What a read at the start of emitted pieces gives: the value, or a pointer chain too deep. */
  function Outcome<T>(value: T, end: nat, e: Emitted): Result<(T, nat), Error> {
    if e.deepest <= MAX_HOPS then Ok((value, end)) else Err(PointerLoop)
  }

  lemma HoldsWords(buf: bytes, at: nat, a: u16, b: u16)
    requires Holds(buf, at, U16(a) + U16(b))
    ensures U16At(buf, at) == a && U16At(buf, at + 2) == b
  {
    HoldsParts(buf, at, U16(a), U16(b));
    HoldsU16(buf, at, a);
    HoldsU16(buf, at + 2, b);
  }

  lemma QuestionReads(buf: bytes, at: nat, t: Table, q: Question)
    requires TableOk(buf, at, t)
    requires Emit(at, t, QuestionPieces(q)).Ok? && Holds(buf, at, Emit(at, t, QuestionPieces(q)).value.out)
    ensures var e := Emit(at, t, QuestionPieces(q)).value;
            ReadQuestion(buf, at) == Outcome(q.(name := Lower(q.name)), at + |e.out|, e)
  {
    hide EmitName, ReadName, NameEnd, TableOk, U16At, Emit;
    var ps := QuestionPieces(q);
    EmitSplit(buf, at, t, ps);
    var n := EmitPiece(at, t, ps[0]).value;
    NameSound(buf, at, t, q.name);
    EmitOne(at + |n.out|, n.table, ps[1]);
    assert ps[1..] == [ps[1]];
    HoldsWords(buf, at + |n.out|, q.qtype, q.class_);
  }

  lemma {:induction false} QuestionsRead(buf: bytes, at: nat, t: Table, qs: seq<Question>)
    requires TableOk(buf, at, t)
    requires Emit(at, t, QuestionsPieces(qs)).Ok? && Holds(buf, at, Emit(at, t, QuestionsPieces(qs)).value.out)
    ensures var e := Emit(at, t, QuestionsPieces(qs)).value;
            ReadQuestions(buf, at, |qs|) == Outcome(LowerQuestions(qs), at + |e.out|, e)
    decreases |qs|
  {
    hide ReadQuestion, Emit, TableOk, Holds, QuestionPieces;
    EmitNothing(at, t);
    if qs != [] {
      SplitEmission(buf, at, t, QuestionPieces(qs[0]), QuestionsPieces(qs[1..]));
      var a := Emit(at, t, QuestionPieces(qs[0])).value;
      QuestionReads(buf, at, t, qs[0]);
      QuestionsRead(buf, at + |a.out|, a.table, qs[1..]);
    }
  }

  /** Two runs of pieces in a row: both emit, both sit in the buffer, and the table between them is sound. */
  lemma SplitEmission(buf: bytes, at: nat, t: Table, ps: seq<Piece>, qs: seq<Piece>)
    requires TableOk(buf, at, t)
    requires Emit(at, t, ps + qs).Ok? && Holds(buf, at, Emit(at, t, ps + qs).value.out)
    ensures Emit(at, t, ps).Ok?
    ensures var a := Emit(at, t, ps).value;
            && Holds(buf, at, a.out)
            && TableOk(buf, at + |a.out|, a.table)
            && var b := Emit(at + |a.out|, a.table, qs);
               && b.Ok? && Holds(buf, at + |a.out|, b.value.out)
               && Emit(at, t, ps + qs).value == a.Then(b.value)
  {
    hide Emit, TableOk;
    EmitAppend(at, t, ps, qs);
    var a := Emit(at, t, ps).value;
    HoldsParts(buf, at, a.out, Emit(at + |a.out|, a.table, qs).value.out);
    EmitSound(buf, at, t, ps);
  }

  // ----- Payloads -----

  lemma {:induction false} TextsRead(strings: seq<bytes>)
    requires TextsFit(strings)
    ensures ReadTexts(TextBytes(strings)) == Ok(strings)
  {
    if strings != [] {
      TextsRead(strings[1..]);
      var data := TextBytes(strings);
      var n := |strings[0]|;
      assert data[0] == n;
      assert data[1..1 + n] == strings[0];
      assert data[1 + n..] == TextBytes(strings[1..]);
      assert strings == [strings[0]] + strings[1..];
    }
  }

  lemma HoldsSOATail(buf: bytes, at: nat, d: RData)
    requires d.SOAData? && Holds(buf, at, SOATail(d))
    ensures U32At(buf, at) == d.serial && U32At(buf, at + 4) == d.refresh && U32At(buf, at + 8) == d.retry
    ensures U32At(buf, at + 12) == d.expire && U32At(buf, at + 16) == d.minimum
  {
    var a, b, c := U32(d.serial) + U32(d.refresh), U32(d.retry), U32(d.expire);
    HoldsParts(buf, at, a + b + c, U32(d.minimum));
    HoldsParts(buf, at, a + b, c);
    HoldsParts(buf, at, a, b);
    HoldsParts(buf, at, U32(d.serial), U32(d.refresh));
    HoldsU32(buf, at, d.serial);
    HoldsU32(buf, at + 4, d.refresh);
    HoldsU32(buf, at + 8, d.retry);
    HoldsU32(buf, at + 12, d.expire);
    HoldsU32(buf, at + 16, d.minimum);
  }

  lemma SOAReads(buf: bytes, at: nat, t: Table, d: RData)
    requires TableOk(buf, at, t) && d.SOAData?
    requires Emit(at, t, DataPieces(d)).Ok? && Holds(buf, at, Emit(at, t, DataPieces(d)).value.out)
    ensures ReadSOA(buf, at) ==
            if Emit(at, t, DataPieces(d)).value.deepest <= MAX_HOPS then Ok(LowerData(d)) else Err(PointerLoop)
  {
    hide EmitName, ReadName, NameEnd, TableOk, U32At, SOATail, Emit;
    var ps := DataPieces(d);
    EmitSplit(buf, at, t, ps);
    var m := EmitPiece(at, t, ps[0]).value;
    NameSound(buf, at, t, d.mname);
    var second := at + |m.out|;
    assert ps[1..] == [ps[1], ps[2]];
    EmitSplit(buf, second, m.table, ps[1..]);
    var r := EmitPiece(second, m.table, ps[1]).value;
    NameSound(buf, second, m.table, d.rname);
    assert ps[1..][1..] == [ps[2]];
    EmitOne(second + |r.out|, r.table, ps[2]);
    HoldsSOATail(buf, second + |r.out|, d);
  }

  lemma NameDataReads(buf: bytes, at: nat, t: Table, name: bytes)
    requires TableOk(buf, at, t)
    requires Emit(at, t, [Name(name)]).Ok? && Holds(buf, at, Emit(at, t, [Name(name)]).value.out)
    ensures ReadName(buf, at) ==
            if Emit(at, t, [Name(name)]).value.deepest <= MAX_HOPS then Ok(Lower(name)) else Err(PointerLoop)
  {
    EmitOne(at, t, Name(name));
    NameSound(buf, at, t, name);
  }

  lemma DataReads(rtype: u16, buf: bytes, at: nat, t: Table, d: RData)
    requires TableOk(buf, at, t) && Typed(rtype, d)
    requires Emit(at, t, DataPieces(d)).Ok? && Holds(buf, at, Emit(at, t, DataPieces(d)).value.out)
    ensures var e := Emit(at, t, DataPieces(d)).value;
            ReadData(rtype, buf, at, |e.out|) == if e.deepest <= MAX_HOPS then Ok(LowerData(d)) else Err(PointerLoop)
  {
    EmitOne(at, t, DataPieces(d)[0]);
    match d
    case SOAData(_, _, _, _, _, _, _) => SOAReads(buf, at, t, d);
    case NSData(host) => NameDataReads(buf, at, t, host);
    case CNAMEData(target) => NameDataReads(buf, at, t, target);
    case TXTData(strings) => TextsRead(strings);
    case _ =>
  }

  // ----- Records -----

  /** Where the parts of an emitted record sit: owner name, ten fixed octets, payload. */
  lemma RRLayout(buf: bytes, at: nat, t: Table, rr: RR)
    requires TableOk(buf, at, t)
    requires Emit(at, t, RRPieces(rr)).Ok? && Holds(buf, at, Emit(at, t, RRPieces(rr)).value.out)
    ensures !rr.data.NoPayload? && EmitName(at, t, rr.name).Ok?
    ensures var n := EmitName(at, t, rr.name).value;
            var p := at + |n.out|;
            && Holds(buf, at, n.out) && TableOk(buf, p, n.table)
            && Holds(buf, p, U16(rr.rtype) + U16(rr.class_) + U32(rr.ttl))
            && var body := Emit(p + 10, n.table, DataPieces(rr.data));
               && body.Ok? && |body.value.out| <= 0xFFFF
               && Holds(buf, p + 8, U16(|body.value.out|) + body.value.out)
               && Emit(at, t, RRPieces(rr)).value.deepest == Max(n.deepest, body.value.deepest)
               && |Emit(at, t, RRPieces(rr)).value.out| == |n.out| + 10 + |body.value.out|
  {
    hide EmitName, TableOk, DataPieces, Emit, Holds;
    var ps := RRPieces(rr);
    EmitSplit(buf, at, t, ps);
    var n := EmitPiece(at, t, ps[0]).value;
    EmitPieceSound(buf, at, t, ps[0]);
    var p := at + |n.out|;
    assert ps[1..] == [ps[1], ps[2]];
    EmitSplit(buf, p, n.table, ps[1..]);
    assert ps[1..][1..] == [ps[2]];
    EmitOne(p + 8, n.table, ps[2]);
  }

  lemma FixedOctetsRead(buf: bytes, p: nat, rr: RR)
    requires Holds(buf, p, U16(rr.rtype) + U16(rr.class_) + U32(rr.ttl))
    ensures U16At(buf, p) == rr.rtype && U16At(buf, p + 2) == rr.class_ && U32At(buf, p + 4) == rr.ttl
  {
    HoldsParts(buf, p, U16(rr.rtype) + U16(rr.class_), U32(rr.ttl));
    HoldsWords(buf, p, rr.rtype, rr.class_);
    HoldsU32(buf, p + 4, rr.ttl);
  }

  lemma RRReads(buf: bytes, at: nat, t: Table, rr: RR)
    requires TableOk(buf, at, t) && Typed(rr.rtype, rr.data)
    requires Emit(at, t, RRPieces(rr)).Ok? && Holds(buf, at, Emit(at, t, RRPieces(rr)).value.out)
    ensures var e := Emit(at, t, RRPieces(rr)).value;
            ReadRR(buf, at) == Outcome(LowerRR(rr), at + |e.out|, e)
  {
    hide EmitName, ReadName, NameEnd, TableOk, ReadData, DataPieces, LowerData, U32At, U16At, Emit, Typed;
    RRLayout(buf, at, t, rr);
    NameSound(buf, at, t, rr.name);
    var n := EmitName(at, t, rr.name).value;
    var p := at + |n.out|;
    var body := Emit(p + 10, n.table, DataPieces(rr.data)).value;
    FixedOctetsRead(buf, p, rr);
    HoldsParts(buf, p + 8, U16(|body.out|), body.out);
    HoldsU16(buf, p + 8, |body.out|);
    TableGrows(buf, p, n.table, p + 10);
    DataReads(rr.rtype, buf, p + 10, n.table, rr.data);
  }

  lemma {:induction false} RRsRead(buf: bytes, at: nat, t: Table, rrs: seq<RR>)
    requires TableOk(buf, at, t) && AllTyped(rrs)
    requires Emit(at, t, SectionPieces(rrs)).Ok? && Holds(buf, at, Emit(at, t, SectionPieces(rrs)).value.out)
    ensures var e := Emit(at, t, SectionPieces(rrs)).value;
            ReadRRs(buf, at, |rrs|) == Outcome(LowerRRs(rrs), at + |e.out|, e)
    decreases |rrs|
  {
    hide ReadRR, Emit, TableOk, Holds, RRPieces;
    EmitNothing(at, t);
    if rrs != [] {
      SplitEmission(buf, at, t, RRPieces(rrs[0]), SectionPieces(rrs[1..]));
      var a := Emit(at, t, RRPieces(rrs[0])).value;
      RRReads(buf, at, t, rrs[0]);
      RRsRead(buf, at + |a.out|, a.table, rrs[1..]);
    }
  }

  // ----- Messages -----

  lemma HeaderReads(buf: bytes, m: Message)
    requires CountsFit(m) && Holds(buf, 0, HeaderBytes(m))
    ensures U16At(buf, 0) == m.header.id && U16At(buf, 2) == FlagWord(m.header)
    ensures U16At(buf, 4) == |m.questions| && U16At(buf, 6) == |m.answers|
    ensures U16At(buf, 8) == |m.authority| && U16At(buf, 10) == |m.additional|
  {
    var a := U16(m.header.id) + U16(FlagWord(m.header));
    var b := a + U16(|m.questions|);
    var c := b + U16(|m.answers|);
    var d := c + U16(|m.authority|);
    HoldsParts(buf, 0, d, U16(|m.additional|));
    HoldsParts(buf, 0, c, U16(|m.authority|));
    HoldsParts(buf, 0, b, U16(|m.answers|));
    HoldsParts(buf, 0, a, U16(|m.questions|));
    HoldsWords(buf, 0, m.header.id, FlagWord(m.header));
    HoldsU16(buf, 4, |m.questions|);
    HoldsU16(buf, 6, |m.answers|);
    HoldsU16(buf, 8, |m.authority|);
    HoldsU16(buf, 10, |m.additional|);
  }

  /** Reading the four sections of an encoded message in turn. */
  lemma SectionsRead(buf: bytes, m: Message)
    requires CountsFit(m) && WellTyped(m) && EncodeBody(m).Ok?
    requires Holds(buf, 0, HeaderBytes(m)) && Holds(buf, 12, EncodeBody(m).value.out)
    ensures var e := EncodeBody(m).value;
            ReadSections(buf) == Outcome(Normal(m), 12 + |e.out|, e)
  {
    hide ReadQuestions, ReadRRs, Emit, TableOk, HeaderBytes, HeaderOf, FlagWord,
         QuestionsPieces, SectionPieces, LowerRRs, LowerQuestions;
    EmptyTableOk(buf, 12);
    HeaderReads(buf, m);
    FlagsRoundTrip(m.header);
    var third := SectionPieces(m.authority) + SectionPieces(m.additional);
    SplitEmission(buf, 12, map[], QuestionsPieces(m.questions), SectionPieces(m.answers) + third);
    var q := Emit(12, map[], QuestionsPieces(m.questions)).value;
    QuestionsRead(buf, 12, map[], m.questions);
    var p := 12 + |q.out|;
    SplitEmission(buf, p, q.table, SectionPieces(m.answers), third);
    var a := Emit(p, q.table, SectionPieces(m.answers)).value;
    RRsRead(buf, p, q.table, m.answers);
    SplitEmission(buf, p + |a.out|, a.table, SectionPieces(m.authority), SectionPieces(m.additional));
    var n := Emit(p + |a.out|, a.table, SectionPieces(m.authority)).value;
    RRsRead(buf, p + |a.out|, a.table, m.authority);
    RRsRead(buf, p + |a.out| + |n.out|, n.table, m.additional);
  }

  /** The message round trip. Whatever well-typed message encodes, its bytes decode to the message
      itself up to letter case and four-bit header fields, unless some name in it nests more than
      32 pointers; then decoding reports a pointer loop. */
  lemma MessageRoundTrip(m: Message)
    requires WellTyped(m) && EncodeMessage(m).Ok?
    ensures DecodeMessage(EncodeMessage(m).value) == if Nesting(m) <= MAX_HOPS then Ok(Normal(m)) else Err(PointerLoop)
  {
    var buf := EncodeMessage(m).value;
    assert Holds(buf, 0, HeaderBytes(m));
    assert Holds(buf, 12, EncodeBody(m).value.out);
    SectionsRead(buf, m);
  }

  // ----- Exactly which messages survive -----

  predicate LowerNames(d: RData) {
    match d
    case NSData(host) => IsLower(host)
    case CNAMEData(target) => IsLower(target)
    case SOAData(mname, rname, _, _, _, _, _) => IsLower(mname) && IsLower(rname)
    case _ => true
  }

  predicate LowerSection(rrs: seq<RR>) {
    forall i :: 0 <= i < |rrs| ==> IsLower(rrs[i].name) && LowerNames(rrs[i].data)
  }

  /** Opcode and rcode fit four bits and every name is lowercase. */
  predicate InNormalForm(m: Message) {
    && m.header.opcode < 16 && m.header.rcode < 16
    && (forall i :: 0 <= i < |m.questions| ==> IsLower(m.questions[i].name))
    && LowerSection(m.answers) && LowerSection(m.authority) && LowerSection(m.additional)
  }

  lemma LowerDataFixed(d: RData)
    ensures LowerData(d) == d <==> LowerNames(d)
    ensures LowerNames(LowerData(d))
  {
    match d
    case NSData(host) => LowerFixed(host);
    case CNAMEData(target) => LowerFixed(target);
    case SOAData(mname, rname, _, _, _, _, _) =>
      LowerFixed(mname);
      LowerFixed(rname);
    case _ =>
  }

  lemma LowerSectionFixed(rrs: seq<RR>)
    ensures LowerRRs(rrs) == rrs <==> LowerSection(rrs)
  {
    forall i | 0 <= i < |rrs|
      ensures LowerRR(rrs[i]) == rrs[i] <==> IsLower(rrs[i].name) && LowerNames(rrs[i].data)
    {
      LowerFixed(rrs[i].name);
      LowerDataFixed(rrs[i].data);
    }
    if LowerSection(rrs) {
      assert forall i :: 0 <= i < |rrs| ==> LowerRRs(rrs)[i] == rrs[i];
    } else {
      var i :| 0 <= i < |rrs| && !(IsLower(rrs[i].name) && LowerNames(rrs[i].data));
      assert LowerRRs(rrs)[i] != rrs[i];
    }
  }

  lemma LowerQuestionsFixed(qs: seq<Question>)
    ensures LowerQuestions(qs) == qs <==> forall i :: 0 <= i < |qs| ==> IsLower(qs[i].name)
  {
    forall i | 0 <= i < |qs| ensures LowerQuestions(qs)[i] == qs[i] <==> IsLower(qs[i].name) {
      LowerFixed(qs[i].name);
    }
    if !(forall i :: 0 <= i < |qs| ==> IsLower(qs[i].name)) {
      var i :| 0 <= i < |qs| && !IsLower(qs[i].name);
      assert LowerQuestions(qs)[i] != qs[i];
    }
  }

  lemma NormalFixed(m: Message)
    ensures Normal(m) == m <==> InNormalForm(m)
  {
    LowerQuestionsFixed(m.questions);
    LowerSectionFixed(m.answers);
    LowerSectionFixed(m.authority);
    LowerSectionFixed(m.additional);
  }

  lemma ReadDataTyped(rtype: u16, buf: bytes, base: nat, len: nat)
    requires base + len <= |buf| && ReadData(rtype, buf, base, len).Ok?
    ensures Typed(rtype, ReadData(rtype, buf, base, len).value)
  {
  }

  lemma {:induction false} ReadRRsTyped(buf: bytes, pos: nat, n: nat)
    requires ReadRRs(buf, pos, n).Ok?
    ensures AllTyped(ReadRRs(buf, pos, n).value.0)
    decreases n
  {
    hide ReadName, NameEnd, ReadData, Typed;
    if n > 0 {
      var p := NameEnd(buf, pos);
      ReadDataTyped(U16At(buf, p), buf, p + 10, U16At(buf, p + 8));
      ReadRRsTyped(buf, ReadRR(buf, pos).value.1, n - 1);
    }
  }

  /** Every decoded record carries the payload its type calls for. */
  lemma DecodedWellTyped(buf: bytes)
    requires DecodeMessage(buf).Ok?
    ensures WellTyped(DecodeMessage(buf).value)
  {
    hide ReadQuestions, ReadRRs, AllTyped;
    var q := ReadQuestions(buf, 12, U16At(buf, 4)).value;
    var a := ReadRRs(buf, q.1, U16At(buf, 6)).value;
    var n := ReadRRs(buf, a.1, U16At(buf, 8)).value;
    ReadRRsTyped(buf, q.1, U16At(buf, 6));
    ReadRRsTyped(buf, a.1, U16At(buf, 8));
    ReadRRsTyped(buf, n.1, U16At(buf, 10));
  }

  /** Decode inverts Encode on exactly the well-typed messages in normal form whose names need at
      most 32 pointers each. */
  lemma RoundTripExactly(m: Message)
    requires EncodeMessage(m).Ok?
    ensures DecodeMessage(EncodeMessage(m).value) == Ok(m) <==>
            WellTyped(m) && InNormalForm(m) && Nesting(m) <= MAX_HOPS
  {
    hide EncodeMessage, DecodeMessage, WellTyped, InNormalForm, Nesting, Normal;
    NormalFixed(m);
    if WellTyped(m) {
      MessageRoundTrip(m);
    } else if DecodeMessage(EncodeMessage(m).value) == Ok(m) {
      DecodedWellTyped(EncodeMessage(m).value);
    }
  }

  /** Names of at most 32 labels, or at most 33 names in all, keep every message decodable. */
  lemma SmallMessagesRoundTrip(m: Message)
    requires WellTyped(m) && EncodeMessage(m).Ok?
    requires MostLabels(BodyPieces(m)) <= MAX_HOPS || NameCount(BodyPieces(m)) <= MAX_HOPS + 1
    ensures DecodeMessage(EncodeMessage(m).value) == Ok(Normal(m))
  {
    MessageRoundTrip(m);
    HopCapSuffices(12, BodyPieces(m));
  }

  // ----- The bytes themselves -----

  /** The first name of a message is written out in full. */
  lemma FirstNameBytes(at: nat, name: bytes)
    requires Encodable(name)
    ensures EmitName(at, map[], name).Ok?
    ensures EmitName(at, map[], name).value.out == Literals(Labels(name)) + [0]
  {
    EncodableEmits(at, map[], name);
    GreedyLongestMatch(at, map[], Labels(name), |Labels(name)|);
    assert Labels(name)[..|Labels(name)|] == Labels(name);
  }

  /** The twelve header octets, bit by bit (section 4.1.1 of RFC 1035). */
  lemma HeaderOctets(m: Message)
    requires EncodeMessage(m).Ok?
    ensures var h := m.header;
            EncodeMessage(m).value[..12] ==
            [h.id / 0x100, h.id % 0x100,
             (if h.qr then 0x80 else 0) + h.opcode % 16 * 8 + (if h.aa then 4 else 0) + (if h.tc then 2 else 0)
             + (if h.rd then 1 else 0),
             (if h.ra then 0x80 else 0) + h.rcode % 16,
             |m.questions| / 0x100, |m.questions| % 0x100, |m.answers| / 0x100, |m.answers| % 0x100,
             |m.authority| / 0x100, |m.authority| % 0x100, |m.additional| / 0x100, |m.additional| % 0x100]
  {
    hide Emit, BodyPieces;
    FlagOctets(m.header);
    assert EncodeMessage(m).value[..12] == HeaderBytes(m);
  }

  lemma TrailingDotNotEncodable(name: bytes)
    requires HasSuffix(name, [DOT])
    ensures !Encodable(name)
  {
    var stem := name[..|name| - 1];
    assert name == stem + [DOT] + [];
    SplitConcat(stem, [], DOT);
    var labels := Labels(name);
    assert labels[|labels| - 1] == [];
  }

  lemma TrailingDot(name: bytes)
    requires Encodable(name)
    ensures !HasSuffix(name, [DOT]) && TrimSuffix(name + [DOT], [DOT]) == name
  {
    if HasSuffix(name, [DOT]) {
      TrailingDotNotEncodable(name);
      assert false;
    }
  }

  /** A query on the wire, octet for octet (section 4.1 of RFC 1035): ID, RD alone among the flags,
      one question, the name's labels in lowercase, type and class IN. A trailing dot makes no
      difference. */
  lemma QueryBytes(id: u16, name: bytes, qtype: u16)
    requires Encodable(name)
    ensures LabelsOk(Labels(Lower(name)))
    ensures var octets := U16(id) + [1, 0, 0, 1, 0, 0, 0, 0, 0, 0] + (Literals(Labels(Lower(name))) + [0])
                          + U16(qtype) + [0, 1];
            && EncodeMessage(NewQuery(id, name, qtype)) == Ok(octets)
            && EncodeMessage(NewQuery(id, name + [DOT], qtype)) == Ok(octets)
  {
    hide HasSuffix, TrimSuffix, Lower, EncodeMessage, Literals, Labels, NameOf, WireLen, LabelsOk;
    TrailingDot(name);
    NoTrim(name);
    LowerEncodable(name);
    LowerQueryBytes(id, Lower(name), qtype);
    assert NewQuery(id, name, qtype) == NewQuery(id, name + [DOT], qtype) == QueryFor(id, Lower(name), qtype);
  }

  lemma NoTrim(name: bytes)
    requires !HasSuffix(name, [DOT])
    ensures TrimSuffix(name, [DOT]) == name
  {
  }

  function QueryFor(id: u16, name: bytes, qtype: u16): Message {
    Message(Header(id, false, OPCODE_QUERY, false, false, true, false, NOERROR),
            [Question(name, qtype, CLASS_INET)], [], [], [])
  }

  lemma LowerQueryBytes(id: u16, name: bytes, qtype: u16)
    requires Encodable(name)
    ensures LabelsOk(Labels(name))
    ensures EncodeMessage(QueryFor(id, name, qtype)) ==
            Ok(U16(id) + [1, 0, 0, 1, 0, 0, 0, 0, 0, 0] + (Literals(Labels(name)) + [0]) + U16(qtype) + [0, 1])
  {
    hide Labels, EmitName, Literals, HeaderBytes, Emit, QuestionPieces;
    var m, q := QueryFor(id, name, qtype), Question(name, qtype, CLASS_INET);
    assert m.questions == [q];
    QueryHeaderBytes(m);
    OneQuestionBody(m, q);
    QuestionBytes(12, q);
    assert U16(CLASS_INET) == [0, 1];
    var head, first := U16(id) + [1, 0, 0, 1, 0, 0, 0, 0, 0, 0], Literals(Labels(name)) + [0];
    assert head + (first + (U16(qtype) + [0, 1])) == head + first + U16(qtype) + [0, 1];
  }

  lemma QueryHeaderBytes(m: Message)
    requires m.header == Header(m.header.id, false, OPCODE_QUERY, false, false, true, false, NOERROR)
    requires |m.questions| == 1 && m.answers == [] && m.authority == [] && m.additional == []
    ensures HeaderBytes(m) == U16(m.header.id) + [1, 0, 0, 1, 0, 0, 0, 0, 0, 0]
  {
    assert FlagWord(m.header) == 0x100;
    assert U16(0x100) == [1, 0] && U16(1) == [0, 1] && U16(0) == [0, 0];
  }

  lemma OneQuestionBody(m: Message, q: Question)
    requires m.questions == [q] && m.answers == [] && m.authority == [] && m.additional == []
    ensures BodyPieces(m) == QuestionPieces(q)
  {
    hide QuestionPieces;
    var none: seq<Question> := [q][1..];
    assert none == [];
    assert QuestionsPieces([q]) == QuestionPieces(q) + QuestionsPieces(none) == QuestionPieces(q);
    assert SectionPieces(m.authority) + SectionPieces(m.additional) == [];
    assert SectionPieces(m.answers) + (SectionPieces(m.authority) + SectionPieces(m.additional)) == [];
  }

  lemma QuestionBytes(at: nat, q: Question)
    requires Encodable(q.name)
    ensures Emit(at, map[], QuestionPieces(q)).Ok?
    ensures Emit(at, map[], QuestionPieces(q)).value.out ==
            (Literals(Labels(q.name)) + [0]) + (U16(q.qtype) + U16(q.class_))
  {
    hide Encodable, Labels, EmitName, Literals;
    FirstNameBytes(at, q.name);
    var ps := QuestionPieces(q);
    assert ps[1..] == [ps[1]];
    var n := EmitName(at, map[], q.name).value;
    EmitOne(at + |n.out|, n.table, ps[1]);
  }

  // ----- The family that reaches the hop cap -----

  const LETTER_A: bytes := [97]

  /** The labels of "a.a. ... .a", `k` of them. */
  function Chain(k: nat): (labels: seq<bytes>)
    ensures |labels| == k && LabelsOk(labels)
    ensures WireLen(labels) == 2 * k
  {
    if k == 0 then [] else [LETTER_A] + Chain(k - 1)
  }

  function ChainName(k: nat): bytes { NameOf(Chain(k)) }

  lemma ChainNames(k: nat, n: nat)
    ensures Labels(ChainName(k)) == Chain(k)
    ensures ChainName(k) == ChainName(n) <==> k == n
  {
    NameRoundTrip(Chain(k));
    NameRoundTrip(Chain(n));
  }

  /** Questions for the chain names of `n + 1` up to `last` labels. */
  function ChainQuestions(n: nat, last: nat): (qs: seq<Question>)
    requires n <= last
    ensures |qs| == last - n
    decreases last - n
  {
    if n == last then []
    else [Question(ChainName(n + 1), TYPE_A, CLASS_INET)] + ChainQuestions(n + 1, last)
  }

  /** The chain names up to `n` labels are remembered, each one pointer deeper than the last. */
  ghost predicate ChainKnown(t: Table, n: nat) {
    forall k :: k > 0 ==>
      && (ChainName(k) in t <==> k <= n)
      && (k <= n ==> t[ChainName(k)].depth == k - 1)
  }

  lemma ChainTailKnown(at: nat, t: Table, n: nat)
    requires ChainKnown(t, n)
    ensures ChainDepth(t, Chain(n)) == n
    ensures WriteLabels(at, t, Chain(n)).table == t && |WriteLabels(at, t, Chain(n)).out| <= 2
  {
    assert n > 0 ==> ChainName(n) in t;
  }

  lemma ChainNameWritten(at: nat, t: Table, n: nat)
    requires ChainKnown(t, n) && at < POINTER_LIMIT
    ensures var labels := Chain(n + 1);
            && ChainDepth(t, labels) == n
            && WriteLabels(at, t, labels).table == t[ChainName(n + 1) := Entry(at, n)]
            && |WriteLabels(at, t, labels).out| <= 4
  {
    var labels := Chain(n + 1);
    ChainTailKnown(at + 2, t, n);
    assert ChainName(n + 1) !in t;
    WriteStep(at, t, labels);
    assert labels[1..] == Chain(n);
  }

  lemma ChainGrows(t: Table, n: nat, at: nat)
    requires ChainKnown(t, n)
    ensures ChainKnown(t[ChainName(n + 1) := Entry(at, n)], n + 1)
  {
    hide ChainName;
    forall k | k > 0 ensures ChainName(k) == ChainName(n + 1) <==> k == n + 1 {
      ChainNames(k, n + 1);
    }
  }

  lemma ChainQuestionEmits(at: nat, t: Table, n: nat)
    requires ChainKnown(t, n) && at < POINTER_LIMIT && n < 127
    ensures var q := QuestionPieces(Question(ChainName(n + 1), TYPE_A, CLASS_INET));
            && Emit(at, t, q).Ok?
            && Emit(at, t, q).value.deepest == n && ChainKnown(Emit(at, t, q).value.table, n + 1)
            && |Emit(at, t, q).value.out| <= 8
  {
    hide ChainKnown, ChainName, WriteLabels, ChainDepth, NameFault, Chain, Labels;
    var name := ChainName(n + 1);
    ChainNameWritten(at, t, n);
    ChainNames(n + 1, n + 1);
    ChainGrows(t, n, at);
    EncodableEmits(at, t, name);
    var e := EmitName(at, t, name).value;
    var ps := QuestionPieces(Question(name, TYPE_A, CLASS_INET));
    assert ps[1..] == [ps[1]];
    EmitOne(at + |e.out|, e.table, ps[1]);
  }

  lemma {:induction false} ChainEmits(at: nat, t: Table, n: nat, last: nat)
    requires ChainKnown(t, n) && n <= last <= 127 && at <= 12 + 8 * n
    ensures var e := Emit(at, t, QuestionsPieces(ChainQuestions(n, last)));
            e.Ok? && (n < last ==> e.value.deepest == last - 1)
    decreases last - n
  {
    hide Emit, QuestionPieces, ChainKnown, ChainName;
    if n == last {
      EmitNothing(at, t);
    } else {
      var qs := ChainQuestions(n, last);
      ChainQuestionEmits(at, t, n);
      var a := Emit(at, t, QuestionPieces(qs[0])).value;
      ChainEmits(at + |a.out|, a.table, n + 1, last);
      EmitNothing(at + |a.out|, a.table);
      assert qs[1..] == ChainQuestions(n + 1, last);
      EmitAppend(at, t, QuestionPieces(qs[0]), QuestionsPieces(qs[1..]));
    }
  }

  function ChainMessage(last: nat): Message {
    Message(HeaderOf(0, 0), ChainQuestions(0, last), [], [], [])
  }

  /** The encoder does not bound nesting: a message asking for "a", "a.a", up to `last` labels
      always encodes, and decodes again only up to 33 of them. */
  lemma HopCapReached(last: nat)
    requires 0 < last <= 127
    ensures EncodeMessage(ChainMessage(last)).Ok?
    ensures DecodeMessage(EncodeMessage(ChainMessage(last)).value) ==
            if last <= 33 then Ok(Normal(ChainMessage(last))) else Err(PointerLoop)
  {
    hide Emit, ChainKnown, HeaderBytes, DecodeMessage, HeaderOf, Normal;
    var m := ChainMessage(last);
    EmptyChain();
    ChainEmits(12, map[], 0, last);
    assert BodyPieces(m) == QuestionsPieces(m.questions);
    MessageRoundTrip(m);
  }

  lemma EmptyChain()
    ensures ChainKnown(map[], 0)
  {
  }

  // ----- Accounting -----

  lemma {:induction false} ReadRRsConsume(buf: bytes, pos: nat, n: nat)
    requires pos <= |buf| && ReadRRs(buf, pos, n).Ok?
    ensures |ReadRRs(buf, pos, n).value.0| == n
    ensures pos + 11 * n <= ReadRRs(buf, pos, n).value.1 <= |buf|
    decreases n
  {
    hide NameEnd, ReadData, ReadLabels;
    if n > 0 {
      NameEndBounds(buf, pos, 0, 0);
      ReadRRsConsume(buf, ReadRR(buf, pos).value.1, n - 1);
    }
  }

  lemma {:induction false} ReadQuestionsConsume(buf: bytes, pos: nat, n: nat)
    requires pos <= |buf| && ReadQuestions(buf, pos, n).Ok?
    ensures |ReadQuestions(buf, pos, n).value.0| == n
    ensures pos + 5 * n <= ReadQuestions(buf, pos, n).value.1 <= |buf|
    decreases n
  {
    hide NameEnd, ReadLabels;
    if n > 0 {
      NameEndBounds(buf, pos, 0, 0);
      ReadQuestionsConsume(buf, ReadQuestion(buf, pos).value.1, n - 1);
    }
  }

  /** The claimed counts are met in full and paid for in bytes: at least five for each question
      and eleven for each record. */
  lemma DecodeAccounting(buf: bytes)
    requires DecodeMessage(buf).Ok?
    ensures var m := DecodeMessage(buf).value;
            && |m.questions| == U16At(buf, 4) && |m.answers| == U16At(buf, 6)
            && |m.authority| == U16At(buf, 8) && |m.additional| == U16At(buf, 10)
            && 12 + 5 * |m.questions| + 11 * (|m.answers| + |m.authority| + |m.additional|) <= |buf|
  {
    hide ReadQuestions, ReadRRs;
    var q := ReadQuestions(buf, 12, U16At(buf, 4)).value;
    ReadQuestionsConsume(buf, 12, U16At(buf, 4));
    var a := ReadRRs(buf, q.1, U16At(buf, 6)).value;
    ReadRRsConsume(buf, q.1, U16At(buf, 6));
    var n := ReadRRs(buf, a.1, U16At(buf, 8)).value;
    ReadRRsConsume(buf, a.1, U16At(buf, 8));
    ReadRRsConsume(buf, n.1, U16At(buf, 10));
  }

  /** A compressed message is never longer than its uncompressed form. */
  lemma EncodedSize(m: Message)
    requires EncodeMessage(m).Ok?
    ensures 12 <= |EncodeMessage(m).value| <= 12 + FullSize(BodyPieces(m))
  {
    EmitNeverLonger(12, map[], BodyPieces(m));
  }
}
