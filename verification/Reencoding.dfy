/** The other direction: when a decoded message can be encoded again, and what is encoded at all. */
module Reencoding {
  import opened Bytes
  import opened Names
  import opened Emission
  import opened Messages
  import opened RoundTrip

  // ----- What encoding demands -----

  predicate DataWritable(d: RData) {
    match d
    case NoPayload => false
    case AData(addr) => addr.V4?
    case AAAAData(addr) => addr.V6? && !addr.Is4In6()
    case TXTData(strings) => strings != [] && TextsFit(strings)
    case NSData(host) => Encodable(host)
    case CNAMEData(target) => Encodable(target)
    case SOAData(mname, rname, _, _, _, _, _) => Encodable(mname) && Encodable(rname)
    case RawData(_) => true
  }

  predicate RRWritable(rr: RR) { Encodable(rr.name) && DataWritable(rr.data) }

  predicate AllWritable(rrs: seq<RR>) { forall i :: 0 <= i < |rrs| ==> RRWritable(rrs[i]) }

  predicate Askable(qs: seq<Question>) { forall i :: 0 <= i < |qs| ==> Encodable(qs[i].name) }

  predicate Writable(m: Message) {
    Askable(m.questions) && AllWritable(m.answers) && AllWritable(m.authority) && AllWritable(m.additional)
  }

  lemma OnePieceFaultless(p: Piece)
    ensures Faultless([p]) <==>
            match p
            case Plain(_) => true
            case Name(name) => Encodable(name)
            case Sized(body) => Faultless(body)
            case Refuse(_) => false
  {
    hide Encodable;
    var none: seq<Piece> := [p][1..];
    assert none == [];
  }

  lemma DataFaultless(d: RData)
    ensures Faultless(DataPieces(d)) <==> DataWritable(d)
  {
    hide Encodable, Faultless, TextsFit, TextBytes, SOATail;
    var ps := DataPieces(d);
    OnePieceFaultless(ps[0]);
    if d.SOAData? {
      FaultlessConcat([ps[0]], ps[1..]);
      FaultlessConcat([ps[1]], [ps[2]]);
      OnePieceFaultless(ps[1]);
      OnePieceFaultless(ps[2]);
      assert ps == [ps[0]] + ps[1..] && ps[1..] == [ps[1]] + [ps[2]];
    } else {
      assert ps == [ps[0]];
    }
  }

  lemma RRFaultless(rr: RR)
    ensures Faultless(RRPieces(rr)) <==> RRWritable(rr)
  {
    hide Encodable, Faultless, DataPieces;
    var ps := RRPieces(rr);
    OnePieceFaultless(ps[0]);
    if rr.data.NoPayload? {
      assert ps == [ps[0]];
    } else {
      FaultlessConcat([ps[0]], ps[1..]);
      FaultlessConcat([ps[1]], [ps[2]]);
      OnePieceFaultless(ps[1]);
      OnePieceFaultless(ps[2]);
      assert ps == [ps[0]] + ps[1..] && ps[1..] == [ps[1]] + [ps[2]];
      DataFaultless(rr.data);
    }
  }

  lemma {:induction false} SectionFaultless(rrs: seq<RR>)
    ensures Faultless(SectionPieces(rrs)) <==> AllWritable(rrs)
  {
    hide RRPieces, RRWritable;
    if rrs != [] {
      RRFaultless(rrs[0]);
      SectionFaultless(rrs[1..]);
      FaultlessConcat(RRPieces(rrs[0]), SectionPieces(rrs[1..]));
      assert rrs == [rrs[0]] + rrs[1..];
    }
  }

  lemma {:induction false} QuestionsFaultless(qs: seq<Question>)
    ensures Faultless(QuestionsPieces(qs)) <==> Askable(qs)
  {
    hide Encodable;
    if qs != [] {
      var ps := QuestionPieces(qs[0]);
      OnePieceFaultless(ps[0]);
      OnePieceFaultless(ps[1]);
      FaultlessConcat([ps[0]], [ps[1]]);
      assert ps == [ps[0]] + [ps[1]];
      QuestionsFaultless(qs[1..]);
      FaultlessConcat(ps, QuestionsPieces(qs[1..]));
      assert qs == [qs[0]] + qs[1..];
    }
  }

  lemma BodyFaultless(m: Message)
    ensures Faultless(BodyPieces(m)) <==> Writable(m)
  {
    hide Faultless, QuestionsPieces, SectionPieces, Askable, AllWritable;
    QuestionsFaultless(m.questions);
    SectionFaultless(m.answers);
    SectionFaultless(m.authority);
    SectionFaultless(m.additional);
    var third := SectionPieces(m.authority) + SectionPieces(m.additional);
    FaultlessConcat(SectionPieces(m.authority), SectionPieces(m.additional));
    FaultlessConcat(SectionPieces(m.answers), third);
    FaultlessConcat(QuestionsPieces(m.questions), SectionPieces(m.answers) + third);
  }

  /** What encodes at all has encodable names, addresses of the right family and texts that fit. */
  lemma EncodedIsWritable(m: Message)
    requires EncodeMessage(m).Ok?
    ensures CountsFit(m) && Writable(m)
  {
    hide Emit, Faultless, BodyPieces, Writable;
    EmittedIsFaultless(12, map[], BodyPieces(m));
    BodyFaultless(m);
  }

  // ----- Payloads that fit their length field -----

  predicate PayloadFits(d: RData) {
    match d
    case TXTData(strings) => TextsFit(strings) && |TextBytes(strings)| <= 0xFFFF
    case RawData(data) => |data| <= 0xFFFF
    case _ => true
  }

  predicate AllPayloadsFit(rrs: seq<RR>) { forall i :: 0 <= i < |rrs| ==> PayloadFits(rrs[i].data) }

  lemma DataEmittable(d: RData)
    requires DataWritable(d) && PayloadFits(d)
    ensures Emittable(DataPieces(d)) && FullSize(DataPieces(d)) <= 0xFFFF
  {
    hide Encodable, Emittable, FullSize, TextBytes, SOATail;
    var ps := DataPieces(d);
    match d {
      case SOAData(mname, rname, _, _, _, _, _) =>
        NameFits(mname);
        NameFits(rname);
        PlainFits(SOATail(d));
        PiecesConcat([Name(rname)], [Plain(SOATail(d))]);
        PiecesConcat([Name(mname)], [Name(rname)] + [Plain(SOATail(d))]);
        assert ps == [Name(mname)] + ([Name(rname)] + [Plain(SOATail(d))]);
      case NSData(host) => NameFits(host);
      case CNAMEData(target) => NameFits(target);
      case AData(addr) => PlainFits(addr.quad);
      case AAAAData(addr) => PlainFits(addr.octets);
      case TXTData(strings) => PlainFits(TextBytes(strings));
      case RawData(data) => PlainFits(data);
      case NoPayload =>
    }
  }

  lemma RREmittable(rr: RR)
    requires RRWritable(rr) && PayloadFits(rr.data)
    ensures Emittable(RRPieces(rr))
  {
    hide Emittable, FullSize, DataPieces, Encodable, DataWritable, PayloadFits;
    DataEmittable(rr.data);
    var fixed := U16(rr.rtype) + U16(rr.class_) + U32(rr.ttl);
    NameFits(rr.name);
    PlainFits(fixed);
    SizedFits(DataPieces(rr.data));
    assert !rr.data.NoPayload? by { PayloadPresent(rr.data); }
    PiecesConcat([Plain(fixed)], [Sized(DataPieces(rr.data))]);
    PiecesConcat([Name(rr.name)], [Plain(fixed)] + [Sized(DataPieces(rr.data))]);
    assert RRPieces(rr) == [Name(rr.name)] + ([Plain(fixed)] + [Sized(DataPieces(rr.data))]);
  }

  lemma PayloadPresent(d: RData)
    ensures DataWritable(d) ==> !d.NoPayload?
  {
  }

  lemma {:induction false} SectionEmittable(rrs: seq<RR>)
    requires AllWritable(rrs) && AllPayloadsFit(rrs)
    ensures Emittable(SectionPieces(rrs))
  {
    hide RRPieces, RRWritable, PayloadFits;
    if rrs != [] {
      RREmittable(rrs[0]);
      SectionEmittable(rrs[1..]);
      PiecesConcat(RRPieces(rrs[0]), SectionPieces(rrs[1..]));
    }
  }

  lemma {:induction false} QuestionsEmittable(qs: seq<Question>)
    requires Askable(qs)
    ensures Emittable(QuestionsPieces(qs))
  {
    hide Encodable;
    if qs != [] {
      var words := U16(qs[0].qtype) + U16(qs[0].class_);
      NameFits(qs[0].name);
      PlainFits(words);
      PiecesConcat([Name(qs[0].name)], [Plain(words)]);
      assert QuestionPieces(qs[0]) == [Name(qs[0].name)] + [Plain(words)];
      QuestionsEmittable(qs[1..]);
      PiecesConcat(QuestionPieces(qs[0]), QuestionsPieces(qs[1..]));
    }
  }

  predicate PayloadsFit(m: Message) {
    AllPayloadsFit(m.answers) && AllPayloadsFit(m.authority) && AllPayloadsFit(m.additional)
  }

  lemma WritableEncodes(m: Message)
    requires CountsFit(m) && Writable(m) && PayloadsFit(m)
    ensures EncodeMessage(m).Ok?
  {
    hide Emit, Emittable, QuestionsPieces, SectionPieces, Askable, AllWritable, AllPayloadsFit, HeaderBytes;
    QuestionsEmittable(m.questions);
    SectionEmittable(m.answers);
    SectionEmittable(m.authority);
    SectionEmittable(m.additional);
    var third := SectionPieces(m.authority) + SectionPieces(m.additional);
    PiecesConcat(SectionPieces(m.authority), SectionPieces(m.additional));
    PiecesConcat(SectionPieces(m.answers), third);
    PiecesConcat(QuestionsPieces(m.questions), SectionPieces(m.answers) + third);
    EmittableSucceeds(12, map[], BodyPieces(m));
  }

  /** Every payload made of plain bytes alone fits a length field. */
  predicate BodiesFit(ps: seq<Piece>) {
    forall i :: 0 <= i < |ps| && ps[i].Sized? ==> BodyFits(ps[i].body)
  }

  predicate BodyFits(body: seq<Piece>) { |body| == 1 && body[0].Plain? ==> |body[0].data| <= 0xFFFF }

  lemma {:induction false} EmittedBodiesFit(at: nat, t: Table, ps: seq<Piece>)
    requires Emit(at, t, ps).Ok?
    ensures BodiesFit(ps)
    decreases |ps|
  {
    hide EmitName;
    if ps != [] {
      var a := EmitPiece(at, t, ps[0]).value;
      EmittedBodiesFit(at + |a.out|, a.table, ps[1..]);
      if ps[0].Sized? && |ps[0].body| == 1 && ps[0].body[0].Plain? {
        assert ps[0].body == [ps[0].body[0]];
        EmitOne(at + 2, t, ps[0].body[0]);
      }
      assert ps == [ps[0]] + ps[1..];
    }
  }

  lemma {:induction false} SectionBodies(rrs: seq<RR>)
    requires BodiesFit(SectionPieces(rrs)) && AllWritable(rrs)
    ensures AllPayloadsFit(rrs)
  {
    hide BodyFits, Encodable, TextBytes, TextsFit, SOATail;
    if rrs != [] {
      var ps, rest := RRPieces(rrs[0]), SectionPieces(rrs[1..]);
      assert RRWritable(rrs[0]);
      assert forall i :: 0 <= i < |rest| ==> rest[i] == (ps + rest)[|ps| + i];
      SectionBodies(rrs[1..]);
      assert ps[2] == (ps + rest)[2] && BodyFits(DataPieces(rrs[0].data));
      PayloadOfBody(rrs[0].data);
      assert rrs == [rrs[0]] + rrs[1..];
    }
  }

  lemma PayloadOfBody(d: RData)
    requires DataWritable(d) && BodyFits(DataPieces(d))
    ensures PayloadFits(d)
  {
    hide Encodable, TextBytes, TextsFit;
  }

  lemma BodiesFitParts(ps: seq<Piece>, qs: seq<Piece>)
    requires BodiesFit(ps + qs)
    ensures BodiesFit(ps) && BodiesFit(qs)
  {
    hide BodyFits;
    assert forall i :: 0 <= i < |ps| ==> ps[i] == (ps + qs)[i];
    assert forall i :: 0 <= i < |qs| ==> qs[i] == (ps + qs)[|ps| + i];
  }

  /** Exactly which messages encode: at most 65535 entries in each section, encodable names
      throughout, addresses of their record's family, texts of at most 255 octets and at least one,
      and payloads of at most 65535 octets. */
  lemma EncodesExactly(m: Message)
    ensures EncodeMessage(m).Ok? <==> CountsFit(m) && Writable(m) && PayloadsFit(m)
  {
    hide Emit, BodiesFit, QuestionsPieces, SectionPieces, Askable, AllWritable, AllPayloadsFit, HeaderBytes;
    if EncodeMessage(m).Ok? {
      EncodedIsWritable(m);
      EmittedBodiesFit(12, map[], BodyPieces(m));
      var third := SectionPieces(m.authority) + SectionPieces(m.additional);
      BodiesFitParts(QuestionsPieces(m.questions), SectionPieces(m.answers) + third);
      BodiesFitParts(SectionPieces(m.answers), third);
      BodiesFitParts(SectionPieces(m.authority), SectionPieces(m.additional));
      SectionBodies(m.answers);
      SectionBodies(m.authority);
      SectionBodies(m.additional);
    }
    if CountsFit(m) && Writable(m) && PayloadsFit(m) {
      WritableEncodes(m);
    }
  }

  // ----- What decoding delivers -----

  lemma TextBytesCons(first: bytes, rest: seq<bytes>)
    requires |first| <= 255 && TextsFit(rest)
    ensures TextsFit([first] + rest) && TextBytes([first] + rest) == [|first|] + first + TextBytes(rest)
  {
    assert ([first] + rest)[1..] == rest;
  }

  lemma {:induction false} ReadTextsBack(data: bytes)
    requires ReadTexts(data).Ok?
    ensures TextsFit(ReadTexts(data).value) && TextBytes(ReadTexts(data).value) == data
  {
    hide TextBytes, TextsFit;
    if data == [] {
      NoTexts();
    } else {
      var n := data[0] as int + 1;
      ReadTextsBack(data[n..]);
      TextBytesCons(data[1..n], ReadTexts(data[n..]).value);
      assert data == [data[0]] + data[1..n] + data[n..];
    }
  }

  lemma NoTexts()
    ensures TextsFit([]) && TextBytes([]) == []
  {
  }

  /** A decoded record: its type's payload, short enough for a length field, names in lowercase. */
  predicate Decoded(rr: RR) {
    Typed(rr.rtype, rr.data) && PayloadFits(rr.data) && IsLower(rr.name) && LowerNames(rr.data)
  }

  predicate AllDecoded(rrs: seq<RR>) { forall i :: 0 <= i < |rrs| ==> Decoded(rrs[i]) }

  lemma ReadNameLower(buf: bytes, pos: nat)
    ensures ReadName(buf, pos).Ok? ==> IsLower(ReadName(buf, pos).value)
  {
    hide ReadLabels;
    if ReadLabels(buf, pos, 0, 0).Ok? {
      LowerFixed(NameOf(ReadLabels(buf, pos, 0, 0).value));
    }
  }

  lemma ReadDataDecoded(rtype: u16, buf: bytes, base: nat, len: nat)
    requires base + len <= |buf| && len <= 0xFFFF && ReadData(rtype, buf, base, len).Ok?
    ensures var d := ReadData(rtype, buf, base, len).value; Typed(rtype, d) && PayloadFits(d) && LowerNames(d)
  {
    hide ReadName, NameEnd, ReadTexts, IsLower, TextBytes;
    ReadDataTyped(rtype, buf, base, len);
    ReadNameLower(buf, base);
    ReadNameLower(buf, NameEnd(buf, base));
    if rtype == TYPE_TXT {
      ReadTextsBack(buf[base..base + len]);
    }
  }

  lemma {:induction false} ReadRRsDecoded(buf: bytes, pos: nat, n: nat)
    requires ReadRRs(buf, pos, n).Ok?
    ensures AllDecoded(ReadRRs(buf, pos, n).value.0)
    decreases n
  {
    hide ReadName, NameEnd, ReadData, Typed, PayloadFits, LowerNames;
    if n > 0 {
      var p := NameEnd(buf, pos);
      ReadNameLower(buf, pos);
      ReadDataDecoded(U16At(buf, p), buf, p + 10, U16At(buf, p + 8));
      ReadRRsDecoded(buf, ReadRR(buf, pos).value.1, n - 1);
    }
  }

  lemma {:induction false} QuestionsAreLower(buf: bytes, pos: nat, n: nat)
    requires ReadQuestions(buf, pos, n).Ok?
    ensures forall i :: 0 <= i < |ReadQuestions(buf, pos, n).value.0| ==>
              IsLower(ReadQuestions(buf, pos, n).value.0[i].name)
    decreases n
  {
    hide ReadName, NameEnd;
    if n > 0 {
      ReadNameLower(buf, pos);
      QuestionsAreLower(buf, ReadQuestion(buf, pos).value.1, n - 1);
    }
  }

  predicate DecodedMessage(m: Message) {
    && m.header.opcode < 16 && m.header.rcode < 16
    && (forall i :: 0 <= i < |m.questions| ==> IsLower(m.questions[i].name))
    && AllDecoded(m.answers) && AllDecoded(m.authority) && AllDecoded(m.additional)
  }

  lemma DecodeDelivers(buf: bytes)
    requires DecodeMessage(buf).Ok?
    ensures DecodedMessage(DecodeMessage(buf).value)
  {
    hide ReadQuestions, ReadRRs, AllDecoded, IsLower;
    QuestionsAreLower(buf, 12, U16At(buf, 4));
    var q := ReadQuestions(buf, 12, U16At(buf, 4)).value;
    var a := ReadRRs(buf, q.1, U16At(buf, 6)).value;
    var n := ReadRRs(buf, a.1, U16At(buf, 8)).value;
    ReadRRsDecoded(buf, q.1, U16At(buf, 6));
    ReadRRsDecoded(buf, a.1, U16At(buf, 8));
    ReadRRsDecoded(buf, n.1, U16At(buf, 10));
  }

  // ----- Going back on the wire -----

  /** What can stop a decoded record: a name beyond the encoder's limits, or an AAAA payload that is
      a mapped IPv4 address. */
  predicate GoesBack(rr: RR) {
    && Encodable(rr.name)
    && match rr.data
       case AAAAData(addr) => !addr.Is4In6()
       case NSData(host) => Encodable(host)
       case CNAMEData(target) => Encodable(target)
       case SOAData(mname, rname, _, _, _, _, _) => Encodable(mname) && Encodable(rname)
       case _ => true
  }

  predicate AllGoBack(rrs: seq<RR>) { forall i :: 0 <= i < |rrs| ==> GoesBack(rrs[i]) }

  lemma DecodedSection(rrs: seq<RR>)
    requires AllDecoded(rrs)
    ensures AllWritable(rrs) <==> AllGoBack(rrs)
    ensures AllPayloadsFit(rrs) && AllTyped(rrs) && LowerSection(rrs)
  {
    hide Encodable, TextBytes, TextsFit, IsLower, LowerNames;
    forall i | 0 <= i < |rrs| ensures RRWritable(rrs[i]) <==> GoesBack(rrs[i]) {
      assert Decoded(rrs[i]);
    }
  }

  /** A decoded message encodes again exactly when every name in it keeps the encoder's limits and
      no AAAA record holds a mapped IPv4 address. What it then encodes to decodes to itself, unless
      its names now nest more than 32 pointers. */
  lemma DecodedEncodesAgain(buf: bytes)
    requires DecodeMessage(buf).Ok?
    ensures var m := DecodeMessage(buf).value;
            && (EncodeMessage(m).Ok? <==>
                  Askable(m.questions) && AllGoBack(m.answers) && AllGoBack(m.authority) && AllGoBack(m.additional))
            && (EncodeMessage(m).Ok? ==>
                  DecodeMessage(EncodeMessage(m).value) == if Nesting(m) <= MAX_HOPS then Ok(m) else Err(PointerLoop))
  {
    hide EncodeMessage, DecodeMessage, Nesting, Normal, Askable, AllWritable, AllGoBack, AllDecoded, AllTyped,
         AllPayloadsFit, LowerSection;
    var m := DecodeMessage(buf).value;
    DecodeAccounting(buf);
    DecodeDelivers(buf);
    DecodedSection(m.answers);
    DecodedSection(m.authority);
    DecodedSection(m.additional);
    if Writable(m) {
      WritableEncodes(m);
    }
    if EncodeMessage(m).Ok? {
      EncodedIsWritable(m);
      NormalFixed(m);
      MessageRoundTrip(m);
    }
  }

  /** Twelve header octets announcing one answer, and an AAAA record at the root with a mapped
      address in it. */
  function MappedAnswer(q: quad): bytes {
    [0, 0, 0, 0, 0, 0, 0, 1, 0, 0, 0, 0] + [0, 0, 28, 0, 1, 0, 0, 0, 0, 0, 16] + MAPPED + q
  }

  lemma OneRecord(buf: bytes, rr: RR, end: nat)
    requires ReadRR(buf, 12) == Ok((rr, end))
    ensures ReadRRs(buf, 12, 1) == Ok(([rr], end))
  {
    hide ReadRR;
    var rest := ReadRRs(buf, end, 0);
    assert rest == Ok(([], end));
    assert [rr] + rest.value.0 == [rr];
  }

  lemma MappedRecordReads(q: quad)
    ensures ReadRR(MappedAnswer(q), 12) == Ok((RR([], TYPE_AAAA, CLASS_INET, 0, AAAAData(V6(MAPPED + q))), 39))
  {
    var buf := MappedAnswer(q);
    assert buf[23..39] == MAPPED + q;
    assert ReadName(buf, 12) == Ok([]) && NameEnd(buf, 12) == 13;
  }

  /** The boundary is real: such a message decodes and cannot be encoded. */
  lemma MappedDecodesOnly(q: quad)
    ensures DecodeMessage(MappedAnswer(q)).Ok?
    ensures EncodeMessage(DecodeMessage(MappedAnswer(q)).value).Err?
  {
    hide EncodeMessage, HeaderOf, ReadRR;
    var buf := MappedAnswer(q);
    var rr := RR([], TYPE_AAAA, CLASS_INET, 0, AAAAData(V6(MAPPED + q)));
    MappedRecordReads(q);
    OneRecord(buf, rr, 39);
    assert (MAPPED + q)[..12] == MAPPED;
    assert DecodeMessage(buf).value.answers == [rr] && !GoesBack(rr);
    DecodedEncodesAgain(buf);
  }
}
