/** The request-to-response transform of internal/server/server.go, byte for byte, and the frame
    a response travels in over TCP. */
module Server {
  import opened Bytes
  import opened Names
  import opened Emission
  import opened Messages
  import opened RoundTrip
  import opened Zone
  import opened StoreRuns
  import opened Resolver
  import opened Answers
  import opened Reencoding
  import Codec

  const MAX_UDP := 512

  function ErrorMessage(id: u16, rcode: byte): Message {
    Message(Header(id, true, OPCODE_QUERY, false, false, false, false, rcode), [], [], [], [])
  }

  /** The reply to a decoded query, before any truncation. */
  function Reply(c: Config, st: State, m: Message): Message {
    var h := Header(m.header.id, true, m.header.opcode, true, false, m.header.rd, false, NOERROR);
    if m.header.opcode != OPCODE_QUERY then Message(h.(rcode := NOTIMP), [], [], [], [])
    else if |m.questions| != 1 then Message(h.(rcode := FORMERR), [], [], [], [])
    else
      var v := Resolve(c, st, m.questions[0]);
      Message(h.(rcode := v.rcode), m.questions, v.answers, v.authority, [])
  }

  function Truncated(m: Message): Message {
    m.(header := m.header.(tc := true), answers := [], authority := [], additional := [])
  }

  lemma EmptyMessageEncodes(m: Message)
    requires m.questions == [] && m.answers == [] && m.authority == [] && m.additional == []
    ensures EncodeMessage(m) == Ok(HeaderBytes(m))
  {
    EmitNothing(12, map[]);
    assert BodyPieces(m) == [];
    assert HeaderBytes(m) + [] == HeaderBytes(m);
  }

  /** An error reply on the wire: ID, QR, the code, and four empty counts. */
  lemma ErrorBytes(id: u16, rcode: byte)
    requires rcode < 16
    ensures EncodeMessage(ErrorMessage(id, rcode)) == Ok(U16(id) + [0x80, rcode, 0, 0, 0, 0, 0, 0, 0, 0])
  {
    EmptyMessageEncodes(ErrorMessage(id, rcode));
    var word: u16 := 0x8000 + rcode;
    assert FlagWord(ErrorMessage(id, rcode).header) == word;
    assert U16(word) == [0x80, rcode] && U16(0) == [0, 0];
    assert HeaderBytes(ErrorMessage(id, rcode)) == U16(id) + [0x80, rcode, 0, 0, 0, 0, 0, 0, 0, 0];
  }

  /** mustEncode: what cannot be encoded becomes a bare SERVFAIL. */
  function MustEncode(m: Message): bytes {
    match EncodeMessage(m)
    case Ok(out) => out
    case Err(_) => HeaderBytes(ErrorMessage(m.header.id, SERVFAIL))
  }

  /** HandleQuery; None is a dropped request. */
  function Respond(c: Config, st: State, req: bytes, udpLimit: int): Option<bytes> {
    if |req| < 12 then None
    else
      match DecodeMessage(req)
      case Err(_) => Some(MustEncode(ErrorMessage(U16At(req, 0), FORMERR)))
      case Ok(m) =>
        if m.header.qr then None
        else
          var full := MustEncode(Reply(c, st, m));
          Some(if udpLimit > 0 && |full| > udpLimit then MustEncode(Truncated(Reply(c, st, m))) else full)
  }

  method Must(m: Message) returns (out: bytes)
    ensures out == MustEncode(m)
  {
    var r := Codec.Encode(m);
    if r.Err? {
      EmptyMessageEncodes(ErrorMessage(m.header.id, SERVFAIL));
      r := Codec.Encode(ErrorMessage(m.header.id, SERVFAIL));
    }
    return r.value;
  }

  class QueryServer {
    const resolver: ZoneResolver

    constructor (resolver: ZoneResolver)
      ensures this.resolver == resolver
    {
      this.resolver := resolver;
    }

    method HandleQuery(req: bytes, udpLimit: int) returns (out: Option<bytes>)
      ensures out == Respond(resolver.cfg, resolver.store.Now(), req, udpLimit)
    {
      if |req| < 12 {
        return None;
      }
      hide EncodeMessage, DecodeMessage, Resolve, MustEncode;
      var msg := Codec.Decode(req);
      if msg.Err? {
        var id := req[0] as int * 0x100 + req[1];
        var o := Must(ErrorMessage(id, FORMERR));
        return Some(o);
      }
      var m := msg.value;
      var resp := Message(Header(m.header.id, true, m.header.opcode, true, false, m.header.rd, false, NOERROR),
                          [], [], [], []);
      if m.header.qr {
        return None;
      } else if m.header.opcode != OPCODE_QUERY {
        resp := resp.(header := resp.header.(rcode := NOTIMP));
      } else if |m.questions| != 1 {
        resp := resp.(header := resp.header.(rcode := FORMERR));
      } else {
        resp := resp.(questions := m.questions);
        var v := resolver.ResolveQuestion(m.questions[0]);
        resp := resp.(header := resp.header.(rcode := v.rcode), answers := v.answers, authority := v.authority);
      }
      assert resp == Reply(resolver.cfg, resolver.store.Now(), m);
      var full := Must(resp);
      if udpLimit > 0 && |full| > udpLimit {
        resp := resp.(answers := [], authority := [], additional := []);
        resp := resp.(header := resp.header.(tc := true));
        full := Must(resp);
      }
      return Some(full);
    }
  }

  // ----- Every response -----

  lemma MustEncodeHead(m: Message)
    requires m.header.qr
    ensures |MustEncode(m)| >= 12 && MustEncode(m)[..2] == U16(m.header.id) && MustEncode(m)[2] >= 0x80
  {
    hide UpperFlags, EncodeBody;
    var f := if EncodeMessage(m).Ok? then m else ErrorMessage(m.header.id, SERVFAIL);
    assert MustEncode(m)[..12] == HeaderBytes(f);
    assert HeaderBytes(f)[..2] == U16(m.header.id);
    QRBit(f.header);
    assert HeaderBytes(f)[2] == FlagWord(f.header) / 0x100;
  }

  lemma QRBit(h: Header)
    ensures FlagWord(h) / 0x8000 == 1 <==> h.qr
    ensures h.qr ==> FlagWord(h) / 0x100 >= 0x80
  {
  }

  /** A request is dropped exactly when it is shorter than a header or decodes as a response;
      anything else, malformed or not, gets at least a header back, with its own ID and QR set. */
  lemma ResponseDiscipline(c: Config, st: State, req: bytes, udpLimit: int)
    ensures Respond(c, st, req, udpLimit).None? <==>
            |req| < 12 || (DecodeMessage(req).Ok? && DecodeMessage(req).value.header.qr)
    ensures Respond(c, st, req, udpLimit).Some? ==>
              var out := Respond(c, st, req, udpLimit).value;
              |out| >= 12 && out[..2] == req[..2] && out[2] >= 0x80
  {
    hide MustEncode, ReadQuestions, ReadRRs, Resolve;
    if |req| >= 12 {
      assert req[..2] == U16(U16At(req, 0));
      match DecodeMessage(req) {
        case Err(_) => MustEncodeHead(ErrorMessage(U16At(req, 0), FORMERR));
        case Ok(m) =>
          MustEncodeHead(Reply(c, st, m));
          MustEncodeHead(Truncated(Reply(c, st, m)));
      }
    }
  }

  // ----- Size on UDP -----

  lemma OneQuestionSize(q: Question)
    requires Emit(12, map[], QuestionsPieces([q])).Ok?
    ensures Encodable(q.name)
    ensures |Emit(12, map[], QuestionsPieces([q])).value.out| <= MAX_WIRE + 4
  {
    hide Encodable;
    assert [q][1..] == [];
    assert QuestionsPieces([q])[0] == Name(q.name);
    EncodableEmits(12, map[], q.name);
    QuestionFits(q);
    EmitNeverLonger(12, map[], QuestionsPieces([q]));
  }

  lemma TruncatedSize(m: Message)
    requires |m.questions| <= 1
    ensures |MustEncode(Truncated(m))| <= 12 + MAX_WIRE + 4
  {
    hide HeaderBytes, QuestionsPieces, BodyPieces;
    var t := Truncated(m);
    BodyIsQuestions(t);
    if m.questions == [] {
      EmptyMessageEncodes(t);
    } else if EncodeMessage(t).Ok? {
      assert m.questions == [m.questions[0]];
      OneQuestionSize(m.questions[0]);
    }
  }

  lemma ReplyQuestions(c: Config, st: State, m: Message)
    ensures |Reply(c, st, m).questions| <= 1
  {
  }

  /** With a limit set, no response is longer than the limit or a bare question, so UDP
      responses stay within the 512 octets of section 4.2.1 of RFC 1035. */
  lemma UdpSizeBound(c: Config, st: State, req: bytes, udpLimit: int)
    requires udpLimit > 0 && Respond(c, st, req, udpLimit).Some?
    ensures |Respond(c, st, req, udpLimit).value| <= (if udpLimit > 271 then udpLimit else 271)
    ensures udpLimit == MAX_UDP ==> |Respond(c, st, req, udpLimit).value| <= MAX_UDP
  {
    hide MustEncode, ReadSections, Resolve, Reply;
    match DecodeMessage(req)
    case Err(_) => ErrorSize(U16At(req, 0), FORMERR);
    case Ok(m) =>
      ReplyQuestions(c, st, m);
      TruncatedSize(Reply(c, st, m));
  }

  lemma ErrorSize(id: u16, rcode: byte)
    ensures |MustEncode(ErrorMessage(id, rcode))| == 12
  {
    EmptyMessageEncodes(ErrorMessage(id, rcode));
  }

  // ----- The size of one answer -----

  lemma {:induction false} LiteralsLength(labels: seq<bytes>)
    requires LabelsOk(labels)
    ensures |Literals(labels)| == WireLen(labels)
  {
    if labels != [] {
      LiteralsLength(labels[1..]);
    }
  }

  /** A name written for the first time is spelled out; written again, it is a pointer. */
  lemma NameTwice(at: nat, again: nat, name: bytes)
    requires Encodable(name) && name != [] && at < POINTER_LIMIT
    ensures EmitName(at, map[], name).Ok?
    ensures var first := EmitName(at, map[], name).value;
            && first.out == Literals(Labels(name)) + [0] && |first.out| == |name| + 2
            && EmitName(again, first.table, name).Ok? && EmitName(again, first.table, name).value.out == Pointer(at)
  {
    hide Literals, WireLen, NameOf, NameFault, ChainDepth, Encodable, Pointer;
    var labels := Labels(name);
    FirstNameBytes(at, name);
    assert LabelsOk(labels) by { EncodableLabels(name); }
    LiteralsLength(labels);
    WireLenOfName(labels);
    LabelsRoundTrip(name);
    WriteStep(at, map[], labels);
    EncodableEmits(again, EmitName(at, map[], name).value.table, name);
  }

  lemma EncodableLabels(name: bytes)
    requires Encodable(name)
    ensures LabelsOk(Labels(name))
  {
  }

  lemma EmitCons(at: nat, t: Table, p: Piece, ps: seq<Piece>)
    requires EmitPiece(at, t, p).Ok?
    ensures var a := EmitPiece(at, t, p).value;
            var rest := Emit(at + |a.out|, a.table, ps);
            Emit(at, t, [p] + ps) == if rest.Ok? then Ok(a.Then(rest.value)) else rest
  {
    hide EmitPiece, Emitted.Then;
    assert ([p] + ps)[0] == p && ([p] + ps)[1..] == ps;
  }

  lemma OneAnswerPieces(at: nat, q: Question, rr: RR, data: bytes)
    requires rr.name == q.name && q.name != [] && Encodable(q.name) && at < POINTER_LIMIT
    requires DataPieces(rr.data) == [Plain(data)] && !rr.data.NoPayload? && |data| <= 0xFFFF
    ensures var e := Emit(at, map[], QuestionPieces(q) + RRPieces(rr));
            e.Ok? && e.value.out == (Literals(Labels(q.name)) + [0]) + ((U16(q.qtype) + U16(q.class_)) + (Pointer(at)
                                    + ((U16(rr.rtype) + U16(rr.class_) + U32(rr.ttl)) + (U16(|data|) + data))))
  {
    hide Emit, EmitName, Encodable, U16, U32, Literals, Labels, Pointer;
    var words, fixed := U16(q.qtype) + U16(q.class_), U16(rr.rtype) + U16(rr.class_) + U32(rr.ttl);
    var n := |q.name|;
    NameTwice(at, at + n + 6, q.name);
    var first := EmitName(at, map[], q.name).value;
    var again := EmitName(at + n + 6, first.table, q.name).value;
    var sized, plain: seq<Piece> := [Sized([Plain(data)])], [Plain(fixed)];
    EmitOne(at + n + 18, again.table, Plain(data));
    EmitOne(at + n + 16, again.table, sized[0]);
    EmitCons(at + n + 8, again.table, Plain(fixed), sized);
    EmitCons(at + n + 6, first.table, Name(q.name), plain + sized);
    EmitCons(at + n + 2, first.table, Plain(words), [Name(q.name)] + (plain + sized));
    EmitCons(at, map[], Name(q.name), [Plain(words)] + ([Name(q.name)] + (plain + sized)));
    assert QuestionPieces(q) + RRPieces(rr) ==
           [Name(q.name)] + ([Plain(words)] + ([Name(q.name)] + (plain + sized)));
  }

  predicate OneAnswer(m: Message, q: Question, rr: RR, data: bytes) {
    && m.questions == [q] && m.answers == [rr] && m.authority == [] && m.additional == []
    && rr.name == q.name && q.name != [] && Encodable(q.name)
    && DataPieces(rr.data) == [Plain(data)] && !rr.data.NoPayload? && |data| <= 0xFFFF
  }

  /** Two and four octets, most significant first. */
  function TwoOctets(w: u16): bytes { [w / 0x100, w % 0x100] }

  function FourOctets(w: u32): bytes { [w / 0x100_0000, w / 0x1_0000 % 0x100, w / 0x100 % 0x100, w % 0x100] }

  lemma OctetsOfWords(a: u16, b: u32)
    ensures U16(a) == TwoOctets(a) && U32(b) == FourOctets(b)
  {
    assert b / 0x1_0000 / 0x100 == b / 0x100_0000 && b % 0x1_0000 / 0x100 == b / 0x100 % 0x100;
  }

  /** A reply with one answer to its question, octet for octet behind the header: the name spelled
      out, type and class; a pointer to offset 12, type, class, TTL, length and payload. */
  lemma OneAnswerOctets(m: Message, q: Question, rr: RR, data: bytes)
    requires OneAnswer(m, q, rr, data)
    ensures EncodeMessage(m).Ok?
    ensures EncodeMessage(m).value[12..] ==
            (Literals(Labels(q.name)) + [0]) + ((TwoOctets(q.qtype) + TwoOctets(q.class_)) + ([0xC0, 12]
            + ((TwoOctets(rr.rtype) + TwoOctets(rr.class_) + FourOctets(rr.ttl)) + (TwoOctets(|data|) + data))))
  {
    hide Emit, HeaderBytes, QuestionPieces, RRPieces, DataPieces, Encodable, U16, U32, TwoOctets, FourOctets, Literals,
         Labels, Pointer;
    OneAnswerPieces(12, q, rr, data);
    OneAnswerBody(m, q, rr);
    PointerForm(12);
    OctetsOfWords(q.qtype, rr.ttl);
    OctetsOfWords(q.class_, rr.ttl);
    OctetsOfWords(rr.rtype, rr.ttl);
    OctetsOfWords(rr.class_, rr.ttl);
    OctetsOfWords(|data|, rr.ttl);
  }

  /** So it takes exactly 30 octets, the name's own length and the payload's. */
  lemma OneAnswerSize(m: Message, q: Question, rr: RR, data: bytes)
    requires OneAnswer(m, q, rr, data)
    ensures EncodeMessage(m).Ok? && |EncodeMessage(m).value| == 30 + |q.name| + |data|
  {
    hide EncodeMessage, DataPieces, Encodable, Literals, Labels;
    OneAnswerOctets(m, q, rr, data);
    NameTwice(12, 12, q.name);
    EncodedSize(m);
  }

  lemma OneAnswerBody(m: Message, q: Question, rr: RR)
    requires m.questions == [q] && m.answers == [rr] && m.authority == [] && m.additional == []
    ensures BodyPieces(m) == QuestionPieces(q) + RRPieces(rr)
  {
    hide QuestionPieces, RRPieces;
    var qs: seq<Question>, rrs: seq<RR> := [q][1..], [rr][1..];
    assert qs == [] && rrs == [];
    assert QuestionsPieces([q]) == QuestionPieces(q) + QuestionsPieces(qs) == QuestionPieces(q);
    assert SectionPieces([rr]) == RRPieces(rr) + SectionPieces(rrs) == RRPieces(rr);
    NoSection();
    assert SectionPieces(m.answers) + (SectionPieces(m.authority) + SectionPieces(m.additional)) == RRPieces(rr);
  }

  // ----- Truncation -----

  lemma DecodedQuestionsLower(req: bytes)
    requires DecodeMessage(req).Ok?
    ensures var m := DecodeMessage(req).value;
            m.header.opcode < 16 && forall i :: 0 <= i < |m.questions| ==> IsLower(m.questions[i].name)
  {
    hide DecodeMessage, AllDecoded;
    DecodeDelivers(req);
  }

  lemma QuestionOnlyEncodes(m: Message)
    requires |m.questions| <= 1 && m.answers == [] && m.authority == [] && m.additional == []
    requires forall i :: 0 <= i < |m.questions| ==> Encodable(m.questions[i].name)
    ensures EncodeMessage(m).Ok? && Nesting(m) <= MAX_HOPS
  {
    hide HeaderBytes, Encodable, Emittable, NameCount, Emit, BodyPieces, QuestionsPieces;
    BodyIsQuestions(m);
    if m.questions == [] {
      EmitNothing(12, map[]);
      NoQuestions();
    } else {
      assert m.questions == [m.questions[0]];
      QuestionFits(m.questions[0]);
      EmittableSucceeds(12, map[], BodyPieces(m));
      HopCapSuffices(12, BodyPieces(m));
    }
  }

  lemma BodyIsQuestions(m: Message)
    requires m.answers == [] && m.authority == [] && m.additional == []
    ensures BodyPieces(m) == QuestionsPieces(m.questions)
  {
  }

  lemma NoQuestions()
    ensures QuestionsPieces([]) == []
  {
  }

  /** A message with at most one question and nothing else decodes to itself. */
  lemma QuestionOnlyRoundTrip(m: Message)
    requires |m.questions| <= 1 && m.answers == [] && m.authority == [] && m.additional == []
    requires m.header.opcode < 16 && m.header.rcode < 16
    requires forall i :: 0 <= i < |m.questions| ==> IsLower(m.questions[i].name) && Encodable(m.questions[i].name)
    ensures EncodeMessage(m).Ok? && DecodeMessage(EncodeMessage(m).value) == Ok(m)
  {
    hide EncodeMessage, Encodable, DecodeMessage, Nesting, IsLower;
    QuestionOnlyEncodes(m);
    RoundTripExactly(m);
  }

  /** Truncation refines the TCP answer. A full reply that fits goes out unchanged. Otherwise the
      client gets exactly the same message with TC set and its records gone, except when even the
      question cannot be re-encoded: then the SERVFAIL fallback goes out as it is. */
  lemma TruncationRefines(c: Config, st: State, req: bytes, udpLimit: int)
    requires |req| >= 12 && DecodeMessage(req).Ok? && !DecodeMessage(req).value.header.qr
    ensures var full := Respond(c, st, req, 0).value;
            var out := Respond(c, st, req, udpLimit).value;
            var reply := Reply(c, st, DecodeMessage(req).value);
            if udpLimit <= 0 || |full| <= udpLimit then out == full
            else if forall i :: 0 <= i < |reply.questions| ==> Encodable(reply.questions[i].name)
              then DecodeMessage(out) == Ok(Truncated(reply))
            else out == full && full == HeaderBytes(ErrorMessage(reply.header.id, SERVFAIL))
  {
    hide ReadSections, Encodable, HeaderBytes, EncodeMessage;
    var m := DecodeMessage(req).value;
    var reply := Reply(c, st, m);
    DecodedQuestionsLower(req);
    ReplyShape(c, st, m);
    if forall i :: 0 <= i < |reply.questions| ==> Encodable(reply.questions[i].name) {
      QuestionOnlyRoundTrip(Truncated(reply));
    } else {
      UnencodableQuestion(reply);
      UnencodableQuestion(Truncated(reply));
    }
  }

  lemma ReplyShape(c: Config, st: State, m: Message)
    ensures var r := Reply(c, st, m);
            && r.header.rcode < 16 && r.header.opcode == m.header.opcode && r.header.id == m.header.id && !r.header.tc
            && (r.questions == [] || (r.questions == m.questions && |m.questions| == 1)) && r.additional == []
  {
    hide Resolve, SOA;
    if |m.questions| == 1 {
      VerdictDiscipline(c, st, m.questions[0]);
    }
  }

  lemma UnencodableQuestion(m: Message)
    requires |m.questions| == 1 && !Encodable(m.questions[0].name)
    ensures EncodeMessage(m).Err?
  {
    hide EmitName, Encodable, SectionPieces;
    var q := m.questions[0];
    EncodableEmits(12, map[], q.name);
    var ps := BodyPieces(m);
    assert ps != [] && ps[0] == Name(q.name);
    assert EmitPiece(12, map[], ps[0]) == EmitName(12, map[], q.name);
  }

  // ----- Questions that cannot be echoed -----

  /** A question whose name cannot be encoded again gets the bare SERVFAIL, over any transport and
      whatever the resolver made of it. */
  lemma UnencodableFallsBack(c: Config, st: State, req: bytes, udpLimit: int)
    requires |req| >= 12 && DecodeMessage(req).Ok?
    requires var m := DecodeMessage(req).value;
             !m.header.qr && m.header.opcode == OPCODE_QUERY && |m.questions| == 1 && !Encodable(m.questions[0].name)
    ensures Respond(c, st, req, udpLimit) ==
            Some(HeaderBytes(ErrorMessage(DecodeMessage(req).value.header.id, SERVFAIL)))
  {
    hide DecodeMessage, Encodable, HeaderBytes, EncodeMessage, Resolve;
    var r := Reply(c, st, DecodeMessage(req).value);
    UnencodableQuestion(r);
    UnencodableQuestion(Truncated(r));
  }

  lemma LeadingDotNotEncodable(name: bytes)
    ensures !Encodable([DOT] + name)
  {
    assert ([DOT] + name)[1..] == name;
    assert Labels([DOT] + name)[0] == [];
  }

  /** A name spelled as a dot before the zone passes the resolver as the apex, but never reaches a
      client: the question cannot be echoed. */
  lemma DottedApexFallsBack(c: Config, st: State, req: bytes, udpLimit: int)
    requires |req| >= 12 && DecodeMessage(req).Ok?
    requires var m := DecodeMessage(req).value;
             && !m.header.qr && m.header.opcode == OPCODE_QUERY && |m.questions| == 1
             && Canonical(m.questions[0].name) == [DOT] + c.zone
    ensures Respond(c, st, req, udpLimit) ==
            Some(HeaderBytes(ErrorMessage(DecodeMessage(req).value.header.id, SERVFAIL)))
  {
    hide DecodeMessage, Encodable, HeaderBytes, Canonical, Respond;
    var name := DecodeMessage(req).value.questions[0].name;
    LeadingDotNotEncodable(c.zone);
    if Encodable(name) {
      CanonicalEncodable(name);
      assert false;
    }
    UnencodableFallsBack(c, st, req, udpLimit);
  }

  /** A query whose one label is a dot and then the word `w`. */
  function DottedRequest(id: u16, w: bytes, qtype: u16): (r: bytes)
    requires |w| < 63
    ensures |r| > 12
  {
    U16(id) + [1, 0, 0, 1, 0, 0, 0, 0, 0, 0] + ([|w| + 1, DOT] + w + [0]) + (U16(qtype) + [0, 1])
  }

  lemma DottedQuestionReads(id: u16, w: bytes, qtype: u16)
    requires |w| < 63 && IsLower(w)
    ensures ReadQuestion(DottedRequest(id, w, qtype), 12) == Ok((Question([DOT] + w, qtype, CLASS_INET), |w| + 19))
  {
    hide Lower;
    var buf, name := DottedRequest(id, w, qtype), [DOT] + w;
    var end := 14 + |w|;
    assert buf[12] == |name| && buf[13..end] == name && buf[end] == 0;
    assert ReadLabels(buf, end, 0, 1 + |name|) == Ok([]);
    assert [name] + [] == [name];
    assert ReadLabels(buf, 12, 0, 0) == Ok([name]);
    LowerFixed(name);
    assert NameEnd(buf, end) == end + 1;
    assert NameEnd(buf, 12) == end + 1;
    HoldsU16At(buf, end + 1, qtype);
  }

  lemma DottedRequestDecodes(id: u16, w: bytes, qtype: u16)
    requires |w| < 63 && IsLower(w)
    ensures DecodeMessage(DottedRequest(id, w, qtype)) ==
            Ok(NewQuery(id, [], qtype).(questions := [Question([DOT] + w, qtype, CLASS_INET)]))
  {
    hide HeaderOf, ReadQuestion;
    var buf := DottedRequest(id, w, qtype);
    DottedQuestionReads(id, w, qtype);
    OneQuestionRead(buf, Question([DOT] + w, qtype, CLASS_INET), |w| + 19);
    HoldsU16At(buf, 0, id);
    assert U16At(buf, 2) == 0x100;
    QueryFlags(id, qtype);
  }

  lemma HoldsU16At(buf: bytes, pos: nat, w: u16)
    requires pos + 2 <= |buf| && buf[pos] == w / 0x100 && buf[pos + 1] == w % 0x100
    ensures U16At(buf, pos) == w
  {
  }

  lemma QueryFlags(id: u16, qtype: u16)
    ensures HeaderOf(id, 0x100) == NewQuery(id, [], qtype).header
  {
  }

  lemma OneQuestionRead(buf: bytes, q: Question, end: nat)
    requires ReadQuestion(buf, 12) == Ok((q, end))
    ensures ReadQuestions(buf, 12, 1) == Ok(([q], end))
  {
    hide ReadQuestion;
    var rest := ReadQuestions(buf, end, 0);
    assert rest == Ok(([], end));
    assert [q] + rest.value.0 == [q];
  }

  /** Such requests exist for every one-label zone: the resolver answers them as the apex, and the
      server sends SERVFAIL. */
  lemma DottedApexReached(c: Config, st: State, id: u16, qtype: u16, udpLimit: int)
    requires 0 < |c.zone| < 63 && IsLower(c.zone) && !HasSuffix(c.zone, [DOT])
    ensures var req := DottedRequest(id, c.zone, qtype);
            && DecodeMessage(req).Ok? && |DecodeMessage(req).value.questions| == 1
            && Resolve(c, st, DecodeMessage(req).value.questions[0]) ==
               Resolve(c, st, Question(c.zone, qtype, CLASS_INET))
            && Respond(c, st, req, udpLimit) == Some(HeaderBytes(ErrorMessage(id, SERVFAIL)))
  {
    hide DecodeMessage, DottedRequest, HeaderBytes, Respond, ApexRRs;
    var name := [DOT] + c.zone;
    DottedRequestDecodes(id, c.zone, qtype);
    LowerFixed(name);
    LowerFixed(c.zone);
    RelativeApex(c.zone, name);
    DottedNoTrailingDot(c.zone);
    DottedApexFallsBack(c, st, DottedRequest(id, c.zone, qtype), udpLimit);
  }

  lemma DottedNoTrailingDot(zone: bytes)
    requires zone != [] && !HasSuffix(zone, [DOT])
    ensures !HasSuffix([DOT] + zone, [DOT])
  {
    var s := [DOT] + zone;
    assert s[|s| - 1] == zone[|zone| - 1];
    assert zone[|zone| - 1..] == [zone[|zone| - 1]];
  }

  // ----- Whose answers they are -----

  /** The payload variant is the type's, whatever is in it. */
  predicate Shaped(rr: RR) {
    match rr.data
    case AData(_) => rr.rtype == TYPE_A
    case AAAAData(_) => rr.rtype == TYPE_AAAA
    case TXTData(_) => rr.rtype == TYPE_TXT
    case NSData(_) => rr.rtype == TYPE_NS
    case SOAData(_, _, _, _, _, _, _) => rr.rtype == TYPE_SOA
    case _ => false
  }

  predicate AllShaped(rrs: seq<RR>) { forall i :: 0 <= i < |rrs| ==> Shaped(rrs[i]) }

  lemma {:induction false} StoredShaped(c: Config, name: bytes, qtype: u16, recs: seq<Record>)
    ensures AllShaped(StoredRRs(c, name, qtype, recs))
  {
    if recs != [] {
      StoredShaped(c, name, qtype, recs[1..]);
      var tail := StoredRRs(c, name, qtype, recs[1..]);
      assert StoredRRs(c, name, qtype, recs) == RecordRRs(c, name, qtype, recs[0]) + tail;
    }
  }

  lemma AddressesShaped()
    ensures forall name, qtype, addr: Addr, ttl :: !addr.NoAddr? ==> AllShaped(AddressRRs(name, qtype, addr, ttl))
  {
  }

  lemma VerdictShaped(c: Config, st: State, q: Question)
    ensures AllShaped(Resolve(c, st, q).answers) && AllShaped(Resolve(c, st, q).authority)
  {
    hide Magic.Extract, Split, AddressRRs, StoredRRs, Relative, Canonical, Shaped;
    AddressesShaped();
    SOAShaped(c, st.serial);
    MagicGivesAddress(c);
    if Relative(c.zone, Canonical(q.name)).Some? {
      StoredShaped(c, Canonical(q.name), q.qtype, Stored(st, Relative(c.zone, Canonical(q.name)).value));
    }
  }

  lemma SOAShaped(c: Config, serial: u32)
    ensures Shaped(SOA(c, serial)) && Shaped(NS(c))
  {
  }

  lemma ShapedWritableTyped(rrs: seq<RR>)
    requires AllShaped(rrs) && AllWritable(rrs)
    ensures AllTyped(rrs)
  {
    forall i | 0 <= i < |rrs| ensures Typed(rrs[i].rtype, rrs[i].data) {
      assert Shaped(rrs[i]) && RRWritable(rrs[i]);
    }
  }

  /** From any store and configuration: what does encode is well-typed. */
  lemma EncodedReplyTyped(c: Config, st: State, m: Message)
    requires EncodeMessage(Reply(c, st, m)).Ok?
    ensures WellTyped(Reply(c, st, m)) && Writable(Reply(c, st, m))
  {
    hide EncodeMessage, Resolve, AllShaped, AllWritable, AllTyped, Askable;
    var r := Reply(c, st, m);
    EncodedIsWritable(r);
    if r.questions == [] {
      ReplyWithoutQuestion(c, st, m);
      NothingShaped();
    } else {
      VerdictShaped(c, st, m.questions[0]);
      NothingShaped();
    }
    ShapedWritableTyped(r.answers);
    ShapedWritableTyped(r.authority);
    ShapedWritableTyped(r.additional);
  }

  lemma NothingShaped()
    ensures AllShaped([])
  {
  }

  predicate CarriesAnswers(response: Option<bytes>) {
    && response.Some? && DecodeMessage(response.value).Ok?
    && DecodeMessage(response.value).value.answers != []
  }

  /** Whatever the configuration, the store and the transport: a response that carries answers
      repeats the request's one question, and every answer is owned by exactly the name asked for
      and has the type asked for. */
  lemma AnswersNameTheQuestion(c: Config, st: State, req: bytes, udpLimit: int)
    ensures CarriesAnswers(Respond(c, st, req, udpLimit)) ==>
              && DecodeMessage(req).Ok?
              && var m, out := DecodeMessage(req).value, DecodeMessage(Respond(c, st, req, udpLimit).value).value;
                 && |m.questions| == 1 && out.questions == m.questions
                 && AnswersMatch(out.answers, m.questions[0].name, m.questions[0].qtype)
  {
    hide DecodeMessage, EncodeMessage, HeaderBytes, Resolve, Reply, Truncated, Normal, AnswersMatch, ErrorMessage,
         Nesting, WellTyped, Writable;
    if CarriesAnswers(Respond(c, st, req, udpLimit)) {
      if DecodeMessage(req).Err? {
        FormErrDecodes(U16At(req, 0));
        assert false;
      }
      var m := DecodeMessage(req).value;
      var r := Reply(c, st, m);
      FallbackCarriesNothing(r.header.id);
      TruncatedCarriesNothing(r);
      TruncationRefines(c, st, req, udpLimit);
      assert EncodeMessage(r).Ok?;
      EncodedReplyTyped(c, st, m);
      MessageRoundTrip(r);
      DecodedQuestionsLower(req);
      ReplyNamesQuestion(c, st, m);
    }
  }

  lemma FormErrDecodes(id: u16)
    ensures DecodeMessage(MustEncode(ErrorMessage(id, FORMERR))).Ok?
    ensures DecodeMessage(MustEncode(ErrorMessage(id, FORMERR))).value.answers == []
  {
    hide EncodeMessage, DecodeMessage;
    QuestionOnlyRoundTrip(ErrorMessage(id, FORMERR));
  }

  lemma FallbackCarriesNothing(id: u16)
    ensures DecodeMessage(HeaderBytes(ErrorMessage(id, SERVFAIL))).Ok?
    ensures DecodeMessage(HeaderBytes(ErrorMessage(id, SERVFAIL))).value.answers == []
  {
    hide EncodeMessage, DecodeMessage, HeaderBytes;
    QuestionOnlyRoundTrip(ErrorMessage(id, SERVFAIL));
    EmptyMessageEncodes(ErrorMessage(id, SERVFAIL));
  }

  lemma TruncatedCarriesNothing(m: Message)
    ensures Truncated(m).answers == []
  {
  }

  lemma ReplyNamesQuestion(c: Config, st: State, m: Message)
    requires Writable(Reply(c, st, m)) && Normal(Reply(c, st, m)).answers != []
    requires forall i :: 0 <= i < |m.questions| ==> IsLower(m.questions[i].name)
    ensures |m.questions| == 1 && Normal(Reply(c, st, m)).questions == m.questions
    ensures AnswersMatch(Normal(Reply(c, st, m)).answers, m.questions[0].name, m.questions[0].qtype)
  {
    hide Resolve, AllWritable, Encodable, Canonical, LowerData, IsLower;
    var r := Reply(c, st, m);
    if r.questions == [] {
      ReplyWithoutQuestion(c, st, m);
      assert false;
    }
    var q := m.questions[0];
    assert r.questions == [q];
    VerdictDiscipline(c, st, q);
    CanonicalEncodable(q.name);
    LeadingDotNotEncodable(c.zone);
    LowerFixed(q.name);
    LowerQuestionsFixed(m.questions);
  }

  // ----- TCP frames -----

  const MAX_REPLY := 3451

  /** From a sound store and configuration, a query whose name can be re-encoded never falls back
      to SERVFAIL: the reply encodes as it is, in a few kilobytes. */
  lemma ReplyEncodes(c: Config, st: State, m: Message)
    requires SoundStore(st) && SoundConfig(c)
    requires forall i :: 0 <= i < |Reply(c, st, m).questions| ==> Encodable(Reply(c, st, m).questions[i].name)
    ensures EncodeMessage(Reply(c, st, m)).Ok?
    ensures |EncodeMessage(Reply(c, st, m)).value| <= MAX_REPLY
    ensures Nesting(Reply(c, st, m)) <= MAX_HOPS && WellTyped(Reply(c, st, m))
  {
    hide SoundStore, SoundConfig, Encodable, Resolve, Fits, HeaderBytes;
    var r := Reply(c, st, m);
    if r.questions == [] {
      ReplyWithoutQuestion(c, st, m);
      EmptyMessageEncodes(r);
      EmitNothing(12, map[]);
      BodyIsQuestions(r);
    } else {
      VerdictFits(c, st, m.questions[0]);
      FittingMessageEncodes(r, m.questions[0]);
    }
  }

  /** One question, at most three answers and one authority record, all of which fit. */
  lemma FittingMessageEncodes(r: Message, q: Question)
    requires r.questions == [q] && Encodable(q.name) && r.additional == []
    requires AllFit(r.answers) && |r.answers| <= 3 && AllFit(r.authority) && |r.authority| <= 1
    ensures EncodeMessage(r).Ok? && |EncodeMessage(r).value| <= MAX_REPLY
    ensures Nesting(r) <= MAX_HOPS && WellTyped(r)
  {
    hide Encodable, Emittable, FullSize, NameCount, HeaderBytes, SectionPieces, QuestionsPieces, Emit;
    FittingBody(r, q);
    EmittableSucceeds(12, map[], BodyPieces(r));
    EmitNeverLonger(12, map[], BodyPieces(r));
    HopCapSuffices(12, BodyPieces(r));
  }

  lemma FittingBody(r: Message, q: Question)
    requires r.questions == [q] && Encodable(q.name) && r.additional == []
    requires AllFit(r.answers) && |r.answers| <= 3 && AllFit(r.authority) && |r.authority| <= 1
    ensures Emittable(BodyPieces(r)) && FullSize(BodyPieces(r)) <= MAX_REPLY - 12 && NameCount(BodyPieces(r)) <= 13
  {
    hide Encodable, AllFit, Emittable, FullSize, NameCount, SectionPieces, QuestionsPieces;
    QuestionFits(q);
    SectionFits(r.answers);
    SectionFits(r.authority);
    NoSection();
    PiecesConcat(SectionPieces(r.authority), SectionPieces(r.additional));
    PiecesConcat(SectionPieces(r.answers), SectionPieces(r.authority) + SectionPieces(r.additional));
    PiecesConcat(QuestionsPieces([q]),
                 SectionPieces(r.answers) + (SectionPieces(r.authority) + SectionPieces(r.additional)));
  }

  /** What a client decodes is the reply the server meant, names in lowercase, or over a transport
      it is too long for the same message cut down to its question with TC set. Replies hold few
      enough names for the hop cap never to matter. */
  lemma RepliesDecode(c: Config, st: State, req: bytes, udpLimit: int)
    requires SoundStore(st) && SoundConfig(c)
    requires |req| >= 12 && DecodeMessage(req).Ok? && !DecodeMessage(req).value.header.qr
    requires var r := Reply(c, st, DecodeMessage(req).value);
             forall i :: 0 <= i < |r.questions| ==> Encodable(r.questions[i].name)
    ensures var r := Reply(c, st, DecodeMessage(req).value);
            && EncodeMessage(r).Ok?
            && DecodeMessage(Respond(c, st, req, udpLimit).value) ==
               Ok(if udpLimit <= 0 || |EncodeMessage(r).value| <= udpLimit then Normal(r) else Truncated(r))
  {
    hide SoundStore, SoundConfig, Encodable, Reply, EncodeMessage, ReadSections, Nesting, WellTyped, Normal,
         DecodeMessage, HeaderBytes;
    var m := DecodeMessage(req).value;
    ReplyEncodes(c, st, m);
    MessageRoundTrip(Reply(c, st, m));
    TruncationRefines(c, st, req, udpLimit);
  }

  lemma ReplyWithoutQuestion(c: Config, st: State, m: Message)
    requires Reply(c, st, m).questions == []
    ensures var r := Reply(c, st, m); r.answers == [] && r.authority == [] && r.additional == []
  {
  }

  lemma NoSection()
    ensures SectionPieces([]) == [] && Emittable([]) && FullSize([]) == 0 && NameCount([]) == 0
  {
  }

  /** The two length octets and the response, as serveConn writes them. */
  function Frame(resp: bytes): bytes { U16(|resp| % 0x1_0000) + resp }

  lemma FrameReads(resp: bytes)
    requires |resp| < 0x1_0000
    ensures |Frame(resp)| == 2 + |resp| && U16At(Frame(resp), 0) == |resp|
    ensures Frame(resp)[2..2 + U16At(Frame(resp), 0)] == resp
  {
    assert Frame(resp)[0] == |resp| / 0x100 && Frame(resp)[1] == |resp| % 0x100;
  }

  /** Over TCP the 16-bit length prefix is exact, for every request the server answers: a client
      that reads it and then as many octets has the response and nothing else. */
  lemma FrameExact(c: Config, st: State, req: bytes)
    requires SoundStore(st) && SoundConfig(c) && Respond(c, st, req, 0).Some?
    ensures var resp := Respond(c, st, req, 0).value;
            && |resp| <= MAX_REPLY && U16At(Frame(resp), 0) == |resp|
            && Frame(resp)[2..2 + U16At(Frame(resp), 0)] == resp
  {
    hide ReadSections, Encodable, HeaderBytes, SoundStore, SoundConfig, Reply, EncodeMessage, Nesting, WellTyped,
         BodyPieces, CountsFit, Frame;
    var resp := Respond(c, st, req, 0).value;
    match DecodeMessage(req) {
      case Err(_) => ErrorSize(U16At(req, 0), FORMERR);
      case Ok(m) =>
        var r := Reply(c, st, m);
        ReplyShape(c, st, m);
        if r.questions != [] && !Encodable(m.questions[0].name) {
          UnencodableQuestion(r);
        } else if r.questions == [] {
          ReplyWithoutQuestion(c, st, m);
          EmptyMessageEncodes(r);
        } else {
          ReplyEncodes(c, st, m);
        }
    }
    FrameReads(resp);
  }
}
