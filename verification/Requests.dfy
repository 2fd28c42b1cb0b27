/** What each kind of request gets back, decoded: the header bit by bit, the question, and the
    ladder's verdict with its records spelled out. */
module Requests {
  import opened Bytes
  import opened Names
  import opened Messages
  import opened RoundTrip
  import opened Zone
  import opened StoreRuns
  import opened Resolver
  import opened Answers
  import opened Server
  import opened Ladder
  import Magic
  import Notations

  // ----- Requests that are not resolved -----

  /** Bytes with a header that do not decode: FORMERR under the same ID, and nothing else. */
  lemma UndecodableRequest(c: Config, st: State, req: bytes, udpLimit: int)
    requires |req| >= 12 && DecodeMessage(req).Err?
    ensures Respond(c, st, req, udpLimit) == Some(req[..2] + [0x80, 1, 0, 0, 0, 0, 0, 0, 0, 0])
  {
    hide DecodeMessage, EncodeMessage;
    ErrorBytes(U16At(req, 0), FORMERR);
    assert req[..2] == U16(U16At(req, 0));
  }

  /** A header-only reply to `m`. TC can only be set by a limit below the header's own size. */
  function Bare(m: Message, rcode: byte, udpLimit: int): Message {
    Message(Header(m.header.id, true, m.header.opcode, true, 0 < udpLimit < 12, m.header.rd, false, rcode), [], [], [], [])
  }

  lemma BareReplyDecodes(c: Config, st: State, req: bytes, udpLimit: int, rcode: byte)
    requires |req| >= 12 && DecodeMessage(req).Ok? && !DecodeMessage(req).value.header.qr && rcode < 16
    requires Reply(c, st, DecodeMessage(req).value) == Bare(DecodeMessage(req).value, rcode, 0)
    ensures DecodeMessage(Respond(c, st, req, udpLimit).value) == Ok(Bare(DecodeMessage(req).value, rcode, udpLimit))
  {
    hide DecodeMessage, EncodeMessage, Reply, HeaderBytes;
    var m := DecodeMessage(req).value;
    var r := Bare(m, rcode, 0);
    DecodedQuestionsLower(req);
    EmptyMessageEncodes(r);
    EmptyMessageEncodes(Truncated(r));
    QuestionOnlyRoundTrip(r);
    QuestionOnlyRoundTrip(Truncated(r));
  }

  /** Any opcode but QUERY: NOTIMP, with the request's ID, opcode and RD, and no question. */
  lemma UnsupportedRequest(c: Config, st: State, req: bytes, udpLimit: int)
    requires |req| >= 12 && DecodeMessage(req).Ok? && !DecodeMessage(req).value.header.qr
    requires DecodeMessage(req).value.header.opcode != OPCODE_QUERY
    ensures DecodeMessage(Respond(c, st, req, udpLimit).value) == Ok(Bare(DecodeMessage(req).value, NOTIMP, udpLimit))
  {
    hide DecodeMessage, Respond;
    BareReplyDecodes(c, st, req, udpLimit, NOTIMP);
  }

  /** A query with no question, or more than one: FORMERR. */
  lemma MiscountedRequest(c: Config, st: State, req: bytes, udpLimit: int)
    requires |req| >= 12 && DecodeMessage(req).Ok? && !DecodeMessage(req).value.header.qr
    requires DecodeMessage(req).value.header.opcode == OPCODE_QUERY && |DecodeMessage(req).value.questions| != 1
    ensures DecodeMessage(Respond(c, st, req, udpLimit).value) == Ok(Bare(DecodeMessage(req).value, FORMERR, udpLimit))
  {
    hide DecodeMessage, Respond;
    BareReplyDecodes(c, st, req, udpLimit, FORMERR);
  }

  // ----- Requests that are -----

  /** A reply to a query of one question: AA, the request's own ID and RD, and what the verdict says,
      all of it or, where it would not fit, TC and no records. */
  function Answered(m: Message, v: Verdict, cut: bool): Message {
    Message(Header(m.header.id, true, OPCODE_QUERY, true, cut, m.header.rd, false, v.rcode), m.questions,
            if cut then [] else LowerRRs(v.answers), if cut then [] else LowerRRs(v.authority), [])
  }

  predicate AsksOne(req: bytes) {
    && |req| >= 12 && DecodeMessage(req).Ok?
    && var m := DecodeMessage(req).value;
       !m.header.qr && m.header.opcode == OPCODE_QUERY && |m.questions| == 1
  }

  lemma ReplyIsAnswered(c: Config, st: State, m: Message)
    requires m.header.opcode == OPCODE_QUERY && |m.questions| == 1 && IsLower(m.questions[0].name)
    ensures var r, v := Reply(c, st, m), Resolve(c, st, m.questions[0]);
            && r.questions == m.questions
            && Normal(r) == Answered(m, v, false) && Truncated(r) == Answered(m, v, true)
  {
    hide Resolve, LowerRRs, LowerQuestions, IsLower, RCodeFor, AnswersMatch, AnswerOwner, SOA, Canonical;
    var v := Resolve(c, st, m.questions[0]);
    assert forall i :: 0 <= i < |m.questions| ==> IsLower(m.questions[i].name);
    LowerQuestionsFixed(m.questions);
    VerdictDiscipline(c, st, m.questions[0]);
    CodeFits(c, st, m.questions[0].name, m.questions[0].class_);
    assert LowerRRs([]) == [];
  }

  lemma AnsweredRequest(c: Config, st: State, req: bytes, udpLimit: int)
    requires SoundStore(st) && SoundConfig(c)
    requires AsksOne(req) && Encodable(DecodeMessage(req).value.questions[0].name)
    ensures var m := DecodeMessage(req).value;
            var tcp, out := Respond(c, st, req, 0), Respond(c, st, req, udpLimit);
            && tcp.Some? && out.Some?
            && DecodeMessage(out.value) ==
               Ok(Answered(m, Resolve(c, st, m.questions[0]), 0 < udpLimit < |tcp.value|))
  {
    hide DecodeMessage, EncodeMessage, Encodable, SoundStore, SoundConfig, Resolve, HeaderBytes, Reply, Normal,
         Truncated, Answered, IsLower;
    var m := DecodeMessage(req).value;
    DecodedQuestionsLower(req);
    ReplyIsAnswered(c, st, m);
    RepliesDecode(c, st, req, udpLimit);
  }

  lemma CodeFits(c: Config, st: State, name: bytes, class_: u16)
    ensures RCodeFor(c, st, name, class_) < 16
  {
    hide Relative, Canonical, Magic.Extract, Split;
  }

  // ----- Queries of a client -----

  /** A client's query for `name` and `qtype` is answered with this verdict. */
  predicate Gives(c: Config, st: State, name: bytes, qtype: u16, id: u16, udpLimit: int, v: Verdict) {
    var query := EncodeMessage(NewQuery(id, name, qtype));
    && query.Ok?
    && var tcp, out := Respond(c, st, query.value, 0), Respond(c, st, query.value, udpLimit);
       && tcp.Some? && out.Some?
       && DecodeMessage(out.value) ==
          Ok(Answered(NewQuery(id, name, qtype), v, 0 < udpLimit < |tcp.value|))
  }

  /** A client's query, as the server decodes it. */
  lemma QueryArrives(id: u16, name: bytes, qtype: u16)
    requires Encodable(name) && IsLower(name)
    ensures var query := EncodeMessage(NewQuery(id, name, qtype));
            && query.Ok? && |query.value| >= 12
            && DecodeMessage(query.value) == Ok(NewQuery(id, name, qtype))
            && NewQuery(id, name, qtype).questions == [Question(name, qtype, CLASS_INET)]
  {
    hide Encodable, EncodeMessage, DecodeMessage;
    CanonicalEncodable(name);
    LowerFixed(name);
    QuestionOnlyRoundTrip(NewQuery(id, name, qtype));
    EncodedSize(NewQuery(id, name, qtype));
  }

  lemma AskResolves(c: Config, st: State, name: bytes, qtype: u16, id: u16, udpLimit: int)
    requires SoundStore(st) && SoundConfig(c) && Encodable(name) && IsLower(name)
    ensures Gives(c, st, name, qtype, id, udpLimit, Resolve(c, st, Question(name, qtype, CLASS_INET)))
  {
    hide DecodeMessage, EncodeMessage, Encodable, SoundStore, SoundConfig, Resolve, LowerRRs, IsLower, Respond, Canonical;
    QueryArrives(id, name, qtype);
    AnsweredRequest(c, st, EncodeMessage(NewQuery(id, name, qtype)).value, udpLimit);
    AnsweredRequest(c, st, EncodeMessage(NewQuery(id, name, qtype)).value, 0);
  }

  // ----- What the zone's own configuration answers -----

  /** The zone's SOA under the configuration `c` as given: unset fields take their defaults, the
      serial is the store's. */
  function LiveSOA(c: Config, serial: u32): RR {
    RR(c.zone, TYPE_SOA, CLASS_INET, Or60(c.negTTL),
       SOAData(NsName(c), if c.mbox == [] then [104, 111, 115, 116, 109, 97, 115, 116, 101, 114, DOT] + c.zone else c.mbox,
               serial, 7200, 900, 1209600, Or60(c.negTTL)))
  }

  function Or60(ttl: u32): u32 { if ttl == 0 then 60 else ttl }

  function NsName(c: Config): bytes { if c.nsHost == [] then [110, 115, DOT] + c.zone else c.nsHost }

  function Empty(c: Config, st: State, rcode: byte): Verdict { Verdict(rcode, [], [LiveSOA(c, st.serial)]) }

  predicate Served(c: Config, st: State) { SoundStore(st) && SoundConfig(WithDefaults(c)) && IsLower(c.zone) }

  lemma ServedZone(c: Config, st: State)
    requires Served(c, st)
    ensures Encodable(c.zone) && Canonical(c.zone) == c.zone && SOA(WithDefaults(c), st.serial) == LiveSOA(c, st.serial)
  {
    hide Encodable, SoundStore;
    CanonicalEncodable(c.zone);
    LowerFixed(c.zone);
  }

  lemma ApexVerdict(c: Config, st: State, qtype: u16)
    requires Served(c, st)
    ensures var v := Resolve(WithDefaults(c), st, Question(c.zone, qtype, CLASS_INET));
            && (qtype == TYPE_SOA ==> v == Found(LiveSOA(c, st.serial)))
            && (qtype == TYPE_NS ==> v == Found(RR(c.zone, TYPE_NS, CLASS_INET, Or60(c.ttl), NSData(NsName(c)))))
            && (qtype == TYPE_A && c.apexA.V4? ==>
                  v == Found(RR(c.zone, TYPE_A, CLASS_INET, Or60(c.ttl), AData(c.apexA))))
            && (qtype !in {TYPE_SOA, TYPE_NS, TYPE_ANY} && (c.apexA.NoAddr? || (c.apexA.V4? && qtype != TYPE_A)) ==>
                  v == Empty(c, st, NOERROR))
  {
    hide Encodable, SoundStore, Resolve, Canonical, SOA, LiveSOA, SoundConfig;
    ServedZone(c, st);
    ApexRung(WithDefaults(c), st, Question(c.zone, qtype, CLASS_INET));
  }

  /** A client asking at the apex: the SOA with its names, timers and the live serial; the NS record;
      the configured address; NODATA with that SOA for anything else. */
  lemma ApexQuery(c: Config, st: State, qtype: u16, id: u16, udpLimit: int)
    requires Served(c, st)
    ensures var cfg := WithDefaults(c);
            && (qtype == TYPE_SOA ==> Gives(cfg, st, c.zone, qtype, id, udpLimit, Found(LiveSOA(c, st.serial))))
            && (qtype == TYPE_NS ==>
                  Gives(cfg, st, c.zone, qtype, id, udpLimit,
                        Found(RR(c.zone, TYPE_NS, CLASS_INET, Or60(c.ttl), NSData(NsName(c))))))
            && (qtype == TYPE_A && c.apexA.V4? ==>
                  Gives(cfg, st, c.zone, qtype, id, udpLimit,
                        Found(RR(c.zone, TYPE_A, CLASS_INET, Or60(c.ttl), AData(c.apexA)))))
            && (qtype !in {TYPE_SOA, TYPE_NS, TYPE_ANY} && (c.apexA.NoAddr? || (c.apexA.V4? && qtype != TYPE_A)) ==>
                  Gives(cfg, st, c.zone, qtype, id, udpLimit, Empty(c, st, NOERROR)))
  {
    hide Encodable, SoundStore, Resolve, Canonical, SOA, LiveSOA, SoundConfig, Gives;
    ServedZone(c, st);
    ApexVerdict(c, st, qtype);
    AskResolves(WithDefaults(c), st, c.zone, qtype, id, udpLimit);
  }

  // ----- Names under the zone -----

  /** A lowercase name under the zone that fits the wire. */
  predicate CanAsk(c: Config, rel: bytes) {
    rel != [] && IsLower(rel) && Encodable(rel + [DOT] + c.zone)
  }

  lemma AskUnder(c: Config, st: State, rel: bytes, qtype: u16, id: u16, udpLimit: int)
    requires Served(c, st) && CanAsk(c, rel)
    ensures var name, cfg := rel + [DOT] + c.zone, WithDefaults(c);
            var q := Question(name, qtype, CLASS_INET);
            Under(cfg, q, rel) && Canonical(name) == name && Gives(cfg, st, name, qtype, id, udpLimit, Resolve(cfg, st, q))
  {
    hide Encodable, SoundStore, SoundConfig, Resolve, Gives, Canonical;
    var name := rel + [DOT] + c.zone;
    CanonicalEncodable(name);
    LowerFixed(name);
    AskResolves(WithDefaults(c), st, name, qtype, id, udpLimit);
  }

  /** The default name-server host answers the apex address. */
  lemma NsHostQuery(c: Config, st: State, id: u16, udpLimit: int)
    requires Served(c, st) && c.nsHost == [] && c.apexA.V4?
    ensures var name := [110, 115, DOT] + c.zone;
            Gives(WithDefaults(c), st, name, TYPE_A, id, udpLimit,
                  Found(RR(name, TYPE_A, CLASS_INET, Or60(c.ttl), AData(c.apexA))))
  {
    hide Encodable, SoundStore, Resolve, Gives, Canonical, SOA;
    var ns: bytes := [110, 115];
    var cfg := WithDefaults(c);
    assert ns + [DOT] + c.zone == [110, 115, DOT] + c.zone == cfg.nsHost;
    AskUnder(c, st, ns, TYPE_A, id, udpLimit);
    NsHostRung(cfg, st, Question(ns + [DOT] + c.zone, TYPE_A, CLASS_INET), ns);
  }

  /** A registered name asked for a type it does not hold: NODATA, though its labels may carry an
      address and a fallback may be configured. */
  lemma OtherTypeQuery(c: Config, st: State, rel: bytes, qtype: u16, id: u16, udpLimit: int)
    requires Served(c, st) && CanAsk(c, rel) && !OnNsHost(WithDefaults(c), rel)
    requires Stored(st, rel) != [] && Find(Stored(st, rel), qtype).None? && qtype != TYPE_ANY
    ensures Gives(WithDefaults(c), st, rel + [DOT] + c.zone, qtype, id, udpLimit, Empty(c, st, NOERROR))
  {
    hide Encodable, SoundStore, SoundConfig, Resolve, Gives, Canonical, SOA, LiveSOA, Under, OnNsHost, Stored;
    AskUnder(c, st, rel, qtype, id, udpLimit);
    ServedZone(c, st);
    StoredRung(WithDefaults(c), st, Question(rel + [DOT] + c.zone, qtype, CLASS_INET), rel);
  }

  /** A name nobody registered and whose labels carry no address: NXDOMAIN with the live SOA for
      every type, unless a fallback is configured, which then is the answer. */
  lemma UnknownNameQuery(c: Config, st: State, rel: bytes, qtype: u16, id: u16, udpLimit: int)
    requires Served(c, st) && CanAsk(c, rel) && Unclaimed(WithDefaults(c), st, rel)
    requires Magic.Extract(Split(rel, DOT)).None?
    ensures var name, cfg := rel + [DOT] + c.zone, WithDefaults(c);
            && (c.fallback.NoAddr? ==> Gives(cfg, st, name, qtype, id, udpLimit, Empty(c, st, NXDOMAIN)))
            && (c.fallback.V4? && qtype == TYPE_A ==>
                  Gives(cfg, st, name, qtype, id, udpLimit,
                        Found(RR(name, TYPE_A, CLASS_INET, Or60(c.ttl), AData(c.fallback)))))
            && (c.fallback.V4? && qtype !in {TYPE_A, TYPE_ANY} ==>
                  Gives(cfg, st, name, qtype, id, udpLimit, Empty(c, st, NOERROR)))
  {
    hide Encodable, SoundStore, SoundConfig, Resolve, Gives, Canonical, SOA, LiveSOA, Under, OnNsHost, Magic.Extract,
         Unclaimed;
    var q := Question(rel + [DOT] + c.zone, qtype, CLASS_INET);
    AskUnder(c, st, rel, qtype, id, udpLimit);
    ServedZone(c, st);
    if c.fallback.NoAddr? {
      LastRung(WithDefaults(c), st, q, rel);
    } else {
      FallbackRung(WithDefaults(c), st, q, rel);
    }
  }

  /** Ordinary service names are such names: no dash, no decimal octet, not eight hex digits. */
  lemma ServiceNameQuery(c: Config, st: State, w: bytes, qtype: u16, id: u16, udpLimit: int)
    requires Served(c, st) && CanAsk(c, w) && Unclaimed(WithDefaults(c), st, w) && c.fallback.NoAddr?
    requires DOT !in w && DASH !in w
    requires (forall v: byte :: w != Magic.Decimal(v)) && (forall q: quad :: w != Magic.HexForm(q))
    ensures Gives(WithDefaults(c), st, w + [DOT] + c.zone, qtype, id, udpLimit, Empty(c, st, NXDOMAIN))
  {
    hide Encodable, SoundStore, SoundConfig, Gives, LiveSOA, OnNsHost, Magic.Extract, Unclaimed, Split;
    SplitWord(w, DOT);
    Notations.WordsCarryNothing([w]);
    UnknownNameQuery(c, st, w, qtype, id, udpLimit);
  }
}
