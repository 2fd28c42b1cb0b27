/** From an update to the bytes a client decodes: registering a record makes it the answer, and
    removing it gives the question back to the lower rungs of the ladder. */
module EndToEnd {
  import opened Bytes
  import opened Names
  import opened Messages
  import opened RoundTrip
  import opened Zone
  import opened StoreRuns
  import opened Resolver
  import opened Answers
  import opened Server
  import opened Ladder
  import opened Requests
  import opened Api
  import Magic

  function Fqdn(owner: bytes, zone: bytes): bytes { owner + [DOT] + zone }

  /** What reaches a client: the whole message where its size fits the transport, else the question
      alone with TC set. Over TCP `udpLimit` is zero. */
  function Delivered(full: Message, size: nat, udpLimit: int): Message {
    if udpLimit <= 0 || size <= udpLimit then full else Truncated(full)
  }

  // ----- What the store answers -----

  lemma {:induction false} OthersAnswerNothing(c: Config, name: bytes, recs: seq<Record>, rtype: u16)
    requires rtype != TYPE_ANY
    ensures StoredRRs(c, name, rtype, Others(recs, rtype)) == []
  {
    if recs != [] {
      OthersAnswerNothing(c, name, recs[1..], rtype);
      var tail := Others(recs[1..], rtype);
      if recs[0].rtype != rtype {
        assert ([recs[0]] + tail)[1..] == tail;
      } else {
        assert [] + tail == tail;
      }
    }
  }

  lemma {:induction false} StoredRRsSnoc(c: Config, name: bytes, qtype: u16, recs: seq<Record>, r: Record)
    ensures StoredRRs(c, name, qtype, recs + [r]) == StoredRRs(c, name, qtype, recs) + RecordRRs(c, name, qtype, r)
  {
    hide RecordRRs;
    if recs == [] {
      assert recs + [r] == [r] && [r][1..] == [];
    } else {
      StoredRRsSnoc(c, name, qtype, recs[1..], r);
      assert (recs + [r])[1..] == recs[1..] + [r];
    }
  }

  /** After a put, asking for the record's type gives the record and nothing else. */
  lemma PutAnswers(c: Config, st: State, owner: bytes, rec: Record, name: bytes)
    requires ValidOwner(owner) && SoundRecord(rec)
    requires owner != NsRel(c) || c.apexA.NoAddr?
    ensures ResolveBelow(c, Put(st, owner, rec), name, owner, rec.rtype) ==
            Verdict(NOERROR, [AnswerFor(c, name, rec)], [])
  {
    hide Synthesized, NsRel, Others, StoredRRs, ValidOwner;
    ValidOwnerIsLower(owner);
    var others := Others(Stored(st, owner), rec.rtype);
    assert Stored(Put(st, owner, rec), owner) == others + [rec];
    OthersAnswerNothing(c, name, Stored(st, owner), rec.rtype);
    StoredRRsSnoc(c, name, rec.rtype, others, rec);
    assert RecordRRs(c, name, rec.rtype, rec) == [AnswerFor(c, name, rec)];
  }

  lemma FqdnIsPlain(owner: bytes, zone: bytes)
    requires ValidOwner(owner) && IsLower(zone) && Encodable(Fqdn(owner, zone))
    ensures Canonical(Fqdn(owner, zone)) == Fqdn(owner, zone) && IsLower(Fqdn(owner, zone))
    ensures Fqdn(owner, zone) != zone && Relative(zone, Fqdn(owner, zone)) == Some(owner) && owner != []
  {
    hide Encodable;
    ValidOwnerIsLower(owner);
    CanonicalEncodable(Fqdn(owner, zone));
    LowerFixed(Fqdn(owner, zone));
    RelativeOfOwner(zone, owner);
    assert |Fqdn(owner, zone)| > |zone|;
  }

  /** The response a client should see after registering a record. */
  function Registered(c: Config, id: u16, name: bytes, rec: Record): Message {
    Message(Header(id, true, OPCODE_QUERY, true, false, true, false, NOERROR),
            [Question(name, rec.rtype, CLASS_INET)], [AnswerFor(c, name, rec)], [], [])
  }

  lemma RegisteredIsNormal(c: Config, id: u16, name: bytes, rec: Record)
    requires IsLower(name)
    ensures Normal(Registered(c, id, name, rec)) == Registered(c, id, name, rec)
  {
    NormalFixed(Registered(c, id, name, rec));
  }

  /** Payload octets of a sound record: 4, 16, or one more than the text. */
  function PayloadSize(rec: Record): nat
    requires SoundRecord(rec)
  {
    if rec.rtype == TYPE_A then 4 else if rec.rtype == TYPE_AAAA then 16 else 1 + |rec.txt[0]|
  }

  lemma RegisteredSize(c: Config, id: u16, name: bytes, rec: Record)
    requires Encodable(name) && name != [] && SoundRecord(rec)
    ensures var m := Registered(c, id, name, rec);
            EncodeMessage(m).Ok? && |EncodeMessage(m).value| == 30 + |name| + PayloadSize(rec)
  {
    hide EncodeMessage, Encodable;
    var rr := AnswerFor(c, name, rec);
    var data := match rec.addr
      case V4(q) => q
      case V6(o) => o
      case NoAddr => TextBytes(rec.txt);
    if rec.addr.NoAddr? {
      assert rec.txt[1..] == [];
      assert TextBytes(rec.txt) == [|rec.txt[0]|] + rec.txt[0] + TextBytes(rec.txt[1..]);
    }
    OneAnswerSize(Registered(c, id, name, rec), Question(name, rec.rtype, CLASS_INET), rr, data);
  }

  /** The whole chain. Put a sound record into any sound store; encode a client's query for its
      name and type, hand the bytes to the server, decode what comes back: NOERROR, AA, the
      question, and exactly the registered record with its TTL, or the zone's default for 0. Over
      UDP that takes 30 octets, the name and the payload to fit; otherwise TC comes back. */
  lemma PutThenQuery(c: Config, st: State, owner: bytes, rec: Record, id: u16, udpLimit: int)
    requires SoundStore(st) && SoundConfig(c) && IsLower(c.zone)
    requires ValidOwner(owner) && SoundRecord(rec) && Encodable(Fqdn(owner, c.zone))
    requires owner != NsRel(c) || c.apexA.NoAddr?
    ensures var name := Fqdn(owner, c.zone);
            var query := EncodeMessage(NewQuery(id, name, rec.rtype));
            && query.Ok?
            && var response := Respond(c, Put(st, owner, rec), query.value, udpLimit);
               && response.Some?
               && DecodeMessage(response.value) ==
                  Ok(Delivered(Registered(c, id, name, rec), 30 + |name| + PayloadSize(rec), udpLimit))
  {
    hide SoundStore, SoundConfig, ValidOwner, SoundRecord, Encodable, EncodeMessage, DecodeMessage, Resolve,
         ResolveBelow, NsRel, IsLower, Normal, Canonical, Put, MustEncode, Truncated;
    var name, st' := Fqdn(owner, c.zone), Put(st, owner, rec);
    FqdnIsPlain(owner, c.zone);
    StepKeepsSound(st, PutOp(owner, rec));
    QueryArrives(id, name, rec.rtype);
    PutAnswers(c, st, owner, rec, name);
    ResolveBelowApex(c, st', name, owner, rec.rtype);
    var req := EncodeMessage(NewQuery(id, name, rec.rtype)).value;
    assert Reply(c, st', NewQuery(id, name, rec.rtype)) == Registered(c, id, name, rec);
    RepliesDecode(c, st', req, udpLimit);
    RegisteredIsNormal(c, id, name, rec);
    RegisteredSize(c, id, name, rec);
  }

  lemma NameLength(name: bytes)
    requires Encodable(name)
    ensures |name| <= 253
  {
    if name != [] {
      LabelsRoundTrip(name);
      WireLenOfName(Labels(name));
    }
  }

  /** Registered addresses always fit a 512-octet UDP response; a text does exactly when it and the
      name together have at most 481 octets. */
  lemma FitsUdp(c: Config, id: u16, name: bytes, rec: Record)
    requires Encodable(name) && SoundRecord(rec)
    ensures var full := Registered(c, id, name, rec);
            Delivered(full, 30 + |name| + PayloadSize(rec), MAX_UDP) == full <==>
            rec.rtype != TYPE_TXT || |name| + |rec.txt[0]| <= 481
  {
    hide Encodable;
    NameLength(name);
  }

  lemma ResolveBelowApex(c: Config, st: State, name: bytes, rel: bytes, qtype: u16)
    requires Canonical(name) == name && Relative(c.zone, name) == Some(rel) && rel != []
    ensures Resolve(c, st, Question(name, qtype, CLASS_INET)) == ResolveBelow(c, st, name, rel, qtype)
  {
  }

  /** What a PUT body asks to be answered, by the type it spells. */
  function AskedType(req: Request): u16 {
    if Spelled(req.rtype, TEXT_A) then TYPE_A else if Spelled(req.rtype, TEXT_AAAA) then TYPE_AAAA else TYPE_TXT
  }

  function AskedData(req: Request): RData {
    if Spelled(req.rtype, TEXT_A) then AData(req.addr.Unmap())
    else if Spelled(req.rtype, TEXT_AAAA) then AAAAData(req.addr)
    else TXTData([req.value])
  }

  function AskedSize(req: Request): nat {
    if Spelled(req.rtype, TEXT_A) then 4 else if Spelled(req.rtype, TEXT_AAAA) then 16 else 1 + |req.value|
  }

  lemma BuiltAsAsked(c: Config, req: Request, name: bytes)
    requires BuildRecord(req).Some?
    ensures var rec := BuildRecord(req).value;
            && rec.rtype == AskedType(req) && SoundRecord(rec) && PayloadSize(rec) == AskedSize(req)
            && AnswerFor(WithDefaults(c), name, rec) ==
               RR(name, AskedType(req), CLASS_INET, if req.ttl != 0 then req.ttl else Or60(c.ttl), AskedData(req))
  {
    hide Upper, Lower;
    var rec := BuildRecord(req).value;
    BuildRecordExact(req, rec);
    KindsDiffer();
    if Spelled(req.rtype, TEXT_A) {
      var q :| IsIPv4(req.addr, q) && rec == Record(TYPE_A, V4(q), [], req.ttl);
      MappedUnmaps(req.addr, q);
    }
  }

  /** The API's PUT, from any store reachable by well-formed updates and whatever spelling of the name
      the client sends: a query then sees the very value of the request, an IPv4 address even when
      it was sent in its mapped form, with the request's TTL or the configured one or 60. */
  lemma ApiPutThenQuery(c: Config, ops: seq<Op>, raw: bytes, req: Request, id: u16, udpLimit: int)
    requires SoundOps(ops) && SoundConfig(WithDefaults(c)) && IsLower(c.zone)
    requires RecordRefusal(c.zone, true, PUT, raw, Some(req)).None?
    requires var owner := RelName(c.zone, raw).value;
             Encodable(Fqdn(owner, c.zone)) && !OnNsHost(WithDefaults(c), owner)
    ensures var owner := RelName(c.zone, raw).value;
            var st := Apply(Replay(EMPTY, ops), RecordOp(c.zone, PUT, raw, Some(req)));
            var name := Fqdn(owner, c.zone);
            Gives(WithDefaults(c), st, name, AskedType(req), id, udpLimit,
                  Found(RR(name, AskedType(req), CLASS_INET, if req.ttl != 0 then req.ttl else Or60(c.ttl), AskedData(req))))
            && IsCut(WithDefaults(c), st, name, AskedType(req), id, udpLimit) ==
               (0 < udpLimit < 30 + |name| + AskedSize(req))
  {
    hide SoundConfig, ValidOwner, SoundRecord, Encodable, Resolve, NsRel, IsLower, Put, Gives, OnNsHost, Canonical,
         ResolveBelow, AskedType, AskedData, BuildRecord, SoundStore;
    var st, owner, rec := Replay(EMPTY, ops), RelName(c.zone, raw).value, BuildRecord(req).value;
    var name, cfg := Fqdn(owner, c.zone), WithDefaults(c);
    EmptySound();
    RunsStaySound(EMPTY, ops);
    RelNameIsValid(c.zone, raw);
    BuiltRecordsAreSound(req);
    StepKeepsSound(st, PutOp(owner, rec));
    FqdnIsPlain(owner, c.zone);
    AskResolves(cfg, Put(st, owner, rec), name, rec.rtype, id, udpLimit);
    UnderOwner(cfg, owner, rec.rtype);
    UnderIsBelow(cfg, Put(st, owner, rec), Question(name, rec.rtype, CLASS_INET), owner);
    PutAnswers(cfg, st, owner, rec, name);
    BuiltAsAsked(c, req, name);
    PutIsCut(cfg, st, owner, rec, id, udpLimit);
  }

  /** A client's query comes back with TC set. */
  predicate IsCut(c: Config, st: State, name: bytes, qtype: u16, id: u16, udpLimit: int) {
    var query := EncodeMessage(NewQuery(id, name, qtype));
    && query.Ok?
    && var out := Respond(c, st, query.value, udpLimit);
       out.Some? && DecodeMessage(out.value).Ok? && DecodeMessage(out.value).value.header.tc
  }

  lemma PutIsCut(c: Config, st: State, owner: bytes, rec: Record, id: u16, udpLimit: int)
    requires SoundStore(st) && SoundConfig(c) && IsLower(c.zone)
    requires ValidOwner(owner) && SoundRecord(rec) && Encodable(Fqdn(owner, c.zone)) && !OnNsHost(c, owner)
    ensures var name := Fqdn(owner, c.zone);
            IsCut(c, Put(st, owner, rec), name, rec.rtype, id, udpLimit) == (0 < udpLimit < 30 + |name| + PayloadSize(rec))
  {
    hide SoundStore, SoundConfig, ValidOwner, SoundRecord, Encodable, EncodeMessage, DecodeMessage, Respond, NsRel,
         IsLower, Put, PayloadSize;
    assert owner != [] by { OwnerNotEmpty(owner); }
    NsHostExact(c, owner);
    PutThenQuery(c, st, owner, rec, id, udpLimit);
  }

  lemma OwnerNotEmpty(owner: bytes)
    requires ValidOwner(owner)
    ensures owner != []
  {
  }

  lemma UnderOwner(c: Config, owner: bytes, qtype: u16)
    requires owner != [] && Canonical(Fqdn(owner, c.zone)) == Fqdn(owner, c.zone)
    ensures Under(c, Question(Fqdn(owner, c.zone), qtype, CLASS_INET), owner)
  {
  }

  lemma EmptySound()
    ensures SoundStore(EMPTY)
  {
  }

  /** The DNS-01 challenge: after setting it, a TXT query sees exactly the token, for 30 seconds.
      Over UDP a name and token too long for the transport give an empty answer with TC set. */
  lemma ChallengeThenQuery(c: Config, ops: seq<Op>, raw: bytes, token: text, id: u16, udpLimit: int)
    requires SoundOps(ops) && SoundConfig(c) && IsLower(c.zone)
    requires AcmeRefusal(c.zone, true, PUT, raw, Some(token)).None?
    requires var owner := AcmeOwner(c.zone, raw);
             Encodable(Fqdn(owner, c.zone)) && (owner != NsRel(c) || c.apexA.NoAddr?)
    ensures var name := Fqdn(AcmeOwner(c.zone, raw), c.zone);
            var st := Apply(Replay(EMPTY, ops), AcmeOp(c.zone, PUT, raw, Some(token)));
            var query := EncodeMessage(NewQuery(id, name, TYPE_TXT));
            && query.Ok?
            && var response := Respond(c, st, query.value, udpLimit);
               && response.Some? && DecodeMessage(response.value).Ok?
               && var out := DecodeMessage(response.value).value;
                  && (out.header.tc <==> 0 < udpLimit < 31 + |name| + |token|)
                  && out.answers ==
                     if out.header.tc then [] else [RR(name, TYPE_TXT, CLASS_INET, 30, TXTData([token]))]
  {
    hide SoundConfig, ValidOwner, Encodable, EncodeMessage, DecodeMessage, Respond, NsRel, IsLower, Put, AcmeOwner;
    EmptySound();
    RunsStaySound(EMPTY, ops);
    var rec := Record(TYPE_TXT, NoAddr, [token], ACME_TTL);
    PutThenQuery(c, Replay(EMPTY, ops), AcmeOwner(c.zone, raw), rec, id, udpLimit);
  }

  // ----- Removal and isolation -----

  /** A single-question query of the server's class whose name lies below the apex at `rel`. */
  predicate AsksAt(c: Config, req: bytes, rel: bytes) {
    && |req| >= 12 && DecodeMessage(req).Ok? && |DecodeMessage(req).value.questions| == 1
    && Relative(c.zone, Canonical(DecodeMessage(req).value.questions[0].name)) == Some(rel) && rel != []
  }

  /** Replies see the store only through the verdict on their question. */
  lemma SameVerdictSameBytes(c: Config, st: State, st': State, req: bytes, udpLimit: int)
    ensures (DecodeMessage(req).Ok? && |DecodeMessage(req).value.questions| == 1 ==>
               var q := DecodeMessage(req).value.questions[0]; Resolve(c, st, q) == Resolve(c, st', q)) ==>
              Respond(c, st, req, udpLimit) == Respond(c, st', req, udpLimit)
  {
  }

  /** After DELETE, every request about the name gets, byte for byte and over either transport, the
      response of a store that never held a record: the lower rungs of the ladder take over. */
  lemma DeleteThenQuery(c: Config, st: State, owner: bytes, req: bytes, udpLimit: int)
    requires ValidOwner(owner) && AsksAt(c, req, owner)
    ensures var gone := Remove(st, owner, 0);
            Respond(c, gone, req, udpLimit) == Respond(c, State(map[], gone.serial), req, udpLimit)
  {
    hide Synthesized, NsRel, Others, ValidOwner, StoredRRs, DecodeMessage, Canonical, Relative, Respond;
    ValidOwnerIsLower(owner);
    var gone := Remove(st, owner, 0);
    assert Stored(gone, owner) == [] && Stored(State(map[], gone.serial), owner) == [];
    SameVerdictSameBytes(c, gone, State(map[], gone.serial), req, udpLimit);
  }

  /** An update at one owner leaves the answers and the code of every other name alone. A response
      that carries answers does not change by a single byte; an empty one only in its serial. */
  lemma UpdatesAreIsolated(c: Config, st: State, op: Op, req: bytes, rel: bytes, udpLimit: int)
    requires AsksAt(c, req, rel) && Lower(rel) != Lower(op.name)
    ensures var q := DecodeMessage(req).value.questions[0];
            var before, after := Resolve(c, st, q), Resolve(c, Apply(st, op), q);
            && before.rcode == after.rcode && before.answers == after.answers
            && (before.answers != [] || Apply(st, op).serial == st.serial ==>
                  Respond(c, st, req, udpLimit) == Respond(c, Apply(st, op), req, udpLimit))
  {
    hide Synthesized, NsRel, Others, ValidOwner, StoredRRs, DecodeMessage, Canonical, Relative, Respond;
    assert Stored(Apply(st, op), rel) == Stored(st, rel);
    var q := DecodeMessage(req).value.questions[0];
    if Resolve(c, st, q) == Resolve(c, Apply(st, op), q) {
      SameVerdictSameBytes(c, st, Apply(st, op), req, udpLimit);
    }
  }

  // ----- When the premises hold -----

  /** A name under the zone fits the wire exactly when its length does. */
  lemma FqdnFits(owner: bytes, zone: bytes)
    requires ValidOwner(owner) && zone != [] && Encodable(zone)
    ensures Encodable(Fqdn(owner, zone)) <==> |owner| + 1 + |zone| <= 253
  {
    SplitConcat(owner, zone, DOT);
    var labels := Labels(Fqdn(owner, zone));
    var a := Split(owner, DOT);
    assert labels == a + Labels(zone);
    forall i | 0 <= i < |a| ensures LabelOk(a[i]) {
      JoinSplit(owner, DOT);
      assert OwnerLabel(a[i]);
    }
    LabelsRoundTrip(Fqdn(owner, zone));
    WireLenOfName(labels);
  }

  /** withDefaults: with name server and mailbox left to their defaults, a zone of at most 242
      octets makes a sound configuration; a longer one cannot carry its own mailbox name. */
  lemma DefaultsAreSound(c: Config)
    requires c.zone != [] && Encodable(c.zone) && c.nsHost == [] && c.mbox == []
    ensures SoundConfig(WithDefaults(c)) <==> |c.zone| <= 242
  {
    hide Encodable, ValidOwner;
    var ns, host := NS_DOT[..2], HOSTMASTER_DOT[..10];
    WordIsOwner(ns);
    WordIsOwner(host);
    assert NS_DOT + c.zone == Fqdn(ns, c.zone) && HOSTMASTER_DOT + c.zone == Fqdn(host, c.zone);
    FqdnFits(ns, c.zone);
    FqdnFits(host, c.zone);
  }

  lemma WordIsOwner(w: bytes)
    requires 0 < |w| <= 63 && forall i :: 0 <= i < |w| ==> 97 <= w[i] <= 122
    ensures ValidOwner(w)
  {
    SplitWord(w, DOT);
    assert OwnerLabel(w);
  }

  // ----- Names nobody registered -----

  function TypeOf(addr: Addr): u16 { if addr.V4? then TYPE_A else TYPE_AAAA }

  function DataOf(addr: Addr): RData { if addr.V4? then AData(addr) else AAAAData(addr) }

  function AddrSize(addr: Addr): nat { if addr.V4? then 4 else 16 }

  /** The response to a question about a magic name: one synthesized A or AAAA record. */
  function Magical(c: Config, id: u16, name: bytes, addr: Addr): Message {
    Message(Header(id, true, OPCODE_QUERY, true, false, true, false, NOERROR),
            [Question(name, TypeOf(addr), CLASS_INET)],
            [RR(name, TypeOf(addr), CLASS_INET, c.ttl, DataOf(addr))], [], [])
  }

  lemma MagicalIsNormal(c: Config, id: u16, name: bytes, addr: Addr)
    requires IsLower(name)
    ensures Normal(Magical(c, id, name, addr)) == Magical(c, id, name, addr)
  {
    NormalFixed(Magical(c, id, name, addr));
  }

  lemma MagicalSize(c: Config, id: u16, name: bytes, addr: Addr)
    requires Encodable(name) && name != [] && !addr.NoAddr? && !addr.Is4In6()
    ensures var m := Magical(c, id, name, addr);
            EncodeMessage(m).Ok? && |EncodeMessage(m).value| == 30 + |name| + AddrSize(addr)
  {
    hide EncodeMessage, Encodable;
    var m := Magical(c, id, name, addr);
    OneAnswerSize(m, m.questions[0], m.answers[0], if addr.V4? then addr.quad else addr.octets);
  }

  /** Any name under the zone whose labels carry an address answers it, bytes to bytes, with no
      registration at all; registered names are the ones with stored records. */
  lemma MagicNameAnswers(c: Config, st: State, rel: bytes, addr: Addr, id: u16, udpLimit: int)
    requires SoundStore(st) && SoundConfig(c)
    requires rel != [] && IsLower(Fqdn(rel, c.zone)) && Encodable(Fqdn(rel, c.zone))
    requires Stored(st, rel) == [] && (rel != NsRel(c) || c.apexA.NoAddr?)
    requires Magic.Extract(Split(rel, DOT)) == Some(addr)
    ensures var name := Fqdn(rel, c.zone);
            var query := EncodeMessage(NewQuery(id, name, TypeOf(addr)));
            && query.Ok?
            && var response := Respond(c, st, query.value, udpLimit);
               && response.Some?
               && DecodeMessage(response.value) ==
                  Ok(Delivered(Magical(c, id, name, addr), 30 + |name| + AddrSize(addr), udpLimit))
  {
    hide SoundStore, SoundConfig, Encodable, EncodeMessage, DecodeMessage, Resolve, NsRel, IsLower, Normal,
         Canonical, MustEncode, Magic.Extract, Truncated;
    var name := Fqdn(rel, c.zone);
    Magic.ExtractFamily(Split(rel, DOT));
    CanonicalEncodable(name);
    LowerFixed(name);
    RelativeOfOwner(c.zone, rel);
    QueryArrives(id, name, TypeOf(addr));
    ResolveBelowApex(c, st, name, rel, TypeOf(addr));
    assert Reply(c, st, NewQuery(id, name, TypeOf(addr))) == Magical(c, id, name, addr);
    RepliesDecode(c, st, EncodeMessage(NewQuery(id, name, TypeOf(addr))).value, udpLimit);
    MagicalIsNormal(c, id, name, addr);
    MagicalSize(c, id, name, addr);
  }

  /** A synthesized address, too, always fits 512 octets. */
  lemma MagicFitsUdp(c: Config, id: u16, name: bytes, addr: Addr)
    requires Encodable(name)
    ensures var full := Magical(c, id, name, addr); Delivered(full, 30 + |name| + AddrSize(addr), MAX_UDP) == full
  {
    hide Encodable;
    NameLength(name);
  }

  /** In particular "10.0.0.7", "app.10.0.0.7" and so on under the zone, for every address, over
      TCP and over UDP. */
  lemma DottedNameAnswers(c: Config, st: State, before: seq<bytes>, q: quad, id: u16, udpLimit: int)
    requires SoundStore(st) && SoundConfig(c)
    requires forall i :: 0 <= i < |before| ==> DOT !in before[i]
    requires var rel := Join(before + Magic.Decimals(q), DOT);
             && IsLower(Fqdn(rel, c.zone)) && Encodable(Fqdn(rel, c.zone))
             && Stored(st, rel) == [] && (rel != NsRel(c) || c.apexA.NoAddr?)
    ensures var name := Fqdn(Join(before + Magic.Decimals(q), DOT), c.zone);
            var query := EncodeMessage(NewQuery(id, name, TYPE_A));
            && query.Ok?
            && var response := Respond(c, st, query.value, udpLimit);
               && response.Some?
               && DecodeMessage(response.value) ==
                  Ok(Delivered(Magical(c, id, name, V4(q)), 34 + |name|, udpLimit))
  {
    hide SoundStore, SoundConfig, Encodable, EncodeMessage, DecodeMessage, NsRel, IsLower, Magic.Extract, Respond,
         Join, Split, Fqdn, Stored, Magic.Decimals, Magical, Delivered;
    DottedLabels(before, q);
    MagicNameAnswers(c, st, Join(before + Magic.Decimals(q), DOT), V4(q), id, udpLimit);
  }

  lemma DottedLabels(before: seq<bytes>, q: quad)
    requires forall i :: 0 <= i < |before| ==> DOT !in before[i]
    ensures var rel := Join(before + Magic.Decimals(q), DOT);
            rel != [] && Magic.Extract(Split(rel, DOT)) == Some(V4(q))
  {
    hide Magic.Extract, Split, Join, Magic.Decimals;
    var labels := before + Magic.Decimals(q);
    DecimalsHaveNoDot(q);
    SplitJoin(labels, DOT);
    Magic.DottedForm(before, q);
    JoinNotEmpty(labels);
  }

  lemma DecimalsHaveNoDot(q: quad)
    ensures forall j :: 0 <= j < 4 ==> DOT !in Magic.Decimals(q)[j]
  {
    DecimalHasNoDot(q[0]);
    DecimalHasNoDot(q[1]);
    DecimalHasNoDot(q[2]);
    DecimalHasNoDot(q[3]);
  }

  lemma DecimalHasNoDot(v: byte)
    ensures DOT !in Magic.Decimal(v)
  {
  }

  lemma JoinNotEmpty(labels: seq<bytes>)
    requires |labels| > 1
    ensures Join(labels, DOT) != []
  {
  }
}
