/** Why everything the resolver says can be put on the wire: for stores the update API can
    produce, each verdict encodes, and its size has a small bound. */
module Answers {
  import opened Bytes
  import opened Names
  import opened Emission
  import opened Messages
  import opened Zone
  import opened StoreRuns
  import opened Resolver
  import opened RoundTrip
  import Magic

  // ----- Sound stores -----

  /** A record as the update API, the seeds and the challenge handler build it. */
  predicate SoundRecord(r: Record) {
    match r.rtype
    case 1 => r.addr.V4? && r.txt == []
    case 28 => r.addr.V6? && !r.addr.Is4In6() && r.txt == []
    case 16 => r.addr.NoAddr? && |r.txt| == 1 && 0 < |r.txt[0]| <= 255
    case _ => false
  }

  predicate AllSound(recs: seq<Record>) { forall i :: 0 <= i < |recs| ==> SoundRecord(recs[i]) }

  predicate SoundStore(st: State) {
    StoreOk(st) && forall name :: name in st.records ==> AllSound(st.records[name])
  }

  predicate SoundOps(ops: seq<Op>) { forall i :: 0 <= i < |ops| ==> ops[i].PutOp? ==> SoundRecord(ops[i].rec) }

  lemma StepKeepsSound(st: State, op: Op)
    requires SoundStore(st) && (op.PutOp? ==> SoundRecord(op.rec))
    ensures SoundStore(Apply(st, op))
  {
    match op
    case PutOp(name, rec) => PutKeepsSound(st, name, rec);
    case RemoveOp(name, rtype) => RemoveKeepsSound(st, name, rtype);
  }

  lemma OthersSound(recs: seq<Record>, rtype: u16)
    requires AllSound(recs)
    ensures AllSound(Others(recs, rtype))
  {
    OthersMembers(recs, rtype);
    forall i | 0 <= i < |Others(recs, rtype)| ensures SoundRecord(Others(recs, rtype)[i]) {
      assert Others(recs, rtype)[i] in recs;
    }
  }

  lemma PutKeepsSound(st: State, name: bytes, rec: Record)
    requires SoundStore(st) && SoundRecord(rec)
    ensures SoundStore(Put(st, name, rec))
  {
    hide SoundRecord, ValidOwner;
    assert AllSound(Stored(st, name));
    PutKeepsOk(st, name, rec);
    OthersSound(Stored(st, name), rec.rtype);
  }

  lemma RemoveKeepsSound(st: State, name: bytes, rtype: u16)
    requires SoundStore(st)
    ensures SoundStore(Remove(st, name, rtype))
  {
    hide SoundRecord, ValidOwner;
    assert AllSound(Stored(st, name));
    RemoveKeepsOk(st, name, rtype);
    OthersSound(Stored(st, name), rtype);
  }

  /** Every store reached by well-formed updates is sound. */
  lemma {:induction false} RunsStaySound(st: State, ops: seq<Op>)
    requires SoundStore(st) && SoundOps(ops)
    ensures SoundStore(Replay(st, ops))
    decreases |ops|
  {
    if ops != [] {
      StepKeepsSound(st, ops[0]);
      RunsStaySound(Apply(st, ops[0]), ops[1..]);
    }
  }

  lemma AtMostThree(recs: seq<Record>)
    requires OnePerType(recs) && AllSound(recs)
    ensures |recs| <= 3
  {
    if |recs| > 3 {
      ThreeTypes(recs[0].rtype, recs[1].rtype, recs[2].rtype, recs[3].rtype);
      assert false;
    }
  }

  lemma ThreeTypes(a: u16, b: u16, c: u16, d: u16)
    ensures a in {TYPE_A, TYPE_AAAA, TYPE_TXT} && b in {TYPE_A, TYPE_AAAA, TYPE_TXT}
            && c in {TYPE_A, TYPE_AAAA, TYPE_TXT} && d in {TYPE_A, TYPE_AAAA, TYPE_TXT}
            ==> a == b || a == c || a == d || b == c || b == d || c == d
  {
  }

  // ----- Records that fit -----

  const MAX_DATA := 530
  const MAX_RR := 795

  /** The record encodes, its payload is the one its type calls for, and takes at most as much as
      an SOA can. */
  predicate Fits(rr: RR) {
    && Typed(rr.rtype, rr.data) && Encodable(rr.name)
    && Emittable(DataPieces(rr.data)) && FullSize(DataPieces(rr.data)) <= MAX_DATA
  }

  predicate AllFit(rrs: seq<RR>) { forall i :: 0 <= i < |rrs| ==> Fits(rrs[i]) }

  lemma NamesInData(d: RData)
    ensures NameCount(DataPieces(d)) <= 2
  {
    var ps := DataPieces(d);
    if d.SOAData? {
      assert ps[1..] == [Name(d.rname), Plain(SOATail(d))] && ps[1..][1..] == [Plain(SOATail(d))];
      NamesAndBytes(d.rname, SOATail(d));
    } else {
      assert ps[1..] == [];
    }
  }

  lemma RRFits(rr: RR)
    requires Fits(rr)
    ensures Emittable(RRPieces(rr)) && FullSize(RRPieces(rr)) <= MAX_RR
    ensures NameCount(RRPieces(rr)) == 1 + NameCount(DataPieces(rr.data))
  {
    hide Emittable, FullSize, DataPieces, Encodable;
    NamesAndBytes(rr.name, U16(rr.rtype) + U16(rr.class_) + U32(rr.ttl));
    var body := DataPieces(rr.data);
    var fixed := U16(rr.rtype) + U16(rr.class_) + U32(rr.ttl);
    NameFits(rr.name);
    PlainFits(fixed);
    SizedFits(body);
    PiecesConcat([Plain(fixed)], [Sized(body)]);
    PiecesConcat([Name(rr.name)], [Plain(fixed)] + [Sized(body)]);
    assert RRPieces(rr) == [Name(rr.name)] + ([Plain(fixed)] + [Sized(body)]);
  }

  lemma {:induction false} SectionFits(rrs: seq<RR>)
    requires AllFit(rrs)
    ensures Emittable(SectionPieces(rrs)) && FullSize(SectionPieces(rrs)) <= MAX_RR * |rrs|
    ensures NameCount(SectionPieces(rrs)) <= 3 * |rrs|
  {
    hide Fits, RRPieces, DataPieces;
    if rrs != [] {
      RRFits(rrs[0]);
      NamesInData(rrs[0].data);
      SectionFits(rrs[1..]);
      PiecesConcat(RRPieces(rrs[0]), SectionPieces(rrs[1..]));
    }
  }

  lemma QuestionFits(q: Question)
    requires Encodable(q.name)
    ensures Emittable(QuestionsPieces([q])) && FullSize(QuestionsPieces([q])) <= MAX_WIRE + 4
    ensures NameCount(QuestionsPieces([q])) == 1
  {
    hide Encodable;
    var words := U16(q.qtype) + U16(q.class_);
    NameFits(q.name);
    PlainFits(words);
    PiecesConcat([Name(q.name)], [Plain(words)]);
    assert [q][1..] == [];
    assert QuestionsPieces([q]) == [Name(q.name)] + [Plain(words)] + [];
    NamesAndBytes(q.name, words);
  }

  // ----- Verdicts that fit -----

  predicate SoundConfig(c: Config) { Encodable(c.zone) && Encodable(c.nsHost) && Encodable(c.mbox) }

  lemma SOAFits(c: Config, serial: u32)
    requires SoundConfig(c)
    ensures Fits(SOA(c, serial))
  {
    hide Encodable, Emittable, FullSize;
    var d := SOA(c, serial).data;
    NameFits(c.nsHost);
    NameFits(c.mbox);
    PlainFits(SOATail(d));
    PiecesConcat([Name(c.mbox)], [Plain(SOATail(d))]);
    PiecesConcat([Name(c.nsHost)], [Name(c.mbox)] + [Plain(SOATail(d))]);
    assert DataPieces(d) == [Name(c.nsHost)] + ([Name(c.mbox)] + [Plain(SOATail(d))]);
  }

  lemma NSFits(c: Config)
    requires SoundConfig(c)
    ensures Fits(NS(c))
  {
    NameFits(c.nsHost);
  }

  lemma AddressFits(name: bytes, qtype: u16, addr: Addr, ttl: u32)
    requires Encodable(name) && !addr.NoAddr?
    ensures AllFit(AddressRRs(name, qtype, addr, ttl)) && |AddressRRs(name, qtype, addr, ttl)| <= 1
  {
    hide Encodable, Emittable, FullSize;
    match addr.Unmap() {
      case V4(q) => PlainFits(q);
      case V6(o) => PlainFits(o);
      case NoAddr =>
    }
  }

  lemma RecordFits(c: Config, name: bytes, qtype: u16, r: Record)
    requires Encodable(name) && SoundRecord(r)
    ensures AllFit(RecordRRs(c, name, qtype, r))
  {
    hide Encodable, Emittable, FullSize;
    match r.addr {
      case V4(q) => PlainFits(q);
      case V6(o) => PlainFits(o);
      case NoAddr => TextFits(r.txt);
    }
  }

  lemma TextFits(txt: seq<bytes>)
    requires |txt| == 1 && |txt[0]| <= 255
    ensures Emittable(DataPieces(TXTData(txt))) && FullSize(DataPieces(TXTData(txt))) <= 256
  {
    assert txt[1..] == [];
    assert |TextBytes(txt)| == 1 + |txt[0]|;
    PlainFits(TextBytes(txt));
  }

  lemma {:induction false} StoredFit(c: Config, name: bytes, qtype: u16, recs: seq<Record>)
    requires Encodable(name) && AllSound(recs)
    ensures AllFit(StoredRRs(c, name, qtype, recs))
  {
    hide Fits, RecordRRs, SoundRecord;
    if recs != [] {
      RecordFits(c, name, qtype, recs[0]);
      StoredFit(c, name, qtype, recs[1..]);
    }
  }

  lemma CanonicalEncodable(name: bytes)
    requires Encodable(name)
    ensures Canonical(name) == Lower(name) && Encodable(Canonical(name))
  {
    LowerEncodable(name);
    if HasSuffix(name, [DOT]) {
      TrailingDotNotEncodable(name);
      assert false;
    }
  }

  /** From a sound store and configuration every verdict fits: at most three answers, at most one
      authority record, and all of them encode. */
  lemma VerdictFits(c: Config, st: State, q: Question)
    requires SoundStore(st) && SoundConfig(c) && Encodable(q.name)
    ensures var v := Resolve(c, st, q);
            && AllFit(v.answers) && |v.answers| <= 3
            && AllFit(v.authority) && |v.authority| <= 1
  {
    hide Fits, Magic.Extract, Split, AddressRRs, StoredRRs, SoundConfig, Encodable, SOA, NS,
         Canonical, Relative, AllSound, OnePerType;
    var name := Canonical(q.name);
    CanonicalEncodable(q.name);
    SOAFits(c, st.serial);
    NSFits(c);
    MagicGivesAddress(c);
    if !c.apexA.NoAddr? {
      AddressFits(name, q.qtype, c.apexA, c.ttl);
      AddressFits(c.zone, q.qtype, c.apexA, c.ttl) by { ZoneEncodable(c); }
    }
    match Relative(c.zone, name)
    case None =>
    case Some(rel) =>
      if Stored(st, rel) != [] {
        StoredFit(c, name, q.qtype, Stored(st, rel));
        StoredMatch(c, name, q.qtype, Stored(st, rel));
        AtMostThree(Stored(st, rel));
      }
      if !Synthesized(c, rel).NoAddr? {
        AddressFits(name, q.qtype, Synthesized(c, rel), c.ttl);
      }
  }

  lemma ZoneEncodable(c: Config)
    requires SoundConfig(c)
    ensures Encodable(c.zone)
  {
  }
}
