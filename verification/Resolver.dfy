/** The answer ladder of internal/resolver/resolver.go over one zone's configuration and store. */
module Resolver {
  import opened Bytes
  import opened Names
  import opened Messages
  import opened Zone
  import Magic

  datatype Config = Config(zone: bytes, ttl: u32, negTTL: u32, apexA: Addr, fallback: Addr, nsHost: bytes, mbox: bytes)

  const NS_DOT: bytes := [110, 115, 46]
  const HOSTMASTER_DOT: bytes := [104, 111, 115, 116, 109, 97, 115, 116, 101, 114, 46]

  function WithDefaults(c: Config): Config {
    Config(c.zone,
           if c.ttl == 0 then 60 else c.ttl,
           if c.negTTL == 0 then 60 else c.negTTL,
           c.apexA, c.fallback,
           if c.nsHost == [] then NS_DOT + c.zone else c.nsHost,
           if c.mbox == [] then HOSTMASTER_DOT + c.zone else c.mbox)
  }

  /** Result: the code, and the records of the two sections a verdict can fill. */
  datatype Verdict = Verdict(rcode: byte, answers: seq<RR>, authority: seq<RR>)

  // ----- Zone membership -----

  /** relative: the part of `name` left of the zone, "" at the apex, none outside. */
  function Relative(zone: bytes, name: bytes): Option<bytes> {
    if name == zone then Some([])
    else if HasSuffix(name, [DOT] + zone) then Some(TrimSuffix(name, [DOT] + zone))
    else None
  }

  predicate LabelsEndWith(n: seq<bytes>, z: seq<bytes>) { |z| <= |n| && n[|n| - |z|..] == z }

  lemma SuffixSplits(zone: bytes, name: bytes)
    requires HasSuffix(name, [DOT] + zone)
    ensures Split(name, DOT) == Split(TrimSuffix(name, [DOT] + zone), DOT) + Split(zone, DOT)
  {
    var rel := TrimSuffix(name, [DOT] + zone);
    assert name == rel + [DOT] + zone;
    SplitConcat(rel, zone, DOT);
  }

  lemma LabelSuffixJoins(zone: bytes, name: bytes)
    requires LabelsEndWith(Split(name, DOT), Split(zone, DOT))
    ensures name == zone || HasSuffix(name, [DOT] + zone)
  {
    hide Split, Join;
    var z, n := Split(zone, DOT), Split(name, DOT);
    JoinSplit(name, DOT);
    JoinSplit(zone, DOT);
    var lead := n[..|n| - |z|];
    assert n == lead + z;
    if lead != [] {
      JoinConcat(lead, z, DOT);
      assert name == Join(lead, DOT) + ([DOT] + zone);
    } else {
      assert n == z;
    }
  }

  /** The string test is the label test: a name is in the zone exactly when the zone's labels end
      the name's labels, and the relative part splits into exactly the labels before them. */
  lemma MembershipIsLabelWise(zone: bytes, name: bytes)
    ensures var z, n := Split(zone, DOT), Split(name, DOT);
            && (Relative(zone, name).Some? <==> LabelsEndWith(n, z))
            && (Relative(zone, name).Some? && name != zone ==>
                  |z| < |n| && Split(Relative(zone, name).value, DOT) == n[..|n| - |z|])
  {
    hide Split;
    if name != zone && HasSuffix(name, [DOT] + zone) {
      SuffixSplits(zone, name);
    }
    if LabelsEndWith(Split(name, DOT), Split(zone, DOT)) {
      LabelSuffixJoins(zone, name);
    }
  }

  /** A relative owner name put under the zone comes back unchanged. */
  lemma RelativeOfOwner(zone: bytes, owner: bytes)
    ensures Relative(zone, owner + [DOT] + zone) == Some(owner)
  {
    var name := owner + [DOT] + zone;
    assert |name| > |zone|;
    assert name == owner + ([DOT] + zone);
    assert name[|name| - |[DOT] + zone|..] == [DOT] + zone;
    assert name[..|name| - |[DOT] + zone|] == owner;
  }

  /** nsRel: "" when the name server lives elsewhere. */
  function NsRel(c: Config): bytes {
    if HasSuffix(c.nsHost, [DOT] + c.zone) then TrimSuffix(c.nsHost, [DOT] + c.zone) else []
  }

  // ----- Records -----

  function SOA(c: Config, serial: u32): RR {
    RR(c.zone, TYPE_SOA, CLASS_INET, c.negTTL, SOAData(c.nsHost, c.mbox, serial, 7200, 900, 1209600, c.negTTL))
  }

  function NS(c: Config): RR { RR(c.zone, TYPE_NS, CLASS_INET, c.ttl, NSData(c.nsHost)) }

  predicate Wants(qtype: u16, rtype: u16) { qtype == rtype || qtype == TYPE_ANY }

  function Negative(c: Config, st: State, rcode: byte): Verdict {
    Verdict(rcode, [], if rcode == NXDOMAIN || rcode == NOERROR then [SOA(c, st.serial)] else [])
  }

  function Positive(c: Config, st: State, answers: seq<RR>): Verdict {
    if answers == [] then Negative(c, st, NOERROR) else Verdict(NOERROR, answers, [])
  }

  /** addressRR: one A or AAAA record when the question type matches the address family. */
  function AddressRRs(name: bytes, qtype: u16, addr: Addr, ttl: u32): seq<RR>
    requires !addr.NoAddr?
  {
    var is4 := addr.V4? || addr.Is4In6();
    if is4 && Wants(qtype, TYPE_A) then [RR(name, TYPE_A, CLASS_INET, ttl, AData(addr.Unmap()))]
    else if !is4 && Wants(qtype, TYPE_AAAA) then [RR(name, TYPE_AAAA, CLASS_INET, ttl, AAAAData(addr))]
    else []
  }

  function ApexRRs(c: Config, st: State, qtype: u16): seq<RR> {
    (if Wants(qtype, TYPE_SOA) then [SOA(c, st.serial)] else [])
    + (if Wants(qtype, TYPE_NS) then [NS(c)] else [])
    + (if c.apexA.NoAddr? then [] else AddressRRs(c.zone, qtype, c.apexA, c.ttl))
  }

  /** The answer a stored record gives, if it matches. */
  function RecordRRs(c: Config, name: bytes, qtype: u16, rec: Record): seq<RR> {
    if !Wants(qtype, rec.rtype) then []
    else
      var ttl := if rec.ttl == 0 then c.ttl else rec.ttl;
      if rec.rtype == TYPE_A then [RR(name, TYPE_A, CLASS_INET, ttl, AData(rec.addr))]
      else if rec.rtype == TYPE_AAAA then [RR(name, TYPE_AAAA, CLASS_INET, ttl, AAAAData(rec.addr))]
      else if rec.rtype == TYPE_TXT then [RR(name, TYPE_TXT, CLASS_INET, ttl, TXTData(rec.txt))]
      else []
  }

  function StoredRRs(c: Config, name: bytes, qtype: u16, recs: seq<Record>): seq<RR> {
    if recs == [] then [] else RecordRRs(c, name, qtype, recs[0]) + StoredRRs(c, name, qtype, recs[1..])
  }

  // ----- The ladder -----

  /** The address the ladder's lower rungs find for a relative name without stored records. */
  function Synthesized(c: Config, rel: bytes): Addr {
    match Magic.Extract(Split(rel, DOT))
    case Some(addr) => addr
    case None => c.fallback
  }

  /** What the ladder says about a zone-relative name other than the apex. */
  function ResolveBelow(c: Config, st: State, name: bytes, rel: bytes, qtype: u16): Verdict {
    if rel == NsRel(c) && !c.apexA.NoAddr? then Positive(c, st, AddressRRs(name, qtype, c.apexA, c.ttl))
    else if Stored(st, rel) != [] then Positive(c, st, StoredRRs(c, name, qtype, Stored(st, rel)))
    else if Synthesized(c, rel).NoAddr? then Negative(c, st, NXDOMAIN)
    else Positive(c, st, AddressRRs(name, qtype, Synthesized(c, rel), c.ttl))
  }

  function Resolve(c: Config, st: State, q: Question): Verdict {
    var name := Canonical(q.name);
    if q.class_ != CLASS_INET && q.class_ != CLASS_ANY then Negative(c, st, REFUSED)
    else
      match Relative(c.zone, name)
      case None => Negative(c, st, REFUSED)
      case Some(rel) =>
        if rel == [] then Positive(c, st, ApexRRs(c, st, q.qtype))
        else ResolveBelow(c, st, name, rel, q.qtype)
  }

  /** The rungs in order, as conditions on the question alone: the type asked for never decides
      between them, so NXDOMAIN for one type is NXDOMAIN for all. */
  function RCodeFor(c: Config, st: State, name: bytes, class_: u16): byte {
    if class_ !in {CLASS_INET, CLASS_ANY} || Relative(c.zone, Canonical(name)).None? then REFUSED
    else
      var rel := Relative(c.zone, Canonical(name)).value;
      if || rel == [] || (rel == NsRel(c) && !c.apexA.NoAddr?)
         || Stored(st, rel) != [] || Magic.Extract(Split(rel, DOT)).Some? || !c.fallback.NoAddr?
      then NOERROR
      else NXDOMAIN
  }

  predicate AnswersMatch(rrs: seq<RR>, name: bytes, qtype: u16) {
    forall i :: 0 <= i < |rrs| ==> rrs[i].name == name && Wants(qtype, rrs[i].rtype)
  }

  lemma {:induction false} StoredMatch(c: Config, name: bytes, qtype: u16, recs: seq<Record>)
    ensures AnswersMatch(StoredRRs(c, name, qtype, recs), name, qtype)
    ensures |StoredRRs(c, name, qtype, recs)| <= |recs|
  {
    if recs != [] {
      StoredMatch(c, name, qtype, recs[1..]);
      var tail := StoredRRs(c, name, qtype, recs[1..]);
      assert StoredRRs(c, name, qtype, recs) == RecordRRs(c, name, qtype, recs[0]) + tail;
    }
  }

  /** The owner of the answers is the question's name. Only a name spelled as a dot before the zone,
      which a decoded label holding '.' can produce, counts as the apex without being it. */
  function AnswerOwner(c: Config, name: bytes): bytes {
    if Canonical(name) == [DOT] + c.zone then c.zone else Canonical(name)
  }

  /** Discipline of every verdict: the code depends only on name and class; every answer belongs
      to the question's name and type; answers come with NOERROR and an empty authority section;
      an empty NOERROR or NXDOMAIN carries exactly the live SOA, and REFUSED carries nothing. */
  lemma VerdictDiscipline(c: Config, st: State, q: Question)
    ensures var v := Resolve(c, st, q);
            && v.rcode == RCodeFor(c, st, q.name, q.class_)
            && AnswersMatch(v.answers, AnswerOwner(c, q.name), q.qtype)
            && (v.answers != [] ==> v.rcode == NOERROR)
            && v.authority == if v.answers == [] && v.rcode != REFUSED then [SOA(c, st.serial)] else []
  {
    hide Magic.Extract, Split, HasSuffix, TrimSuffix, AddressRRs, RecordRRs, StoredRRs, Relative, Canonical, ApexRRs;
    var name := Canonical(q.name);
    MagicGivesAddress(c);
    AddressesMatch();
    if Relative(c.zone, name).Some? {
      var rel := Relative(c.zone, name).value;
      StoredMatch(c, name, q.qtype, Stored(st, rel));
      ApexMatch(c, st, q.qtype);
      RelativeApex(c.zone, name);
    }
  }

  lemma RelativeApex(zone: bytes, name: bytes)
    ensures Relative(zone, name) == Some([]) <==> name == zone || name == [DOT] + zone
  {
    if Relative(zone, name) == Some([]) && name != zone {
      assert name[0..] == name;
    }
  }

  lemma ApexMatch(c: Config, st: State, qtype: u16)
    ensures AnswersMatch(ApexRRs(c, st, qtype), c.zone, qtype)
  {
  }

  lemma MagicGivesAddress(c: Config)
    ensures forall labels :: Magic.Extract(labels).Some? ==> !Magic.Extract(labels).value.NoAddr?
  {
    forall labels | Magic.Extract(labels).Some? ensures !Magic.Extract(labels).value.NoAddr? {
      Magic.ExtractFamily(labels);
    }
  }

  lemma AddressesMatch()
    ensures forall name, qtype, addr: Addr, ttl :: !addr.NoAddr? ==>
              AnswersMatch(AddressRRs(name, qtype, addr, ttl), name, qtype)
  {
  }

  // ----- The resolver object -----

  lemma StoredRRsUnfold(c: Config, name: bytes, qtype: u16, recs: seq<Record>, i: nat)
    requires i < |recs|
    ensures StoredRRs(c, name, qtype, recs[i..]) ==
            RecordRRs(c, name, qtype, recs[i]) + StoredRRs(c, name, qtype, recs[i + 1..])
  {
    assert recs[i..][1..] == recs[i + 1..];
  }

  lemma StoredRRsEnd(c: Config, name: bytes, qtype: u16, recs: seq<Record>, answers: seq<RR>)
    ensures answers + StoredRRs(c, name, qtype, recs[|recs|..]) == answers
  {
  }

  class ZoneResolver {
    const cfg: Config
    const store: Store

    constructor (cfg: Config, store: Store)
      ensures this.cfg == WithDefaults(cfg) && this.store == store
    {
      this.cfg, this.store := WithDefaults(cfg), store;
    }

    method Apex(qtype: u16) returns (v: Verdict)
      ensures v == Positive(cfg, store.Now(), ApexRRs(cfg, store.Now(), qtype))
    {
      var answers: seq<RR> := [];
      if Wants(qtype, TYPE_SOA) {
        answers := answers + [SOA(cfg, store.serial)];
      }
      if Wants(qtype, TYPE_NS) {
        answers := answers + [NS(cfg)];
      }
      if !cfg.apexA.NoAddr? {
        answers := answers + AddressRRs(cfg.zone, qtype, cfg.apexA, cfg.ttl);
      }
      if |answers| == 0 {
        return Negative(cfg, store.Now(), NOERROR);
      }
      return Verdict(NOERROR, answers, []);
    }

    /** stored: the matching records become answers, one after the other. */
    method StoredAnswers(name: bytes, qtype: u16, recs: seq<Record>) returns (v: Verdict)
      ensures v == Positive(cfg, store.Now(), StoredRRs(cfg, name, qtype, recs))
    {
      hide StoredRRs;
      var answers: seq<RR> := [];
      assert recs[0..] == recs && [] + StoredRRs(cfg, name, qtype, recs) == StoredRRs(cfg, name, qtype, recs);
      for i := 0 to |recs|
        invariant answers + StoredRRs(cfg, name, qtype, recs[i..]) == StoredRRs(cfg, name, qtype, recs)
      {
        StoredRRsUnfold(cfg, name, qtype, recs, i);
        ghost var before, rest := answers, StoredRRs(cfg, name, qtype, recs[i + 1..]);
        ghost var next := RecordRRs(cfg, name, qtype, recs[i]);
        assert before + (next + rest) == (before + next) + rest;
        var rec := recs[i];
        if qtype != rec.rtype && qtype != TYPE_ANY {
          continue;
        }
        var ttl := rec.ttl;
        if ttl == 0 {
          ttl := cfg.ttl;
        }
        if rec.rtype == TYPE_A {
          answers := answers + [RR(name, rec.rtype, CLASS_INET, ttl, AData(rec.addr))];
        } else if rec.rtype == TYPE_AAAA {
          answers := answers + [RR(name, rec.rtype, CLASS_INET, ttl, AAAAData(rec.addr))];
        } else if rec.rtype == TYPE_TXT {
          answers := answers + [RR(name, rec.rtype, CLASS_INET, ttl, TXTData(rec.txt))];
        }
        assert answers == before + RecordRRs(cfg, name, qtype, rec);
      }
      StoredRRsEnd(cfg, name, qtype, recs, answers);
      if |answers| == 0 {
        return Negative(cfg, store.Now(), NOERROR);
      }
      return Verdict(NOERROR, answers, []);
    }

    method ResolveQuestion(q: Question) returns (v: Verdict)
      ensures v == Resolve(cfg, store.Now(), q)
    {
      var name := Canonical(q.name);
      if q.class_ != CLASS_INET && q.class_ != CLASS_ANY {
        return Negative(cfg, store.Now(), REFUSED);
      }
      var rel := Relative(cfg.zone, name);
      if rel.None? {
        return Negative(cfg, store.Now(), REFUSED);
      }
      if rel.value == [] {
        v := Apex(q.qtype);
        return;
      }
      if rel.value == NsRel(cfg) && !cfg.apexA.NoAddr? {
        return Positive(cfg, store.Now(), AddressRRs(name, q.qtype, cfg.apexA, cfg.ttl));
      }
      var recs := store.Lookup(rel.value);
      if |recs| > 0 {
        v := StoredAnswers(name, q.qtype, recs);
        return;
      }
      var addr := Magic.ExtractAddr(Split(rel.value, DOT));
      if addr.Some? {
        Magic.ExtractFamily(Split(rel.value, DOT));
        return Positive(cfg, store.Now(), AddressRRs(name, q.qtype, addr.value, cfg.ttl));
      }
      if !cfg.fallback.NoAddr? {
        return Positive(cfg, store.Now(), AddressRRs(name, q.qtype, cfg.fallback, cfg.ttl));
      }
      return Negative(cfg, store.Now(), NXDOMAIN);
    }
  }
}
