/** The precedence ladder of docs/resolution.md, rung by rung: for every question exactly one of these
    lemmas applies, and each gives the whole verdict. */
module Ladder {
  import opened Bytes
  import opened Messages
  import opened Zone
  import opened StoreRuns
  import opened Resolver
  import opened Answers
  import Magic

  // ----- The shapes of verdicts -----

  function Nodata(c: Config, st: State): Verdict { Verdict(NOERROR, [], [SOA(c, st.serial)]) }

  function Found(rr: RR): Verdict { Verdict(NOERROR, [rr], []) }

  /** One address answers questions for its own family and ANY, and is NODATA for every other type.
      A mapped IPv4 address is of the IPv4 family. */
  predicate AnswersAddress(v: Verdict, c: Config, st: State, name: bytes, qtype: u16, addr: Addr) {
    match addr
    case NoAddr => false
    case V4(q) => AnswersIPv4(v, c, st, name, qtype, q)
    case V6(octets) =>
      if addr.Is4In6() then AnswersIPv4(v, c, st, name, qtype, octets[12..])
      else if qtype in {TYPE_AAAA, TYPE_ANY} then v == Found(RR(name, TYPE_AAAA, CLASS_INET, c.ttl, AAAAData(addr)))
      else v == Nodata(c, st)
  }

  predicate AnswersIPv4(v: Verdict, c: Config, st: State, name: bytes, qtype: u16, q: quad) {
    v == if qtype in {TYPE_A, TYPE_ANY} then Found(RR(name, TYPE_A, CLASS_INET, c.ttl, AData(V4(q)))) else Nodata(c, st)
  }

  /** The record an answer carries for a stored one. */
  function AnswerFor(c: Config, name: bytes, rec: Record): RR {
    RR(name, rec.rtype, CLASS_INET, if rec.ttl == 0 then c.ttl else rec.ttl,
       if rec.rtype == TYPE_A then AData(rec.addr)
       else if rec.rtype == TYPE_AAAA then AAAAData(rec.addr)
       else TXTData(rec.txt))
  }

  // ----- Where a question stands -----

  predicate InClass(q: Question) { q.class_ in {CLASS_INET, CLASS_ANY} }

  /** The question is for the class served and for the name `rel` under the zone. */
  predicate Under(c: Config, q: Question, rel: bytes) {
    InClass(q) && rel != [] && Canonical(q.name) == rel + [DOT] + c.zone
  }

  /** The name-server host, while an apex address is configured. */
  predicate OnNsHost(c: Config, rel: bytes) { c.nsHost == rel + [DOT] + c.zone && !c.apexA.NoAddr? }

  lemma UnderIsBelow(c: Config, st: State, q: Question, rel: bytes)
    requires Under(c, q, rel)
    ensures Resolve(c, st, q) == ResolveBelow(c, st, Canonical(q.name), rel, q.qtype)
    ensures OnNsHost(c, rel) <==> rel == NsRel(c) && !c.apexA.NoAddr?
  {
    hide ResolveBelow, Canonical;
    RelativeOfOwner(c.zone, rel);
    NsHostExact(c, rel);
    assert |rel + [DOT] + c.zone| > |c.zone|;
  }

  lemma NsHostExact(c: Config, rel: bytes)
    requires rel != []
    ensures c.nsHost == rel + [DOT] + c.zone <==> rel == NsRel(c)
  {
    if c.nsHost == rel + [DOT] + c.zone {
      assert c.nsHost == rel + ([DOT] + c.zone);
    }
    if HasSuffix(c.nsHost, [DOT] + c.zone) {
      assert c.nsHost == TrimSuffix(c.nsHost, [DOT] + c.zone) + ([DOT] + c.zone);
    }
  }

  // ----- Rungs 1 and 2: refused -----

  /** Another class, or a name whose labels do not end in the zone's: REFUSED, and nothing with it. */
  lemma RefusedRung(c: Config, st: State, q: Question)
    requires !InClass(q) || !LabelsEndWith(Split(Canonical(q.name), DOT), Split(c.zone, DOT))
    ensures Resolve(c, st, q) == Verdict(REFUSED, [], [])
  {
    MembershipIsLabelWise(c.zone, Canonical(q.name));
  }

  // ----- Rung 3: the apex -----

  /** The apex holds SOA, NS and, when configured, its address; ANY asks for them in that order. */
  lemma ApexRung(c: Config, st: State, q: Question)
    requires InClass(q) && Canonical(q.name) == c.zone
    ensures var v := Resolve(c, st, q);
            && (q.qtype == TYPE_SOA ==> v == Found(SOA(c, st.serial)))
            && (q.qtype == TYPE_NS ==> v == Found(NS(c)))
            && (q.qtype !in {TYPE_SOA, TYPE_NS, TYPE_ANY} ==>
                  if c.apexA.NoAddr? then v == Nodata(c, st)
                  else AnswersAddress(v, c, st, c.zone, q.qtype, c.apexA))
            && (q.qtype == TYPE_ANY ==>
                  && v.rcode == NOERROR && v.authority == []
                  && if c.apexA.NoAddr? then v.answers == [SOA(c, st.serial), NS(c)]
                     else |v.answers| == 3 && v.answers[..2] == [SOA(c, st.serial), NS(c)]
                          && AnswersAddress(Found(v.answers[2]), c, st, c.zone, TYPE_ANY, c.apexA))
  {
    hide Canonical, SOA, NS;
  }

  // ----- Rung 4: the name-server host -----

  lemma NsHostRung(c: Config, st: State, q: Question, rel: bytes)
    requires Under(c, q, rel) && OnNsHost(c, rel)
    ensures AnswersAddress(Resolve(c, st, q), c, st, Canonical(q.name), q.qtype, c.apexA)
  {
    hide Resolve, SOA, Canonical;
    UnderIsBelow(c, st, q, rel);
  }

  // ----- Rung 5: registered records -----

  lemma {:induction false} NoneOfType(c: Config, name: bytes, qtype: u16, recs: seq<Record>)
    requires qtype != TYPE_ANY && forall i :: 0 <= i < |recs| ==> recs[i].rtype != qtype
    ensures StoredRRs(c, name, qtype, recs) == []
  {
    if recs != [] {
      NoneOfType(c, name, qtype, recs[1..]);
    }
  }

  lemma {:induction false} OneOfType(c: Config, name: bytes, qtype: u16, recs: seq<Record>)
    requires qtype != TYPE_ANY && OnePerType(recs) && AllSound(recs)
    ensures StoredRRs(c, name, qtype, recs) ==
            match Find(recs, qtype)
            case Some(r) => [AnswerFor(c, name, r)]
            case None => []
  {
    if recs != [] {
      assert SoundRecord(recs[0]);
      if recs[0].rtype == qtype {
        forall i | 0 <= i < |recs[1..]| ensures recs[1..][i].rtype != qtype {
          assert recs[0].rtype != recs[i + 1].rtype;
        }
        NoneOfType(c, name, qtype, recs[1..]);
      } else {
        OneOfType(c, name, qtype, recs[1..]);
      }
    }
  }

  lemma {:induction false} AllOfThem(c: Config, name: bytes, recs: seq<Record>)
    requires AllSound(recs)
    ensures |StoredRRs(c, name, TYPE_ANY, recs)| == |recs|
    ensures forall i :: 0 <= i < |recs| ==> StoredRRs(c, name, TYPE_ANY, recs)[i] == AnswerFor(c, name, recs[i])
  {
    if recs != [] {
      assert SoundRecord(recs[0]);
      AllOfThem(c, name, recs[1..]);
      var tail := StoredRRs(c, name, TYPE_ANY, recs[1..]);
      assert StoredRRs(c, name, TYPE_ANY, recs) == [AnswerFor(c, name, recs[0])] + tail;
    }
  }

  /** Registered beats everything below: a name with any record never falls through, whatever its
      labels carry and whatever the fallback is. Asked for a type it has, it answers that record;
      for one it lacks, NODATA; for ANY, all its records in order. */
  lemma StoredRung(c: Config, st: State, q: Question, rel: bytes)
    requires SoundStore(st) && Under(c, q, rel) && !OnNsHost(c, rel) && Stored(st, rel) != []
    ensures var v, recs, name := Resolve(c, st, q), Stored(st, rel), Canonical(q.name);
            && (q.qtype != TYPE_ANY ==>
                  v == match Find(recs, q.qtype)
                       case Some(r) => Found(AnswerFor(c, name, r))
                       case None => Nodata(c, st))
            && (q.qtype == TYPE_ANY ==>
                  && v.rcode == NOERROR && v.authority == [] && |v.answers| == |recs|
                  && forall i :: 0 <= i < |recs| ==> v.answers[i] == AnswerFor(c, name, recs[i]))
  {
    hide Resolve, SOA, Canonical, AnswerFor, StoredRRs, AllSound, OnePerType, Under, OnNsHost, NsRel, ValidOwner;
    UnderIsBelow(c, st, q, rel);
    if q.qtype == TYPE_ANY {
      AllOfThem(c, Canonical(q.name), Stored(st, rel));
    } else {
      OneOfType(c, Canonical(q.name), q.qtype, Stored(st, rel));
    }
  }

  // ----- Rungs 6 to 8: magic, fallback, nothing -----

  /** Nothing registered, and not the name-server host. */
  predicate Unclaimed(c: Config, st: State, rel: bytes) { Stored(st, rel) == [] && !OnNsHost(c, rel) }

  lemma MagicRung(c: Config, st: State, q: Question, rel: bytes)
    requires Under(c, q, rel) && Unclaimed(c, st, rel) && Magic.Extract(Split(rel, DOT)).Some?
    ensures AnswersAddress(Resolve(c, st, q), c, st, Canonical(q.name), q.qtype, Magic.Extract(Split(rel, DOT)).value)
  {
    hide Resolve, SOA, Canonical, Magic.Extract, Under, NsRel, OnNsHost;
    UnderIsBelow(c, st, q, rel);
    Magic.ExtractFamily(Split(rel, DOT));
  }

  lemma FallbackRung(c: Config, st: State, q: Question, rel: bytes)
    requires Under(c, q, rel) && Unclaimed(c, st, rel) && Magic.Extract(Split(rel, DOT)).None? && !c.fallback.NoAddr?
    ensures AnswersAddress(Resolve(c, st, q), c, st, Canonical(q.name), q.qtype, c.fallback)
  {
    hide Resolve, SOA, Canonical, Magic.Extract, Under, NsRel, OnNsHost;
    UnderIsBelow(c, st, q, rel);
  }

  lemma LastRung(c: Config, st: State, q: Question, rel: bytes)
    requires Under(c, q, rel) && Unclaimed(c, st, rel) && Magic.Extract(Split(rel, DOT)).None? && c.fallback.NoAddr?
    ensures Resolve(c, st, q) == Verdict(NXDOMAIN, [], [SOA(c, st.serial)])
  {
    hide Resolve, SOA, Canonical, Magic.Extract, Under, NsRel, OnNsHost;
    UnderIsBelow(c, st, q, rel);
  }

  /** No question is left over: outside, at the apex (a dot before the zone included), or under it. */
  lemma RungsCover(c: Config, q: Question)
    ensures || !InClass(q) || !LabelsEndWith(Split(Canonical(q.name), DOT), Split(c.zone, DOT))
            || Canonical(q.name) in {c.zone, [DOT] + c.zone}
            || exists rel :: Under(c, q, rel)
  {
    hide Canonical, Split;
    var name := Canonical(q.name);
    MembershipIsLabelWise(c.zone, name);
    if Relative(c.zone, name).Some? && name != c.zone {
      var rel := Relative(c.zone, name).value;
      assert name == rel + ([DOT] + c.zone) == rel + [DOT] + c.zone;
      if rel == [] {
        assert name == [DOT] + c.zone;
      } else {
        assert InClass(q) ==> Under(c, q, rel);
      }
    }
  }
}
