/** The update API of internal/api/api.go on already-parsed requests: which store operation a
    request asks for, and what it is refused for. */
module Api {
  import opened Bytes
  import opened Names
  import opened Messages
  import opened Zone
  import opened StoreRuns
  import opened Resolver
  import opened Answers

  datatype Verb = PUT | DELETE | OTHER

  /** A parsed PUT body; `addr` is what the address parser makes of `value`, NoAddr when it refuses. */
  datatype Request = Request(rtype: bytes, value: text, addr: Addr, ttl: u32)

  const TEXT_A: bytes := [65]
  const TEXT_AAAA: bytes := [65, 65, 65, 65]
  const TEXT_TXT: bytes := [84, 88, 84]
  const ACME: bytes := [95, 97, 99, 109, 101, 45, 99, 104, 97, 108, 108, 101, 110, 103, 101] // _acme-challenge
  const AT: bytes := [64]
  const ACME_TTL: u32 := 30

  function Upper(s: bytes): bytes {
    seq(|s|, i requires 0 <= i < |s| => if 97 <= s[i] <= 122 then s[i] - 32 else s[i])
  }

  function BuildRecord(req: Request): Option<Record> {
    var kind := Upper(req.rtype);
    if kind == TEXT_A || kind == TEXT_AAAA then
      if req.addr.NoAddr? then None
      else if kind == TEXT_A then
        if !req.addr.V4? && !req.addr.Is4In6() then None
        else Some(Record(TYPE_A, req.addr.Unmap(), [], req.ttl))
      else if !req.addr.V6? || req.addr.Is4In6() then None
      else Some(Record(TYPE_AAAA, req.addr, [], req.ttl))
    else if kind == TEXT_TXT then
      if req.value == [] || |req.value| > 255 then None
      else Some(Record(TYPE_TXT, NoAddr, [req.value], req.ttl))
    else None
  }

  lemma UpperSpells(s: bytes, word: bytes)
    requires forall i :: 0 <= i < |word| ==> 65 <= word[i] <= 90
    ensures Upper(s) == word <==> Lower(s) == Lower(word)
  {
    if Lower(s) == Lower(word) {
      assert forall i :: 0 <= i < |s| ==> Lower(s)[i] == Lower(word)[i];
      assert Upper(s) == word;
    }
    if Upper(s) == word {
      assert forall i :: 0 <= i < |s| ==> Upper(s)[i] == word[i];
      assert Lower(s) == Lower(word);
    }
  }

  /** The type spells `word` in any letter case. */
  predicate Spelled(rtype: bytes, word: bytes) { Lower(rtype) == Lower(word) }

  /** `addr` is the IPv4 address `q`, plain or mapped. */
  predicate IsIPv4(addr: Addr, q: quad) { addr == V4(q) || addr == V6(MAPPED + q) }

  lemma MappedUnmaps(addr: Addr, q: quad)
    ensures IsIPv4(addr, q) <==> (addr.V4? || addr.Is4In6()) && addr.Unmap() == V4(q)
  {
    assert (MAPPED + q)[..12] == MAPPED && (MAPPED + q)[12..] == q;
    if addr.V6? {
      assert addr.octets == addr.octets[..12] + addr.octets[12..];
    }
  }

  /** Which bodies pass, and what they store: type A any IPv4 address, mapped ones unmapped; AAAA
      any genuine IPv6 address; TXT a text of 1 to 255 octets; each under the TTL it came with. */
  lemma BuildRecordExact(req: Request, rec: Record)
    ensures BuildRecord(req) == Some(rec) <==>
            || (Spelled(req.rtype, TEXT_A) && exists q :: IsIPv4(req.addr, q) && rec == Record(TYPE_A, V4(q), [], req.ttl))
            || (Spelled(req.rtype, TEXT_AAAA) && req.addr.V6? && !req.addr.Is4In6()
                && rec == Record(TYPE_AAAA, req.addr, [], req.ttl))
            || (Spelled(req.rtype, TEXT_TXT) && 1 <= |req.value| <= 255
                && rec == Record(TYPE_TXT, NoAddr, [req.value], req.ttl))
  {
    hide Upper, Lower, Utf8;
    UpperSpells(req.rtype, TEXT_A);
    UpperSpells(req.rtype, TEXT_AAAA);
    UpperSpells(req.rtype, TEXT_TXT);
    KindsDiffer();
    forall q ensures IsIPv4(req.addr, q) <==> (req.addr.V4? || req.addr.Is4In6()) && req.addr.Unmap() == V4(q) {
      MappedUnmaps(req.addr, q);
    }
    if BuildRecord(req) == Some(rec) && Spelled(req.rtype, TEXT_A) {
      assert req.addr.Unmap().V4?;
      assert IsIPv4(req.addr, req.addr.Unmap().quad);
    }
  }

  lemma KindsDiffer()
    ensures Lower(TEXT_A) != Lower(TEXT_AAAA) && Lower(TEXT_A) != Lower(TEXT_TXT) && Lower(TEXT_AAAA) != Lower(TEXT_TXT)
  {
    assert |Lower(TEXT_A)| == 1 && |Lower(TEXT_AAAA)| == 4 && |Lower(TEXT_TXT)| == 3;
  }

  /** Only records whose address family or text length fits their type get through, with the TTL
      they came with. */
  lemma BuiltRecordsAreSound(req: Request)
    requires BuildRecord(req).Some?
    ensures SoundRecord(BuildRecord(req).value) && BuildRecord(req).value.ttl == req.ttl
  {
  }

  /** relName on the path segment after the route's prefix. */
  function RelName(zone: bytes, raw: bytes): Option<bytes> {
    var name := TrimSuffix(Lower(raw), [DOT]);
    if HasSuffix(name, [DOT] + zone) then
      var rel := TrimSuffix(name, [DOT] + zone);
      if ValidOwner(rel) then Some(rel) else None
    else if name == zone then None
    else if ValidOwner(name) then Some(name) else None
  }

  /** Whatever is sent, the API only ever writes at valid owners, never at the apex. */
  lemma RelNameIsValid(zone: bytes, raw: bytes)
    requires RelName(zone, raw).Some?
    ensures ValidOwner(RelName(zone, raw).value)
  {
  }

  /** The fully-qualified spelling of a valid owner, with or without the trailing dot, names the
      owner; the bare one does too, unless it happens to be or to end in the zone's own name. */
  lemma RelNameSpellings(zone: bytes, owner: bytes)
    requires ValidOwner(owner) && IsLower(zone) && !HasSuffix(zone, [DOT]) && zone != []
    ensures RelName(zone, owner + [DOT] + zone) == Some(owner)
    ensures RelName(zone, owner + [DOT] + zone + [DOT]) == Some(owner)
    ensures owner != zone && !HasSuffix(owner, [DOT] + zone) <==> RelName(zone, owner) == Some(owner)
  {
    hide ValidOwner;
    ValidOwnerIsLower(owner);
    ValidOwnerNoDot(owner);
    FqdnTrims(owner, zone);
    var fqdn := owner + [DOT] + zone;
    assert Lower(fqdn + [DOT]) == Lower(fqdn) + [DOT];
    assert TrimSuffix(fqdn + [DOT], [DOT]) == fqdn;
  }

  lemma ValidOwnerNotZoneForm(zone: bytes, owner: bytes)
    requires ValidOwner(owner) && IsLower(zone) && !HasSuffix(zone, [DOT]) && zone != []
    ensures var fqdn := owner + [DOT] + zone;
            TrimSuffix(fqdn, [DOT]) == fqdn && TrimSuffix(fqdn + [DOT], [DOT]) == fqdn
            && TrimSuffix(owner, [DOT]) == owner && TrimSuffix(owner + [DOT], [DOT]) == owner
            && HasSuffix(fqdn, [DOT] + zone) && TrimSuffix(fqdn, [DOT] + zone) == owner
  {
    hide ValidOwner, HasSuffix, TrimSuffix;
    ValidOwnerIsLower(owner);
    ValidOwnerNoDot(owner);
    FqdnTrims(owner, zone);
    DotTrims(owner);
    DotTrims(owner + [DOT] + zone);
    NoDotStays(owner);
  }

  lemma NoDotStays(name: bytes)
    requires !HasSuffix(name, [DOT])
    ensures TrimSuffix(name, [DOT]) == name
  {
  }

  lemma DotTrims(name: bytes)
    ensures TrimSuffix(name + [DOT], [DOT]) == name
  {
  }

  lemma Untrim(name: bytes, suffix: bytes)
    ensures HasSuffix(name, suffix) ==> name == TrimSuffix(name, suffix) + suffix
  {
  }

  /** Exactly the spellings of an owner, in any letter case: qualified or not, with a trailing dot
      or not; unqualified only while that is not itself the zone or something under it. */
  lemma RelNameExact(zone: bytes, raw: bytes, owner: bytes)
    requires IsLower(zone) && !HasSuffix(zone, [DOT]) && zone != []
    ensures RelName(zone, raw) == Some(owner) <==>
            && ValidOwner(owner)
            && (Lower(raw) in {owner + [DOT] + zone, owner + [DOT] + zone + [DOT]}
                || (Lower(raw) in {owner, owner + [DOT]} && owner != zone && !HasSuffix(owner, [DOT] + zone)))
  {
    hide ValidOwner, Lower, IsLower, HasSuffix, TrimSuffix;
    if ValidOwner(owner) {
      ValidOwnerNotZoneForm(zone, owner);
    }
    var trimmed := TrimSuffix(Lower(raw), [DOT]);
    Untrim(Lower(raw), [DOT]);
    Untrim(trimmed, [DOT] + zone);
    TrimNothing(Lower(raw), [DOT]);
    if RelName(zone, raw) == Some(owner) && HasSuffix(trimmed, [DOT] + zone) {
      assert trimmed == owner + ([DOT] + zone) == owner + [DOT] + zone;
    }
  }

  lemma TrimNothing(name: bytes, suffix: bytes)
    ensures !HasSuffix(name, suffix) ==> TrimSuffix(name, suffix) == name
  {
  }

  /** Normalizing a fully-qualified owner peels off the zone. */
  lemma FqdnTrims(owner: bytes, zone: bytes)
    requires IsLower(owner) && IsLower(zone) && !HasSuffix(zone, [DOT]) && zone != []
    ensures var fqdn := owner + [DOT] + zone;
            && Lower(fqdn) == fqdn && TrimSuffix(fqdn, [DOT]) == fqdn
            && HasSuffix(fqdn, [DOT] + zone) && TrimSuffix(fqdn, [DOT] + zone) == owner
  {
    var fqdn := owner + [DOT] + zone;
    LowerFixed(fqdn);
    assert fqdn[|fqdn| - 1] == zone[|zone| - 1];
    assert fqdn == owner + ([DOT] + zone);
  }

  lemma ValidOwnerNoDot(owner: bytes)
    requires ValidOwner(owner)
    ensures !HasSuffix(owner, [DOT])
  {
    if HasSuffix(owner, [DOT]) {
      DotEndsInEmptyLabel(owner);
      assert false;
    }
  }

  lemma DotEndsInEmptyLabel(name: bytes)
    requires HasSuffix(name, [DOT])
    ensures !ValidOwner(name)
  {
    var stem := name[..|name| - 1];
    assert name == stem + [DOT] + [];
    SplitConcat(stem, [], DOT);
    var labels := Split(name, DOT);
    assert labels[|labels| - 1] == [];
  }

  /** The owner of a DNS-01 challenge record. */
  function AcmeOwner(zone: bytes, raw: bytes): bytes {
    var name := TrimSuffix(Lower(raw), [DOT]);
    var rel := TrimSuffix(name, [DOT] + zone);
    if rel == AT || rel == [] || rel == zone then ACME else ACME + [DOT] + rel
  }

  /** "@", nothing at all and the zone itself all mean the apex challenge. Any other name gets the
      challenge label in front: fully qualified, with or without the trailing dot, unless it is the
      zone put under itself, which the code takes for the apex; relative, unless it is or ends in
      the zone's own name. */
  lemma AcmeOwners(zone: bytes, owner: bytes)
    requires ValidOwner(owner) && IsLower(zone) && !HasSuffix(zone, [DOT]) && zone != []
    ensures AcmeOwner(zone, AT) == ACME && AcmeOwner(zone, []) == ACME && AcmeOwner(zone, zone) == ACME
    ensures AcmeOwner(zone, owner) == ACME + [DOT] + owner <==> owner != zone && !HasSuffix(owner, [DOT] + zone)
    ensures AcmeOwner(zone, owner + [DOT] + zone) == ACME + [DOT] + owner <==> owner != zone
    ensures AcmeOwner(zone, owner + [DOT] + zone + [DOT]) == ACME + [DOT] + owner <==> owner != zone
    ensures AcmeOwner(zone, zone + [DOT] + zone) == ACME
  {
    hide ValidOwner, AcmeOwner, HasSuffix, IsLower;
    ApexChallenges(zone);
    RelativeChallenge(zone, owner);
    QualifiedChallenges(zone, owner);
    ZoneUnderItself(zone);
  }

  lemma ApexChallenges(zone: bytes)
    requires IsLower(zone) && !HasSuffix(zone, [DOT]) && zone != []
    ensures AcmeOwner(zone, AT) == ACME && AcmeOwner(zone, []) == ACME && AcmeOwner(zone, zone) == ACME
  {
    LowerFixed(AT);
    LowerFixed(zone);
    assert Lower([]) == [];
    assert !HasSuffix(AT, [DOT] + zone) && !HasSuffix(zone, [DOT] + zone);
  }

  lemma RelativeChallenge(zone: bytes, owner: bytes)
    requires ValidOwner(owner)
    ensures AcmeOwner(zone, owner) == ACME + [DOT] + owner <==> owner != zone && !HasSuffix(owner, [DOT] + zone)
  {
    hide ValidOwner;
    AtIsNoOwner();
    ValidOwnerIsLower(owner);
    ValidOwnerNoDot(owner);
  }

  lemma QualifiedChallenges(zone: bytes, owner: bytes)
    requires ValidOwner(owner) && IsLower(zone) && !HasSuffix(zone, [DOT]) && zone != []
    ensures AcmeOwner(zone, owner + [DOT] + zone) == ACME + [DOT] + owner <==> owner != zone
    ensures AcmeOwner(zone, owner + [DOT] + zone + [DOT]) == ACME + [DOT] + owner <==> owner != zone
  {
    hide ValidOwner, HasSuffix;
    AtIsNoOwner();
    ValidOwnerIsLower(owner);
    FqdnTrims(owner, zone);
    var fqdn := owner + [DOT] + zone;
    assert Lower(fqdn + [DOT]) == Lower(fqdn) + [DOT];
    assert TrimSuffix(fqdn + [DOT], [DOT]) == fqdn by { DotTrims(fqdn); }
  }

  lemma ZoneUnderItself(zone: bytes)
    requires IsLower(zone) && !HasSuffix(zone, [DOT]) && zone != []
    ensures AcmeOwner(zone, zone + [DOT] + zone) == ACME
  {
    hide HasSuffix;
    FqdnTrims(zone, zone);
  }

  /** Letter case never matters. */
  lemma AcmeAnyCase(zone: bytes, raw: bytes)
    ensures AcmeOwner(zone, raw) == AcmeOwner(zone, Lower(raw))
  {
    hide HasSuffix;
    LowerFixed(raw);
    LowerFixed(Lower(raw));
  }

  lemma AtIsNoOwner()
    ensures !ValidOwner(AT) && !ValidOwner([])
  {
    SplitWord(AT, DOT);
    assert !OwnerByte(AT[0]);
    assert !OwnerLabel(Split(AT, DOT)[0]);
  }

  // ----- Requests as store operations -----

  /** Why a records request is refused before it reaches the store. */
  function RecordRefusal(zone: bytes, authentic: bool, verb: Verb, raw: bytes, body: Option<Request>): Option<nat> {
    if !authentic then Some(401)
    else if RelName(zone, raw).None? then Some(400)
    else
      match verb
      case PUT => if body.None? || BuildRecord(body.value).None? then Some(400) else None
      case DELETE => None
      case OTHER => Some(405)
  }

  function RecordOp(zone: bytes, verb: Verb, raw: bytes, body: Option<Request>): Op
    requires RecordRefusal(zone, true, verb, raw, body).None?
  {
    var name := RelName(zone, raw).value;
    if verb.PUT? then PutOp(name, BuildRecord(body.value).value) else RemoveOp(name, 0)
  }

  function AcmeRefusal(zone: bytes, authentic: bool, verb: Verb, raw: bytes, body: Option<text>): Option<nat> {
    if !authentic then Some(401)
    else if !ValidOwner(AcmeOwner(zone, raw)) then Some(400)
    else
      match verb
      case PUT => if body.None? || body.value == [] || |body.value| > 255 then Some(400) else None
      case DELETE => None
      case OTHER => Some(405)
  }

  function AcmeOp(zone: bytes, verb: Verb, raw: bytes, body: Option<text>): Op
    requires AcmeRefusal(zone, true, verb, raw, body).None?
  {
    var owner := AcmeOwner(zone, raw);
    if verb.PUT? then PutOp(owner, Record(TYPE_TXT, NoAddr, [body.value], ACME_TTL)) else RemoveOp(owner, TYPE_TXT)
  }

  /** Both routes only ask for operations that keep a store sound and that survive the state file:
      strings that come out of JSON parsing are valid UTF-8. */
  lemma OpsAreSound(zone: bytes, verb: Verb, raw: bytes, body: Option<Request>, token: Option<text>)
    ensures RecordRefusal(zone, true, verb, raw, body).None? ==>
              var op := RecordOp(zone, verb, raw, body); CleanOp(op) && (op.PutOp? ==> SoundRecord(op.rec))
    ensures AcmeRefusal(zone, true, verb, raw, token).None? ==>
              var op := AcmeOp(zone, verb, raw, token); CleanOp(op) && (op.PutOp? ==> SoundRecord(op.rec))
  {
    if RecordRefusal(zone, true, verb, raw, body).None? && verb.PUT? {
      BuiltRecordsAreSound(body.value);
    }
  }

  // ----- The handler -----

  /** The status of a removal. */
  function RemovalStatus(removed: bool, ok: bool): nat { if !ok then 500 else if removed then 200 else 404 }

  class Handler {
    const store: Store
    const zone: bytes

    constructor (store: Store, zone: bytes)
      ensures this.store == store && this.zone == zone
    {
      this.store, this.zone := store, zone;
    }

    /** The store's present state can be saved, if it is to be. */
    predicate Stores(io: Io)
      reads store
    {
      !store.persistent || (SnapshotOf(store.Now()).Some? && io.AllFine?)
    }

    /** PUT and DELETE on a record. A refused request changes nothing; an accepted one applies its
        operation even when saving fails, which is then reported. The serial in the reply is the
        store's serial after the operation. */
    method Record(authentic: bool, verb: Verb, raw: bytes, body: Option<Request>, io: Io)
      returns (status: nat, serial: u32)
      modifies store
      ensures !authentic ==> status == 401
      ensures authentic && RelName(zone, raw).None? ==> status == 400
      ensures authentic && RelName(zone, raw).Some? ==>
                var owner := RelName(zone, raw).value;
                match verb
                case PUT =>
                  if body.Some? && BuildRecord(body.value).Some? then
                    && store.Now() == Put(old(store.Now()), owner, BuildRecord(body.value).value)
                    && status == if Stores(io) then 200 else 500
                  else status == 400
                case DELETE =>
                  && store.Now() == Remove(old(store.Now()), owner, 0)
                  && status == if store.Now() == old(store.Now()) then 404 else if Stores(io) then 200 else 500
                case OTHER => status == 405
      ensures status in {400, 401, 404, 405} ==> store.Now() == old(store.Now()) && store.disk == old(store.disk)
      ensures serial == store.serial
      ensures match RecordRefusal(zone, authentic, verb, raw, body)
              case Some(code) => status == code && store.Now() == old(store.Now()) && store.disk == old(store.disk)
              case None =>
                var op := RecordOp(zone, verb, raw, body);
                var st := Apply(old(store.Now()), op);
                && store.Now() == st && serial == st.serial
                && if verb.PUT? then
                     var (disk, ok) := old(store.Saved(Apply(store.Now(), op), io));
                     store.disk == disk && status == if ok then 200 else 500
                   else if Removes(old(store.Now()), op.name, 0) then
                     var (disk, ok) := old(store.Saved(Apply(store.Now(), op), io));
                     store.disk == disk && status == RemovalStatus(true, ok)
                   else store.disk == old(store.disk) && status == 404
    {
      serial := store.serial;
      if !authentic {
        return 401, serial;
      }
      var name := RelName(zone, raw);
      if name.None? {
        return 400, serial;
      }
      RelNameIsValid(zone, raw);
      ValidOwnerIsLower(name.value);
      match verb {
        case PUT =>
          if body.None? {
            return 400, serial;
          }
          var rec := BuildRecord(body.value);
          if rec.None? {
            return 400, serial;
          }
          var ok := store.Set(name.value, rec.value, io);
          return if ok then 200 else 500, store.serial;
        case DELETE =>
          var removed, ok := store.Delete(name.value, 0, io);
          return RemovalStatus(removed, ok), store.serial;
        case OTHER => return 405, serial;
      }
    }

    /** PUT and DELETE on a challenge. */
    method Acme(authentic: bool, verb: Verb, raw: bytes, body: Option<text>, io: Io)
      returns (status: nat, serial: u32)
      modifies store
      ensures !authentic ==> status == 401
      ensures authentic && !ValidOwner(AcmeOwner(zone, raw)) ==> status == 400
      ensures authentic && ValidOwner(AcmeOwner(zone, raw)) ==>
                var owner := AcmeOwner(zone, raw);
                match verb
                case PUT =>
                  if body.Some? && 1 <= |body.value| <= 255 then
                    && store.Now() == Put(old(store.Now()), owner, Zone.Record(TYPE_TXT, NoAddr, [body.value], 30))
                    && status == if Stores(io) then 200 else 500
                  else status == 400
                case DELETE =>
                  && store.Now() == Remove(old(store.Now()), owner, TYPE_TXT)
                  && status == if store.Now() == old(store.Now()) then 404 else if Stores(io) then 200 else 500
                case OTHER => status == 405
      ensures status in {400, 401, 404, 405} ==> store.Now() == old(store.Now()) && store.disk == old(store.disk)
      ensures serial == store.serial
      ensures match AcmeRefusal(zone, authentic, verb, raw, body)
              case Some(code) => status == code && store.Now() == old(store.Now()) && store.disk == old(store.disk)
              case None =>
                var op := AcmeOp(zone, verb, raw, body);
                var st := Apply(old(store.Now()), op);
                && store.Now() == st && serial == st.serial
                && if verb.PUT? then
                     var (disk, ok) := old(store.Saved(Apply(store.Now(), op), io));
                     store.disk == disk && status == if ok then 200 else 500
                   else if Removes(old(store.Now()), op.name, TYPE_TXT) then
                     var (disk, ok) := old(store.Saved(Apply(store.Now(), op), io));
                     store.disk == disk && status == RemovalStatus(true, ok)
                   else store.disk == old(store.disk) && status == 404
    {
      serial := store.serial;
      if !authentic {
        return 401, serial;
      }
      var owner := AcmeOwner(zone, raw);
      var valid := ValidateName(owner);
      if !valid {
        return 400, serial;
      }
      ValidOwnerIsLower(owner);
      match verb {
        case PUT =>
          if body.None? || body.value == [] || |body.value| > 255 {
            return 400, serial;
          }
          var ok := store.Set(owner, Zone.Record(TYPE_TXT, NoAddr, [body.value], ACME_TTL), io);
          return if ok then 200 else 500, store.serial;
        case DELETE =>
          var removed, ok := store.Delete(owner, TYPE_TXT, io);
          return RemovalStatus(removed, ok), store.serial;
        case OTHER => return 405, serial;
      }
    }
  }
}
