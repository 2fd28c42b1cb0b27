/** The record store of internal/zone/zone.go: its mutations, the map they implement, and the
    stored shape of a snapshot. */
module Zone {
  import opened Bytes
  import opened Messages

  datatype Record = Record(rtype: u16, addr: Addr, txt: seq<bytes>, ttl: u32)

  /** What the lock protects. */
  datatype State = State(records: map<bytes, seq<Record>>, serial: u32)

  const EMPTY: State := State(map[], 1)

  // ----- Owner names -----

  predicate OwnerByte(c: byte) { 97 <= c <= 122 || 48 <= c <= 57 || c == DASH || c == 95 }

  // abcdefghijklmnopqrstuvwxyz0123456789-_
  const OWNER_ALPHABET: bytes := [
    97, 98, 99, 100, 101, 102, 103, 104, 105, 106, 107, 108, 109, 110, 111, 112, 113, 114, 115, 116,
    117, 118, 119, 120, 121, 122, 48, 49, 50, 51, 52, 53, 54, 55, 56, 57, 45, 95
  ]

  lemma OwnerAlphabet(c: byte)
    ensures OwnerByte(c) <==> c in OWNER_ALPHABET
  {
    assert forall i :: 0 <= i < 26 ==> OWNER_ALPHABET[i] == 97 + i;
    assert forall i :: 26 <= i < 36 ==> OWNER_ALPHABET[i] == 48 + i - 26;
    if 97 <= c <= 122 {
      assert OWNER_ALPHABET[c - 97] == c;
    }
    if 48 <= c <= 57 {
      assert OWNER_ALPHABET[c as int - 48 + 26] == c;
    }
  }

  predicate OwnerLabel(part: bytes) {
    && 0 < |part| <= 63 && part[0] != DASH && part[|part| - 1] != DASH
    && forall i :: 0 <= i < |part| ==> OwnerByte(part[i])
  }

  /** One to three dot-separated labels of [a-z0-9_-], none empty, over 63 bytes or edged by '-'. */
  predicate ValidOwner(name: bytes) {
    && name != [] && |Split(name, DOT)| <= 3
    && forall i :: 0 <= i < |Split(name, DOT)| ==> OwnerLabel(Split(name, DOT)[i])
  }

  predicate AlphabetLabel(part: bytes) {
    && 1 <= |part| <= 63 && part[0] != DASH && part[|part| - 1] != DASH
    && forall j :: 0 <= j < |part| ==> part[j] in OWNER_ALPHABET
  }

  predicate AlphabetOwner(name: bytes, labels: seq<bytes>) {
    1 <= |labels| <= 3 && name == Join(labels, DOT) && forall i :: 0 <= i < |labels| ==> AlphabetLabel(labels[i])
  }

  lemma AlphabetLabelExact(part: bytes)
    ensures OwnerLabel(part) <==> AlphabetLabel(part)
    ensures AlphabetLabel(part) ==> DOT !in part
  {
    hide OwnerByte, OWNER_ALPHABET;
    forall j | 0 <= j < |part| ensures OwnerByte(part[j]) <==> part[j] in OWNER_ALPHABET {
      OwnerAlphabet(part[j]);
    }
    OwnerAlphabet(DOT);
    assert !OwnerByte(DOT) by { DotIsNoOwnerByte(); }
  }

  lemma DotIsNoOwnerByte()
    ensures !OwnerByte(DOT)
  {
  }

  /** The owners accepted are the joins of one to three such labels. */
  lemma ValidOwnerExact(name: bytes)
    ensures ValidOwner(name) <==> exists labels :: AlphabetOwner(name, labels)
  {
    hide OwnerLabel, AlphabetLabel, Split, Join;
    if ValidOwner(name) {
      JoinSplit(name, DOT);
      forall i | 0 <= i < |Split(name, DOT)| ensures AlphabetLabel(Split(name, DOT)[i]) {
        AlphabetLabelExact(Split(name, DOT)[i]);
      }
      assert AlphabetOwner(name, Split(name, DOT));
    }
    if exists labels :: AlphabetOwner(name, labels) {
      var labels :| AlphabetOwner(name, labels);
      forall i | 0 <= i < |labels| ensures OwnerLabel(labels[i]) && DOT !in labels[i] {
        AlphabetLabelExact(labels[i]);
      }
      SplitJoin(labels, DOT);
      LabelNotEmpty(labels[0]);
      JoinStarts(labels);
    }
  }

  lemma LabelNotEmpty(part: bytes)
    requires OwnerLabel(part)
    ensures part != []
  {
  }

  lemma JoinStarts(labels: seq<bytes>)
    requires labels != [] && labels[0] != []
    ensures Join(labels, DOT) != []
  {
  }

  method ValidateName(name: bytes) returns (ok: bool)
    ensures ok == ValidOwner(name)
  {
    if name == [] {
      return false;
    }
    var labels := Split(name, DOT);
    if |labels| > 3 {
      return false;
    }
    for k := 0 to |labels|
      invariant forall i :: 0 <= i < k ==> OwnerLabel(labels[i])
    {
      var l := labels[k];
      if |l| == 0 || |l| > 63 {
        return false;
      }
      if l[0] == DASH || l[|l| - 1] == DASH {
        return false;
      }
      for i := 0 to |l|
        invariant forall j :: 0 <= j < i ==> OwnerByte(l[j])
      {
        if !OwnerByte(l[i]) {
          return false;
        }
      }
    }
    return true;
  }

  lemma {:induction false} LowerByLabels(name: bytes)
    requires forall i :: 0 <= i < |Split(name, DOT)| ==> IsLower(Split(name, DOT)[i])
    ensures IsLower(name)
  {
    if name != [] {
      var rest := Split(name[1..], DOT);
      if name[0] == DOT {
        assert forall i :: 0 <= i < |rest| ==> rest[i] == Split(name, DOT)[i + 1];
      } else {
        var first := Split(name, DOT)[0];
        assert first == [name[0]] + rest[0];
        assert forall j :: 0 <= j < |rest[0]| ==> rest[0][j] == first[j + 1];
        assert forall i :: 1 <= i < |rest| ==> rest[i] == Split(name, DOT)[i];
        assert first[0] == name[0];
      }
      LowerByLabels(name[1..]);
      assert name == [name[0]] + name[1..];
    }
  }

  /** A valid owner is already lowercase, so it is its own key. */
  lemma ValidOwnerIsLower(name: bytes)
    requires ValidOwner(name)
    ensures IsLower(name) && Lower(name) == name
  {
    forall i | 0 <= i < |Split(name, DOT)| ensures IsLower(Split(name, DOT)[i]) {
      assert OwnerLabel(Split(name, DOT)[i]);
      assert forall j :: 0 <= j < |Split(name, DOT)[i]| ==> OwnerByte(Split(name, DOT)[i][j]);
    }
    LowerByLabels(name);
    LowerFixed(name);
  }

  // ----- Mutations -----

  /** The records of any other type, in order. */
  function Others(recs: seq<Record>, rtype: u16): seq<Record> {
    if recs == [] then []
    else (if recs[0].rtype != rtype then [recs[0]] else []) + Others(recs[1..], rtype)
  }

  lemma OthersCons(r: Record, recs: seq<Record>, rtype: u16)
    ensures Others([r] + recs, rtype) == (if r.rtype != rtype then [r] else []) + Others(recs, rtype)
  {
    assert ([r] + recs)[1..] == recs;
  }

  lemma {:induction false} OthersSnoc(recs: seq<Record>, r: Record, rtype: u16)
    ensures Others(recs + [r], rtype) == Others(recs, rtype) + if r.rtype != rtype then [r] else []
  {
    if recs == [] {
      assert recs + [r] == [r] + [];
      OthersCons(r, [], rtype);
    } else {
      hide Others;
      assert recs == [recs[0]] + recs[1..] && recs + [r] == [recs[0]] + (recs[1..] + [r]);
      OthersCons(recs[0], recs[1..], rtype);
      OthersCons(recs[0], recs[1..] + [r], rtype);
      OthersSnoc(recs[1..], r, rtype);
    }
  }

  function Stored(st: State, name: bytes): seq<Record> {
    if Lower(name) in st.records then st.records[Lower(name)] else []
  }

  function Bump(serial: u32): u32 { (serial + 1) % 0x1_0000_0000 }

  /** Set: replaces the record of the same type; a bad owner changes nothing. */
  function Put(st: State, name: bytes, rec: Record): State {
    var key := Lower(name);
    if !ValidOwner(key) then st
    else State(st.records[key := Others(Stored(st, name), rec.rtype) + [rec]], Bump(st.serial))
  }

  /** What Delete leaves at a name; type 0 stands for every type. */
  function Kept(recs: seq<Record>, rtype: u16): seq<Record> {
    if rtype == 0 then [] else Others(recs, rtype)
  }

  predicate Removes(st: State, name: bytes, rtype: u16) {
    Lower(name) in st.records && |Kept(st.records[Lower(name)], rtype)| != |st.records[Lower(name)]|
  }

  /** Delete: nothing to remove leaves the state alone, serial included. */
  function Remove(st: State, name: bytes, rtype: u16): State {
    var key := Lower(name);
    if !Removes(st, name, rtype) then st
    else
      var kept := Kept(st.records[key], rtype);
      State(if kept == [] then st.records - {key} else st.records[key := kept], Bump(st.serial))
  }

  // ----- Text in JSON -----

  predicate Continues(s: bytes, i: nat) { i < |s| && 0x80 <= s[i] <= 0xBF }

  /** Octets of the UTF-8 character that opens `s` (section 4 of RFC 3629), 0 where there is none:
      no overlong forms, no surrogates, nothing above U+10FFFF. */
  function RuneLen(s: bytes): (n: nat)
    ensures n <= |s| && n <= 4
  {
    if s == [] then 0
    else if s[0] < 0x80 then 1
    else if 0xC2 <= s[0] <= 0xDF && Continues(s, 1) then 2
    else if 0xE0 <= s[0] <= 0xEF && Continues(s, 1) && Continues(s, 2)
      && (s[0] == 0xE0 ==> s[1] >= 0xA0) && (s[0] == 0xED ==> s[1] < 0xA0) then 3
    else if 0xF0 <= s[0] <= 0xF4 && Continues(s, 1) && Continues(s, 2) && Continues(s, 3)
      && (s[0] == 0xF0 ==> s[1] >= 0x90) && (s[0] == 0xF4 ==> s[1] < 0x90) then 4
    else 0
  }

  predicate Utf8(s: bytes)
    decreases |s|
  {
    s != [] ==> RuneLen(s) > 0 && Utf8(s[RuneLen(s)..])
  }

  // The definition from the other side: what a character encodes to.

  predicate IsRune(c: nat) { c < 0xD800 || 0xE000 <= c <= 0x10FFFF }

  /** The UTF-8 form of a character (section 3 of RFC 3629). */
  function RuneBytes(c: nat): (r: bytes)
    requires IsRune(c)
    ensures r != []
  {
    if c < 0x80 then [c]
    else if c < 0x800 then [0xC0 + c / 0x40, 0x80 + c % 0x40]
    else if c < 0x1_0000 then [0xE0 + c / 0x1000, 0x80 + c / 0x40 % 0x40, 0x80 + c % 0x40]
    else [0xF0 + c / 0x4_0000, 0x80 + c / 0x1000 % 0x40, 0x80 + c / 0x40 % 0x40, 0x80 + c % 0x40]
  }

  function Text(runes: seq<nat>): bytes
    requires forall i :: 0 <= i < |runes| ==> IsRune(runes[i])
  {
    if runes == [] then [] else RuneBytes(runes[0]) + Text(runes[1..])
  }

  lemma TwoByteRune(a: nat, b: nat)
    requires 2 <= a < 0x20 && b < 0x40
    ensures RuneBytes(a * 0x40 + b) == [0xC0 + a, 0x80 + b]
  {
  }

  lemma ThreeByteRune(a: nat, b: nat, c: nat)
    requires a < 0x10 && b < 0x40 && c < 0x40 && (a == 0 ==> b >= 0x20) && (a == 0xD ==> b < 0x20)
    ensures var r := a * 0x1000 + b * 0x40 + c; IsRune(r) && RuneBytes(r) == [0xE0 + a, 0x80 + b, 0x80 + c]
  {
    var r := a * 0x1000 + b * 0x40 + c;
    assert r / 0x40 == a * 0x40 + b && r % 0x40 == c;
    assert r / 0x1000 == a;
  }

  lemma FourByteRune(a: nat, b: nat, c: nat, d: nat)
    requires a < 5 && b < 0x40 && c < 0x40 && d < 0x40 && (a == 0 ==> b >= 0x10) && (a == 4 ==> b < 0x10)
    ensures var r := a * 0x4_0000 + b * 0x1000 + c * 0x40 + d;
            IsRune(r) && RuneBytes(r) == [0xF0 + a, 0x80 + b, 0x80 + c, 0x80 + d]
  {
    var r := a * 0x4_0000 + b * 0x1000 + c * 0x40 + d;
    assert r / 0x40 == a * 0x1000 + b * 0x40 + c && r % 0x40 == d;
    assert r / 0x1000 == a * 0x40 + b && r / 0x40 % 0x40 == c;
    assert r / 0x4_0000 == a && r / 0x1000 % 0x40 == b;
  }

  /** The character a valid opening stands for. */
  lemma RuneAt(s: bytes) returns (r: nat)
    requires RuneLen(s) > 0
    ensures IsRune(r) && s[..RuneLen(s)] == RuneBytes(r)
  {
    var n := RuneLen(s);
    if n == 1 {
      r := s[0];
    } else if n == 2 {
      r := (s[0] as int - 0xC0) * 0x40 + (s[1] - 0x80);
      TwoByteRune(s[0] - 0xC0, s[1] - 0x80);
    } else if n == 3 {
      r := (s[0] as int - 0xE0) * 0x1000 + (s[1] as int - 0x80) * 0x40 + (s[2] - 0x80);
      ThreeByteRune(s[0] - 0xE0, s[1] - 0x80, s[2] - 0x80);
    } else {
      r := (s[0] as int - 0xF0) * 0x4_0000 + (s[1] as int - 0x80) * 0x1000 + (s[2] as int - 0x80) * 0x40 + (s[3] - 0x80);
      FourByteRune(s[0] - 0xF0, s[1] - 0x80, s[2] - 0x80, s[3] - 0x80);
    }
  }

  lemma RuneOpens(r: nat, rest: bytes)
    requires IsRune(r)
    ensures RuneLen(RuneBytes(r) + rest) == |RuneBytes(r)|
  {
    if r < 0x1_0000 {
      assert r / 0x40 == r / 0x1000 * 0x40 + r / 0x40 % 0x40;
    } else {
      assert r / 0x40 == r / 0x1000 * 0x40 + r / 0x40 % 0x40;
      assert r / 0x1000 == r / 0x4_0000 * 0x40 + r / 0x1000 % 0x40;
    }
  }

  lemma {:induction false} TextIsUtf8(runes: seq<nat>)
    requires forall i :: 0 <= i < |runes| ==> IsRune(runes[i])
    ensures Utf8(Text(runes))
  {
    hide RuneBytes, RuneLen;
    if runes != [] {
      TextIsUtf8(runes[1..]);
      RuneOpens(runes[0], Text(runes[1..]));
      var s := Text(runes);
      assert s[|RuneBytes(runes[0])|..] == Text(runes[1..]);
    }
  }

  lemma {:induction false} Utf8IsText(s: bytes) returns (runes: seq<nat>)
    requires Utf8(s)
    ensures (forall i :: 0 <= i < |runes| ==> IsRune(runes[i])) && Text(runes) == s
    decreases |s|
  {
    hide RuneBytes, RuneLen;
    runes := [];
    if s != [] {
      var r := RuneAt(s);
      var rest := Utf8IsText(s[RuneLen(s)..]);
      runes := [r] + rest;
      assert runes[1..] == rest;
      assert s == s[..RuneLen(s)] + s[RuneLen(s)..];
    }
  }

  ghost predicate IsText(s: bytes, runes: seq<nat>) {
    (forall i :: 0 <= i < |runes| ==> IsRune(runes[i])) && Text(runes) == s
  }

  /** Valid UTF-8 is what sequences of characters encode to. */
  lemma Utf8Exact(s: bytes)
    ensures Utf8(s) <==> exists runes :: IsText(s, runes)
  {
    hide Utf8, Text;
    if Utf8(s) {
      var runes := Utf8IsText(s);
      assert IsText(s, runes);
    }
    if exists runes :: IsText(s, runes) {
      var runes :| IsText(s, runes);
      TextIsUtf8(runes);
    }
  }

  /** A string as JSON parsing delivers it. */
  type text = s: bytes | Utf8(s)

  const REPLACEMENT: bytes := [0xEF, 0xBF, 0xBD]

  /** A string after a trip through JSON: each octet that opens no character becomes U+FFFD. */
  function Repair(s: bytes): bytes
    decreases |s|
  {
    if s == [] then []
    else if RuneLen(s) == 0 then REPLACEMENT + Repair(s[1..])
    else s[..RuneLen(s)] + Repair(s[RuneLen(s)..])
  }

  /** Exactly valid UTF-8 survives. */
  lemma {:induction false} RepairKeeps(s: bytes)
    ensures Repair(s) == s <==> Utf8(s)
    decreases |s|
  {
    if s != [] {
      var n := RuneLen(s);
      if n > 0 {
        RepairKeeps(s[n..]);
        assert s == s[..n] + s[n..];
        assert Repair(s)[n..] == Repair(s[n..]);
      } else {
        var r := Repair(s);
        assert r == REPLACEMENT + Repair(s[1..]);
        assert r[0] == 0xEF && r[1] == 0xBF && r[2] == 0xBD && RuneLen(r) == 3;
      }
    }
  }

  /** Valid text stays up to the first octet that opens no character; that octet alone becomes
      U+FFFD, and the rest is repaired after it. */
  lemma {:induction false} RepairReplaces(runes: seq<nat>, b: byte, rest: bytes)
    requires (forall i :: 0 <= i < |runes| ==> IsRune(runes[i])) && RuneLen([b] + rest) == 0
    ensures Repair(Text(runes) + [b] + rest) == Text(runes) + [0xEF, 0xBF, 0xBD] + Repair(rest)
  {
    hide RuneLen, RuneBytes;
    if runes == [] {
      assert Text(runes) + [b] + rest == [b] + rest && ([b] + rest)[1..] == rest;
    } else {
      var first, tail := RuneBytes(runes[0]), Text(runes[1..]);
      var s := first + (tail + [b] + rest);
      RuneOpens(runes[0], tail + [b] + rest);
      RepairReplaces(runes[1..], b, rest);
      assert Text(runes) + [b] + rest == s;
      assert s[..|first|] == first && s[|first|..] == tail + [b] + rest;
    }
  }

  function RepairAll(txt: seq<bytes>): seq<bytes> { seq(|txt|, i requires 0 <= i < |txt| => Repair(txt[i])) }

  predicate AllUtf8(txt: seq<bytes>) { forall i :: 0 <= i < |txt| ==> Utf8(txt[i]) }

  lemma RepairAllKeeps(txt: seq<bytes>)
    ensures RepairAll(txt) == txt <==> AllUtf8(txt)
  {
    forall i | 0 <= i < |txt| ensures RepairAll(txt)[i] == txt[i] <==> Utf8(txt[i]) {
      RepairKeeps(txt[i]);
    }
  }

  // ----- Snapshots -----

  /** recordJSON: the type's name, the presentation address or the strings, and the TTL. */
  datatype StoredRecord = StoredAddr(rtype: u16, addr: Addr, ttl: u32) | StoredText(txt: seq<bytes>, ttl: u32)

  datatype Snapshot = Snapshot(serial: u32, records: map<bytes, seq<StoredRecord>>)

  function Marshal(r: Record): Option<StoredRecord> {
    if r.rtype == TYPE_A || r.rtype == TYPE_AAAA then Some(StoredAddr(r.rtype, r.addr, r.ttl))
    else if r.rtype == TYPE_TXT then Some(StoredText(RepairAll(r.txt), r.ttl))
    else None
  }

  /** An unset address renders as text that does not parse back. */
  function Unmarshal(s: StoredRecord): Option<Record> {
    match s
    case StoredAddr(rtype, addr, ttl) => if addr.NoAddr? then None else Some(Record(rtype, addr, [], ttl))
    case StoredText(txt, ttl) => Some(Record(TYPE_TXT, NoAddr, txt, ttl))
  }

  function MarshalAll(recs: seq<Record>): (r: Option<seq<StoredRecord>>)
    ensures r.Some? ==> |r.value| == |recs|
  {
    if recs == [] then Some([])
    else
      match (Marshal(recs[0]), MarshalAll(recs[1..]))
      case (Some(s), Some(rest)) => Some([s] + rest)
      case _ => None
  }

  function UnmarshalAll(ss: seq<StoredRecord>): (r: Option<seq<Record>>) {
    if ss == [] then Some([])
    else
      match (Unmarshal(ss[0]), UnmarshalAll(ss[1..]))
      case (Some(r), Some(rest)) => Some([r] + rest)
      case _ => None
  }

  /** None when some record's type has no stored shape: then nothing is written. */
  function SnapshotOf(st: State): Option<Snapshot> {
    if forall name :: name in st.records ==> MarshalAll(st.records[name]).Some? then
      Some(Snapshot(st.serial, map name | name in st.records :: MarshalAll(st.records[name]).value))
    else None
  }

  /** The state file and the temporary file next to it. A file is never half there unless a
      write into it was cut short. */
  datatype File = Absent | Complete(snapshot: Snapshot) | Torn

  /** Load into a store whose state is `st`; a missing file changes nothing. */
  function Load(file: File, st: State): Option<State> {
    match file
    case Absent => Some(st)
    case Torn => None
    case Complete(snap) =>
      if forall name :: name in snap.records ==> UnmarshalAll(snap.records[name]).Some? then
        Some(State(map name | name in snap.records :: UnmarshalAll(snap.records[name]).value,
                   if snap.serial > 0 then snap.serial else st.serial))
      else None
  }

  /** Records whose fields are the ones their type uses, with texts that JSON can carry. */
  predicate Clean(r: Record) {
    || (r.rtype in {TYPE_A, TYPE_AAAA} && !r.addr.NoAddr? && r.txt == [])
    || (r.rtype == TYPE_TXT && r.addr.NoAddr? && AllUtf8(r.txt))
  }

  predicate AllClean(recs: seq<Record>) { forall i :: 0 <= i < |recs| ==> Clean(recs[i]) }

  lemma RecordShape(r: Record)
    ensures Marshal(r).Some? && Unmarshal(Marshal(r).value) == Some(r) <==> Clean(r)
  {
    hide RepairAll, AllUtf8;
    RepairAllKeeps(r.txt);
  }

  lemma {:induction false} RecordsShape(recs: seq<Record>)
    requires AllClean(recs)
    ensures MarshalAll(recs).Some? && UnmarshalAll(MarshalAll(recs).value) == Some(recs)
  {
    if recs != [] {
      RecordShape(recs[0]);
      RecordsShape(recs[1..]);
      var tail := MarshalAll(recs[1..]).value;
      assert MarshalAll(recs).value[1..] == tail;
      assert recs == [recs[0]] + recs[1..];
    }
  }

  predicate StateClean(st: State) { forall name :: name in st.records ==> AllClean(st.records[name]) }

  /** A snapshot of clean records restores them all into any store; the serial comes back exactly
      unless it had just wrapped to zero, which leaves the loading store's own serial in place. */
  lemma SnapshotRestores(st: State, onto: State)
    requires StateClean(st)
    ensures SnapshotOf(st).Some?
    ensures Load(Complete(SnapshotOf(st).value), onto) ==
            Some(State(st.records, if st.serial == 0 then onto.serial else st.serial))
  {
    forall name | name in st.records
      ensures MarshalAll(st.records[name]).Some?
      ensures UnmarshalAll(MarshalAll(st.records[name]).value) == Some(st.records[name])
    {
      RecordsShape(st.records[name]);
    }
    var snap := SnapshotOf(st).value;
    var back := map name | name in snap.records :: UnmarshalAll(snap.records[name]).value;
    assert back == st.records;
  }

  // ----- The store -----

  /** What the operating system does to one save. */
  datatype Io = AllFine | WriteFails | RenameFails

  datatype Disk = Disk(file: File, temp: File)

  /** persistLocked: write the temporary file, then rename it over the state file. */
  function Persist(st: State, d: Disk, io: Io): (Disk, bool) {
    match SnapshotOf(st)
    case None => (d, false)
    case Some(snap) =>
      match io
      case WriteFails => (d.(temp := Torn), false)
      case RenameFails => (d.(temp := Complete(snap)), false)
      case AllFine => (Disk(Complete(snap), Absent), true)
  }

  class Store {
    var records: map<bytes, seq<Record>>
    var serial: u32
    var disk: Disk
    const persistent: bool

    constructor (persistent: bool, disk: Disk)
      ensures Now() == EMPTY && this.disk == disk && this.persistent == persistent
    {
      this.records, this.serial := map[], 1;
      this.disk, this.persistent := disk, persistent;
    }

    function Now(): State
      reads this
    {
      State(records, serial)
    }

    function Saved(st: State, io: Io): (Disk, bool)
      reads this
    {
      if persistent then Persist(st, disk, io) else (disk, true)
    }

    /** A failed save reports an error but leaves the mutation in memory. */
    method Set(name: bytes, rec: Record, io: Io) returns (ok: bool)
      modifies this
      ensures Now() == Put(old(Now()), name, rec)
      ensures if ValidOwner(Lower(name)) then (disk, ok) == old(Saved(Put(Now(), name, rec), io))
              else !ok && disk == old(disk)
      ensures ok <==> ValidOwner(Lower(name)) && (!persistent || (SnapshotOf(Now()).Some? && io.AllFine?))
      ensures if ok && persistent then disk == Disk(Complete(SnapshotOf(Now()).value), Absent)
              else disk.file == old(disk.file)
    {
      var key := Lower(name);
      var valid := ValidateName(key);
      if !valid {
        return false;
      }
      var recs := if key in records then records[key] else [];
      var kept: seq<Record> := [];
      for i := 0 to |recs|
        invariant kept == Others(recs[..i], rec.rtype)
        invariant Now() == old(Now()) && disk == old(disk)
      {
        OthersSnoc(recs[..i], recs[i], rec.rtype);
        assert recs[..i + 1] == recs[..i] + [recs[i]];
        if recs[i].rtype != rec.rtype {
          kept := kept + [recs[i]];
        }
      }
      assert recs[..|recs|] == recs;
      records := records[key := kept + [rec]];
      serial := (serial + 1) % 0x1_0000_0000;
      assert Now() == Put(old(Now()), name, rec);
      ok := Save(io);
    }

    method Delete(name: bytes, rtype: u16, io: Io) returns (removed: bool, ok: bool)
      modifies this
      ensures Now() == Remove(old(Now()), name, rtype)
      ensures removed == Removes(old(Now()), name, rtype)
      ensures if removed then (disk, ok) == old(Saved(Remove(Now(), name, rtype), io))
              else ok && disk == old(disk)
      ensures ok <==> !removed || !persistent || (SnapshotOf(Now()).Some? && io.AllFine?)
      ensures if ok && removed && persistent then disk == Disk(Complete(SnapshotOf(Now()).value), Absent)
              else disk.file == old(disk.file)
    {
      var key := Lower(name);
      if key !in records {
        return false, true;
      }
      var recs := records[key];
      var kept: seq<Record> := [];
      if rtype != 0 {
        for i := 0 to |recs|
          invariant kept == Others(recs[..i], rtype)
          invariant Now() == old(Now()) && disk == old(disk)
        {
          OthersSnoc(recs[..i], recs[i], rtype);
          assert recs[..i + 1] == recs[..i] + [recs[i]];
          if recs[i].rtype != rtype {
            kept := kept + [recs[i]];
          }
        }
        assert recs[..|recs|] == recs;
      }
      assert kept == Kept(recs, rtype);
      if |kept| == |recs| {
        return false, true;
      }
      if |kept| == 0 {
        records := records - {key};
      } else {
        records := records[key := kept];
      }
      serial := (serial + 1) % 0x1_0000_0000;
      assert Now() == Remove(old(Now()), name, rtype);
      ok := Save(io);
      removed := true;
    }

    /** A persistent save succeeds exactly when the snapshot renders and both system calls go
        through; then the state file is that snapshot and the temporary file is gone. */
    method Save(io: Io) returns (ok: bool)
      modifies this`disk
      ensures (disk, ok) == old(Saved(Now(), io))
      ensures ok <==> !persistent || (SnapshotOf(Now()).Some? && io.AllFine?)
      ensures if ok && persistent then disk == Disk(Complete(SnapshotOf(Now()).value), Absent)
              else disk.file == old(disk.file)
    {
      if !persistent {
        return true;
      }
      var snap := SnapshotOf(State(records, serial));
      if snap.None? {
        return false;
      }
      if io.WriteFails? {
        disk := disk.(temp := Torn);
        return false;
      }
      disk := disk.(temp := Complete(snap.value));
      if io.RenameFails? {
        return false;
      }
      disk := Disk(disk.temp, Absent);
      return true;
    }

    method Lookup(name: bytes) returns (recs: seq<Record>)
      ensures recs == Stored(Now(), name)
    {
      var key := Lower(name);
      recs := if key in records then records[key] else [];
    }

    /** Restores the state file, if there is one; a damaged file is an error and changes nothing. */
    method LoadFile() returns (ok: bool)
      modifies this
      ensures disk == old(disk)
      ensures ok == (!persistent || Load(disk.file, old(Now())).Some?)
      ensures Now() == if persistent && ok then Load(disk.file, old(Now())).value else old(Now())
      ensures persistent && disk.file.Torn? ==> !ok
      ensures disk.file.Absent? ==> ok && Now() == old(Now())
    {
      if !persistent {
        return true;
      }
      var restored := Load(disk.file, State(records, serial));
      if restored.None? {
        return false;
      }
      records, serial := restored.value.records, restored.value.serial;
      return true;
    }
  }
}
