/** The RFC 1035 name codec of internal/dnswire/name.go as functions over bytes: what the
    builder appends for a name, what the cursor reads back, and why the two agree. */
module Names {
  import opened Bytes

  const MAX_LABEL := 63
  const MAX_WIRE := 255
  const MAX_HOPS := 32
  const POINTER_LIMIT := 0x4000

  datatype Error =
    | NameTooLong | LabelTooLong | EmptyLabel
    | TruncatedName | PointerLoop | PointerForward | ReservedLabel
    | ShortRead | CountOverflow | RDataTooLong | NoData
    | WrongFamily | NoStrings | StringTooLong
    | BadLength | TruncatedText | EmptyText

  // ----- Presentation names and labels -----

  /** splitLabels: the root name has no labels. */
  function Labels(name: bytes): seq<bytes> {
    if name == [] then [] else Split(name, DOT)
  }

  function NameOf(labels: seq<bytes>): bytes { Join(labels, DOT) }

  predicate LabelOk(part: bytes) { 0 < |part| <= MAX_LABEL && DOT !in part }

  predicate LabelsOk(labels: seq<bytes>) { forall i :: 0 <= i < |labels| ==> LabelOk(labels[i]) }

  /** Octets the labels take uncompressed, without the terminator. */
  function WireLen(labels: seq<bytes>): nat {
    if labels == [] then 0 else |labels[0]| + 1 + WireLen(labels[1..])
  }

  /** The first label that breaks a length rule decides the error. */
  function LabelFault(labels: seq<bytes>): Option<Error> {
    if labels == [] then None
    else if labels[0] == [] then Some(EmptyLabel)
    else if |labels[0]| > MAX_LABEL then Some(LabelTooLong)
    else LabelFault(labels[1..])
  }

  function NameFault(name: bytes): Option<Error> {
    var labels := Labels(name);
    if LabelFault(labels).Some? then LabelFault(labels)
    else if WireLen(labels) + 1 > MAX_WIRE then Some(NameTooLong)
    else None
  }

  predicate Encodable(name: bytes) {
    LabelsOk(Labels(name)) && WireLen(Labels(name)) < MAX_WIRE
  }

  lemma LabelsRoundTrip(name: bytes)
    ensures NameOf(Labels(name)) == name
    ensures forall i :: 0 <= i < |Labels(name)| ==> DOT !in Labels(name)[i]
  {
    JoinSplit(name, DOT);
  }

  lemma NameRoundTrip(labels: seq<bytes>)
    requires LabelsOk(labels)
    ensures Labels(NameOf(labels)) == labels
    ensures NameOf(labels) == [] <==> labels == []
  {
    if labels != [] {
      SplitJoin(labels, DOT);
    }
  }

  lemma {:induction false} LabelFaultMeaning(labels: seq<bytes>)
    requires forall i :: 0 <= i < |labels| ==> DOT !in labels[i]
    ensures LabelFault(labels).None? <==> LabelsOk(labels)
  {
    if labels != [] {
      LabelFaultMeaning(labels[1..]);
      assert labels == [labels[0]] + labels[1..];
    }
  }

  /** The encoder's checks pass exactly for names that fit RFC 1035's limits, terminator included. */
  lemma NameFaultMeaning(name: bytes)
    ensures NameFault(name).None? <==> Encodable(name)
  {
    LabelsRoundTrip(name);
    LabelFaultMeaning(Labels(name));
  }

  lemma {:induction false} WireLenOfName(labels: seq<bytes>)
    requires labels != []
    ensures WireLen(labels) == |NameOf(labels)| + 1
  {
    if |labels| > 1 {
      WireLenOfName(labels[1..]);
    }
  }

  lemma {:induction false} WireLenAppend(a: seq<bytes>, b: seq<bytes>)
    ensures WireLen(a + b) == WireLen(a) + WireLen(b)
  {
    if a == [] {
      assert a + b == b;
    } else {
      WireLenAppend(a[1..], b);
      assert (a + b)[1..] == a[1..] + b;
    }
  }

  // ----- Encoding -----

  /** One remembered suffix: where it was first written, and how many pointers reading it follows. */
  datatype Entry = Entry(at: nat, depth: nat)
  type Table = map<bytes, Entry>

  datatype Written = Written(out: bytes, table: Table)

  /** 0xC000 | uint16(off), as two bytes. */
  function Pointer(off: nat): (r: bytes)
    ensures |r| == 2
  {
    U16(0xC000 + off % POINTER_LIMIT)
  }

  /** How many pointers a reader of `labels` follows when they are written against `t`. */
  function ChainDepth(t: Table, labels: seq<bytes>): nat {
    if labels == [] then 0
    else if NameOf(labels) in t then t[NameOf(labels)].depth + 1
    else ChainDepth(t, labels[1..])
  }

  /** The bytes builder.name appends at offset `at`, and the table it leaves. */
  function WriteLabels(at: nat, t: Table, labels: seq<bytes>): Written
    requires LabelsOk(labels)
    decreases |labels|
  {
    if labels == [] then Written([0], t)
    else if NameOf(labels) in t then Written(Pointer(t[NameOf(labels)].at), t)
    else
      var recorded := Record(at, t, labels);
      var rest := WriteLabels(at + 1 + |labels[0]|, recorded, labels[1..]);
      Written([|labels[0]|] + labels[0] + rest.out, rest.table)
  }

  /** The suffix goes into the table before its bytes are written, if a pointer can reach it. */
  function Record(at: nat, t: Table, labels: seq<bytes>): Table
    requires labels != []
  {
    if at < POINTER_LIMIT then t[NameOf(labels) := Entry(at, ChainDepth(t, labels[1..]))] else t
  }

  // ----- Decoding -----

  function PointerTarget(buf: bytes, pos: nat): nat
    requires pos + 2 <= |buf| && buf[pos] >= 0xC0
  {
    (buf[pos] as int - 0xC0) * 0x100 + buf[pos + 1]
  }

  /** The labels cursor.name collects from `pos` after `hops` pointers and `total` label octets. */
  function ReadLabels(buf: bytes, pos: nat, hops: nat, total: nat): Result<seq<bytes>, Error>
    requires hops <= MAX_HOPS && total <= MAX_WIRE
    decreases MAX_HOPS - hops, MAX_WIRE - total
  {
    if pos >= |buf| then Err(TruncatedName)
    else if buf[pos] == 0 then Ok([])
    else if buf[pos] >= 0xC0 then
      if pos + 2 > |buf| then Err(TruncatedName)
      else if PointerTarget(buf, pos) >= pos then Err(PointerForward)
      else if hops + 1 > MAX_HOPS then Err(PointerLoop)
      else ReadLabels(buf, PointerTarget(buf, pos), hops + 1, total)
    else if buf[pos] >= 0x40 then Err(ReservedLabel)
    else if pos + 1 + buf[pos] > |buf| then Err(TruncatedName)
    else if total + buf[pos] + 1 > MAX_WIRE then Err(NameTooLong)
    else
      var rest :- ReadLabels(buf, pos + 1 + buf[pos], hops, total + buf[pos] + 1);
      Ok([buf[pos + 1..pos + 1 + buf[pos]]] + rest)
  }

  /** cursor.name's result for a cursor at `pos`. */
  function ReadName(buf: bytes, pos: nat): Result<bytes, Error> {
    var labels :- ReadLabels(buf, pos, 0, 0);
    Ok(Lower(NameOf(labels)))
  }

  /** Where a name's in-place bytes end: after its terminator or its first pointer. */
  function NameEnd(buf: bytes, pos: nat): nat
    decreases |buf| - pos
  {
    if pos >= |buf| then pos
    else if buf[pos] == 0 then pos + 1
    else if buf[pos] >= 0xC0 then pos + 2
    else NameEnd(buf, pos + 1 + buf[pos])
  }

  // ----- What the bytes at a position spell -----

  /** Reading at `pos` gives exactly `labels` and follows exactly `depth` backward pointers.
      No cap on hops or length is involved. */
  ghost predicate Spells(buf: bytes, pos: nat, labels: seq<bytes>, depth: nat)
    decreases depth, |labels|
  {
    && pos < |buf|
    && if buf[pos] >= 0xC0 then
         && pos + 2 <= |buf| && depth > 0 && PointerTarget(buf, pos) < pos
         && Spells(buf, PointerTarget(buf, pos), labels, depth - 1)
       else if labels == [] then buf[pos] == 0 && depth == 0
       else
         && 0 < |labels[0]| <= MAX_LABEL && Holds(buf, pos, [|labels[0]|] + labels[0])
         && Spells(buf, pos + 1 + |labels[0]|, labels[1..], depth)
  }

  ghost predicate EntryOk(buf: bytes, end: nat, name: bytes, e: Entry) {
    && Labels(name) != [] && LabelsOk(Labels(name))
    && e.at < end && e.at < POINTER_LIMIT
    && Spells(buf, e.at, Labels(name), e.depth)
  }

  /** Every remembered suffix lies before `end`, within pointer reach, and spells itself. */
  ghost predicate TableOk(buf: bytes, end: nat, t: Table) {
    forall name :: name in t ==> EntryOk(buf, end, name, t[name])
  }

  lemma EmptyTableOk(buf: bytes, end: nat)
    ensures TableOk(buf, end, map[])
  {
  }

  lemma TableGrows(buf: bytes, end: nat, t: Table, later: nat)
    requires TableOk(buf, end, t) && end <= later
    ensures TableOk(buf, later, t)
  {
  }

  /** A suffix longer than what is left to write cannot be hit by it: while a name is half
      written, the entries pointing into its own unfinished bytes are invisible to it. */
  lemma {:induction false} PendingNeverHit(at: nat, t: Table, labels: seq<bytes>, longer: bytes, e: Entry)
    requires LabelsOk(labels) && |NameOf(labels)| < |longer|
    ensures ChainDepth(t[longer := e], labels) == ChainDepth(t, labels)
    ensures WriteLabels(at, t[longer := e], labels).out == WriteLabels(at, t, labels).out
    ensures WriteLabels(at, t[longer := e], labels).table == WriteLabels(at, t, labels).table[longer := e]
    decreases |labels|
  {
    if labels != [] && NameOf(labels) !in t {
      TailIsShorter(labels);
      DepthIgnoresPending(t, labels[1..], longer, e);
      var next := at + 1 + |labels[0]|;
      if at < POINTER_LIMIT {
        assert Record(at, t[longer := e], labels) == Record(at, t, labels)[longer := e];
      }
      PendingNeverHit(next, Record(at, t, labels), labels[1..], longer, e);
      DepthIgnoresPending(t, labels, longer, e);
    }
  }

  lemma {:induction false} DepthIgnoresPending(t: Table, labels: seq<bytes>, longer: bytes, e: Entry)
    requires LabelsOk(labels) && |NameOf(labels)| < |longer|
    ensures ChainDepth(t[longer := e], labels) == ChainDepth(t, labels)
  {
    if labels != [] {
      TailIsShorter(labels);
      DepthIgnoresPending(t, labels[1..], longer, e);
    }
  }

  lemma TailIsShorter(labels: seq<bytes>)
    requires labels != [] && LabelsOk(labels)
    ensures |NameOf(labels[1..])| < |NameOf(labels)|
  {
  }

  /** Writing `labels` as if the table never saw their own suffixes. */
  lemma WriteStep(at: nat, t: Table, labels: seq<bytes>)
    requires labels != [] && LabelsOk(labels) && NameOf(labels) !in t
    ensures var rest := WriteLabels(at + 1 + |labels[0]|, t, labels[1..]);
            && WriteLabels(at, t, labels).out == [|labels[0]|] + labels[0] + rest.out
            && WriteLabels(at, t, labels).table ==
               if at < POINTER_LIMIT then rest.table[NameOf(labels) := Entry(at, ChainDepth(t, labels))]
               else rest.table
  {
    TailIsShorter(labels);
    PendingNeverHit(at + 1 + |labels[0]|, t, labels[1..], NameOf(labels), Entry(at, ChainDepth(t, labels[1..])));
  }

  /** Whatever was remembered stays readable, the new name spells itself, and all its own
      suffixes become readable too. `buf` may hold anything after the written bytes. */
  lemma {:induction false} WriteLabelsSound(buf: bytes, at: nat, t: Table, labels: seq<bytes>)
    requires TableOk(buf, at, t) && LabelsOk(labels)
    requires Holds(buf, at, WriteLabels(at, t, labels).out)
    ensures Spells(buf, at, labels, ChainDepth(t, labels))
    ensures TableOk(buf, at + |WriteLabels(at, t, labels).out|, WriteLabels(at, t, labels).table)
    ensures NameEnd(buf, at) == at + |WriteLabels(at, t, labels).out|
    decreases |labels|
  {
    hide WriteLabels, Spells, NameEnd, NameOf, ChainDepth, Pointer;
    if labels == [] {
      TerminatorSound(buf, at, t);
    } else if NameOf(labels) in t {
      PointerSound(buf, at, t, labels);
    } else {
      LiteralLabelSound(buf, at, t, labels);
      TableGrows(buf, at, t, at + 1 + |labels[0]|);
      WriteLabelsSound(buf, at + 1 + |labels[0]|, t, labels[1..]);
      LiteralNameSound(buf, at, t, labels);
    }
  }

  /** A name that starts with a literal label is sound when its remainder is. */
  lemma LiteralNameSound(buf: bytes, at: nat, t: Table, labels: seq<bytes>)
    requires LabelsOk(labels) && labels != [] && NameOf(labels) !in t
    requires Holds(buf, at, WriteLabels(at, t, labels).out)
    requires var next := at + 1 + |labels[0]|;
             var rest := WriteLabels(next, t, labels[1..]);
             && Spells(buf, next, labels[1..], ChainDepth(t, labels[1..]))
             && TableOk(buf, next + |rest.out|, rest.table)
             && NameEnd(buf, next) == next + |rest.out|
    ensures Spells(buf, at, labels, ChainDepth(t, labels))
    ensures TableOk(buf, at + |WriteLabels(at, t, labels).out|, WriteLabels(at, t, labels).table)
    ensures NameEnd(buf, at) == at + |WriteLabels(at, t, labels).out|
  {
    hide WriteLabels, NameOf, Spells, TableOk, NameEnd;
    LiteralLabelSound(buf, at, t, labels);
    DepthStep(t, labels);
    LiteralSpells(buf, at, labels, ChainDepth(t, labels));
    if at < POINTER_LIMIT {
      var next := at + 1 + |labels[0]|;
      var rest := WriteLabels(next, t, labels[1..]);
      EntryAdded(buf, next + |rest.out|, rest.table, labels, Entry(at, ChainDepth(t, labels)));
    }
  }

  lemma LiteralSpells(buf: bytes, at: nat, labels: seq<bytes>, depth: nat)
    requires labels != [] && 0 < |labels[0]| <= MAX_LABEL && Holds(buf, at, [|labels[0]|] + labels[0])
    requires Spells(buf, at + 1 + |labels[0]|, labels[1..], depth)
    ensures Spells(buf, at, labels, depth)
    ensures NameEnd(buf, at) == NameEnd(buf, at + 1 + |labels[0]|)
  {
    LiteralReads(buf, at, labels[0]);
  }

  lemma DepthStep(t: Table, labels: seq<bytes>)
    requires labels != [] && NameOf(labels) !in t
    ensures ChainDepth(t, labels) == ChainDepth(t, labels[1..])
  {
  }

  /** Every remembered suffix lies where 14 bits can point. */
  ghost predicate InReach(t: Table) { forall name :: name in t ==> t[name].at < POINTER_LIMIT }

  /** A suffix beyond reach is written but never remembered. */
  lemma {:induction false} WriteLabelsInReach(at: nat, t: Table, labels: seq<bytes>)
    requires InReach(t) && LabelsOk(labels)
    ensures InReach(WriteLabels(at, t, labels).table)
    decreases |labels|
  {
    hide NameOf, ChainDepth, Pointer;
    if labels != [] && NameOf(labels) !in t {
      WriteLabelsInReach(at + 1 + |labels[0]|, Record(at, t, labels), labels[1..]);
    }
  }

  /** OR-ing the pointer mark over 14 bits adds it to their value. */
  lemma PointerOr(low: bv16)
    requires low < 0x4000
    ensures (0xC000 | low) as int == 0xC000 + low as int
  {
    OrAddsMark(low);
  }

  lemma OrAddsMark(low: bv16)
    requires low < 0x4000
    ensures 0xC000 | low == 0xC000 + low
  {
  }

  /** So a pointer holds any remembered offset in full. */
  lemma PointerBytes(buf: bytes, at: nat, t: Table, name: bytes)
    requires InReach(t) && name in t && Holds(buf, at, Pointer(t[name].at))
    ensures buf[at] >= 0xC0 && PointerTarget(buf, at) == t[name].at
  {
    hide Pointer;
    PointerForm(t[name].at);
    assert buf[at] == buf[at..at + 2][0] && buf[at + 1] == buf[at..at + 2][1];
  }

  lemma PointerForm(off: nat)
    requires off < POINTER_LIMIT
    ensures Pointer(off) == [0xC0 + off / 0x100, off % 0x100]
  {
    assert (0xC000 + off) / 0x100 == 0xC0 + off / 0x100;
  }

  lemma PointerSpells(buf: bytes, at: nat, t: Table, labels: seq<bytes>)
    requires TableOk(buf, at, t) && LabelsOk(labels)
    requires labels != [] && NameOf(labels) in t
    requires Holds(buf, at, Pointer(t[NameOf(labels)].at))
    ensures buf[at] >= 0xC0
    ensures Spells(buf, at, labels, t[NameOf(labels)].depth + 1)
  {
    var name := NameOf(labels);
    NameRoundTrip(labels);
    assert EntryOk(buf, at, name, t[name]);
    PointerBytes(buf, at, map[name := t[name]], name);
  }

  lemma PointerSound(buf: bytes, at: nat, t: Table, labels: seq<bytes>)
    requires TableOk(buf, at, t) && LabelsOk(labels)
    requires labels != [] && NameOf(labels) in t
    requires Holds(buf, at, WriteLabels(at, t, labels).out)
    ensures Spells(buf, at, labels, ChainDepth(t, labels))
    ensures TableOk(buf, at + |WriteLabels(at, t, labels).out|, WriteLabels(at, t, labels).table)
    ensures NameEnd(buf, at) == at + |WriteLabels(at, t, labels).out|
  {
    hide Spells, TableOk;
    PointerSpells(buf, at, t, labels);
    TableGrows(buf, at, t, at + 2);
  }

  lemma TerminatorSound(buf: bytes, at: nat, t: Table)
    requires TableOk(buf, at, t) && Holds(buf, at, WriteLabels(at, t, []).out)
    ensures Spells(buf, at, [], ChainDepth(t, []))
    ensures TableOk(buf, at + |WriteLabels(at, t, []).out|, WriteLabels(at, t, []).table)
    ensures NameEnd(buf, at) == at + |WriteLabels(at, t, []).out|
  {
    assert buf[at] == buf[at..at + 1][0];
  }

  /** Recording a suffix that spells itself keeps the table sound. */
  lemma EntryAdded(buf: bytes, end: nat, t: Table, labels: seq<bytes>, e: Entry)
    requires TableOk(buf, end, t)
    requires labels != [] && LabelsOk(labels)
    requires e.at < end && e.at < POINTER_LIMIT && Spells(buf, e.at, labels, e.depth)
    ensures TableOk(buf, end, t[NameOf(labels) := e])
  {
    NameRoundTrip(labels);
  }

  /** A literal label sits where WriteLabels put it, with the rest of the name behind it. */
  lemma LiteralLabelSound(buf: bytes, at: nat, t: Table, labels: seq<bytes>)
    requires LabelsOk(labels) && labels != [] && NameOf(labels) !in t
    requires Holds(buf, at, WriteLabels(at, t, labels).out)
    ensures var rest := WriteLabels(at + 1 + |labels[0]|, t, labels[1..]);
            && WriteLabels(at, t, labels).out == [|labels[0]|] + labels[0] + rest.out
            && WriteLabels(at, t, labels).table ==
               (if at < POINTER_LIMIT then rest.table[NameOf(labels) := Entry(at, ChainDepth(t, labels))]
                else rest.table)
            && Holds(buf, at, [|labels[0]|] + labels[0])
            && Holds(buf, at + 1 + |labels[0]|, rest.out)
    ensures buf[at] == |labels[0]|
  {
    WriteStep(at, t, labels);
    var head := [|labels[0]|] + labels[0];
    HoldsParts(buf, at, head, WriteLabels(at + |head|, t, labels[1..]).out);
    assert buf[at] == buf[at..at + |head|][0];
  }

  lemma LiteralReads(buf: bytes, pos: nat, part: bytes)
    requires 0 < |part| <= MAX_LABEL && Holds(buf, pos, [|part|] + part)
    ensures pos + 1 + |part| <= |buf| && 0 < buf[pos] == |part| <= MAX_LABEL && buf[pos + 1..pos + 1 + |part|] == part
  {
    HoldsParts(buf, pos, [|part|], part);
    assert buf[pos] == buf[pos..pos + 1][0];
  }

  /** A spelled name reads back; the hop cap alone can stop it. */
  lemma {:induction false} SpelledReads(buf: bytes, pos: nat, labels: seq<bytes>, depth: nat, hops: nat, total: nat)
    requires Spells(buf, pos, labels, depth)
    requires hops <= MAX_HOPS && total + WireLen(labels) <= MAX_WIRE
    ensures ReadLabels(buf, pos, hops, total) == if hops + depth <= MAX_HOPS then Ok(labels) else Err(PointerLoop)
    decreases depth, |labels|
  {
    hide Holds;
    if buf[pos] >= 0xC0 {
      if hops < MAX_HOPS {
        SpelledReads(buf, PointerTarget(buf, pos), labels, depth - 1, hops + 1, total);
      }
    } else if labels != [] {
      LiteralReads(buf, pos, labels[0]);
      var n := 1 + |labels[0]|;
      SpelledReads(buf, pos + n, labels[1..], depth, hops, total + n);
      assert labels == [labels[0]] + labels[1..];
    }
  }

  /** Nothing appended behind a name changes what it spells. */
  lemma {:induction false} SpellsExtends(buf: bytes, more: bytes, pos: nat, labels: seq<bytes>, depth: nat)
    requires Spells(buf, pos, labels, depth)
    ensures Spells(buf + more, pos, labels, depth)
    decreases depth, |labels|
  {
    if buf[pos] >= 0xC0 {
      SpellsExtends(buf, more, PointerTarget(buf, pos), labels, depth - 1);
    } else if labels != [] {
      var n := 1 + |labels[0]|;
      assert (buf + more)[pos..pos + n] == buf[pos..pos + n];
      SpellsExtends(buf, more, pos + n, labels[1..], depth);
    }
  }

  lemma TableExtends(buf: bytes, more: bytes, end: nat, t: Table)
    requires TableOk(buf, end, t)
    ensures TableOk(buf + more, end, t)
  {
    forall name | name in t ensures EntryOk(buf + more, end, name, t[name]) {
      SpellsExtends(buf, more, t[name].at, Labels(name), t[name].depth);
    }
  }

  // ----- How deep pointers nest -----

  /** After `n` names, no suffix needs `n` pointers, nor as many as it has labels. */
  ghost predicate Shallow(t: Table, n: nat) {
    forall name :: name in t ==> t[name].depth < n && t[name].depth < |Labels(name)|
  }

  lemma {:induction false} DepthBound(t: Table, labels: seq<bytes>, n: nat)
    requires Shallow(t, n) && LabelsOk(labels)
    ensures ChainDepth(t, labels) <= n && ChainDepth(t, labels) <= |labels|
  {
    if labels != [] {
      NameRoundTrip(labels);
      DepthBound(t, labels[1..], n);
    }
  }

  lemma {:induction false} WriteLabelsShallow(at: nat, t: Table, labels: seq<bytes>, n: nat)
    requires Shallow(t, n) && LabelsOk(labels)
    ensures Shallow(WriteLabels(at, t, labels).table, n + 1)
    decreases |labels|
  {
    if labels != [] && NameOf(labels) !in t {
      WriteStep(at, t, labels);
      WriteLabelsShallow(at + 1 + |labels[0]|, t, labels[1..], n);
      DepthBound(t, labels[1..], n);
      NameRoundTrip(labels);
    }
  }

  // ----- What compression saves -----

  function Literals(labels: seq<bytes>): bytes
    requires LabelsOk(labels)
  {
    if labels == [] then [] else [|labels[0]|] + labels[0] + Literals(labels[1..])
  }

  /** Exactly the labels before the first remembered suffix are spelled out; the rest is one
      pointer, or the terminator when no suffix is remembered. The name's own suffixes, recorded
      on the way, never matter. */
  lemma {:induction false} GreedyLongestMatch(at: nat, t: Table, labels: seq<bytes>, i: nat)
    requires LabelsOk(labels) && i <= |labels|
    requires forall j :: 0 <= j < i ==> NameOf(labels[j..]) !in t
    requires i < |labels| ==> NameOf(labels[i..]) in t
    ensures WriteLabels(at, t, labels).out ==
            Literals(labels[..i]) + if i < |labels| then Pointer(t[NameOf(labels[i..])].at) else [0]
    decreases i
  {
    hide NameOf, Pointer, Record;
    assert labels[0..] == labels;
    if i > 0 {
      var tail := labels[1..];
      WriteStep(at, t, labels);
      forall j | 0 <= j <= i - 1 ensures tail[j..] == labels[j + 1..] {}
      GreedyLongestMatch(at + 1 + |labels[0]|, t, tail, i - 1);
      assert labels[..i][1..] == tail[..i - 1];
    }
  }

  /** Compression never makes a name longer. */
  lemma {:induction false} NeverLonger(at: nat, t: Table, labels: seq<bytes>)
    requires LabelsOk(labels)
    ensures 1 <= |WriteLabels(at, t, labels).out| <= WireLen(labels) + 1
    decreases |labels|
  {
    if labels != [] && NameOf(labels) !in t {
      NeverLonger(at + 1 + |labels[0]|, Record(at, t, labels), labels[1..]);
    }
  }

  // ----- What the cursor accepts -----

  lemma LiteralHeld(buf: bytes, pos: nat, l: byte)
    requires pos + 1 + l <= |buf| && buf[pos] == l
    ensures Holds(buf, pos, [l] + buf[pos + 1..pos + 1 + l])
  {
    assert buf[pos..pos + 1 + l] == [buf[pos]] + buf[pos + 1..pos + 1 + l];
  }

  /** Only what the bytes spell is ever read, and no more pointers are followed than allowed. */
  lemma {:induction false} ReadIsSpelled(buf: bytes, pos: nat, hops: nat, total: nat) returns (depth: nat)
    requires hops <= MAX_HOPS && total <= MAX_WIRE
    requires ReadLabels(buf, pos, hops, total).Ok?
    ensures hops + depth <= MAX_HOPS && Spells(buf, pos, ReadLabels(buf, pos, hops, total).value, depth)
    decreases MAX_HOPS - hops, MAX_WIRE - total
  {
    hide Holds;
    depth := 0;
    if buf[pos] >= 0xC0 {
      depth := ReadIsSpelled(buf, PointerTarget(buf, pos), hops + 1, total);
      depth := depth + 1;
    } else if buf[pos] > 0 {
      var next := pos + 1 + buf[pos];
      depth := ReadIsSpelled(buf, next, hops, total + buf[pos] + 1);
      LiteralHeld(buf, pos, buf[pos]);
      var part, rest := buf[pos + 1..next], ReadLabels(buf, next, hops, total + buf[pos] + 1).value;
      assert ([part] + rest)[1..] == rest;
      LiteralSpells(buf, pos, [part] + rest, depth);
    }
  }

  /** The cursor reads a list of labels exactly when the bytes spell it with backward pointers, at
      most 32 of them, and the labels take at most 255 octets. */
  lemma DecoderExact(buf: bytes, pos: nat, labels: seq<bytes>)
    ensures ReadLabels(buf, pos, 0, 0) == Ok(labels) <==>
            WireLen(labels) <= MAX_WIRE && exists depth: nat :: depth <= MAX_HOPS && Spells(buf, pos, labels, depth)
  {
    if ReadLabels(buf, pos, 0, 0) == Ok(labels) {
      var depth := ReadIsSpelled(buf, pos, 0, 0);
      ReadLabelsLimits(buf, pos, 0, 0);
    }
    if WireLen(labels) <= MAX_WIRE && exists depth: nat :: depth <= MAX_HOPS && Spells(buf, pos, labels, depth) {
      var depth: nat :| depth <= MAX_HOPS && Spells(buf, pos, labels, depth);
      SpelledReads(buf, pos, labels, depth, 0, 0);
    }
  }

  /** The same walk without the hop cap; that it is well-founded needs only the backward rule and
      the length limit. It also counts the pointers. */
  function Walk(buf: bytes, pos: nat, total: nat): Result<(seq<bytes>, nat), Error>
    requires total <= MAX_WIRE
    decreases MAX_WIRE - total, pos
  {
    if pos >= |buf| then Err(TruncatedName)
    else if buf[pos] == 0 then Ok(([], 0))
    else if buf[pos] >= 0xC0 then
      if pos + 2 > |buf| then Err(TruncatedName)
      else if PointerTarget(buf, pos) >= pos then Err(PointerForward)
      else
        var rest :- Walk(buf, PointerTarget(buf, pos), total);
        Ok((rest.0, rest.1 + 1))
    else if buf[pos] >= 0x40 then Err(ReservedLabel)
    else if pos + 1 + buf[pos] > |buf| then Err(TruncatedName)
    else if total + buf[pos] + 1 > MAX_WIRE then Err(NameTooLong)
    else
      var rest :- Walk(buf, pos + 1 + buf[pos], total + buf[pos] + 1);
      Ok(([buf[pos + 1..pos + 1 + buf[pos]]] + rest.0, rest.1))
  }

  /** The hop cap is not what stops loops: it only turns away names that nest deeper. */
  lemma {:induction false} HopCapOnlyFilters(buf: bytes, pos: nat, hops: nat, total: nat)
    requires hops <= MAX_HOPS && total <= MAX_WIRE
    ensures ReadLabels(buf, pos, hops, total).Ok? <==>
            Walk(buf, pos, total).Ok? && hops + Walk(buf, pos, total).value.1 <= MAX_HOPS
    ensures ReadLabels(buf, pos, hops, total).Ok? ==>
            ReadLabels(buf, pos, hops, total).value == Walk(buf, pos, total).value.0
    decreases MAX_HOPS - hops, MAX_WIRE - total
  {
    if pos + 2 <= |buf| && buf[pos] >= 0xC0 {
      if PointerTarget(buf, pos) < pos && hops < MAX_HOPS {
        HopCapOnlyFilters(buf, PointerTarget(buf, pos), hops + 1, total);
      }
    } else if pos < |buf| && 0 < buf[pos] < 0x40 && pos + 1 + buf[pos] <= |buf| && total + buf[pos] + 1 <= MAX_WIRE {
      HopCapOnlyFilters(buf, pos + 1 + buf[pos], hops, total + buf[pos] + 1);
    }
  }

  /** Decoded labels keep RFC 1035's label limits; the total leaves out the terminator. */
  lemma {:induction false} ReadLabelsLimits(buf: bytes, pos: nat, hops: nat, total: nat)
    requires hops <= MAX_HOPS && total <= MAX_WIRE
    requires ReadLabels(buf, pos, hops, total).Ok?
    ensures var labels := ReadLabels(buf, pos, hops, total).value;
            && (forall i :: 0 <= i < |labels| ==> 0 < |labels[i]| <= MAX_LABEL)
            && total + WireLen(labels) <= MAX_WIRE
    decreases MAX_HOPS - hops, MAX_WIRE - total
  {
    if buf[pos] >= 0xC0 {
      ReadLabelsLimits(buf, PointerTarget(buf, pos), hops + 1, total);
    } else if buf[pos] > 0 {
      ReadLabelsLimits(buf, pos + 1 + buf[pos], hops, total + buf[pos] + 1);
    }
  }

  /** A successful read consumes at least one byte and ends inside the message. */
  lemma {:induction false} NameEndBounds(buf: bytes, pos: nat, hops: nat, total: nat)
    requires hops <= MAX_HOPS && total <= MAX_WIRE
    requires ReadLabels(buf, pos, hops, total).Ok?
    ensures pos < NameEnd(buf, pos) <= |buf|
    decreases MAX_WIRE - total
  {
    if 0 < buf[pos] < 0xC0 {
      NameEndBounds(buf, pos + 1 + buf[pos], hops, total + buf[pos] + 1);
    }
  }

  predicate LowerParts(lower: seq<bytes>, parts: seq<bytes>) {
    |lower| == |parts| && forall i :: 0 <= i < |parts| ==> lower[i] == Lower(parts[i])
  }

  lemma LowerCons(b: byte, s: bytes)
    ensures Lower([b] + s) == [LowerByte(b)] + Lower(s)
  {
  }

  lemma SplitCons(b: byte, s: bytes)
    ensures var rest := Split(s, DOT);
            Split([b] + s, DOT) == if b == DOT then [[]] + rest else [[b] + rest[0]] + rest[1..]
  {
    assert ([b] + s)[1..] == s;
  }

  lemma {:induction false} LowerLabels(name: bytes)
    ensures LowerParts(Split(Lower(name), DOT), Split(name, DOT))
  {
    hide Lower, Split;
    if name == [] {
      assert Lower([]) == [];
      SplitWord([], DOT);
    } else {
      var b, rest := name[0], name[1..];
      assert name == [b] + rest;
      LowerLabels(rest);
      LowerCons(b, rest);
      SplitCons(b, rest);
      SplitCons(LowerByte(b), Lower(rest));
      LowerCons(b, Split(rest, DOT)[0]);
    }
  }

  lemma {:induction false} LowerWireLen(a: seq<bytes>, b: seq<bytes>)
    requires |a| == |b| && forall i :: 0 <= i < |a| ==> |a[i]| == |b[i]|
    ensures WireLen(a) == WireLen(b)
  {
    if a != [] {
      LowerWireLen(a[1..], b[1..]);
    }
  }

  /** Case folding does not change whether a name can be encoded. */
  lemma LowerEncodable(name: bytes)
    ensures Encodable(Lower(name)) <==> Encodable(name)
  {
    LowerLabels(name);
    var a, b := Labels(Lower(name)), Labels(name);
    assert |a| == |b| && forall i :: 0 <= i < |a| ==> a[i] == (if name == [] then [] else Lower(b[i]));
    LowerWireLen(a, b);
    LabelsRoundTrip(name);
    LabelsRoundTrip(Lower(name));
    forall i | 0 <= i < |a| ensures LabelOk(a[i]) <==> LabelOk(b[i]) {}
    assert LabelsOk(a) <==> LabelsOk(b);
  }

  /** Dots only between other bytes, never two in a row. */
  predicate DotsInside(part: bytes) {
    && part != [] && part[0] != DOT && part[|part| - 1] != DOT
    && forall i :: 0 <= i < |part| - 1 ==> part[i] != DOT || part[i + 1] != DOT
  }

  predicate NoneEmpty(parts: seq<bytes>) { forall i :: 0 <= i < |parts| ==> parts[i] != [] }

  lemma DotsInsideTail(s: bytes)
    requires |s| > 1 && s[0] != DOT && s[1] != DOT
    ensures DotsInside(s) <==> DotsInside(s[1..])
  {
    if DotsInside(s[1..]) {
      forall i | 0 <= i < |s| - 1 ensures s[i] != DOT || s[i + 1] != DOT {
        assert i > 0 ==> s[1..][i - 1] == s[i] && s[1..][i] == s[i + 1];
      }
    }
  }

  lemma {:induction false} SplitNoneEmpty(s: bytes)
    ensures NoneEmpty(Split(s, DOT)) <==> DotsInside(s)
  {
    if s == [] || s[0] == DOT {
      assert Split(s, DOT)[0] == [];
    } else {
      var rest := Split(s[1..], DOT);
      var parts := [[s[0]] + rest[0]] + rest[1..];
      assert Split(s, DOT) == parts;
      if |s| == 1 {
        assert s[1..] == [] && rest == [[]];
        assert parts[0] == [s[0]] && |parts| == 1;
      } else if s[1] == DOT {
        SplitNoneEmpty(s[2..]);
        assert s[1..][1..] == s[2..];
        assert rest == [[]] + Split(s[2..], DOT) && rest[1..] == Split(s[2..], DOT);
        NoneEmptyCons([s[0]] + rest[0], rest[1..]);
        DotThenInside(s);
      } else {
        SplitNoneEmpty(s[1..]);
        assert rest == [rest[0]] + rest[1..] && rest[0] != [];
        NoneEmptyCons([s[0]] + rest[0], rest[1..]);
        NoneEmptyCons(rest[0], rest[1..]);
        DotsInsideTail(s);
      }
    }
  }

  lemma NoneEmptyCons(part: bytes, parts: seq<bytes>)
    requires part != []
    ensures NoneEmpty([part] + parts) <==> NoneEmpty(parts)
  {
    assert forall i :: 0 <= i < |parts| ==> parts[i] == ([part] + parts)[i + 1];
  }

  lemma DotThenInside(s: bytes)
    requires |s| > 1 && s[0] != DOT && s[1] == DOT
    ensures DotsInside(s) <==> DotsInside(s[2..])
  {
    if DotsInside(s[2..]) {
      forall i | 0 <= i < |s| - 1 ensures s[i] != DOT || s[i + 1] != DOT {
        assert i > 1 ==> s[2..][i - 2] == s[i] && s[2..][i - 1] == s[i + 1];
        assert i == 1 ==> s[2..][0] == s[2];
      }
    }
  }

  lemma {:induction false} PartsNoLonger(s: bytes, sep: byte)
    ensures forall i :: 0 <= i < |Split(s, sep)| ==> |Split(s, sep)[i]| <= |s|
  {
    if s != [] {
      PartsNoLonger(s[1..], sep);
    }
  }

  /** The parts of one decoded label. */
  lemma LabelParts(part: bytes)
    requires 0 < |part| <= MAX_LABEL
    ensures LabelsOk(Split(part, DOT)) <==> DotsInside(part)
  {
    SplitNoneEmpty(part);
    PartsNoLonger(part, DOT);
    JoinSplit(part, DOT);
    var parts := Split(part, DOT);
    if NoneEmpty(parts) {
      forall i | 0 <= i < |parts| ensures LabelOk(parts[i]) {}
    } else {
      var i :| 0 <= i < |parts| && parts[i] == [];
      assert !LabelOk(parts[i]);
    }
  }

  lemma LabelsOkConcat(a: seq<bytes>, b: seq<bytes>)
    ensures LabelsOk(a + b) <==> LabelsOk(a) && LabelsOk(b)
  {
    if LabelsOk(a + b) {
      assert forall i :: 0 <= i < |a| ==> a[i] == (a + b)[i];
      assert forall i :: 0 <= i < |b| ==> b[i] == (a + b)[|a| + i];
    }
  }

  lemma {:induction false} AllLabelParts(labels: seq<bytes>)
    requires labels != [] && forall i :: 0 <= i < |labels| ==> 0 < |labels[i]| <= MAX_LABEL
    ensures LabelsOk(Split(NameOf(labels), DOT)) <==> forall i :: 0 <= i < |labels| ==> DotsInside(labels[i])
  {
    hide DotsInside, Split, LabelsOk;
    LabelParts(labels[0]);
    if |labels| > 1 {
      AllLabelParts(labels[1..]);
      SplitConcat(labels[0], NameOf(labels[1..]), DOT);
      LabelsOkConcat(Split(labels[0], DOT), Split(NameOf(labels[1..]), DOT));
      assert labels == [labels[0]] + labels[1..];
    }
  }

  /** The decoder's limit is one octet looser than the encoder's, because it does not count the
      terminator, and it takes labels that hold dots. A decoded name goes back on the wire exactly
      when that octet is unused and no label starts or ends with a dot or holds two in a row. */
  lemma DecodedNameEncodable(buf: bytes, pos: nat)
    requires ReadName(buf, pos).Ok?
    ensures var labels := ReadLabels(buf, pos, 0, 0).value;
            Encodable(ReadName(buf, pos).value) <==>
            WireLen(labels) < MAX_WIRE && forall i :: 0 <= i < |labels| ==> DotsInside(labels[i])
  {
    hide ReadLabels, DotsInside, Split, WireLen;
    var labels := ReadLabels(buf, pos, 0, 0).value;
    var name := NameOf(labels);
    ReadLabelsLimits(buf, pos, 0, 0);
    LowerEncodable(name);
    RootWireLen();
    if labels != [] {
      WireLenOfName(labels);
      NonEmptyName(labels);
      LabelsRoundTrip(name);
      WireLenOfName(Labels(name));
      AllLabelParts(labels);
    }
  }

  lemma RootWireLen()
    ensures WireLen([]) == 0 && LabelsOk([])
  {
  }

  /** The octet of difference is real: labels that take exactly 255 octets decode, and the name
      they give cannot be encoded. */
  lemma DecoderOneOctetLooser(labels: seq<bytes>)
    requires LabelsOk(labels) && WireLen(labels) == MAX_WIRE
    ensures ReadName(Literals(labels) + [0], 0) == Ok(Lower(NameOf(labels)))
    ensures !Encodable(NameOf(labels))
  {
    NameRoundTrip(labels);
    var buf := Literals(labels) + [0];
    GreedyLongestMatch(0, map[], labels, |labels|);
    assert labels[..|labels|] == labels;
    assert WriteLabels(0, map[], labels).out == buf;
    WriteLabelsSound(buf, 0, map[], labels);
    NothingKnown(labels);
    SpelledReads(buf, 0, labels, 0, 0, 0);
  }

  lemma {:induction false} NothingKnown(labels: seq<bytes>)
    ensures ChainDepth(map[], labels) == 0
  {
    if labels != [] {
      NothingKnown(labels[1..]);
    }
  }

  lemma NonEmptyName(labels: seq<bytes>)
    requires labels != [] && labels[0] != []
    ensures NameOf(labels) != []
  {
  }
}
