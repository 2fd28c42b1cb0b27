/** A message body as a list of pieces: plain bytes, compressible names, and blocks preceded by
    their own 16-bit length. Everything proved here holds for any interleaving of them. */
module Emission {
  import opened Bytes
  import opened Names

  datatype Piece =
    | Plain(data: bytes)
    | Name(name: bytes)
    | Sized(body: seq<Piece>)
    | Refuse(fault: Error)

  /** `deepest` is the largest number of pointers any one of the emitted names needs. */
  datatype Emitted = Emitted(out: bytes, table: Table, deepest: nat) {
    function Then(next: Emitted): Emitted {
      Emitted(out + next.out, next.table, Max(deepest, next.deepest))
    }
  }

  function EmitName(at: nat, t: Table, name: bytes): Result<Emitted, Error> {
    NameFaultMeaning(name);
    if NameFault(name).Some? then Err(NameFault(name).value)
    else
      var w := WriteLabels(at, t, Labels(name));
      Ok(Emitted(w.out, w.table, ChainDepth(t, Labels(name))))
  }

  function EmitPiece(at: nat, t: Table, p: Piece): Result<Emitted, Error>
    decreases p
  {
    match p
    case Plain(data) => Ok(Emitted(data, t, 0))
    case Name(name) => EmitName(at, t, name)
    case Sized(body) =>
      var e :- Emit(at + 2, t, body);
      if |e.out| > 0xFFFF then Err(RDataTooLong) else Ok(Emitted(U16(|e.out|) + e.out, e.table, e.deepest))
    case Refuse(fault) => Err(fault)
  }

  /** The bytes appended at offset `at` when the table is `t`; the first fault wins. */
  function Emit(at: nat, t: Table, ps: seq<Piece>): Result<Emitted, Error>
    decreases ps
  {
    if ps == [] then Ok(Emitted([], t, 0))
    else
      var a :- EmitPiece(at, t, ps[0]);
      var b :- Emit(at + |a.out|, a.table, ps[1..]);
      Ok(a.Then(b))
  }

  function EmitAfter(first: Result<Emitted, Error>, at: nat, ps: seq<Piece>): Result<Emitted, Error> {
    var a :- first;
    var b :- Emit(at + |a.out|, a.table, ps);
    Ok(a.Then(b))
  }

  lemma {:induction false} EmitAppend(at: nat, t: Table, ps: seq<Piece>, qs: seq<Piece>)
    ensures Emit(at, t, ps + qs) == EmitAfter(Emit(at, t, ps), at, qs)
    decreases |ps|
  {
    hide EmitPiece, Emitted.Then;
    if ps == [] {
      assert ps + qs == qs;
      if Emit(at, t, qs).Ok? {
        ThenEmpty(t, Emit(at, t, qs).value);
      }
    } else {
      assert (ps + qs)[0] == ps[0] && (ps + qs)[1..] == ps[1..] + qs;
      var first := EmitPiece(at, t, ps[0]);
      if first.Ok? {
        var a := first.value;
        EmitAppend(at + |a.out|, a.table, ps[1..], qs);
        if Emit(at + |a.out|, a.table, ps[1..]).Ok? {
          var b := Emit(at + |a.out|, a.table, ps[1..]).value;
          ThenAssociative(a, b, b);
          var rest := Emit(at + |a.out| + |b.out|, b.table, qs);
          if rest.Ok? {
            ThenAssociative(a, b, rest.value);
          }
        }
      }
    }
  }

  lemma ThenEmpty(t: Table, e: Emitted)
    ensures Emitted([], t, 0).Then(e) == e
  {
    assert [] + e.out == e.out;
  }

  lemma ThenAssociative(a: Emitted, b: Emitted, c: Emitted)
    ensures a.Then(b).Then(c) == a.Then(b.Then(c))
    ensures |a.Then(b).out| == |a.out| + |b.out| && a.Then(b).table == b.table
  {
    assert (a.out + b.out) + c.out == a.out + (b.out + c.out);
  }

  lemma EmitNothing(at: nat, t: Table)
    ensures Emit(at, t, []) == Ok(Emitted([], t, 0))
  {
  }

  lemma EmitOne(at: nat, t: Table, p: Piece)
    ensures Emit(at, t, [p]) == EmitPiece(at, t, p)
  {
    hide EmitName;
    var a := EmitPiece(at, t, p);
    if a.Ok? {
      assert a.value.out + [] == a.value.out;
    }
  }

  // ----- The table stays readable -----

  lemma {:induction false} EmitPieceSound(buf: bytes, at: nat, t: Table, p: Piece)
    requires TableOk(buf, at, t)
    requires EmitPiece(at, t, p).Ok? && Holds(buf, at, EmitPiece(at, t, p).value.out)
    ensures var e := EmitPiece(at, t, p).value;
            TableOk(buf, at + |e.out|, e.table)
    decreases p
  {
    hide EmitName, NameReadsHere, TableOk, Emit;
    match p
    case Plain(data) => TableGrows(buf, at, t, at + |data|);
    case Name(name) => NameSound(buf, at, t, name);
    case Sized(body) =>
      var e := Emit(at + 2, t, body).value;
      HoldsParts(buf, at, U16(|e.out|), e.out);
      TableGrows(buf, at, t, at + 2);
      EmitSound(buf, at + 2, t, body);
  }

  /** The cursor gets the name back, unless reading it takes more pointers than it allows, and
      stops behind the name's own bytes. */
  ghost predicate NameReadsHere(buf: bytes, at: nat, name: bytes, e: Emitted) {
    && ReadName(buf, at) == (if e.deepest <= MAX_HOPS then Ok(Lower(name)) else Err(PointerLoop))
    && NameEnd(buf, at) == at + |e.out|
  }

  lemma NameSound(buf: bytes, at: nat, t: Table, name: bytes)
    requires TableOk(buf, at, t)
    requires EmitName(at, t, name).Ok? && Holds(buf, at, EmitName(at, t, name).value.out)
    ensures var e := EmitName(at, t, name).value;
            TableOk(buf, at + |e.out|, e.table) && NameReadsHere(buf, at, name, e)
  {
    hide WriteLabels, Spells, TableOk, ReadLabels, NameEnd, ChainDepth, NameFault, Labels, LabelsOk, WireLen, Lower,
         NameOf, Holds;
    NameFaultMeaning(name);
    var labels := Labels(name);
    WriteLabelsSound(buf, at, t, labels);
    SpelledReads(buf, at, labels, ChainDepth(t, labels), 0, 0);
    LabelsRoundTrip(name);
  }

  /** Emitting any pieces leaves every remembered suffix, old and new, readable in place. */
  lemma {:induction false} EmitSound(buf: bytes, at: nat, t: Table, ps: seq<Piece>)
    requires TableOk(buf, at, t)
    requires Emit(at, t, ps).Ok? && Holds(buf, at, Emit(at, t, ps).value.out)
    ensures TableOk(buf, at + |Emit(at, t, ps).value.out|, Emit(at, t, ps).value.table)
    decreases ps
  {
    hide EmitPiece, TableOk;
    if ps != [] {
      EmitSplit(buf, at, t, ps);
      var a := EmitPiece(at, t, ps[0]).value;
      EmitPieceSound(buf, at, t, ps[0]);
      EmitSound(buf, at + |a.out|, a.table, ps[1..]);
    }
  }

  lemma EmitSplit(buf: bytes, at: nat, t: Table, ps: seq<Piece>)
    requires ps != [] && Emit(at, t, ps).Ok? && Holds(buf, at, Emit(at, t, ps).value.out)
    ensures var a := EmitPiece(at, t, ps[0]);
            && a.Ok? && Holds(buf, at, a.value.out)
            && var b := Emit(at + |a.value.out|, a.value.table, ps[1..]);
               && b.Ok? && Holds(buf, at + |a.value.out|, b.value.out)
               && Emit(at, t, ps).value == a.value.Then(b.value)
  {
    hide EmitPiece;
    var a := EmitPiece(at, t, ps[0]).value;
    HoldsParts(buf, at, a.out, Emit(at + |a.out|, a.table, ps[1..]).value.out);
  }

  /** The compression round trip: a name written anywhere in a run of names and other bytes reads
      back from its first byte, whatever comes before and after it, exactly when its pointers nest
      no deeper than the cursor follows. */
  lemma CompressionRoundTrip(before: seq<Piece>, name: bytes, after: seq<Piece>, tail: bytes)
    requires Emit(0, map[], before + [Name(name)] + after).Ok?
    ensures var buf := Emit(0, map[], before + [Name(name)] + after).value.out + tail;
            var head := Emit(0, map[], before);
            && head.Ok?
            && var e := EmitName(|head.value.out|, head.value.table, name);
               e.Ok? && NameReadsHere(buf, |head.value.out|, name, e.value)
  {
    hide Emit, EmitName, NameReadsHere, TableOk;
    var whole := Emit(0, map[], before + [Name(name)] + after).value.out;
    var buf := whole + tail;
    EmptyTableOk(buf, 0);
    EmitAppend(0, map[], before + [Name(name)], after);
    EmitAppend(0, map[], before, [Name(name)]);
    var head := Emit(0, map[], before).value;
    EmitOne(|head.out|, head.table, Name(name));
    var e := EmitName(|head.out|, head.table, name).value;
    var upTo := Emit(0, map[], before + [Name(name)]).value;
    assert Holds(buf, 0, whole);
    HoldsParts(buf, 0, upTo.out, Emit(|upTo.out|, upTo.table, after).value.out);
    HoldsParts(buf, 0, head.out, e.out);
    EmitSound(buf, 0, map[], before);
    NameSound(buf, |head.out|, head.table, name);
  }

  /** Back-patching is safe: whatever two bytes end up in front of a block, every suffix recorded
      before or inside the block still spells itself. No recorded name ever reads the slot. */
  lemma SlotNeverRead(sofar: bytes, t: Table, slot: bytes, body: seq<Piece>)
    requires TableOk(sofar, |sofar|, t) && |slot| == 2
    requires Emit(|sofar| + 2, t, body).Ok?
    ensures var e := Emit(|sofar| + 2, t, body).value;
            TableOk(sofar + slot + e.out, |sofar| + 2 + |e.out|, e.table)
  {
    hide TableOk, Emit;
    var e := Emit(|sofar| + 2, t, body).value;
    TableExtends(sofar, slot + e.out, |sofar|, t);
    var buf := sofar + (slot + e.out);
    assert buf == sofar + slot + e.out;
    TableGrows(buf, |sofar|, t, |sofar| + 2);
    EmitSound(buf, |sofar| + 2, t, body);
  }

  // ----- Bounds on nesting and size -----

  function NamesInPiece(p: Piece): nat
    decreases p
  {
    match p
    case Name(_) => 1
    case Sized(body) => NameCount(body)
    case _ => 0
  }

  function NameCount(ps: seq<Piece>): nat
    decreases ps
  {
    if ps == [] then 0 else NamesInPiece(ps[0]) + NameCount(ps[1..])
  }

  function LabelsInPiece(p: Piece): nat
    decreases p
  {
    match p
    case Name(name) => |Labels(name)|
    case Sized(body) => MostLabels(body)
    case _ => 0
  }

  function MostLabels(ps: seq<Piece>): nat
    decreases ps
  {
    if ps == [] then 0 else Max(LabelsInPiece(ps[0]), MostLabels(ps[1..]))
  }

  /** Uncompressed size; at most 255 octets for each name. */
  function PieceSize(p: Piece): nat
    decreases p
  {
    match p
    case Plain(data) => |data|
    case Name(name) => WireLen(Labels(name)) + 1
    case Sized(body) => 2 + FullSize(body)
    case Refuse(_) => 0
  }

  function FullSize(ps: seq<Piece>): nat
    decreases ps
  {
    if ps == [] then 0 else PieceSize(ps[0]) + FullSize(ps[1..])
  }

  lemma EmitNameNeverLonger(at: nat, t: Table, name: bytes)
    requires EmitName(at, t, name).Ok?
    ensures |EmitName(at, t, name).value.out| <= WireLen(Labels(name)) + 1 <= MAX_WIRE
  {
    NameFaultMeaning(name);
    NeverLonger(at, t, Labels(name));
  }

  lemma EmitNameBounds(at: nat, t: Table, name: bytes, n: nat)
    requires Shallow(t, n) && EmitName(at, t, name).Ok?
    ensures Shallow(EmitName(at, t, name).value.table, n + 1)
    ensures EmitName(at, t, name).value.deepest <= n && EmitName(at, t, name).value.deepest <= |Labels(name)|
  {
    NameFaultMeaning(name);
    DepthBound(t, Labels(name), n);
    WriteLabelsShallow(at, t, Labels(name), n);
  }

  /** A name needs at most one pointer per label, and fewer pointers than there are names so far. */
  lemma {:induction false} EmitShallow(at: nat, t: Table, ps: seq<Piece>, n: nat)
    requires Shallow(t, n) && Emit(at, t, ps).Ok?
    ensures Shallow(Emit(at, t, ps).value.table, n + NameCount(ps))
    ensures Emit(at, t, ps).value.deepest <= MostLabels(ps)
    ensures Emit(at, t, ps).value.deepest == 0 || Emit(at, t, ps).value.deepest < n + NameCount(ps)
    decreases ps
  {
    hide EmitName, Shallow, Labels;
    if ps != [] {
      var a := EmitPiece(at, t, ps[0]).value;
      var k := NamesInPiece(ps[0]);
      match ps[0] {
        case Name(name) => EmitNameBounds(at, t, name, n);
        case Sized(body) => EmitShallow(at + 2, t, body, n);
        case _ =>
      }
      EmitShallow(at + |a.out|, a.table, ps[1..], n + k);
    }
  }

  lemma {:induction false} EmitNeverLonger(at: nat, t: Table, ps: seq<Piece>)
    requires Emit(at, t, ps).Ok?
    ensures |Emit(at, t, ps).value.out| <= FullSize(ps)
    decreases ps
  {
    hide EmitName, Labels, WireLen;
    if ps != [] {
      var a := EmitPiece(at, t, ps[0]).value;
      match ps[0] {
        case Name(name) => EmitNameNeverLonger(at, t, name);
        case Sized(body) => EmitNeverLonger(at + 2, t, body);
        case _ =>
      }
      EmitNeverLonger(at + |a.out|, a.table, ps[1..]);
    }
  }

  /** At most 32 labels in every name, or at most 33 names: either keeps the cursor's hop cap. */
  lemma HopCapSuffices(at: nat, ps: seq<Piece>)
    requires Emit(at, map[], ps).Ok?
    requires MostLabels(ps) <= MAX_HOPS || NameCount(ps) <= MAX_HOPS + 1
    ensures Emit(at, map[], ps).value.deepest <= MAX_HOPS
  {
    EmitShallow(at, map[], ps, 0);
  }

  // ----- When emission succeeds -----

  predicate Emittable(ps: seq<Piece>)
    decreases ps
  {
    ps != [] ==>
      && (match ps[0]
          case Plain(_) => true
          case Name(name) => Encodable(name)
          case Sized(body) => Emittable(body) && FullSize(body) <= 0xFFFF
          case Refuse(_) => false)
      && Emittable(ps[1..])
  }

  lemma EncodableEmits(at: nat, t: Table, name: bytes)
    ensures EmitName(at, t, name).Ok? <==> Encodable(name)
  {
    NameFaultMeaning(name);
  }

  lemma {:induction false} EmittableSucceeds(at: nat, t: Table, ps: seq<Piece>)
    requires Emittable(ps)
    ensures Emit(at, t, ps).Ok?
    decreases ps
  {
    hide EmitName, Encodable, FullSize;
    if ps != [] {
      match ps[0] {
        case Name(name) => EncodableEmits(at, t, name);
        case Sized(body) =>
          EmittableSucceeds(at + 2, t, body);
          EmitNeverLonger(at + 2, t, body);
        case _ =>
      }
      var a := EmitPiece(at, t, ps[0]).value;
      EmittableSucceeds(at + |a.out|, a.table, ps[1..]);
    }
  }

  lemma NameFits(name: bytes)
    requires Encodable(name)
    ensures Emittable([Name(name)]) && FullSize([Name(name)]) <= MAX_WIRE
  {
    var rest: seq<Piece> := [Name(name)][1..];
    assert rest == [];
  }

  lemma PlainFits(data: bytes)
    ensures Emittable([Plain(data)]) && FullSize([Plain(data)]) == |data|
  {
    var rest: seq<Piece> := [Plain(data)][1..];
    assert rest == [];
  }

  lemma {:induction false} PiecesConcat(ps: seq<Piece>, qs: seq<Piece>)
    ensures Emittable(ps + qs) <==> Emittable(ps) && Emittable(qs)
    ensures FullSize(ps + qs) == FullSize(ps) + FullSize(qs)
    ensures NameCount(ps + qs) == NameCount(ps) + NameCount(qs)
    decreases |ps|
  {
    if ps == [] {
      assert ps + qs == qs;
    } else {
      assert (ps + qs)[0] == ps[0] && (ps + qs)[1..] == ps[1..] + qs;
      PiecesConcat(ps[1..], qs);
    }
  }

  lemma SizedFits(body: seq<Piece>)
    ensures Emittable([Sized(body)]) <==> Emittable(body) && FullSize(body) <= 0xFFFF
    ensures FullSize([Sized(body)]) == 2 + FullSize(body)
    ensures NameCount([Sized(body)]) == NameCount(body)
  {
    var rest: seq<Piece> := [Sized(body)][1..];
    assert rest == [];
  }

  lemma NamesAndBytes(name: bytes, data: bytes)
    ensures NameCount([Name(name)]) == 1 && NameCount([Plain(data)]) == 0
  {
    assert [Name(name)][1..] == [] && [Plain(data)][1..] == [];
  }

  /** No refusal and no name beyond the limits anywhere; sizes aside, what emission needs. */
  predicate Faultless(ps: seq<Piece>)
    decreases ps
  {
    ps != [] ==>
      && (match ps[0]
          case Plain(_) => true
          case Name(name) => Encodable(name)
          case Sized(body) => Faultless(body)
          case Refuse(_) => false)
      && Faultless(ps[1..])
  }

  lemma {:induction false} EmittedIsFaultless(at: nat, t: Table, ps: seq<Piece>)
    requires Emit(at, t, ps).Ok?
    ensures Faultless(ps)
    decreases ps
  {
    hide EmitName, Encodable;
    if ps != [] {
      var a := EmitPiece(at, t, ps[0]).value;
      match ps[0] {
        case Name(name) => EncodableEmits(at, t, name);
        case Sized(body) => EmittedIsFaultless(at + 2, t, body);
        case _ =>
      }
      EmittedIsFaultless(at + |a.out|, a.table, ps[1..]);
    }
  }

  lemma {:induction false} FaultlessConcat(ps: seq<Piece>, qs: seq<Piece>)
    ensures Faultless(ps + qs) <==> Faultless(ps) && Faultless(qs)
    decreases |ps|
  {
    hide Encodable;
    if ps == [] {
      assert ps + qs == qs;
    } else {
      assert (ps + qs)[0] == ps[0] && (ps + qs)[1..] == ps[1..] + qs;
      FaultlessConcat(ps[1..], qs);
    }
  }
}
