/** The builder and the cursor of internal/dnswire/name.go: the objects that write and read a
    message in place. Their methods are specified by the functions of Names. */
module Wire {
  import opened Bytes
  import opened Names

  function Offsets(t: Table): map<bytes, nat> { map name | name in t :: t[name].at }

  lemma OffsetsRecord(t: Table, name: bytes, e: Entry)
    ensures Offsets(t[name := e]) == Offsets(t)[name := e.at]
  {
  }

  /** Accumulates an outgoing message and remembers where each name suffix landed. */
  class Builder {
    var buf: bytes
    var offsets: map<bytes, nat>
    /** The offsets together with how deep each suffix's pointers nest. */
    ghost var table: Table

    ghost predicate Valid()
      reads this
    {
      offsets == Offsets(table) && InReach(table)
    }

    constructor ()
      ensures Valid() && buf == [] && table == map[]
    {
      buf, offsets, table := [], map[], map[];
    }

    method Uint8(v: byte)
      modifies this`buf
      ensures buf == old(buf) + [v]
    {
      buf := buf + [v];
    }

    method Uint16(v: u16)
      modifies this`buf
      ensures buf == old(buf) + U16(v)
    {
      buf := buf + [v / 0x100, v % 0x100];
    }

    method Uint32(v: u32)
      modifies this`buf
      ensures buf == old(buf) + U32(v)
    {
      Uint16(v / 0x1_0000);
      Uint16(v % 0x1_0000);
    }

    method Bytes(p: bytes)
      modifies this`buf
      ensures buf == old(buf) + p
    {
      buf := buf + p;
    }

    /** Encodes a name against the suffixes written so far; a refused name leaves no trace. */
    method Name(name: bytes) returns (fault: Option<Error>)
      requires Valid()
      modifies this
      ensures Valid()
      ensures fault.None? <==> Encodable(name)
      ensures fault == NameFault(name)
      ensures fault.Some? ==> buf == old(buf) && table == old(table)
      ensures fault.None? ==>
                var w := WriteLabels(|old(buf)|, old(table), Labels(name));
                buf == old(buf) + w.out && table == w.table
    {
      NameFaultMeaning(name);
      var labels := Labels(name);
      fault := CheckLabels(labels);
      if fault.None? {
        WriteSuffixes(labels);
      }
    }

    /** The length checks that open builder.name. */
    static method CheckLabels(labels: seq<bytes>) returns (fault: Option<Error>)
      ensures fault == if LabelFault(labels).Some? then LabelFault(labels)
                       else if WireLen(labels) + 1 > MAX_WIRE then Some(NameTooLong) else None
    {
      var wire := 1;
      var i := 0;
      while i < |labels|
        invariant 0 <= i <= |labels|
        invariant wire + WireLen(labels[i..]) == WireLen(labels) + 1
        invariant LabelFault(labels[i..]) == LabelFault(labels)
      {
        assert labels[i..][0] == labels[i] && labels[i..][1..] == labels[i + 1..];
        if labels[i] == [] {
          return Some(EmptyLabel);
        }
        if |labels[i]| > MAX_LABEL {
          return Some(LabelTooLong);
        }
        wire := wire + |labels[i]| + 1;
        i := i + 1;
      }
      return if wire > MAX_WIRE then Some(NameTooLong) else None;
    }

    /** The writing loop of builder.name: each suffix is looked up, else recorded and then written. */
    method WriteSuffixes(labels: seq<bytes>)
      requires Valid() && LabelsOk(labels)
      modifies this
      ensures Valid()
      ensures buf == old(buf) + WriteLabels(|old(buf)|, old(table), labels).out
      ensures table == WriteLabels(|old(buf)|, old(table), labels).table
    {
      var i := 0;
      assert labels[0..] == labels;
      while i < |labels|
        invariant 0 <= i <= |labels|
        invariant Valid()
        invariant Finish(buf, table, labels[i..]) == Finish(old(buf), old(table), labels)
      {
        assert labels[i..][0] == labels[i] && labels[i..][1..] == labels[i + 1..];
        if NameOf(labels[i..]) in offsets {
          Uint16(0xC000 + offsets[NameOf(labels[i..])] % POINTER_LIMIT);
          return;
        }
        WriteLiteral(labels[i..]);
        i := i + 1;
      }
      assert labels[i..] == [];
      Uint8(0);
    }

    /** One round of that loop for a suffix seen for the first time. */
    method WriteLiteral(labels: seq<bytes>)
      requires Valid() && LabelsOk(labels) && labels != [] && NameOf(labels) !in offsets
      modifies this
      ensures Valid()
      ensures buf == old(buf) + ([|labels[0]|] + labels[0]) && table == Record(|old(buf)|, old(table), labels)
      ensures Finish(buf, table, labels[1..]) == Finish(old(buf), old(table), labels)
    {
      FinishStep(buf, table, labels);
      if |buf| < POINTER_LIMIT {
        OffsetsRecord(table, NameOf(labels), Entry(|buf|, ChainDepth(table, labels[1..])));
        offsets := offsets[NameOf(labels) := |buf|];
        table := Record(|buf|, table, labels);
      }
      ghost var sofar := buf;
      Uint8(|labels[0]|);
      Bytes(labels[0]);
      assert buf == sofar + ([|labels[0]|] + labels[0]);
    }
  }

  /** The buffer and table once the rest of a name is written. */
  function Finish(sofar: bytes, t: Table, labels: seq<bytes>): Written
    requires LabelsOk(labels)
  {
    var w := WriteLabels(|sofar|, t, labels);
    Written(sofar + w.out, w.table)
  }

  lemma FinishStep(sofar: bytes, t: Table, labels: seq<bytes>)
    requires LabelsOk(labels) && labels != [] && NameOf(labels) !in t
    ensures Finish(sofar + ([|labels[0]|] + labels[0]), Record(|sofar|, t, labels), labels[1..]) ==
            Finish(sofar, t, labels)
  {
    var head := [|labels[0]|] + labels[0];
    var rest := WriteLabels(|sofar| + |head|, Record(|sofar|, t, labels), labels[1..]);
    assert (sofar + head) + rest.out == sofar + (head + rest.out);
  }

  /** Walks an incoming message. */
  class Cursor {
    const buf: bytes
    var pos: nat

    constructor (buf: bytes, pos: nat)
      ensures this.buf == buf && this.pos == pos
    {
      this.buf, this.pos := buf, pos;
    }

    method Uint16() returns (r: Result<u16, Error>)
      modifies this
      ensures r == if old(pos) + 2 > |buf| then Err(ShortRead) else Ok(U16At(buf, old(pos)))
      ensures pos == if r.Ok? then old(pos) + 2 else old(pos)
    {
      if pos + 2 > |buf| {
        return Err(ShortRead);
      }
      var v := buf[pos] as int * 0x100 + buf[pos + 1];
      pos := pos + 2;
      return Ok(v);
    }

    method Uint32() returns (r: Result<u32, Error>)
      modifies this
      ensures r == if old(pos) + 4 > |buf| then Err(ShortRead) else Ok(U32At(buf, old(pos)))
      ensures pos == if r.Ok? then old(pos) + 4 else old(pos)
    {
      if pos + 4 > |buf| {
        return Err(ShortRead);
      }
      var v := buf[pos] as int * 0x100_0000 + buf[pos + 1] as int * 0x1_0000
               + buf[pos + 2] as int * 0x100 + buf[pos + 3];
      pos := pos + 4;
      return Ok(v);
    }

    method Bytes(n: nat) returns (r: Result<bytes, Error>)
      modifies this
      ensures r == if old(pos) + n > |buf| then Err(ShortRead) else Ok(buf[old(pos)..old(pos) + n])
      ensures pos == if r.Ok? then old(pos) + n else old(pos)
    {
      if pos + n > |buf| {
        return Err(ShortRead);
      }
      var v := buf[pos..pos + n];
      pos := pos + n;
      return Ok(v);
    }

    /** Decodes a possibly-compressed name. Whatever the bytes, every read is in bounds and the
        loop body starts at most 160 times: 127 labels, 32 pointers and a last step. */
    method Name() returns (r: Result<bytes, Error>, ghost rounds: nat)
      modifies this
      ensures r == ReadName(buf, old(pos))
      ensures r.Ok? ==> old(pos) < pos == NameEnd(buf, old(pos)) <= |buf|
      ensures rounds <= 160
    {
      hide ReadLabels, NameEnd, NameOf, Lower;
      var labels: seq<bytes> := [];
      var at: nat := pos;
      PrependNone(ReadLabels(buf, pos, 0, 0));
      var hops, jumped, total := 0, false, 0;
      rounds := 0;
      while true
        invariant hops <= MAX_HOPS && total <= MAX_WIRE
        invariant jumped <==> hops > 0
        invariant 2 * |labels| <= total && rounds == |labels| + hops
        invariant ReadLabels(buf, old(pos), 0, 0) == Prepend(labels, ReadLabels(buf, at, hops, total))
        invariant if jumped then pos == NameEnd(buf, old(pos))
                  else pos == old(pos) && NameEnd(buf, at) == NameEnd(buf, pos)
        decreases MAX_HOPS - hops, MAX_WIRE - total
      {
        rounds := rounds + 1;
        RoundStops(buf, at, hops, total);
        if at >= |buf| {
          return Err(TruncatedName), rounds;
        }
        var l := buf[at];
        if l == 0 {
          if !jumped {
            pos := at + 1;
          }
          assert labels + [] == labels;
          NameEndBounds(buf, old(pos), 0, 0);
          return Ok(Lower(NameOf(labels))), rounds;
        } else if l >= 0xC0 {
          if at + 2 > |buf| {
            return Err(TruncatedName), rounds;
          }
          var target := (l as int - 0xC0) * 0x100 + buf[at + 1];
          if target >= at {
            return Err(PointerForward), rounds;
          }
          RoundJumps(buf, at, hops, total);
          if !jumped {
            pos := at + 2;
            jumped := true;
          }
          hops := hops + 1;
          if hops > MAX_HOPS {
            return Err(PointerLoop), rounds;
          }
          at := target;
        } else if l >= 0x40 {
          return Err(ReservedLabel), rounds;
        } else {
          if at + 1 + l > |buf| {
            return Err(TruncatedName), rounds;
          }
          RoundReads(buf, at, hops, total);
          total := total + l + 1;
          if total > MAX_WIRE {
            return Err(NameTooLong), rounds;
          }
          PrependStep(labels, buf[at + 1..at + 1 + l], ReadLabels(buf, at + 1 + l, hops, total));
          labels := labels + [buf[at + 1..at + 1 + l]];
          at := at + 1 + l;
        }
      }
    }
  }

  function Prepend(labels: seq<bytes>, r: Result<seq<bytes>, Error>): Result<seq<bytes>, Error> {
    var rest :- r;
    Ok(labels + rest)
  }

  lemma PrependNone(r: Result<seq<bytes>, Error>)
    ensures Prepend([], r) == r
  {
    if r.Ok? {
      assert [] + r.value == r.value;
    }
  }

  /** A round of cursor.name's loop that ends it at once. */
  lemma RoundStops(buf: bytes, at: nat, hops: nat, total: nat)
    requires hops <= MAX_HOPS && total <= MAX_WIRE
    ensures at >= |buf| ==> ReadLabels(buf, at, hops, total) == Err(TruncatedName)
    ensures at < |buf| && buf[at] == 0 ==> ReadLabels(buf, at, hops, total) == Ok([]) && NameEnd(buf, at) == at + 1
    ensures at < |buf| && 0x40 <= buf[at] < 0xC0 ==> ReadLabels(buf, at, hops, total) == Err(ReservedLabel)
    ensures at < |buf| && buf[at] >= 0xC0 ==> NameEnd(buf, at) == at + 2
    ensures at < |buf| && buf[at] >= 0xC0 && at + 2 > |buf| ==> ReadLabels(buf, at, hops, total) == Err(TruncatedName)
    ensures at + 2 <= |buf| && buf[at] >= 0xC0 && PointerTarget(buf, at) >= at ==>
              ReadLabels(buf, at, hops, total) == Err(PointerForward)
    ensures at < |buf| && 0 < buf[at] < 0x40 && at + 1 + buf[at] > |buf| ==>
              ReadLabels(buf, at, hops, total) == Err(TruncatedName)
  {
  }

  /** A round that follows a backward pointer, or is one too many. */
  lemma RoundJumps(buf: bytes, at: nat, hops: nat, total: nat)
    requires hops <= MAX_HOPS && total <= MAX_WIRE
    requires at + 2 <= |buf| && buf[at] >= 0xC0 && PointerTarget(buf, at) < at
    ensures ReadLabels(buf, at, hops, total) ==
            if hops < MAX_HOPS then ReadLabels(buf, PointerTarget(buf, at), hops + 1, total) else Err(PointerLoop)
  {
  }

  /** A round that takes a label in place, or finds the name too long. */
  lemma RoundReads(buf: bytes, at: nat, hops: nat, total: nat)
    requires hops <= MAX_HOPS && total <= MAX_WIRE
    requires at < |buf| && 0 < buf[at] < 0x40 && at + 1 + buf[at] <= |buf|
    ensures ReadLabels(buf, at, hops, total) ==
            if total + buf[at] + 1 > MAX_WIRE then Err(NameTooLong)
            else Prepend([buf[at + 1..at + 1 + buf[at]]], ReadLabels(buf, at + 1 + buf[at], hops, total + buf[at] + 1))
    ensures NameEnd(buf, at) == NameEnd(buf, at + 1 + buf[at])
  {
  }

  lemma PrependStep(labels: seq<bytes>, next: bytes, r: Result<seq<bytes>, Error>)
    ensures Prepend(labels, Prepend([next], r)) == Prepend(labels + [next], r)
  {
    if r.Ok? {
      assert labels + ([next] + r.value) == labels + [next] + r.value;
    }
  }
}
