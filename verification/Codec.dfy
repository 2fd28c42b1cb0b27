/** Encode and Decode as internal/dnswire/message.go and rdata.go run them: a builder whose length
    slots are patched after the fact, and a cursor stepping through the sections. */
module Codec {
  import opened Bytes
  import opened Names
  import opened Emission
  import opened Messages
  import Wire

  // ----- Writing -----

  /** A builder's buffer and table after the pieces `ps`. */
  function Append(sofar: bytes, t: Table, ps: seq<Piece>): Result<Written, Error> {
    var e :- Emit(|sofar|, t, ps);
    Ok(Written(sofar + e.out, e.table))
  }

  /** A writing step either fails with the first fault of `ps` or appends exactly `ps`. */
  ghost predicate Appended(before: bytes, t: Table, ps: seq<Piece>, fault: Option<Error>, after: bytes, t': Table) {
    match Append(before, t, ps)
    case Ok(w) => fault.None? && after == w.out && t' == w.table
    case Err(e) => fault == Some(e)
  }

  lemma AppendBoth(sofar: bytes, t: Table, ps: seq<Piece>, qs: seq<Piece>)
    ensures Append(sofar, t, ps + qs) ==
            match Append(sofar, t, ps)
            case Ok(w) => Append(w.out, w.table, qs)
            case Err(e) => Err(e)
  {
    hide Emit;
    EmitAppend(|sofar|, t, ps, qs);
    if Emit(|sofar|, t, ps).Ok? {
      var a := Emit(|sofar|, t, ps).value;
      var b := Emit(|sofar| + |a.out|, a.table, qs);
      if b.Ok? {
        assert sofar + (a.out + b.value.out) == (sofar + a.out) + b.value.out;
      }
    }
  }

  /** Every writing step of the encoder, in-place patches included, keeps the builder's table sound
      over the builder's buffer: each remembered suffix spells itself at its offset. */
  lemma EveryWriteKeepsTable(sofar: bytes, t: Table, ps: seq<Piece>)
    requires TableOk(sofar, |sofar|, t) && Append(sofar, t, ps).Ok?
    ensures var w := Append(sofar, t, ps).value; TableOk(w.out, |w.out|, w.table)
  {
    hide Emit, TableOk;
    var e := Emit(|sofar|, t, ps).value;
    TableExtends(sofar, e.out, |sofar|, t);
    EmitSound(sofar + e.out, |sofar|, t, ps);
  }

  lemma AppendPlain(sofar: bytes, t: Table, data: bytes)
    ensures Append(sofar, t, [Plain(data)]) == Ok(Written(sofar + data, t))
  {
    EmitOne(|sofar|, t, Plain(data));
  }

  lemma AppendName(sofar: bytes, t: Table, name: bytes)
    ensures !Encodable(name) ==> NameFault(name).Some? && Append(sofar, t, [Name(name)]) == Err(NameFault(name).value)
    ensures Encodable(name) ==>
              var w := WriteLabels(|sofar|, t, Labels(name));
              Append(sofar, t, [Name(name)]) == Ok(Written(sofar + w.out, w.table))
  {
    NameFaultMeaning(name);
    EmitOne(|sofar|, t, Name(name));
  }

  lemma AppendRefusal(sofar: bytes, t: Table, fault: Error)
    ensures Append(sofar, t, [Refuse(fault)]) == Err(fault)
  {
    EmitOne(|sofar|, t, Refuse(fault));
  }

  method WriteName(b: Wire.Builder, name: bytes) returns (fault: Option<Error>)
    requires b.Valid()
    modifies b
    ensures b.Valid()
    ensures Appended(old(b.buf), old(b.table), [Name(name)], fault, b.buf, b.table)
  {
    AppendName(b.buf, b.table, name);
    fault := b.Name(name);
  }

  lemma TextBytesSnoc(strings: seq<bytes>, s: bytes)
    requires TextsFit(strings) && |s| <= 255
    ensures TextsFit(strings + [s])
    ensures TextBytes(strings + [s]) == TextBytes(strings) + [|s|] + s
  {
    if strings != [] {
      TextBytesSnoc(strings[1..], s);
      assert (strings + [s])[1..] == strings[1..] + [s];
    }
  }

  /** TXTData.appendTo. */
  method AppendTexts(b: Wire.Builder, strings: seq<bytes>) returns (fault: Option<Error>)
    requires b.Valid()
    modifies b
    ensures b.Valid()
    ensures Appended(old(b.buf), old(b.table), DataPieces(TXTData(strings)), fault, b.buf, b.table)
  {
    if strings == [] {
      AppendRefusal(b.buf, b.table, NoStrings);
      return Some(NoStrings);
    }
    var i := 0;
    while i < |strings|
      invariant 0 <= i <= |strings|
      invariant b.Valid() && b.table == old(b.table)
      invariant TextsFit(strings[..i])
      invariant b.buf == old(b.buf) + TextBytes(strings[..i])
    {
      if |strings[i]| > 255 {
        assert !TextsFit(strings);
        AppendRefusal(old(b.buf), b.table, StringTooLong);
        return Some(StringTooLong);
      }
      TextBytesSnoc(strings[..i], strings[i]);
      assert strings[..i + 1] == strings[..i] + [strings[i]];
      ghost var sofar := b.buf;
      b.Uint8(|strings[i]|);
      b.Bytes(strings[i]);
      assert b.buf == sofar + ([|strings[i]|] + strings[i]);
      i := i + 1;
    }
    assert strings[..i] == strings;
    AppendPlain(old(b.buf), b.table, TextBytes(strings));
    return None;
  }

  /** SOAData.appendTo. */
  method AppendSOA(b: Wire.Builder, d: RData) returns (fault: Option<Error>)
    requires b.Valid() && d.SOAData?
    modifies b
    ensures b.Valid()
    ensures Appended(old(b.buf), old(b.table), DataPieces(d), fault, b.buf, b.table)
  {
    hide Append, WriteLabels, U32;
    ghost var sofar, t := b.buf, b.table;
    ghost var ps := DataPieces(d);
    AppendBoth(sofar, t, ps[..1], ps[1..]);
    assert ps == ps[..1] + ps[1..] && ps[..1] == [Name(d.mname)];
    fault := WriteName(b, d.mname);
    if fault.Some? {
      return;
    }
    AppendBoth(b.buf, b.table, ps[1..2], ps[2..]);
    assert ps[1..] == ps[1..2] + ps[2..] && ps[1..2] == [Name(d.rname)];
    fault := WriteName(b, d.rname);
    if fault.Some? {
      return;
    }
    sofar := b.buf;
    AppendPlain(sofar, b.table, SOATail(d));
    b.Uint32(d.serial);
    b.Uint32(d.refresh);
    b.Uint32(d.retry);
    b.Uint32(d.expire);
    b.Uint32(d.minimum);
    assert b.buf == sofar + SOATail(d);
  }

  /** RData.appendTo, chosen by the payload's own kind. */
  method AppendData(b: Wire.Builder, d: RData) returns (fault: Option<Error>)
    requires b.Valid() && !d.NoPayload?
    modifies b
    ensures b.Valid()
    ensures Appended(old(b.buf), old(b.table), DataPieces(d), fault, b.buf, b.table)
  {
    match d {
      case AData(addr) =>
        if !addr.V4? {
          AppendRefusal(b.buf, b.table, WrongFamily);
          return Some(WrongFamily);
        }
        AppendPlain(b.buf, b.table, addr.quad);
        b.Bytes(addr.quad);
        return None;
      case AAAAData(addr) =>
        if !addr.V6? || addr.Is4In6() {
          AppendRefusal(b.buf, b.table, WrongFamily);
          return Some(WrongFamily);
        }
        AppendPlain(b.buf, b.table, addr.octets);
        b.Bytes(addr.octets);
        return None;
      case TXTData(strings) => fault := AppendTexts(b, strings);
      case NSData(host) => fault := WriteName(b, host);
      case CNAMEData(target) => fault := WriteName(b, target);
      case SOAData(_, _, _, _, _, _, _) => fault := AppendSOA(b, d);
      case RawData(data) =>
        AppendPlain(b.buf, b.table, data);
        b.Bytes(data);
        return None;
    }
  }

  lemma PatchSlot(before: bytes, out: bytes)
    requires |out| <= 0xFFFF
    ensures (before + U16(0) + out)[|before| := |out| / 0x100][|before| + 1 := |out| % 0x100] ==
            before + (U16(|out|) + out)
  {
  }

  /** Reserves the RDLENGTH slot, writes the payload behind it, then overwrites the slot. The
      result is what writing the right length first would have given: the two emissions agree
      because a name's bytes depend on its offset and the table, never on the buffer's contents. */
  method WriteSized(b: Wire.Builder, d: RData) returns (fault: Option<Error>)
    requires b.Valid() && !d.NoPayload?
    modifies b
    ensures b.Valid()
    ensures Appended(old(b.buf), old(b.table), [Sized(DataPieces(d))], fault, b.buf, b.table)
  {
    hide Emit, DataPieces;
    ghost var body := Emit(|b.buf| + 2, b.table, DataPieces(d));
    EmitOne(|b.buf|, b.table, Sized(DataPieces(d)));
    var lenAt := |b.buf|;
    b.Uint16(0);
    var start := |b.buf|;
    fault := AppendData(b, d);
    if fault.Some? {
      return;
    }
    var rdlen := |b.buf| - start;
    if rdlen > 0xFFFF {
      return Some(RDataTooLong);
    }
    PatchSlot(old(b.buf), body.value.out);
    b.buf := b.buf[lenAt := rdlen / 0x100][lenAt + 1 := rdlen % 0x100];
  }

  /** encodeRR. */
  method EncodeRR(b: Wire.Builder, rr: RR) returns (fault: Option<Error>)
    requires b.Valid()
    modifies b
    ensures b.Valid()
    ensures Appended(old(b.buf), old(b.table), RRPieces(rr), fault, b.buf, b.table)
  {
    if rr.data.NoPayload? {
      AppendRefusal(b.buf, b.table, NoData);
      return Some(NoData);
    }
    hide Append, DataPieces, U16, U32;
    ghost var ps := RRPieces(rr);
    AppendBoth(b.buf, b.table, ps[..1], ps[1..]);
    assert ps == ps[..1] + ps[1..] && ps[..1] == [Name(rr.name)];
    fault := WriteName(b, rr.name);
    if fault.Some? {
      return;
    }
    ghost var sofar := b.buf;
    ghost var fixed := U16(rr.rtype) + U16(rr.class_) + U32(rr.ttl);
    AppendBoth(sofar, b.table, ps[1..2], ps[2..]);
    assert ps[1..] == ps[1..2] + ps[2..] && ps[1..2] == [Plain(fixed)] && ps[2..] == [Sized(DataPieces(rr.data))];
    AppendPlain(sofar, b.table, fixed);
    b.Uint16(rr.rtype);
    b.Uint16(rr.class_);
    b.Uint32(rr.ttl);
    assert b.buf == sofar + fixed;
    fault := WriteSized(b, rr.data);
  }

  method EncodeSection(b: Wire.Builder, rrs: seq<RR>) returns (fault: Option<Error>)
    requires b.Valid()
    modifies b
    ensures b.Valid()
    ensures Appended(old(b.buf), old(b.table), SectionPieces(rrs), fault, b.buf, b.table)
  {
    hide RRPieces, Emit;
    var i := 0;
    assert rrs[0..] == rrs;
    while i < |rrs|
      invariant 0 <= i <= |rrs|
      invariant b.Valid()
      invariant Append(b.buf, b.table, SectionPieces(rrs[i..])) == Append(old(b.buf), old(b.table), SectionPieces(rrs))
    {
      assert rrs[i..][0] == rrs[i] && rrs[i..][1..] == rrs[i + 1..];
      AppendBoth(b.buf, b.table, RRPieces(rrs[i]), SectionPieces(rrs[i + 1..]));
      fault := EncodeRR(b, rrs[i]);
      if fault.Some? {
        return;
      }
      i := i + 1;
    }
    AppendNothing(b.buf, b.table);
    return None;
  }

  lemma AppendNothing(sofar: bytes, t: Table)
    ensures Append(sofar, t, []) == Ok(Written(sofar, t))
  {
    assert sofar + [] == sofar;
  }

  method EncodeQuestions(b: Wire.Builder, qs: seq<Question>) returns (fault: Option<Error>)
    requires b.Valid()
    modifies b
    ensures b.Valid()
    ensures Appended(old(b.buf), old(b.table), QuestionsPieces(qs), fault, b.buf, b.table)
  {
    hide Append;
    var i := 0;
    assert qs[0..] == qs;
    while i < |qs|
      invariant 0 <= i <= |qs|
      invariant b.Valid()
      invariant Append(b.buf, b.table, QuestionsPieces(qs[i..])) ==
                Append(old(b.buf), old(b.table), QuestionsPieces(qs))
    {
      assert qs[i..][0] == qs[i] && qs[i..][1..] == qs[i + 1..];
      ghost var words := U16(qs[i].qtype) + U16(qs[i].class_);
      ghost var rest := QuestionsPieces(qs[i + 1..]);
      AppendBoth(b.buf, b.table, [Name(qs[i].name)], [Plain(words)] + rest);
      assert QuestionsPieces(qs[i..]) == [Name(qs[i].name)] + ([Plain(words)] + rest);
      fault := WriteName(b, qs[i].name);
      if fault.Some? {
        return;
      }
      ghost var sofar := b.buf;
      AppendBoth(sofar, b.table, [Plain(words)], rest);
      AppendPlain(sofar, b.table, words);
      b.Uint16(qs[i].qtype);
      b.Uint16(qs[i].class_);
      assert b.buf == sofar + words;
      i := i + 1;
    }
    AppendNothing(b.buf, b.table);
    return None;
  }

  /** Header.flags, one field after the other: adding a field to bits still clear is what OR-ing
      it there comes to. */
  method Flags(h: Header) returns (f: u16)
    ensures f == FlagWord(h)
  {
    f := 0;
    if h.qr {
      f := f + 0x8000;
    }
    f := f + h.opcode % 16 * 0x800;
    if h.aa {
      f := f + 0x400;
    }
    if h.tc {
      f := f + 0x200;
    }
    if h.rd {
      f := f + 0x100;
    }
    if h.ra {
      f := f + 0x80;
    }
    f := f + h.rcode % 16;
  }

  method WriteHeader(b: Wire.Builder, m: Message)
    requires b.Valid() && b.buf == [] && CountsFit(m)
    modifies b`buf
    ensures b.buf == HeaderBytes(m)
  {
    b.Uint16(m.header.id);
    var f := Flags(m.header);
    b.Uint16(f);
    b.Uint16(|m.questions|);
    b.Uint16(|m.answers|);
    b.Uint16(|m.authority|);
    b.Uint16(|m.additional|);
  }

  /** Message.Encode. */
  method Encode(m: Message) returns (r: Result<bytes, Error>)
    ensures r == EncodeMessage(m)
  {
    if |m.questions| > 0xFFFF || |m.answers| > 0xFFFF || |m.authority| > 0xFFFF || |m.additional| > 0xFFFF {
      return Err(CountOverflow);
    }
    hide Emit, QuestionsPieces, SectionPieces, HeaderBytes;
    var b := new Wire.Builder();
    WriteHeader(b, m);
    ghost var third := SectionPieces(m.authority) + SectionPieces(m.additional);
    AppendBoth(b.buf, b.table, QuestionsPieces(m.questions), SectionPieces(m.answers) + third);
    var fault := EncodeQuestions(b, m.questions);
    if fault.Some? {
      return Err(fault.value);
    }
    AppendBoth(b.buf, b.table, SectionPieces(m.answers), third);
    fault := EncodeSection(b, m.answers);
    if fault.Some? {
      return Err(fault.value);
    }
    AppendBoth(b.buf, b.table, SectionPieces(m.authority), SectionPieces(m.additional));
    fault := EncodeSection(b, m.authority);
    if fault.Some? {
      return Err(fault.value);
    }
    fault := EncodeSection(b, m.additional);
    if fault.Some? {
      return Err(fault.value);
    }
    return Ok(b.buf);
  }

  // ----- Reading -----

  /** The TXT loop of decodeRData. */
  method DecodeTexts(data: bytes) returns (r: Result<seq<bytes>, Error>)
    ensures r == ReadTexts(data)
  {
    var strings: seq<bytes> := [];
    var i: nat := 0;
    assert data[0..] == data;
    assert forall ss: seq<bytes> :: [] + ss == ss;
    while i < |data|
      invariant i <= |data|
      invariant ReadTexts(data) == Wire.Prepend(strings, ReadTexts(data[i..]))
    {
      var l := data[i];
      if i + 1 + l > |data| {
        return Err(TruncatedText);
      }
      var s := data[i + 1..i + 1 + l];
      assert data[i..][1..1 + l] == s && data[i..][1 + l..] == data[i + 1 + l..];
      Wire.PrependStep(strings, s, ReadTexts(data[i + 1 + l..]));
      strings := strings + [s];
      i := i + 1 + l;
    }
    assert strings + [] == strings;
    return Ok(strings);
  }

  method DecodeSOA(buf: bytes, base: nat) returns (r: Result<RData, Error>)
    ensures r == ReadSOA(buf, base)
  {
    hide ReadLabels, NameEnd;
    var c := new Wire.Cursor(buf, base);
    var mname, _ := c.Name();
    if mname.Err? {
      return Err(mname.error);
    }
    var rname, _ := c.Name();
    if rname.Err? {
      return Err(rname.error);
    }
    var vals: seq<u32> := [];
    ghost var p := c.pos;
    while |vals| < 5
      invariant |vals| <= 5 && c.pos == p + 4 * |vals| && c.buf == buf
      invariant |vals| > 0 ==> c.pos <= |buf|
      invariant forall i :: 0 <= i < |vals| ==> vals[i] == U32At(buf, p + 4 * i)
      decreases 5 - |vals|
    {
      var v :- c.Uint32();
      vals := vals + [v];
    }
    return Ok(SOAData(mname.value, rname.value, vals[0], vals[1], vals[2], vals[3], vals[4]));
  }

  /** decodeRData. */
  method DecodeRData(rtype: u16, rdata: bytes, whole: bytes, base: nat) returns (r: Result<RData, Error>)
    requires Holds(whole, base, rdata)
    ensures r == ReadData(rtype, whole, base, |rdata|)
  {
    if rtype == TYPE_A {
      return if |rdata| != 4 then Err(BadLength) else Ok(AData(V4(rdata)));
    } else if rtype == TYPE_AAAA {
      return if |rdata| != 16 then Err(BadLength) else Ok(AAAAData(V6(rdata)));
    } else if rtype == TYPE_TXT {
      var strings :- DecodeTexts(rdata);
      return if strings == [] then Err(EmptyText) else Ok(TXTData(strings));
    } else if rtype == TYPE_NS || rtype == TYPE_CNAME {
      var c := new Wire.Cursor(whole, base);
      var n, _ := c.Name();
      if n.Err? {
        return Err(n.error);
      }
      return Ok(if rtype == TYPE_NS then NSData(n.value) else CNAMEData(n.value));
    } else if rtype == TYPE_SOA {
      r := DecodeSOA(whole, base);
    } else {
      return Ok(RawData(rdata));
    }
  }

  /** decodeRR. */
  method DecodeRR(c: Wire.Cursor) returns (r: Result<RR, Error>)
    requires c.pos <= |c.buf|
    modifies c
    ensures match ReadRR(c.buf, old(c.pos))
            case Ok(v) => r == Ok(v.0) && c.pos == v.1 <= |c.buf|
            case Err(e) => r == Err(e)
  {
    hide ReadLabels, NameEnd, ReadData;
    var name, _ := c.Name();
    if name.Err? {
      return Err(name.error);
    }
    var rtype :- c.Uint16();
    var class_ :- c.Uint16();
    var ttl :- c.Uint32();
    var rdlen :- c.Uint16();
    var base := c.pos;
    var rdata :- c.Bytes(rdlen);
    var data :- DecodeRData(rtype, rdata, c.buf, base);
    return Ok(RR(name.value, rtype, class_, ttl, data));
  }

  method DecodeSection(c: Wire.Cursor, count: nat) returns (r: Result<seq<RR>, Error>)
    requires c.pos <= |c.buf|
    modifies c
    ensures match ReadRRs(c.buf, old(c.pos), count)
            case Ok(v) => r == Ok(v.0) && c.pos == v.1 <= |c.buf|
            case Err(e) => r == Err(e)
  {
    hide ReadRR;
    var rrs: seq<RR> := [];
    ghost var start := c.pos;
    PrefixNone(ReadRRs(c.buf, start, count));
    for i := 0 to count
      invariant c.pos <= |c.buf|
      invariant ReadRRs(c.buf, start, count) == Prefix(rrs, ReadRRs(c.buf, c.pos, count - i))
    {
      ghost var at := c.pos;
      var rr :- DecodeRR(c);
      PrefixStep(rrs, rr, ReadRRs(c.buf, c.pos, count - i - 1));
      rrs := rrs + [rr];
    }
    assert rrs + [] == rrs;
    return Ok(rrs);
  }

  function Prefix<T>(items: seq<T>, r: Result<(seq<T>, nat), Error>): Result<(seq<T>, nat), Error> {
    var rest :- r;
    Ok((items + rest.0, rest.1))
  }

  lemma PrefixStep<T>(items: seq<T>, next: T, r: Result<(seq<T>, nat), Error>)
    ensures Prefix(items, Prefix([next], r)) == Prefix(items + [next], r)
  {
    if r.Ok? {
      assert items + ([next] + r.value.0) == items + [next] + r.value.0;
    }
  }

  lemma PrefixNone<T>(r: Result<(seq<T>, nat), Error>)
    ensures Prefix([], r) == r
  {
    if r.Ok? {
      assert [] + r.value.0 == r.value.0;
    }
  }

  method DecodeQuestions(c: Wire.Cursor, count: nat) returns (r: Result<seq<Question>, Error>)
    requires c.pos <= |c.buf|
    modifies c
    ensures match ReadQuestions(c.buf, old(c.pos), count)
            case Ok(v) => r == Ok(v.0) && c.pos == v.1 <= |c.buf|
            case Err(e) => r == Err(e)
  {
    hide ReadLabels, NameEnd;
    var qs: seq<Question> := [];
    ghost var start := c.pos;
    PrefixNone(ReadQuestions(c.buf, start, count));
    for i := 0 to count
      invariant c.pos <= |c.buf|
      invariant ReadQuestions(c.buf, start, count) == Prefix(qs, ReadQuestions(c.buf, c.pos, count - i))
    {
      var name, _ := c.Name();
      if name.Err? {
        return Err(name.error);
      }
      var qtype :- c.Uint16();
      var class_ :- c.Uint16();
      var q := Question(name.value, qtype, class_);
      PrefixStep(qs, q, ReadQuestions(c.buf, c.pos, count - i - 1));
      qs := qs + [q];
    }
    assert qs + [] == qs;
    return Ok(qs);
  }

  /** Decode. */
  method Decode(buf: bytes) returns (r: Result<Message, Error>)
    ensures r == DecodeMessage(buf)
  {
    hide ReadQuestions, ReadRRs, HeaderOf, U16At;
    var c := new Wire.Cursor(buf, 0);
    var id :- c.Uint16();
    var flags :- c.Uint16();
    var qd :- c.Uint16();
    var an :- c.Uint16();
    var ns :- c.Uint16();
    var ar :- c.Uint16();
    var questions :- DecodeQuestions(c, qd);
    var answers :- DecodeSection(c, an);
    var authority :- DecodeSection(c, ns);
    var additional :- DecodeSection(c, ar);
    return Ok(Message(HeaderOf(id, flags), questions, answers, authority, additional));
  }
}
