/** DNS messages of internal/dnswire/message.go and rdata.go: their shape, the bytes Encode
    produces and the message Decode reads, as functions. */
module Messages {
  import opened Bytes
  import opened Names
  import opened Emission

  // ----- Addresses (netip.Addr without zone identifiers) -----

  type quad = s: bytes | |s| == 4 witness [0, 0, 0, 0]
  type sixteen = s: bytes | |s| == 16 witness [0, 0, 0, 0, 0, 0, 0, 0, 0, 0, 0, 0, 0, 0, 0, 0]

  /** What precedes an IPv4 address in its IPv6 form (section 2.5.5.2 of RFC 4291). */
  const MAPPED: bytes := [0, 0, 0, 0, 0, 0, 0, 0, 0, 0, 0xFF, 0xFF]

  datatype Addr = NoAddr | V4(quad: quad) | V6(octets: sixteen) {
    predicate Is4In6() {
      V6? && octets[..12] == [0, 0, 0, 0, 0, 0, 0, 0, 0, 0, 0xFF, 0xFF]
    }

    function Unmap(): Addr {
      if Is4In6() then V4(octets[12..]) else this
    }
  }

  // ----- Types and codes -----

  const TYPE_A: u16 := 1
  const TYPE_NS: u16 := 2
  const TYPE_CNAME: u16 := 5
  const TYPE_SOA: u16 := 6
  const TYPE_TXT: u16 := 16
  const TYPE_AAAA: u16 := 28
  const TYPE_ANY: u16 := 255
  const CLASS_INET: u16 := 1
  const CLASS_ANY: u16 := 255
  const NOERROR: byte := 0
  const FORMERR: byte := 1
  const SERVFAIL: byte := 2
  const NXDOMAIN: byte := 3
  const NOTIMP: byte := 4
  const REFUSED: byte := 5
  const OPCODE_QUERY: byte := 0

  // ----- Messages -----

  datatype Header = Header(id: u16, qr: bool, opcode: byte, aa: bool, tc: bool, rd: bool, ra: bool, rcode: byte)

  datatype Question = Question(name: bytes, qtype: u16, class_: u16)

  /** NoPayload is a record whose payload was never set. */
  datatype RData =
    | NoPayload
    | AData(addr: Addr)
    | AAAAData(addr: Addr)
    | TXTData(strings: seq<bytes>)
    | NSData(host: bytes)
    | CNAMEData(target: bytes)
    | SOAData(mname: bytes, rname: bytes, serial: u32, refresh: u32, retry: u32, expire: u32, minimum: u32)
    | RawData(data: bytes)

  datatype RR = RR(name: bytes, rtype: u16, class_: u16, ttl: u32, data: RData)

  datatype Message = Message(header: Header, questions: seq<Question>,
                             answers: seq<RR>, authority: seq<RR>, additional: seq<RR>)

  // ----- The flag word -----

  function Bit(b: bool): nat { if b then 1 else 0 }

  /** Header.flags: the fields occupy disjoint bits, so OR-ing shifted fields is appending digits:
      QR, four bits of opcode, AA, TC, RD, RA, three zero bits, four bits of rcode. */
  function FlagWord(h: Header): u16 { UpperFlags(h) * 0x80 + h.rcode % 16 }

  function FlagsUpTo11(h: Header): (r: nat)
    ensures r < 0x20
  {
    Bit(h.qr) * 16 + h.opcode % 16
  }

  function FlagsUpTo9(h: Header): (r: nat)
    ensures r < 0x80
  {
    FlagsUpTo11(h) * 4 + Bit(h.aa) * 2 + Bit(h.tc)
  }

  function UpperFlags(h: Header): (r: nat)
    ensures r < 0x200
  {
    FlagsUpTo9(h) * 4 + Bit(h.rd) * 2 + Bit(h.ra)
  }

  function HeaderOf(id: u16, f: u16): Header { HeaderFrom(id, f / 0x80, f % 16) }

  /** The fields above bit 7, as an integer, and the rcode below bit 4. */
  function HeaderFrom(id: u16, upTo7: nat, rcode: byte): Header
    requires upTo7 < 0x200
  {
    var upTo9 := upTo7 / 4;
    var upTo11 := upTo9 / 4;
    Header(id, upTo11 / 16 == 1, upTo11 % 16, upTo9 / 2 % 2 == 1, upTo9 % 2 == 1,
           upTo7 / 2 % 2 == 1, upTo7 % 2 == 1, rcode)
  }

  lemma BitPair(upper: nat, a: bool, b: bool)
    ensures var u := upper * 4 + Bit(a) * 2 + Bit(b);
            u / 4 == upper && (u / 2 % 2 == 1) == a && (u % 2 == 1) == b
  {
  }

  lemma OpcodeUnder(q: bool, o: nat)
    requires o < 16
    ensures ((Bit(q) * 16 + o) / 16 == 1) == q && (Bit(q) * 16 + o) % 16 == o
  {
  }

  lemma FlagTail(upper: nat, c: nat)
    requires c < 16
    ensures (upper * 0x80 + c) / 0x80 == upper && (upper * 0x80 + c) % 16 == c
  {
  }

  lemma UpperFlagsUnpack(h: Header, rcode: byte)
    ensures HeaderFrom(h.id, UpperFlags(h), rcode) == h.(opcode := h.opcode % 16, rcode := rcode)
  {
    BitPair(FlagsUpTo9(h), h.rd, h.ra);
    BitPair(FlagsUpTo11(h), h.aa, h.tc);
    OpcodeUnder(h.qr, h.opcode % 16);
    assert UpperFlags(h) / 4 == FlagsUpTo9(h) && FlagsUpTo9(h) / 4 == FlagsUpTo11(h);
  }

  /** Unpacking a packed header keeps everything that fits its field. */
  lemma FlagsRoundTrip(h: Header)
    ensures HeaderOf(h.id, FlagWord(h)) == h.(opcode := h.opcode % 16, rcode := h.rcode % 16)
  {
    hide UpperFlags, HeaderFrom;
    FlagTail(UpperFlags(h), h.rcode % 16);
    UpperFlagsUnpack(h, h.rcode % 16);
  }

  lemma PairOfBits(u: nat)
    ensures u == u / 4 * 4 + Bit(u / 2 % 2 == 1) * 2 + Bit(u % 2 == 1)
  {
  }

  /** Packing an unpacked flag word loses bits 4 to 6 and nothing else. */
  lemma FlagsDropReserved(id: u16, f: u16)
    ensures FlagWord(HeaderOf(id, f)) == f / 0x80 * 0x80 + f % 16
  {
    var upTo7: nat := f / 0x80;
    PairOfBits(upTo7);
    PairOfBits(upTo7 / 4);
    var h := HeaderOf(id, f);
    var upTo11: nat := upTo7 / 4 / 4;
    assert Bit(h.qr) * 16 + h.opcode % 16 == upTo11;
  }

  lemma HighFlags(h: Header)
    ensures UpperFlags(h) / 2 == (if h.qr then 0x80 else 0) + h.opcode % 16 * 8 + (if h.aa then 4 else 0)
                                 + (if h.tc then 2 else 0) + (if h.rd then 1 else 0)
    ensures UpperFlags(h) % 2 == if h.ra then 1 else 0
  {
    var o := h.opcode % 16;
    assert FlagsUpTo9(h) == (Bit(h.qr) * 16 + o) * 4 + Bit(h.aa) * 2 + Bit(h.tc);
    assert UpperFlags(h) == (FlagsUpTo9(h) * 2 + Bit(h.rd)) * 2 + Bit(h.ra);
  }

  lemma FlagHalves(u: nat, c: nat)
    requires c < 16
    ensures (u * 0x80 + c) / 0x100 == u / 2 && (u * 0x80 + c) % 0x100 == u % 2 * 0x80 + c
  {
    assert u == u / 2 * 2 + u % 2;
  }

  /** Which bit holds which field. */
  lemma FlagOctets(h: Header)
    ensures FlagWord(h) / 0x100 == (if h.qr then 0x80 else 0) + h.opcode % 16 * 8 + (if h.aa then 4 else 0)
                                   + (if h.tc then 2 else 0) + (if h.rd then 1 else 0)
    ensures FlagWord(h) % 0x100 == (if h.ra then 0x80 else 0) + h.rcode % 16
  {
    hide UpperFlags;
    HighFlags(h);
    FlagHalves(UpperFlags(h), h.rcode % 16);
  }

  // ----- Encoding -----

  function TextBytes(strings: seq<bytes>): bytes
    requires forall i :: 0 <= i < |strings| ==> |strings[i]| <= 255
  {
    if strings == [] then [] else [|strings[0]|] + strings[0] + TextBytes(strings[1..])
  }

  predicate TextsFit(strings: seq<bytes>) { forall i :: 0 <= i < |strings| ==> |strings[i]| <= 255 }

  function SOATail(d: RData): (r: bytes)
    requires d.SOAData?
    ensures |r| == 20
  {
    U32(d.serial) + U32(d.refresh) + U32(d.retry) + U32(d.expire) + U32(d.minimum)
  }

  /** RData.appendTo for each payload. */
  function DataPieces(d: RData): seq<Piece> {
    match d
    case NoPayload => [Refuse(NoData)]
    case AData(addr) => if addr.V4? then [Plain(addr.quad)] else [Refuse(WrongFamily)]
    case AAAAData(addr) => if addr.V6? && !addr.Is4In6() then [Plain(addr.octets)] else [Refuse(WrongFamily)]
    case TXTData(strings) =>
      if strings == [] then [Refuse(NoStrings)]
      else if !TextsFit(strings) then [Refuse(StringTooLong)]
      else [Plain(TextBytes(strings))]
    case NSData(host) => [Name(host)]
    case CNAMEData(target) => [Name(target)]
    case SOAData(mname, rname, _, _, _, _, _) => [Name(mname), Name(rname), Plain(SOATail(d))]
    case RawData(data) => [Plain(data)]
  }

  function RRPieces(rr: RR): seq<Piece> {
    if rr.data.NoPayload? then [Refuse(NoData)]
    else [Name(rr.name), Plain(U16(rr.rtype) + U16(rr.class_) + U32(rr.ttl)), Sized(DataPieces(rr.data))]
  }

  function SectionPieces(rrs: seq<RR>): seq<Piece> {
    if rrs == [] then [] else RRPieces(rrs[0]) + SectionPieces(rrs[1..])
  }

  function QuestionPieces(q: Question): seq<Piece> {
    [Name(q.name), Plain(U16(q.qtype) + U16(q.class_))]
  }

  function QuestionsPieces(qs: seq<Question>): seq<Piece> {
    if qs == [] then [] else QuestionPieces(qs[0]) + QuestionsPieces(qs[1..])
  }

  predicate CountsFit(m: Message) {
    |m.questions| <= 0xFFFF && |m.answers| <= 0xFFFF && |m.authority| <= 0xFFFF && |m.additional| <= 0xFFFF
  }

  function HeaderBytes(m: Message): (r: bytes)
    requires CountsFit(m)
    ensures |r| == 12
  {
    U16(m.header.id) + U16(FlagWord(m.header)) + U16(|m.questions|)
    + U16(|m.answers|) + U16(|m.authority|) + U16(|m.additional|)
  }

  function BodyPieces(m: Message): seq<Piece> {
    QuestionsPieces(m.questions)
    + (SectionPieces(m.answers) + (SectionPieces(m.authority) + SectionPieces(m.additional)))
  }

  /** The body starts at offset 12, after the header. */
  function EncodeBody(m: Message): Result<Emitted, Error> { Emit(12, map[], BodyPieces(m)) }

  function EncodeMessage(m: Message): Result<bytes, Error> {
    if !CountsFit(m) then Err(CountOverflow)
    else
      var e :- EncodeBody(m);
      Ok(HeaderBytes(m) + e.out)
  }

  /** The most pointers any name of the encoded message needs. */
  function Nesting(m: Message): nat
    requires EncodeMessage(m).Ok?
  {
    EncodeBody(m).value.deepest
  }

  // ----- Decoding -----

  function ReadTexts(data: bytes): Result<seq<bytes>, Error> {
    if data == [] then Ok([])
    else if 1 + data[0] > |data| then Err(TruncatedText)
    else
      var rest :- ReadTexts(data[1 + data[0]..]);
      Ok([data[1..1 + data[0]]] + rest)
  }

  function ReadSOA(buf: bytes, pos: nat): Result<RData, Error> {
    var mname :- ReadName(buf, pos);
    var second := NameEnd(buf, pos);
    var rname :- ReadName(buf, second);
    var p := NameEnd(buf, second);
    if p + 20 > |buf| then Err(ShortRead)
    else
      Ok(SOAData(mname, rname, U32At(buf, p), U32At(buf, p + 4), U32At(buf, p + 8),
                 U32At(buf, p + 12), U32At(buf, p + 16)))
  }

  /** decodeRData: names inside the payload are read from the whole message. */
  function ReadData(rtype: u16, buf: bytes, base: nat, len: nat): Result<RData, Error>
    requires base + len <= |buf|
  {
    var rdata := buf[base..base + len];
    if rtype == TYPE_A then if len != 4 then Err(BadLength) else Ok(AData(V4(rdata)))
    else if rtype == TYPE_AAAA then if len != 16 then Err(BadLength) else Ok(AAAAData(V6(rdata)))
    else if rtype == TYPE_TXT then
      var strings :- ReadTexts(rdata);
      if strings == [] then Err(EmptyText) else Ok(TXTData(strings))
    else if rtype == TYPE_NS then
      var host :- ReadName(buf, base);
      Ok(NSData(host))
    else if rtype == TYPE_CNAME then
      var target :- ReadName(buf, base);
      Ok(CNAMEData(target))
    else if rtype == TYPE_SOA then ReadSOA(buf, base)
    else Ok(RawData(rdata))
  }

  function ReadRR(buf: bytes, pos: nat): Result<(RR, nat), Error> {
    var name :- ReadName(buf, pos);
    var p := NameEnd(buf, pos);
    if p + 10 > |buf| then Err(ShortRead)
    else
      var len := U16At(buf, p + 8);
      if p + 10 + len > |buf| then Err(ShortRead)
      else
        var data :- ReadData(U16At(buf, p), buf, p + 10, len);
        Ok((RR(name, U16At(buf, p), U16At(buf, p + 2), U32At(buf, p + 4), data), p + 10 + len))
  }

  function ReadRRs(buf: bytes, pos: nat, n: nat): Result<(seq<RR>, nat), Error>
    decreases n
  {
    if n == 0 then Ok(([], pos))
    else
      var first :- ReadRR(buf, pos);
      var rest :- ReadRRs(buf, first.1, n - 1);
      Ok(([first.0] + rest.0, rest.1))
  }

  function ReadQuestion(buf: bytes, pos: nat): Result<(Question, nat), Error> {
    var name :- ReadName(buf, pos);
    var p := NameEnd(buf, pos);
    if p + 4 > |buf| then Err(ShortRead) else Ok((Question(name, U16At(buf, p), U16At(buf, p + 2)), p + 4))
  }

  function ReadQuestions(buf: bytes, pos: nat, n: nat): Result<(seq<Question>, nat), Error>
    decreases n
  {
    if n == 0 then Ok(([], pos))
    else
      var first :- ReadQuestion(buf, pos);
      var rest :- ReadQuestions(buf, first.1, n - 1);
      Ok(([first.0] + rest.0, rest.1))
  }

  function ReadSections(buf: bytes): Result<(Message, nat), Error>
    requires |buf| >= 12
  {
    var questions :- ReadQuestions(buf, 12, U16At(buf, 4));
    var answers :- ReadRRs(buf, questions.1, U16At(buf, 6));
    var authority :- ReadRRs(buf, answers.1, U16At(buf, 8));
    var additional :- ReadRRs(buf, authority.1, U16At(buf, 10));
    var header := HeaderOf(U16At(buf, 0), U16At(buf, 2));
    Ok((Message(header, questions.0, answers.0, authority.0, additional.0), additional.1))
  }

  function DecodeMessage(buf: bytes): Result<Message, Error> {
    if |buf| < 12 then Err(ShortRead)
    else
      var r :- ReadSections(buf);
      Ok(r.0)
  }

  /** NewQuery, the client's side of an exchange. */
  function NewQuery(id: u16, name: bytes, qtype: u16): Message {
    Message(Header(id, false, OPCODE_QUERY, false, false, true, false, NOERROR),
            [Question(Canonical(name), qtype, CLASS_INET)], [], [], [])
  }

  /** CanonicalName: one trailing dot goes, letters become lowercase. */
  function Canonical(name: bytes): bytes { Lower(TrimSuffix(name, [DOT])) }
}
