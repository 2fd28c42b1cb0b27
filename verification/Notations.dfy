/** The notations of internal/magic/magic.go as forms of text, and the converse of Magic: an address
    comes out of labels exactly when they have one of these forms. */
module Notations {
  import opened Bytes
  import opened Messages
  import opened Magic

  // ----- What a hex group is -----

  lemma HexDigitExact(c: byte, d: nat)
    ensures HexDigitValue(c) == Some(d) <==> d < 16 && LowerByte(c) == HexDigit(d)
  {
  }

  lemma LastDigit(s: bytes, v: nat, d: nat)
    requires s != [] && d < 16
    ensures GroupValue(s) == Some(v * 16 + d) <==>
            GroupValue(s[..|s| - 1]) == Some(v) && HexDigitValue(s[|s| - 1]) == Some(d)
  {
    hide HexDigitValue;
    HexDigitSmall(s[|s| - 1]);
  }

  /** Digit by digit, on four digits. */
  lemma FourDigits(s: bytes, a: nat, b: nat, c: nat, d: nat)
    requires |s| == 4 && a < 16 && b < 16 && c < 16 && d < 16
    ensures GroupValue(s) == Some(((a * 16 + b) * 16 + c) * 16 + d) <==>
            HexDigitValue(s[0]) == Some(a) && HexDigitValue(s[1]) == Some(b)
            && HexDigitValue(s[2]) == Some(c) && HexDigitValue(s[3]) == Some(d)
  {
    hide HexDigitValue, GroupValue;
    assert s[..3][..2] == s[..2] && s[..2][..1] == s[..1] && s[..1][..0] == [];
    NoDigits();
    LastDigit(s[..1], 0, a);
    LastDigit(s[..2], a, b);
    LastDigit(s[..3], a * 16 + b, c);
    LastDigit(s, (a * 16 + b) * 16 + c, d);
  }

  lemma NoDigits()
    ensures GroupValue([]) == Some(0)
  {
  }

  lemma HexDigitSmall(c: byte)
    ensures HexDigitValue(c).Some? ==> HexDigitValue(c).value < 16
  {
  }

  function Padded(s: bytes): bytes
    requires |s| <= 4
    decreases 4 - |s|
  {
    if |s| == 4 then s else Padded([ZERO] + s)
  }

  lemma {:induction false} LeadingZero(s: bytes)
    ensures GroupValue([ZERO] + s) == GroupValue(s)
  {
    var z := [ZERO] + s;
    if s == [] {
      assert z[..0] == [];
      assert GroupValue([]) == Some(0);
    } else {
      assert z[..|z| - 1] == [ZERO] + s[..|s| - 1];
      LeadingZero(s[..|s| - 1]);
    }
  }

  lemma {:induction false} PaddedValue(s: bytes)
    requires |s| <= 4
    ensures |Padded(s)| == 4 && GroupValue(Padded(s)) == GroupValue(s)
    decreases 4 - |s|
  {
    if |s| < 4 {
      LeadingZero(s);
      PaddedValue([ZERO] + s);
    }
  }

  lemma DivTwice(v: nat)
    ensures v / 0x10 / 16 == v / 0x100 && v / 0x100 / 16 == v / 0x1000
  {
  }

  lemma LowNibbles(v: nat)
    ensures v % 0x100 / 16 == v / 0x10 % 16 && v % 0x100 % 16 == v % 16
  {
    var lo := v % 0x100;
    assert v == (v / 0x100 * 16 + lo / 16) * 16 + lo % 16;
  }

  lemma Horner(v: nat)
    ensures v == ((v / 0x1000 * 16 + v / 0x100 % 16) * 16 + v / 0x10 % 16) * 16 + v % 16
  {
    DivTwice(v);
    assert v / 0x100 == v / 0x1000 * 16 + v / 0x100 % 16;
    assert v / 0x10 == v / 0x100 * 16 + v / 0x10 % 16;
  }

  lemma FourDigitText(v: u16)
    ensures GroupText(v / 0x100, v % 0x100) ==
            [HexDigit(v / 0x1000), HexDigit(v / 0x100 % 16), HexDigit(v / 0x10 % 16), HexDigit(v % 16)]
    ensures v == ((v / 0x1000 * 16 + v / 0x100 % 16) * 16 + v / 0x10 % 16) * 16 + v % 16
  {
    hide HexDigit;
    DivTwice(v);
    LowNibbles(v);
    Horner(v);
  }

  lemma LowerFour(p: bytes, a: byte, b: byte, c: byte, d: byte)
    requires |p| == 4
    ensures Lower(p) == [a, b, c, d] <==>
            LowerByte(p[0]) == a && LowerByte(p[1]) == b && LowerByte(p[2]) == c && LowerByte(p[3]) == d
  {
    hide LowerByte;
    assert Lower(p) == [LowerByte(p[0]), LowerByte(p[1]), LowerByte(p[2]), LowerByte(p[3])];
  }

  /** A group is one to four hex digits, of either case, whose four-digit form is the rendering of
      its value. */
  lemma GroupExact(s: bytes, v: u16)
    ensures Group(s) == Some(v as nat) <==> 0 < |s| <= 4 && Lower(Padded(s)) == GroupText(v / 0x100, v % 0x100)
  {
    hide GroupValue, Padded, HexDigitValue, HexDigit, GroupText, Lower, LowerByte;
    if 0 < |s| <= 4 {
      var p := Padded(s);
      PaddedValue(s);
      FourDigitText(v);
      var a, b, c, d := v / 0x1000, v / 0x100 % 16, v / 0x10 % 16, v % 16;
      HexDigitExact(p[0], a);
      HexDigitExact(p[1], b);
      HexDigitExact(p[2], c);
      HexDigitExact(p[3], d);
      FourDigits(p, a, b, c, d);
      LowerFour(p, HexDigit(a), HexDigit(b), HexDigit(c), HexDigit(d));
    }
  }

  // ----- What IPv6 text is -----

  /** Eight groups between colons. */
  ghost predicate InFull(s: bytes, octets: sixteen) {
    exists parts :: FullText(s, octets, parts)
  }

  predicate FullText(s: bytes, octets: sixteen, parts: seq<bytes>) {
    |parts| == 8 && Groups(parts) == Some(octets) && s == Join(parts, COLON)
  }

  /** At most seven groups around one "::", zeros in between. */
  ghost predicate Elided(s: bytes, octets: sixteen) {
    exists left, right :: ElidedText(s, octets, left, right)
  }

  predicate ElidedText(s: bytes, octets: sixteen, left: seq<bytes>, right: seq<bytes>) {
    && Groups(left).Some? && Groups(right).Some? && |left| + |right| <= 7
    && s == Join(left, COLON) + [COLON, COLON] + Join(right, COLON)
    && octets == Expand(Groups(left).value, Groups(right).value)
  }

  ghost predicate SpellsBody(s: bytes, octets: sixteen) { InFull(s, octets) || Elided(s, octets) }

  /** The same, or the same followed by '%' and a zone name. */
  ghost predicate SpellsIPv6(s: bytes, octets: sixteen) {
    SpellsBody(s, octets) || exists body, mark :: Marked(s, body, mark) && SpellsBody(body, octets)
  }

  predicate Marked(s: bytes, body: bytes, mark: bytes) {
    s == body + [PERCENT] + mark && mark != [] && PERCENT !in body
  }

  lemma JoinFields(s: bytes)
    ensures Join(Fields(s), COLON) == s
  {
    JoinSplit(s, COLON);
  }

  lemma FullIsRead(s: bytes, octets: sixteen, parts: seq<bytes>)
    requires FullText(s, octets, parts)
    ensures IPv6Body(s) == Some(octets) && PERCENT !in s
  {
    hide Join, Groups, Fields, Ellipsis;
    GroupsAreWords(parts);
    NoEllipsisInJoin(parts);
    FieldsOfJoin(parts);
    NotInJoin(parts, COLON, PERCENT);
  }

  lemma ElidedIsRead(s: bytes, octets: sixteen, left: seq<bytes>, right: seq<bytes>)
    requires ElidedText(s, octets, left, right)
    ensures IPv6Body(s) == Some(octets) && PERCENT !in s
  {
    hide Join, Groups, Fields, Ellipsis, IPv6Body, Expand;
    GroupsAreWords(left);
    GroupsAreWords(right);
    NoEllipsisInJoin(left);
    EmptyText();
    if left != [] {
      JoinEndsPlain(left);
    }
    EllipsisAfter(Join(left, COLON), Join(right, COLON));
    FieldsOfJoin(left);
    FieldsOfJoin(right);
    BodyAroundEllipsis(Join(left, COLON), Join(right, COLON));
    NotInJoin(left, COLON, PERCENT);
    NotInJoin(right, COLON, PERCENT);
  }

  /** The body reader accepts exactly these two spellings. */
  lemma BodyExact(s: bytes, octets: sixteen)
    ensures IPv6Body(s) == Some(octets) <==> SpellsBody(s, octets)
    ensures SpellsBody(s, octets) ==> PERCENT !in s
  {
    hide Join, Groups, Fields, Ellipsis, Expand, FullText, ElidedText;
    if IPv6Body(s) == Some(octets) {
      BodyIsSpelled(s, octets);
    }
    if InFull(s, octets) {
      var parts :| FullText(s, octets, parts);
      FullIsRead(s, octets, parts);
    }
    if Elided(s, octets) {
      var left, right :| ElidedText(s, octets, left, right);
      ElidedIsRead(s, octets, left, right);
    }
  }

  lemma BodyIsSpelled(s: bytes, octets: sixteen)
    requires IPv6Body(s) == Some(octets)
    ensures SpellsBody(s, octets)
  {
    hide Join, Groups, Fields;
    match Ellipsis(s)
    case None =>
      JoinFields(s);
      assert FullText(s, octets, Fields(s));
    case Some(i) =>
      JoinFields(s[..i]);
      JoinFields(s[i + 2..]);
      assert s == s[..i] + [COLON, COLON] + s[i + 2..];
      assert ElidedText(s, octets, Fields(s[..i]), Fields(s[i + 2..]));
  }

  lemma IndexOfMarked(s: bytes, body: bytes, mark: bytes)
    requires Marked(s, body, mark)
    ensures PERCENT in s && IndexOf(s, PERCENT) == |body| && s[..|body|] == body && |body| + 1 < |s|
  {
    assert s[|body|] == PERCENT && s[..|body|] == body;
    FirstIndex(s, |body|, PERCENT);
  }

  /** The text reader accepts exactly those spellings, bare or with a zone name behind them. */
  lemma IPv6TextExact(s: bytes, octets: sixteen)
    ensures IPv6Text(s) == Some(octets) <==> SpellsIPv6(s, octets)
  {
    hide IPv6Body, IndexOf, SpellsBody;
    BodyExact(s, octets);
    if PERCENT in s {
      var k := IndexOf(s, PERCENT);
      BodyExact(s[..k], octets);
      if k + 1 < |s| {
        assert s == s[..k] + [PERCENT] + s[k + 1..];
        assert Marked(s, s[..k], s[k + 1..]);
      }
    }
    if exists body, mark :: Marked(s, body, mark) && SpellsBody(body, octets) {
      var body, mark :| Marked(s, body, mark) && SpellsBody(body, octets);
      IndexOfMarked(s, body, mark);
    }
  }

  // ----- Exactly which labels carry which address -----

  predicate EndsIn(parts: seq<bytes>, tail: seq<bytes>) { |tail| <= |parts| && parts[|parts| - |tail|..] == tail }

  ghost predicate EndsInOctets(parts: seq<bytes>) { exists q :: EndsIn(parts, Decimals(q)) }

  /** A dashed label that spells a genuine IPv6 address. */
  ghost predicate NamesIPv6(text: bytes, octets: sixteen) {
    DASH in text && SpellsIPv6(Colons(text), octets) && !V6(octets).Is4In6()
  }

  lemma LastFourSome(parts: seq<bytes>)
    ensures LastFour(parts).Some? <==> EndsInOctets(parts)
    ensures LastFour(parts).Some? ==> LastFour(parts).value.V4?
  {
    hide Decimals;
    if LastFour(parts).Some? {
      LastFourCanonical(parts, LastFour(parts).value.quad);
      assert EndsIn(parts, Decimals(LastFour(parts).value.quad));
    }
    if EndsInOctets(parts) {
      var q :| EndsIn(parts, Decimals(q));
      LastFourCanonical(parts, q);
    }
  }

  lemma DashedExact(text: bytes, octets: sixteen)
    ensures DashedIPv6(text) == Some(V6(octets)) <==> NamesIPv6(text, octets)
  {
    hide IPv6Text, SpellsIPv6;
    IPv6TextExact(Colons(text), octets);
  }

  lemma DashedSome(text: bytes)
    ensures DashedIPv6(text).Some? <==> exists octets :: NamesIPv6(text, octets)
  {
    hide DashedIPv6, NamesIPv6;
    DashedFamily(text);
    if DashedIPv6(text).Some? {
      DashedExact(text, DashedIPv6(text).value.octets);
    }
    if exists octets :: NamesIPv6(text, octets) {
      var octets :| NamesIPv6(text, octets);
      DashedExact(text, octets);
    }
  }

  lemma HexFamily(part: bytes)
    ensures HexIPv4(part).Some? ==> HexIPv4(part).value.V4?
  {
  }

  /** An IPv4 address comes out exactly when the labels end in its four octets; or else the last
      label is no IPv6 address and its dashed parts end in them; or else in its eight hex digits. */
  lemma ExtractIPv4Exact(labels: seq<bytes>, q: quad)
    ensures Extract(labels) == Some(V4(q)) <==>
            && labels != []
            && var last := labels[|labels| - 1];
               var parts := Split(last, DASH);
               || EndsIn(labels, Decimals(q))
               || (&& !EndsInOctets(labels) && !(exists octets :: NamesIPv6(last, octets))
                   && (EndsIn(parts, Decimals(q)) || (!EndsInOctets(parts) && parts[|parts| - 1] == HexForm(q))))
  {
    hide LastFour, DashedIPv6, Split, HexIPv4, EndsIn, NamesIPv6, HexForm, Decimals;
    if labels != [] {
      var last := labels[|labels| - 1];
      var parts := Split(last, DASH);
      MatchExact(labels, q);
      MatchExact(parts, q);
      LastFourSome(labels);
      LastFourSome(parts);
      DashedSome(last);
      DashedFamily(last);
      HexCanonical(parts[|parts| - 1], q);
    }
  }

  lemma MatchExact(parts: seq<bytes>, q: quad)
    ensures LastFour(parts) == Some(V4(q)) <==> EndsIn(parts, Decimals(q))
    ensures EndsIn(parts, Decimals(q)) ==> EndsInOctets(parts)
  {
    LastFourCanonical(parts, q);
  }

  /** An IPv6 address comes out exactly when the last label spells it and it is a genuine one. */
  lemma ExtractIPv6Exact(labels: seq<bytes>, octets: sixteen)
    ensures Extract(labels) == Some(V6(octets)) <==> labels != [] && NamesIPv6(labels[|labels| - 1], octets)
  {
    hide LastFour, DashedIPv6, Split, HexIPv4, SpellsIPv6;
    if labels != [] {
      var last := labels[|labels| - 1];
      DashedExact(last, octets);
      LastFourSome(labels);
      LastFourSome(Split(last, DASH));
      HexFamily(LastPart(last));
      DashedFamily(last);
      if DASH in last {
        DashedLabelNotDotted(labels);
      }
    }
  }

  lemma EndsInLast(labels: seq<bytes>, q: quad)
    ensures EndsIn(labels, Decimals(q)) ==> labels[|labels| - 1] == Decimal(q[3])
  {
    hide Decimal;
    if EndsIn(labels, Decimals(q)) {
      assert labels[|labels| - 4..][3] == labels[|labels| - 1];
    }
  }

  /** So ordinary service names carry no address: a last label without a dash that is neither a
      decimal octet nor eight hex digits. */
  lemma WordsCarryNothing(labels: seq<bytes>)
    requires labels != [] && DASH !in labels[|labels| - 1]
    requires forall v: byte :: labels[|labels| - 1] != Decimal(v)
    requires forall q :: labels[|labels| - 1] != HexForm(q)
    ensures Extract(labels).None?
  {
    hide Extract, Decimal, HexForm, Split, SpellsIPv6;
    var last := labels[|labels| - 1];
    SplitWord(last, DASH);
    if Extract(labels).Some? {
      ExtractFamily(labels);
      match Extract(labels).value {
        case V4(q) =>
          ExtractIPv4Exact(labels, q);
          EndsInLast(labels, q);
        case V6(octets) => ExtractIPv6Exact(labels, octets);
        case NoAddr =>
      }
      assert false;
    }
  }
}
