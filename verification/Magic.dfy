/** The address notations of internal/magic/magic.go: four readers, tried in order, and the
    renderings they accept. */
module Magic {
  import opened Bytes
  import opened Messages

  const ZERO: byte := 48
  const COLON: byte := 58
  const PERCENT: byte := 37

  predicate IsDigit(c: byte) { 48 <= c <= 57 }

  predicate AllDigits(s: bytes) { forall i :: 0 <= i < |s| ==> IsDigit(s[i]) }

  function DecimalValue(s: bytes): nat
    requires AllDigits(s)
  {
    if s == [] then 0 else DecimalValue(s[..|s| - 1]) * 10 + (s[|s| - 1] - 48)
  }

  /** A strict decimal octet. */
  function OctetOf(s: bytes): Option<byte> {
    if s == [] || |s| > 3 then None
    else if |s| > 1 && s[0] == ZERO then None
    else if !AllDigits(s) then None
    else if DecimalValue(s) > 255 then None
    else Some(DecimalValue(s))
  }

  method Octet(s: bytes) returns (r: Option<byte>)
    ensures r == OctetOf(s)
  {
    if s == [] || |s| > 3 {
      return None;
    }
    if |s| > 1 && s[0] == ZERO {
      return None;
    }
    var i, n := 0, 0;
    while i < |s|
      invariant 0 <= i <= |s|
      invariant AllDigits(s[..i]) && n == DecimalValue(s[..i])
    {
      if !IsDigit(s[i]) {
        return None;
      }
      assert s[..i + 1][..i] == s[..i];
      n := n * 10 + (s[i] as int - 48);
      i := i + 1;
    }
    assert s[..i] == s;
    return if n > 255 then None else Some(n);
  }

  /** The canonical decimal rendering. */
  function Decimal(v: byte): bytes {
    if v < 10 then [48 + v]
    else if v < 100 then [48 + v / 10, 48 + v % 10]
    else [48 + v / 100, 48 + v / 10 % 10, 48 + v % 10]
  }

  lemma ShortValue(s: bytes)
    requires 0 < |s| <= 3 && AllDigits(s)
    ensures |s| == 1 ==> DecimalValue(s) == s[0] as int - 48
    ensures |s| == 2 ==> DecimalValue(s) == (s[0] as int - 48) * 10 + (s[1] as int - 48)
    ensures |s| == 3 ==> DecimalValue(s) == (s[0] as int - 48) * 100 + (s[1] as int - 48) * 10 + (s[2] as int - 48)
  {
    if |s| > 1 {
      ShortValue(s[..|s| - 1]);
    } else {
      assert DecimalValue(s[..0]) == 0;
    }
  }

  /** The octet reader accepts exactly the canonical rendering of each value. */
  lemma OctetCanonical(s: bytes, v: byte)
    ensures OctetOf(s) == Some(v) <==> s == Decimal(v)
  {
    hide DecimalValue;
    if 0 < |s| <= 3 && AllDigits(s) {
      ShortValue(s);
      if |s| == 1 {
        assert s == [s[0]];
      } else if |s| == 2 {
        assert s == [s[0], s[1]];
        TwoDigits(s[0] - 48, s[1] - 48, v);
      } else {
        assert s == [s[0], s[1], s[2]];
        ThreeDigits(s[0] - 48, s[1] - 48, s[2] - 48, v);
      }
    }
    assert AllDigits(Decimal(v));
  }

  lemma TwoDigits(a: int, b: int, v: nat)
    requires 0 <= a && 0 <= b < 10
    ensures v == a * 10 + b <==> v / 10 == a && v % 10 == b
  {
  }

  lemma ThreeDigits(a: int, b: int, c: int, v: nat)
    requires 0 <= a < 10 && 0 <= b < 10 && 0 <= c < 10
    ensures v == a * 100 + b * 10 + c <==> v < 1000 && v / 100 == a && v / 10 % 10 == b && v % 10 == c
  {
    assert v / 10 / 10 == v / 100;
    TwoDigits(a * 10 + b, c, v);
    TwoDigits(a, b, v / 10);
  }

  /** Four octets at the right edge of a list of parts, as dottedIPv4 and dashedIPv4 take them. */
  function LastFour(parts: seq<bytes>): Option<Addr> {
    var n := |parts|;
    if n < 4 then None
    else
      match (OctetOf(parts[n - 4]), OctetOf(parts[n - 3]), OctetOf(parts[n - 2]), OctetOf(parts[n - 1]))
      case (Some(a), Some(b), Some(c), Some(d)) => Some(V4([a, b, c, d]))
      case _ => None
  }

  method FourOctets(parts: seq<bytes>) returns (r: Option<Addr>)
    ensures r == LastFour(parts)
  {
    if |parts| < 4 {
      return None;
    }
    var b: seq<byte> := [];
    for i := 0 to 4
      invariant |b| == i
      invariant forall j :: 0 <= j < i ==> OctetOf(parts[|parts| - 4 + j]) == Some(b[j])
    {
      var o := Octet(parts[|parts| - 4 + i]);
      if o.None? {
        return None;
      }
      b := b + [o.value];
    }
    assert b == [b[0], b[1], b[2], b[3]];
    return Some(V4(b));
  }

  function Decimals(q: quad): (r: seq<bytes>)
    ensures |r| == 4
  {
    [Decimal(q[0]), Decimal(q[1]), Decimal(q[2]), Decimal(q[3])]
  }

  /** A match means the last four parts are the canonical rendering, and nothing else matches. */
  lemma LastFourCanonical(parts: seq<bytes>, q: quad)
    ensures LastFour(parts) == Some(V4(q)) <==> |parts| >= 4 && parts[|parts| - 4..] == Decimals(q)
  {
    var n := |parts|;
    if n >= 4 {
      var tail := parts[n - 4..];
      forall j | 0 <= j < 4 ensures OctetOf(tail[j]) == Some(q[j]) <==> tail[j] == Decimal(q[j]) {
        OctetCanonical(tail[j], q[j]);
      }
      assert q == [q[0], q[1], q[2], q[3]];
      assert tail == [tail[0], tail[1], tail[2], tail[3]];
    }
  }

  // ----- Hexadecimal -----

  function HexNibble(c: byte): Option<byte> {
    if 48 <= c <= 57 then Some(c - 48)
    else if 97 <= c <= 102 then Some(c - 97 + 10)
    else None
  }

  function LastPart(s: bytes): bytes { var parts := Split(s, DASH); parts[|parts| - 1] }

  function HexByteAt(s: bytes, i: nat): Option<byte>
    requires i + 2 <= |s|
  {
    match (HexNibble(s[i]), HexNibble(s[i + 1]))
    case (Some(hi), Some(lo)) => Some(hi * 16 + lo)
    case _ => None
  }

  /** Eight lowercase hex digits after the last dash. */
  function HexIPv4(part: bytes): Option<Addr> {
    if |part| != 8 then None
    else
      match (HexByteAt(part, 0), HexByteAt(part, 2), HexByteAt(part, 4), HexByteAt(part, 6))
      case (Some(a), Some(b), Some(c), Some(d)) => Some(V4([a, b, c, d]))
      case _ => None
  }

  method ReadHexIPv4(part: bytes) returns (r: Option<Addr>)
    ensures r == HexIPv4(part)
  {
    if |part| != 8 {
      return None;
    }
    var b: seq<byte> := [];
    var i := 0;
    while i < 8
      invariant 0 <= i <= 8 && i == 2 * |b|
      invariant forall j :: 0 <= j < |b| ==> HexByteAt(part, 2 * j) == Some(b[j])
    {
      var hi, lo := HexNibble(part[i]), HexNibble(part[i + 1]);
      if hi.None? || lo.None? {
        return None;
      }
      b := b + [hi.value * 16 + lo.value];
      i := i + 2;
    }
    assert HexByteAt(part, 2 * 0) == Some(b[0]) && HexByteAt(part, 2 * 1) == Some(b[1]);
    assert HexByteAt(part, 2 * 2) == Some(b[2]) && HexByteAt(part, 2 * 3) == Some(b[3]);
    assert b == [b[0], b[1], b[2], b[3]];
    return Some(V4(b));
  }

  function HexDigit(v: nat): byte
    requires v < 16
  {
    if v < 10 then 48 + v else 97 + v - 10
  }

  function HexByte(v: byte): (r: bytes)
    ensures |r| == 2
  {
    [HexDigit(v / 16), HexDigit(v % 16)]
  }

  function HexForm(q: quad): (r: bytes)
    ensures |r| == 8
  {
    HexByte(q[0]) + HexByte(q[1]) + HexByte(q[2]) + HexByte(q[3])
  }

  lemma HexByteCanonical(s: bytes, i: nat, v: byte)
    requires i + 2 <= |s|
    ensures HexByteAt(s, i) == Some(v) <==> s[i..i + 2] == HexByte(v)
  {
    assert s[i..i + 2] == [s[i], s[i + 1]];
  }

  /** The hex reader accepts exactly the canonical rendering. */
  lemma HexCanonical(part: bytes, q: quad)
    ensures HexIPv4(part) == Some(V4(q)) <==> part == HexForm(q)
  {
    if |part| == 8 {
      HexByteCanonical(part, 0, q[0]);
      HexByteCanonical(part, 2, q[1]);
      HexByteCanonical(part, 4, q[2]);
      HexByteCanonical(part, 6, q[3]);
      assert part == part[0..2] + part[2..4] + part[4..6] + part[6..8];
      var h := HexForm(q);
      assert h[0..2] == HexByte(q[0]) && h[2..4] == HexByte(q[1]);
      assert h[4..6] == HexByte(q[2]) && h[6..8] == HexByte(q[3]);
      assert q == [q[0], q[1], q[2], q[3]];
    }
  }

  // ----- IPv6 text (netip.ParseAddr on dot-free input) -----

  function HexDigitValue(c: byte): Option<byte> {
    if 65 <= c <= 70 then Some(c - 65 + 10) else HexNibble(c)
  }

  function GroupValue(s: bytes): Option<nat> {
    if s == [] then Some(0)
    else
      match (GroupValue(s[..|s| - 1]), HexDigitValue(s[|s| - 1]))
      case (Some(v), Some(d)) => Some(v * 16 + d)
      case _ => None
  }

  /** One group: one to four hex digits. */
  function Group(s: bytes): Option<nat> { if s == [] || |s| > 4 then None else GroupValue(s) }

  lemma {:induction false} GroupValueBound(s: bytes)
    requires GroupValue(s).Some? && |s| <= 4
    ensures GroupValue(s).value < if |s| == 0 then 1 else if |s| == 1 then 0x10 else if |s| == 2 then 0x100
                                  else if |s| == 3 then 0x1000 else 0x1_0000
  {
    if s != [] {
      GroupValueBound(s[..|s| - 1]);
    }
  }

  /** The octets of a list of groups, two for each. */
  function Groups(fields: seq<bytes>): (r: Option<bytes>)
    ensures r.Some? ==> |r.value| == 2 * |fields|
  {
    if fields == [] then Some([])
    else
      match (Group(fields[0]), Groups(fields[1..]))
      case (Some(g), Some(rest)) =>
        GroupValueBound(fields[0]);
        Some(U16(g) + rest)
      case _ => None
  }

  function Fields(s: bytes): seq<bytes> { if s == [] then [] else Split(s, COLON) }

  /** Where the first "::" starts. */
  function Ellipsis(s: bytes): (r: Option<nat>)
    ensures r.Some? ==> r.value + 2 <= |s| && s[r.value] == COLON && s[r.value + 1] == COLON
  {
    if |s| < 2 then None
    else if s[0] == COLON && s[1] == COLON then Some(0)
    else
      match Ellipsis(s[1..])
      case Some(i) => Some(i + 1)
      case None => None
  }

  function Zeros(n: nat): (r: bytes)
    ensures |r| == n
  {
    if n == 0 then [] else [0] + Zeros(n - 1)
  }

  /** Eight groups, or fewer around one "::" that stands for at least one zero group. */
  function IPv6Body(s: bytes): Option<sixteen> {
    match Ellipsis(s)
    case None =>
      if |Fields(s)| == 8 then Groups(Fields(s)) else None
    case Some(i) =>
      match (Groups(Fields(s[..i])), Groups(Fields(s[i + 2..])))
      case (Some(left), Some(right)) =>
        if |left| + |right| <= 14 then Some(left + Zeros(16 - |left| - |right|) + right) else None
      case _ => None
  }

  function IndexOf(s: bytes, c: byte): (i: nat)
    requires c in s
    ensures i < |s| && s[i] == c && c !in s[..i]
  {
    if s[0] == c then 0 else 1 + IndexOf(s[1..], c)
  }

  /** A zone identifier is split off first and must not be empty; it does not reach the wire. */
  function IPv6Text(s: bytes): Option<sixteen> {
    if PERCENT in s then
      if IndexOf(s, PERCENT) + 1 == |s| then None else IPv6Body(s[..IndexOf(s, PERCENT)])
    else IPv6Body(s)
  }

  /** strings.ReplaceAll(label, "-", ":"). */
  function Colons(s: bytes): (r: bytes)
    ensures |r| == |s|
    ensures forall i :: 0 <= i < |s| ==> r[i] == if s[i] == DASH then COLON else s[i]
  {
    seq(|s|, i requires 0 <= i < |s| => if s[i] == DASH then COLON else s[i])
  }

  function DashedIPv6(text: bytes): Option<Addr> {
    if DASH !in text then None
    else
      match IPv6Text(Colons(text))
      case None => None
      case Some(octets) => if V6(octets).Is4In6() then None else Some(V6(octets))
  }

  // ----- Extract -----

  function Extract(labels: seq<bytes>): Option<Addr> {
    if labels == [] then None
    else
      var last := labels[|labels| - 1];
      if LastFour(labels).Some? then LastFour(labels)
      else if DashedIPv6(last).Some? then DashedIPv6(last)
      else if LastFour(Split(last, DASH)).Some? then LastFour(Split(last, DASH))
      else HexIPv4(LastPart(last))
  }

  method ExtractAddr(labels: seq<bytes>) returns (r: Option<Addr>)
    ensures r == Extract(labels)
  {
    if |labels| == 0 {
      return None;
    }
    r := FourOctets(labels);
    if r.Some? {
      return;
    }
    var last := labels[|labels| - 1];
    r := DashedIPv6(last);
    if r.Some? {
      return;
    }
    r := FourOctets(Split(last, DASH));
    if r.Some? {
      return;
    }
    r := ReadHexIPv4(LastPart(last));
  }

  /** Extract never invents anything but a plain IPv4 or a genuine IPv6 address. */
  lemma ExtractFamily(labels: seq<bytes>)
    requires Extract(labels).Some?
    ensures Extract(labels).value.V4? || (Extract(labels).value.V6? && !Extract(labels).value.Is4In6())
  {
  }

  // ----- The notations agree -----

  lemma DecimalIsPlain(v: byte)
    ensures 0 < |Decimal(v)| <= 3
    ensures DASH !in Decimal(v) && COLON !in Decimal(v) && PERCENT !in Decimal(v)
  {
  }

  /** "10.0.0.7", with any labels in front. */
  lemma DottedForm(before: seq<bytes>, q: quad)
    ensures Extract(before + Decimals(q)) == Some(V4(q))
  {
    var labels := before + Decimals(q);
    assert labels[|labels| - 4..] == Decimals(q);
    LastFourCanonical(labels, q);
  }

  function DashedForm(q: quad): bytes { Join(Decimals(q), DASH) }

  lemma {:induction false} ColonsJoin(parts: seq<bytes>)
    requires forall i :: 0 <= i < |parts| ==> DASH !in parts[i]
    ensures Colons(Join(parts, DASH)) == Join(parts, COLON)
  {
    if |parts| > 1 {
      ColonsJoin(parts[1..]);
      var tail := Join(parts[1..], DASH);
      assert Colons(parts[0] + [DASH] + tail) == Colons(parts[0]) + [COLON] + Colons(tail);
      assert Colons(parts[0]) == parts[0];
    } else if |parts| == 1 {
      assert Colons(parts[0]) == parts[0];
    }
  }

  lemma {:induction false} NoEllipsisInWord(w: bytes)
    requires COLON !in w
    ensures Ellipsis(w).None?
  {
    if |w| >= 2 {
      NoEllipsisInWord(w[1..]);
    }
  }

  lemma {:induction false} NoEllipsisAfterWord(w: bytes, s: bytes)
    requires w != [] && COLON !in w && Ellipsis(s).None? && (s != [] ==> s[0] != COLON)
    ensures Ellipsis(w + [COLON] + s).None?
  {
    var all := w + [COLON] + s;
    if |w| > 1 {
      NoEllipsisAfterWord(w[1..], s);
      assert all[1..] == w[1..] + [COLON] + s;
    } else {
      assert all[1..] == [COLON] + s && all[1..][1..] == s;
    }
  }

  /** Joining non-empty colon-free parts leaves no "::". */
  lemma {:induction false} NoEllipsisInJoin(parts: seq<bytes>)
    requires forall i :: 0 <= i < |parts| ==> parts[i] != [] && COLON !in parts[i]
    ensures Ellipsis(Join(parts, COLON)).None?
    ensures parts != [] ==> Join(parts, COLON) != [] && Join(parts, COLON)[0] != COLON
  {
    if |parts| == 1 {
      NoEllipsisInWord(parts[0]);
    } else if |parts| > 1 {
      NoEllipsisInJoin(parts[1..]);
      NoEllipsisAfterWord(parts[0], Join(parts[1..], COLON));
    }
  }

  lemma {:induction false} NotInJoin(parts: seq<bytes>, sep: byte, c: byte)
    requires c != sep && forall i :: 0 <= i < |parts| ==> c !in parts[i]
    ensures c !in Join(parts, sep)
  {
    if |parts| > 1 {
      NotInJoin(parts[1..], sep, c);
    }
  }

  /** Text without separators or zone marks. */
  predicate Word(part: bytes) { part != [] && DASH !in part && COLON !in part && PERCENT !in part }

  predicate Words(parts: seq<bytes>) { forall i :: 0 <= i < |parts| ==> Word(parts[i]) }

  /** Words joined by dashes read as IPv6 exactly when there are eight of them and each is a hex
      group. */
  lemma JoinedAsIPv6(parts: seq<bytes>)
    requires parts != [] && Words(parts)
    ensures IPv6Text(Colons(Join(parts, DASH))) == if |parts| == 8 then Groups(parts) else None
  {
    ColonsJoin(parts);
    NoEllipsisInJoin(parts);
    NotInJoin(parts, COLON, PERCENT);
    SplitJoin(parts, COLON);
  }

  /** "10-0-0-7", with any labels in front: four groups are not IPv6 text. */
  lemma DashedFormExtracts(before: seq<bytes>, q: quad)
    ensures Extract(before + [DashedForm(q)]) == Some(V4(q))
  {
    hide IPv6Text, Join, Split, OctetOf, Decimal;
    var parts := Decimals(q);
    var labels := before + [DashedForm(q)];
    DecimalsAreWords(q);
    JoinedAsIPv6(parts);
    SplitJoin(parts, DASH);
    LastFourCanonical(parts, q);
    assert parts[|parts| - 4..] == parts;
    assert DashedIPv6(DashedForm(q)).None?;
    JoinHasSeparator(parts, DASH);
    DashedLabelNotDotted(labels);
  }

  lemma OctetHasNoDash(s: bytes)
    ensures OctetOf(s).Some? ==> DASH !in s
  {
  }

  lemma DashedLabelNotDotted(labels: seq<bytes>)
    requires labels != [] && DASH in labels[|labels| - 1]
    ensures LastFour(labels).None?
  {
    OctetHasNoDash(labels[|labels| - 1]);
  }

  lemma JoinHasSeparator(parts: seq<bytes>, sep: byte)
    requires |parts| > 1
    ensures sep in Join(parts, sep)
  {
    assert Join(parts, sep)[|parts[0]|] == sep;
  }

  lemma HexFormIsPlain(q: quad)
    ensures forall i :: 0 <= i < 8 ==> HexForm(q)[i] != DASH && HexForm(q)[i] != COLON && HexForm(q)[i] != PERCENT
  {
  }

  /** "0a000007" on its own, with any labels in front. */
  lemma HexFormExtracts(before: seq<bytes>, q: quad)
    ensures Extract(before + [HexForm(q)]) == Some(V4(q))
  {
    HexFormIsPlain(q);
    var labels := before + [HexForm(q)];
    SplitWord(HexForm(q), DASH);
    HexCanonical(HexForm(q), q);
  }

  lemma GroupsNeedGroups(fields: seq<bytes>)
    requires fields != [] && |fields[|fields| - 1]| > 4
    ensures Groups(fields).None?
  {
    if |fields| > 1 {
      GroupsNeedGroups(fields[1..]);
    }
  }

  /** Text whose last colon-separated field is too long for a group is not an IPv6 body. */
  lemma LongTailNotIPv6(x: bytes, tail: bytes)
    requires COLON !in tail && |tail| > 4
    ensures IPv6Body(x + [COLON] + tail).None?
  {
    var s := x + [COLON] + tail;
    SplitWord(tail, COLON);
    match Ellipsis(s)
    case None =>
      SplitConcat(x, tail, COLON);
      GroupsNeedGroups(Fields(s));
    case Some(i) =>
      assert forall j :: |x| < j < |s| ==> s[j] == tail[j - |x| - 1];
      assert i + 1 <= |x|;
      var right := s[i + 2..];
      if i + 1 == |x| {
        assert right == tail;
      } else {
        assert right == x[i + 2..] + [COLON] + tail;
        SplitConcat(x[i + 2..], tail, COLON);
      }
      GroupsNeedGroups(Fields(right));
  }

  /** A zone mark behind IPv6 text: everything after it is dropped. */
  predicate ZoneMarkHides(prefix: bytes) {
    && PERCENT in prefix
    && var body := IPv6Body(Colons(prefix[..IndexOf(prefix, PERCENT)]));
       body.Some? && !V6(body.value).Is4In6()
  }

  lemma ColonsConcat(a: bytes, b: bytes)
    ensures Colons(a + b) == Colons(a) + Colons(b)
  {
  }

  lemma {:induction false} FirstIndex(s: bytes, i: nat, c: byte)
    requires i < |s| && s[i] == c && c !in s[..i]
    ensures IndexOf(s, c) == i
  {
    if i > 0 {
      assert s[..i][0] == s[0];
      assert s[1..][..i - 1] == s[..i][1..];
      FirstIndex(s[1..], i - 1, c);
    }
  }

  /** With a zone mark in the prefix only what stands before the mark decides. */
  lemma ZoneMarkDecides(prefix: bytes, rest: bytes)
    requires PERCENT in prefix
    ensures DashedIPv6(prefix + [DASH] + rest).Some? <==> ZoneMarkHides(prefix)
  {
    hide IPv6Body;
    var k := IndexOf(prefix, PERCENT);
    var text := prefix + [DASH] + rest;
    var c := Colons(text);
    assert text[|prefix|] == DASH;
    assert c[k] == PERCENT && c[..k] == Colons(prefix[..k]);
    FirstIndex(c, k, PERCENT);
  }

  lemma PrefixedHexNotIPv6(prefix: bytes, hex: bytes)
    requires PERCENT !in prefix && PERCENT !in hex && DASH !in hex && COLON !in hex && |hex| > 4
    ensures DashedIPv6(prefix + [DASH] + hex).None?
  {
    var c := Colons(prefix + [DASH] + hex);
    assert c == Colons(prefix) + [COLON] + hex;
    assert PERCENT !in c;
    LongTailNotIPv6(Colons(prefix), hex);
  }

  /** A prefixed hex label yields its address unless the prefix holds IPv6 text with a zone mark. */
  lemma PrefixedHexForm(before: seq<bytes>, prefix: bytes, q: quad)
    ensures Extract(before + [prefix + [DASH] + HexForm(q)]) == Some(V4(q)) <==> !ZoneMarkHides(prefix)
  {
    hide HexForm, DashedIPv6, Split, HexIPv4, OctetOf, IPv6Body, IndexOf;
    HexFormIsPlain(q);
    var hex := HexForm(q);
    var text := prefix + [DASH] + hex;
    SplitConcat(prefix, hex, DASH);
    SplitWord(hex, DASH);
    HexCanonical(hex, q);
    assert text[|prefix|] == DASH;
    OctetHasNoDash(text);
    LongPartsNotOctets(hex);
    DashedFamily(text);
    if PERCENT in prefix {
      ZoneMarkDecides(prefix, hex);
    } else {
      PrefixedHexNotIPv6(prefix, hex);
    }
  }

  lemma LongPartsNotOctets(s: bytes)
    ensures |s| > 3 ==> OctetOf(s).None?
  {
  }

  lemma DashedFamily(text: bytes)
    ensures DashedIPv6(text).Some? ==> DashedIPv6(text).value.V6?
  {
  }

  /** The exception is real: in a label such as "--%-0a000007" everything behind the zone mark is
      swallowed, and the label reads as the IPv6 address "::". */
  lemma ZoneMarkShadowsHex(q: quad)
    ensures Extract([[DASH, DASH, PERCENT] + [DASH] + HexForm(q)]) == Some(V6(Zeros(16)))
  {
    hide HexForm;
    var text := [DASH, DASH, PERCENT] + [DASH] + HexForm(q);
    ZoneMarkText(Colons(text));
    ZerosAreZero(16);
    assert Zeros(16)[11] == 0 && [0, 0, 0, 0, 0, 0, 0, 0, 0, 0, 0xFF, 0xFF][11] == 0xFF;
    assert !V6(Zeros(16)).Is4In6() by {
      assert Zeros(16)[..12][11] == 0;
    }
    assert text[0] == DASH;
  }

  lemma ZoneMarkText(c: bytes)
    requires |c| > 3 && c[0] == COLON && c[1] == COLON && c[2] == PERCENT
    ensures IPv6Text(c) == Some(Zeros(16))
  {
    assert c[1..][0] == COLON && c[1..][1..][0] == PERCENT;
    assert IndexOf(c[1..][1..], PERCENT) == 0;
    assert IndexOf(c[1..], PERCENT) == 1;
    assert IndexOf(c, PERCENT) == 2;
    assert c[..2] == [COLON, COLON];
    var body := [COLON, COLON];
    assert Ellipsis(body) == Some(0);
    assert body[..0] == [] && body[2..] == [];
    assert [] + Zeros(16) + [] == Zeros(16);
  }

  lemma {:induction false} ZerosAreZero(n: nat)
    ensures forall i :: 0 <= i < n ==> Zeros(n)[i] == 0
  {
    if n > 0 {
      ZerosAreZero(n - 1);
    }
  }

  // ----- Eight dashed groups -----

  function GroupText(hi: byte, lo: byte): (r: bytes)
    ensures |r| == 4
  {
    HexByte(hi) + HexByte(lo)
  }

  function GroupTexts(octets: bytes): (r: seq<bytes>)
    requires |octets| % 2 == 0
    ensures |r| == |octets| / 2
    ensures forall i :: 0 <= i < |r| ==> |r[i]| == 4
  {
    if octets == [] then [] else [GroupText(octets[0], octets[1])] + GroupTexts(octets[2..])
  }

  lemma GroupTextValue(hi: byte, lo: byte)
    ensures Group(GroupText(hi, lo)) == Some(hi * 0x100 + lo)
    ensures DASH !in GroupText(hi, lo) && COLON !in GroupText(hi, lo) && PERCENT !in GroupText(hi, lo)
  {
    var g := GroupText(hi, lo);
    assert g[..3][..2] == g[..2] && g[..2][..1] == g[..1] && g[..1][..0] == [];
    assert GroupValue(g[..1]) == Some(hi / 16);
    assert GroupValue(g[..2]) == Some(hi as int);
    assert GroupValue(g[..3]) == Some(hi * 16 + lo / 16);
  }

  lemma {:induction false} GroupTextsRead(octets: bytes)
    requires |octets| % 2 == 0
    ensures Groups(GroupTexts(octets)) == Some(octets)
    ensures forall i :: 0 <= i < |GroupTexts(octets)| ==>
              DASH !in GroupTexts(octets)[i] && COLON !in GroupTexts(octets)[i] && PERCENT !in GroupTexts(octets)[i]
  {
    hide GroupText, Group;
    if octets != [] {
      GroupTextValue(octets[0], octets[1]);
      GroupTextsRead(octets[2..]);
      assert octets == [octets[0], octets[1]] + octets[2..];
    }
  }

  lemma {:induction false} GroupValueIsHex(s: bytes)
    requires GroupValue(s).Some?
    ensures forall c :: c in s ==> HexDigitValue(c).Some?
  {
    if s != [] {
      GroupValueIsHex(s[..|s| - 1]);
    }
  }

  lemma {:induction false} GroupsAreWords(parts: seq<bytes>)
    requires Groups(parts).Some?
    ensures Words(parts)
  {
    if parts != [] {
      GroupValueIsHex(parts[0]);
      GroupsAreWords(parts[1..]);
    }
  }

  /** Eight hex groups with dashes between them, however each is spelled, are read whole. Unless
      they spell a mapped IPv4 address, the last four are never taken for an IPv4 address of their
      own, not even where all four are decimal octets as in "2001-db8-0-0-0-0-0-42". */
  lemma DashedIPv6Extracts(before: seq<bytes>, parts: seq<bytes>)
    requires |parts| == 8 && Groups(parts).Some?
    ensures Extract(before + [Join(parts, DASH)]) == Some(V6(Groups(parts).value)) <==>
            !V6(Groups(parts).value).Is4In6()
  {
    hide Groups, IPv6Text, Join, OctetOf;
    var labels := before + [Join(parts, DASH)];
    GroupsAreWords(parts);
    JoinedAsIPv6(parts);
    JoinHasSeparator(parts, DASH);
    DashedLabelNotDotted(labels);
    DashedIsGenuine(labels);
  }

  lemma DashedIsGenuine(labels: seq<bytes>)
    ensures Extract(labels).Some? ==> !Extract(labels).value.Is4In6()
  {
    if Extract(labels).Some? {
      ExtractFamily(labels);
    }
  }

  /** So every genuine IPv6 address has a label, with its groups padded to four digits. */
  lemma PaddedIPv6Extracts(before: seq<bytes>, octets: sixteen)
    requires !V6(octets).Is4In6()
    ensures Extract(before + [Join(GroupTexts(octets), DASH)]) == Some(V6(octets))
  {
    hide Extract, Join, GroupTexts;
    GroupTextsRead(octets);
    DashedIPv6Extracts(before, GroupTexts(octets));
  }

  // ----- A double dash -----

  /** Text that ends in no colon and holds no "::" leaves the first "::" to what follows. */
  lemma {:induction false} EllipsisAfter(w: bytes, rest: bytes)
    requires Ellipsis(w).None? && (w != [] ==> w[|w| - 1] != COLON)
    ensures Ellipsis(w + [COLON, COLON] + rest) == Some(|w|)
  {
    var all := w + [COLON, COLON] + rest;
    if w != [] {
      assert all[1..] == w[1..] + [COLON, COLON] + rest;
      NoEllipsisInTail(w);
      EllipsisAfter(w[1..], rest);
      assert |w| > 1 ==> w[1..][0] == w[1] && all[1] == w[1];
    }
  }

  lemma NoEllipsisInTail(w: bytes)
    requires w != [] && Ellipsis(w).None?
    ensures Ellipsis(w[1..]).None?
  {
  }

  lemma {:induction false} JoinEndsPlain(parts: seq<bytes>)
    requires parts != [] && Words(parts)
    ensures Join(parts, COLON) != [] && Join(parts, COLON)[|Join(parts, COLON)| - 1] != COLON
  {
    if |parts| > 1 {
      JoinEndsPlain(parts[1..]);
    }
  }

  lemma FieldsOfJoin(parts: seq<bytes>)
    requires Words(parts)
    ensures Fields(Join(parts, COLON)) == parts
  {
    if parts != [] {
      SplitJoin(parts, COLON);
      JoinEndsPlain(parts);
    }
  }

  function DoubleDash(left: seq<bytes>, right: seq<bytes>): bytes {
    Join(left, DASH) + [DASH, DASH] + Join(right, DASH)
  }

  lemma DoubleDashColons(left: seq<bytes>, right: seq<bytes>)
    requires Words(left) && Words(right)
    ensures Colons(DoubleDash(left, right)) == Join(left, COLON) + [COLON, COLON] + Join(right, COLON)
    ensures PERCENT !in Colons(DoubleDash(left, right))
  {
    hide Join;
    ColonsConcat(Join(left, DASH) + [DASH, DASH], Join(right, DASH));
    ColonsConcat(Join(left, DASH), [DASH, DASH]);
    ColonsJoin(left);
    ColonsJoin(right);
    NotInJoin(left, COLON, PERCENT);
    NotInJoin(right, COLON, PERCENT);
    assert Colons([DASH, DASH]) == [COLON, COLON];
  }

  /** The address two lists of groups around "::" stand for. */
  function Expand(left: bytes, right: bytes): sixteen
    requires |left| + |right| <= 16
  {
    left + Zeros(16 - |left| - |right|) + right
  }

  /** Words around a double dash read as IPv6 exactly when they are hex groups, at most seven of
      them; the double dash stands for the missing ones. */
  lemma DoubleDashAsIPv6(left: seq<bytes>, right: seq<bytes>)
    requires Words(left) && Words(right)
    ensures IPv6Text(Colons(DoubleDash(left, right))) ==
            if Groups(left).Some? && Groups(right).Some? && |left| + |right| <= 7
            then Some(Expand(Groups(left).value, Groups(right).value)) else None
  {
    hide Join, Groups, Ellipsis, Fields, DoubleDash, IPv6Body, Colons;
    var l, r := Join(left, COLON), Join(right, COLON);
    DoubleDashColons(left, right);
    NoEllipsisInJoin(left);
    EmptyText();
    if left != [] {
      JoinEndsPlain(left);
    }
    EllipsisAfter(l, r);
    FieldsOfJoin(left);
    FieldsOfJoin(right);
    BodyAroundEllipsis(l, r);
  }

  lemma BodyAroundEllipsis(l: bytes, r: bytes)
    requires Ellipsis(l + [COLON, COLON] + r) == Some(|l|)
    ensures IPv6Body(l + [COLON, COLON] + r) ==
            match (Groups(Fields(l)), Groups(Fields(r)))
            case (Some(left), Some(right)) => if |left| + |right| <= 14 then Some(Expand(left, right)) else None
            case _ => None
  {
    hide Ellipsis, Groups, Fields;
    var c := l + [COLON, COLON] + r;
    assert c[..|l|] == l && c[|l| + 2..] == r;
  }

  lemma EmptyText()
    ensures Join([], COLON) == [] && Ellipsis([]).None?
  {
  }

  /** "2001-db8--7", "--1": a double dash stands for the missing groups. */
  lemma DoubleDashExtracts(before: seq<bytes>, left: seq<bytes>, right: seq<bytes>)
    requires Groups(left).Some? && Groups(right).Some? && |left| + |right| <= 7
    ensures var octets := Expand(Groups(left).value, Groups(right).value);
            Extract(before + [DoubleDash(left, right)]) == Some(V6(octets)) <==> !V6(octets).Is4In6()
  {
    hide Groups, IPv6Text, OctetOf, Join, Expand;
    var labels := before + [DoubleDash(left, right)];
    GroupsAreWords(left);
    GroupsAreWords(right);
    DoubleDashAsIPv6(left, right);
    assert DoubleDash(left, right)[|Join(left, DASH)|] == DASH;
    DashedLabelNotDotted(labels);
    DashedIsGenuine(labels);
  }

  // ----- Prefixed dashed IPv4 -----

  /** What before ":a:b:c:d" makes the whole IPv6 text: four groups, or at most three around or
      before a "::". */
  predicate HeadOfIPv6(p: bytes) {
    match Ellipsis(p)
    case Some(i) =>
      && p[i + 2..] != [] && Groups(Fields(p[..i])).Some? && Groups(Fields(p[i + 2..])).Some?
      && |Fields(p[..i])| + |Fields(p[i + 2..])| <= 3
    case None =>
      if p != [] && p[|p| - 1] == COLON then
        Groups(Fields(p[..|p| - 1])).Some? && |Fields(p[..|p| - 1])| <= 3
      else Groups(Fields(p)).Some? && |Fields(p)| == 4
  }

  /** The prefixes that turn a dashed IPv4 label into an IPv6 one. */
  predicate OpensIPv6(prefix: bytes) {
    ZoneMarkHides(prefix) || (PERCENT !in prefix && HeadOfIPv6(Colons(prefix)))
  }

  lemma DecimalsAreWords(q: quad)
    ensures Words(Decimals(q))
  {
    forall i | 0 <= i < 4 ensures Word(Decimals(q)[i]) {
      DecimalIsPlain(q[i]);
    }
  }

  lemma {:induction false} DigitsAreHex(s: bytes)
    requires AllDigits(s)
    ensures GroupValue(s).Some?
  {
    if s != [] {
      DigitsAreHex(s[..|s| - 1]);
    }
  }

  /** A decimal octet is a hex group too, one below 0x1000. */
  lemma DecimalGroup(v: byte)
    ensures Group(Decimal(v)).Some? && Group(Decimal(v)).value < 0x1000
  {
    var s := Decimal(v);
    assert AllDigits(s);
    DigitsAreHex(s);
    GroupValueBound(s);
  }

  lemma DecimalGroups(q: quad)
    ensures Groups(Decimals(q)).Some? && Groups(Decimals(q)).value[2] < 0x10
  {
    hide Group, Decimal;
    var d := Decimals(q);
    DecimalGroup(q[0]);
    DecimalGroup(q[1]);
    DecimalGroup(q[2]);
    DecimalGroup(q[3]);
    assert d[1..][0] == d[1] && d[1..][1..] == d[2..];
    assert d[2..][0] == d[2] && d[2..][1..] == d[3..];
    var none: seq<bytes> := d[3..][1..];
    assert d[3..][0] == d[3] && none == [];
    assert Groups(d[3..]).Some?;
    assert Groups(d[2..]).Some?;
    var tail := Groups(d[1..]).value;
    assert tail[0] == Group(d[1]).value / 0x100;
    assert Groups(d).value == U16(Group(d[0]).value) + tail;
  }

  lemma {:induction false} GroupsConcat(a: seq<bytes>, b: seq<bytes>)
    ensures Groups(a + b).Some? <==> Groups(a).Some? && Groups(b).Some?
    ensures Groups(a + b).Some? ==> Groups(a + b).value == Groups(a).value + Groups(b).value
  {
    hide Group;
    if a == [] {
      assert a + b == b;
    } else {
      assert (a + b)[0] == a[0] && (a + b)[1..] == a[1..] + b;
      GroupsConcat(a[1..], b);
    }
  }

  lemma {:induction false} EllipsisStays(p: bytes, more: bytes)
    requires Ellipsis(p).Some?
    ensures Ellipsis(p + more) == Ellipsis(p)
  {
    if !(p[0] == COLON && p[1] == COLON) {
      assert (p + more)[1..] == p[1..] + more;
      EllipsisStays(p[1..], more);
    }
  }

  lemma {:induction false} NoEllipsisAcross(p: bytes, s: bytes)
    requires Ellipsis(p).None? && (p != [] ==> p[|p| - 1] != COLON)
    requires Ellipsis(s).None? && s != [] && s[0] != COLON
    ensures Ellipsis(p + [COLON] + s).None?
  {
    var all := p + [COLON] + s;
    if p == [] {
      assert all[1..] == s;
    } else {
      assert all[1..] == p[1..] + [COLON] + s;
      NoEllipsisInTail(p);
      assert |p| > 1 ==> all[1] == p[1] == p[1..][0];
      NoEllipsisAcross(p[1..], s);
    }
  }

  /** Four more groups behind `p`, spelled so that they cannot make a mapped address. */
  predicate FourMore(d: seq<bytes>) {
    |d| == 4 && Words(d) && Groups(d).Some? && Groups(d).value[2] < 0x10
  }

  lemma NotMapped(front: bytes, d: bytes)
    requires |front| + |d| == 16 && |d| == 8 && d[2] < 0x10
    ensures !V6(front + d).Is4In6()
  {
    var octets := front + d;
    assert octets[..12][10] == octets[10] == d[2];
    assert [0, 0, 0, 0, 0, 0, 0, 0, 0, 0, 0xFF, 0xFF][10] == 0xFF;
  }

  lemma HeadWithEllipsis(p: bytes, d: seq<bytes>)
    requires Ellipsis(p).Some? && FourMore(d)
    ensures var body := IPv6Body(p + [COLON] + Join(d, COLON));
            (body.Some? <==> HeadOfIPv6(p)) && (body.Some? ==> !V6(body.value).Is4In6())
  {
    hide Join, Split, Groups, Ellipsis, Zeros;
    var i, t := Ellipsis(p).value, Join(d, COLON);
    var s := p + [COLON] + t;
    EllipsisStays(p, [COLON] + t);
    assert p + ([COLON] + t) == s;
    var l, r := p[..i], p[i + 2..];
    assert s[..i] == l && s[i + 2..] == r + [COLON] + t;
    SplitConcat(r, t, COLON);
    SplitJoin(d, COLON);
    GroupsConcat(Split(r, COLON), d);
    if r == [] {
      EmptyFieldIsNoGroup(COLON);
    } else if IPv6Body(s).Some? {
      var left, right, tail := Groups(Fields(l)).value, Groups(Fields(r)).value, Groups(d).value;
      var zeros := Zeros(16 - |left| - |right + tail|);
      assert left + zeros + (right + tail) == (left + zeros + right) + tail;
      NotMapped(left + zeros + right, tail);
    }
  }

  lemma EmptyFieldIsNoGroup(sep: byte)
    ensures Groups(Split([], sep)).None?
  {
  }

  lemma HeadEndingInColon(w: bytes, d: seq<bytes>)
    requires Ellipsis(w + [COLON]).None? && FourMore(d)
    ensures var body := IPv6Body(w + [COLON] + [COLON] + Join(d, COLON));
            (body.Some? <==> HeadOfIPv6(w + [COLON])) && (body.Some? ==> !V6(body.value).Is4In6())
  {
    hide Join, Split, Group, Ellipsis, Groups;
    var t := Join(d, COLON);
    var s := w + [COLON] + [COLON] + t;
    EndOfNoEllipsis(w);
    EllipsisAfter(w, t);
    assert s == w + [COLON, COLON] + t;
    assert s[..|w|] == w && s[|w| + 2..] == t && (w + [COLON])[..|w|] == w;
    FieldsOfJoin(d);
    if IPv6Body(s).Some? {
      var left, tail := Groups(Fields(w)).value, Groups(d).value;
      NotMapped(left + Zeros(16 - |left| - |tail|), tail);
    }
  }

  lemma {:induction false} EndOfNoEllipsis(w: bytes)
    requires Ellipsis(w + [COLON]).None?
    ensures Ellipsis(w).None? && (w != [] ==> w[|w| - 1] != COLON)
  {
    if w != [] {
      assert (w + [COLON])[1..] == w[1..] + [COLON];
      NoEllipsisInTail(w + [COLON]);
      EndOfNoEllipsis(w[1..]);
      assert (w + [COLON])[1] == if |w| > 1 then w[1] else COLON;
    }
  }

  lemma HeadWithoutEllipsis(p: bytes, d: seq<bytes>)
    requires Ellipsis(p).None? && (p != [] ==> p[|p| - 1] != COLON) && FourMore(d)
    ensures var body := IPv6Body(p + [COLON] + Join(d, COLON));
            (body.Some? <==> HeadOfIPv6(p)) && (body.Some? ==> !V6(body.value).Is4In6())
  {
    hide Join, Split, Group, Ellipsis;
    var t := Join(d, COLON);
    var s := p + [COLON] + t;
    NoEllipsisInJoin(d);
    NoEllipsisAcross(p, t);
    SplitConcat(p, t, COLON);
    SplitJoin(d, COLON);
    GroupsConcat(Split(p, COLON), d);
    if p == [] {
      SplitWord([], COLON);
    } else if IPv6Body(s).Some? {
      NotMapped(Groups(Fields(p)).value, Groups(d).value);
    }
  }

  /** Whether text ending in four such groups is IPv6 depends on what stands before them alone. */
  lemma HeadDecides(p: bytes, d: seq<bytes>)
    requires FourMore(d)
    ensures var body := IPv6Body(p + [COLON] + Join(d, COLON));
            (body.Some? <==> HeadOfIPv6(p)) && (body.Some? ==> !V6(body.value).Is4In6())
  {
    hide Join, Split, Groups, Ellipsis, IPv6Body, HeadOfIPv6, FourMore;
    if Ellipsis(p).Some? {
      HeadWithEllipsis(p, d);
    } else if p != [] && p[|p| - 1] == COLON {
      assert p == p[..|p| - 1] + [COLON];
      HeadEndingInColon(p[..|p| - 1], d);
    } else {
      HeadWithoutEllipsis(p, d);
    }
  }

  lemma DecimalsAreFourMore(q: quad)
    ensures FourMore(Decimals(q))
  {
    DecimalsAreWords(q);
    DecimalGroups(q);
  }

  lemma PrefixedDashedAsIPv6(prefix: bytes, q: quad)
    ensures DashedIPv6(prefix + [DASH] + DashedForm(q)).Some? <==> OpensIPv6(prefix)
  {
    hide Join, IPv6Body, HeadOfIPv6, FourMore, Decimals;
    if PERCENT in prefix {
      ZoneMarkDecides(prefix, DashedForm(q));
    } else {
      var d, text := Decimals(q), prefix + [DASH] + DashedForm(q);
      DecimalsAreWords(q);
      ColonsConcat(prefix + [DASH], DashedForm(q));
      ColonsConcat(prefix, [DASH]);
      ColonsJoin(d);
      NotInJoin(d, COLON, PERCENT);
      assert Colons(text) == Colons(prefix) + [COLON] + Join(d, COLON);
      DecimalsAreFourMore(q);
      HeadDecides(Colons(prefix), d);
      assert text[|prefix|] == DASH;
    }
  }

  /** "app-10-0-0-7": behind a prefix the dashed form yields its address exactly when the prefix
      does not make the whole label IPv6 text. */
  lemma PrefixedDashedForm(before: seq<bytes>, prefix: bytes, q: quad)
    ensures Extract(before + [prefix + [DASH] + DashedForm(q)]) == Some(V4(q)) <==> !OpensIPv6(prefix)
  {
    hide DashedIPv6, Split, HexIPv4, OctetOf, OpensIPv6, Join, Decimals;
    var parts, text := Decimals(q), prefix + [DASH] + DashedForm(q);
    var labels := before + [text];
    PrefixedDashedAsIPv6(prefix, q);
    DashedFamily(text);
    assert text[|prefix|] == DASH;
    DashedLabelNotDotted(labels);
    DecimalsAreWords(q);
    SplitJoin(parts, DASH);
    SplitConcat(prefix, DashedForm(q), DASH);
    var all := Split(prefix, DASH) + parts;
    assert all[|all| - 4..] == parts;
    LastFourCanonical(all, q);
  }

  /** A prefix of plain words does that only if they are exactly four hex groups. */
  lemma WordsOpenIPv6(words: seq<bytes>)
    requires words != [] && Words(words)
    ensures OpensIPv6(Join(words, DASH)) <==> |words| == 4 && Groups(words).Some?
  {
    hide Join, Groups, Ellipsis, Fields;
    var p := Join(words, COLON);
    ColonsJoin(words);
    NoEllipsisInJoin(words);
    JoinEndsPlain(words);
    FieldsOfJoin(words);
    NotInJoin(words, DASH, PERCENT);
  }

  /** And "a--10-0-0-7" is such a label: a trailing dash in the prefix completes a double one. */
  lemma DoubleDashShadowsDashed(before: seq<bytes>, q: quad)
    ensures Groups(Decimals(q)).Some?
    ensures Extract(before + [[97, DASH] + [DASH] + DashedForm(q)]) ==
            Some(V6([0, 10] + Zeros(6) + Groups(Decimals(q)).value))
  {
    hide Extract, Decimals;
    var left, d: seq<bytes> := [[97]], Decimals(q);
    DecimalGroups(q);
    assert left[0][..0] == [] && left[1..] == [];
    assert GroupValue([]) == Some(0);
    assert GroupValue(left[0]) == Some(10);
    assert Group(left[0]) == Some(10) && Groups(left[1..]) == Some([]);
    assert U16(10) + [] == [0, 10];
    DoubleDashExtracts(before, left, d);
    assert DoubleDash(left, d) == [97, DASH] + [DASH] + DashedForm(q);
    NotMapped([0, 10] + Zeros(6), Groups(d).value);
  }
}
