/** Octets, fixed-width words and the few string operations hostwild takes from the Go library.
    Strings are byte sequences, as they are in Go. */
module Bytes {

  type byte = b: int | 0 <= b < 0x100
  type u16 = w: int | 0 <= w < 0x1_0000
  type u32 = w: int | 0 <= w < 0x1_0000_0000
  type bytes = seq<byte>

  const DOT: byte := 46
  const DASH: byte := 45

  datatype Option<+T> = None | Some(value: T)

  datatype Result<+T, +E> = Ok(value: T) | Err(error: E) {
    predicate IsFailure() { Err? }

    function PropagateFailure<U>(): Result<U, E>
      requires Err?
    {
      Err(error)
    }

    function Extract(): T
      requires Ok?
    {
      value
    }
  }

  function Max(a: nat, b: nat): nat { if a < b then b else a }

  // ----- Big-endian words -----

  function U16(w: u16): (r: bytes)
    ensures |r| == 2
  {
    [w / 0x100, w % 0x100]
  }

  function U32(w: u32): (r: bytes)
    ensures |r| == 4
  {
    U16(w / 0x1_0000) + U16(w % 0x1_0000)
  }

  function U16At(buf: bytes, pos: nat): u16
    requires pos + 2 <= |buf|
  {
    buf[pos] as int * 0x100 + buf[pos + 1]
  }

  function U32At(buf: bytes, pos: nat): u32
    requires pos + 4 <= |buf|
  {
    U16At(buf, pos) as int * 0x1_0000 + U16At(buf, pos + 2)
  }

  /** The bytes of `x` sit in `buf` at `pos`. */
  predicate Holds(buf: bytes, pos: nat, x: bytes) {
    pos + |x| <= |buf| && buf[pos..pos + |x|] == x
  }

  lemma HoldsParts(buf: bytes, pos: nat, x: bytes, y: bytes)
    requires Holds(buf, pos, x + y)
    ensures Holds(buf, pos, x) && Holds(buf, pos + |x|, y)
  {
    var z := x + y;
    assert buf[pos..pos + |x|] == z[..|x|] == x;
    assert buf[pos + |x|..pos + |z|] == z[|x|..] == y;
  }

  lemma HoldsU16(buf: bytes, pos: nat, w: u16)
    requires Holds(buf, pos, U16(w))
    ensures U16At(buf, pos) == w
  {
    assert buf[pos..pos + 2][0] == U16(w)[0] && buf[pos..pos + 2][1] == U16(w)[1];
  }

  lemma HoldsU32(buf: bytes, pos: nat, w: u32)
    requires Holds(buf, pos, U32(w))
    ensures U32At(buf, pos) == w
  {
    HoldsParts(buf, pos, U16(w / 0x1_0000), U16(w % 0x1_0000));
    HoldsU16(buf, pos, w / 0x1_0000);
    HoldsU16(buf, pos + 2, w % 0x1_0000);
  }

  // ----- ASCII case -----

  function LowerByte(b: byte): byte { if 65 <= b <= 90 then b + 32 else b }

  /** strings.ToLower on ASCII text. */
  function Lower(s: bytes): (r: bytes)
    ensures |r| == |s|
    ensures forall i :: 0 <= i < |s| ==> r[i] == LowerByte(s[i])
  {
    seq(|s|, i requires 0 <= i < |s| => LowerByte(s[i]))
  }

  predicate IsLower(s: bytes) { forall i :: 0 <= i < |s| ==> !(65 <= s[i] <= 90) }

  lemma LowerFixed(s: bytes)
    ensures IsLower(Lower(s))
    ensures Lower(s) == s <==> IsLower(s)
  {
    if !IsLower(s) {
      var i :| 0 <= i < |s| && 65 <= s[i] <= 90;
      assert Lower(s)[i] != s[i];
    }
  }

  // ----- Suffixes -----

  predicate HasSuffix(s: bytes, suffix: bytes) {
    |suffix| <= |s| && s[|s| - |suffix|..] == suffix
  }

  function TrimSuffix(s: bytes, suffix: bytes): bytes {
    if HasSuffix(s, suffix) then s[..|s| - |suffix|] else s
  }

  // ----- strings.Split and strings.Join for a one-byte separator -----

  function Split(s: bytes, sep: byte): (r: seq<bytes>)
    ensures |r| > 0
  {
    if s == [] then [[]]
    else if s[0] == sep then [[]] + Split(s[1..], sep)
    else
      var rest := Split(s[1..], sep);
      [[s[0]] + rest[0]] + rest[1..]
  }

  function Join(parts: seq<bytes>, sep: byte): bytes {
    if parts == [] then []
    else if |parts| == 1 then parts[0]
    else parts[0] + [sep] + Join(parts[1..], sep)
  }

  lemma {:induction false} JoinSplit(s: bytes, sep: byte)
    ensures Join(Split(s, sep), sep) == s
    ensures forall i :: 0 <= i < |Split(s, sep)| ==> sep !in Split(s, sep)[i]
  {
    if s == [] {
    } else {
      JoinSplit(s[1..], sep);
      var rest := Split(s[1..], sep);
      if s[0] == sep {
        assert ([[]] + rest)[1..] == rest;
      } else {
        var parts := [[s[0]] + rest[0]] + rest[1..];
        if |rest| > 1 {
          assert parts[1..] == rest[1..];
        }
      }
    }
  }

  /** Splitting undoes joining exactly when no part holds the separator. */
  lemma {:induction false} SplitJoin(parts: seq<bytes>, sep: byte)
    requires parts != []
    requires forall i :: 0 <= i < |parts| ==> sep !in parts[i]
    ensures Split(Join(parts, sep), sep) == parts
  {
    if |parts| == 1 {
      SplitWord(parts[0], sep);
    } else {
      SplitJoin(parts[1..], sep);
      SplitAt(parts[0], Join(parts[1..], sep), sep);
    }
  }

  lemma {:induction false} SplitWord(w: bytes, sep: byte)
    requires sep !in w
    ensures Split(w, sep) == [w]
  {
    if w != [] {
      SplitWord(w[1..], sep);
      assert [w[0]] + w[1..] == w;
    }
  }

  lemma {:induction false} SplitAt(w: bytes, s: bytes, sep: byte)
    requires sep !in w
    ensures Split(w + [sep] + s, sep) == [w] + Split(s, sep)
  {
    var all := w + [sep] + s;
    if w == [] {
      assert all[1..] == s;
    } else {
      SplitAt(w[1..], s, sep);
      assert all[1..] == w[1..] + [sep] + s;
      assert [w[0]] + w[1..] == w;
      assert ([w[1..]] + Split(s, sep))[1..] == Split(s, sep);
    }
  }

  lemma {:induction false} JoinConcat(a: seq<bytes>, b: seq<bytes>, sep: byte)
    requires a != [] && b != []
    ensures Join(a + b, sep) == Join(a, sep) + [sep] + Join(b, sep)
  {
    assert (a + b)[0] == a[0];
    assert (a + b)[1..] == a[1..] + b;
    if |a| > 1 {
      JoinConcat(a[1..], b, sep);
    } else {
      assert a[1..] + b == b;
    }
  }

  lemma SplitConcat(s: bytes, u: bytes, sep: byte)
    ensures Split(s + [sep] + u, sep) == Split(s, sep) + Split(u, sep)
  {
    JoinSplit(s, sep);
    JoinSplit(u, sep);
    JoinConcat(Split(s, sep), Split(u, sep), sep);
    SplitJoin(Split(s, sep) + Split(u, sep), sep);
  }
}
