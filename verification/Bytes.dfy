/** Bytes and C strings. A string is the sequence of its bytes without the
    terminating NUL. */
module Bytes {
  import opened Wrappers
  import opened AATree

  type byte = bv8
  type bytes = seq<byte>

  const NUL: byte := 0
  const TAB: byte := 0x09
  const LF: byte := 0x0A
  const CR: byte := 0x0D
  const SPACE: byte := 0x20
  const COLON: byte := 0x3A

  predicate NulFree(s: bytes) {
    forall i :: 0 <= i < |s| ==> s[i] != NUL
  }

  // The C string that starts a buffer: everything before the first NUL.
  function CString(s: bytes): (r: bytes)
    ensures NulFree(r) && |r| <= |s| && r == s[..|r|]
    ensures |r| < |s| ==> s[|r|] == NUL
  {
    if s == [] || s[0] == NUL then []
    else
      assert s == [s[0]] + s[1..];
      [s[0]] + CString(s[1..])
  }

  lemma {:induction false} CStringOfNulFree(s: bytes)
    requires NulFree(s)
    ensures CString(s) == s
  {
    if s != [] {
      CStringOfNulFree(s[1..]);
    }
  }

  // A NUL ends a C string, whatever follows it.
  lemma {:induction false} CStringStops(s: bytes, rest: bytes)
    ensures CString(s + [NUL] + rest) == CString(s)
  {
    if s != [] {
      assert (s + [NUL] + rest)[1..] == s[1..] + [NUL] + rest;
      CStringStops(s[1..], rest);
    }
  }

  const CRLF: bytes := [CR, LF]

  predicate IsSpace(c: byte) { c == TAB || c == LF || c == CR || c == SPACE }

  predicate IsDigit(c: byte) { 0x30 <= c <= 0x39 }

  // All of the pieces, one behind the other.
  function Flatten(cs: seq<bytes>): bytes {
    if cs == [] then [] else Flatten(cs[..|cs| - 1]) + cs[|cs| - 1]
  }

  lemma {:induction false} FlattenRest(chunks: seq<bytes>, i: nat) returns (more: bytes)
    requires i <= |chunks|
    ensures Flatten(chunks) == Flatten(chunks[..i]) + more
    decreases |chunks|
  {
    if i == |chunks| {
      more := [];
      assert chunks[..i] == chunks && Flatten(chunks) + [] == Flatten(chunks);
    } else {
      var n := |chunks| - 1;
      more := FlattenRest(chunks[..n], i);
      assert chunks[..n][..i] == chunks[..i];
      Assoc(Flatten(chunks[..i]), more, chunks[n]);
      more := more + chunks[n];
    }
  }

  function HexUpper(d: byte): byte {
    if d < 10 then 0x30 + d else 0x37 + d
  }

  // The value of a hexadecimal digit of either case.
  function HexValue(c: byte): (d: Option<byte>)
    ensures d.Some? ==> d.value < 16
  {
    if IsDigit(c) then Some(c - 0x30)
    else if 0x41 <= c <= 0x46 then Some(c - 0x37)
    else if 0x61 <= c <= 0x66 then Some(c - 0x57)
    else None
  }

  function HexDigit(d: nat): byte
    requires d < 16
  {
    var digits: bytes := [0x30, 0x31, 0x32, 0x33, 0x34, 0x35, 0x36, 0x37, 0x38, 0x39, 0x41, 0x42, 0x43, 0x44, 0x45,
      0x46];
    digits[d]
  }

  function Decimal(n: nat): bytes {
    if n < 10 then [HexDigit(n)] else Decimal(n / 10) + [HexDigit(n % 10)]
  }

  // The bytes of a literal.
  function Ascii(s: string): bytes {
    seq(|s|, i requires 0 <= i < |s| => ((s[i] as int) % 256) as byte)
  }

  lemma Assoc<T>(a: seq<T>, b: seq<T>, c: seq<T>)
    ensures a + b + c == a + (b + c)
  {
  }

  function StrCmp(a: bytes, b: bytes): int {
    if a == [] then (if b == [] then 0 else -1)
    else if b == [] then 1
    else if a[0] != b[0] then (if a[0] < b[0] then -1 else 1)
    else StrCmp(a[1..], b[1..])
  }

  function Lower(c: byte): byte {
    if 0x41 <= c <= 0x5A then c + 0x20 else c
  }

  function Lowered(s: bytes): (r: bytes) {
    seq(|s|, i requires 0 <= i < |s| => Lower(s[i]))
  }

  function StrCaseCmp(a: bytes, b: bytes): int {
    StrCmp(Lowered(a), Lowered(b))
  }

  lemma {:induction false} StrCmpSwap(a: bytes, b: bytes)
    ensures StrCmp(a, b) == -StrCmp(b, a)
    ensures StrCmp(a, b) == 0 <==> a == b
  {
    if a != [] && b != [] && a[0] == b[0] {
      StrCmpSwap(a[1..], b[1..]);
      assert a == [a[0]] + a[1..] && b == [b[0]] + b[1..];
    }
  }

  lemma {:induction false} StrCmpTrans(a: bytes, b: bytes, c: bytes)
    ensures StrCmp(a, b) <= 0 && StrCmp(b, c) <= 0 ==> StrCmp(a, c) <= 0
  {
    if a != [] && b != [] && c != [] {
      StrCmpTrans(a[1..], b[1..], c[1..]);
    }
  }

  /** Both comparisons a dictionary can use are total preorders; only for the first
      do equal keys have to be identical. */
  lemma StrCmpPreorder()
    ensures TotalPreorder(StrCmp)
    ensures forall a, b :: StrCmp(a, b) == 0 <==> a == b
  {
    forall a, b
      ensures StrCmp(a, b) < 0 <==> StrCmp(b, a) > 0
      ensures StrCmp(a, b) == 0 <==> a == b
    {
      StrCmpSwap(a, b);
    }
    forall a, b, c | StrCmp(a, b) <= 0 && StrCmp(b, c) <= 0 ensures StrCmp(a, c) <= 0 {
      StrCmpTrans(a, b, c);
    }
  }

  lemma StrCaseCmpPreorder()
    ensures TotalPreorder(StrCaseCmp)
  {
    forall a, b ensures StrCaseCmp(a, b) < 0 <==> StrCaseCmp(b, a) > 0 {
      StrCmpSwap(Lowered(a), Lowered(b));
    }
    forall a, b, c | StrCaseCmp(a, b) <= 0 && StrCaseCmp(b, c) <= 0 ensures StrCaseCmp(a, c) <= 0 {
      StrCmpTrans(Lowered(a), Lowered(b), Lowered(c));
    }
  }

  // ---------- what the comparisons mean ----------

  /** `strcmp` compares byte by byte: the first difference decides, or the length. */
  lemma {:induction false} StrCmpDecides(a: bytes, b: bytes, k: nat)
    requires k <= |a| && k <= |b| && a[..k] == b[..k]
    ensures k == |a| < |b| ==> StrCmp(a, b) < 0
    ensures k < |a| && k < |b| && a[k] < b[k] ==> StrCmp(a, b) < 0
  {
    if k > 0 {
      assert a[0] == a[..k][0] == b[..k][0] == b[0];
      assert a[1..][..k - 1] == a[..k][1..] == b[1..][..k - 1];
      StrCmpDecides(a[1..], b[1..], k - 1);
    }
  }

  // The same byte, or the same letter of the alphabet in either case.
  predicate SameLetter(a: byte, b: byte) {
    || a == b
    || (0x41 <= a <= 0x5A && b == a + 0x20)
    || (0x41 <= b <= 0x5A && a == b + 0x20)
  }

  predicate SameLetters(a: bytes, b: bytes) {
    |a| == |b| && forall i :: 0 <= i < |a| ==> SameLetter(a[i], b[i])
  }

  lemma LowerIs(a: byte, b: byte)
    ensures Lower(a) == Lower(b) <==> SameLetter(a, b)
  {
  }

  /** `strcasecmp` takes strings for equal if and only if they have the same letters. */
  lemma CaseEqualIff(a: bytes, b: bytes)
    ensures StrCaseCmp(a, b) == 0 <==> SameLetters(a, b)
  {
    var x, y := Lowered(a), Lowered(b);
    StrCmpSwap(x, y);
    hide Lower, StrCmp, SameLetter;
    assert StrCaseCmp(a, b) == StrCmp(x, y);
    if x == y {
      forall i | 0 <= i < |a| ensures SameLetter(a[i], b[i]) {
        assert x[i] == y[i];
        LowerIs(a[i], b[i]);
      }
    }
    if SameLetters(a, b) {
      forall i | 0 <= i < |x| ensures x[i] == y[i] {
        LowerIs(a[i], b[i]);
      }
    }
  }

  /** And otherwise the first different letter decides, or the length. */
  lemma StrCaseCmpDecides(a: bytes, b: bytes, k: nat)
    requires k <= |a| && k <= |b| && SameLetters(a[..k], b[..k])
    ensures k == |a| < |b| ==> StrCaseCmp(a, b) < 0
    ensures k < |a| && k < |b| ==>
      var x := if 0x41 <= a[k] <= 0x5A then a[k] + 0x20 else a[k];
      var y := if 0x41 <= b[k] <= 0x5A then b[k] + 0x20 else b[k];
      x < y ==> StrCaseCmp(a, b) < 0
  {
    var x, y := Lowered(a), Lowered(b);
    assert forall c: byte :: Lower(c) == if 0x41 <= c <= 0x5A then c + 0x20 else c;
    hide Lower, StrCmp, SameLetter;
    forall i | 0 <= i < k ensures x[i] == y[i] {
      assert a[..k][i] == a[i] && b[..k][i] == b[i];
      LowerIs(a[i], b[i]);
    }
    assert x[..k] == y[..k];
    StrCmpDecides(x, y, k);
  }

  // The bytes of a literal are its characters.
  lemma AsciiIs(s: string)
    requires forall i :: 0 <= i < |s| ==> s[i] as int < 256
    ensures |Ascii(s)| == |s| && forall i :: 0 <= i < |s| ==> Ascii(s)[i] as int == s[i] as int
  {
    forall i | 0 <= i < |s| ensures Ascii(s)[i] as int == s[i] as int {
      ByteOfChar(s[i]);
    }
  }

  lemma ByteOfChar(c: char)
    requires c as int < 256
    ensures (((c as int) % 256) as byte) as int == c as int
  {
  }
}
