/** Base64 text in lines of 76 characters. */
module Base64 {
  import opened Bytes

  const PAD: byte := 0x3D
  const NONE: byte := 255
  const LINE := 57
  const LINE_CHARS := 76

  // ---------- the two tables ----------

  // A value of six bits as a character.
  function Code(v: byte): byte {
    if v < 26 then v + 0x41
    else if v < 52 then v - 26 + 0x61
    else if v < 62 then v - 52 + 0x30
    else if v == 62 then 0x2B
    else 0x2F
  }

  // Its inverse, for characters below 128.
  function Value(c: byte): byte {
    if 0x41 <= c <= 0x5A then c - 0x41
    else if 0x61 <= c <= 0x7A then c - 0x61 + 26
    else if 0x30 <= c <= 0x39 then c - 0x30 + 52
    else if c == 0x2B then 62
    else if c == 0x2F then 63
    else NONE
  }

  predicate IsBlank(c: byte) { c == LF || c == CR || c == SPACE }

  lemma ValueOfCode(v: byte)
    requires v < 64
    ensures Value(Code(v)) == v && Code(v) < 128 && !IsBlank(Code(v)) && Code(v) != PAD && Code(v) != NUL
  {
  }

  // ---------- the encoding ----------

  // Behind the end of the data there are zero bits.
  function At(s: bytes, i: nat): byte { if i < |s| then s[i] else 0 }

  /** The k-th six bits of the data. */
  function Sextet(s: bytes, k: nat): (v: byte)
    ensures v < 64
  {
    var i := 3 * (k / 4);
    Six(At(s, i), At(s, i + 1), At(s, i + 2), k % 4)
  }

  function Six(a: byte, b: byte, c: byte, which: nat): (v: byte)
    ensures v < 64
  {
    if which == 0 then (a >> 2) & 0x3F
    else if which == 1 then ((a << 4) & 0x30) + ((b >> 4) & 0x0F)
    else if which == 2 then ((b << 2) & 0x3C) + ((c >> 6) & 0x03)
    else c & 0x3F
  }

  function Groups(n: nat): nat { (n + 2) / 3 }

  function PadCount(n: nat): nat {
    if n % 3 == 1 then 2 else if n % 3 == 2 then 1 else 0
  }

  /** Section 4 of RFC 4648: the characters for some data, padded to groups of four. */
  function Chars(s: bytes): (r: bytes)
    ensures |r| == 4 * Groups(|s|)
  {
    seq(4 * Groups(|s|), k requires 0 <= k < 4 * Groups(|s|) =>
      if k >= 4 * Groups(|s|) - PadCount(|s|) then PAD else Code(Sextet(s, k)))
  }

  /** The text, with a new line behind every 76 characters and at the end. */
  function Encoded(s: bytes): bytes
    decreases |s|
  {
    if s == [] then []
    else if |s| <= LINE then Chars(s) + [LF]
    else Chars(s[..LINE]) + [LF] + Encoded(s[LINE..])
  }

  // ---------- the decoding ----------

  /** Overrun stands for reading behind the end of the text or of the table, which the
      original does not check. Blank is a buffer of no defined content, of length zero. */
  datatype Decoded = Null | Blank | Overrun | Text(data: bytes)

  function Strip(s: bytes): (r: bytes)
    ensures |r| <= |s|
  {
    if s == [] then [] else if IsBlank(s[0]) then Strip(s[1..]) else [s[0]] + Strip(s[1..])
  }

  function Three(c1: byte, c2: byte, c3: byte, c4: byte, which: nat): byte {
    if which == 0 then ((c1 & 0x3F) << 2) + ((c2 & 0x30) >> 4)
    else if which == 1 then ((c2 & 0x0F) << 4) + ((c3 & 0x3C) >> 2)
    else ((c3 & 0x03) << 6) + c4
  }

  // The j-th byte decoded from a text without blanks.
  function ByteAt(t: bytes, j: nat): byte
    requires 4 * (j / 3) + 3 < |t|
  {
    var q := 4 * (j / 3);
    Three(Value(t[q]), Value(t[q + 1]), Value(t[q + 2]), Value(t[q + 3]), j % 3)
  }

  predicate Ascii7(t: bytes) {
    forall i :: 0 <= i < |t| ==> t[i] < 128
  }

  // How much of the last group counts, by the two characters before the end.
  function PadAt(s: bytes, end: nat): nat
    requires 2 <= end <= |s|
  {
    if s[end - 2] == PAD then 2 else if s[end - 1] == PAD then 1 else 0
  }

  function Decode(s: bytes): Decoded {
    var t := Strip(s);
    if |s| <= 1 || |t| % 4 != 0 then Null
    else if t == [] then Blank
    else if !Ascii7(t) || (IsBlank(s[|s| - 1]) && IsBlank(s[|s| - 2])) then Overrun
    else
      var n := 3 * (|t| / 4) - PadAt(s, if IsBlank(s[|s| - 1]) then |s| - 1 else |s|);
      Text(seq(n, j requires 0 <= j < n => ByteAt(t, j)))
  }

  // ---------- the round trip ----------

  lemma {:induction false} StripJoins(a: bytes, b: bytes)
    ensures Strip(a + b) == Strip(a) + Strip(b)
    decreases |a|
  {
    if a == [] {
      assert a + b == b;
    } else {
      assert (a + b)[1..] == a[1..] + b;
      StripJoins(a[1..], b);
    }
  }

  lemma {:induction false} StripSame(s: bytes)
    requires forall i :: 0 <= i < |s| ==> !IsBlank(s[i])
    ensures Strip(s) == s
  {
    if s != [] {
      StripSame(s[1..]);
      assert [s[0]] + s[1..] == s;
    }
  }

  lemma CharsPlain(s: bytes)
    ensures forall k :: 0 <= k < |Chars(s)| ==> !IsBlank(Chars(s)[k]) && Chars(s)[k] < 128 && Chars(s)[k] != NUL
  {
    forall k | 0 <= k < |Chars(s)| ensures !IsBlank(Chars(s)[k]) && Chars(s)[k] < 128 && Chars(s)[k] != NUL {
      ValueOfCode(Sextet(s, k));
    }
  }

  lemma CharAt(s: bytes, k: nat)
    requires k < 4 * Groups(|s|)
    ensures Chars(s)[k] == if k >= 4 * Groups(|s|) - PadCount(|s|) then PAD else Code(Sextet(s, k))
  {
  }

  // A line is a whole number of groups, so cutting into lines changes no character.
  lemma CharsJoin(s: bytes)
    requires |s| > LINE
    ensures Chars(s) == Chars(s[..LINE]) + Chars(s[LINE..])
  {
    hide Code, Sextet, Chars;
    var a, b := s[..LINE], s[LINE..];
    assert Groups(|s|) == 19 + Groups(|b|) && PadCount(|s|) == PadCount(|b|) && PadCount(|a|) == 0;
    forall k | 0 <= k < |Chars(s)| ensures Chars(s)[k] == (Chars(a) + Chars(b))[k] {
      CharAt(s, k);
      if k < LINE_CHARS {
        LineSextet(s, k);
        CharAt(a, k);
      } else {
        RestSextet(s, k - LINE_CHARS);
        CharAt(b, k - LINE_CHARS);
      }
    }
  }

  lemma LineSextet(s: bytes, k: nat)
    requires |s| > LINE && k < LINE_CHARS
    ensures Sextet(s, k) == Sextet(s[..LINE], k)
  {
  }

  lemma RestSextet(s: bytes, k: nat)
    requires |s| > LINE
    ensures Sextet(s, k + LINE_CHARS) == Sextet(s[LINE..], k)
  {
    hide Six;
    assert (k + LINE_CHARS) / 4 == k / 4 + 19 && (k + LINE_CHARS) % 4 == k % 4;
    var i := 3 * (k / 4);
    assert forall d: nat :: At(s, LINE + d) == At(s[LINE..], d);
    assert At(s, LINE + i) == At(s[LINE..], i) && At(s, LINE + (i + 1)) == At(s[LINE..], i + 1)
      && At(s, LINE + (i + 2)) == At(s[LINE..], i + 2);
  }

  /** The text without its line breaks, and how it ends. */
  lemma {:induction false} EncodedShape(s: bytes)
    requires s != []
    ensures var e := Encoded(s);
      && Strip(e) == Chars(s) && |e| > 4 && NulFree(e) && |Chars(s)| >= 4
      && e[|e| - 1] == LF && e[|e| - 2] == Chars(s)[|Chars(s)| - 1] && e[|e| - 3] == Chars(s)[|Chars(s)| - 2]
    decreases |s|
  {
    hide Chars, Strip, Encoded, Groups;
    if |s| <= LINE {
      EncodedRest(s);
      LineShape(s);
    } else {
      var line, rest := s[..LINE], s[LINE..];
      EncodedLine(s);
      LineShape(line);
      EncodedShape(rest);
      CharsJoin(s);
      StripJoins(Chars(line) + [LF], Encoded(rest));
    }
  }

  lemma LineShape(line: bytes)
    requires line != []
    ensures Strip(Chars(line) + [LF]) == Chars(line) && |Chars(line)| >= 4 && NulFree(Chars(line) + [LF])
  {
    hide Chars;
    CharsPlain(line);
    StripSame(Chars(line));
    StripJoins(Chars(line), [LF]);
    assert [LF][1..] == [] && Strip([LF]) == [];
    assert Chars(line) + [] == Chars(line);
  }

  lemma SixThree(a: byte, b: byte, c: byte)
    ensures Three(Six(a, b, c, 0), Six(a, b, c, 1), Six(a, b, c, 2), Six(a, b, c, 3), 0) == a
    ensures Three(Six(a, b, c, 0), Six(a, b, c, 1), Six(a, b, c, 2), Six(a, b, c, 3), 1) == b
    ensures Three(Six(a, b, c, 0), Six(a, b, c, 1), Six(a, b, c, 2), Six(a, b, c, 3), 2) == c
  {
  }

  // The first byte of a group depends on two characters, the second on three.
  lemma ThreeDepends(c1: byte, c2: byte, c3: byte, c4: byte, d3: byte, d4: byte)
    ensures Three(c1, c2, c3, c4, 0) == Three(c1, c2, d3, d4, 0)
    ensures Three(c1, c2, c3, c4, 1) == Three(c1, c2, c3, d4, 1)
  {
  }

  lemma CharValue(s: bytes, g: nat, m: nat)
    requires m < 4 && 4 * g + m < 4 * Groups(|s|) - PadCount(|s|)
    ensures Value(Chars(s)[4 * g + m]) == Six(At(s, 3 * g), At(s, 3 * g + 1), At(s, 3 * g + 2), m)
  {
    hide Code, Value, Six, At, Chars;
    CharAt(s, 4 * g + m);
    assert (4 * g + m) / 4 == g && (4 * g + m) % 4 == m;
    ValueOfCode(Sextet(s, 4 * g + m));
  }

  lemma ByteOfChars(s: bytes, j: nat)
    requires j < |s|
    ensures 4 * (j / 3) + 3 < |Chars(s)| && ByteAt(Chars(s), j) == s[j]
  {
    hide Code, Value, Six, Three, Chars, Groups, PadCount;
    var t, g, r := Chars(s), j / 3, j % 3;
    var q, a, b, c := 4 * g, At(s, 3 * g), At(s, 3 * g + 1), At(s, 3 * g + 2);
    GroupOf(|s|, j);
    CharValue(s, g, 0);
    CharValue(s, g, 1);
    if r >= 1 {
      CharValue(s, g, 2);
    }
    if r == 2 {
      CharValue(s, g, 3);
    }
    SixThree(a, b, c);
    var v1, v2, v3, v4 := Six(a, b, c, 0), Six(a, b, c, 1), Six(a, b, c, 2), Six(a, b, c, 3);
    assert Value(t[q]) == v1 && Value(t[q + 1]) == v2;
    ThreeDepends(v1, v2, Value(t[q + 2]), Value(t[q + 3]), v3, v4);
    assert s[j] == if r == 0 then a else if r == 1 then b else c;
    assert ByteAt(t, j) == Three(v1, v2, Value(t[q + 2]), Value(t[q + 3]), r);
  }

  // Which characters a byte depends on are no padding.
  lemma GroupOf(n: nat, j: nat)
    requires j < n
    ensures var g, r := j / 3, j % 3;
      4 * g + (if r == 0 then 1 else r + 1) < 4 * Groups(n) - PadCount(n) && 4 * g + 3 < 4 * Groups(n)
  {
  }

  /** Decoding undoes encoding for exactly the strings that are not empty: the empty
      string is encoded as an empty text, which is refused. */
  lemma Base64RoundTrip(s: bytes)
    ensures Decode(Encoded(s)) == Text(s) <==> s != []
    ensures s == [] ==> Decode(Encoded(s)) == Null
  {
    hide Strip, ByteAt, Code, Value, Chars;
    if s != [] {
      EncodedShape(s);
      CharsPlain(s);
      var e, t := Encoded(s), Chars(s);
      PadOfChars(s);
      assert PadAt(e, |e| - 1) == PadAt(t, |t|);
      assert IsBlank(LF) && !IsBlank(e[|e| - 2]);
      forall j | 0 <= j < |s| ensures 4 * (j / 3) + 3 < |t| && ByteAt(t, j) == s[j] {
        ByteOfChars(s, j);
      }
      DecodeIs(e, t, s);
    }
  }

  lemma DecodeIs(e: bytes, t: bytes, s: bytes)
    requires t == Strip(e) && |e| > 1 && |t| % 4 == 0 && t != [] && Ascii7(t) && e[|e| - 1] == LF
      && !IsBlank(e[|e| - 2])
    requires 3 * (|t| / 4) - PadAt(e, |e| - 1) == |s|
    requires |e| > 2 && forall j :: 0 <= j < |s| ==> 4 * (j / 3) + 3 < |t| && ByteAt(t, j) == s[j]
    ensures Decode(e) == Text(s)
  {
    hide Strip, ByteAt, PadAt, Ascii7;
  }

  lemma PadOfChars(s: bytes)
    requires s != []
    ensures var t := Chars(s); PadAt(t, |t|) == PadCount(|s|) && 3 * (|t| / 4) - PadCount(|s|) == |s|
  {
    hide Chars, Code, Sextet, Value, Groups;
    var t := Chars(s);
    PadLength(|s|);
    CharAt(s, |t| - 1);
    CharAt(s, |t| - 2);
    ValueOfCode(Sextet(s, |t| - 1));
    ValueOfCode(Sextet(s, |t| - 2));
  }

  lemma PadLength(n: nat)
    requires n > 0
    ensures Groups(n) > 0 && 3 * Groups(n) - PadCount(n) == n
  {
  }

  // ---------- encoding into a buffer ----------

  lemma {:induction false} EncodedSize(s: bytes)
    requires s != []
    ensures |Encoded(s)| == 4 * Groups(|s|) + (|s| - 1) / LINE + 1
    decreases |s|
  {
    hide Chars;
    if |s| > LINE {
      EncodedSize(s[LINE..]);
      LinesMore(|s|);
    }
  }

  lemma LinesMore(n: nat)
    requires n > LINE
    ensures Groups(n) == Groups(n - LINE) + 19 && (n - 1) / LINE == (n - LINE - 1) / LINE + 1
  {
  }

  // What is allocated for some data.
  function Allocated(n: nat): nat { n * 4 / 3 + n / LINE + 2 + 3 }

  /** The text and its terminator fit what is allocated, and fill it exactly for lengths
      that leave a remainder of one. */
  lemma FitsTightly(s: bytes)
    requires s != []
    ensures |Encoded(s)| + 1 <= Allocated(|s|)
    ensures |Encoded(s)| + 1 == Allocated(|s|) <==> |s| % 3 == 1
  {
    EncodedSize(s);
    hide Encoded;
    TightBound(|s|);
  }

  lemma TightBound(n: nat)
    requires n > 0
    ensures 4 * Groups(n) + (n - 1) / LINE + 2 <= Allocated(n)
    ensures 4 * Groups(n) + (n - 1) / LINE + 2 == Allocated(n) <==> n % 3 == 1
  {
    var m, r := n / 3, n % 3;
    assert n == 3 * m + r && n * 4 / 3 == 4 * m + (4 * r) / 3;
    var l := (n - 1) / LINE;
    if n % LINE == 0 {
      assert n == LINE * (l + 1) && n / LINE == l + 1;
    } else {
      assert n / LINE == l;
    }
  }

  // The six bit values of whole groups of three bytes.
  method WriteSextets(ret: array<byte>, J: nat, o: bytes, groups: nat)
    requires 3 * groups <= |o| && J + 4 * groups <= ret.Length
    modifies ret
    ensures forall k :: J <= k < J + 4 * groups ==> ret[k] == Sextet(o, k - J)
    ensures forall k :: 0 <= k < ret.Length && !(J <= k < J + 4 * groups) ==> ret[k] == old(ret[k])
  {
    var i, j := 0, 0;
    while i < 3 * groups
      invariant i == 3 * (j / 4) && j % 4 == 0 && 0 <= j <= 4 * groups
      invariant forall k :: J <= k < J + j ==> ret[k] == Sextet(o, k - J)
      invariant forall k :: 0 <= k < ret.Length && !(J <= k < J + j) ==> ret[k] == old(ret[k])
    {
      PutGroup(ret, J + j, o[i], o[i + 1], o[i + 2]);
      GroupSextets(o, j / 4);
      i, j := i + 3, j + 4;
    }
  }

  method PutGroup(ret: array<byte>, j: nat, a: byte, b: byte, c: byte)
    requires j + 4 <= ret.Length
    modifies ret
    ensures ret[j] == Six(a, b, c, 0) && ret[j + 1] == Six(a, b, c, 1) && ret[j + 2] == Six(a, b, c, 2)
      && ret[j + 3] == Six(a, b, c, 3)
    ensures forall k :: 0 <= k < ret.Length && !(j <= k < j + 4) ==> ret[k] == old(ret[k])
  {
    ret[j] := (a >> 2) & 0x3F;
    ret[j + 1] := ((a << 4) & 0x30) + ((b >> 4) & 0x0F);
    ret[j + 2] := ((b << 2) & 0x3C) + ((c >> 6) & 0x03);
    ret[j + 3] := c & 0x3F;
  }

  lemma GroupSextets(o: bytes, g: nat)
    ensures var a, b, c := At(o, 3 * g), At(o, 3 * g + 1), At(o, 3 * g + 2);
      && Sextet(o, 4 * g) == Six(a, b, c, 0) && Sextet(o, 4 * g + 1) == Six(a, b, c, 1)
      && Sextet(o, 4 * g + 2) == Six(a, b, c, 2) && Sextet(o, 4 * g + 3) == Six(a, b, c, 3)
  {
    hide Six, At;
  }

  // The values become characters.
  method Translate(ret: array<byte>, J: nat, n: nat, ghost o: bytes)
    requires J + n <= ret.Length && forall k :: J <= k < J + n ==> ret[k] == Sextet(o, k - J)
    modifies ret
    ensures forall k :: J <= k < J + n ==> ret[k] == Code(Sextet(o, k - J))
    ensures forall k :: 0 <= k < ret.Length && !(J <= k < J + n) ==> ret[k] == old(ret[k])
  {
    hide Code, Sextet;
    for i := 0 to n
      invariant forall k :: J <= k < J + i ==> ret[k] == Code(Sextet(o, k - J))
      invariant forall k :: 0 <= k < ret.Length && !(J <= k < J + i) ==> ret[k] == old(ret[k])
    {
      ret[J + i] := Code(ret[J + i]);
    }
  }

  // One full line and its new line.
  method EncodeLine(ret: array<byte>, J: nat, o: bytes)
    requires |o| >= LINE && J + LINE_CHARS + 2 <= ret.Length
    modifies ret
    ensures ret[..J + LINE_CHARS + 1] == old(ret[..J]) + (Chars(o[..LINE]) + [LF])
  {
    hide Sextet, Code, Chars;
    WriteSextets(ret, J, o, 19);
    Translate(ret, J, LINE_CHARS, o);
    ret[J + LINE_CHARS] := LF;
    ret[J + LINE_CHARS + 1] := NUL;
    LineChars(o);
    ghost var line := Chars(o[..LINE]);
    assert ret[J..J + LINE_CHARS] == line;
    assert ret[..J] == old(ret[..J]);
    assert ret[..J + LINE_CHARS + 1] == ret[..J] + (ret[J..J + LINE_CHARS] + [LF]);
  }

  lemma LineChars(o: bytes)
    requires |o| >= LINE
    ensures var l := Chars(o[..LINE]); |l| == LINE_CHARS && forall k ::
      0 <= k < LINE_CHARS ==> l[k] == Code(Sextet(o, k))
  {
    hide Code, Sextet;
    var l := o[..LINE];
    forall k | 0 <= k < LINE_CHARS ensures Chars(l)[k] == Code(Sextet(o, k)) {
      CharAt(l, k);
      if |o| > LINE {
        LineSextet(o, k);
      } else {
        assert l == o;
      }
    }
  }

  // The rest, at most one line, with its padding.
  method EncodeLast(ret: array<byte>, J: nat, o: bytes, length: nat)
    requires 0 < |o| <= LINE && length % 3 == |o| % 3 && J + 4 * Groups(|o|) + 2 <= ret.Length
    modifies ret
    ensures ret[..J + 4 * Groups(|o|) + 1] == old(ret[..J]) + (Chars(o) + [LF]) && ret[J + 4 * Groups(|o|) + 1] == NUL
  {
    hide Sextet, Code, Chars, Six;
    var groups := Groups(|o|) - 1;
    WriteSextets(ret, J, o, groups);
    var i, j := 3 * groups, 4 * groups;
    var a := if i < |o| then o[i] else 0;
    var b := if i + 1 < |o| then o[i + 1] else 0;
    var c := if i + 2 < |o| then o[i + 2] else 0;
    PutGroup(ret, J + j, a, b, c);
    GroupSextets(o, groups);
    Translate(ret, J, j + 4, o);
    EndLast(ret, J, o, length);
    assert ret[..J + 4 * Groups(|o|) + 1][..J] == ret[..J] == old(ret[..J]);
  }

  method EndLast(ret: array<byte>, J: nat, o: bytes, length: nat)
    requires o != [] && length % 3 == |o| % 3 && J + 4 * Groups(|o|) + 2 <= ret.Length
    requires forall k :: J <= k < J + 4 * Groups(|o|) ==> ret[k] == Code(Sextet(o, k - J))
    modifies ret
    ensures ret[..J + 4 * Groups(|o|) + 1] == old(ret[..J]) + (Chars(o) + [LF]) && ret[J + 4 * Groups(|o|) + 1] == NUL
  {
    hide Sextet, Code, Chars;
    var j := 4 * Groups(|o|);
    if length % 3 == 1 {
      ret[J + j - 1] := PAD;
      ret[J + j - 2] := PAD;
    }
    if length % 3 == 2 {
      ret[J + j - 1] := PAD;
    }
    ret[J + j] := LF;
    j := j + 1;
    ret[J + j] := NUL;
    assert ret[J..J + j - 1] == Chars(o) by {
      var text := ret[J..J + j - 1];
      forall k | 0 <= k < |text| ensures k < |Chars(o)| && text[k] == Chars(o)[k] {
        CharAt(o, k);
        assert text[k] == ret[J + k];
      }
    }
    assert ret[..J] == old(ret[..J]);
    assert ret[..J + j] == ret[..J] + (ret[J..J + j - 1] + [LF]);
  }

  method Allocate(length: nat) returns (ret: array<byte>)
    ensures fresh(ret) && ret.Length == Allocated(length) > 0
  {
    ret := new byte[(length * 4) / 3 + length / 57 + 2 + 3];
  }

  /** The result is the encoded text and its terminator. Every write is within what was
      allocated. */
  method Encode(orig: bytes) returns (ret: array<byte>)
    ensures fresh(ret) && ret.Length == Allocated(|orig|) && |Encoded(orig)| < ret.Length
    ensures ret[..|Encoded(orig)|] == Encoded(orig) && ret[|Encoded(orig)|] == NUL
  {
    hide Encoded, Chars, PadCount, Allocated, Groups;
    var length := |orig|;
    ret := Allocate(length);
    if length == 0 {
      ret[0] := NUL;
      NothingEncoded();
      return;
    }
    FitsTightly(orig);
    var I: nat, J: nat := 0, 0;
    assert orig[0..] == orig && ret[..0] == [];
    AllLeft(orig);
    while I < length - 57
      invariant J <= ret.Length && I < length && I % 3 == 0 && HalfEncoded(orig, ret[..J], I)
    {
      NextLine(orig, ret[..J], I);
      EncodeLine(ret, J, orig[I..]);
      I, J := I + 57, J + 77;
    }
    LastLine(orig, ret[..J], I);
    EncodeLast(ret, J, orig[I..], length);
  }

  // The text so far, and the data it stands for.
  ghost predicate HalfEncoded(orig: bytes, text: bytes, I: nat) {
    I <= |orig| && text + Encoded(orig[I..]) == Encoded(orig)
  }

  lemma AllLeft(orig: bytes)
    ensures HalfEncoded(orig, [], 0)
  {
    hide Encoded;
    assert orig[0..] == orig;
  }

  lemma NextLine(orig: bytes, text: bytes, I: nat)
    requires I + LINE < |orig| && HalfEncoded(orig, text, I)
    ensures HalfEncoded(orig, text + (Chars(orig[I..][..LINE]) + [LF]), I + LINE)
    ensures |text| + LINE_CHARS + 2 <= |Encoded(orig)|
  {
    hide Encoded, Chars;
    var o := orig[I..];
    EncodedLine(o);
    assert o[LINE..] == orig[I + LINE..];
    Assoc(text, Chars(o[..LINE]) + [LF], Encoded(orig[I + LINE..]));
  }

  lemma LastLine(orig: bytes, text: bytes, I: nat)
    requires I < |orig| <= I + LINE && HalfEncoded(orig, text, I)
    ensures Encoded(orig) == text + (Chars(orig[I..]) + [LF])
  {
    EncodedRest(orig[I..]);
  }

  lemma NothingEncoded()
    ensures Encoded([]) == []
  {
  }

  lemma EncodedLine(s: bytes)
    requires |s| > LINE
    ensures Encoded(s) == Chars(s[..LINE]) + [LF] + Encoded(s[LINE..])
    ensures |Chars(s[..LINE])| == LINE_CHARS && |Encoded(s[LINE..])| > 1
  {
    EncodedSize(s[LINE..]);
  }

  lemma EncodedRest(s: bytes)
    requires 0 < |s| <= LINE
    ensures Encoded(s) == Chars(s) + [LF]
  {
  }

  // ---------- decoding from a buffer ----------

  lemma StripNext(s: bytes, i: nat)
    requires i < |s|
    ensures Strip(s[i..]) == if IsBlank(s[i]) then Strip(s[i + 1..]) else [s[i]] + Strip(s[i + 1..])
  {
    assert s[i..][1..] == s[i + 1..];
  }

  lemma StripNone()
    ensures Strip([]) == []
  {
  }

  // The value of the next character that is not blank, and where it ends. There may be none,
  // or one behind the end of the table.
  method GetNext(orig: bytes, start: nat) returns (v: byte, I: nat, ok: bool)
    requires start <= |orig| && NulFree(orig)
    ensures ok ==>
      && start < I <= |orig| && !IsBlank(orig[I - 1]) && orig[I - 1] < 128 && v == Value(orig[I - 1])
      && Strip(orig[start..]) == [orig[I - 1]] + Strip(orig[I..])
    ensures !ok ==> Strip(orig[start..]) == [] || Strip(orig[start..])[0] >= 128
  {
    hide Strip, IsBlank, Value;
    I := start;
    while I < |orig| && IsBlank(orig[I])
      invariant start <= I <= |orig| && Strip(orig[start..]) == Strip(orig[I..])
    {
      StripNext(orig, I);
      I := I + 1;
    }
    if I == |orig| {
      assert orig[I..] == [];
      StripNone();
      return NONE, I, false;
    }
    StripNext(orig, I);
    var c := orig[I];
    I := I + 1;
    if c >= 128 {
      return NONE, I, false;
    }
    return Value(c), I, true;
  }

  // Four of them; without four the text is not decoded.
  method GetGroup(orig: bytes, start: nat, ghost t: bytes, ghost k: nat) returns (c: seq<byte>, I: nat, ok: bool)
    requires start <= |orig| && NulFree(orig) && t == Strip(orig) && k <= |t| && Strip(orig[start..]) == t[k..]
    requires |orig| > 1 && t != [] && |t| % 4 == 0 && k % 4 == 0 && start < |orig| - 1
    ensures ok ==>
      && k + 4 <= |t| && |c| == 4 && (forall m {:trigger c[m]} :: 0 <= m < 4 ==> c[m] == Value(t[k + m]))
      && (forall i :: k <= i < k + 4 ==> t[i] < 128)
      && start + 4 <= I <= |orig| && !IsBlank(orig[I - 1]) && Strip(orig[I..]) == t[k + 4..]
    ensures !ok ==> Decode(orig) == Overrun
  {
    hide Strip, IsBlank, Value, Decode;
    if k == |t| {
      StripEmpty(orig, start, |orig| - 1);
      StripEmpty(orig, start, |orig| - 2);
    }
    c, I, ok := [], start, true;
    for m := 0 to 4
      invariant ok && |c| == m && start + m <= I <= |orig| && (m > 0 ==> k + 4 <= |t| && !IsBlank(orig[I - 1]))
      invariant k + m <= |t| && Strip(orig[I..]) == t[k + m..]
      invariant (forall i {:trigger c[i]} :: 0 <= i < m ==> c[i] == Value(t[k + i])) && forall i ::
        k <= i < k + m ==> t[i] < 128
    {
      var v;
      v, I, ok := GetNext(orig, I);
      if !ok {
        DecodeOverrun(orig, t, k + m);
        return;
      }
      assert t[k + m] == t[k + m..][0] == ([orig[I - 1]] + Strip(orig[I..]))[0];
      assert t[k + m..][1..] == t[k + m + 1..];
      c := c + [v];
    }
  }

  /** The decoded bytes, without reading or writing outside unless the text makes the
      original do so. */
  method DecodeText(orig: bytes) returns (r: Decoded)
    requires NulFree(orig)
    ensures r == Decode(orig)
  {
    hide Strip, IsBlank, Value, ByteAt, Three, Decode, PadAt;
    var L := |orig|;
    ghost var t := Strip(orig);
    if 0 >= L - 1 {
      DecodeNull(orig);
      return Null;
    }
    var ol := CountChars(orig);
    if ol % 4 != 0 {
      DecodeNull(orig);
      return Null;
    }
    if ol == 0 {
      DecodeBlank(orig);
      return Blank;
    }
    r := DecodeGroups(orig, ol);
  }

  // The groups of four characters one after another.
  // The first J bytes are those the text stands for.
  ghost predicate Reads(t: bytes, out: bytes, J: nat) {
    J <= |out| && forall j :: 0 <= j < J ==> 4 * (j / 3) + 3 < |t| && out[j] == ByteAt(t, j)
  }

  // The three bytes of a group.
  method PutThree(ret: array<byte>, J: nat, c: seq<byte>, ghost t: bytes)
    requires J + 3 <= ret.Length && J % 3 == 0 && Reads(t, ret[..], J) && 4 * (J / 3) + 4 <= |t| && |c| == 4
    requires forall m {:trigger c[m]} :: 0 <= m < 4 ==> c[m] == Value(t[4 * (J / 3) + m])
    modifies ret
    ensures Reads(t, ret[..], J + 3)
  {
    hide Value, Three, ByteAt;
    BytesOfGroup(t, J, c);
    ret[J] := Three(c[0], c[1], c[2], c[3], 0);
    ret[J + 1] := Three(c[0], c[1], c[2], c[3], 1);
    ret[J + 2] := Three(c[0], c[1], c[2], c[3], 2);
  }

  method DecodeGroups(orig: bytes, ol: nat) returns (r: Decoded)
    requires NulFree(orig) && ol == |Strip(orig)| && |orig| > 1 && ol > 0 && ol % 4 == 0
    ensures r == Decode(orig)
  {
    hide Strip, IsBlank, Value, Decode, PadAt, Reads;
    var L := |orig|;
    ghost var t := Strip(orig);
    var ret := new byte[ol * 3 / 4 + 4];
    assert orig[0..] == orig;
    var I: nat, J: nat := 0, 0;
    ReadsNothing(t, ret[..]);
    while I < L - 1
      invariant I <= L && J % 3 == 0 && 4 * (J / 3) <= |t| && Strip(orig[I..]) == t[4 * (J / 3)..]
      invariant (J == 0 ==> I == 0) && (J > 0 ==> I >= 2 && !IsBlank(orig[I - 1]))
      invariant forall k :: 0 <= k < 4 * (J / 3) ==> t[k] < 128
      invariant Reads(t, ret[..], J)
      decreases L - I
    {
      var c, ok;
      c, I, ok := GetGroup(orig, I, t, 4 * (J / 3));
      if !ok {
        return Overrun;
      }
      PutThree(ret, J, c, t);
      J := J + 3;
    }
    AllRead(orig, t, I, 4 * (J / 3));
    ReadsAll(t, ret[..], J);
    var ll := EndText(ret, orig, I, J);
    DecodeIsText(orig, t, I, ret[..ll]);
    r := Text(ret[..ll]);
  }

  lemma ReadsNothing(t: bytes, out: bytes)
    ensures Reads(t, out, 0)
  {
  }

  lemma ReadsAll(t: bytes, out: bytes, J: nat)
    requires Reads(t, out, J)
    ensures J <= |out| && forall j :: 0 <= j < J ==> 4 * (j / 3) + 3 < |t| && out[j] == ByteAt(t, j)
  {
  }

  // The decoded length, with the padding taken off, and the terminator.
  method EndText(ret: array<byte>, orig: bytes, I: nat, J: nat) returns (ll: nat)
    requires 3 <= J < ret.Length && 2 <= I <= |orig|
    modifies ret
    ensures ll == J - PadAt(orig, I) && ret[..ll] == old(ret[..ll])
  {
    ll := J;
    ret[J] := NUL;
    if orig[I - 2] == PAD {
      ll := ll - 2;
    } else if orig[I - 1] == PAD {
      ll := ll - 1;
    }
    ret[ll] := NUL;
  }

  method CountChars(orig: bytes) returns (ol: nat)
    ensures ol == |Strip(orig)|
  {
    hide Strip;
    ol := 0;
    assert orig[0..] == orig;
    for i := 0 to |orig|
      invariant ol + |Strip(orig[i..])| == |Strip(orig)|
    {
      StripNext(orig, i);
      if !IsBlank(orig[i]) {
        ol := ol + 1;
      }
    }
    assert orig[|orig|..] == [];
    StripNone();
  }

  lemma BytesOfGroup(t: bytes, J: nat, c: seq<byte>)
    requires J % 3 == 0 && 4 * (J / 3) + 4 <= |t| && |c| == 4
    requires forall m {:trigger c[m]} :: 0 <= m < 4 ==> c[m] == Value(t[4 * (J / 3) + m])
    ensures ByteAt(t, J) == Three(c[0], c[1], c[2], c[3], 0)
    ensures ByteAt(t, J + 1) == Three(c[0], c[1], c[2], c[3], 1)
    ensures ByteAt(t, J + 2) == Three(c[0], c[1], c[2], c[3], 2)
  {
    hide Value, Three;
    assert (J + 1) / 3 == J / 3 && (J + 2) / 3 == J / 3;
    assert c[0] == Value(t[4 * (J / 3) + 0]);
  }

  // The loop ends behind the last character, or before a last blank.
  lemma AllRead(s: bytes, t: bytes, I: nat, k: nat)
    requires t == Strip(s) && |s| > 1 && t != [] && |t| % 4 == 0 && k % 4 == 0 && k <= |t| && |s| - 1 <= I <= |s|
    requires Strip(s[I..]) == t[k..]
    ensures k == |t| && (I < |s| ==> IsBlank(s[|s| - 1]))
  {
    hide IsBlank;
    if I < |s| {
      StripNext(s, I);
      assert s[I + 1..] == [];
    } else {
      assert s[I..] == [];
    }
    StripNone();
  }

  lemma DecodeIsText(s: bytes, t: bytes, I: nat, data: bytes)
    requires t == Strip(s) && |s| > 1 && t != [] && |t| % 4 == 0 && Ascii7(t) && 2 <= I && |s| - 1 <= I <= |s|
    requires !IsBlank(s[I - 1]) && (I < |s| ==> IsBlank(s[|s| - 1]))
    requires |data| == 3 * (|t| / 4) - PadAt(s, I)
    requires forall j :: 0 <= j < |data| ==> 4 * (j / 3) + 3 < |t| && data[j] == ByteAt(t, j)
    ensures Decode(s) == Text(data)
  {
    hide Strip, ByteAt, PadAt, Ascii7, IsBlank;
  }

  lemma DecodeNull(s: bytes)
    requires |s| <= 1 || |Strip(s)| % 4 != 0
    ensures Decode(s) == Null
  {
  }

  lemma DecodeBlank(s: bytes)
    requires |s| > 1 && Strip(s) == []
    ensures Decode(s) == Blank
  {
  }

  lemma {:induction false} StripEmpty(s: bytes, i: nat, k: nat)
    requires i <= k < |s| && Strip(s[i..]) == []
    ensures IsBlank(s[k])
    decreases k - i
  {
    StripNext(s, i);
    if i < k {
      StripEmpty(s, i + 1, k);
    }
  }

  lemma DecodeOverrun(s: bytes, t: bytes, k: nat)
    requires t == Strip(s) && |s| > 1 && t != [] && |t| % 4 == 0
    requires k < |t| ==> t[k] >= 128
    requires k >= |t| ==> IsBlank(s[|s| - 1]) && IsBlank(s[|s| - 2])
    ensures Decode(s) == Overrun
  {
  }
}
