/** Percent-encoding, and query strings split and decoded in place. */
module Query {
  import opened Wrappers
  import opened AATree
  import M = Multimap
  import opened Bytes
  import D = Dict

  const PERCENT: byte := 0x25
  const PLUS: byte := 0x2B
  const AMP: byte := 0x26
  const EQUALS: byte := 0x3D

  predicate IsAlnum(c: byte) {
    (0x30 <= c <= 0x39) || (0x41 <= c <= 0x5A) || (0x61 <= c <= 0x7A)
  }

  // ---------- the encoder ----------

  function QuoteChar(c: byte): bytes {
    if IsAlnum(c) then [c] else [PERCENT, HexUpper((c >> 4) & 0x0F), HexUpper(c & 0x0F)]
  }

  function Quote(s: bytes): bytes {
    if s == [] then [] else QuoteChar(s[0]) + Quote(s[1..])
  }

  lemma {:induction false} QuoteSnoc(s: bytes, c: byte)
    ensures Quote(s + [c]) == Quote(s) + QuoteChar(c)
  {
    if s == [] {
      assert [c][1..] == [] && Quote([c]) == QuoteChar(c) + [];
    } else {
      assert (s + [c])[1..] == s[1..] + [c];
      QuoteSnoc(s[1..], c);
      Assoc(QuoteChar(s[0]), Quote(s[1..]), QuoteChar(c));
    }
  }

  lemma {:induction false} QuoteGrows(s: bytes, i: nat)
    requires i <= |s|
    ensures |Quote(s)| == |Quote(s[..i])| + |Quote(s[i..])|
    ensures |s| <= |Quote(s)|
    ensures (exists k :: 0 <= k < |s| && !IsAlnum(s[k])) ==> |s| + 2 <= |Quote(s)|
  {
    if i == 0 {
      assert s[..0] == [] && s[0..] == s;
      if s != [] {
        QuoteGrows(s[1..], 0);
        assert forall k :: 0 < k < |s| ==> s[k] == s[1..][k - 1];
      }
    } else {
      QuoteGrows(s[1..], i - 1);
      QuoteGrows(s, 0);
      assert s[1..][..i - 1] == s[..i][1..] && s[1..][i - 1..] == s[i..];
    }
  }

  lemma QuoteStep(s: bytes, i: nat)
    requires i < |s|
    ensures Quote(s[..i + 1]) == Quote(s[..i]) + QuoteChar(s[i])
    ensures |Quote(s[..i + 1])| <= |Quote(s)| && i < |Quote(s)|
    ensures !IsAlnum(s[i]) ==> i + 2 < |Quote(s)|
  {
    assert s[..i + 1] == s[..i] + [s[i]];
    QuoteSnoc(s[..i], s[i]);
    QuoteGrows(s, i + 1);
    QuoteGrows(s, 0);
  }

  /** Fills res with the encoding of str. When maxlength is the exact size, nothing is
      cut off and nothing is written outside. */
  method QuoteInto(str: bytes, res: array<byte>, maxlength: nat) returns (nl: nat)
    requires res.Length == maxlength == |Quote(str)| + 1
    modifies res
    ensures nl == |Quote(str)| && res[..] == Quote(str) + [NUL]
  {
    hide Quote;
    nl := 0;
    var i := 0;
    assert Quote(str[..0]) == [] by {
      EmptyQuote();
    }
    while i < |str|
      invariant 0 <= i <= |str| && nl == |Quote(str[..i])| <= |Quote(str)|
      invariant res[..nl] == Quote(str[..i])
    {
      QuoteStep(str, i);
      if i >= maxlength {
        break;
      }
      var c := str[i];
      if IsAlnum(c) {
        res[nl] := c;
        nl := nl + 1;
      } else {
        if i + 2 >= maxlength {
          break;
        }
        res[nl] := PERCENT;
        res[nl + 1] := HexUpper((c >> 4) & 0x0F);
        res[nl + 2] := HexUpper(c & 0x0F);
        nl := nl + 3;
      }
      i := i + 1;
    }
    assert str[..|str|] == str;
    res[nl] := NUL;
  }

  lemma EmptyQuote()
    ensures Quote([]) == []
  {
  }

  // `onion_quote_new`: it counts first, and then allocates exactly that much.
  method QuoteNew(str: bytes) returns (ret: array<byte>)
    ensures fresh(ret) && ret[..] == Quote(str) + [NUL]
  {
    var nl := 1;
    for i := 0 to |str|
      invariant nl == 1 + |Quote(str[..i])|
    {
      QuoteSnoc(str[..i], str[i]);
      assert str[..i + 1] == str[..i] + [str[i]];
      nl := nl + if !IsAlnum(str[i]) then 3 else 1;
    }
    assert str[..|str|] == str;
    ret := new byte[nl];
    var _ := QuoteInto(str, ret, nl);
  }

  // ---------- the decoder ----------

  predicate IsBlank(c: byte) { c == SPACE || 9 <= c <= 13 }

  /** `strtol` in base 16 on two characters, stored in a byte: digits up to the first
      other character, behind blanks or a sign. */
  function Escaped(a: byte, b: byte): byte {
    var x, y := HexValue(a), HexValue(b);
    if x.Some? then (if y.Some? then 16 * x.value + y.value else x.value)
    else if y.None? then 0
    else if IsBlank(a) || a == PLUS then y.value
    else if a == 0x2D then 0 - y.value
    else 0
  }

  // `strtol` in base 16: blanks, a sign, a prefix, and digits up to the first other character.
  function StrToL16(s: bytes): int
    decreases |s|
  {
    if s == [] then 0
    else if IsBlank(s[0]) then StrToL16(s[1..])
    else if s[0] == 0x2D then -(Base16(Unprefixed(s[1..]), 0) as int)
    else Base16(Unprefixed(if s[0] == 0x2B then s[1..] else s), 0)
  }

  // "0x" counts as a prefix only in front of a digit.
  function Unprefixed(s: bytes): bytes {
    if |s| > 2 && s[0] == 0x30 && s[1] in [0x58, 0x78] && HexValue(s[2]).Some? then s[2..] else s
  }

  function Base16(s: bytes, acc: nat): nat {
    if s == [] || HexValue(s[0]).None? then acc else Base16(s[1..], 16 * acc + HexValue(s[0]).value as nat)
  }

  /** Any two characters behind a percent sign, hexadecimal digits or not. */
  lemma EscapedIsStrToL(a: byte, b: byte)
    requires a != NUL && b != NUL
    ensures Escaped(a, b) as int == StrToL16([a, b]) % 256
  {
    hide HexValue, IsBlank, StrToL16, Base16, Escaped, DigitOf;
    EscapedCases(a, b);
    if HexValue(a).Some? {
      DigitFirst(a, b);
    } else if IsBlank(a) {
      BlankFirst(a, b);
    } else {
      OtherFirst(a, b);
    }
  }

  // What the decoder does with the two.
  lemma EscapedCases(a: byte, b: byte)
    ensures var x, y := DigitOf(a) as int, DigitOf(b) as int;
      && 0 <= x < 16 && 0 <= y < 16
      && Escaped(a, b) as int ==
           if HexValue(a).Some? then (if HexValue(b).Some? then 16 * x + y else x)
           else if IsBlank(a) || a == 0x2B then y
           else if a == 0x2D then -y % 256
           else 0
  {
    hide HexValue, IsBlank;
    NotDigits(a);
    NotDigits(b);
    DigitSums(DigitOf(a), DigitOf(b));
  }

  lemma NotDigits(c: byte)
    ensures HexValue(c).Some? ==> !IsBlank(c) && c != 0x2B && c != 0x2D
    ensures IsBlank(c) ==> c != 0x2B && c != 0x2D
    ensures DigitOf(c) < 16
  {
  }

  lemma DigitSums(x: byte, y: byte)
    requires x < 16 && y < 16
    ensures (16 * x + y) as int == 16 * (x as int) + y as int < 256
    ensures (0 - y) as int == -(y as int) % 256
  {
    var n := y as int;
    assert (0 - y) as int == if n == 0 then 0 else 256 - n;
  }

  lemma DigitFirst(a: byte, b: byte)
    requires HexValue(a).Some?
    ensures StrToL16([a, b]) ==
      if HexValue(b).Some? then 16 * (DigitOf(a) as int) + DigitOf(b) as int else DigitOf(a) as int
  {
    NotDigits(a);
    hide HexValue, IsBlank;
    Base16Two(a, b);
  }

  lemma DigitLast(b: byte)
    ensures StrToL16([b]) == DigitOf(b) as int && Base16([b], 0) == DigitOf(b) as int
  {
    NotDigits(b);
    hide HexValue, IsBlank;
    Base16One(b, 0);
    assert [b][1..] == [] && Base16([], 0) == 0;
  }

  lemma BlankFirst(a: byte, b: byte)
    requires IsBlank(a)
    ensures StrToL16([a, b]) == DigitOf(b) as int
  {
    hide HexValue, IsBlank;
    assert [a, b][1..] == [b];
    DigitLast(b);
  }

  lemma OtherFirst(a: byte, b: byte)
    requires HexValue(a).None? && !IsBlank(a)
    ensures StrToL16([a, b]) == if a == 0x2D then -(DigitOf(b) as int) else if a == 0x2B then DigitOf(b) as int else 0
  {
    hide HexValue, IsBlank;
    assert [a, b][1..] == [b];
    DigitLast(b);
    Base16Two(a, b);
  }

  lemma Base16Two(a: byte, b: byte)
    ensures Base16([a, b], 0) == if HexValue(a).None? then 0
      else if HexValue(b).None? then HexValue(a).value as nat
      else 16 * HexValue(a).value as nat + HexValue(b).value as nat
  {
    hide HexValue;
    assert [a, b][1..] == [b];
    if HexValue(a).Some? {
      Base16One(b, HexValue(a).value as nat);
    }
  }

  lemma Base16One(b: byte, acc: nat)
    ensures Base16([b], acc) == if HexValue(b).Some? then 16 * acc + HexValue(b).value as nat else acc
  {
  }

  /** The decoded text, or None when a percent sign has fewer than two bytes behind it:
      the original reads past the end of the string then. */
  function Unquote(s: bytes): (r: Option<bytes>)
    ensures r.Some? ==> |r.value| <= |s|
  {
    if s == [] then Some([])
    else if s[0] == PERCENT then
      if |s| < 3 then None
      else
        var rest := Unquote(s[3..]);
        if rest.None? then None else Some([Escaped(s[1], s[2])] + rest.value)
    else
      var rest := Unquote(s[1..]);
      if rest.None? then None else Some([if s[0] == PLUS then SPACE else s[0]] + rest.value)
  }

  lemma DecodesEncoded(c: byte)
    ensures Escaped(HexUpper((c >> 4) & 0x0F), HexUpper(c & 0x0F)) == c
  {
  }

  lemma {:induction false} UnquoteQuoted(s: bytes)
    ensures Unquote(Quote(s)) == Some(s)
  {
    if s != [] {
      var q, rest := QuoteChar(s[0]), Quote(s[1..]);
      UnquoteQuoted(s[1..]);
      DecodesEncoded(s[0]);
      assert (q + rest)[|q|..] == rest;
      assert [s[0]] + s[1..] == s;
    }
  }

  // ---------- decoding in place ----------

  // Bytes stand at a position of a buffer, with a NUL behind them.
  ghost predicate Stands(a: bytes, at: nat, s: bytes) {
    && at + |s| < |a| && a[at + |s|] == NUL
    && forall k {:trigger s[k]} :: 0 <= k < |s| ==> a[at + k] == s[k]
  }

  // A C string at a position of a buffer, its terminator included.
  ghost predicate StringAt(a: bytes, at: nat, s: bytes)
    ensures StringAt(a, at, s) ==> at + |s| < |a|
  {
    Stands(a, at, s) && NulFree(s)
  }

  lemma {:induction false} StringAtIsCString(a: bytes, at: nat, s: bytes)
    requires StringAt(a, at, s)
    ensures CString(a[at..]) == s
    decreases |s|
  {
    if s != [] {
      assert a[at + 0] == s[0] && a[at..][1..] == a[at + 1..];
      StringAtIsCString(a, at + 1, s[1..]);
      assert [s[0]] + s[1..] == s;
    }
  }

  // How far decoding has come: the text is read up to r, what it says written up to w,
  // and everything else is as it was.
  ghost predicate Decoding(a: bytes, was: bytes, str: nat, s: bytes, r: nat, w: nat) {
    && |a| == |was| && StringAt(was, str, s) && str <= w <= r <= str + |s|
    && a[..str] == was[..str] && a[r..] == was[r..]
    && Unquote(s).Some? && Unquote(s[r - str..]).Some?
    && a[str..w] + Unquote(s[r - str..]).value == Unquote(s).value
  }

  lemma DecodingStarts(a: bytes, str: nat, s: bytes)
    requires StringAt(a, str, s) && Unquote(s).Some?
    ensures Decoding(a, a, str, s, str, str)
  {
    assert s[0..] == s && a[str..str] == [] && [] + Unquote(s).value == Unquote(s).value;
  }

  lemma DecodingReads(a: bytes, was: bytes, str: nat, s: bytes, r: nat, w: nat)
    requires Decoding(a, was, str, s, r, w)
    ensures w <= r <= str + |s| < |a| && (a[r] == NUL <==> r == str + |s|)
    ensures r < str + |s| && a[r] == PERCENT ==>
      r + 3 <= str + |s| && a[r + 1] == s[r - str + 1] && a[r + 2] == s[r - str + 2]
    ensures r < str + |s| ==> a[r] == s[r - str]
  {
    hide Unquote, NulFree;
    BytesAt(was, str, s);
    assert forall k :: r <= k < |a| ==> a[k] == was[k] by {
      forall k | r <= k < |a| ensures a[k] == was[k] {
        assert a[r..][k - r] == was[r..][k - r];
      }
    }
    if r < str + |s| {
      assert s[r - str] == was[str + (r - str)];
      UnquoteStep(s, r - str);
    }
  }

  // One character more.
  lemma DecodingGoesOn(a: bytes, was: bytes, str: nat, s: bytes, r: nat, w: nat, c: byte, r': nat)
    requires Decoding(a, was, str, s, r, w) && r < str + |s|
    requires r' == if s[r - str] == PERCENT then r + 3 else r + 1
    requires s[r - str] == PERCENT ==> r + 3 <= str + |s| && c == Escaped(s[r - str + 1], s[r - str + 2])
    requires s[r - str] != PERCENT ==> c == if s[r - str] == PLUS then SPACE else s[r - str]
    ensures w < |a| && Decoding(a[w := c], was, str, s, r', w + 1)
  {
    hide Unquote, Escaped, StringAt;
    UnquoteStep(s, r - str);
    var a', rest := a[w := c], Unquote(s[r' - str..]).value;
    assert a'[..str] == a[..str];
    assert a'[r'..] == a[r..][r' - r..] == was[r'..];
    assert a'[str..w + 1] == a[str..w] + [c];
    Assoc(a[str..w], [c], rest);
  }

  lemma DecodingEnds(a: bytes, was: bytes, str: nat, s: bytes, w: nat)
    requires Decoding(a, was, str, s, str + |s|, w)
    ensures w < |a| && var a' := a[w := NUL];
      && a'[..str] == was[..str] && a'[str + |s| + 1..] == was[str + |s| + 1..]
      && Stands(a', str, Unquote(s).value)
  {
    hide Unquote, StringAt, Stands;
    assert s[str + |s| - str..] == [];
    UnquoteEmpty();
    var a' := a[w := NUL];
    assert a[str..w] + [] == a[str..w];
    StandsAt(a', str, a[str..w]);
    assert a'[..str] == a[..str];
    assert a'[str + |s| + 1..] == a[str + |s|..][1..] == was[str + |s|..][1..];
  }

  lemma StandsAt(a: bytes, at: nat, s: bytes)
    requires at + |s| < |a| && a[at..at + |s|] == s && a[at + |s|] == NUL
    ensures Stands(a, at, s)
  {
    forall k | 0 <= k < |s| ensures a[at + k] == s[k] {
      assert a[at..at + |s|][k] == a[at + k];
    }
  }

  // The decoded bytes go where the encoded ones stood, and the write position never
  // passes the read position.
  method UnquoteInplace(a: array<byte>, str: nat, ghost s: bytes)
    requires StringAt(a[..], str, s) && Unquote(s).Some?
    modifies a
    ensures a[..str] == old(a[..str]) && a[str + |s| + 1..] == old(a[str + |s| + 1..])
    ensures Stands(a[..], str, Unquote(s).value)
  {
    hide Unquote, Escaped, Decoding, Stands, StringAt;
    var r, w := str, str;
    ghost var was, end := a[..], str + |s|;
    DecodingStarts(was, str, s);
    DecodingReads(was, was, str, s, r, w);
    while a[r] != NUL
      invariant str <= w <= r <= end < a.Length && (a[r] == NUL <==> r == end)
      invariant Decoding(a[..], was, str, s, r, w)
      decreases end - r
    {
      ghost var now, r0 := a[..], r;
      DecodingReads(now, was, str, s, r, w);
      var c: byte;
      if a[r] == PERCENT {
        c := Escaped(a[r + 1], a[r + 2]);
        r := r + 2;
      } else {
        c := if a[r] == PLUS then SPACE else a[r];
      }
      r := r + 1;
      DecodingGoesOn(now, was, str, s, r0, w, c, r);
      a[w] := c;
      assert a[..] == now[w := c];
      w := w + 1;
      DecodingReads(a[..], was, str, s, r, w);
    }
    DecodingEnds(a[..], was, str, s, w);
    ghost var now := a[..];
    a[w] := NUL;
    assert a[..] == now[w := NUL];
    assert was[..str] == old(a[..str]) && a[..][..str] == a[..str];
    assert was[end + 1..] == old(a[end + 1..]) && a[..][end + 1..] == a[end + 1..];
  }

  lemma BytesAt(a: bytes, at: nat, s: bytes)
    requires StringAt(a, at, s)
    ensures forall k :: 0 <= k < |s| ==> a[at + k] == s[k] && s[k] != NUL
    ensures a[at + |s|] == NUL
  {
  }

  lemma UnquoteEmpty()
    ensures Unquote([]) == Some([])
  {
  }

  lemma UnquoteStep(s: bytes, i: nat)
    requires i < |s| && Unquote(s[i..]).Some?
    ensures s[i] == PERCENT ==> i + 3 <= |s| && Unquote(s[i + 3..]).Some?
    ensures s[i] == PERCENT ==> Unquote(s[i..]).value == [Escaped(s[i + 1], s[i + 2])] + Unquote(s[i + 3..]).value
    ensures s[i] != PERCENT ==> Unquote(s[i + 1..]).Some?
    ensures s[i] != PERCENT ==>
      Unquote(s[i..]).value == [if s[i] == PLUS then SPACE else s[i]] + Unquote(s[i + 1..]).value
  {
    if s[i] == PERCENT {
      assert s[i..][3..] == s[i + 3..];
    } else {
      assert s[i..][1..] == s[i + 1..];
    }
  }

  // ---------- query strings ----------

  // The first position of a byte, or the length.
  function IndexOf(s: bytes, c: byte): (i: nat)
    ensures i <= |s| && (i < |s| ==> s[i] == c)
    ensures forall k :: 0 <= k < i ==> s[k] != c
  {
    if s == [] || s[0] == c then 0 else 1 + IndexOf(s[1..], c)
  }

  // A part between ampersands: a key, and a value behind the first equals sign.
  datatype Raw = Raw(key: bytes, value: Option<bytes>)

  function SplitPart(s: bytes): Raw {
    var e := IndexOf(s, EQUALS);
    if e == |s| then Raw(s, None) else Raw(s[..e], Some(s[e + 1..]))
  }

  /** The parts of a query. An empty part counts, except at the end. */
  function RawPairs(s: bytes): seq<Raw>
    decreases |s|
  {
    var i := IndexOf(s, AMP);
    if i < |s| then [SplitPart(s[..i])] + RawPairs(s[i + 1..])
    else if s == [] then []
    else [SplitPart(s)]
  }

  datatype Pair = Pair(key: bytes, value: bytes)

  // What the dictionary entry of a part reads: C strings, so up to a decoded NUL.
  function Decode(r: Raw): Option<Pair> {
    var k, v := Unquote(r.key), Unquote(if r.value.Some? then r.value.value else []);
    if k.None? || v.None? then None else Some(Pair(CString(k.value), CString(v.value)))
  }

  function DecodeAll(rs: seq<Raw>): Option<seq<Pair>> {
    if rs == [] then Some([])
    else
      var p, rest := Decode(rs[0]), DecodeAll(rs[1..]);
      if p.None? || rest.None? then None else Some([p.value] + rest.value)
  }

  function Entries(ps: seq<Pair>): (r: seq<Entry<bytes, bytes>>)
    ensures |r| == |ps|
  {
    seq(|ps|, i requires 0 <= i < |ps| => Entry(ps[i].key, ps[i].value, 0))
  }

  // Where the two strings of an entry stand in the buffer; a missing value is a
  // constant empty string elsewhere.
  datatype Place = Place(key: nat, value: Option<nat>)

  // Both strings stand in a front part of the buffer.
  ghost predicate Settled(front: bytes, at: Place, p: Pair) {
    && StringAt(front, at.key, p.key)
    && match at.value case Some(v) => StringAt(front, v, p.value) case None => p.value == []
  }

  lemma SettledStays(front: bytes, more: bytes, at: Place, p: Pair)
    requires Settled(front, at, p) && front <= more
    ensures Settled(more, at, p)
  {
  }

  ghost predicate AllSettled(front: bytes, ats: seq<Place>, ps: seq<Pair>) {
    |ats| == |ps| && forall i :: 0 <= i < |ps| ==> Settled(front, ats[i], ps[i])
  }

  lemma AllSettledMore(front: bytes, more: bytes, ats: seq<Place>, ps: seq<Pair>, at: Place, p: Pair)
    requires AllSettled(front, ats, ps) && front <= more && Settled(more, at, p)
    ensures AllSettled(more, ats + [at], ps + [p])
  {
    hide Settled;
    forall i | 0 <= i < |ps| ensures Settled(more, ats[i], ps[i]) {
      SettledStays(front, more, ats[i], ps[i]);
    }
  }

  // Decoded bytes read as a C string.
  lemma DecodedString(a: bytes, at: nat, out: bytes)
    requires Stands(a, at, out)
    ensures StringAt(a, at, CString(out))
  {
    hide CString, NulFree;
    var c := CString(out);
    forall k | 0 <= k < |c| ensures a[at + k] == c[k] {
      assert c[k] == out[k];
    }
  }

  lemma StringAtFront(a: bytes, at: nat, s: bytes, end: nat)
    requires end <= |a|
    requires StringAt(a[..end], at, s) || (StringAt(a, at, s) && at + |s| < end)
    ensures StringAt(a, at, s) && StringAt(a[..end], at, s)
  {
  }

  // Decodes one string where it stands; what the buffer reads there afterwards.
  method UnquoteString(a: array<byte>, str: nat, ghost s: bytes, ghost end: nat)
    requires StringAt(a[..], str, s) && Unquote(s).Some? && end == str + |s| + 1
    modifies a
    ensures a[..str] == old(a[..str]) && a[end..] == old(a[end..])
    ensures StringAt(a[..end], str, CString(Unquote(s).value))
  {
    hide Unquote, NulFree;
    UnquoteInplace(a, str, s);
    ghost var out := Unquote(s).value;
    DecodedString(a[..], str, out);
    StringAtFront(a[..], str, CString(out), end);
    assert a[..][..end] == a[..end];
  }

  // Two buffers agree except on a stretch.
  ghost predicate Outside(a: bytes, b: bytes, from: nat, to: nat) {
    |a| == |b| && forall k :: 0 <= k < |a| && !(from <= k < to) ==> a[k] == b[k]
  }

  // One part is complete: its strings are decoded where they stand.
  method DecodePart(a: array<byte>, key: nat, value: Option<nat>, ghost raw: Raw, ghost end: nat)
      returns (k: bytes, v: bytes)
    requires Decode(raw).Some?
    requires StringAt(a[..], key, raw.key) && (value.Some? <==> raw.value.Some?)
    requires value.Some? ==> value.value == key + |raw.key| + 1 && StringAt(a[..], value.value, raw.value.value)
    requires end == if value.Some? then value.value + |raw.value.value| + 1 else key + |raw.key| + 1
    modifies a
    ensures end <= a.Length && Decode(raw) == Some(Pair(k, v)) && Settled(a[..end], Place(key, value), Pair(k, v))
    ensures Outside(old(a[..]), a[..], key, end)
  {
    hide Unquote, NulFree, CString, StringAt;
    ghost var p := Decode(raw).value;
    ghost var before, keyEnd := a[..], key + |raw.key| + 1;
    UnquoteString(a, key, raw.key, keyEnd);
    ghost var middle := a[..];
    assert StringAt(middle[..keyEnd], key, p.key);
    v := [];
    if value.Some? {
      StringAtTail(before, middle, value.value, raw.value.value, keyEnd);
      UnquoteString(a, value.value, raw.value.value, end);
      v := ReadString(a, value.value, p.value, end);
    } else {
      UnquoteEmpty();
      EmptyCString();
    }
    assert a[..keyEnd] == middle[..keyEnd];
    k := ReadString(a, key, p.key, keyEnd);
    assert a[..keyEnd] == a[..end][..keyEnd];
    StringAtFront(a[..end], key, p.key, keyEnd);
    OutsideParts(before, middle, a[..], key, keyEnd, end);
  }

  // What neither of two steps touches.
  lemma OutsideParts(a: bytes, b: bytes, c: bytes, from: nat, mid: nat, end: nat)
    requires from <= mid <= end <= |a| == |b| == |c|
    requires a[..from] == b[..from] && a[mid..] == b[mid..]
    requires b == c || (b[..mid] == c[..mid] && b[end..] == c[end..])
    ensures Outside(a, c, from, end)
  {
    forall k | 0 <= k < |a| && !(from <= k < end) ensures a[k] == c[k] {
      if k < from {
        assert a[..from][k] == b[..from][k] && (b != c ==> b[..mid][k] == c[..mid][k]);
      } else {
        assert a[mid..][k - mid] == b[mid..][k - mid] && (b != c ==> b[end..][k - end] == c[end..][k - end]);
      }
    }
  }

  // The C string at a position.
  method ReadString(a: array<byte>, at: nat, ghost s: bytes, ghost end: nat) returns (r: bytes)
    requires end <= a.Length && StringAt(a[..end], at, s)
    ensures r == s
  {
    assert a[..][..end] == a[..end];
    StringAtFront(a[..], at, s, end);
    StringAtIsCString(a[..], at, s);
    r := CString(a[at..]);
    assert a[..][at..] == a[at..];
  }

  lemma StringAtTail(a: bytes, b: bytes, at: nat, s: bytes, from: nat)
    requires StringAt(a, at, s) && |a| == |b| && from <= at && from <= |a| && a[from..] == b[from..]
    ensures StringAt(b, at, s)
  {
    hide NulFree;
    forall k | 0 <= k < |s| ensures b[at + k] == s[k] {
      assert b[at + k] == b[from..][at + k - from] == a[from..][at + k - from];
    }
    assert b[at + |s|] == b[from..][at + |s| - from];
  }

  lemma EmptyCString()
    ensures CString([]) == []
  {
  }

  // ---------- a query string to a dictionary ----------

  lemma {:induction false} DecodeAllJoins(a: seq<Raw>, b: seq<Raw>)
    ensures DecodeAll(a + b).Some? <==> DecodeAll(a).Some? && DecodeAll(b).Some?
    ensures DecodeAll(a + b).Some? ==> DecodeAll(a + b).value == DecodeAll(a).value + DecodeAll(b).value
    ensures DecodeAll(a).Some? ==> |DecodeAll(a).value| == |a|
  {
    if a == [] {
      assert a + b == b;
      if DecodeAll(b).Some? {
        assert [] + DecodeAll(b).value == DecodeAll(b).value;
      }
    } else {
      assert (a + b)[1..] == a[1..] + b;
      DecodeAllJoins(a[1..], b);
      if DecodeAll(a + b).Some? {
        Assoc([Decode(a[0]).value], DecodeAll(a[1..]).value, DecodeAll(b).value);
      }
    }
  }

  // The scan stands q bytes into a part; e is the first equals sign, if one was met.
  ghost predicate Scanned(rest: bytes, q: nat, e: Option<nat>) {
    && q <= |rest|
    && (forall k :: 0 <= k < q ==> rest[k] != AMP)
    && match e
       case None => forall k :: 0 <= k < q ==> rest[k] != EQUALS
       case Some(i) => i < q && rest[i] == EQUALS && forall k :: 0 <= k < i ==> rest[k] != EQUALS
  }

  // The part that ends at q.
  ghost function PartAt(rest: bytes, q: nat, e: Option<nat>): Raw
    requires q <= |rest| && (e.Some? ==> e.value < q)
  {
    if e.Some? then Raw(rest[..e.value], Some(rest[e.value + 1..q])) else Raw(rest[..q], None)
  }

  lemma PartScanned(rest: bytes, q: nat, e: Option<nat>)
    requires Scanned(rest, q, e)
    ensures SplitPart(rest[..q]) == PartAt(rest, q, e)
  {
    var part := rest[..q];
    assert forall k :: 0 <= k < q ==> part[k] == rest[k];
    if e.Some? {
      assert IndexOf(part, EQUALS) == e.value;
      assert part[..e.value] == rest[..e.value] && part[e.value + 1..] == rest[e.value + 1..q];
    } else {
      assert IndexOf(part, EQUALS) == q;
    }
  }

  lemma RawsFrom(rest: bytes)
    ensures var i := IndexOf(rest, AMP);
      RawPairs(rest) == if i < |rest| then [SplitPart(rest[..i])] + RawPairs(rest[i + 1..])
                        else if rest == [] then [] else [SplitPart(rest)]
  {
    hide IndexOf, SplitPart;
  }

  lemma PartEnds(rest: bytes, q: nat, e: Option<nat>)
    requires Scanned(rest, q, e)
    requires q < |rest| ==> rest[q] == AMP
    ensures q < |rest| ==> RawPairs(rest) == [PartAt(rest, q, e)] + RawPairs(rest[q + 1..])
    ensures q == |rest| ==> RawPairs(rest) == if rest == [] then [] else [PartAt(rest, q, e)]
  {
    hide RawPairs, SplitPart, PartAt, IndexOf;
    RawsFrom(rest);
    PartScanned(rest, q, e);
    ScanStops(rest, q, e);
    if q == |rest| {
      assert rest[..q] == rest;
    }
  }

  lemma ScanStops(rest: bytes, q: nat, e: Option<nat>)
    requires Scanned(rest, q, e) && (q < |rest| ==> rest[q] == AMP)
    ensures IndexOf(rest, AMP) == q
  {
  }

  lemma ScanSteps(rest: bytes, q: nat, e: Option<nat>)
    requires Scanned(rest, q, e) && q < |rest| && rest[q] != AMP
    ensures Scanned(rest, q + 1, if e.None? && rest[q] == EQUALS then Some(q) else e)
    ensures e.Some? ==> e.value < q
  {
  }

  lemma ScanStarts(rest: bytes)
    ensures Scanned(rest, 0, None)
  {
  }

  // After some of the parts: what they decode to is in the dictionary, and the rest is
  // still to come.
  ghost predicate Halfway(s: bytes, rest: bytes, done: seq<Pair>) {
    && DecodeAll(RawPairs(s)).Some? && DecodeAll(RawPairs(rest)).Some?
    && DecodeAll(RawPairs(s)).value == done + DecodeAll(RawPairs(rest)).value
  }

  lemma HalfwayMore(s: bytes, rest: bytes, raw: Raw, rest': bytes, done: seq<Pair>)
    requires Halfway(s, rest, done) && RawPairs(rest) == [raw] + RawPairs(rest')
    ensures Decode(raw).Some? && Halfway(s, rest', done + [Decode(raw).value])
  {
    hide RawPairs, Decode;
    var t := [raw] + RawPairs(rest');
    assert t[1..] == RawPairs(rest') && t[0] == raw;
    Assoc(done, [Decode(raw).value], DecodeAll(RawPairs(rest')).value);
  }

  lemma InsertOne(cmp: Cmp<bytes>, t: Tree<bytes, bytes>, ps: seq<Pair>, p: Pair)
    ensures M.InsertAll(cmp, t, Entries(ps + [p])) ==
      M.Insert(cmp, M.InsertAll(cmp, t, Entries(ps)), Entry(p.key, p.value, 0))
  {
    hide M.Insert;
    var e := Entry(p.key, p.value, 0);
    assert Entries(ps + [p]) == Entries(ps) + [e];
    M.InsertAllJoins(cmp, t, Entries(ps), [e]);
    M.InsertAllCons(cmp, M.InsertAll(cmp, t, Entries(ps)), e, []);
    M.InsertAllNone(cmp, M.Insert(cmp, M.InsertAll(cmp, t, Entries(ps)), e));
    assert [e] + [] == [e];
  }

  // The buffer while a part that starts at key is read up to p: the text from key on
  // is untouched, but for a NUL over the first equals sign.
  ghost predicate InPart(a: bytes, p0: nat, s: bytes, key: nat, p: nat, e: Option<nat>) {
    && NulFree(s) && p0 <= key <= p <= p0 + |s| < |a| && a[p0 + |s|] == NUL
    && Scanned(s[key - p0..], p - key, e)
    && (e.Some? ==> a[key + e.value] == NUL)
    && forall k {:trigger s[k]} :: key - p0 <= k < |s| && !(e.Some? && p0 + k == key + e.value) ==> a[p0 + k] == s[k]
  }

  lemma PartStarts(a: bytes, p0: nat, s: bytes)
    requires StringAt(a, p0, s)
    ensures InPart(a, p0, s, p0, p0, None)
  {
    assert s[0..] == s;
  }

  // What the next byte does to a part; the caller overwrites an equals sign.
  lemma PartSteps(a: bytes, p0: nat, s: bytes, key: nat, p: nat, e: Option<nat>)
    requires InPart(a, p0, s, key, p, e)
    ensures a[p] == NUL <==> p == p0 + |s|
    ensures a[p] != NUL ==> a[p] == s[key - p0..][p - key]
    ensures a[p] != NUL && a[p] != AMP && !(e.None? && a[p] == EQUALS) ==> InPart(a, p0, s, key, p + 1, e)
    ensures a[p] == EQUALS && e.None? ==> InPart(a[p := NUL], p0, s, key, p + 1, Some(p - key))
  {
    var rest := s[key - p0..];
    hide Scanned;
    if p < p0 + |s| {
      assert rest[p - key] == s[p - p0];
      assert e.Some? ==> e.value < p - key by {
        EqualsBefore(rest, p - key, e);
      }
      if rest[p - key] != AMP {
        ScanSteps(rest, p - key, e);
      }
    } else {
      assert p == p0 + |s|;
    }
  }

  lemma EqualsBefore(rest: bytes, q: nat, e: Option<nat>)
    requires Scanned(rest, q, e)
    ensures q <= |rest| && (e.Some? ==> e.value < q)
  {
  }

  lemma NextPart(a: bytes, b: bytes, p0: nat, s: bytes, key: nat, p: nat, e: Option<nat>)
    requires InPart(a, p0, s, key, p, e) && p < p0 + |s| && Outside(a, b, key, p + 1)
    ensures InPart(b, p0, s, p + 1, p + 1, None)
  {
    EqualsBefore(s[key - p0..], p - key, e);
    ScanStarts(s[p + 1 - p0..]);
    hide Scanned;
  }

  ghost predicate PartFollowed(rest: bytes, q: nat, e: Option<nat>, rest': bytes) {
    Scanned(rest, q, e) && RawPairs(rest) == [PartAt(rest, q, e)] + RawPairs(rest')
  }

  lemma PartFollows(rest: bytes, q: nat, e: Option<nat>, rest': bytes)
    requires PartFollowed(rest, q, e, rest')
    ensures q <= |rest| && (e.Some? ==> e.value < q) && RawPairs(rest) == [PartAt(rest, q, e)] + RawPairs(rest')
  {
  }

  // A finished part stands in the buffer as one or two C strings.
  lemma PartStands(a: bytes, p0: nat, s: bytes, key: nat, p: nat, e: Option<nat>)
    requires InPart(a, p0, s, key, p, e)
    ensures p0 <= key <= p <= p0 + |s| < |a|
    ensures var rest := s[key - p0..];
      && p - key <= |rest| && (e.Some? ==> e.value < p - key)
      && var raw := PartAt(rest, p - key, e);
      && StringAt(a[p := NUL], key, raw.key)
      && (raw.value.Some? <==> e.Some?)
      && |raw.key| == (if e.Some? then e.value else p - key)
      && (e.Some? ==>
            StringAt(a[p := NUL], key + e.value + 1, raw.value.value) && e.value + 1 + |raw.value.value| == p - key)
  {
    var rest, b := s[key - p0..], a[p := NUL];
    EqualsBefore(rest, p - key, e);
    hide Scanned;
    var raw := PartAt(rest, p - key, e);
    forall k | 0 <= k < |raw.key| ensures b[key + k] == raw.key[k] && raw.key[k] != NUL {
      assert raw.key[k] == s[key - p0 + k];
    }
    if e.Some? {
      var v := raw.value.value;
      forall k | 0 <= k < |v| ensures b[key + e.value + 1 + k] == v[k] && v[k] != NUL {
        assert v[k] == s[key - p0 + e.value + 1 + k];
      }
    }
  }

  // A part ends: its strings are decoded in place. Earlier parts still read the same.
  method FinishPart(a: array<byte>, key: nat, value: Option<nat>, ghost p0: nat, ghost s: bytes, ghost p: nat,
                    ghost e: Option<nat>, ghost before: bytes, ghost rest': bytes, ghost done: seq<Pair>,
                    ghost ats: seq<Place>)
    returns (k: bytes, v: bytes)
    requires InPart(before, p0, s, key, p, e) && key <= p < |before| && a[..] == before[p := NUL]
    requires PartFollowed(s[key - p0..], p - key, e, rest')
    requires value == if e.Some? then Some(key + e.value + 1) else None
    requires Halfway(s, s[key - p0..], done) && AllSettled(before[..key], ats, done)
    modifies a
    ensures Halfway(s, rest', done + [Pair(k, v)])
    ensures AllSettled(a[..p + 1], ats + [Place(key, value)], done + [Pair(k, v)])
    ensures Outside(before, a[..], key, p + 1)
  {
    hide *;
    ghost var marked := a[..];
    ghost var raw := PartReady(before, marked, p0, s, key, p, e, rest', done);
    k, v := DecodePart(a, key, value, raw, p + 1);
    assert a[..][..p + 1] == a[..p + 1];
    PartDone(before, marked, a[..], key, value, p, done, ats, Pair(k, v));
  }

  lemma PartReady(a: bytes, b: bytes, p0: nat, s: bytes, key: nat, p: nat, e: Option<nat>, rest': bytes,
      done: seq<Pair>)
    returns (raw: Raw)
    requires InPart(a, p0, s, key, p, e) && p < |a| && b == a[p := NUL]
    requires PartFollowed(s[key - p0..], p - key, e, rest') && Halfway(s, s[key - p0..], done)
    ensures key <= p
    ensures Decode(raw).Some? && Halfway(s, rest', done + [Decode(raw).value])
    ensures StringAt(b, key, raw.key) && (raw.value.Some? <==> e.Some?)
    ensures |raw.key| == if e.Some? then e.value else p - key
    ensures e.Some? ==> StringAt(b, key + e.value + 1, raw.value.value) && e.value + 1 + |raw.value.value| == p - key
  {
    hide *;
    PartStands(a, p0, s, key, p, e);
    var rest := s[key - p0..];
    PartFollows(rest, p - key, e, rest');
    raw := PartAt(rest, p - key, e);
    HalfwayMore(s, rest, raw, rest', done);
  }

  lemma PartDone(before: bytes, marked: bytes, after: bytes, key: nat, value: Option<nat>, p: nat, done: seq<Pair>,
      ats: seq<Place>, pair: Pair)
    requires key <= p < |before| == |after| && marked == before[p := NUL] && Outside(marked, after, key, p + 1)
    requires AllSettled(before[..key], ats, done) && Settled(after[..p + 1], Place(key, value), pair)
    ensures AllSettled(after[..p + 1], ats + [Place(key, value)], done + [pair])
    ensures Outside(before, after, key, p + 1)
  {
    hide *;
    Overwritten(before, p, key, p + 1);
    OutsideJoins(before, marked, after, key, key, p + 1, p + 1);
    FrontKept(before, after, key, p + 1);
    AllSettledMore(before[..key], after[..p + 1], ats, done, Place(key, value), pair);
  }

  lemma FrontKept(a: bytes, b: bytes, from: nat, end: nat)
    requires Outside(a, b, from, end) && from <= end <= |a|
    ensures |a| == |b| && a[..from] <= b[..end]
  {
  }

  lemma SettledNone(front: bytes, s: bytes)
    requires DecodeAll(RawPairs(s)).Some?
    ensures AllSettled(front, [], []) && Halfway(s, s, [])
  {
    var all := DecodeAll(RawPairs(s)).value;
    assert [] + all == all;
  }

  lemma OutsideJoins(a: bytes, b: bytes, c: bytes, from: nat, mid: nat, p: nat, to: nat)
    requires Outside(a, b, from, to) && Outside(b, c, mid, p) && from <= mid && p <= to
    ensures Outside(a, c, from, to)
  {
  }

  lemma HalfwayEnd(s: bytes, rest: bytes, done: seq<Pair>)
    requires Halfway(s, rest, done) && RawPairs(rest) == []
    ensures DecodeAll(RawPairs(s)) == Some(done)
  {
    hide RawPairs;
    assert DecodeAll([]) == Some([]) && done + [] == done;
  }

  lemma NoParts()
    ensures RawPairs([]) == []
  {
  }

  lemma Overwritten(a: bytes, p: nat, from: nat, to: nat)
    requires from <= p < to <= |a|
    ensures Outside(a, a[p := NUL], from, to)
  {
  }

  lemma PartFinishes(a: bytes, p0: nat, s: bytes, key: nat, p: nat, e: Option<nat>)
    requires InPart(a, p0, s, key, p, e) && a[p] == AMP
    ensures p < p0 + |s| && PartFollowed(s[key - p0..], p - key, e, s[p + 1 - p0..])
  {
    hide RawPairs, SplitPart, PartAt, IndexOf, Scanned, NulFree;
    PartSteps(a, p0, s, key, p, e);
    PartEnds(s[key - p0..], p - key, e);
    assert s[key - p0..][p - key + 1..] == s[p + 1 - p0..];
  }

  lemma LastPart(a: bytes, p0: nat, s: bytes, key: nat, p: nat, e: Option<nat>)
    requires InPart(a, p0, s, key, p, e) && p == p0 + |s|
    ensures e.None? && a[key] == NUL ==> RawPairs(s[key - p0..]) == []
    ensures e.Some? || a[key] != NUL ==> PartFollowed(s[key - p0..], p - key, e, [])
  {
    var rest := s[key - p0..];
    PartEnds(rest, p - key, e);
    NoParts();
    EqualsBefore(rest, p - key, e);
    if e.None? && rest != [] {
      assert rest[0] == s[key - p0] && a[key] == s[key - p0];
    }
    assert [PartAt(rest, p - key, e)] + [] == [PartAt(rest, p - key, e)];
  }

  // The settled front is the whole buffer in the end.
  lemma WholeBuffer(a: bytes, key: nat, end: nat, ats: seq<Place>, done: seq<Pair>)
    requires key <= end < |a| && (AllSettled(a[..key], ats, done) || AllSettled(a[..end + 1], ats, done))
    ensures AllSettled(a, ats, done)
  {
    hide Settled;
    var front := if AllSettled(a[..key], ats, done) then a[..key] else a[..end + 1];
    forall i | 0 <= i < |done| ensures Settled(a, ats[i], done[i]) {
      SettledStays(front, a, ats[i], done[i]);
    }
  }

  ghost predicate Holds(d: D.Dict<bytes>, cmp: Cmp<bytes>, t: Tree<bytes, bytes>)
    reads d, if d.root == null then {} else {d.root} + d.root.Repr
  {
    d.Valid() && d.cmp == cmp && d.Value() == t
  }

  lemma HoldsFirst(d: D.Dict<bytes>)
    requires d.Valid()
    ensures Holds(d, d.cmp, M.InsertAll(d.cmp, d.Value(), Entries([])))
  {
    M.InsertAllNone(d.cmp, d.Value());
    assert Entries([]) == [];
  }

  lemma HoldsMeans(d: D.Dict<bytes>, cmp: Cmp<bytes>, t: Tree<bytes, bytes>)
    requires Holds(d, cmp, t)
    ensures d.Valid() && d.cmp == cmp && d.Value() == t
  {
  }

  method AddPair(d: D.Dict<bytes>, k: bytes, v: bytes, ghost cmp: Cmp<bytes>, ghost t: Tree<bytes, bytes>,
      ghost done: seq<Pair>)
    requires Holds(d, cmp, M.InsertAll(cmp, t, Entries(done)))
    modifies d, d.Nodes()
    ensures Holds(d, cmp, M.InsertAll(cmp, t, Entries(done + [Pair(k, v)]))) && fresh(d.Nodes() - old(d.Nodes()))
  {
    hide M.InsertAll, D.Dict.Valid;
    d.Add(Some(k), v, 0);
    InsertOne(cmp, t, done, Pair(k, v));
  }

  // Everything known about the buffer while it is read: parts before key are settled,
  // and nothing outside the text changed.
  ghost predicate Parsing(a0: bytes, a: bytes, p0: nat, s: bytes, key: nat, p: nat, e: Option<nat>, done: seq<Pair>,
      ats: seq<Place>)
    ensures Parsing(a0, a, p0, s, key, p, e, done, ats) ==> p0 <= key <= p <= p0 + |s| < |a|
  {
    && InPart(a, p0, s, key, p, e) && Outside(a0, a, p0, p0 + |s| + 1)
    && Halfway(s, s[key - p0..], done) && AllSettled(a[..key], ats, done)
  }

  ghost predicate Parsed(a0: bytes, a: bytes, p0: nat, s: bytes, done: seq<Pair>, ats: seq<Place>) {
    && DecodeAll(RawPairs(s)) == Some(done) && AllSettled(a, ats, done)
    && Outside(a0, a, p0, p0 + |s| + 1)
  }

  lemma ParsedMeans(a0: bytes, a: bytes, p0: nat, s: bytes, done: seq<Pair>, ats: seq<Place>)
    requires Parsed(a0, a, p0, s, done, ats)
    ensures DecodeAll(RawPairs(s)) == Some(done) && AllSettled(a, ats, done) && Outside(a0, a, p0, p0 + |s| + 1)
  {
  }

  lemma ParsingStarts(a: bytes, p0: nat, s: bytes)
    requires StringAt(a, p0, s) && DecodeAll(RawPairs(s)).Some?
    ensures Parsing(a, a, p0, s, p0, p0, None, [], [])
  {
    hide StringAt, DecodeAll, RawPairs, InPart, Halfway, AllSettled;
    PartStarts(a, p0, s);
    SettledNone(a[..p0], s);
    assert s[0..] == s;
  }

  lemma ParsingSteps(a0: bytes, a: bytes, p0: nat, s: bytes, key: nat, p: nat, e: Option<nat>, done: seq<Pair>,
      ats: seq<Place>)
    requires Parsing(a0, a, p0, s, key, p, e, done, ats)
    ensures a[p] == NUL <==> p == p0 + |s|
    ensures a[p] != NUL && a[p] != AMP && !(e.None? && a[p] == EQUALS) ==>
      Parsing(a0, a, p0, s, key, p + 1, e, done, ats)
    ensures a[p] == EQUALS && e.None? ==> Parsing(a0, a[p := NUL], p0, s, key, p + 1, Some(p - key), done, ats)
  {
    hide InPart, Halfway, AllSettled;
    PartSteps(a, p0, s, key, p, e);
    assert a[..key] == a[p := NUL][..key];
    if p < p0 + |s| {
      Overwritten(a, p, p0, p0 + |s| + 1);
      OutsideJoins(a0, a, a[p := NUL], p0, p0, p0 + |s| + 1, p0 + |s| + 1);
    }
  }

  // A part ends, by an ampersand or by the end of the text.
  method EndPart(a: array<byte>, dict: D.Dict<bytes>, key: nat, value: Option<nat>,
                 ghost a0: bytes, ghost before: bytes, ghost p0: nat, ghost s: bytes, ghost p: nat,
                 ghost e: Option<nat>,
                 ghost done: seq<Pair>, ghost ats: seq<Place>, ghost cmp: Cmp<bytes>, ghost t: Tree<bytes, bytes>)
    returns (ghost done': seq<Pair>, ghost ats': seq<Place>)
    requires Parsing(a0, before, p0, s, key, p, e, done, ats) && a[..] == before[p := NUL]
    requires before[p] == AMP || (before[p] == NUL && (e.Some? || before[key] != NUL))
    requires value == if e.Some? then Some(key + e.value + 1) else None
    requires Holds(dict, cmp, M.InsertAll(cmp, t, Entries(done)))
    modifies a, dict, dict.Nodes()
    ensures Holds(dict, cmp, M.InsertAll(cmp, t, Entries(done'))) && fresh(dict.Nodes() - old(dict.Nodes()))
    ensures before[p] == AMP ==> Parsing(a0, a[..], p0, s, p + 1, p + 1, None, done', ats')
    ensures before[p] == NUL ==> Parsed(a0, a[..], p0, s, done', ats')
  {
    hide InPart, Halfway, AllSettled, Holds, M.InsertAll, Entries, PartFollowed, DecodeAll, RawPairs, Outside;
    PartSteps(before, p0, s, key, p, e);
    ghost var rest' := if before[p] == AMP then s[p + 1 - p0..] else [];
    assert PartFollowed(s[key - p0..], p - key, e, rest') by {
      if before[p] == AMP {
        PartFinishes(before, p0, s, key, p, e);
      } else {
        LastPart(before, p0, s, key, p, e);
      }
    }
    var k, v := FinishPart(a, key, value, p0, s, p, e, before, rest', done, ats);
    AddPair(dict, k, v, cmp, t, done);
    done', ats' := done + [Pair(k, v)], ats + [Place(key, value)];
    EndsPart(a0, before, a[..], p0, s, key, p, e, rest', done', ats');
  }

  // What is left at the end of the text: an empty key without a value is dropped.
  method EndQuery(a: array<byte>, dict: D.Dict<bytes>, key: nat, value: nat, state: int,
                  ghost a0: bytes, ghost p0: nat, ghost s: bytes, ghost p: nat, ghost e: Option<nat>,
                  ghost done: seq<Pair>, ghost ats: seq<Place>, ghost cmp: Cmp<bytes>, ghost t: Tree<bytes, bytes>)
    returns (ghost done': seq<Pair>, ghost ats': seq<Place>)
    requires Parsing(a0, a[..], p0, s, key, p, e, done, ats) && a[p] == NUL
    requires if state == 0 then e == None else e == Some(value - 1 - key) && key < value
    requires Holds(dict, cmp, M.InsertAll(cmp, t, Entries(done)))
    modifies a, dict, dict.Nodes()
    ensures Holds(dict, cmp, M.InsertAll(cmp, t, Entries(done'))) && fresh(dict.Nodes() - old(dict.Nodes()))
    ensures Parsed(a0, a[..], p0, s, done', ats')
  {
    hide *;
    assert a[..] == a[..][p := NUL];
    if state == 0 {
      if a[key] != NUL {
        done', ats' := EndPart(a, dict, key, None, a0, a[..], p0, s, p, e, done, ats, cmp, t);
      } else {
        NothingLeft(a0, a[..], p0, s, key, p, done, ats);
        done', ats' := done, ats;
      }
    } else {
      done', ats' := EndPart(a, dict, key, Some(value), a0, a[..], p0, s, p, e, done, ats, cmp, t);
    }
  }

  lemma EndsPart(a0: bytes, before: bytes, a: bytes, p0: nat, s: bytes, key: nat, p: nat, e: Option<nat>,
      rest': bytes, done: seq<Pair>, ats: seq<Place>)
    requires InPart(before, p0, s, key, p, e) && Outside(a0, before, p0, p0 + |s| + 1) && Outside(before, a, key, p + 1)
    requires p0 <= key <= p <= p0 + |s| < |before| == |a| && (before[p] == AMP ==> p < p0 + |s|)
    requires rest' == if before[p] == AMP then s[p + 1 - p0..] else []
    requires Halfway(s, rest', done) && AllSettled(a[..p + 1], ats, done)
    ensures before[p] == AMP ==> Parsing(a0, a, p0, s, p + 1, p + 1, None, done, ats)
    ensures before[p] == NUL ==> Parsed(a0, a, p0, s, done, ats)
  {
    hide InPart, Halfway, AllSettled, DecodeAll, RawPairs, Outside;
    PartSteps(before, p0, s, key, p, e);
    OutsideJoins(a0, before, a, p0, key, p + 1, p0 + |s| + 1);
    if before[p] == AMP {
      NextPart(before, a, p0, s, key, p, e);
    } else if before[p] == NUL {
      NoParts();
      HalfwayEnd(s, [], done);
      WholeBuffer(a, key, p, ats, done);
    }
  }

  lemma NothingLeft(a0: bytes, a: bytes, p0: nat, s: bytes, key: nat, p: nat, done: seq<Pair>, ats: seq<Place>)
    requires Parsing(a0, a, p0, s, key, p, None, done, ats) && a[p] == NUL && a[key] == NUL
    ensures Parsed(a0, a, p0, s, done, ats)
  {
    hide InPart, Halfway, AllSettled, DecodeAll, RawPairs, Outside;
    PartSteps(a, p0, s, key, p, None);
    LastPart(a, p0, s, key, p, None);
    HalfwayEnd(s, s[key - p0..], done);
    WholeBuffer(a, key, p, ats, done);
  }

  /** A query string is split and decoded where it stands. Every part is added in order,
      and in the end the buffer reads the decoded string at every pointer handed to the
      dictionary. */
  method ParseQueryToDict(dict: D.Dict<bytes>, a: array<byte>, p0: nat, ghost s: bytes) returns (ghost ats: seq<Place>)
    requires dict.Valid() && StringAt(a[..], p0, s) && DecodeAll(RawPairs(s)).Some?
    modifies a, dict, dict.Nodes()
    ensures dict.Valid() && fresh(dict.Nodes() - old(dict.Nodes())) && dict.cmp == old(dict.cmp)
    ensures dict.Value() == M.InsertAll(dict.cmp, old(dict.Value()), Entries(DecodeAll(RawPairs(s)).value))
    ensures AllSettled(a[..], ats, DecodeAll(RawPairs(s)).value)
    ensures Outside(old(a[..]), a[..], p0, p0 + |s| + 1)
  {
    hide InPart, Halfway, AllSettled, Holds, M.InsertAll, Entries, PartFollowed, DecodeAll, RawPairs, Outside,
      Parsing, Parsed,
      StringAt, D.Ok, D.TreeOf, D.Dict.Value, D.Dict.Valid, NulFree, Stands;
    ghost var cmp, t := dict.cmp, dict.Value();
    ParsingStarts(a[..], p0, s);
    HoldsFirst(dict);
    var p: nat, key: nat, value: nat, state := p0, p0, p0, 0;
    ghost var done: seq<Pair>, e: Option<nat>, end := [], None, p0 + |s|;
    ats := [];
    ParsingSteps(a[..], a[..], p0, s, key, p, e, done, ats);
    while a[p] != NUL
      invariant Parsing(old(a[..]), a[..], p0, s, key, p, e, done, ats) && (a[p] == NUL <==> p == end)
      invariant if state == 0 then e == None else e == Some(value - 1 - key) && key < value
      invariant Holds(dict, cmp, M.InsertAll(cmp, t, Entries(done))) && fresh(dict.Nodes() - old(dict.Nodes()))
      decreases end - p
    {
      ghost var before := a[..];
      ParsingSteps(old(a[..]), before, p0, s, key, p, e, done, ats);
      if state == 0 && a[p] == EQUALS {
        a[p] := NUL;
        value := p + 1;
        state := 1;
        e := Some(p - key);
        assert a[..] == before[p := NUL];
      } else if a[p] == AMP {
        a[p] := NUL;
        var v := if state == 0 then None else Some(value);
        done, ats := EndPart(a, dict, key, v, old(a[..]), before, p0, s, p, e, done, ats, cmp, t);
        e := None;
        key := p + 1;
        state := 0;
      }
      p := p + 1;
      ParsingSteps(old(a[..]), a[..], p0, s, key, p, e, done, ats);
    }
    done, ats := EndQuery(a, dict, key, value, state, old(a[..]), p0, s, p, e, done, ats, cmp, t);
    HoldsMeans(dict, cmp, M.InsertAll(cmp, t, Entries(done)));
    ParsedMeans(old(a[..]), a[..], p0, s, done, ats);
  }

  // ---------- the round trip ----------

  ghost predicate Plain(s: bytes) {
    forall i :: 0 <= i < |s| ==> IsAlnum(s[i]) || s[i] == PERCENT
  }

  lemma {:induction false} QuotePlain(s: bytes)
    ensures Plain(Quote(s))
  {
    if s != [] {
      QuotePlain(s[1..]);
      QuoteCharPlain(s[0]);
    }
  }

  lemma QuoteCharPlain(c: byte)
    ensures Plain(QuoteChar(c))
  {
  }

  function Render(p: Pair): bytes {
    Quote(p.key) + [EQUALS] + Quote(p.value)
  }

  // The pairs of a query, encoded and joined with ampersands.
  function RenderAll(ps: seq<Pair>): bytes {
    if ps == [] then []
    else if |ps| == 1 then Render(ps[0])
    else Render(ps[0]) + [AMP] + RenderAll(ps[1..])
  }

  // The characters of a rendered query.
  ghost predicate QueryText(s: bytes) {
    forall i :: 0 <= i < |s| ==> IsAlnum(s[i]) || s[i] == PERCENT || s[i] == EQUALS || s[i] == AMP
  }

  lemma {:induction false} RenderAllText(ps: seq<Pair>)
    ensures QueryText(RenderAll(ps))
  {
    if ps != [] {
      QuotePlain(ps[0].key);
      QuotePlain(ps[0].value);
      assert QueryText(Render(ps[0]));
      RenderAllText(ps[1..]);
    }
  }

  lemma PlainSplit(k: bytes, v: bytes)
    requires Plain(k) && Plain(v)
    ensures SplitPart(k + [EQUALS] + v) == Raw(k, Some(v))
    ensures NulFree(k + [EQUALS] + v) && forall i :: 0 <= i < |k + [EQUALS] + v| ==> (k + [EQUALS] + v)[i] != AMP
  {
    var s := k + [EQUALS] + v;
    assert IndexOf(s, EQUALS) == |k| by {
      assert s[|k|] == EQUALS;
      assert forall i :: 0 <= i < |k| ==> s[i] == k[i];
    }
    assert s[..|k|] == k && s[|k| + 1..] == v;
  }

  lemma RenderDecodes(p: Pair)
    requires NulFree(p.key) && NulFree(p.value)
    ensures SplitPart(Render(p)) == Raw(Quote(p.key), Some(Quote(p.value)))
    ensures Decode(SplitPart(Render(p))) == Some(p)
    ensures NulFree(Render(p)) && Render(p) != [] && forall i :: 0 <= i < |Render(p)| ==> Render(p)[i] != AMP
  {
    hide Quote, Unquote, SplitPart;
    QuotePlain(p.key);
    QuotePlain(p.value);
    PlainSplit(Quote(p.key), Quote(p.value));
    UnquoteQuoted(p.key);
    UnquoteQuoted(p.value);
    CStringOfNulFree(p.key);
    CStringOfNulFree(p.value);
  }

  lemma FirstPart(part: bytes, rest: bytes)
    requires forall i :: 0 <= i < |part| ==> part[i] != AMP
    ensures RawPairs(part + [AMP] + rest) == [SplitPart(part)] + RawPairs(rest)
    ensures part != [] ==> RawPairs(part) == [SplitPart(part)]
  {
    hide SplitPart, RawPairs;
    var s := part + [AMP] + rest;
    assert IndexOf(s, AMP) == |part| by {
      assert s[|part|] == AMP;
      assert forall i :: 0 <= i < |part| ==> s[i] == part[i];
    }
    assert s[..|part|] == part && s[|part| + 1..] == rest;
    RawsFrom(s);
    RawsFrom(part);
  }

  /** Parsing undoes encoding and joining, for any list of pairs of strings: empty keys
      and values, equal keys and every byte but NUL included. */
  lemma {:induction false} QueryRoundTrip(ps: seq<Pair>)
    requires forall i :: 0 <= i < |ps| ==> NulFree(ps[i].key) && NulFree(ps[i].value)
    ensures NulFree(RenderAll(ps)) && DecodeAll(RawPairs(RenderAll(ps))) == Some(ps)
  {
    hide Render, RawPairs, SplitPart, Decode, DecodeAll, NulFree;
    if ps == [] {
      NoParts();
      DecodeNone();
      return;
    }
    var p, part := ps[0], Render(ps[0]);
    RenderDecodes(p);
    if |ps| == 1 {
      FirstPart(part, []);
      DecodeNone();
      DecodeCons(SplitPart(part), [], p, []);
      assert [SplitPart(part)] + [] == [SplitPart(part)] && ps == [p] + [];
    } else {
      var more := ps[1..];
      QueryRoundTrip(more);
      FirstPart(part, RenderAll(more));
      DecodeCons(SplitPart(part), RawPairs(RenderAll(more)), p, more);
      AmpBetween(part, RenderAll(more));
      assert [p] + more == ps;
    }
  }

  lemma DecodeNone()
    ensures DecodeAll([]) == Some([]) && NulFree([])
  {
  }

  lemma DecodeCons(raw: Raw, raws: seq<Raw>, p: Pair, ps: seq<Pair>)
    requires Decode(raw) == Some(p) && DecodeAll(raws) == Some(ps)
    ensures DecodeAll([raw] + raws) == Some([p] + ps)
  {
    hide Decode;
    assert ([raw] + raws)[1..] == raws;
  }

  lemma AmpBetween(a: bytes, b: bytes)
    requires NulFree(a) && NulFree(b)
    ensures NulFree(a + [AMP] + b)
  {
  }

  /** So the dictionary parsed from an encoded list holds exactly its pairs: a stable
      sort by key, equal keys in their original order. */
  lemma {:induction false} QueryDictionary(ps: seq<Pair>)
    requires forall i :: 0 <= i < |ps| ==> NulFree(ps[i].key) && NulFree(ps[i].value)
    ensures DecodeAll(RawPairs(RenderAll(ps))).Some?
    ensures var es := Entries(DecodeAll(RawPairs(RenderAll(ps))).value);
      && InOrder(M.InsertAll(StrCmp, Nil, es)) == M.StableSort(StrCmp, [], Entries(ps))
      && multiset(InOrder(M.InsertAll(StrCmp, Nil, es))) == multiset(Entries(ps))
  {
    QueryRoundTrip(ps);
    StrCmpPreorder();
    var es := Entries(ps);
    var empty: Tree<bytes, bytes> := Nil;
    assert forall i :: 0 <= i < |es| ==> es[i].flags & 1 == 0;
    hide TotalPreorder, M.InsertAll, M.StableSort, M.Sorted;
    assert M.Sorted(StrCmp, InOrder(empty)) by {
      M.NothingSorted<bytes, bytes>(StrCmp);
    }
    M.InsertAllIsStableSort(StrCmp, empty, es);
    M.StableSortAdds(StrCmp, [], es);
  }

  // ---------- any spelling ----------

  /** A byte of a text that is written by hand: as it is, a space as a plus sign, or two
      hexadecimal digits of either case behind a percent sign. */
  datatype Unit = Literal(c: byte) | Plus | Hex(hi: byte, lo: byte)
  {
    function Text(): bytes {
      match this
      case Literal(c) => [c]
      case Plus => [0x2B]
      case Hex(hi, lo) => [0x25, hi, lo]
    }

    predicate Valid() {
      match this
      case Literal(c) => c != NUL && c != 0x25 && c != 0x2B
      case Plus => true
      case Hex(hi, lo) => HexValue(hi).Some? && HexValue(lo).Some?
    }

    function Meaning(): byte {
      match this
      case Literal(c) => c
      case Plus => 0x20
      case Hex(hi, lo) => 16 * DigitOf(hi) + DigitOf(lo)
    }
  }

  function DigitOf(c: byte): byte { if HexValue(c).Some? then HexValue(c).value else 0 }

  function Spell(us: seq<Unit>): bytes {
    if us == [] then [] else us[0].Text() + Spell(us[1..])
  }

  ghost predicate AllValid(us: seq<Unit>) { forall i :: 0 <= i < |us| ==> us[i].Valid() }

  function Means(us: seq<Unit>): bytes {
    seq(|us|, i requires 0 <= i < |us| => us[i].Meaning())
  }

  lemma UnquoteUnit(u: Unit, rest: bytes)
    requires u.Valid() && Unquote(rest).Some?
    ensures Unquote(u.Text() + rest) == Some([u.Meaning()] + Unquote(rest).value)
  {
    hide HexValue;
    var s := u.Text() + rest;
    if u.Hex? {
      assert s[1] == u.hi && s[2] == u.lo && s[3..] == rest;
      assert Escaped(u.hi, u.lo) == u.Meaning();
    } else {
      assert s[1..] == rest;
    }
  }

  /** Every spelling of a text is decoded to it. */
  lemma {:induction false} UnquoteSpelt(us: seq<Unit>)
    requires AllValid(us)
    ensures Unquote(Spell(us)) == Some(Means(us))
  {
    hide Unquote, Unit.Meaning;
    if us == [] {
      UnquoteNone();
    } else {
      assert us[0].Valid();
      UnquoteSpelt(us[1..]);
      UnquoteUnit(us[0], Spell(us[1..]));
      assert Means(us) == [us[0].Meaning()] + Means(us[1..]);
    }
  }

  // No byte is written as it is that would end the text too early.
  ghost predicate Avoids(us: seq<Unit>, b: byte) { forall i :: 0 <= i < |us| ==> us[i] != Literal(b) }

  lemma {:induction false} SpeltAvoids(us: seq<Unit>, b: byte)
    requires AllValid(us) && Avoids(us, b) && HexValue(b).None? && b != 0x25 && b != 0x2B
    ensures b !in Spell(us)
  {
    hide HexValue;
    if us != [] {
      assert us[0].Valid() && us[0] != Literal(b);
      SpeltAvoids(us[1..], b);
    }
  }

  // A part of a query: without an equals sign its value is empty.
  datatype Part = Part(key: seq<Unit>, value: Option<seq<Unit>>)

  function PartText(p: Part): bytes {
    Spell(p.key) + if p.value.Some? then [0x3D] + Spell(p.value.value) else []
  }

  function SpellAll(ps: seq<Part>): bytes {
    if ps == [] then []
    else if |ps| == 1 then PartText(ps[0])
    else PartText(ps[0]) + [0x26] + SpellAll(ps[1..])
  }

  ghost predicate ValidPart(p: Part) {
    && AllValid(p.key) && Avoids(p.key, 0x26) && Avoids(p.key, 0x3D)
    && (p.value.Some? ==> AllValid(p.value.value) && Avoids(p.value.value, 0x26))
  }

  ghost predicate ValidParts(ps: seq<Part>) { forall i :: 0 <= i < |ps| ==> ValidPart(ps[i]) }

  // The entry of a part: strings, so up to a NUL that was spelt.
  function PartPair(p: Part): Pair {
    Pair(CString(Means(p.key)), if p.value.Some? then CString(Means(p.value.value)) else [])
  }

  function Pairs(ps: seq<Part>): (r: seq<Pair>)
    ensures |r| == |ps|
  {
    seq(|ps|, i requires 0 <= i < |ps| => PartPair(ps[i]))
  }

  // No part has a byte written as it is.
  ghost predicate PartsAvoid(ps: seq<Part>, b: byte) {
    forall i :: 0 <= i < |ps| ==>
      Avoids(ps[i].key, b) && (ps[i].value.Some? ==> Avoids(ps[i].value.value, b))
  }

  lemma {:induction false} SpeltAllAvoids(ps: seq<Part>, b: byte)
    requires ValidParts(ps) && PartsAvoid(ps, b) && HexValue(b).None? && b !in [0x25, 0x26, 0x2B, 0x3D]
    ensures b !in SpellAll(ps)
  {
    hide HexValue, AllValid, Avoids, Spell;
    if ps != [] {
      assert ValidPart(ps[0]);
      SpeltAvoids(ps[0].key, b);
      if ps[0].value.Some? {
        SpeltAvoids(ps[0].value.value, b);
      }
      SpeltAllAvoids(ps[1..], b);
    }
  }

  lemma {:induction false} SpeltSome(ps: seq<Part>)
    requires Complete(ps) && ps != []
    ensures SpellAll(ps) != []
  {
    hide PartText, ValidPart;
  }

  // The last part counts.
  ghost predicate Complete(ps: seq<Part>) {
    ValidParts(ps) && (ps != [] ==> PartText(ps[|ps| - 1]) != [])
  }

  lemma NoHex()
    ensures HexValue(NUL).None? && HexValue(AMP).None? && HexValue(EQUALS).None?
    ensures AMP == 0x26 && EQUALS == 0x3D
  {
  }

  lemma NulSpelt(us: seq<Unit>)
    requires AllValid(us)
    ensures NulFree(Spell(us))
  {
    hide HexValue, Spell;
    NoHex();
    forall i | 0 <= i < |us| ensures us[i] != Literal(NUL) {
      assert us[i].Valid();
    }
    SpeltAvoids(us, NUL);
    assert forall i :: 0 <= i < |Spell(us)| ==> Spell(us)[i] in Spell(us);
  }

  lemma PartReads(p: Part)
    requires ValidPart(p)
    ensures Decode(SplitPart(PartText(p))) == Some(PartPair(p))
    ensures NulFree(PartText(p)) && forall i :: 0 <= i < |PartText(p)| ==> PartText(p)[i] != AMP
  {
    hide HexValue, Spell, Unquote, AllValid, Avoids, Means, CString, IndexOf;
    NoHex();
    var k, t := Spell(p.key), PartText(p);
    UnquoteSpelt(p.key);
    SpeltAvoids(p.key, 0x26);
    SpeltAvoids(p.key, 0x3D);
    NulSpelt(p.key);
    assert forall i :: 0 <= i < |k| ==> k[i] in k;
    if p.value.Some? {
      var v := Spell(p.value.value);
      UnquoteSpelt(p.value.value);
      SpeltAvoids(p.value.value, 0x26);
      NulSpelt(p.value.value);
      assert forall i :: 0 <= i < |v| ==> v[i] in v;
      assert t == k + [EQUALS] + v;
      PartSplits(k, v);
    } else {
      assert t == k;
      NoSplit(k);
      UnquoteNone();
    }
  }

  lemma UnquoteNone()
    ensures Unquote([]) == Some([]) && CString([]) == []
  {
  }

  lemma PartSplits(k: bytes, v: bytes)
    requires EQUALS !in k
    ensures SplitPart(k + [EQUALS] + v) == Raw(k, Some(v))
  {
    var s := k + [EQUALS] + v;
    assert IndexOf(s, EQUALS) == |k| by {
      assert s[|k|] == EQUALS;
      assert forall i :: 0 <= i < |k| ==> s[i] == k[i];
    }
    assert s[..|k|] == k && s[|k| + 1..] == v;
  }

  lemma NoSplit(k: bytes)
    requires EQUALS !in k
    ensures SplitPart(k) == Raw(k, None)
  {
  }

  /** A query written by hand is read as its pairs: keys and values spelt in any way, parts
      without an equals sign, empty parts; an empty part at the end does not count. */
  lemma {:induction false} ReadsQuery(ps: seq<Part>)
    requires Complete(ps)
    ensures NulFree(SpellAll(ps)) && DecodeAll(RawPairs(SpellAll(ps))) == Some(Pairs(ps))
    ensures ps != [] ==> DecodeAll(RawPairs(SpellAll(ps) + [0x26])) == Some(Pairs(ps))
  {
    hide PartText, RawPairs, SplitPart, Decode, DecodeAll, NulFree, ValidPart, PartPair;
    NoHex();
    NoParts();
    DecodeNone();
    if ps == [] {
      return;
    }
    var p, part := ps[0], PartText(ps[0]);
    PartReads(p);
    if |ps| == 1 {
      FirstPart(part, []);
      DecodeCons(SplitPart(part), [], PartPair(p), []);
      assert [SplitPart(part)] + [] == [SplitPart(part)] && Pairs(ps) == [PartPair(p)] + [];
      assert part + [AMP] + [] == part + [AMP];
    } else {
      var more := ps[1..];
      ReadsQuery(more);
      FirstPart(part, SpellAll(more));
      FirstPart(part, SpellAll(more) + [AMP]);
      Assoc(part + [AMP], SpellAll(more), [AMP]);
      DecodeCons(SplitPart(part), RawPairs(SpellAll(more)), PartPair(p), Pairs(more));
      DecodeCons(SplitPart(part), RawPairs(SpellAll(more) + [AMP]), PartPair(p), Pairs(more));
      AmpBetween(part, SpellAll(more));
      assert [PartPair(p)] + Pairs(more) == Pairs(ps);
    }
  }
}
