/** JSON strings: escaping, unescaping, and `\u` escapes turned into UTF-8. */
module JsonText {
  import opened Wrappers
  import opened Bytes
  import B = Block

  const QUOTE: byte := 0x22
  const BACKSLASH: byte := 0x5C
  const LETTER_U: byte := 0x75
  const DEL: byte := 127

  // ---------- the printer ----------

  function QuoteChar(c: byte): bytes {
    if c == 8 then [BACKSLASH, 0x62]
    else if c == 12 then [BACKSLASH, 0x66]
    else if c == 10 then [BACKSLASH, 0x6E]
    else if c == 13 then [BACKSLASH, 0x72]
    else if c == 9 then [BACKSLASH, 0x74]
    else if c == QUOTE || c == BACKSLASH then [BACKSLASH, c]
    else if c < 32 || c == DEL then
      [BACKSLASH, LETTER_U, 0x30, 0x30, HexUpper(((c & 0xF0) >> 4) & 0x0F), HexUpper(c & 0x0F)]
    else [c]
  }

  function Quote(s: bytes): bytes {
    if s == [] then [] else QuoteChar(s[0]) + Quote(s[1..])
  }

  lemma {:induction false} QuoteSnoc(s: bytes, c: byte)
    ensures Quote(s + [c]) == Quote(s) + QuoteChar(c)
  {
    if s == [] {
      assert [c][1..] == [] && Quote([c]) == QuoteChar(c) + [];
    } else {
      assert (s + [c])[1..] == s[1..] + [c];
      QuoteSnoc(s[1..], c);
    }
  }

  /** Section 7 of RFC 8259: inside the quotes no control character stands for
      itself, and neither does NUL. */
  lemma {:induction false} QuoteHasNoControls(s: bytes)
    ensures forall i :: 0 <= i < |Quote(s)| ==> Quote(s)[i] >= 32 && Quote(s)[i] != DEL
  {
    if s != [] {
      QuoteHasNoControls(s[1..]);
    }
  }

  lemma QuoteGrows(was: bytes, s: bytes, i: nat)
    requires i < |s|
    ensures was + Quote(s[..i]) + QuoteChar(s[i]) == was + Quote(s[..i + 1])
  {
    QuoteSnoc(s[..i], s[i]);
    assert s[..i + 1] == s[..i] + [s[i]];
    assert was + Quote(s[..i]) + QuoteChar(s[i]) == was + (Quote(s[..i]) + QuoteChar(s[i]));
  }

  // One turn of the escaping loop.
  method AddQuoted(block: B.Block, c: byte)
    requires block.Valid()
    modifies block, block.data
    ensures block.Valid() && (block.data == old(block.data) || fresh(block.data))
    ensures block.Contents() == old(block.Contents()) + QuoteChar(c)
  {
    var q := QuoteChar(c);
    hide QuoteChar;
    if |q| == 1 {
      block.AddChar(q[0]);
    } else {
      block.AddString(q);
    }
  }

  method QuoteAdd(block: B.Block, str: Option<bytes>)
    requires block.Valid()
    modifies block, block.data
    ensures block.Valid() && (block.data == old(block.data) || fresh(block.data))
    ensures block.Contents() == old(block.Contents()) + if str.Some? then Quote(str.value) else []
  {
    if str.None? {
      return;
    }
    var s := str.value;
    block.MinMaxsize(block.size + |s| + 1);
    var i := 0;
    ghost var was := block.Contents();
    assert was + Quote(s[..0]) == was;
    while i < |s|
      invariant 0 <= i <= |s|
      invariant block.Valid() && (block.data == old(block.data) || fresh(block.data))
      invariant block.Contents() == was + Quote(s[..i])
    {
      hide Quote, QuoteChar;
      AddQuoted(block, s[i]);
      QuoteGrows(was, s, i);
      i := i + 1;
    }
    assert s[..|s|] == s;
  }

  // ---------- hexadecimal digits and UTF-8 ----------

  function HexBits(c: byte): (d: Option<bv32>)
    ensures d.Some? ==> d.value < 16
  {
    var d := HexValue(c);
    if d.None? then None else Some(d.value as bv32)
  }

  // The byte of a C string at a position up to and including its terminator.
  function At(s: bytes, i: nat): byte
    requires i <= |s|
  {
    if i < |s| then s[i] else NUL
  }

  /** The value of the four digits from position i, or 0. It stops at the first byte
      that is no digit, so it never looks past the terminator. */
  function Hex4(s: bytes, i: nat): (r: bv32)
    requires NulFree(s) && i <= |s|
    ensures r != 0 ==> i + 4 <= |s|
    ensures r <= 0xFFFF
  {
    var a := HexBits(At(s, i));
    if a.None? then 0 else
    var b := HexBits(At(s, i + 1));
    if b.None? then 0 else
    var c := HexBits(At(s, i + 2));
    if c.None? then 0 else
    var d := HexBits(At(s, i + 3));
    if d.None? then 0
    else Combine(a.value, b.value, c.value, d.value)
  }

  function Combine(a: bv32, b: bv32, c: bv32, d: bv32): (r: bv32)
    requires a < 16 && b < 16 && c < 16 && d < 16
    ensures r <= 0xFFFF
  {
    (a << 12) | (b << 8) | (c << 4) | d
  }

  method ReadHex4(s: bytes, at: nat) returns (retval: bv32)
    requires NulFree(s) && at <= |s|
    ensures retval == Hex4(s, at)
  {
    assert HexBits(NUL).None?;
    hide HexBits;
    retval := 0;
    var data, bit := at, 16;
    while bit > 0
      invariant at <= data <= |s| && data <= at + 4 && bit == 16 - 4 * (data - at)
      invariant forall k :: at <= k < data ==> k < |s| && HexBits(s[k]).Some?
      invariant data == at ==> retval == 0
      invariant data == at + 1 ==> retval == HexBits(s[at]).value << 12
      invariant data == at + 2 ==> retval == (HexBits(s[at]).value << 12) | (HexBits(s[at + 1]).value << 8)
      invariant data == at + 3 ==>
        retval == (HexBits(s[at]).value << 12) | (HexBits(s[at + 1]).value << 8) | (HexBits(s[at + 2]).value << 4)
      invariant data == at + 4 ==> retval == Hex4(s, at)
    {
      var digit := HexBits(At(s, data));
      if digit.None? {
        return 0;
      }
      data := data + 1;
      bit := bit - 4;
      retval := retval | (if bit == 12 then digit.value << 12 else if bit == 8 then digit.value << 8
                          else if bit == 4 then digit.value << 4 else digit.value);
    }
  }

  // The last six bits of a code point in a continuation byte, and the lead bytes.
  function Cont(x: bv32): byte { (0x80 | (x & 0x3F)) as byte }
  function Lead2(x: bv32): byte { (0xC0 | (x & 0x1F)) as byte }
  function Lead3(x: bv32): byte { (0xE0 | (x & 0x0F)) as byte }
  function Lead4(x: bv32): byte { (0xF0 | (x & 0x07)) as byte }

  /** The encoding of section 3 of RFC 3629. */
  function Utf8(cp: bv32): bytes
    requires cp <= 0x10FFFF
  {
    if cp <= 0x7F then [cp as byte]
    else if cp <= 0x7FF then [Lead2(cp >> 6), Cont(cp)]
    else if cp <= 0xFFFF then [Lead3(cp >> 12), Cont(cp >> 6), Cont(cp)]
    else [Lead4(cp >> 18), Cont(cp >> 12), Cont(cp >> 6), Cont(cp)]
  }

  predicate IsCont(c: byte) { c & 0xC0 == 0x80 }
  predicate IsLead2(c: byte) { c & 0xE0 == 0xC0 }
  predicate IsLead3(c: byte) { c & 0xF0 == 0xE0 }
  predicate IsLead4(c: byte) { c & 0xF8 == 0xF0 }

  function Join2(a: byte, b: byte): bv32 { ((a & 0x1F) as bv32 << 6) | ((b & 0x3F) as bv32) }
  function Join3(a: byte, b: byte, c: byte): bv32 {
    ((a & 0x0F) as bv32 << 12) | ((b & 0x3F) as bv32 << 6) | ((c & 0x3F) as bv32)
  }
  function Join4(a: byte, b: byte, c: byte, d: byte): bv32 {
    ((a & 0x07) as bv32 << 18) | ((b & 0x3F) as bv32 << 12) | ((c & 0x3F) as bv32 << 6) | ((d & 0x3F) as bv32)
  }

  predicate IsSurrogate(cp: bv32) {
    0xD800 <= cp <= 0xDFFF
  }

  // A strict decoder of one character: no overlong forms, no surrogates.
  function Utf8Decode(s: bytes): Option<bv32> {
    if |s| == 1 && s[0] < 0x80 then Some(s[0] as bv32)
    else if |s| == 2 && IsLead2(s[0]) && IsCont(s[1]) then
      var cp := Join2(s[0], s[1]);
      if cp >= 0x80 then Some(cp) else None
    else if |s| == 3 && IsLead3(s[0]) && IsCont(s[1]) && IsCont(s[2]) then
      var cp := Join3(s[0], s[1], s[2]);
      if cp >= 0x800 && !IsSurrogate(cp) then Some(cp) else None
    else if |s| == 4 && IsLead4(s[0]) && IsCont(s[1]) && IsCont(s[2]) && IsCont(s[3]) then
      var cp := Join4(s[0], s[1], s[2], s[3]);
      if 0x10000 <= cp <= 0x10FFFF then Some(cp) else None
    else None
  }

  lemma ContForm(x: bv32)
    ensures IsCont(Cont(x))
  {
  }

  lemma Joins2(cp: bv32)
    requires cp <= 0x7FF
    ensures IsLead2(Lead2(cp >> 6)) && Join2(Lead2(cp >> 6), Cont(cp)) == cp
  {
  }

  lemma Joins3(cp: bv32)
    requires cp <= 0xFFFF
    ensures IsLead3(Lead3(cp >> 12)) && Join3(Lead3(cp >> 12), Cont(cp >> 6), Cont(cp)) == cp
  {
  }

  lemma Joins4(cp: bv32)
    requires cp <= 0x10FFFF
    ensures IsLead4(Lead4(cp >> 18)) && Join4(Lead4(cp >> 18), Cont(cp >> 12), Cont(cp >> 6), Cont(cp)) == cp
  {
  }

  /** The bytes emitted for a code point decode to that code point, and strictly so. */
  lemma Utf8RoundTrip(cp: bv32)
    requires cp <= 0x10FFFF && !IsSurrogate(cp)
    ensures Utf8Decode(Utf8(cp)) == Some(cp)
  {
    hide Cont, Lead2, Lead3, Lead4, IsCont, IsLead2, IsLead3, IsLead4, Join2, Join3, Join4;
    ContForm(cp);
    ContForm(cp >> 6);
    ContForm(cp >> 12);
    if cp <= 0x7F {
    } else if cp <= 0x7FF {
      Joins2(cp);
    } else if cp <= 0xFFFF {
      Joins3(cp);
    } else {
      Joins4(cp);
    }
  }

  function Shifted(uc: bv32, n: nat): bv32 {
    if n == 3 then uc >> 18 else if n == 2 then uc >> 12 else if n == 1 then uc >> 6 else uc
  }

  function Mark(total: nat): bv32 {
    if total == 1 then 0 else if total == 2 then 0xC0 else if total == 3 then 0xE0 else 0xF0
  }

  // What one turn of the emitting loop adds to the block.
  function Masked(x: bv32, mark: bv32, mask: bv32): byte
    requires mask <= 0xFF
  {
    ((x | mark) & mask) as byte
  }

  lemma MaskedLead(cp: bv32)
    ensures cp <= 0x7F ==> Masked(cp, 0, 0xFF) == cp as byte
    ensures cp <= 0x7FF ==> Masked(cp >> 6, 0xC0, 0xFF) == Lead2(cp >> 6)
    ensures cp <= 0xFFFF ==> Masked(cp >> 12, 0xE0, 0xFF) == Lead3(cp >> 12)
    ensures cp <= 0x10FFFF ==> Masked(cp >> 18, 0xF0, 0xFF) == Lead4(cp >> 18)
  {
  }

  lemma MaskedCont(x: bv32)
    ensures Masked(x, 0x80, 0xBF) == Cont(x)
  {
  }

  lemma EmittedByte(uc: bv32, n: nat, mark: bv32, mask: bv32)
    requires uc <= 0x10FFFF && n < |Utf8(uc)|
    requires if n + 1 == |Utf8(uc)| then mark == Mark(n + 1) && mask == 0xFF else mark == 0x80 && mask == 0xBF
    ensures Masked(Shifted(uc, n), mark, mask) == Utf8(uc)[|Utf8(uc)| - 1 - n]
  {
    MaskedLead(uc);
    MaskedCont(Shifted(uc, n));
    hide Cont, Lead2, Lead3, Lead4, Masked;
  }

  // The emitting loop: the first byte carries the length mark, the others 0x80.
  method EmitAll(block: B.Block, uc: bv32, total: nat, lead: bv32)
    requires block.Valid() && uc <= 0x10FFFF && total == |Utf8(uc)| && lead == Mark(total)
    modifies block, block.data
    ensures block.Valid() && (block.data == old(block.data) || fresh(block.data))
    ensures block.Contents() == old(block.Contents()) + Utf8(uc)
  {
    hide Utf8, Masked, Shifted, Mark;
    ghost var was, all := block.Contents(), Utf8(uc);
    var n, mark, mask: bv32 := total, lead, 0xFF;
    assert was + all[..0] == was;
    while n > 0
      invariant 0 <= n <= total
      invariant if n == total then mark == Mark(n) && mask == 0xFF else mark == 0x80 && mask == 0xBF
      invariant block.Valid() && (block.data == old(block.data) || fresh(block.data))
      invariant block.Contents() == was + all[..total - n]
    {
      n := n - 1;
      EmittedByte(uc, n, mark, mask);
      block.AddChar(Masked(Shifted(uc, n), mark, mask));
      PrefixGrows(was, all, total - n - 1);
      mark := 0x80;
      mask := 0xBF;
    }
    assert all[..total] == all;
  }

  lemma PrefixGrows(was: bytes, all: bytes, i: nat)
    requires i < |all|
    ensures was + all[..i] + [all[i]] == was + all[..i + 1]
  {
  }

  method AddUtf8(block: B.Block, uc: bv32)
    requires block.Valid() && uc <= 0x10FFFF
    modifies block, block.data
    ensures block.Valid() && (block.data == old(block.data) || fresh(block.data))
    ensures block.Contents() == old(block.Contents()) + Utf8(uc)
  {
    if uc < 0x80 {
      EmitAll(block, uc, 1, 0);
    } else if uc < 0x800 {
      EmitAll(block, uc, 2, 0xC0);
    } else if uc < 0x10000 {
      EmitAll(block, uc, 3, 0xE0);
    } else {
      EmitAll(block, uc, 4, 0xF0);
    }
  }

  // ---------- the reader ----------

  // One turn of the reading loop: bytes for the block and the position after them.
  datatype Step = Emit(out: bytes, next: nat) | Fail

  /** What reading a string gives. The text is a C string; Overrun means that the
      closing delimiter is missing and the loop runs past the terminator. */
  datatype Scan = Done(out: bytes, next: nat) | Bad | Overrun

  function Supplementary(high: bv32, low: bv32): bv32
    requires 0xD800 <= high <= 0xDBFF
  {
    ((high - 0xD7C0) << 10) | (low & 0x3FF)
  }

  // A `\u` escape whose backslash is at position i.
  function UnicodeStep(s: bytes, i: nat): (r: Step)
    requires NulFree(s) && i + 1 < |s|
    ensures r.Emit? ==> i < r.next <= |s|
  {
    var uc := Hex4(s, i + 2);
    if uc == 0 || 0xDC00 <= uc <= 0xDFFF then Fail
    else if 0xD800 <= uc <= 0xDBFF then
      if At(s, i + 6) != BACKSLASH || At(s, i + 7) != LETTER_U then Fail
      else
        var uc2 := Hex4(s, i + 8);
        if uc2 < 0xDC00 || uc2 > 0xDFFF then Fail
        else
          SupplementaryRange(uc, uc2);
          Emit(Utf8(Supplementary(uc, uc2)), i + 12)
    else Emit(Utf8(uc), i + 6)
  }

  function Unescape(c: byte): byte {
    if c == 0x62 then 8 else if c == 0x66 then 12 else if c == 0x6E then 10
    else if c == 0x72 then 13 else if c == 0x74 then 9 else c
  }

  function ReadStep(s: bytes, i: nat, eos: byte): (r: Step)
    requires NulFree(s) && i <= |s| && At(s, i) != eos
    ensures r.Emit? ==> i < r.next <= |s| + 2
  {
    if At(s, i) != BACKSLASH then Emit([At(s, i)], i + 1)
    else if At(s, i + 1) == LETTER_U then UnicodeStep(s, i)
    else if At(s, i + 1) != NUL then Emit([Unescape(s[i + 1])], i + 2)
    else if eos == NUL then Fail
    else Emit([NUL], i + 2)
  }

  function ReadUntil(s: bytes, i: nat, eos: byte): (r: Scan)
    requires NulFree(s) && i <= |s| + 2
    ensures r.Done? ==> i < r.next <= |s| + 1 && (eos != NUL ==> r.next <= |s|)
    decreases |s| + 2 - i
  {
    if i > |s| then Overrun
    else if At(s, i) == eos then Done([], i + 1)
    else
      var step := ReadStep(s, i, eos);
      if step.Fail? then Bad
      else
        var rest := ReadUntil(s, step.next, eos);
        if rest.Done? then Done(step.out + rest.out, rest.next) else rest
  }

  /** Reading the string at position i: up to the closing quote if it opens with one,
      else up to the end of the text. */
  function Unquote(s: bytes, i: nat): (r: Scan)
    requires NulFree(s) && i <= |s|
    ensures r.Done? ==> i < r.next
  {
    if At(s, i) == QUOTE then ReadUntil(s, i + 1, QUOTE) else ReadUntil(s, i, NUL)
  }

  lemma SupplementaryRange(high: bv32, low: bv32)
    requires 0xD800 <= high <= 0xDBFF
    ensures 0x10000 <= Supplementary(high, low) <= 0x10FFFF
  {
  }

  function ReadRest(s: bytes, i: nat, eos: byte): bytes
    requires NulFree(s) && i <= |s| + 2
  {
    var r := ReadUntil(s, i, eos);
    if r.Done? then r.out else []
  }

  lemma ReadUntilUnfolds(s: bytes, i: nat, eos: byte)
    requires NulFree(s) && i <= |s| && At(s, i) != eos
    ensures var step := ReadStep(s, i, eos);
      ReadUntil(s, i, eos) ==
        if step.Fail? then Bad
        else if ReadUntil(s, step.next, eos).Done?
          then Done(step.out + ReadRest(s, step.next, eos), ReadUntil(s, step.next, eos).next)
        else ReadUntil(s, step.next, eos)
    ensures var step := ReadStep(s, i, eos);
      step.Emit? && ReadUntil(s, step.next, eos).Done? ==>
          ReadRest(s, step.next, eos) == ReadUntil(s, step.next, eos).out
  {
  }

  lemma ReadUntilEnds(s: bytes, i: nat, eos: byte)
    requires NulFree(s) && i <= |s| + 2 && (i <= |s| ==> At(s, i) == eos)
    ensures ReadUntil(s, i, eos) == if i > |s| then Overrun else Done([], i + 1)
  {
  }

  datatype Read = Count(n: nat) | Error | PastEnd

  method UnquoteAdd(block: B.Block, s: bytes, str: nat) returns (r: Read)
    requires block.Valid() && NulFree(s) && str <= |s|
    modifies block, block.data
    ensures block.Valid() && (block.data == old(block.data) || fresh(block.data))
    ensures match Unquote(s, str)
      case Done(out, next) => r == Count(next - str) && block.Contents() == old(block.Contents()) + out
      case Bad => r == Error
      case Overrun => r == PastEnd
  {
    hide Utf8, ReadStep, UnicodeStep, ReadUntil, ReadRest;
    var data, eos := str, NUL;
    if At(s, str) == QUOTE {
      data := data + 1;
      eos := QUOTE;
    }
    ghost var was, start, acc: bytes := block.Contents(), data, [];
    while data <= |s| && At(s, data) != eos
      invariant start <= data <= |s| + 2
      invariant block.Valid() && (block.data == old(block.data) || fresh(block.data))
      invariant block.Contents() == was + acc
      invariant var whole, rest := ReadUntil(s, start, eos), ReadUntil(s, data, eos);
        if rest.Done? then whole == Done(acc + rest.out, rest.next) else whole == rest
      decreases |s| + 2 - data
    {
      ghost var step := ReadStep(s, data, eos);
      ReadUntilUnfolds(s, data, eos);
      var next := TurnOf(block, s, data, eos);
      if next.None? {
        return Error;
      }
      Assoc(was, acc, step.out);
      Assoc(acc, step.out, ReadRest(s, step.next, eos));
      acc := acc + step.out;
      data := next.value;
    }
    ReadUntilEnds(s, data, eos);
    assert acc + [] == acc;
    r := if data > |s| then PastEnd else Count(data + 1 - str);
  }

  // One turn of the reading loop: None is the error return.
  method TurnOf(block: B.Block, s: bytes, data: nat, eos: byte) returns (next: Option<nat>)
    requires block.Valid() && NulFree(s) && data <= |s| && At(s, data) != eos
    modifies block, block.data
    ensures block.Valid() && (block.data == old(block.data) || fresh(block.data))
    ensures match ReadStep(s, data, eos)
      case Fail => next == None
      case Emit(out, to) => next == Some(to) && block.Contents() == old(block.Contents()) + out
  {
    hide Utf8, Hex4, Supplementary;
    if At(s, data) == BACKSLASH {
      var c := At(s, data + 1);
      if c == LETTER_U {
        var uc := ReadHex4(s, data + 2);
        if uc == 0 || 0xDC00 <= uc <= 0xDFFF {
          return None;
        }
        var to := data + 6;
        if 0xD800 <= uc <= 0xDBFF {
          if At(s, to) != BACKSLASH || At(s, to + 1) != LETTER_U {
            return None;
          }
          var uc2 := ReadHex4(s, to + 2);
          if uc2 < 0xDC00 || uc2 > 0xDFFF {
            return None;
          }
          to := to + 6;
          SupplementaryRange(uc, uc2);
          uc := Supplementary(uc, uc2);
        }
        AddUtf8(block, uc);
        return Some(to);
      }
      if c != NUL {
        block.AddChar(Unescape(c));
        return Some(data + 2);
      }
      if eos == NUL {
        return None;
      }
      block.AddChar(NUL);
      return Some(data + 2);
    }
    block.AddChar(At(s, data));
    next := Some(data + 1);
  }

  // ---------- escaping and unescaping undo each other ----------

  // The text at position i continues with part.
  predicate StartsAt(s: bytes, i: nat, part: bytes) {
    i + |part| <= |s| && s[i..i + |part|] == part
  }

  lemma StartsSplit(s: bytes, i: nat, a: bytes, b: bytes)
    ensures StartsAt(s, i, a + b) <==> StartsAt(s, i, a) && StartsAt(s, i + |a|, b)
  {
    if StartsAt(s, i, a + b) {
      assert a == (a + b)[..|a|] && b == (a + b)[|a|..];
      assert s[i..i + |a|] == s[i..i + |a| + |b|][..|a|];
      assert s[i + |a|..i + |a| + |b|] == s[i..i + |a| + |b|][|a|..];
    }
    if StartsAt(s, i, a) && StartsAt(s, i + |a|, b) {
      assert s[i..i + |a| + |b|] == s[i..i + |a|] + s[i + |a|..i + |a| + |b|];
    }
  }

  lemma StartsInside(s: bytes, i: nat, a: bytes, b: bytes)
    requires StartsAt(s, i, a + b)
    ensures i + |a| + |b| <= |s|
  {
  }

  lemma StartsElements(s: bytes, i: nat, part: bytes)
    requires StartsAt(s, i, part)
    ensures forall k :: 0 <= k < |part| ==> s[i + k] == part[k]
  {
    forall k | 0 <= k < |part| ensures s[i + k] == part[k] {
      assert s[i..i + |part|][k] == s[i + k];
    }
  }

  lemma HexOfControl(c: byte)
    requires c != NUL && (c < 32 || c == DEL)
    ensures var h, l := HexBits(HexUpper(((c & 0xF0) >> 4) & 0x0F)), HexBits(HexUpper(c & 0x0F));
      h.Some? && l.Some? && Combine(0, 0, h.value, l.value) == c as bv32
    ensures HexBits(0x30) == Some(0) && Utf8(c as bv32) == [c] && 0 < c as bv32 < 0x80
  {
  }

  lemma ReadsQuotedChar(s: bytes, i: nat, c: byte)
    requires NulFree(s) && c != NUL && StartsAt(s, i, QuoteChar(c)) && i + |QuoteChar(c)| < |s|
    ensures s[i] != QUOTE && ReadStep(s, i, QUOTE) == Emit([c], i + |QuoteChar(c)|)
  {
    var q := QuoteChar(c);
    StartsElements(s, i, q);
    if |q| == 6 {
      HexOfControl(c);
      assert s[i + 2] == q[2] && s[i + 3] == q[3] && s[i + 4] == q[4] && s[i + 5] == q[5];
      assert s[i] == q[0] == BACKSLASH && s[i + 1] == q[1] == LETTER_U;
      assert q[2] == q[3] == 0x30;
      hide HexUpper, HexBits, Combine, Utf8, QuoteChar, Supplementary;
      assert Hex4(s, i + 2) == c as bv32;
    }
  }

  /** Reading an escaped string gives the string back and stops behind its quote. */
  lemma {:induction false} ReadsQuoted(s: bytes, i: nat, str: bytes)
    requires NulFree(s) && NulFree(str) && StartsAt(s, i, Quote(str) + [QUOTE])
    ensures ReadUntil(s, i, QUOTE) == Done(str, i + |Quote(str)| + 1)
    decreases |str|
  {
    hide QuoteChar, StartsAt, ReadStep, ReadUntil;
    StartsSplit(s, i, Quote(str), [QUOTE]);
    if str == [] {
      EndsAtQuote(s, i);
    } else {
      var q, rest := QuoteChar(str[0]), str[1..];
      assert Quote(str) == q + Quote(rest);
      assert Quote(str) + [QUOTE] == q + (Quote(rest) + [QUOTE]);
      StartsSplit(s, i, q, Quote(rest) + [QUOTE]);
      StartsInside(s, i, q, Quote(rest) + [QUOTE]);
      ReadsQuotedChar(s, i, str[0]);
      ReadsQuoted(s, i + |q|, rest);
      ReadsMore(s, i, QUOTE, [str[0]], i + |q|, rest, i + |q| + |Quote(rest)| + 1);
      assert [str[0]] + rest == str;
    }
  }

  lemma EndsAtQuote(s: bytes, i: nat)
    requires NulFree(s) && StartsAt(s, i, [QUOTE])
    ensures ReadUntil(s, i, QUOTE) == Done([], i + 1)
  {
    StartsElements(s, i, [QUOTE]);
  }

  lemma ReadsMore(s: bytes, i: nat, eos: byte, out: bytes, next: nat, rest: bytes, end: nat)
    requires NulFree(s) && i < next <= |s| && At(s, i) != eos && ReadStep(s, i, eos) == Emit(out, next)
    requires ReadUntil(s, next, eos) == Done(rest, end)
    ensures ReadUntil(s, i, eos) == Done(out + rest, end)
  {
  }

  // ---------- Unicode escapes ----------

  // Hexadecimal digits of either case.
  function HexChar(d: bv32, upper: bool): byte
    requires d < 16
  {
    if d < 10 then 0x30 + d as byte else if upper then 0x37 + d as byte else 0x57 + d as byte
  }

  /** The escape of one UTF-16 code unit; `upper` chooses the case of each digit. */
  function EscapeUnit(unit: bv32, upper: seq<bool>): bytes
    requires unit <= 0xFFFF && |upper| == 4
  {
    [BACKSLASH, LETTER_U, HexChar(unit >> 12, upper[0]), HexChar((unit >> 8) & 0xF, upper[1]),
     HexChar((unit >> 4) & 0xF, upper[2]), HexChar(unit & 0xF, upper[3])]
  }

  lemma HexDigitOf(d: bv32, upper: bool)
    requires d < 16
    ensures HexBits(HexChar(d, upper)) == Some(d)
  {
  }

  lemma Nibbles(unit: bv32)
    requires unit <= 0xFFFF
    ensures unit >> 12 < 16 && (unit >> 8) & 0xF < 16 && (unit >> 4) & 0xF < 16 && unit & 0xF < 16
    ensures Combine(unit >> 12, (unit >> 8) & 0xF, (unit >> 4) & 0xF, unit & 0xF) == unit
  {
  }

  lemma Hex4OfUnit(s: bytes, i: nat, unit: bv32, upper: seq<bool>)
    requires NulFree(s) && unit <= 0xFFFF && |upper| == 4 && StartsAt(s, i, EscapeUnit(unit, upper))
    ensures Hex4(s, i + 2) == unit && s[i] == BACKSLASH && s[i + 1] == LETTER_U
  {
    hide HexChar, HexBits, Combine;
    Nibbles(unit);
    HexDigitOf(unit >> 12, upper[0]);
    HexDigitOf((unit >> 8) & 0xF, upper[1]);
    HexDigitOf((unit >> 4) & 0xF, upper[2]);
    HexDigitOf(unit & 0xF, upper[3]);
    var e := EscapeUnit(unit, upper);
    StartsElements(s, i, e);
    assert s[i + 2] == e[2] && s[i + 3] == e[3] && s[i + 4] == e[4] && s[i + 5] == e[5];
  }

  // The surrogate pair of section 2.1 of RFC 2781.
  function High(cp: bv32): (unit: bv32)
    requires 0x10000 <= cp <= 0x10FFFF
    ensures 0xD800 <= unit <= 0xDBFF
  {
    0xD800 | ((cp - 0x10000) >> 10)
  }

  function Low(cp: bv32): (unit: bv32)
    requires 0x10000 <= cp <= 0x10FFFF
    ensures 0xDC00 <= unit <= 0xDFFF
  {
    0xDC00 | ((cp - 0x10000) & 0x3FF)
  }

  /** The escape of a code point: one unit, or a surrogate pair. */
  function EscapeCodePoint(cp: bv32, upper: seq<bool>): bytes
    requires cp <= 0x10FFFF && |upper| == 8
  {
    if cp <= 0xFFFF then EscapeUnit(cp, upper[..4])
    else EscapeUnit(High(cp), upper[..4]) + EscapeUnit(Low(cp), upper[4..])
  }

  lemma PairValue(cp: bv32)
    requires 0x10000 <= cp <= 0x10FFFF
    ensures Supplementary(High(cp), Low(cp)) == cp
  {
  }

  /** Every escaped code point, except NUL and the surrogates, is read as exactly its
      UTF-8 encoding, and exactly the escape is consumed. */
  lemma ReadsCodePoint(s: bytes, i: nat, cp: bv32, upper: seq<bool>, eos: byte)
    requires NulFree(s) && 0 < cp <= 0x10FFFF && !IsSurrogate(cp) && |upper| == 8 && eos != BACKSLASH
    requires StartsAt(s, i, EscapeCodePoint(cp, upper))
    ensures ReadStep(s, i, eos) == Emit(Utf8(cp), i + |EscapeCodePoint(cp, upper)|)
  {
    if cp <= 0xFFFF {
      Hex4OfUnit(s, i, cp, upper[..4]);
    } else {
      PairValue(cp);
      hide High, Low;
      StartsSplit(s, i, EscapeUnit(High(cp), upper[..4]), EscapeUnit(Low(cp), upper[4..]));
      Hex4OfUnit(s, i, High(cp), upper[..4]);
      Hex4OfUnit(s, i + 6, Low(cp), upper[4..]);
      hide EscapeUnit, Supplementary, Utf8, Hex4;
    }
  }

  lemma HexCharOf(c: byte)
    requires HexBits(c).Some?
    ensures HexChar(HexBits(c).value, c < 0x61) == c
  {
  }

  lemma CombineNibbles(a: bv32, b: bv32, c: bv32, d: bv32)
    requires a < 16 && b < 16 && c < 16 && d < 16
    ensures var unit := Combine(a, b, c, d);
      unit >> 12 == a && (unit >> 8) & 0xF == b && (unit >> 4) & 0xF == c && unit & 0xF == d
  {
  }

  // Four digits that are not zero are the escape of the unit they stand for.
  lemma UnitOfHex4(s: bytes, i: nat) returns (upper: seq<bool>)
    requires NulFree(s) && i + 1 < |s| && s[i] == BACKSLASH && s[i + 1] == LETTER_U && Hex4(s, i + 2) != 0
    ensures |upper| == 4 && StartsAt(s, i, EscapeUnit(Hex4(s, i + 2), upper))
  {
    var a, b, c, d := s[i + 2], s[i + 3], s[i + 4], s[i + 5];
    upper := [a < 0x61, b < 0x61, c < 0x61, d < 0x61];
    HexCharOf(a);
    HexCharOf(b);
    HexCharOf(c);
    HexCharOf(d);
    CombineNibbles(HexBits(a).value, HexBits(b).value, HexBits(c).value, HexBits(d).value);
    hide HexChar, HexBits, Combine;
    assert s[i..i + 6] == EscapeUnit(Hex4(s, i + 2), upper);
  }

  // The escape of a low surrogate, in some digits.
  ghost predicate LowAt(s: bytes, i: nat) {
    exists unit: bv32, upper: seq<bool> ::
      0xDC00 <= unit <= 0xDFFF && |upper| == 4 && StartsAt(s, i, EscapeUnit(unit, upper))
  }

  /** In whatever digits it is written: NUL and a low surrogate by itself are refused, and a
      high surrogate is if and only if no escaped low one follows. */
  lemma RefusesUnpaired(s: bytes, i: nat, unit: bv32, upper: seq<bool>, eos: byte)
    requires NulFree(s) && unit <= 0xFFFF && |upper| == 4 && StartsAt(s, i, EscapeUnit(unit, upper)) && eos != BACKSLASH
    ensures unit == 0 || 0xDC00 <= unit <= 0xDFFF ==> ReadStep(s, i, eos) == Fail
    ensures 0xD800 <= unit <= 0xDBFF ==> (ReadStep(s, i, eos) == Fail <==> !LowAt(s, i + 6))
  {
    Hex4OfUnit(s, i, unit, upper);
    if 0xD800 <= unit <= 0xDBFF {
      if LowAt(s, i + 6) {
        var low: bv32, cases: seq<bool> :| 0xDC00 <= low <= 0xDFFF && |cases| == 4
          && StartsAt(s, i + 6, EscapeUnit(low, cases));
        Hex4OfUnit(s, i + 6, low, cases);
      } else if At(s, i + 6) == BACKSLASH && At(s, i + 7) == LETTER_U && 0xDC00 <= Hex4(s, i + 8) <= 0xDFFF {
        var _ := UnitOfHex4(s, i + 6);
        assert false;
      }
    }
  }

  /** An escape of fewer than four hexadecimal digits is refused. */
  lemma RefusesMalformed(s: bytes, i: nat, k: nat, eos: byte)
    requires NulFree(s) && i + 1 < |s| && s[i] == BACKSLASH && s[i + 1] == LETTER_U && eos != BACKSLASH
    requires k < 4 && i + 2 + k <= |s| && HexBits(At(s, i + 2 + k)) == None
    ensures ReadStep(s, i, eos) == Fail
  {
    hide HexBits, Combine;
    assert k == 0 || k == 1 || k == 2 || k == 3;
  }

  // The escape of a character: a code point other than NUL and the surrogates.
  ghost predicate EscapeAt(s: bytes, i: nat, cp: bv32, upper: seq<bool>) {
    0 < cp <= 0x10FFFF && !IsSurrogate(cp) && |upper| == 8 && StartsAt(s, i, EscapeCodePoint(cp, upper))
  }

  /** A `\u` is read if and only if it begins the escape of a character. */
  lemma ReadsOnlyCodePoints(s: bytes, i: nat, eos: byte)
    requires NulFree(s) && i + 1 < |s| && s[i] == BACKSLASH && s[i + 1] == LETTER_U && eos != BACKSLASH
    ensures ReadStep(s, i, eos).Emit? <==> exists cp: bv32, upper: seq<bool> :: EscapeAt(s, i, cp, upper)
  {
    hide EscapeAt;
    if cp: bv32, upper: seq<bool> :| EscapeAt(s, i, cp, upper) {
      EscapeReads(s, i, cp, upper, eos);
    }
    if ReadStep(s, i, eos).Emit? {
      var cp, upper := EscapeRead(s, i, eos);
    }
  }

  lemma EscapeReads(s: bytes, i: nat, cp: bv32, upper: seq<bool>, eos: byte)
    requires NulFree(s) && i + 1 < |s| && s[i] == BACKSLASH && eos != BACKSLASH && EscapeAt(s, i, cp, upper)
    ensures ReadStep(s, i, eos).Emit?
  {
    hide EscapeCodePoint, ReadStep;
    ReadsCodePoint(s, i, cp, upper, eos);
  }

  // What was read, and in which digits.
  lemma EscapeRead(s: bytes, i: nat, eos: byte) returns (cp: bv32, upper: seq<bool>)
    requires NulFree(s) && i + 1 < |s| && s[i] == BACKSLASH && s[i + 1] == LETTER_U && eos != BACKSLASH
    requires ReadStep(s, i, eos).Emit?
    ensures EscapeAt(s, i, cp, upper)
  {
    hide Hex4, EscapeUnit, StartsAt, Utf8, Supplementary, High, Low;
    var unit := Hex4(s, i + 2);
    var first := UnitOfHex4(s, i);
    assert (first + first)[..4] == first;
    cp, upper := unit, first + first;
    if 0xD800 <= unit <= 0xDBFF {
      var low := Hex4(s, i + 8);
      var second := UnitOfHex4(s, i + 6);
      UnitSize(unit, first);
      StartsSplit(s, i, EscapeUnit(unit, first), EscapeUnit(low, second));
      SupplementaryRange(unit, low);
      SurrogatesOf(unit, low);
      cp, upper := Supplementary(unit, low), first + second;
      assert upper[..4] == first && upper[4..] == second;
    }
  }

  lemma UnitSize(unit: bv32, upper: seq<bool>)
    requires unit <= 0xFFFF && |upper| == 4
    ensures |EscapeUnit(unit, upper)| == 6
  {
  }

  lemma SurrogatesOf(high: bv32, low: bv32)
    requires 0xD800 <= high <= 0xDBFF && 0xDC00 <= low <= 0xDFFF
    ensures 0x10000 <= Supplementary(high, low) <= 0x10FFFF
    ensures High(Supplementary(high, low)) == high && Low(Supplementary(high, low)) == low
  {
  }

  // ---------- strings without an end ----------

  // How many backslashes stand right before position j, from i on.
  function Backslashes(s: bytes, i: nat, j: nat): (n: nat)
    requires i <= j <= |s|
    ensures n <= j - i
    decreases j
  {
    if j > i && s[j - 1] == BACKSLASH then 1 + Backslashes(s, i, j - 1) else 0
  }

  // A quote that is not escaped, counting from i.
  predicate ClosesAt(s: bytes, i: nat, j: nat) {
    i <= j < |s| && s[j] == QUOTE && Backslashes(s, i, j) % 2 == 0
  }

  ghost predicate Closed(s: bytes, i: nat) {
    exists j: nat :: ClosesAt(s, i, j)
  }

  lemma {:induction false} BackslashesPlain(s: bytes, i: nat, j: nat)
    requires i < j <= |s| && s[i] != BACKSLASH
    ensures Backslashes(s, i, j) == Backslashes(s, i + 1, j)
    decreases j
  {
    if j > i + 1 {
      BackslashesPlain(s, i, j - 1);
    }
  }

  lemma {:induction false} BackslashesEscaped(s: bytes, i: nat, j: nat)
    requires i + 2 <= j <= |s| && s[i] == BACKSLASH
    ensures Backslashes(s, i, j) % 2 == Backslashes(s, i + 2, j) % 2
    decreases j
  {
    if j > i + 2 {
      BackslashesEscaped(s, i, j - 1);
    } else {
      assert Backslashes(s, i, i + 1) == 1 + Backslashes(s, i, i);
    }
  }

  lemma ClosedSame(s: bytes, i: nat, k: nat)
    requires forall j: nat :: ClosesAt(s, i, j) <==> ClosesAt(s, k, j)
    ensures Closed(s, i) <==> Closed(s, k)
  {
    hide ClosesAt;
    if j: nat :| ClosesAt(s, i, j) {
      assert ClosesAt(s, k, j);
    }
    if j: nat :| ClosesAt(s, k, j) {
      assert ClosesAt(s, i, j);
    }
  }

  lemma ClosedPlain(s: bytes, i: nat)
    requires i < |s| && s[i] != BACKSLASH && s[i] != QUOTE
    ensures Closed(s, i) <==> Closed(s, i + 1)
  {
    forall j: nat ensures ClosesAt(s, i, j) <==> ClosesAt(s, i + 1, j) {
      if i < j < |s| {
        BackslashesPlain(s, i, j);
      }
    }
    ClosedSame(s, i, i + 1);
  }

  lemma ClosedEscaped(s: bytes, i: nat)
    requires i + 1 < |s| && s[i] == BACKSLASH
    ensures Closed(s, i) <==> Closed(s, i + 2)
  {
    forall j: nat ensures ClosesAt(s, i, j) <==> ClosesAt(s, i + 2, j) {
      if i + 2 <= j < |s| {
        BackslashesEscaped(s, i, j);
      } else if j == i + 1 {
        assert Backslashes(s, i, j) == 1 + Backslashes(s, i, i);
      }
    }
    ClosedSame(s, i, i + 2);
  }

  lemma HexDigitPlain(c: byte)
    requires HexBits(c).Some?
    ensures c != BACKSLASH && c != QUOTE
  {
  }

  lemma ClosedUnit(s: bytes, i: nat)
    requires NulFree(s) && i + 1 < |s| && s[i] == BACKSLASH && Hex4(s, i + 2) != 0
    ensures Closed(s, i) <==> Closed(s, i + 6)
  {
    hide Closed, HexBits, Combine;
    HexDigitPlain(s[i + 2]);
    HexDigitPlain(s[i + 3]);
    HexDigitPlain(s[i + 4]);
    HexDigitPlain(s[i + 5]);
    ClosedEscaped(s, i);
    ClosedPlain(s, i + 2);
    ClosedPlain(s, i + 3);
    ClosedPlain(s, i + 4);
    ClosedPlain(s, i + 5);
  }

  lemma NotClosed(s: bytes, i: nat)
    requires i >= |s| || (i + 1 == |s| && s[i] != QUOTE)
    ensures !Closed(s, i)
  {
  }

  // One turn of the reading loop passes no closing quote.
  lemma ClosedStep(s: bytes, i: nat)
    requires NulFree(s) && i <= |s| && At(s, i) != QUOTE && ReadStep(s, i, QUOTE).Emit?
    ensures Closed(s, i) <==> Closed(s, ReadStep(s, i, QUOTE).next)
  {
    hide Closed, Hex4, Supplementary, Utf8;
    var next := ReadStep(s, i, QUOTE).next;
    if next > |s| {
      NotClosed(s, i);
      NotClosed(s, next);
    } else if s[i] != BACKSLASH {
      ClosedPlain(s, i);
    } else if s[i + 1] != LETTER_U {
      ClosedEscaped(s, i);
    } else {
      ClosedUnit(s, i);
      if next == i + 12 {
        ClosedUnit(s, i + 6);
      }
    }
  }

  /** A string without an error in it is read beyond the end of the text if and only if no
      quote closes it: none behind its beginning has an even number of backslashes before it. */
  lemma {:induction false} OverrunIff(s: bytes, i: nat)
    requires NulFree(s) && i <= |s| + 2
    ensures ReadUntil(s, i, QUOTE).Done? ==> Closed(s, i)
    ensures ReadUntil(s, i, QUOTE).Overrun? ==> !Closed(s, i)
    decreases |s| + 2 - i
  {
    hide ReadStep, Closed;
    if i > |s| {
      NotClosed(s, i);
    } else if At(s, i) == QUOTE {
      ClosedHere(s, i);
    } else if ReadStep(s, i, QUOTE).Emit? {
      ClosedStep(s, i);
      OverrunIff(s, ReadStep(s, i, QUOTE).next);
    }
  }

  lemma ClosedHere(s: bytes, i: nat)
    requires i < |s| && s[i] == QUOTE
    ensures Closed(s, i)
  {
    assert ClosesAt(s, i, i);
  }
}
