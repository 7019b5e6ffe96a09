/** The texts that are read as dictionaries: strings with escapes, digits and nested
    dictionaries, with any space between, written by whomever. */
module JsonGrammar {
  import opened Wrappers
  import opened AATree
  import M = Multimap
  import opened Bytes
  import opened JsonText
  import opened JsonDict

  // A character of a string: as it is, behind a backslash, or as the escape of a code point.
  datatype Piece = Plain(c: byte) | Escaped(c: byte) | Unicode(cp: bv32, upper: seq<bool>)

  /** A value: a string, digits, or members between braces with space behind the first. */
  datatype Value = Str(ps: seq<Piece>) | Num(digits: bytes) | Obj(gap: bytes, ms: Members)

  // A key and its value, with space in front of the colon, behind it, and behind the value.
  datatype Member = Member(key: seq<Piece>, before: bytes, after: bytes, value: Value, end: bytes)

  // Members with commas between, and maybe one behind the last, each with space behind it.
  datatype Members = Empty | Last(m: Member) | More(m: Member, gap: bytes, rest: Members)

  // ---------- what they look like ----------

  function PieceText(p: Piece): bytes
    requires ValidPiece(p)
  {
    match p
    case Plain(c) => [c]
    case Escaped(c) => [BACKSLASH, c]
    case Unicode(cp, upper) => EscapeCodePoint(cp, upper)
  }

  ghost predicate ValidPiece(p: Piece) {
    match p
    case Plain(c) => c != NUL && c != QUOTE && c != BACKSLASH
    case Escaped(c) => c != NUL && c != LETTER_U
    case Unicode(cp, upper) => 0 < cp <= 0x10FFFF && !IsSurrogate(cp) && |upper| == 8
  }

  ghost predicate ValidPieces(ps: seq<Piece>) { forall i :: 0 <= i < |ps| ==> ValidPiece(ps[i]) }

  ghost function Spell(ps: seq<Piece>): bytes
    requires ValidPieces(ps)
  {
    if ps == [] then [] else PieceText(ps[0]) + Spell(ps[1..])
  }

  ghost function StrText(ps: seq<Piece>): bytes
    requires ValidPieces(ps)
  {
    [QUOTE] + (Spell(ps) + [QUOTE])
  }

  ghost predicate AllSpace(g: bytes) { forall i :: 0 <= i < |g| ==> IsSpace(g[i]) }

  ghost predicate AllDigits(s: bytes) { forall i :: 0 <= i < |s| ==> IsDigit(s[i]) }

  ghost predicate ValidValue(v: Value) {
    match v
    case Str(ps) => ValidPieces(ps)
    case Num(digits) => digits != [] && AllDigits(digits)
    case Obj(gap, ms) => AllSpace(gap) && ValidMembers(ms)
  }

  ghost predicate ValidMember(m: Member) {
    ValidPieces(m.key) && AllSpace(m.before) && AllSpace(m.after) && ValidValue(m.value) && AllSpace(m.end)
  }

  ghost predicate ValidMembers(ms: Members) {
    match ms
    case Empty => true
    case Last(m) => ValidMember(m)
    case More(m, gap, rest) => ValidMember(m) && AllSpace(gap) && ValidMembers(rest)
  }

  ghost function ValueText(v: Value): bytes
    requires ValidValue(v)
    decreases v, 0
  {
    match v
    case Str(ps) => StrText(ps)
    case Num(digits) => digits
    case Obj(gap, ms) => [OPEN] + (gap + MembersText(ms))
  }

  // A member and what stands behind it.
  ghost function MemberThen(m: Member, tail: bytes): bytes
    requires ValidMember(m)
    decreases m, 1
  {
    StrText(m.key) + (m.before + ([COLON] + (m.after + (ValueText(m.value) + (m.end + tail)))))
  }

  ghost function MembersText(ms: Members): bytes
    requires ValidMembers(ms)
    decreases ms, 0
  {
    match ms
    case Empty => [CLOSE]
    case Last(m) => MemberThen(m, [CLOSE])
    case More(m, gap, rest) => MemberThen(m, [COMMA] + (gap + MembersText(rest)))
  }

  // ---------- what they say ----------

  // The five letters with a meaning of their own; any other character stands for itself.
  function EscapeMeans(c: byte): byte {
    match c
    case 0x62 => 0x08
    case 0x66 => 0x0C
    case 0x6E => 0x0A
    case 0x72 => 0x0D
    case 0x74 => 0x09
    case _ => c
  }

  function PieceSays(p: Piece): bytes {
    match p
    case Plain(c) => [c]
    case Escaped(c) => [EscapeMeans(c)]
    case Unicode(cp, _) => if cp <= 0x10FFFF then Utf8(cp) else []
  }

  function Says(ps: seq<Piece>): bytes {
    if ps == [] then [] else PieceSays(ps[0]) + Says(ps[1..])
  }

  function JsonOf(v: Value): Json
    decreases v, 0
  {
    match v
    case Str(ps) => Text(Says(ps))
    case Num(digits) => Text(digits)
    case Obj(_, ms) => Sub(TreeOf(ms))
  }

  function EntryOf(m: Member): JEntry
    decreases m, 0
  {
    Entry(Says(m.key), JsonOf(m.value), if m.value.Obj? then OD_SUBDICT else OD_DUP_ALL)
  }

  function EntriesOf(ms: Members): seq<JEntry>
    decreases ms, 0
  {
    match ms
    case Empty => []
    case Last(m) => [EntryOf(m)]
    case More(m, _, rest) => [EntryOf(m)] + EntriesOf(rest)
  }

  // The members added one by one to a new dictionary.
  function TreeOf(ms: Members): JTree
    decreases ms, 1
  {
    M.InsertAll(StrCmp, Nil, EntriesOf(ms))
  }

  /** Keys and values stand in stable `strcmp` order at every level. */
  lemma TreeInOrder(ms: Members)
    ensures InOrder(TreeOf(ms)) == M.StableSort(StrCmp, [], EntriesOf(ms))
    ensures multiset(InOrder(TreeOf(ms))) == multiset(EntriesOf(ms))
  {
    hide M.InsertAll, M.StableSort, M.Sorted, TotalPreorder;
    NoneReplace(ms);
    StrCmpPreorder();
    M.NothingSorted<bytes, Json>(StrCmp);
    M.InsertAllIsStableSort(StrCmp, Nil, EntriesOf(ms));
    M.StableSortAdds(StrCmp, [], EntriesOf(ms));
  }

  lemma {:induction false} NoneReplace(ms: Members)
    ensures M.NoReplace(EntriesOf(ms))
  {
    if ms.More? {
      NoneReplace(ms.rest);
    }
  }

  // ---------- strings ----------

  lemma ReadsPiece(s: bytes, i: nat, p: Piece)
    requires NulFree(s) && ValidPiece(p) && StartsAt(s, i, PieceText(p))
    ensures s[i] != QUOTE && ReadStep(s, i, QUOTE) == Emit(PieceSays(p), i + |PieceText(p)|)
    ensures |PieceText(p)| > 0
  {
    var t := PieceText(p);
    StartsElements(s, i, t);
    match p {
      case Plain(c) => assert s[i + 0] == t[0];
      case Escaped(c) => assert s[i + 0] == t[0] && s[i + 1] == t[1];
      case Unicode(cp, upper) =>
        FirstOfEscape(cp, upper);
        assert s[i + 0] == BACKSLASH;
        hide EscapeCodePoint, ReadStep, StartsAt, Utf8;
        ReadsCodePoint(s, i, cp, upper, QUOTE);
    }
  }

  lemma FirstOfEscape(cp: bv32, upper: seq<bool>)
    requires cp <= 0x10FFFF && |upper| == 8
    ensures |EscapeCodePoint(cp, upper)| > 1 && EscapeCodePoint(cp, upper)[0] == BACKSLASH
    ensures EscapeCodePoint(cp, upper)[1] == LETTER_U
  {
  }

  lemma {:induction false} ReadsPieces(s: bytes, i: nat, ps: seq<Piece>)
    requires NulFree(s) && ValidPieces(ps) && StartsAt(s, i, Spell(ps) + [QUOTE])
    ensures ReadUntil(s, i, QUOTE) == Done(Says(ps), i + |Spell(ps)| + 1)
    decreases |ps|
  {
    hide PieceText, PieceSays, StartsAt, ReadStep, ReadUntil, NulFree, ValidPiece;
    if ps == [] {
      assert [] + [QUOTE] == [QUOTE];
      EndsAtQuote(s, i);
    } else {
      var t, rest := PieceText(ps[0]), ps[1..];
      Assoc(t, Spell(rest), [QUOTE]);
      StartsSplit(s, i, t, Spell(rest) + [QUOTE]);
      InText(s, i, t);
      InText(s, i + |t|, Spell(rest) + [QUOTE]);
      ReadsPiece(s, i, ps[0]);
      ReadsPieces(s, i + |t|, rest);
      ReadsMore(s, i, QUOTE, PieceSays(ps[0]), i + |t|, Says(rest), i + |Spell(ps)| + 1);
    }
  }

  lemma InText(s: bytes, i: nat, part: bytes)
    requires StartsAt(s, i, part)
    ensures i + |part| <= |s|
  {
  }

  lemma ReadsStr(s: bytes, i: nat, ps: seq<Piece>)
    requires NulFree(s) && ValidPieces(ps) && StartsAt(s, i, StrText(ps))
    ensures i + |StrText(ps)| <= |s|
    ensures s[i] == QUOTE && Unquote(s, i) == Done(Says(ps), i + |StrText(ps)|)
  {
    hide Spell, Says, ReadUntil, ValidPieces;
    StartsSplit(s, i, [QUOTE], Spell(ps) + [QUOTE]);
    StartsElements(s, i, [QUOTE]);
    assert s[i + 0] == QUOTE;
    ReadsPieces(s, i + 1, ps);
  }

  // Nothing that is said holds a NUL.
  lemma {:induction false} SaysNulFree(ps: seq<Piece>)
    requires ValidPieces(ps)
    ensures NulFree(Says(ps))
  {
    hide PieceSays, ValidPiece;
    if ps != [] {
      PieceNulFree(ps[0]);
      SaysNulFree(ps[1..]);
    }
  }

  lemma PieceNulFree(p: Piece)
    requires ValidPiece(p)
    ensures NulFree(PieceSays(p))
  {
    if p.Unicode? {
      Utf8NulFree(p.cp);
    }
  }

  lemma Utf8NulFree(cp: bv32)
    requires 0 < cp <= 0x10FFFF
    ensures NulFree(Utf8(cp))
  {
  }

  // ---------- space and digits ----------

  lemma {:induction false} SkipsGap(s: bytes, i: nat, g: bytes, tail: bytes)
    requires AllSpace(g) && tail != [] && !IsSpace(tail[0]) && StartsAt(s, i, g + tail)
    ensures i + |g| < |s| && s[i + |g|] == tail[0] && StartsAt(s, i + |g|, tail)
    ensures SkipSpace(s, i) == i + |g|
    decreases |g|
  {
    hide IsSpace;
    StartsSplit(s, i, g, tail);
    StartsElements(s, i + |g|, tail);
    assert s[i + |g| + 0] == tail[0];
    StartsElements(s, i, g);
    if g != [] {
      assert s[i + 0] == g[0];
      assert g == [g[0]] + g[1..];
      Assoc([g[0]], g[1..], tail);
      StartsSplit(s, i, [g[0]], g[1..] + tail);
      SkipsGap(s, i + 1, g[1..], tail);
    }
  }

  lemma {:induction false} SkipsDigits(s: bytes, i: nat, ds: bytes, tail: bytes)
    requires AllDigits(ds) && tail != [] && !IsDigit(tail[0]) && StartsAt(s, i, ds + tail)
    ensures i + |ds| < |s| && SkipDigits(s, i) == i + |ds|
    decreases |ds|
  {
    hide IsDigit;
    StartsSplit(s, i, ds, tail);
    StartsElements(s, i + |ds|, tail);
    assert s[i + |ds| + 0] == tail[0];
    StartsElements(s, i, ds);
    if ds != [] {
      assert s[i + 0] == ds[0];
      assert ds == [ds[0]] + ds[1..];
      Assoc([ds[0]], ds[1..], tail);
      StartsSplit(s, i, [ds[0]], ds[1..] + tail);
      SkipsDigits(s, i + 1, ds[1..], tail);
    }
  }

  lemma Marks()
    ensures !IsSpace(QUOTE) && !IsSpace(OPEN) && !IsSpace(CLOSE) && !IsSpace(COMMA) && !IsSpace(COLON)
    ensures !IsDigit(QUOTE) && !IsDigit(OPEN) && !IsDigit(CLOSE) && !IsDigit(COMMA)
    ensures forall c: byte :: IsDigit(c) ==> !IsSpace(c) && c != OPEN && c != QUOTE
    ensures forall c: byte :: IsSpace(c) ==> !IsDigit(c)
  {
  }

  // ---------- values ----------

  // What may stand behind a value.
  predicate Ends(tail: bytes) { tail != [] && !IsDigit(tail[0]) }

  lemma ValueStarts(v: Value)
    requires ValidValue(v)
    ensures var t := ValueText(v);
      t != [] && !IsSpace(t[0])
      && match v case Str(_) => t[0] == QUOTE case Num(_) => IsDigit(t[0]) case Obj(_, _) => t[0] == OPEN
  {
    hide IsSpace, IsDigit, Spell, MembersText;
    Marks();
  }

  lemma {:induction false} ReadsValue(s: bytes, i: nat, key: bytes, v: Value, tail: bytes, acc: JTree)
    requires NulFree(s) && ValidValue(v) && Ends(tail) && StartsAt(s, i, ValueText(v) + tail)
    ensures i + |ValueText(v)| < |s| && StartsAt(s, i + |ValueText(v)|, tail)
    ensures ParseValue(s, i, key, acc) ==
      Parsed(M.Insert(StrCmp, acc, Entry(key, JsonOf(v), if v.Obj? then OD_SUBDICT else OD_DUP_ALL)),
        i + |ValueText(v)|)
    decreases v, 3
  {
    hide M.Insert, IsSpace, IsDigit, StartsAt, StrText, Says, ParseDict, ParseValue, MembersText, TreeOf, NulFree,
      ValidPieces, ValidMembers, AllSpace, AllDigits;
    var t := ValueText(v);
    StartsSplit(s, i, t, tail);
    EndsInside(s, i + |t|, tail);
    match v {
      case Str(ps) => StrValue(s, i, key, ps, acc);
      case Num(ds) => NumValue(s, i, key, ds, tail, acc);
      case Obj(gap, ms) =>
        ReadsObject(s, i, gap, ms);
        ObjValue(s, i, key, gap + MembersText(ms), acc);
    }
  }

  lemma EndsInside(s: bytes, i: nat, tail: bytes)
    requires Ends(tail) && StartsAt(s, i, tail)
    ensures i < |s|
  {
  }

  lemma StrValue(s: bytes, i: nat, key: bytes, ps: seq<Piece>, acc: JTree)
    requires NulFree(s) && ValidPieces(ps) && StartsAt(s, i, StrText(ps))
    ensures i + |StrText(ps)| <= |s|
    ensures ParseValue(s, i, key, acc) ==
      Parsed(M.Insert(StrCmp, acc, Entry(key, Text(Says(ps)), OD_DUP_ALL)), i + |StrText(ps)|)
  {
    hide M.Insert, IsSpace, StartsAt, Unquote, StrText, Says, ParseDict, NulFree;
    ReadsStr(s, i, ps);
    SaysNulFree(ps);
    CStringOfNulFree(Says(ps));
  }

  lemma NumValue(s: bytes, i: nat, key: bytes, ds: bytes, tail: bytes, acc: JTree)
    requires NulFree(s) && ds != [] && AllDigits(ds) && Ends(tail) && StartsAt(s, i, ds + tail)
    ensures i + |ds| <= |s|
    ensures ParseValue(s, i, key, acc) == Parsed(M.Insert(StrCmp, acc, Entry(key, Text(ds), OD_DUP_ALL)), i + |ds|)
  {
    hide M.Insert, IsSpace, IsDigit, StartsAt, Unquote, ParseDict, NulFree;
    Marks();
    StartsSplit(s, i, ds, tail);
    InText(s, i, ds);
    StartsElements(s, i, ds);
    assert s[i + 0] == ds[0];
    SkipsDigits(s, i, ds, tail);
    DigitsText(s, i, ds);
  }

  lemma ObjValue(s: bytes, i: nat, key: bytes, rest: bytes, acc: JTree)
    requires NulFree(s) && StartsAt(s, i, [OPEN] + rest) && ParseDict(s, i).Parsed?
    ensures ParseValue(s, i, key, acc) ==
      Parsed(M.Insert(StrCmp, acc, Entry(key, Sub(ParseDict(s, i).t), OD_SUBDICT)), ParseDict(s, i).next)
  {
    hide M.Insert, ParseDict, NulFree;
    assert s[i] == s[i..i + |[OPEN] + rest|][0] == OPEN;
  }

  // The first digit has been looked at when the others are skipped.
  lemma DigitsText(s: bytes, i: nat, ds: bytes)
    requires ds != [] && StartsAt(s, i, ds) && AllDigits(ds)
    ensures SkipDigits(s, i) == SkipDigits(s, i + 1) && s[i..i + |ds|] == ds
  {
    StartsElements(s, i, ds);
    assert s[i + 0] == ds[0];
  }

  lemma {:induction false} ReadsObject(s: bytes, i: nat, gap: bytes, ms: Members)
    requires NulFree(s) && AllSpace(gap) && ValidMembers(ms) && StartsAt(s, i, [OPEN] + (gap + MembersText(ms)))
    ensures i + 1 + |gap| + |MembersText(ms)| <= |s|
    ensures ParseDict(s, i) == Parsed(TreeOf(ms), i + 1 + |gap| + |MembersText(ms)|)
    decreases ms, 6
  {
    hide M.InsertAll, IsSpace, ParseMembers, StartsAt, MembersText, NulFree, EntriesOf;
    Marks();
    MembersStart(ms);
    StartsSplit(s, i, [OPEN], gap + MembersText(ms));
    InText(s, i, [OPEN]);
    StartsElements(s, i, [OPEN]);
    assert s[i + 0] == [OPEN][0];
    assert [] + [OPEN] == [OPEN];
    SkipsGap(s, i, [], [OPEN]);
    SkipsGap(s, i + 1, gap, MembersText(ms));
    ReadsMembers(s, i + 1 + |gap|, Nil, ms);
  }

  lemma MembersStart(ms: Members)
    requires ValidMembers(ms)
    ensures var t := MembersText(ms); t != [] && !IsSpace(t[0]) && (ms.Empty? <==> t[0] == CLOSE)
  {
    hide IsSpace, Spell, ValueText;
    Marks();
  }

  lemma {:induction false} ReadsMember(s: bytes, i: nat, acc: JTree, m: Member, tail: bytes)
    requires NulFree(s) && ValidMember(m) && (tail != [] && (tail[0] == CLOSE || tail[0] == COMMA))
    requires StartsAt(s, i, MemberThen(m, tail))
    ensures var end := i + |MemberThen(m, tail)| - |tail|;
      && end < |s| && At(s, i) == QUOTE && At(s, end) == tail[0] && StartsAt(s, end, tail)
      && var o := ParseMember(s, i, acc);
      && o.Parsed? && o.t == M.Insert(StrCmp, acc, EntryOf(m)) && SkipSpace(s, o.next) == end
    decreases m, 4
  {
    hide M.Insert, IsSpace, IsDigit, ParseValue, StartsAt, ValueText, NulFree, StrText, Says, Unquote, SkipSpace,
      JsonOf;
    Marks();
    ValueStarts(m.value);
    var k, v := StrText(m.key), ValueText(m.value);
    var behind := m.end + tail;
    var colon := [COLON] + (m.after + (v + behind));
    StartsSplit(s, i, k, m.before + colon);
    ReadsStr(s, i, m.key);
    SaysNulFree(m.key);
    CStringOfNulFree(Says(m.key));
    SkipsGap(s, i + |k|, m.before, colon);
    var c := i + |k| + |m.before|;
    StartsSplit(s, c, [COLON], m.after + (v + behind));
    SkipsGap(s, c + 1, m.after, v + behind);
    EndsMember(m.end, tail);
    ReadsValue(s, c + 1 + |m.after|, Says(m.key), m.value, behind, acc);
    SkipsGap(s, c + 1 + |m.after| + |v|, m.end, tail);
  }

  lemma EndsMember(end: bytes, tail: bytes)
    requires AllSpace(end) && tail != [] && (tail[0] == CLOSE || tail[0] == COMMA)
    ensures Ends(end + tail)
  {
    hide IsSpace, IsDigit;
    Marks();
    assert (end + tail)[0] == if end == [] then tail[0] else end[0];
  }

  lemma {:induction false} ReadsMembers(s: bytes, i: nat, acc: JTree, ms: Members)
    requires NulFree(s) && ValidMembers(ms) && StartsAt(s, i, MembersText(ms))
    ensures i + |MembersText(ms)| <= |s|
    ensures ParseMembers(s, i, acc) == Parsed(M.InsertAll(StrCmp, acc, EntriesOf(ms)), i + |MembersText(ms)|)
    decreases ms, 5
  {
    hide M.Insert, M.InsertAll, ParseMembers, StartsAt, NulFree, MemberThen, EntryOf, ValidMember, AllSpace, IsSpace;
    InText(s, i, MembersText(ms));
    match ms {
      case Empty =>
        ClosingStep(s, i, acc);
        M.InsertAllNone(StrCmp, acc);
      case Last(m) =>
        LastReads(s, i, acc, m);
        AddsOne(acc, EntryOf(m), []);
      case More(m, gap, rest) =>
        MembersStart(rest);
        MoreReads(s, i, acc, m, gap, MembersText(rest));
        ReadsMembers(s, i + |MembersText(ms)| - |MembersText(rest)|, M.Insert(StrCmp, acc, EntryOf(m)), rest);
        AddsOne(acc, EntryOf(m), EntriesOf(rest));
    }
  }

  lemma {:induction false} LastReads(s: bytes, i: nat, acc: JTree, m: Member)
    requires NulFree(s) && ValidMember(m) && StartsAt(s, i, MemberThen(m, [CLOSE]))
    ensures ParseMembers(s, i, acc) ==
      Parsed(M.Insert(StrCmp, acc, EntryOf(m)), i + |MemberThen(m, [CLOSE])|)
    decreases m, 5
  {
    hide M.Insert, ParseMember, ParseMembers, StartsAt, NulFree, MemberThen, EntryOf, SkipSpace, ValidMember, At;
    ReadsMember(s, i, acc, m, [CLOSE]);
    LastStep(s, i, acc);
  }

  lemma {:induction false} MoreReads(s: bytes, i: nat, acc: JTree, m: Member, gap: bytes, body: bytes)
    requires NulFree(s) && ValidMember(m) && AllSpace(gap) && body != [] && !IsSpace(body[0])
    requires StartsAt(s, i, MemberThen(m, [COMMA] + (gap + body)))
    ensures var t := MemberThen(m, [COMMA] + (gap + body));
      && |body| <= |t| && i + |t| <= |s| && StartsAt(s, i + |t| - |body|, body)
      && ParseMembers(s, i, acc) == ParseMembers(s, i + |t| - |body|, M.Insert(StrCmp, acc, EntryOf(m)))
    decreases m, 5
  {
    hide M.Insert, ParseMember, ParseMembers, StartsAt, NulFree, MemberThen, EntryOf, SkipSpace, ValidMember, At,
      AllSpace, IsSpace;
    var next := [COMMA] + (gap + body);
    InText(s, i, MemberThen(m, next));
    ReadsMember(s, i, acc, m, next);
    var end := i + |MemberThen(m, next)| - |next|;
    StartsSplit(s, end, [COMMA], gap + body);
    SkipsGap(s, end + 1, gap, body);
    MoreStep(s, i, acc);
  }

  // How the loop goes on.
  lemma ClosingStep(s: bytes, i: nat, acc: JTree)
    requires NulFree(s) && StartsAt(s, i, [CLOSE])
    ensures ParseMembers(s, i, acc) == Parsed(acc, i + 1)
  {
    assert s[i] == s[i..i + 1][0];
  }

  lemma LastStep(s: bytes, i: nat, acc: JTree)
    requires NulFree(s) && i <= |s| && At(s, i) == QUOTE && ParseMember(s, i, acc).Parsed?
    requires At(s, SkipSpace(s, ParseMember(s, i, acc).next)) == CLOSE
    ensures ParseMembers(s, i, acc) ==
      Parsed(ParseMember(s, i, acc).t, SkipSpace(s, ParseMember(s, i, acc).next) + 1)
  {
    hide ParseMember, SkipSpace;
  }

  lemma MoreStep(s: bytes, i: nat, acc: JTree)
    requires NulFree(s) && i <= |s| && At(s, i) == QUOTE && ParseMember(s, i, acc).Parsed?
    requires At(s, SkipSpace(s, ParseMember(s, i, acc).next)) == COMMA
    ensures var m := ParseMember(s, i, acc);
      ParseMembers(s, i, acc) == ParseMembers(s, SkipSpace(s, SkipSpace(s, m.next) + 1), m.t)
  {
    hide ParseMember, SkipSpace;
  }

  lemma AddsOne(acc: JTree, e: JEntry, es: seq<JEntry>)
    ensures M.InsertAll(StrCmp, acc, [e] + es) == M.InsertAll(StrCmp, M.Insert(StrCmp, acc, e), es)
    ensures M.InsertAll(StrCmp, acc, [e]) == M.Insert(StrCmp, acc, e)
  {
    M.InsertAllCons(StrCmp, acc, e, es);
    M.InsertAllCons(StrCmp, acc, e, []);
    M.InsertAllNone(StrCmp, M.Insert(StrCmp, acc, e));
    assert [e] + [] == [e];
  }

  // ---------- whole texts ----------

  // A text that is read: a dictionary, with space in front of it and behind it.
  ghost predicate TextIs(s: bytes, front: bytes, gap: bytes, ms: Members, back: bytes) {
    && AllSpace(front) && AllSpace(gap) && ValidMembers(ms) && AllSpace(back)
    && s == front + ([OPEN] + (gap + MembersText(ms))) + back
  }

  /** Every such text is read as exactly its keys and values. */
  lemma ReadsText(s: bytes, front: bytes, gap: bytes, ms: Members, back: bytes)
    requires NulFree(s) && TextIs(s, front, gap, ms, back)
    ensures FromJson(s) == Parsed(TreeOf(ms), |s| - |back|)
  {
    hide IsSpace, ParseMembers, StartsAt, MembersText, NulFree, TreeOf, ParseDict, SkipSpace;
    var braces := [OPEN] + (gap + MembersText(ms));
    Marks();
    Assoc(front, braces, back);
    assert StartsAt(s, 0, front + (braces + back)) by {
      WholeText(s);
    }
    SkipsGap(s, 0, front, braces + back);
    StartsSplit(s, |front|, braces, back);
    ReadsObject(s, |front|, gap, ms);
    SkipsFront(s, |front|);
    SkipsBack(s, back);
  }

  lemma WholeText(s: bytes)
    ensures StartsAt(s, 0, s)
  {
    assert s[0..|s|] == s;
  }

  // Space in front of a dictionary is skipped.
  lemma SkipsFront(s: bytes, i: nat)
    requires NulFree(s) && i < |s| && SkipSpace(s, 0) == i && s[i] == OPEN
    ensures ParseDict(s, 0) == ParseDict(s, i)
  {
    Marks();
    hide IsSpace;
    assert SkipSpace(s, i) == i;
  }

  lemma {:induction false} SkipsBack(s: bytes, back: bytes)
    requires AllSpace(back) && |back| <= |s| && s[|s| - |back|..] == back
    ensures SkipSpace(s, |s| - |back|) == |s|
    decreases |back|
  {
    if back != [] {
      var i := |s| - |back|;
      assert s[i] == s[i..][0] == back[0];
      assert s[i + 1..] == s[i..][1..] == back[1..];
      SkipsBack(s, back[1..]);
    }
  }

  // ---------- nothing else is read ----------

  lemma {:induction false} GapRead(s: bytes, i: nat)
    requires i <= |s|
    ensures AllSpace(s[i..SkipSpace(s, i)])
    ensures var j := SkipSpace(s, i); j < |s| ==> !IsSpace(s[j])
    decreases |s| - i
  {
    hide IsSpace;
    if i < |s| && IsSpace(s[i]) {
      GapRead(s, i + 1);
      assert s[i..SkipSpace(s, i)] == [s[i]] + s[i + 1..SkipSpace(s, i + 1)];
    }
  }

  lemma {:induction false} DigitsRead(s: bytes, i: nat)
    requires i <= |s|
    ensures AllDigits(s[i..SkipDigits(s, i)])
    decreases |s| - i
  {
    hide IsDigit;
    if i < |s| && IsDigit(s[i]) {
      DigitsRead(s, i + 1);
      assert s[i..SkipDigits(s, i)] == [s[i]] + s[i + 1..SkipDigits(s, i + 1)];
    }
  }

  lemma Between(s: bytes, i: nat, part: bytes)
    requires StartsAt(s, i, part)
    ensures i + |part| <= |s| && s[i..i + |part|] == part
  {
  }

  // What one turn of the string reader read.
  lemma PieceRead(s: bytes, i: nat) returns (p: Piece)
    requires NulFree(s) && i < |s| && s[i] != QUOTE && ReadStep(s, i, QUOTE).Emit?
    requires ReadStep(s, i, QUOTE).next <= |s|
    ensures ValidPiece(p) && ReadStep(s, i, QUOTE) == Emit(PieceSays(p), i + |PieceText(p)|)
    ensures s[i..ReadStep(s, i, QUOTE).next] == PieceText(p)
  {
    var next := ReadStep(s, i, QUOTE).next;
    if s[i] != BACKSLASH {
      p := Plain(s[i]);
    } else if s[i + 1] != LETTER_U {
      p := Escaped(s[i + 1]);
      assert s[i..i + 2] == [s[i], s[i + 1]];
    } else {
      hide EscapeCodePoint, ReadStep, StartsAt, Utf8, IsSurrogate;
      var cp, upper := EscapeRead(s, i, QUOTE);
      ReadsCodePoint(s, i, cp, upper, QUOTE);
      p := Unicode(cp, upper);
      Between(s, i, EscapeCodePoint(cp, upper));
    }
  }

  lemma {:induction false} PiecesRead(s: bytes, i: nat) returns (ps: seq<Piece>)
    requires NulFree(s) && i <= |s| && ReadUntil(s, i, QUOTE).Done?
    ensures ValidPieces(ps) && ReadUntil(s, i, QUOTE).out == Says(ps)
    ensures i < ReadUntil(s, i, QUOTE).next <= |s| && s[i..ReadUntil(s, i, QUOTE).next] == Spell(ps) + [QUOTE]
    decreases |s| - i
  {
    hide ReadStep, ValidPiece, PieceText, PieceSays, NulFree;
    if At(s, i) == QUOTE {
      ps := [];
      assert s[i..i + 1] == [QUOTE] == Spell([]) + [QUOTE];
    } else {
      var next := ReadStep(s, i, QUOTE).next;
      assert i < |s| && next <= |s|;
      var p := PieceRead(s, i);
      var rest := PiecesRead(s, next);
      ps := [p] + rest;
      var end := ReadUntil(s, next, QUOTE).next;
      assert ps[1..] == rest;
      assert s[i..end] == s[i..next] + s[next..end];
      Assoc(PieceText(p), Spell(rest), [QUOTE]);
    }
  }

  lemma StrRead(s: bytes, i: nat) returns (ps: seq<Piece>)
    requires NulFree(s) && i <= |s| && At(s, i) == QUOTE && Unquote(s, i).Done?
    ensures ValidPieces(ps) && Unquote(s, i).out == Says(ps)
    ensures i < Unquote(s, i).next <= |s| && s[i..Unquote(s, i).next] == StrText(ps)
  {
    hide ReadUntil, Spell, Says, ValidPieces, NulFree;
    ps := PiecesRead(s, i + 1);
    var next := ReadUntil(s, i + 1, QUOTE).next;
    assert s[i..next] == [s[i]] + s[i + 1..next];
  }

  // A key that is read stands between quotes.
  lemma KeyQuoted(s: bytes, i: nat)
    requires NulFree(s) && i <= |s| && ParseKey(s, i).Key?
    ensures At(s, i) == QUOTE && Unquote(s, i).Done? && Unquote(s, i).next <= |s|
  {
    if At(s, i) != QUOTE {
      UnquotedEnd(s, i);
    }
  }

  // Without a quote the reader goes on to the end of the text.
  lemma {:induction false} UnquotedEnd(s: bytes, i: nat)
    requires NulFree(s) && i <= |s| + 2
    ensures ReadUntil(s, i, NUL).Done? ==> ReadUntil(s, i, NUL).next > |s|
    decreases |s| + 2 - i
  {
    hide ReadStep;
    if i <= |s| && At(s, i) != NUL && ReadStep(s, i, NUL).Emit? {
      UnquotedEnd(s, ReadStep(s, i, NUL).next);
    }
  }

  lemma Sliced(s: bytes, i: nat, j: nat, k: nat)
    requires i <= j <= k <= |s|
    ensures s[i..k] == s[i..j] + s[j..k]
  {
  }

  // A key, the space behind it, the colon, and the space behind that.
  lemma KeyRead(s: bytes, i: nat) returns (ps: seq<Piece>, before: bytes, after: bytes)
    requires NulFree(s) && i <= |s| && ParseKey(s, i).Key?
    ensures At(s, i) == QUOTE && ValidPieces(ps) && AllSpace(before) && AllSpace(after)
    ensures ParseKey(s, i).key == Says(ps)
    ensures s[i..ParseKey(s, i).next] == StrText(ps) + (before + ([COLON] + after))
  {
    hide Unquote, StrText, Says, ValidPieces, AllSpace, CString, SkipSpace, IsSpace, NulFree;
    KeyQuoted(s, i);
    ps := StrRead(s, i);
    SaysNulFree(ps);
    CStringOfNulFree(Says(ps));
    var a := Unquote(s, i).next;
    var b := SkipSpace(s, a);
    var c := SkipSpace(s, b + 1);
    before, after := s[a..b], s[b + 1..c];
    GapRead(s, a);
    GapRead(s, b + 1);
    Sliced(s, i, a, c);
    Sliced(s, a, b, c);
    Sliced(s, b, b + 1, c);
    assert s[b..b + 1] == [COLON];
  }

  lemma {:induction false} ValueRead(s: bytes, i: nat, key: bytes, acc: JTree) returns (v: Value)
    requires NulFree(s) && i <= |s| && ParseValue(s, i, key, acc).Parsed?
    ensures ValidValue(v) && s[i..ParseValue(s, i, key, acc).next] == ValueText(v)
    ensures ParseValue(s, i, key, acc).t ==
      M.Insert(StrCmp, acc, Entry(key, JsonOf(v), if v.Obj? then OD_SUBDICT else OD_DUP_ALL))
    decreases |s| - i, 1
  {
    hide M.Insert, ParseDict, Unquote, MembersText, TreeOf, StrText, Says, ValidPieces, ValidMembers, NulFree, IsSpace,
      IsDigit, CString, AllSpace, SkipDigits;
    if At(s, i) == OPEN {
      var front, gap, ms := ObjectRead(s, i);
      v := Obj(gap, ms);
    } else if IsDigit(At(s, i)) {
      DigitsRead(s, i);
      v := Num(s[i..SkipDigits(s, i + 1)]);
      DigitFirst(s, i);
    } else {
      var ps := StrRead(s, i);
      v := Str(ps);
      SaysNulFree(ps);
      CStringOfNulFree(Says(ps));
    }
  }

  lemma DigitFirst(s: bytes, i: nat)
    requires i <= |s| && IsDigit(At(s, i))
    ensures i < |s| && SkipDigits(s, i) == SkipDigits(s, i + 1)
  {
  }

  // Space, and a dictionary; none when the text starts with its brace.
  lemma {:induction false} ObjectRead(s: bytes, i: nat) returns (front: bytes, gap: bytes, ms: Members)
    requires NulFree(s) && i <= |s| && ParseDict(s, i).Parsed?
    ensures AllSpace(front) && AllSpace(gap) && ValidMembers(ms) && ParseDict(s, i).t == TreeOf(ms)
    ensures s[i..ParseDict(s, i).next] == front + ([OPEN] + (gap + MembersText(ms)))
    ensures At(s, i) == OPEN ==> front == []
    decreases |s| - i, 0
  {
    hide ParseMembers, MembersText, ValidMembers, NulFree, SkipSpace, EntriesOf, M.InsertAll, AllSpace;
    var a := SkipSpace(s, i);
    var b := SkipSpace(s, a + 1);
    assert At(s, i) == OPEN ==> a == i by {
      NoGap(s, i);
    }
    front, gap := s[i..a], s[a + 1..b];
    GapRead(s, i);
    GapRead(s, a + 1);
    ms := MembersRead(s, b, Nil);
    var end := ParseMembers(s, b, Nil).next;
    Sliced(s, i, a, end);
    Sliced(s, a, a + 1, end);
    Sliced(s, a + 1, b, end);
    assert s[a..a + 1] == [OPEN];
  }

  lemma NoGap(s: bytes, i: nat)
    requires i <= |s|
    ensures At(s, i) == OPEN ==> SkipSpace(s, i) == i
  {
    Marks();
  }

  // One member, and whatever stands behind the space behind it.
  lemma {:induction false} MemberRead(s: bytes, i: nat, acc: JTree, tail: bytes) returns (m: Member)
    requires NulFree(s) && i <= |s| && ParseMember(s, i, acc).Parsed?
    ensures ValidMember(m) && ParseMember(s, i, acc).t == M.Insert(StrCmp, acc, EntryOf(m))
    ensures s[i..SkipSpace(s, ParseMember(s, i, acc).next)] + tail == MemberThen(m, tail)
    decreases |s| - i, 1, 0
  {
    hide M.Insert, ParseKey, ParseValue, StrText, ValueText, ValidValue, ValidPieces, NulFree, SkipSpace, AllSpace,
      Says;
    var ps, before, after := KeyRead(s, i);
    var a := ParseKey(s, i).next;
    var v := ValueRead(s, a, Says(ps), acc);
    var b := ParseMember(s, i, acc).next;
    var c := SkipSpace(s, b);
    GapRead(s, b);
    m := Member(ps, before, after, v, s[b..c]);
    Sliced(s, i, a, c);
    Sliced(s, a, b, c);
    var k, t := StrText(ps), ValueText(v);
    assert s[i..c] == k + (before + ([COLON] + after)) + (t + m.end);
    Regroup(k, before, after, t, m.end, tail);
  }

  lemma Regroup(k: bytes, before: bytes, after: bytes, t: bytes, end: bytes, tail: bytes)
    ensures k + (before + ([COLON] + after)) + (t + end) + tail ==
      k + (before + ([COLON] + (after + (t + (end + tail)))))
  {
    var colon := [COLON] + after;
    Assoc(k + (before + colon), t + end, tail);
    Assoc(t, end, tail);
    Assoc(k, before + colon, t + (end + tail));
    Assoc(before, colon, t + (end + tail));
    Assoc([COLON], after, t + (end + tail));
  }

  lemma {:induction false} MembersRead(s: bytes, i: nat, acc: JTree) returns (ms: Members)
    requires NulFree(s) && i <= |s| && ParseMembers(s, i, acc).Parsed?
    ensures ValidMembers(ms) && ParseMembers(s, i, acc).t == M.InsertAll(StrCmp, acc, EntriesOf(ms))
    ensures s[i..ParseMembers(s, i, acc).next] == MembersText(ms)
    decreases |s| - i, 2
  {
    hide M.InsertAll, ParseMember, NulFree, SkipSpace, AllSpace, MemberThen, EntryOf, ValidMember, At;
    if At(s, i) == CLOSE {
      ms := Empty;
      M.InsertAllNone(StrCmp, acc);
      OneByte(s, i, CLOSE);
      return;
    }
    var o := ParseMember(s, i, acc);
    var sep := SkipSpace(s, o.next);
    if At(s, sep) == CLOSE {
      var m := MemberRead(s, i, acc, [CLOSE]);
      ms := Last(m);
      AddsOne(acc, EntryOf(m), []);
      OneByte(s, sep, CLOSE);
      Sliced(s, i, sep, sep + 1);
    } else {
      var next := SkipSpace(s, sep + 1);
      var rest := MembersRead(s, next, o.t);
      var end := ParseMembers(s, next, o.t).next;
      var gap := s[sep + 1..next];
      GapRead(s, sep + 1);
      var m := MemberRead(s, i, acc, [COMMA] + (gap + MembersText(rest)));
      ms := More(m, gap, rest);
      AddsOne(acc, EntryOf(m), EntriesOf(rest));
      OneByte(s, sep, COMMA);
      BehindComma(s, i, sep, next, end, gap, MembersText(rest));
    }
  }

  lemma OneByte(s: bytes, i: nat, b: byte)
    requires i <= |s| && At(s, i) == b && b != NUL
    ensures i < |s| && s[i..i + 1] == [b]
  {
  }

  lemma BehindComma(s: bytes, i: nat, sep: nat, next: nat, end: nat, gap: bytes, rest: bytes)
    requires i <= sep < next <= end <= |s| && s[sep..sep + 1] == [COMMA]
    requires gap == s[sep + 1..next] && rest == s[next..end]
    ensures s[i..end] == s[i..sep] + ([COMMA] + (gap + rest))
  {
    Sliced(s, i, sep, end);
    Sliced(s, sep, sep + 1, end);
    Sliced(s, sep + 1, next, end);
  }

  /** A text is read if and only if it is one of these, and then as what it says: with a
      comma behind the last member or without, and nothing but space around. */
  lemma ReadIff(s: bytes)
    requires NulFree(s)
    ensures FromJson(s).Parsed? <==>
      exists front: bytes, gap: bytes, ms: Members, back: bytes :: TextIs(s, front, gap, ms, back)
    ensures forall front: bytes, gap: bytes, ms: Members, back: bytes :: TextIs(s, front, gap, ms, back) ==>
      FromJson(s).t == TreeOf(ms)
  {
    hide TextIs, ParseDict, TreeOf, SkipSpace;
    forall front: bytes, gap: bytes, ms: Members, back: bytes | TextIs(s, front, gap, ms, back)
      ensures FromJson(s).Parsed? && FromJson(s).t == TreeOf(ms)
    {
      ReadsText(s, front, gap, ms, back);
    }
    if FromJson(s).Parsed? {
      var front, gap, ms := ObjectRead(s, 0);
      var next := ParseDict(s, 0).next;
      GapRead(s, next);
      Sliced(s, 0, next, |s|);
      assert TextIs(s, front, gap, ms, s[next..]) by {
        assert s[0..|s|] == s && s[next..|s|] == s[next..];
        ItIs(s, front, gap, ms, s[next..]);
      }
    }
  }

  lemma ItIs(s: bytes, front: bytes, gap: bytes, ms: Members, back: bytes)
    requires AllSpace(front) && AllSpace(gap) && ValidMembers(ms) && AllSpace(back)
    requires s == front + ([OPEN] + (gap + MembersText(ms))) + back
    ensures TextIs(s, front, gap, ms, back)
  {
  }
}
