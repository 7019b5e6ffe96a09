/** What follows the headers of a request, and what a whole request is read as, however it
    is cut. */
module RequestBody {
  import opened Wrappers
  import opened AATree
  import M = Multimap
  import opened Bytes
  import opened RequestText
  import Q = Query

  // ---------- numbers ----------

  ghost predicate AllDigits(s: bytes) {
    forall i :: 0 <= i < |s| ==> IsDigit(s[i])
  }

  lemma DigitBytes(d: nat)
    requires d < 10
    ensures IsDigit(HexDigit(d)) && (HexDigit(d) - 0x30) as nat == d
  {
  }

  lemma {:induction false} DigitsJoin(s: bytes, t: bytes, acc: nat)
    requires AllDigits(s)
    ensures Digits(s + t, acc) == Digits(t, Digits(s, acc))
    decreases |s|
  {
    if s == [] {
      assert s + t == t;
    } else {
      assert (s + t)[1..] == s[1..] + t;
      DigitsJoin(s[1..], t, 10 * acc + (s[0] - 0x30) as nat);
    }
  }

  lemma {:induction false} DigitsOfDecimal(n: nat)
    ensures Decimal(n) != [] && AllDigits(Decimal(n)) && Digits(Decimal(n), 0) == n
  {
    hide IsDigit, HexDigit;
    var d := HexDigit(n % 10);
    DigitBytes(n % 10);
    assert [d][1..] == [];
    if n >= 10 {
      DigitsOfDecimal(n / 10);
      DigitsJoin(Decimal(n / 10), [d], 0);
    }
  }

  // A number at the start of a text: white space, a sign, zeros, the digits, and what
  // follows them. Without digits it is zero.
  datatype Numeral = Numeral(blank: bytes, sign: bytes, zeros: bytes, n: Option<nat>, rest: bytes)
  {
    function Figures(): bytes { zeros + (if n.Some? then Decimal(n.value) else []) }

    function Text(): bytes { blank + (sign + (Figures() + rest)) }

    ghost predicate Valid() {
      && (forall i :: 0 <= i < |blank| ==> blank[i] == SPACE || 9 <= blank[i] <= 13)
      && (sign == [] || sign == [0x2B] || sign == [0x2D])
      && (forall i :: 0 <= i < |zeros| ==> zeros[i] == 0x30)
      && (rest != [] ==> !IsDigit(rest[0]))
      && (n.None? && sign + zeros == [] && rest != [] ==>
            rest[0] != SPACE && !(9 <= rest[0] <= 13) && rest[0] != 0x2B && rest[0] != 0x2D)
    }

    function Value(): int { if n.None? then 0 else if sign == [0x2D] then -(n.value as int) else n.value }
  }

  ghost predicate Number(s: bytes, n: int) {
    exists w: Numeral :: w.Valid() && w.Text() == s && w.Value() == n
  }

  // The number in the range of 64 bits with a sign that comes nearest.
  function Limited(n: int): int {
    if n > 0x7FFF_FFFF_FFFF_FFFF then 0x7FFF_FFFF_FFFF_FFFF
    else if n < -0x8000_0000_0000_0000 then -0x8000_0000_0000_0000
    else n
  }

  lemma {:induction false} SkipsWhite(b: bytes, t: bytes)
    requires forall i :: 0 <= i < |b| ==> b[i] == SPACE || 9 <= b[i] <= 13
    requires t != [] ==> t[0] != SPACE && !(9 <= t[0] <= 13)
    ensures SkipBlanks(b + t) == t
  {
    if b == [] {
      assert b + t == t;
    } else {
      assert (b + t)[1..] == b[1..] + t;
      SkipsWhite(b[1..], t);
    }
  }

  lemma {:induction false} ZeroDigits(z: bytes)
    requires forall i :: 0 <= i < |z| ==> z[i] == 0x30
    ensures AllDigits(z) && Digits(z, 0) == 0
  {
    if z != [] {
      ZeroDigits(z[1..]);
    }
  }

  lemma NumeralDigits(w: Numeral)
    requires w.Valid()
    ensures var t := w.Figures() + w.rest;
      && Digits(t, 0) == (if w.n.Some? then w.n.value else 0)
      && (if w.Figures() == [] then t == w.rest else IsDigit(t[0]))
  {
    hide Decimal, IsDigit, Digits;
    var d := if w.n.Some? then Decimal(w.n.value) else [];
    var v := if w.n.Some? then w.n.value else 0;
    ZeroDigits(w.zeros);
    assert AllDigits(d) && Digits(d, 0) == v by {
      if w.n.Some? {
        DigitsOfDecimal(v);
      } else {
        DigitsEnd(d, 0);
      }
    }
    Assoc(w.zeros, d, w.rest);
    DigitsJoin(w.zeros, d + w.rest, 0);
    DigitsJoin(d, w.rest, 0);
    DigitsEnd(w.rest, v);
    assert w.zeros != [] ==> IsDigit(w.zeros[0]) && (w.Figures() + w.rest)[0] == w.zeros[0];
    assert w.zeros == [] ==> w.Figures() == d;
  }

  lemma DigitsEnd(s: bytes, acc: nat)
    requires s != [] ==> !IsDigit(s[0])
    ensures Digits(s, acc) == acc
  {
  }

  /** A number is read as it stands, behind white space, with a sign or without, up to the
      first other character; beyond 64 bits as the end of their range. */
  lemma ReadsNumber(w: Numeral)
    requires w.Valid()
    ensures AtoL(w.Text()) == Limited(w.Value())
  {
    hide Decimal, Digits, SkipBlanks, Numeral.Figures;
    var digits := w.Figures() + w.rest;
    NumeralDigits(w);
    var t := w.sign + digits;
    assert w.sign != [] ==> t[0] == w.sign[0] && t[1..] == digits;
    assert w.sign == [] ==> t == digits;
    assert w.Figures() == [] ==> w.zeros == [] && w.n.None? by {
      NoFigures(w);
    }
    SkipsWhite(w.blank, t);
  }

  lemma NoFigures(w: Numeral)
    ensures w.Figures() == [] ==> w.zeros == [] && w.n.None?
  {
    if w.n.Some? {
      DigitsOfDecimal(w.n.value);
    }
  }

  // ---------- headers ----------

  function ValueOf(l: Line): bytes { Joined(l.first, l.more) }

  // A header has that name, in any letters.
  predicate Named(h: Head, name: bytes, i: nat) {
    i < |h.headers| && SameLetters(h.headers[i].key, name)
  }

  ghost predicate Silent(h: Head, name: bytes) {
    forall i: nat :: !Named(h, name, i)
  }

  // One header has that name, and this is its value.
  ghost predicate Says(h: Head, name: bytes, value: bytes) {
    && (exists i: nat :: Named(h, name, i) && ValueOf(h.headers[i]) == value)
    && forall i: nat, j: nat :: Named(h, name, i) && Named(h, name, j) ==> i == j
  }

  // What a head that is read leads to: the headers are at their end.
  function Start(h: Head): State
    requires h.verb < |Verbs()|
  {
    State(Key, [], [], [], Meaning(h), |RenderHead(h)|)
  }

  lemma SameLettersSwap(a: bytes, b: bytes)
    ensures SameLetters(a, b) <==> SameLetters(b, a)
  {
    hide SameLetter;
    forall i | 0 <= i < |a| == |b| ensures SameLetter(a[i], b[i]) <==> SameLetter(b[i], a[i]) {
      SameLetterSwap(a[i], b[i]);
    }
  }

  lemma SameLetterSwap(a: byte, b: byte)
    ensures SameLetter(a, b) <==> SameLetter(b, a)
  {
  }

  /** Looking up a header finds the value of one of that name, in any letters, if there is
      one. */
  lemma HeaderFound(h: Head, name: bytes)
    ensures Header(Meaning(h), name).None? <==> Silent(h, name)
    ensures Header(Meaning(h), name).Some? ==>
      exists i: nat :: Named(h, name, i) && ValueOf(h.headers[i]) == Header(Meaning(h), name).value
  {
    hide LineMeaning, SameLetters, TotalPreorder, StrCaseCmp, M.InsertAll, M.Find, Joined;
    StrCaseCmpPreorder();
    var es := HeaderEntries(h.headers);
    var t := M.InsertAll(StrCaseCmp, Nil, es);
    assert Meaning(h).headers == t;
    HeaderFlags(h.headers);
    M.NothingSorted<bytes, bytes>(StrCaseCmp);
    M.InsertAllIsStableSort(StrCaseCmp, Nil, es);
    M.InsertAllAdds(StrCaseCmp, es);
    M.FindIffPresent(StrCaseCmp, t, name);
    var s := InOrder(t);
    forall i | 0 <= i < |h.headers| && Named(h, name, i) ensures M.HasKey(StrCaseCmp, s, name) {
      assert es[i] in multiset(s);
      var k :| 0 <= k < |s| && s[k] == es[i];
      SameLettersSwap(h.headers[i].key, name);
      CaseEqualIff(name, s[k].key);
    }
    if M.Find(StrCaseCmp, t, name).Node? {
      var e := M.Find(StrCaseCmp, t, name).entry;
      assert e == s[M.FindIndex(StrCaseCmp, t, name)];
      assert e in multiset(es);
      var i :| 0 <= i < |es| && es[i] == e;
      SameLettersSwap(h.headers[i].key, name);
      CaseEqualIff(name, e.key);
      assert Named(h, name, i);
    }
  }

  lemma HeaderFlags(hs: seq<Line>)
    ensures M.NoReplace(HeaderEntries(hs))
  {
  }

  lemma HeaderIs(h: Head, name: bytes, value: bytes)
    requires Says(h, name, value)
    ensures Header(Meaning(h), name) == Some(value)
  {
    hide Header, Meaning, Named;
    HeaderFound(h, name);
  }

  // ---------- which body follows ----------

  ghost predicate TypeHas(h: Head, word: bytes) { exists ct :: Says(h, TYPE_NAME, ct) && Within(word, ct) }

  ghost predicate TypeLacks(h: Head, word: bytes) {
    Silent(h, TYPE_NAME) || exists ct :: Says(h, TYPE_NAME, ct) && !Within(word, ct)
  }

  ghost predicate IsForm(h: Head) { h.verb == OR_POST && TypeHas(h, FORM) }

  ghost predicate IsParts(h: Head) { h.verb == OR_POST && TypeLacks(h, FORM) && TypeHas(h, BOUNDARY) }

  ghost predicate IsFile(h: Head) { h.verb == OR_PUT }

  ghost predicate IsPlain(h: Head) {
    h.verb != OR_PUT && (h.verb == OR_POST ==> TypeLacks(h, FORM) && TypeLacks(h, BOUNDARY))
  }

  // The length a request announces.
  ghost predicate Announces(h: Head, n: int) { exists v :: Says(h, LENGTH_NAME, v) && Number(v, n) }

  // That length as an unsigned number of 64 bits.
  function Length(n: int): nat { Limited(n) % 0x1_0000_0000_0000_0000 }

  // Its low 32 bits are a positive number with a sign.
  predicate Positive32(n: int) { 0 < Limited(n) % 0x1_0000_0000 < 0x8000_0000 }

  lemma TypeFound(h: Head, word: bytes)
    ensures TypeHas(h, word) ==>
      var ct := Header(Meaning(h), TYPE_NAME); ct.Some? && StrStr(ct.value, word).Some?
    ensures TypeLacks(h, word) ==>
      var ct := Header(Meaning(h), TYPE_NAME); ct.Some? ==> StrStr(ct.value, word).None?
  {
    hide Header, Meaning, Says, Silent, StrStr;
    HeaderFound(h, TYPE_NAME);
    forall ct | Says(h, TYPE_NAME, ct)
      ensures Header(Meaning(h), TYPE_NAME) == Some(ct) && (StrStr(ct, word).Some? <==> Within(word, ct))
    {
      HeaderIs(h, TYPE_NAME, ct);
      StrStrFinds(ct, word);
    }
  }

  lemma LengthFound(h: Head, n: int)
    requires Announces(h, n)
    ensures var cl := Header(Meaning(h), LENGTH_NAME);
      && cl.Some? && SizeT(AtoL(cl.value)) == Length(n) && (AtoI(cl.value) > 0 <==> Positive32(n))
  {
    hide Header, Meaning, Says, AtoL, Numeral.Valid, Numeral.Text, Numeral.Value;
    var v :| Says(h, LENGTH_NAME, v) && Number(v, n);
    var w: Numeral :| w.Valid() && w.Text() == v && w.Value() == n;
    HeaderIs(h, LENGTH_NAME, v);
    ReadsNumber(w);
    Low32(Limited(n));
  }

  lemma Low32(n: int)
    ensures (n + 0x8000_0000) % 0x1_0000_0000 - 0x8000_0000 > 0 <==> 0 < n % 0x1_0000_0000 < 0x8000_0000
  {
  }

  lemma StartHas(h: Head)
    requires h.verb < |Verbs()|
    ensures Start(h).req == Meaning(h) && Start(h).req.verb == h.verb && Start(h).body == []
  {
  }

  lemma FormDecides(sv: Server, h: Head, n: int)
    requires h.verb < |Verbs()| && IsForm(h) && Announces(h, n)
    ensures EndHeaders(sv, Start(h)) ==
      if Length(n) == 0 then Start(h).(phase := Ready)
      else if Length(n) > sv.maxPost then Start(h).(phase := Failed(OCS_INTERNAL_ERROR))
      else Start(h).(phase := Body(Form, Length(n)))
  {
    hide Start, Meaning, Header, StrStr, TypeHas, Announces, SizeT, AtoL;
    StartHas(h);
    TypeFound(h, FORM);
    LengthFound(h, n);
  }

  lemma PartsDecides(sv: Server, h: Head, n: int, k: nat, ct: bytes)
    requires h.verb < |Verbs()| && IsParts(h) && Announces(h, n)
    requires Length(n) > 0 ==> Says(h, TYPE_NAME, ct)
    ensures Length(n) == 0 ==> EndHeaders(sv, Start(h)) == Start(h).(phase := Ready)
    ensures Length(n) > 0 && !Within(BOUNDARY_IS, ct) ==>
      EndHeaders(sv, Start(h)) == Start(h).(phase := Failed(OCS_INTERNAL_ERROR))
    ensures Length(n) > 0 && FirstAt(ct, BOUNDARY_IS, k) ==>
      && |BOUNDARY_IS| <= |ct[k..]|
      && EndHeaders(sv, Start(h)) ==
           Start(h).(phase := Multipart(ct[k..][|BOUNDARY_IS|..],
                                        if Length(n) > sv.maxPost then sv.maxPost else Length(n)))
  {
    hide Start, Meaning, Header, StrStr, TypeHas, TypeLacks, Announces, SizeT, AtoL, Length, Says;
    StartHas(h);
    TypeFound(h, FORM);
    TypeFound(h, BOUNDARY);
    LengthFound(h, n);
    if Length(n) > 0 {
      HeaderIs(h, TYPE_NAME, ct);
      StrStrFinds(ct, BOUNDARY_IS);
      if FirstAt(ct, BOUNDARY_IS, k) {
        OneFirst(ct, BOUNDARY_IS, k);
      }
    }
  }

  lemma OneFirst(s: bytes, t: bytes, k: nat)
    requires FirstAt(s, t, k)
    ensures StrStr(s, t) == Some(k)
  {
    hide StrStr;
    StrStrFinds(s, t);
    var r := StrStr(s, t);
    assert r.Some? ==> !(r.value < k) && !(k < r.value);
  }

  lemma FileDecides(sv: Server, h: Head, n: int)
    requires h.verb < |Verbs()| && IsFile(h) && Announces(h, n)
    ensures EndHeaders(sv, Start(h)) ==
      if Length(n) > sv.maxFile then Start(h).(phase := Failed(OCS_INTERNAL_ERROR))
      else if Length(n) == 0 then Start(h).(phase := Ready, req := Meaning(h).(file := Some([])))
      else Start(h).(phase := Body(File, Length(n)))
  {
    hide Start, Meaning, Header, Announces, SizeT, AtoL;
    StartHas(h);
    LengthFound(h, n);
  }

  lemma PlainDecides(sv: Server, h: Head, n: int)
    requires h.verb < |Verbs()| && IsPlain(h) && Announces(h, n)
    ensures EndHeaders(sv, Start(h)) ==
      if !Positive32(n) then Start(h).(phase := Ready)
      else if Length(n) > sv.maxPost then Start(h).(phase := Failed(OCS_INTERNAL_ERROR))
      else Start(h).(phase := Body(Raw, Length(n)))
  {
    hide Start, Meaning, Header, StrStr, TypeLacks, Announces, SizeT, AtoL, AtoI, Positive32;
    StartHas(h);
    TypeFound(h, FORM);
    TypeFound(h, BOUNDARY);
    LengthFound(h, n);
  }

  lemma SilentDecides(sv: Server, h: Head)
    requires h.verb < |Verbs()| && Silent(h, LENGTH_NAME)
    ensures IsPlain(h) ==> EndHeaders(sv, Start(h)) == Start(h).(phase := Ready)
    ensures IsForm(h) || IsParts(h) || IsFile(h) ==>
      EndHeaders(sv, Start(h)) == Start(h).(phase := Failed(OCS_INTERNAL_ERROR))
  {
    hide Start, Meaning, Header, StrStr, TypeHas, TypeLacks, SizeT, AtoL, AtoI, Silent;
    StartHas(h);
    HeaderFound(h, LENGTH_NAME);
    TypeFound(h, FORM);
    TypeFound(h, BOUNDARY);
  }

  // ---------- whole requests ----------

  // The last byte of the headers is not the second of a bad line end.
  lemma BeforeEnd(sv: Server, h: Head)
    requires Printable(h)
    ensures RenderHead(h) != []
    ensures var p := Feed(sv, Initial(), RenderHead(h)[..|RenderHead(h)| - 1]).phase; !p.Failed? && !p.SkipNL?
  {
    hide RequestLine, RenderHeaders, Meaning, Feed, OneHeader, Address, Word;
    var s, lines := RenderHead(h), RenderHeaders(h.headers);
    var c := if h.crlf then [CR] else [];
    var pre := RequestLine(h) + (lines + c);
    assert Eol(h.crlf) == c + [LF];
    assert s == pre + [LF] && s[..|s| - 1] == pre;
    assert pre + [COLON] == RequestLine(h) + (lines + (c + [COLON])) by {
      Assoc(RequestLine(h), lines + c, [COLON]);
      Assoc(lines, c, [COLON]);
    }
    FeedLines(sv, h, c + [COLON]);
    ColonLeads(sv, State(Key, [], [], [], Meaning(h), |RequestLine(h)| + |lines|), c);
    FeedSnoc(sv, Initial(), pre, COLON);
    ColonStep(sv, Feed(sv, Initial(), pre));
  }

  lemma ColonLeads(sv: Server, st: State, c: bytes)
    requires st.phase.Key? && st.tok == [] && (c == [] || c == [CR])
    ensures Feed(sv, st, c + [COLON]).phase.Value?
  {
    if c == [] {
      assert c + [COLON] == [COLON];
      FeedOne(sv, st, COLON);
    } else {
      FeedJoins(sv, st, c, [COLON]);
      FeedOne(sv, st, CR);
      FeedOne(sv, st.(used := st.used + 1), COLON);
    }
  }

  lemma ColonStep(sv: Server, st: State)
    requires Step(sv, st, COLON).phase.Value?
    ensures !st.phase.Failed? && !st.phase.SkipNL?
  {
  }

  // A run that stops at a byte which is not the second of a line end met no bad one.
  lemma StopsAt(sv: Server, s: bytes, n: nat)
    requires 0 < n <= |s| && Stopped(Feed(sv, Initial(), s[..n]).phase)
    requires var p := Feed(sv, Initial(), s[..n - 1]).phase; !p.Failed? && !p.SkipNL?
    ensures !MeetsBadLineEnd(sv, Initial(), s)
  {
    hide Feed;
    if i :| 0 <= i < |s| && BadLineEnd(Feed(sv, Initial(), s[..i]).phase, s[i]) {
      if i < n - 1 {
        var t := s[..n - 1];
        assert t[..i] == s[..i] && t[i] == s[i];
        BadLineEndDepends(sv, Initial(), t, i);
      } else if i >= n {
        assert s[..i] == s[..n] + s[n..i];
        FeedJoins(sv, Initial(), s[..n], s[n..i]);
        FeedStopped(sv, Feed(sv, Initial(), s[..n]), s[n..i]);
      }
    }
  }

  // Where a whole request leads, by what its headers lead to.
  ghost predicate LeadsTo(e: State, rest: bytes, st: State) {
    && (Stopped(e.phase) ==> st == e)
    && (e.phase.Body? && 0 < e.phase.left <= |rest| ==>
          var end := EndBody(e.(body := rest[..e.phase.left], used := e.used + e.phase.left));
          !end.phase.Failed? ==> st == end)
    && (e.phase.Body? && |rest| < e.phase.left ==>
          st == e.(body := rest, phase := Body(e.phase.kind, e.phase.left - |rest|), used := e.used + |rest|))
    && (e.phase.Multipart? ==> st == e.(body := rest, used := e.used + |rest|))
  }

  lemma WholeRun(sv: Server, h: Head, rest: bytes, chunks: seq<bytes>)
    requires Printable(h) && Flatten(chunks) == RenderHead(h) + rest && EndHeaders(sv, Start(h)).body == []
    ensures LeadsTo(EndHeaders(sv, Start(h)), rest, FeedChunks(sv, Initial(), chunks))
  {
    hide OneHeader, Address, Word, Start, EndHeaders, Feed, RenderHead, FeedChunks, MeetsBadLineEnd, EndBody;
    var e, s := EndHeaders(sv, Start(h)), RenderHead(h) + rest;
    HeadRoundTrip(sv, h, rest);
    StartIs(h);
    if Stopped(e.phase) {
      FeedStopped(sv, e, rest);
      RefusedAt(sv, h, rest);
      ChunkIndependence(sv, Initial(), chunks);
    } else if e.phase.Body? && e.phase.left > 0 {
      FeedBody(sv, e, rest);
      assert [] + rest == rest;
      if |rest| >= e.phase.left {
        assert [] + rest[..e.phase.left] == rest[..e.phase.left];
      }
      if !Feed(sv, e, rest).phase.Failed? {
        NoErrorNoBadLineEnd(sv, Initial(), s);
        ChunkIndependence(sv, Initial(), chunks);
      }
      if |rest| >= e.phase.left {
        BodyEnds(e.(body := rest[..e.phase.left], used := e.used + e.phase.left));
      }
    } else if e.phase.Multipart? {
      FeedMultipart(sv, e, rest);
      assert [] + rest == rest;
      NoErrorNoBadLineEnd(sv, Initial(), s);
      ChunkIndependence(sv, Initial(), chunks);
    }
  }

  lemma StartIs(h: Head)
    requires h.verb < |Verbs()|
    ensures Start(h) == State(Key, [], [], [], Meaning(h), |RenderHead(h)|)
  {
  }

  lemma RefusedAt(sv: Server, h: Head, rest: bytes)
    requires Printable(h) && Stopped(EndHeaders(sv, Start(h)).phase)
    ensures !MeetsBadLineEnd(sv, Initial(), RenderHead(h) + rest)
  {
    hide OneHeader, Address, Word, Start, EndHeaders, Feed, RenderHead, MeetsBadLineEnd;
    var head := RenderHead(h);
    var s, n := head + rest, |head|;
    HeadRoundTrip(sv, h, []);
    StartIs(h);
    FeedStopped(sv, EndHeaders(sv, Start(h)), []);
    assert head + [] == head;
    BeforeEnd(sv, h);
    assert s[..n] == head && s[..n - 1] == head[..n - 1];
    StopsAt(sv, s, n);
  }

  // A length is read as it is up to 63 bits.
  lemma LengthIs(n: nat)
    requires n < 0x8000_0000_0000_0000
    ensures Length(n) == n && (Positive32(n) <==> 0 < n % 0x1_0000_0000 < 0x8000_0000)
  {
  }

  /** A form, cut anywhere, is ready at the last byte of its body with exactly the pairs it
      was filled with, however keys and values are spelt; bytes behind it are not looked
      at. */
  lemma FormRoundTrip(sv: Server, h: Head, ps: seq<Q.Part>, body: bytes, chunks: seq<bytes>, behind: bytes)
    requires Printable(h) && IsForm(h) && Q.Complete(ps) && ps != []
    requires body in [Q.SpellAll(ps), Q.SpellAll(ps) + [0x26]]
    requires Announces(h, |body|) && |body| <= sv.maxPost && |body| < 0x8000_0000_0000_0000
    requires Flatten(chunks) == RenderHead(h) + (body + behind)
    ensures var st := FeedChunks(sv, Initial(), chunks);
      && st.phase == Ready && st.used == |RenderHead(h)| + |body|
      && st.req == Meaning(h).(post := Some(QueryTree(ps)))
  {
    hide Printable, Meaning, RenderHead, FeedChunks, EndHeaders, IsForm, Announces, Q.Complete, QueryTree;
    assert h.verb < |Verbs()| by {
      VerbOf(h);
    }
    LengthIs(|body|);
    SpeltBody(ps, body);
    FormDecides(sv, h, |body|);
    StartIs(h);
    WholeRun(sv, h, body + behind, chunks);
    assert (body + behind)[..|body|] == body;
  }

  lemma VerbOf(h: Head)
    requires Printable(h)
    ensures h.verb < |Verbs()|
  {
  }

  lemma SpeltBody(ps: seq<Q.Part>, body: bytes)
    requires Q.Complete(ps) && ps != [] && body in [Q.SpellAll(ps), Q.SpellAll(ps) + [0x26]]
    ensures body != [] && QueryDict(CString(body)) == Some(QueryTree(ps))
  {
    hide Q.RawPairs, Q.DecodeAll, M.InsertAll, Q.Complete, Q.SpellAll, NulFree;
    Q.ReadsQuery(ps);
    Q.SpeltSome(ps);
    assert NulFree(body) by {
      NulFreeMore(Q.SpellAll(ps));
    }
    CStringOfNulFree(body);
  }

  lemma NulFreeMore(s: bytes)
    requires NulFree(s)
    ensures NulFree(s + [0x26])
  {
  }

  /** A file that is put, cut anywhere, is ready at its last byte with exactly its bytes,
      also when it has none. */
  lemma FileRoundTrip(sv: Server, h: Head, body: bytes, chunks: seq<bytes>, behind: bytes)
    requires Printable(h) && IsFile(h)
    requires Announces(h, |body|) && |body| <= sv.maxFile && |body| < 0x8000_0000_0000_0000
    requires Flatten(chunks) == RenderHead(h) + (body + behind)
    ensures var st := FeedChunks(sv, Initial(), chunks);
      && st.phase == Ready && st.used == |RenderHead(h)| + |body|
      && st.req == Meaning(h).(file := Some(body))
  {
    hide Printable, Meaning, RenderHead, FeedChunks, EndHeaders, IsFile, Announces;
    assert h.verb < |Verbs()| by {
      VerbOf(h);
    }
    LengthIs(|body|);
    FileDecides(sv, h, |body|);
    StartIs(h);
    WholeRun(sv, h, body + behind, chunks);
    assert (body + behind)[..|body|] == body;
    assert body == [] ==> body + behind == behind;
  }

  /** Any other body, cut anywhere, is taken byte for byte, if the low 32 bits of its
      length are a positive number. */
  lemma RequestRoundTrip(sv: Server, h: Head, body: bytes, chunks: seq<bytes>, behind: bytes)
    requires Printable(h) && IsPlain(h) && 0 < |body| % 0x1_0000_0000 < 0x8000_0000
    requires Announces(h, |body|) && |body| <= sv.maxPost && |body| < 0x8000_0000_0000_0000
    requires Flatten(chunks) == RenderHead(h) + (body + behind)
    ensures var st := FeedChunks(sv, Initial(), chunks);
      && st.phase == Ready && st.used == |RenderHead(h)| + |body|
      && st.req == Meaning(h).(data := Some(body))
  {
    hide Printable, Meaning, RenderHead, FeedChunks, EndHeaders, IsPlain, Announces;
    assert h.verb < |Verbs()| by {
      VerbOf(h);
    }
    LengthIs(|body|);
    PlainDecides(sv, h, |body|);
    StartIs(h);
    WholeRun(sv, h, body + behind, chunks);
    assert (body + behind)[..|body|] == body;
  }

  /** A request without a body is ready at the end of its headers: nothing is announced, or
      a length of zero, or, for other than forms and files, one whose low 32 bits are not a
      positive number, though a body may follow. */
  lemma ReadyAtOnce(sv: Server, h: Head, n: int, chunks: seq<bytes>, behind: bytes)
    requires Printable(h) && Flatten(chunks) == RenderHead(h) + behind
    requires
      || (IsPlain(h) && Silent(h, LENGTH_NAME))
      || (IsPlain(h) && Announces(h, n) && !Positive32(n))
      || ((IsForm(h) || IsParts(h)) && Announces(h, n) && Length(n) == 0)
    ensures FeedChunks(sv, Initial(), chunks) == State(Ready, [], [], [], Meaning(h), |RenderHead(h)|)
  {
    hide Meaning, RenderHead, FeedChunks, EndHeaders, IsPlain, IsForm, IsParts, Announces, Silent, Positive32, Length,
      OneHeader, Address, Word;
    StartIs(h);
    if IsPlain(h) && Silent(h, LENGTH_NAME) {
      SilentDecides(sv, h);
    } else if IsPlain(h) && Announces(h, n) && !Positive32(n) {
      PlainDecides(sv, h, n);
    } else if IsForm(h) {
      FormDecides(sv, h, n);
    } else {
      PartsDecides(sv, h, n, 0, []);
    }
    WholeRun(sv, h, behind, chunks);
  }

  /** A request is refused at the end of its headers: a form or a file that announces no
      length, a body longer than allowed, and parts without a boundary. */
  lemma RefusedAtOnce(sv: Server, h: Head, n: int, ct: bytes, chunks: seq<bytes>, behind: bytes)
    requires Printable(h) && Flatten(chunks) == RenderHead(h) + behind
    requires
      || ((IsForm(h) || IsParts(h) || IsFile(h)) && Silent(h, LENGTH_NAME))
      || (IsForm(h) && Announces(h, n) && Length(n) > sv.maxPost)
      || (IsFile(h) && Announces(h, n) && Length(n) > sv.maxFile)
      || (IsPlain(h) && Announces(h, n) && Positive32(n) && Length(n) > sv.maxPost)
      || (IsParts(h) && Announces(h, n) && Length(n) > 0 && Says(h, TYPE_NAME, ct) && !Within(BOUNDARY_IS, ct))
    ensures FeedChunks(sv, Initial(), chunks) ==
      State(Failed(OCS_INTERNAL_ERROR), [], [], [], Meaning(h), |RenderHead(h)|)
  {
    hide Meaning, RenderHead, FeedChunks, EndHeaders, IsPlain, IsForm, IsParts, IsFile, Announces, Silent, Positive32,
      Length, OneHeader, Address, Word, Says, Within;
    StartIs(h);
    if (IsForm(h) || IsParts(h) || IsFile(h)) && Silent(h, LENGTH_NAME) {
      SilentDecides(sv, h);
    } else if IsForm(h) && Announces(h, n) && Length(n) > sv.maxPost {
      FormDecides(sv, h, n);
    } else if IsFile(h) && Announces(h, n) && Length(n) > sv.maxFile {
      FileDecides(sv, h, n);
    } else if IsPlain(h) && Announces(h, n) && Positive32(n) && Length(n) > sv.maxPost {
      PlainDecides(sv, h, n);
    } else {
      PartsDecides(sv, h, n, 0, ct);
    }
    WholeRun(sv, h, behind, chunks);
  }

  /** The parts of a multipart body are collected with the text behind the first
      "boundary=" and the room that is left for them. */
  lemma PartsCollected(sv: Server, h: Head, n: int, ct: bytes, k: nat, chunks: seq<bytes>, body: bytes)
    requires Printable(h) && IsParts(h) && Announces(h, n) && Length(n) > 0
    requires Says(h, TYPE_NAME, ct) && FirstAt(ct, BOUNDARY_IS, k) && Flatten(chunks) == RenderHead(h) + body
    ensures k + |BOUNDARY_IS| <= |ct|
    ensures FeedChunks(sv, Initial(), chunks) ==
      State(Multipart(ct[k + |BOUNDARY_IS|..], if Length(n) > sv.maxPost then sv.maxPost else Length(n)),
        [], [], body, Meaning(h), |RenderHead(h)| + |body|)
  {
    hide Meaning, RenderHead, FeedChunks, EndHeaders, IsParts, Announces, Length, OneHeader, Address, Word, Says;
    StartIs(h);
    PartsDecides(sv, h, n, k, ct);
    assert ct[k..][|BOUNDARY_IS|..] == ct[k + |BOUNDARY_IS|..];
    WholeRun(sv, h, body, chunks);
  }

  /** Before the last byte of its body a request is not ready. */
  lemma WaitsForBody(sv: Server, h: Head, n: nat, chunks: seq<bytes>, some: bytes)
    requires Printable(h) && Flatten(chunks) == RenderHead(h) + some && |some| < n < 0x8000_0000
    requires Announces(h, n) && if IsFile(h) then n <= sv.maxFile else n <= sv.maxPost
    requires IsForm(h) || IsFile(h) || IsPlain(h)
    ensures var st := FeedChunks(sv, Initial(), chunks);
      && st.phase == Body(if IsForm(h) then Form else if IsFile(h) then File else Raw, n - |some|)
      && st.req == Meaning(h) && st.body == some
  {
    hide Meaning, RenderHead, FeedChunks, EndHeaders, IsPlain, Announces, Length, OneHeader, Address, Word;
    StartIs(h);
    LengthIs(n);
    if IsForm(h) {
      FormDecides(sv, h, n);
    } else if IsFile(h) {
      FileDecides(sv, h, n);
    } else {
      PlainDecides(sv, h, n);
    }
    WholeRun(sv, h, some, chunks);
  }

  /** When there is at most one header that names the type, a request is of exactly one of
      the four kinds. */
  lemma OneKind(h: Head)
    requires forall i: nat, j: nat :: Named(h, TYPE_NAME, i) && Named(h, TYPE_NAME, j) ==> i == j
    ensures IsForm(h) || IsParts(h) || IsFile(h) || IsPlain(h)
    ensures !(IsForm(h) && (IsParts(h) || IsFile(h) || IsPlain(h)))
    ensures !(IsParts(h) && (IsFile(h) || IsPlain(h))) && !(IsFile(h) && IsPlain(h))
  {
    hide Named, Within, ValueOf;
    TypeEither(h, FORM);
    TypeEither(h, BOUNDARY);
  }

  lemma TypeEither(h: Head, word: bytes)
    requires forall i: nat, j: nat :: Named(h, TYPE_NAME, i) && Named(h, TYPE_NAME, j) ==> i == j
    ensures TypeHas(h, word) <==> !TypeLacks(h, word)
  {
    hide Within, ValueOf;
    if i: nat :| Named(h, TYPE_NAME, i) {
      assert Says(h, TYPE_NAME, ValueOf(h.headers[i]));
    }
  }

  /** A method the parser does not know is answered as such, cut anywhere. */
  lemma UnknownMethod(sv: Server, w: bytes, b: byte, chunks: seq<bytes>, behind: bytes)
    requires Word(w) && IsSpace(b) && (forall i :: 0 <= i < |VERBS| ==> w != Ascii(VERBS[i]))
    requires Flatten(chunks) == w + [b] + behind
    ensures FeedChunks(sv, Initial(), chunks) ==
      Initial().(phase := Failed(OCS_NOT_IMPLEMENTED), tok := w, used := |w| + 1)
  {
    assert w !in Verbs();
    hide Feed, FeedChunks, IsSpace, Ascii, Verbs, Position;
    var st := Initial().(tok := w, used := |w| + 1);
    FeedWord(sv, Initial(), w, b, behind);
    CStringOfNulFree(w);
    FeedStopped(sv, EndMethod(st), behind);
    var s := Flatten(chunks);
    if i :| 0 <= i < |s| && BadLineEnd(Feed(sv, Initial(), s[..i]).phase, s[i]) {
      BadLineEndDepends(sv, Initial(), s, i);
    }
    ChunkIndependence(sv, Initial(), chunks);
  }

  // Headers and then a line that does not end yet.
  lemma FeedOpenLine(sv: Server, h: Head, k: bytes, more: bytes)
    requires Printable(h) && 0 < |k| < LIMIT && k[0] != NUL && k[0] != SPACE && k[0] != TAB
    requires forall i :: 0 <= i < |k| ==> k[i] != COLON && k[i] != LF && k[i] != CR
    ensures var n := |RequestLine(h)| + |RenderHeaders(h.headers)|;
      Feed(sv, Initial(), RequestLine(h) + (RenderHeaders(h.headers) + (k + more))) ==
      Feed(sv, State(Key, k, [], [], Meaning(h), n + |k|), more)
  {
    hide RequestLine, RenderHeaders, Meaning, Feed, OneHeader, Address, Word;
    FeedLines(sv, h, k + more);
    var st := State(Key, [], [], [], Meaning(h), |RequestLine(h)| + |RenderHeaders(h.headers)|);
    FeedJoins(sv, st, k, more);
    NoCRSame(k);
    FeedKey(sv, st, k);
    assert [] + k == k;
  }

  /** A line without a colon among the headers is an error, cut anywhere. */
  lemma LineWithoutColon(sv: Server, h: Head, k: bytes, chunks: seq<bytes>, behind: bytes)
    requires Printable(h) && 0 < |k| < LIMIT && k[0] != NUL && k[0] != SPACE && k[0] != TAB
    requires forall i :: 0 <= i < |k| ==> k[i] != COLON && k[i] != LF && k[i] != CR
    requires Flatten(chunks) == RequestLine(h) + (RenderHeaders(h.headers) + (k + ([LF] + behind)))
    ensures FeedChunks(sv, Initial(), chunks) == State(Failed(OCS_INTERNAL_ERROR), k, [], [], Meaning(h),
      |RequestLine(h)| + |RenderHeaders(h.headers)| + |k| + 1)
  {
    hide RequestLine, RenderHeaders, Meaning, Feed, FeedChunks, OneHeader, Address, Word, MeetsBadLineEnd;
    var a, b := RequestLine(h), RenderHeaders(h.headers);
    var s, n := Flatten(chunks), |a| + |b| + |k| + 1;
    var st := State(Key, k, [], [], Meaning(h), n - 1);
    FeedOpenLine(sv, h, k, [LF] + behind);
    FeedOpenLine(sv, h, k, [LF]);
    FeedOpenLine(sv, h, k, []);
    LineParts(a, b, k, [LF], behind, s);
    FeedNone(sv, st);
    FeedOne(sv, st, LF);
    FeedJoins(sv, st, [LF], behind);
    assert Step(sv, st, LF) == st.(phase := Failed(OCS_INTERNAL_ERROR), used := n);
    FeedStopped(sv, Step(sv, st, LF), behind);
    StopsAt(sv, s, n);
    ChunkIndependence(sv, Initial(), chunks);
  }

  lemma LineParts(a: bytes, b: bytes, k: bytes, c: bytes, d: bytes, s: bytes)
    requires s == a + (b + (k + (c + d))) && |c| == 1
    ensures var n := |a| + |b| + |k| + 1; n <= |s| && s[..n] == a + (b + (k + c)) && s[..n - 1] == a + (b + (k + []))
  {
    var t := a + (b + k);
    assert s == t + c + d;
    assert t == a + (b + (k + []));
    assert t + c == a + (b + (k + c));
  }
}
