/** The header block of a response: its lines, and how a reader of the wire finds them. */
module HeaderText {
  import opened Wrappers
  import opened AATree
  import M = Multimap
  import opened Bytes

  const OD_DUP_ALL_REPLACE: bv16 := 0x76

  const CONTENT_LENGTH: bytes := Ascii("Content-Length")
  const TRANSFER_ENCODING: bytes := Ascii("Transfer-Encoding")
  const CHUNKED: bytes := Ascii("chunked")
  const MARK: bytes := [COLON, SPACE]
  const HTTP1: bytes := [0x48, 0x54, 0x54, 0x50, 0x2F, 0x31, 0x2E]
  const CONNECTION: bytes := Ascii("Connection")
  // "Close" and "Keep-Alive".
  const CLOSE: bytes := [0x43, 0x6C, 0x6F, 0x73, 0x65]
  const KEEP_ALIVE: bytes := [0x4B, 0x65, 0x65, 0x70, 0x2D, 0x41, 0x6C, 0x69, 0x76, 0x65]
  const SET_COOKIE: bytes := Ascii("Set-Cookie")

  // What is fixed about the request a response answers, and about the server.
  datatype Request = Request(http11: bool, isHead: bool, noKeepAlive: bool, connection: Option<bytes>,
                             session: Option<bytes>, date: bytes, version: bytes, reason: int -> bytes)
  {
    /** Whether the client may keep the connection: the default in HTTP/1.1, on
        request in HTTP/1.0. */
    predicate KeepAlive() {
      && !noKeepAlive
      && if http11 then connection.None? || StrCaseCmp(connection.value, CLOSE) != 0
         else connection.Some? && StrCaseCmp(connection.value, KEEP_ALIVE) == 0
    }

    // A response without a length in HTTP/1.1 is chunked if the connection is kept.
    predicate Chunks(lengthSet: bool) {
      http11 && !lengthSet && KeepAlive()
    }
  }

  // What the client asks for: the connection is kept over HTTP/1.1 unless it says "close", and
  // over HTTP/1.0 only if it says "keep-alive", in any letters.
  predicate Keeps(req: Request) {
    && !req.noKeepAlive
    && (req.http11 ==> req.connection.None? || !SameLetters(req.connection.value, CLOSE))
    && (!req.http11 ==> req.connection.Some? && SameLetters(req.connection.value, KEEP_ALIVE))
  }

  lemma KeepAliveIff(req: Request)
    ensures req.KeepAlive() <==> Keeps(req)
  {
    hide StrCaseCmp, SameLetters;
    if req.connection.Some? {
      CaseEqualIff(req.connection.value, CLOSE);
      CaseEqualIff(req.connection.value, KEEP_ALIVE);
    }
  }

  lemma ChunksIff(req: Request, lengthSet: bool)
    ensures req.Chunks(lengthSet) <==> req.http11 && !lengthSet && Keeps(req)
  {
    hide Keeps, Request.KeepAlive;
    KeepAliveIff(req);
  }

  // ---------- the header fields ----------

  type Fields = Tree<bytes, bytes>

  function Default(req: Request): Fields {
    M.InsertAll(StrCmp, Nil, DefaultEntries(req))
  }

  // A field is set: one of that name is replaced.
  function WithField(t: Fields, key: bytes, value: bytes): Fields {
    M.Insert(StrCmp, t, Entry(key, value, OD_DUP_ALL_REPLACE))
  }

  function WithLength(t: Fields, len: nat): Fields {
    WithField(t, CONTENT_LENGTH, Decimal(len))
  }

  ghost predicate Has(s: seq<Entry<bytes, bytes>>, key: bytes, value: bytes) {
    exists i :: 0 <= i < |s| && s[i].key == key && s[i].value == value
  }

  // A balanced dictionary without two fields of the same name.
  ghost predicate Good(t: Fields) {
    AA(t) && M.Sorted(StrCmp, InOrder(t)) && M.DistinctKeys(StrCmp, InOrder(t))
  }

  lemma KeyFound(s: seq<Entry<bytes, bytes>>, key: bytes)
    ensures M.HasKey(StrCmp, s, key) <==> exists value :: Has(s, key, value)
  {
    if M.HasKey(StrCmp, s, key) {
      var i :| 0 <= i < |s| && StrCmp(key, s[i].key) == 0;
      StrCmpSwap(key, s[i].key);
      assert Has(s, key, s[i].value);
    }
    if value :| Has(s, key, value) {
      var i :| 0 <= i < |s| && s[i].key == key && s[i].value == value;
      StrCmpSwap(key, s[i].key);
    }
  }

  // What setting a field does to all of them.
  lemma InsertHas(t: Fields, e: Entry<bytes, bytes>)
    requires Good(t) && (e.Replaces() || forall value :: !Has(InOrder(t), e.key, value))
    ensures Good(M.Insert(StrCmp, t, e))
    ensures forall key, value :: Has(InOrder(M.Insert(StrCmp, t, e)), key, value) <==>
      if key == e.key then value == e.value else Has(InOrder(t), key, value)
  {
    hide InOrder, AA, M.Insert, M.Find, M.Sorted, M.DistinctKeys, StrCmp, Has, M.StableInsert, M.HasKey;
    StrCmpPreorder();
    hide TotalPreorder;
    M.InsertKeepsAA(StrCmp, t, e);
    M.InsertKeepsSorted(StrCmp, t, e);
    M.FindIffPresent(StrCmp, t, e.key);
    var s := InOrder(t);
    KeyFound(s, e.key);
    if M.Overwrites(StrCmp, t, e) {
      StrCmpSwap(e.key, e.key);
      M.ReplaceOverwrites(StrCmp, t, e, e.key);
      var i := FoundAt(t, e.key);
      StrCmpSwap(e.key, s[i].key);
      M.UpdatedSorted(StrCmp, s, i, e);
      ReplacedHas(s, i, e);
      assert InOrder(M.Insert(StrCmp, t, e)) == s[i := e];
    } else {
      M.InsertIsStable(StrCmp, t, e);
      M.NewKeyDistinct(StrCmp, s, e);
      AddedHas(s, e);
    }
  }

  lemma FoundAt(t: Fields, key: bytes) returns (i: nat)
    requires M.Find(StrCmp, t, key).Node? && StrCmp(key, M.Find(StrCmp, t, key).entry.key) == 0
    ensures i == M.FindIndex(StrCmp, t, key) && i < |InOrder(t)| && InOrder(t)[i].key == key
  {
    hide StrCmp;
    i := M.FindIndex(StrCmp, t, key);
    StrCmpSwap(key, InOrder(t)[i].key);
  }

  lemma ReplacedHas(s: seq<Entry<bytes, bytes>>, i: nat, e: Entry<bytes, bytes>)
    requires i < |s| && s[i].key == e.key && M.DistinctKeys(StrCmp, s)
    ensures forall key, value :: Has(s[i := e], key, value) <==>
      if key == e.key then value == e.value else Has(s, key, value)
  {
    var r := s[i := e];
    OnlyOne(s, i);
    hide M.DistinctKeys;
    forall key, value ensures Has(r, key, value) <==> if key == e.key then value == e.value else Has(s, key, value) {
      if Has(r, key, value) {
        var j :| 0 <= j < |r| && r[j].key == key && r[j].value == value;
        assert j != i ==> s[j] == r[j];
      }
      if key == e.key && value == e.value {
        assert r[i] == e;
      }
      if key != e.key && Has(s, key, value) {
        var j :| 0 <= j < |s| && s[j].key == key && s[j].value == value;
        assert r[j] == s[j];
      }
    }
  }

  lemma OnlyOne(s: seq<Entry<bytes, bytes>>, i: nat)
    requires i < |s| && M.DistinctKeys(StrCmp, s)
    ensures forall j :: 0 <= j < |s| && j != i ==> s[j].key != s[i].key
  {
    forall j | 0 <= j < |s| && j != i ensures s[j].key != s[i].key {
      StrCmpSwap(s[i].key, s[j].key);
    }
  }

  lemma AddedHas(s: seq<Entry<bytes, bytes>>, e: Entry<bytes, bytes>)
    requires forall value :: !Has(s, e.key, value)
    ensures forall key, value :: Has(M.StableInsert(StrCmp, s, e), key, value) <==>
      if key == e.key then value == e.value else Has(s, key, value)
  {
    hide StrCmp, M.StableInsert;
    var k := M.StableInsertAt(StrCmp, s, e);
    var r := M.StableInsert(StrCmp, s, e);
    assert r == s[..k] + [e] + s[k..];
    forall key, value ensures Has(r, key, value) <==> if key == e.key then value == e.value else Has(s, key, value) {
      if Has(r, key, value) {
        var j :| 0 <= j < |r| && r[j].key == key && r[j].value == value;
        if j != k {
          var i := if j < k then j else j - 1;
          assert r[j] == s[i];
          assert Has(s, key, value);
        }
      }
      if key == e.key && value == e.value {
        assert r[k] == e;
      }
      if key != e.key && Has(s, key, value) {
        var i :| 0 <= i < |s| && s[i].key == key && s[i].value == value;
        assert r[if i < k then i else i + 1] == s[i];
      }
    }
  }

  function DefaultEntries(req: Request): seq<Entry<bytes, bytes>> {
    [Entry(Ascii("Date"), req.date, 0x24),
     Entry(Ascii("Server"), Ascii("libonion v") + req.version + Ascii(" - coralbits.com"), 0),
     Entry(Ascii("Content-Type"), Ascii("text/html"), 0)]
  }

  /** A dictionary of header fields as the map that it is. */
  ghost predicate Shows(t: Fields, m: map<bytes, bytes>) {
    Good(t) && forall key, value :: Has(InOrder(t), key, value) <==> key in m && m[key] == value
  }

  lemma InsertShows(t: Fields, m: map<bytes, bytes>, e: Entry<bytes, bytes>)
    requires Shows(t, m) && (e.Replaces() || e.key !in m)
    ensures Shows(M.Insert(StrCmp, t, e), m[e.key := e.value])
  {
    hide Good, Has, InOrder, M.Insert;
    InsertHas(t, e);
  }

  lemma NothingShows()
    ensures Shows(Nil, map[])
  {
  }

  // The fields of a new response.
  function DefaultMap(req: Request): map<bytes, bytes> {
    map[Ascii("Date") := req.date, Ascii("Server") := Ascii("libonion v") + req.version + Ascii(" - coralbits.com"),
        Ascii("Content-Type") := Ascii("text/html")]
  }

  lemma DefaultShows(req: Request)
    ensures Shows(Default(req), DefaultMap(req))
    ensures CONTENT_LENGTH !in DefaultMap(req) && TRANSFER_ENCODING !in DefaultMap(req)
  {
    var es := DefaultEntries(req);
    KeysDiffer();
    assert es[1..] == [es[1], es[2]] && [es[1], es[2]][1..] == [es[2]] && [es[2]][1..] == [];
    hide Ascii, Shows, M.Insert;
    var t0: Fields := Nil;
    var t1 := M.Insert(StrCmp, t0, es[0]);
    var t2 := M.Insert(StrCmp, t1, es[1]);
    NothingShows();
    InsertShows(t0, map[], es[0]);
    InsertShows(t1, map[es[0].key := es[0].value], es[1]);
    InsertShows(t2, map[es[0].key := es[0].value, es[1].key := es[1].value], es[2]);
    assert DefaultMap(req) == map[es[0].key := es[0].value, es[1].key := es[1].value, es[2].key := es[2].value];
    assert M.InsertAll(StrCmp, t1, [es[1], es[2]]) == M.InsertAll(StrCmp, t2, [es[2]]);
    assert M.InsertAll(StrCmp, t2, [es[2]]) == M.Insert(StrCmp, t2, es[2]);
  }

  lemma KeysDiffer()
    ensures Ascii("Date") != Ascii("Server") && Ascii("Content-Type") !in [Ascii("Date"), Ascii("Server")]
    ensures CONTENT_LENGTH !in [Ascii("Date"), Ascii("Server"), Ascii("Content-Type")]
    ensures TRANSFER_ENCODING !in [Ascii("Date"), Ascii("Server"), Ascii("Content-Type"), CONTENT_LENGTH]
  {
    assert |Ascii("Date")| == 4 && |Ascii("Server")| == 6 && |Ascii("Content-Type")| == 12;
    assert |CONTENT_LENGTH| == 14 && |TRANSFER_ENCODING| == 17;
  }

  // ---------- the lines ----------

  function Field(key: bytes, value: bytes): bytes { key + MARK + value }

  function FieldLines(es: seq<Entry<bytes, bytes>>): (r: seq<bytes>)
    ensures |r| == |es| && forall i :: 0 <= i < |r| ==> r[i] == Field(es[i].key, es[i].value)
  {
    seq(|es|, i requires 0 <= i < |es| => Field(es[i].key, es[i].value))
  }

  // What the lines of a block depend on besides the request.
  datatype Settings = Settings(code: nat, lengthSet: bool, upgrade: bool, fields: seq<Entry<bytes, bytes>>)

  function StatusLine(req: Request, code: nat): bytes {
    HTTP1 + [if req.http11 then 0x31 else 0x30, SPACE] + Decimal(code) + [SPACE] + req.reason(code)
  }

  // The line that sets the cookie ends in a new line of its own.
  function CookieLine(req: Request): bytes {
    if req.session.None? then []
    else Field(SET_COOKIE, Ascii("sessionid=") + req.session.value + Ascii("; httponly; Path=/\n"))
  }

  // The lines about the connection.
  function ConnectionLines(req: Request, st: Settings): seq<bytes> {
    (if req.Chunks(st.lengthSet) then [Field(TRANSFER_ENCODING, CHUNKED)] else [])
    + (if !req.http11 && st.lengthSet then [Field(CONNECTION, KEEP_ALIVE)] else [])
    + (if !st.lengthSet && !req.Chunks(st.lengthSet) && !st.upgrade then [Field(CONNECTION, CLOSE)] else [])
    + (if st.upgrade then [Field(CONNECTION, Ascii("Upgrade"))] else [])
  }

  function Lines(req: Request, st: Settings): seq<bytes> {
    [StatusLine(req, st.code)] + ConnectionLines(req, st) + FieldLines(st.fields) + [CookieLine(req)]
  }

  function Join(lines: seq<bytes>): bytes {
    if lines == [] then [] else lines[0] + CRLF + Join(lines[1..])
  }

  /** The header block: its lines, the last one empty but for a cookie. */
  function Block(req: Request, st: Settings): bytes { Join(Lines(req, st)) }

  // The writes that produce it.
  function Pieces(req: Request, st: Settings): seq<bytes> {
    [StatusLine(req, st.code) + CRLF] + Ended(ConnectionLines(req, st)) + FieldPieces(st.fields)
    + (if req.session.Some? then [CookieLine(req)] else []) + [CRLF]
  }

  function Ended(lines: seq<bytes>): seq<bytes> {
    seq(|lines|, i requires 0 <= i < |lines| => lines[i] + CRLF)
  }

  function FieldPieces(es: seq<Entry<bytes, bytes>>): seq<bytes> {
    if es == [] then []
    else FieldPieces(es[..|es| - 1]) + [es[|es| - 1].key, MARK, es[|es| - 1].value, CRLF]
  }

  lemma {:induction false} FlattenJoins(a: seq<bytes>, b: seq<bytes>)
    ensures Flatten(a + b) == Flatten(a) + Flatten(b)
  {
    if b == [] {
      assert a + b == a && Flatten(a) + [] == Flatten(a);
    } else {
      var n := |b| - 1;
      assert (a + b)[..|a + b| - 1] == a + b[..n] && (a + b)[|a + b| - 1] == b[n];
      FlattenJoins(a, b[..n]);
      Assoc(Flatten(a), Flatten(b[..n]), b[n]);
    }
  }

  lemma {:induction false} JoinJoins(a: seq<bytes>, b: seq<bytes>)
    ensures Join(a + b) == Join(a) + Join(b)
  {
    if a == [] {
      assert a + b == b;
    } else {
      assert (a + b)[1..] == a[1..] + b;
      JoinJoins(a[1..], b);
      Assoc(a[0] + CRLF, Join(a[1..]), Join(b));
    }
  }

  lemma JoinOne(line: bytes)
    ensures Join([line]) == line + CRLF
  {
    assert [line][1..] == [];
    assert line + CRLF + [] == line + CRLF;
  }

  lemma FlattenOne(piece: bytes)
    ensures Flatten([piece]) == piece
  {
    assert [piece][..0] == [];
    assert [] + piece == piece;
  }

  lemma {:induction false} EndedAreLines(lines: seq<bytes>)
    ensures Flatten(Ended(lines)) == Join(lines)
  {
    if lines != [] {
      assert lines == [lines[0]] + lines[1..] && Ended(lines) == [lines[0] + CRLF] + Ended(lines[1..]);
      FlattenOne(lines[0] + CRLF);
      FlattenJoins([lines[0] + CRLF], Ended(lines[1..]));
      EndedAreLines(lines[1..]);
    }
  }

  lemma {:induction false} FieldsAreLines(es: seq<Entry<bytes, bytes>>)
    ensures Flatten(FieldPieces(es)) == Join(FieldLines(es))
  {
    if es != [] {
      var n := |es| - 1;
      var e := es[n];
      FieldsAreLines(es[..n]);
      assert FieldLines(es) == FieldLines(es[..n]) + [Field(e.key, e.value)];
      JoinJoins(FieldLines(es[..n]), [Field(e.key, e.value)]);
      JoinOne(Field(e.key, e.value));
      FlattenJoins(FieldPieces(es[..n]), [e.key, MARK, e.value, CRLF]);
      FieldIsLine(e.key, e.value);
    }
  }

  lemma FieldIsLine(key: bytes, value: bytes)
    ensures Flatten([key, MARK, value, CRLF]) == Field(key, value) + CRLF
  {
    var a, b := [key, MARK], [value, CRLF];
    assert [key, MARK, value, CRLF] == [key] + [MARK] + [value] + [CRLF];
    hide Ascii;
    FlattenJoins([key] + [MARK] + [value], [CRLF]);
    FlattenJoins([key] + [MARK], [value]);
    FlattenJoins([key], [MARK]);
    FlattenOne(key);
    FlattenOne(MARK);
    FlattenOne(value);
    FlattenOne(CRLF);
  }

  /** The writes one behind the other are the block. */
  lemma PiecesAreBlock(req: Request, st: Settings)
    ensures Flatten(Pieces(req, st)) == Block(req, st)
  {
    var first, conn, fields, last := StatusLine(req, st.code), ConnectionLines(req, st), st.fields, CookieLine(req);
    var end := (if req.session.Some? then [last] else []) + [CRLF];
    assert Pieces(req, st) == [first + CRLF] + Ended(conn) + FieldPieces(fields) + end;
    assert Lines(req, st) == [first] + conn + FieldLines(fields) + [last];
    assert Flatten(end) == last + CRLF by {
      LastIsLine(req);
    }
    hide StatusLine, ConnectionLines, CookieLine, Pieces, FieldPieces, FieldLines, Ended, Flatten, Join;
    FlattenJoins([first + CRLF] + Ended(conn) + FieldPieces(fields), end);
    FlattenJoins([first + CRLF] + Ended(conn), FieldPieces(fields));
    FlattenJoins([first + CRLF], Ended(conn));
    FlattenOne(first + CRLF);
    EndedAreLines(conn);
    FieldsAreLines(fields);
    JoinJoins([first] + conn + FieldLines(fields), [last]);
    JoinJoins([first] + conn, FieldLines(fields));
    JoinJoins([first], conn);
    JoinOne(first);
    JoinOne(last);
  }

  lemma LastIsLine(req: Request)
    ensures Flatten((if req.session.Some? then [CookieLine(req)] else []) + [CRLF]) == CookieLine(req) + CRLF
  {
    hide Ascii;
    var last := CookieLine(req);
    FlattenOne(CRLF);
    FlattenOne(last);
    if req.session.Some? {
      FlattenJoins([last], [CRLF]);
    } else {
      assert [] + [CRLF] == [CRLF] && [] + CRLF == CRLF;
    }
  }

  // ---------- reading the block ----------

  // A line stands in a block behind the end of another.
  predicate LineAt(block: bytes, line: bytes, i: nat) {
    var t := CRLF + line + CRLF;
    i + |t| <= |block| && block[i..i + |t|] == t
  }

  ghost predicate HoldsLine(block: bytes, line: bytes) {
    exists i: nat :: LineAt(block, line, i)
  }

  ghost predicate OneLine(s: bytes) { CR !in s }

  lemma LineAtIs(block: bytes, line: bytes, i: nat)
    ensures LineAt(block, line, i) <==>
      && i + |line| + 4 <= |block| && block[i] == CR && block[i + 1] == LF
      && block[i + 2..i + 2 + |line|] == line && block[i + 2 + |line|] == CR && block[i + 3 + |line|] == LF
  {
    var n := |line| + 4;
    if i + n <= |block| {
      Framed(block[i..i + n], line);
      var p := block[i..i + n];
      assert p[0] == block[i] && p[1] == block[i + 1] && p[n - 2] == block[i + n - 2] && p[n - 1] == block[i + n - 1];
      Inner(block, i, n, 2, n - 2);
    }
  }

  lemma Inner(s: bytes, i: nat, n: nat, a: nat, b: nat)
    requires i + n <= |s| && a <= b <= n
    ensures s[i..i + n][a..b] == s[i + a..i + b]
  {
    var p, q := s[i..i + n][a..b], s[i + a..i + b];
    forall k | 0 <= k < b - a ensures p[k] == q[k] {
      assert p[k] == s[i + (a + k)];
    }
  }

  lemma Framed(p: bytes, line: bytes)
    requires |p| == |line| + 4
    ensures p == CRLF + line + CRLF <==>
      p[0] == CR && p[1] == LF && p[2..|p| - 2] == line && p[|p| - 2] == CR && p[|p| - 1] == LF
  {
    assert p == [p[0], p[1]] + p[2..|p| - 2] + [p[|p| - 2], p[|p| - 1]];
    var t := CRLF + line + CRLF;
    assert t[2..|t| - 2] == line && t[0] == CR && t[1] == LF && t[|t| - 2] == CR && t[|t| - 1] == LF;
  }

  // A line of the block, and what is before it.
  lemma LineHeld(front: bytes, line: bytes, back: bytes)
    ensures HoldsLine(front + CRLF + (line + CRLF + back), line)
  {
    var block := front + CRLF + (line + CRLF + back);
    LineAtIs(block, line, |front|);
    assert block[|front| + 2..|front| + 2 + |line|] == line;
    assert LineAt(block, line, |front|);
  }

  lemma EveryLineHeld(lines: seq<bytes>, k: nat)
    requires 0 < k < |lines|
    ensures HoldsLine(Join(lines), lines[k])
  {
    hide HoldsLine, Join;
    var a, b := lines[..k - 1], lines[k + 1..];
    assert lines == a + ([lines[k - 1]] + ([lines[k]] + b));
    JoinJoins(a, [lines[k - 1]] + ([lines[k]] + b));
    JoinJoins([lines[k - 1]], [lines[k]] + b);
    JoinJoins([lines[k]], b);
    JoinOne(lines[k - 1]);
    JoinOne(lines[k]);
    LineHeld(Join(a) + lines[k - 1], lines[k], Join(b));
    Assoc(Join(a), lines[k - 1], CRLF);
    Assoc(Join(a), lines[k - 1] + CRLF, lines[k] + CRLF + Join(b));
  }

  /** A line that stands in a block is one of its lines, if none of them has a carriage return. */
  lemma {:induction false} HeldIsLine(lines: seq<bytes>, line: bytes, i: nat) returns (k: nat)
    requires OneLine(line) && forall j :: 0 <= j < |lines| ==> OneLine(lines[j])
    requires LineAt(Join(lines), line, i)
    ensures 0 < k < |lines| && lines[k] == line
    decreases |lines|
  {
    LineAtIs(Join(lines), line, i);
    var first, rest := lines[0], Join(lines[1..]);
    var block := first + CRLF + rest;
    assert Join(lines) == block;
    assert forall k :: 0 <= k < |first| ==> block[k] == first[k];
    assert i >= |first|;
    assert block[|first| + 1] == LF;
    if i == |first| {
      assert block[i + 2..] == rest;
      FirstLine(lines[1..], line);
      return 1;
    }
    var j := i - |first| - 2;
    LineAtIs(rest, line, j);
    assert block[i + 2..i + 2 + |line|] == rest[j + 2..j + 2 + |line|];
    k := HeldIsLine(lines[1..], line, j);
    k := k + 1;
  }

  lemma FirstLine(lines: seq<bytes>, line: bytes)
    requires OneLine(line) && forall j :: 0 <= j < |lines| ==> OneLine(lines[j])
    requires var s := Join(lines); |line| + 2 <= |s| && s[..|line|] == line && s[|line|] == CR
    ensures lines != [] && lines[0] == line
  {
    var s := Join(lines);
    var first := lines[0];
    assert s == first + CRLF + Join(lines[1..]);
    assert s[|first|] == CR;
    assert forall k :: 0 <= k < |first| ==> first[k] == s[k];
    assert forall k :: 0 <= k < |line| ==> line[k] == s[k];
    assert |first| >= |line|;
    assert |line| >= |first|;
    assert first == s[..|first|];
  }

  // ---------- the fields a client reads ----------

  // What stands in the block has no line ends and no colons where they do not belong.
  ghost predicate Tidy(req: Request, st: Settings) {
    && OneLine(req.reason(st.code)) && (req.session.Some? ==> OneLine(req.session.value))
    && forall i :: 0 <= i < |st.fields| ==>
         OneLine(st.fields[i].key) && COLON !in st.fields[i].key && OneLine(st.fields[i].value)
  }

  lemma FieldSplits(k1: bytes, v1: bytes, k2: bytes, v2: bytes)
    requires COLON !in k1 && COLON !in k2 && Field(k1, v1) == Field(k2, v2)
    ensures k1 == k2 && v1 == v2
  {
    var f := Field(k1, v1);
    assert f[|k1|] == COLON && f[|k2|] == COLON;
    assert forall i :: 0 <= i < |k1| ==> f[i] == k1[i];
    assert forall i :: 0 <= i < |k2| ==> f[i] == k2[i];
    assert |k1| >= |k2|;
    assert |k2| >= |k1|;
    assert k1 == f[..|k1|] && k2 == f[..|k2|];
    assert v1 == f[|k1| + 2..] && v2 == f[|k2| + 2..];
  }

  lemma AsciiTidy(s: string)
    requires forall i :: 0 <= i < |s| ==> s[i] as int < 256 && s[i] != '\r'
    ensures OneLine(Ascii(s)) && ((forall i :: 0 <= i < |s| ==> s[i] != ':') ==> COLON !in Ascii(s))
  {
    forall i | 0 <= i < |s| ensures Ascii(s)[i] != CR && (s[i] != ':' ==> Ascii(s)[i] != COLON) {
      ByteOf(s[i]);
    }
  }

  lemma ByteOf(c: char)
    requires c as int < 256
    ensures (((c as int) % 256) as byte) as int == c as int
    ensures c != '\r' ==> ((c as int) % 256) as byte != CR
    ensures c != ':' ==> ((c as int) % 256) as byte != COLON
  {
  }

  lemma {:induction false} DecimalTidy(n: nat)
    ensures OneLine(Decimal(n))
  {
    if n >= 10 {
      DecimalTidy(n / 10);
    }
  }

  // The names that are always the same.
  lemma NamesTidy()
    ensures OneLine(CONTENT_LENGTH) && OneLine(TRANSFER_ENCODING) && OneLine(CONNECTION) && OneLine(SET_COOKIE)
    ensures COLON !in CONTENT_LENGTH && COLON !in TRANSFER_ENCODING && COLON !in CONNECTION && COLON !in SET_COOKIE
    ensures CONNECTION != SET_COOKIE && CONTENT_LENGTH !in [CONNECTION, SET_COOKIE]
    ensures TRANSFER_ENCODING !in [CONNECTION, SET_COOKIE, CONTENT_LENGTH]
  {
    AsciiTidy("Content-Length");
    AsciiTidy("Transfer-Encoding");
    AsciiTidy("Connection");
    AsciiTidy("Set-Cookie");
    NamesDiffer();
  }

  lemma NamesDiffer()
    ensures CONNECTION != SET_COOKIE && CONTENT_LENGTH !in [CONNECTION, SET_COOKIE]
    ensures TRANSFER_ENCODING !in [CONNECTION, SET_COOKIE, CONTENT_LENGTH]
  {
    assert |CONTENT_LENGTH| == 14 && |TRANSFER_ENCODING| == 17 && |CONNECTION| == |SET_COOKIE| == 10;
    assert CONNECTION[0] == 0x43 && SET_COOKIE[0] == 0x53;
  }

  lemma OneLineJoins(a: bytes, b: bytes)
    requires OneLine(a) && OneLine(b)
    ensures OneLine(a + b)
  {
  }

  lemma FieldTidy(key: bytes, value: bytes)
    requires OneLine(key) && OneLine(value)
    ensures OneLine(Field(key, value))
  {
    assert OneLine(MARK);
    hide OneLine;
    OneLineJoins(key, MARK);
    OneLineJoins(key + MARK, value);
  }

  lemma StatusTidy(req: Request, code: nat)
    requires OneLine(req.reason(code))
    ensures OneLine(StatusLine(req, code))
  {
    DecimalTidy(code);
    var v := HTTP1 + [if req.http11 then 0x31 else 0x30, SPACE];
    assert OneLine(v) && OneLine([SPACE]);
    hide OneLine;
    OneLineJoins(v, Decimal(code));
    OneLineJoins(v + Decimal(code), [SPACE]);
    OneLineJoins(v + Decimal(code) + [SPACE], req.reason(code));
  }

  lemma CookieTidy(req: Request)
    requires req.session.Some? ==> OneLine(req.session.value)
    ensures OneLine(CookieLine(req))
  {
    if req.session.Some? {
      AsciiTidy("sessionid=");
      AsciiTidy("; httponly; Path=/\n");
      NamesTidy();
      hide OneLine, Ascii;
      OneLineJoins(Ascii("sessionid="), req.session.value);
      OneLineJoins(Ascii("sessionid=") + req.session.value, Ascii("; httponly; Path=/\n"));
      FieldTidy(SET_COOKIE, Ascii("sessionid=") + req.session.value + Ascii("; httponly; Path=/\n"));
    }
  }

  lemma ConnectionTidy(req: Request, st: Settings)
    ensures forall j :: 0 <= j < |ConnectionLines(req, st)| ==> OneLine(ConnectionLines(req, st)[j])
  {
    NamesTidy();
    AsciiTidy("chunked");
    assert OneLine(KEEP_ALIVE) && OneLine(CLOSE);
    AsciiTidy("Upgrade");
    hide Ascii, Field, OneLine;
    FieldTidy(TRANSFER_ENCODING, CHUNKED);
    FieldTidy(CONNECTION, KEEP_ALIVE);
    FieldTidy(CONNECTION, CLOSE);
    FieldTidy(CONNECTION, Ascii("Upgrade"));
  }

  lemma TidyLines(req: Request, st: Settings)
    requires Tidy(req, st)
    ensures forall j :: 0 <= j < |Lines(req, st)| ==> OneLine(Lines(req, st)[j])
  {
    StatusTidy(req, st.code);
    ConnectionTidy(req, st);
    CookieTidy(req);
    hide Field, OneLine, StatusLine, ConnectionLines, CookieLine;
    forall i | 0 <= i < |st.fields| ensures OneLine(FieldLines(st.fields)[i]) {
      FieldTidy(st.fields[i].key, st.fields[i].value);
    }
    forall j | 0 <= j < |Lines(req, st)| ensures OneLine(Lines(req, st)[j]) {
      WhichOfLines(req, st, j);
    }
  }

  // Which of the lines stands where.
  lemma WhichOfLines(req: Request, st: Settings, j: nat)
    requires j < |Lines(req, st)|
    ensures var n, m := |ConnectionLines(req, st)|, |st.fields|;
      Lines(req, st)[j] == if j == 0 then StatusLine(req, st.code) else if j <= n then ConnectionLines(req, st)[j - 1]
        else if j <= n + m then FieldLines(st.fields)[j - n - 1] else CookieLine(req)
  {
    hide Field, StatusLine, ConnectionLines, CookieLine, FieldLines;
  }

  /** A field that is set, or the coding of the body, has its line in the block. */
  lemma FieldHeld(req: Request, st: Settings, key: bytes, value: bytes)
    requires Has(st.fields, key, value) || (key == TRANSFER_ENCODING && value == CHUNKED && req.Chunks(st.lengthSet))
    ensures HoldsLine(Block(req, st), Field(key, value))
  {
    var lines, n := Lines(req, st), |ConnectionLines(req, st)|;
    if Has(st.fields, key, value) {
      var i :| 0 <= i < |st.fields| && st.fields[i].key == key && st.fields[i].value == value;
      assert lines[1 + n + i] == FieldLines(st.fields)[i];
      hide Field, Lines;
      EveryLineHeld(lines, 1 + n + i);
    } else {
      assert lines[1] == ConnectionLines(req, st)[0] == Field(key, value);
      hide Field, Lines;
      EveryLineHeld(lines, 1);
    }
  }

  /** And no other line of that name is there. */
  lemma OnlyFieldsHeld(req: Request, st: Settings, key: bytes, value: bytes)
    requires Tidy(req, st) && OneLine(key) && COLON !in key && OneLine(value) && key !in [CONNECTION, SET_COOKIE]
    requires HoldsLine(Block(req, st), Field(key, value))
    ensures Has(st.fields, key, value) || (key == TRANSFER_ENCODING && value == CHUNKED && req.Chunks(st.lengthSet))
  {
    hide OneLine, Field, LineAt;
    var i: nat :| LineAt(Block(req, st), Field(key, value), i);
    TidyLines(req, st);
    FieldTidy(key, value);
    var k := HeldIsLine(Lines(req, st), Field(key, value), i);
    WhichLine(req, st, k, key, value);
  }

  lemma WhichLine(req: Request, st: Settings, k: nat, key: bytes, value: bytes)
    requires Tidy(req, st) && COLON !in key && key !in [CONNECTION, SET_COOKIE]
    requires 0 < k < |Lines(req, st)| && Lines(req, st)[k] == Field(key, value)
    ensures Has(st.fields, key, value) || (key == TRANSFER_ENCODING && value == CHUNKED && req.Chunks(st.lengthSet))
  {
    var conn, fields := ConnectionLines(req, st), st.fields;
    var n := |conn|;
    NamesTidy();
    if k <= n {
      assert Lines(req, st)[k] == conn[k - 1];
      ConnectionLine(req, st, k - 1, key, value);
    } else if k <= n + |fields| {
      var e := fields[k - n - 1];
      FieldSplits(key, value, e.key, e.value);
      assert Has(fields, key, value);
    } else {
      assert |Field(key, value)| >= 2;
      hide Ascii, Field;
      FieldSplits(key, value, SET_COOKIE, Ascii("sessionid=") + req.session.value + Ascii("; httponly; Path=/\n"));
      assert false;
    }
  }

  lemma ConnectionLine(req: Request, st: Settings, j: nat, key: bytes, value: bytes)
    requires j < |ConnectionLines(req, st)| && ConnectionLines(req, st)[j] == Field(key, value)
    requires COLON !in key && key != CONNECTION
    ensures key == TRANSFER_ENCODING && value == CHUNKED && req.Chunks(st.lengthSet)
  {
    NamesTidy();
    var line := ConnectionLines(req, st)[j];
    hide Ascii, Field;
    assert line in [Field(TRANSFER_ENCODING, CHUNKED), Field(CONNECTION, KEEP_ALIVE),
                    Field(CONNECTION, CLOSE), Field(CONNECTION, Ascii("Upgrade"))];
    forall v | line == Field(CONNECTION, v) ensures false {
      FieldSplits(key, value, CONNECTION, v);
    }
    FieldSplits(key, value, TRANSFER_ENCODING, CHUNKED);
  }

  // The block begins as every status line does.
  predicate Heading(block: bytes) { HTTP1 <= block }

  lemma BlockHeading(req: Request, st: Settings)
    ensures Heading(Block(req, st))
  {
    var first := StatusLine(req, st.code);
    assert Lines(req, st)[0] == first;
    hide Lines, ConnectionLines, CookieLine, FieldLines;
    assert Heading(first);
  }

  // The lines about the connection and the cookie that a block has of itself.
  predicate OwnLine(req: Request, st: Settings, key: bytes, value: bytes) {
    || (key == TRANSFER_ENCODING && value == CHUNKED && req.Chunks(st.lengthSet))
    || (key == CONNECTION && value == KEEP_ALIVE && !req.http11 && st.lengthSet)
    || (key == CONNECTION && value == CLOSE && !st.lengthSet && !req.Chunks(false) && !st.upgrade)
    || (key == CONNECTION && value == Ascii("Upgrade") && st.upgrade)
    || (key == SET_COOKIE && req.session.Some?
        && value == Ascii("sessionid=") + req.session.value + Ascii("; httponly; Path=/\n"))
  }

  /** The block says what it should about the connection, and hands out the session. */
  lemma OwnLineHeld(req: Request, st: Settings, key: bytes, value: bytes)
    requires OwnLine(req, st, key, value)
    ensures HoldsLine(Block(req, st), Field(key, value))
  {
    var lines, conn := Lines(req, st), ConnectionLines(req, st);
    var line := Field(key, value);
    hide Ascii, Field, HoldsLine, Join;
    if key == SET_COOKIE && req.session.Some? && line == CookieLine(req) {
      assert lines[|lines| - 1] == line;
      EveryLineHeld(lines, |lines| - 1);
    } else {
      assert line in conn;
      var j :| 0 <= j < |conn| && conn[j] == line;
      assert lines[1 + j] == conn[j];
      EveryLineHeld(lines, 1 + j);
    }
  }

  /** And no other line stands in it, but for the status line and the fields. */
  lemma LineHeldIff(req: Request, st: Settings, key: bytes, value: bytes)
    requires Tidy(req, st) && OneLine(key) && COLON !in key && OneLine(value)
    ensures HoldsLine(Block(req, st), Field(key, value)) <==> Has(st.fields, key, value) || OwnLine(req, st, key, value)
  {
    hide OneLine, Field, LineAt, OwnLine, Has, Block;
    if OwnLine(req, st, key, value) {
      OwnLineHeld(req, st, key, value);
    }
    if Has(st.fields, key, value) {
      FieldHeld(req, st, key, value);
    }
    if HoldsLine(Block(req, st), Field(key, value)) {
      var i: nat :| LineAt(Block(req, st), Field(key, value), i);
      TidyLines(req, st);
      FieldTidy(key, value);
      BlockIs(req, st);
      var k := HeldIsLine(Lines(req, st), Field(key, value), i);
      LineIs(req, st, k, key, value);
    }
  }

  lemma BlockIs(req: Request, st: Settings)
    ensures Block(req, st) == Join(Lines(req, st))
  {
  }

  lemma LineIs(req: Request, st: Settings, k: nat, key: bytes, value: bytes)
    requires Tidy(req, st) && COLON !in key
    requires 0 < k < |Lines(req, st)| && Lines(req, st)[k] == Field(key, value)
    ensures Has(st.fields, key, value) || OwnLine(req, st, key, value)
  {
    var conn, fields := ConnectionLines(req, st), st.fields;
    var n := |conn|;
    NamesTidy();
    WhichOfLines(req, st, k);
    hide Lines, StatusLine, ConnectionLines, CookieLine, OwnLine, Tidy;
    if k <= n {
      OwnConnectionLine(req, st, k - 1, key, value);
    } else if k <= n + |fields| {
      var e := fields[k - n - 1];
      FieldSplits(key, value, e.key, e.value);
      assert Has(fields, key, value);
    } else {
      assert |Field(key, value)| >= 2;
      hide Ascii, Field;
      FieldSplits(key, value, SET_COOKIE, Ascii("sessionid=") + req.session.value + Ascii("; httponly; Path=/\n"));
    }
  }

  lemma OwnConnectionLine(req: Request, st: Settings, j: nat, key: bytes, value: bytes)
    requires j < |ConnectionLines(req, st)| && ConnectionLines(req, st)[j] == Field(key, value) && COLON !in key
    ensures OwnLine(req, st, key, value)
  {
    NamesTidy();
    var line := ConnectionLines(req, st)[j];
    hide Ascii, Field;
    if line == Field(TRANSFER_ENCODING, CHUNKED) {
      FieldSplits(key, value, TRANSFER_ENCODING, CHUNKED);
    }
    forall v | line == Field(CONNECTION, v) ensures key == CONNECTION && value == v {
      FieldSplits(key, value, CONNECTION, v);
    }
  }

  /** The block begins with the status line. */
  lemma StatusFirst(req: Request, st: Settings)
    ensures StatusText(req, st.code) <= Block(req, st)
  {
    var first := StatusLine(req, st.code);
    assert Lines(req, st)[0] == first;
    hide Decimal, Lines;
    assert HTTP1 + [if req.http11 then 0x31 else 0x30, SPACE]
      == [0x48, 0x54, 0x54, 0x50, 0x2F, 0x31, 0x2E, if req.http11 then 0x31 else 0x30, 0x20];
  }

  // "HTTP/1.1" or "HTTP/1.0", the status and its reason.
  function StatusText(req: Request, code: nat): bytes {
    [0x48, 0x54, 0x54, 0x50, 0x2F, 0x31, 0x2E, if req.http11 then 0x31 else 0x30, 0x20] + Decimal(code)
    + [0x20] + req.reason(code) + [0x0D, 0x0A]
  }
}
