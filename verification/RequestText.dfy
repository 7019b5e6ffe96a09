/** What the bytes of a request mean, one byte at a time: the state a resumable parser
    is in after any amount of input. */
module RequestText {
  import opened Wrappers
  import opened AATree
  import M = Multimap
  import opened Bytes
  import Q = Query

  const OCS_NEED_MORE_DATA := 1
  const OCS_REQUEST_READY := 5
  const OCS_INTERNAL_ERROR := -500
  const OCS_NOT_IMPLEMENTED := -501

  const OR_POST := 1
  const OR_PUT := 5
  const OD_HEADER: bv16 := 0x26

  const TYPE_NAME: bytes := Ascii("Content-Type")
  const LENGTH_NAME: bytes := Ascii("Content-Length")
  const FORM: bytes := Ascii("application/x-www-form-urlencoded")
  const BOUNDARY: bytes := Ascii("boundary")
  const BOUNDARY_IS: bytes := Ascii("boundary=")
  // "HTTP/1.1".
  const HTTP11: bytes := [0x48, 0x54, 0x54, 0x50, 0x2F, 0x31, 0x2E, 0x31]

  // The last index of a token buffer: a longer token does not fit.
  const LIMIT := 8191

  // The sizes a server accepts.
  datatype Server = Server(maxPost: nat, maxFile: nat)

  type Dictionary = Tree<bytes, bytes>

  datatype Req = Req(verb: nat, http11: bool, path: Option<bytes>, get: Option<Dictionary>, headers: Dictionary,
                     post: Option<Dictionary>, data: Option<bytes>, file: Option<bytes>)

  datatype BodyKind = Raw | Form | File

  /** Where the parser is. Overrun stands for what the original leaves undefined: a token
      as long as its buffer, or a percent sign at the end of a string. Hung stands for a
      call that never returns. */
  datatype Phase = Method | Url | Version | SkipNL(seen: Option<byte>) | Key | Value | Multiline | SkipWs
    | Body(kind: BodyKind, left: nat) | Multipart(boundary: bytes, limit: nat)
    | Ready | Failed(code: int) | Hung | Overrun

  // The token read so far, the header key it belongs to, the body read so far, the
  // request filled so far, and how many bytes were looked at.
  datatype State = State(phase: Phase, tok: bytes, key: bytes, body: bytes, req: Req, used: nat)

  // ---------- words and numbers ----------

  const VERBS := ["GET", "POST", "HEAD", "OPTIONS", "PROPFIND", "PUT", "DELETE", "MOVE", "MKCOL", "PROPPATCH", "PATCH"]

  function Verbs(): (r: seq<bytes>)
    ensures |r| == |VERBS|
  {
    seq(|VERBS|, i requires 0 <= i < |VERBS| => Ascii(VERBS[i]))
  }

  // The first position of a word in a list.
  function Position(words: seq<bytes>, w: bytes): (r: Option<nat>)
    ensures r.Some? ==> r.value < |words| && words[r.value] == w
    ensures r.None? ==> w !in words
  {
    if words == [] then None
    else if words[0] == w then Some(0)
    else
      var r := Position(words[1..], w);
      if r.None? then None else Some(1 + r.value)
  }

  function Digits(s: bytes, acc: nat): nat {
    if s == [] || !IsDigit(s[0]) then acc else Digits(s[1..], 10 * acc + (s[0] - 0x30) as nat)
  }

  function SkipBlanks(s: bytes): bytes {
    if s != [] && (s[0] == SPACE || 9 <= s[0] <= 13) then SkipBlanks(s[1..]) else s
  }

  // `atol` with 64 bits, which stops at the ends of its range.
  function AtoL(s: bytes): int {
    var t := SkipBlanks(s);
    var v: int := Digits(if t != [] && (t[0] == 0x2D || t[0] == 0x2B) then t[1..] else t, 0);
    if t != [] && t[0] == 0x2D then
      if v > 0x8000_0000_0000_0000 then -0x8000_0000_0000_0000 else -v
    else
      if v > 0x7FFF_FFFF_FFFF_FFFF then 0x7FFF_FFFF_FFFF_FFFF else v
  }

  // `atoi`: the low 32 bits of that.
  function AtoI(s: bytes): int { (AtoL(s) + 0x8000_0000) % 0x1_0000_0000 - 0x8000_0000 }

  // A signed number stored in a `size_t`.
  function SizeT(n: int): nat { n % 0x1_0000_0000_0000_0000 }

  // `strstr`.
  function StrStr(s: bytes, t: bytes): (r: Option<nat>)
    ensures r.Some? ==> r.value <= |s| && t <= s[r.value..]
  {
    if t <= s then Some(0)
    else if s == [] then None
    else
      var r := StrStr(s[1..], t);
      if r.None? then None else Some(1 + r.value)
  }

  // A word occurs in a text first at some place.
  ghost predicate FirstAt(s: bytes, t: bytes, k: nat) {
    k <= |s| && t <= s[k..] && forall j :: 0 <= j < k ==> !(t <= s[j..])
  }

  ghost predicate Within(t: bytes, s: bytes) { exists k: nat :: FirstAt(s, t, k) }

  /** `strstr` finds the first occurrence of a word, if there is one. */
  lemma {:induction false} StrStrFinds(s: bytes, t: bytes)
    ensures StrStr(s, t).Some? ==> FirstAt(s, t, StrStr(s, t).value)
    ensures StrStr(s, t).None? ==> forall j :: 0 <= j <= |s| ==> !(t <= s[j..])
  {
    if !(t <= s) && s != [] {
      StrStrFinds(s[1..], t);
      assert s[0..] == s;
      assert forall j :: 0 < j <= |s| ==> s[j..] == s[1..][j - 1..];
    } else {
      assert s[0..] == s;
    }
  }

  function SkipSpaces(s: bytes): bytes {
    if s != [] && IsSpace(s[0]) then SkipSpaces(s[1..]) else s
  }

  // ---------- headers ----------

  function Header(req: Req, name: bytes): Option<bytes> {
    var n := M.Find(StrCaseCmp, req.headers, name);
    if n.Node? then Some(n.entry.value) else None
  }

  function Fail(st: State, code: int): (r: State)
    ensures r.used == st.used && (r.phase.Hung? ==> st.phase.Hung?)
  { st.(phase := Failed(code)) }

  // The end of the headers: what kind of body follows, if any.
  function EndHeaders(sv: Server, st: State): (r: State)
    ensures r.used == st.used && (r.phase.Hung? ==> st.phase.Hung?) && (r.phase.SkipNL? ==> st.phase.SkipNL?)
  {
    var ct := Header(st.req, TYPE_NAME);
    if st.req.verb == OR_POST && ct.Some?
       && (StrStr(ct.value, FORM).Some?
         || StrStr(ct.value, BOUNDARY).Some?) then
      PreparePost(sv, st, ct.value)
    else if st.req.verb == OR_PUT then PreparePut(sv, st)
    else
      var cl := Header(st.req, LENGTH_NAME);
      if cl.Some? && AtoI(cl.value) > 0 then PrepareLength(sv, st, SizeT(AtoL(cl.value))) else st.(phase := Ready)
  }

  function PreparePost(sv: Server, st: State, ct: bytes): (r: State)
    ensures r.used == st.used && (r.phase.Hung? ==> st.phase.Hung?) && (r.phase.SkipNL? ==> st.phase.SkipNL?)
  {
    var size := Header(st.req, LENGTH_NAME);
    if size.None? then Fail(st, OCS_INTERNAL_ERROR)
    else
      var cl := SizeT(AtoL(size.value));
      if cl == 0 then st.(phase := Ready)
      else if StrStr(ct, FORM).Some? then
        if cl > sv.maxPost then Fail(st, OCS_INTERNAL_ERROR) else st.(phase := Body(Form, cl), body := [])
      else PrepareParts(sv, st, ct, cl)
  }

  function PrepareParts(sv: Server, st: State, ct: bytes, cl: nat): (r: State)
    ensures r.used == st.used && (r.phase.Hung? ==> st.phase.Hung?) && (r.phase.SkipNL? ==> st.phase.SkipNL?)
  {
    var b := StrStr(ct, BOUNDARY_IS);
    if b.None? then Fail(st, OCS_INTERNAL_ERROR)
    else
      var boundary := ct[b.value..][|BOUNDARY_IS|..];
      st.(phase := Multipart(boundary, if cl > sv.maxPost then sv.maxPost else cl), body := [])
  }

  function PreparePut(sv: Server, st: State): (r: State)
    ensures r.used == st.used && (r.phase.Hung? ==> st.phase.Hung?) && (r.phase.SkipNL? ==> st.phase.SkipNL?)
  {
    var size := Header(st.req, LENGTH_NAME);
    if size.None? then Fail(st, OCS_INTERNAL_ERROR)
    else
      var cl := SizeT(AtoL(size.value));
      if cl > sv.maxFile then Fail(st, OCS_INTERNAL_ERROR)
      else if cl == 0 then st.(phase := Ready, req := st.req.(file := Some([])))
      else st.(phase := Body(File, cl), body := [])
  }

  function PrepareLength(sv: Server, st: State, cl: nat): (r: State)
    ensures r.used == st.used && (r.phase.Hung? ==> st.phase.Hung?) && (r.phase.SkipNL? ==> st.phase.SkipNL?)
  {
    if cl > sv.maxPost then Fail(st, OCS_INTERNAL_ERROR) else st.(phase := Body(Raw, cl), body := [])
  }

  // The value is the token without leading blanks, up to a NUL.
  function AddHeader(st: State): (r: State)
    ensures r.used == st.used && (r.phase.Hung? ==> st.phase.Hung?)
  {
    var v := SkipSpaces(CString(st.tok));
    st.(phase := Key, tok := [], key := [],
        req := st.req.(headers := M.Insert(StrCaseCmp, st.req.headers, Entry(st.key, v, OD_HEADER))))
  }

  // ---------- one byte ----------

  // A byte for a token that must fit its buffer.
  function Push(st: State, b: byte): (r: State)
    ensures r.used == st.used && (r.phase.Hung? ==> st.phase.Hung?)
  {
    if |st.tok| + 1 >= LIMIT then st.(phase := Overrun) else st.(tok := st.tok + [b])
  }

  function EndMethod(st: State): (r: State)
    ensures r.used == st.used && (r.phase.Hung? ==> st.phase.Hung?)
  {
    var i := Position(Verbs(), CString(st.tok));
    if i.None? then Fail(st, OCS_NOT_IMPLEMENTED) else st.(phase := Url, tok := [], req := st.req.(verb := i.value))
  }

  // The pairs of a query string added to a new dictionary.
  function QueryDict(s: bytes): Option<Dictionary> {
    var ps := Q.DecodeAll(Q.RawPairs(s));
    if ps.None? then None else Some(M.InsertAll(StrCmp, Nil, Q.Entries(ps.value)))
  }

  const QUESTION: byte := 0x3F

  // The path and the query, cut at the first question mark and decoded.
  function EndUrl(st: State, newline: bool): (r: State)
    ensures r.used == st.used && (r.phase.Hung? ==> st.phase.Hung?)
  {
    var full := CString(st.tok);
    var q := Q.IndexOf(full, QUESTION);
    var path := Q.Unquote(full[..q]);
    var query := if q < |full| then QueryDict(full[q + 1..]) else None;
    if path.None? || (q < |full| && query.None?) then st.(phase := Overrun)
    else st.(phase := if newline then Key else Version, tok := [],
             req := st.req.(path := Some(CString(path.value)), get := query))
  }

  function EndVersion(st: State, newline: bool): (r: State)
    ensures r.used == st.used && (r.phase.Hung? ==> st.phase.Hung?)
  {
    st.(phase := if newline then Key else SkipNL(None), tok := [],
        req := st.req.(http11 := st.req.http11 || CString(st.tok) == HTTP11,
                       get := if st.req.get.None? then Some(Nil) else st.req.get))
  }

  function EndString(st: State, newline: bool): (r: State)
    requires st.phase.Method? || st.phase.Url? || st.phase.Version?
    ensures r.used == st.used && (r.phase.Hung? ==> st.phase.Hung?)
  {
    match st.phase
    case Method => EndMethod(st)
    case Url => EndUrl(st, newline)
    case Version => EndVersion(st, newline)
  }

  function KeyByte(sv: Server, st: State, b: byte): (r: State)
    ensures r.used == st.used && (r.phase.Hung? ==> st.phase.Hung?)
  {
    if b == COLON then st.(phase := Value, key := CString(st.tok), tok := [])
    else if b == LF then
      if st.tok == [] then EndHeaders(sv, st) else Fail(st, OCS_INTERNAL_ERROR)
    else if b == CR then st
    else Push(st, b)
  }

  // The end of a line: a carriage return before it is overwritten, not removed.
  function EndLine(st: State): (r: State)
    ensures r.used == st.used && (r.phase.Hung? ==> st.phase.Hung?)
  {
    var n := |st.tok|;
    st.(phase := Multiline, tok := if n > 0 && st.tok[n - 1] == CR then st.tok[..n - 1] + [NUL] else st.tok)
  }

  // The rest of a line that is too long is dropped.
  function ValueByte(st: State, b: byte): (r: State)
    ensures r.used == st.used && (r.phase.Hung? ==> st.phase.Hung?)
  {
    if b == LF then EndLine(st)
    else if |st.tok| >= LIMIT then st
    else st.(tok := st.tok + [b])
  }

  // A header goes on in the next line.
  function SkipWsByte(st: State, b: byte): (r: State)
    ensures r.used == st.used && (r.phase.Hung? ==> st.phase.Hung?)
  {
    if b == TAB || b == SPACE || b == LF then st
    else if |st.tok| + 2 > LIMIT then st.(phase := Overrun)
    else st.(phase := Value, tok := st.tok + [SPACE, b])
  }

  function EndBody(st: State): (r: State)
    requires st.phase.Body?
    ensures r.used == st.used && (r.phase.Hung? ==> st.phase.Hung?)
  {
    match st.phase.kind
    case Raw => st.(phase := Ready, req := st.req.(data := Some(st.body)))
    case File => st.(phase := Ready, req := st.req.(file := Some(st.body)))
    case Form =>
      var post := QueryDict(CString(st.body));
      if post.None? then st.(phase := Overrun) else st.(phase := Ready, req := st.req.(post := post))
  }

  function BodyByte(st: State, b: byte): (r: State)
    requires st.phase.Body?
    ensures r.used == st.used && (r.phase.Hung? ==> st.phase.Hung?)
  {
    var s := st.(body := st.body + [b]);
    if st.phase.left <= 1 then EndBody(s) else s.(phase := Body(st.phase.kind, st.phase.left - 1))
  }

  // No byte changes such a state.
  predicate Stopped(p: Phase) {
    p.Ready? || p.Failed? || p.Hung? || p.Overrun?
  }

  function Step(sv: Server, st: State, b: byte): State {
    var s := st.(used := st.used + 1);
    match st.phase
    case Ready | Failed(_) | Hung | Overrun => st
    case Method | Url | Version => if IsSpace(b) then EndString(s, b == LF) else Push(s, b)
    case SkipNL(None) => s.(phase := if b == LF then Key else SkipNL(Some(b)))
    case SkipNL(Some(c)) => if c == CR && b == LF then s.(phase := Key) else Fail(s, OCS_INTERNAL_ERROR)
    case Key => KeyByte(sv, s, b)
    case Value => ValueByte(s, b)
    case Multiline =>
      if b == NUL then st.(phase := Hung)
      else if b == SPACE || b == TAB then s.(phase := SkipWs)
      else KeyByte(sv, AddHeader(s), b)
    case SkipWs => SkipWsByte(s, b)
    case Body(_, _) => BodyByte(s, b)
    case Multipart(_, _) => s.(body := st.body + [b])
  }

  function Feed(sv: Server, st: State, s: bytes): State
    decreases |s|
  {
    if s == [] then st else Feed(sv, Step(sv, st, s[0]), s[1..])
  }

  function Initial(): State {
    State(Method, [], [], [], Req(0, false, None, None, Nil, None, None, None), 0)
  }

  // ---------- runs ----------

  lemma {:induction false} FeedJoins(sv: Server, st: State, a: bytes, b: bytes)
    ensures Feed(sv, st, a + b) == Feed(sv, Feed(sv, st, a), b)
    decreases |a|
  {
    hide Step;
    if a == [] {
      assert a + b == b;
    } else {
      assert (a + b)[1..] == a[1..] + b && (a + b)[0] == a[0];
      FeedJoins(sv, Step(sv, st, a[0]), a[1..], b);
    }
  }

  lemma FeedOne(sv: Server, st: State, b: byte)
    ensures Feed(sv, st, [b]) == Step(sv, st, b)
  {
    hide Step;
    assert [b][1..] == [];
  }

  lemma {:induction false} FeedStopped(sv: Server, st: State, s: bytes)
    requires Stopped(st.phase)
    ensures Feed(sv, st, s) == st
    decreases |s|
  {
    if s != [] {
      FeedStopped(sv, st, s[1..]);
    }
  }

  // Whatever stops a run early stops the whole of it.
  lemma FeedPrefix(sv: Server, st: State, a: bytes, b: bytes)
    requires !Feed(sv, st, a + b).phase.Overrun?
    ensures !Feed(sv, st, a).phase.Overrun?
  {
    FeedJoins(sv, st, a, b);
    if Stopped(Feed(sv, st, a).phase) {
      FeedStopped(sv, Feed(sv, st, a), b);
    }
  }

  // ---------- stretches of input ----------

  lemma {:induction false} FeedString(sv: Server, st: State, s: bytes)
    requires st.phase.Method? || st.phase.Url? || st.phase.Version?
    requires |st.tok| < LIMIT && forall i :: 0 <= i < |s| ==> !IsSpace(s[i])
    ensures |st.tok| + |s| < LIMIT ==> Feed(sv, st, s) == st.(tok := st.tok + s, used := st.used + |s|)
    ensures |st.tok| + |s| >= LIMIT ==> Feed(sv, st, s).phase.Overrun?
    decreases |s|
  {
    if s == [] {
      assert st.tok + [] == st.tok;
    } else {
      var next := Step(sv, st, s[0]);
      if |st.tok| + 1 < LIMIT {
        FeedString(sv, next, s[1..]);
        assert [s[0]] + s[1..] == s;
        Assoc(st.tok, [s[0]], s[1..]);
      } else {
        FeedStopped(sv, next, s[1..]);
      }
    }
  }

  function NoCR(s: bytes): (r: bytes)
    ensures |r| <= |s|
  {
    if s == [] then [] else if s[0] == CR then NoCR(s[1..]) else [s[0]] + NoCR(s[1..])
  }

  lemma {:induction false} FeedKey(sv: Server, st: State, s: bytes)
    requires st.phase.Key? && |st.tok| < LIMIT && forall i :: 0 <= i < |s| ==> s[i] != COLON && s[i] != LF
    ensures |st.tok| + |NoCR(s)| < LIMIT ==> Feed(sv, st, s) == st.(tok := st.tok + NoCR(s), used := st.used + |s|)
    ensures |st.tok| + |NoCR(s)| >= LIMIT ==> Feed(sv, st, s).phase.Overrun?
    decreases |s|
  {
    if s == [] {
      assert st.tok + [] == st.tok;
    } else {
      var next := Step(sv, st, s[0]);
      if s[0] == CR {
        FeedKey(sv, next, s[1..]);
      } else if |st.tok| + 1 < LIMIT {
        FeedKey(sv, next, s[1..]);
        Assoc(st.tok, [s[0]], NoCR(s[1..]));
      } else {
        FeedStopped(sv, next, s[1..]);
      }
    }
  }

  function Clip(s: bytes): (r: bytes)
    ensures |r| <= LIMIT && (|s| <= LIMIT ==> r == s)
  {
    if |s| <= LIMIT then s else s[..LIMIT]
  }

  lemma {:induction false} FeedLine(sv: Server, st: State, s: bytes)
    requires st.phase.Value? && |st.tok| <= LIMIT && forall i :: 0 <= i < |s| ==> s[i] != LF
    ensures Feed(sv, st, s) == st.(tok := Clip(st.tok + s), used := st.used + |s|)
    decreases |s|
  {
    if s == [] {
      assert st.tok + [] == st.tok;
    } else {
      var next := Step(sv, st, s[0]);
      FeedLine(sv, next, s[1..]);
      assert [s[0]] + s[1..] == s;
      Assoc(st.tok, [s[0]], s[1..]);
      if |st.tok| >= LIMIT {
        assert Clip(st.tok + s[1..]) == st.tok == Clip(st.tok + s);
      }
    }
  }

  /** A body is taken over byte for byte: as many bytes as were announced, and not one
      of those behind them. */
  lemma {:induction false} FeedBody(sv: Server, st: State, s: bytes)
    requires st.phase.Body? && st.phase.left > 0
    ensures |s| < st.phase.left ==>
      Feed(sv, st, s) == st.(body := st.body + s, phase := Body(st.phase.kind, st.phase.left - |s|),
          used := st.used + |s|)
    ensures |s| >= st.phase.left ==>
      Feed(sv, st, s) == EndBody(st.(body := st.body + s[..st.phase.left], used := st.used + st.phase.left))
    decreases |s|
  {
    hide EndBody;
    if s == [] {
      assert st.body + [] == st.body;
    } else {
      var n := st.phase.left;
      var next := Step(sv, st, s[0]);
      assert [s[0]] + s[1..] == s;
      Assoc(st.body, [s[0]], s[1..]);
      if n == 1 {
        BodyEnds(st.(body := st.body + [s[0]], used := st.used + 1));
        FeedStopped(sv, next, s[1..]);
        assert s[..1] == [s[0]];
        EndBodyIgnores(st, st.body + [s[0]], st.used + 1);
      } else {
        FeedBody(sv, next, s[1..]);
        if |s| >= n {
          assert [s[0]] + s[1..][..n - 1] == s[..n];
          Assoc(st.body, [s[0]], s[1..][..n - 1]);
          EndBodyIgnores(st, st.body + s[..n], st.used + n);
        }
      }
    }
  }

  lemma BodyEnds(st: State)
    requires st.phase.Body?
    ensures Stopped(EndBody(st).phase)
  {
  }

  // How many bytes were left plays no part in the end.
  lemma EndBodyIgnores(st: State, body: bytes, used: nat)
    requires st.phase.Body?
    ensures forall n: nat ::
      EndBody(st.(body := body, used := used, phase := Body(st.phase.kind, n))) ==
      EndBody(st.(body := body, used := used))
  {
  }

  lemma {:induction false} FeedMultipart(sv: Server, st: State, s: bytes)
    requires st.phase.Multipart?
    ensures Feed(sv, st, s) == st.(body := st.body + s, used := st.used + |s|)
    decreases |s|
  {
    if s == [] {
      assert st.body + [] == st.body;
    } else {
      FeedMultipart(sv, Step(sv, st, s[0]), s[1..]);
      assert [s[0]] + s[1..] == s;
      Assoc(st.body, [s[0]], s[1..]);
    }
  }

  // ---------- independence from chunking ----------

  // A half read line end is forgotten when the input runs out.
  function Forget(st: State): State {
    if st.phase.SkipNL? then st.(phase := SkipNL(None)) else st
  }

  // One call for each chunk.
  function FeedChunks(sv: Server, st: State, chunks: seq<bytes>): State
    decreases |chunks|
  {
    if chunks == [] then st
    else Forget(Feed(sv, FeedChunks(sv, st, chunks[..|chunks| - 1]), chunks[|chunks| - 1]))
  }

  // The two bytes behind the version are not a line end: the parser stands between them.
  predicate BadLineEnd(p: Phase, b: byte) {
    p.SkipNL? && p.seen.Some? && !(p.seen.value == CR && b == LF)
  }

  ghost predicate MeetsBadLineEnd(sv: Server, st: State, s: bytes) {
    exists i :: 0 <= i < |s| && BadLineEnd(Feed(sv, st, s[..i]).phase, s[i])
  }

  lemma ForgetsHarmlessly(sv: Server, st: State, s: bytes)
    requires s == [] || !BadLineEnd(st.phase, s[0])
    ensures Forget(Feed(sv, Forget(st), s)) == Forget(Feed(sv, st, s))
    ensures s != [] ==> Feed(sv, Forget(st), s) == Feed(sv, st, s)
  {
    if s != [] && st.phase.SkipNL? && st.phase.seen.Some? {
      assert Step(sv, Forget(st), s[0]) == Step(sv, st, s[0]);
    }
  }

  /** However the input is cut into chunks, the request filled, the phase reached and the
      byte it is reached at are those of one call with the whole input. Errors are no
      exception, but for the one about a bad line end behind the version. */
  lemma {:induction false} ChunkIndependence(sv: Server, st: State, chunks: seq<bytes>)
    requires Forget(st) == st && !MeetsBadLineEnd(sv, st, Flatten(chunks))
    ensures FeedChunks(sv, st, chunks) == Forget(Feed(sv, st, Flatten(chunks)))
    decreases |chunks|
  {
    hide Step, BadLineEnd;
    if chunks != [] {
      var front, c := chunks[..|chunks| - 1], chunks[|chunks| - 1];
      var a := Flatten(front);
      var s := a + c;
      assert Flatten(chunks) == s;
      forall i | 0 <= i < |a| ensures !BadLineEnd(Feed(sv, st, a[..i]).phase, a[i]) {
        assert s[..i] == a[..i] && s[i] == a[i];
      }
      ChunkIndependence(sv, st, front);
      FeedJoins(sv, st, a, c);
      assert s[..|a|] == a;
      assert c != [] ==> s[|a|] == c[0];
      ForgetsHarmlessly(sv, Feed(sv, st, a), c);
    }
  }

  // One chunk more: where the run stands, and what is still to be shown of it.
  lemma NextChunk(sv: Server, st: State, a: bytes, c: bytes, more: bytes)
    requires !MeetsBadLineEnd(sv, st, a + c + more) && !Feed(sv, st, a + c + more).phase.Overrun?
    ensures !Feed(sv, Forget(Feed(sv, st, a)), c).phase.Overrun?
    ensures Forget(Feed(sv, Forget(Feed(sv, st, a)), c)) == Forget(Feed(sv, st, a + c))
  {
    hide Step, Feed, BadLineEnd;
    var s := a + c + more;
    assert s[..|a|] == a;
    assert c != [] ==> s[|a|] == c[0];
    FeedPrefix(sv, st, a + c, more);
    FeedJoins(sv, st, a, c);
    ForgetsHarmlessly(sv, Feed(sv, st, a), c);
  }

  lemma {:induction false} UsedGrows(sv: Server, st: State, s: bytes)
    ensures st.used <= Feed(sv, st, s).used <= st.used + |s|
    decreases |s|
  {
    if s != [] {
      StepUses(sv, st, s[0]);
      UsedGrows(sv, Step(sv, st, s[0]), s[1..]);
    }
  }

  lemma StepUses(sv: Server, st: State, b: byte)
    ensures st.used <= Step(sv, st, b).used <= st.used + 1
  {
    hide KeyByte, AddHeader, EndString, Push, ValueByte, SkipWsByte, BodyByte;
  }

  /** That error does depend on the chunks: a cut between the two bytes changes the
      outcome. */
  lemma BadLineEndDepends(sv: Server, st: State, s: bytes, i: nat)
    requires i < |s| && BadLineEnd(Feed(sv, st, s[..i]).phase, s[i])
    ensures FeedChunks(sv, st, [s[..i], s[i..]]) != Forget(Feed(sv, st, s))
    ensures Feed(sv, st, s).phase == Failed(OCS_INTERNAL_ERROR)
  {
    hide KeyByte, AddHeader, EndString, Push, ValueByte, SkipWsByte, BodyByte;
    var mid, rest := Feed(sv, st, s[..i]), s[i..];
    assert s == s[..i] + rest;
    FeedJoins(sv, st, s[..i], rest);
    FeedStopped(sv, Step(sv, mid, s[i]), rest[1..]);
    TwoChunks(sv, st, s[..i], rest);
    var second := Step(sv, Forget(mid), s[i]);
    if rest[1..] != [] && second.phase.SkipNL? {
      StepUses(sv, second, rest[1]);
      UsedGrows(sv, Step(sv, second, rest[1]), rest[1..][1..]);
    } else {
      FailsLater(sv, second, rest[1..]);
    }
  }

  lemma TwoChunks(sv: Server, st: State, a: bytes, b: bytes)
    ensures FeedChunks(sv, st, [a, b]) == Forget(Feed(sv, Forget(Feed(sv, st, a)), b))
  {
    hide Step;
    var chunks := [a, b];
    assert chunks[..1] == [a] && [a][..0] == [];
    assert FeedChunks(sv, st, [a]) == Forget(Feed(sv, st, a));
    assert chunks[1] == b;
  }

  // An error is never found without looking at a byte.
  lemma FailsLater(sv: Server, st: State, s: bytes)
    requires !Stopped(st.phase)
    ensures Feed(sv, st, s).phase.Failed? ==> Feed(sv, st, s).used > st.used
  {
    hide KeyByte, AddHeader, EndString, Push, ValueByte, SkipWsByte, BodyByte;
    if s != [] {
      assert Step(sv, st, s[0]).used == st.used + 1 || Step(sv, st, s[0]).phase.Hung?;
      UsedGrows(sv, Step(sv, st, s[0]), s[1..]);
      if Step(sv, st, s[0]).phase.Hung? {
        FeedStopped(sv, Step(sv, st, s[0]), s[1..]);
      }
    }
  }

  // ---------- termination ----------

  // A NUL is the first byte behind the line of a header.
  ghost predicate NulBehindLine(sv: Server, st: State, s: bytes, i: nat)
    requires i < |s|
  {
    i > 0 && s[i] == NUL && s[i - 1] == LF && Feed(sv, st, s[..i - 1]).phase.Value?
  }

  /** The parser hangs if and only if somewhere in the input a NUL is the first byte behind
      the line of a header. */
  lemma {:induction false} HangsIff(sv: Server, st: State, s: bytes)
    requires !st.phase.Hung? && !st.phase.Multiline?
    ensures Feed(sv, st, s).phase.Hung? <==> exists i :: 0 <= i < |s| && NulBehindLine(sv, st, s, i)
    decreases |s|
  {
    hide Feed, Step, NulBehindLine;
    if s == [] {
      FeedNone(sv, st);
      return;
    }
    var n := |s| - 1;
    var front := s[..n];
    assert s == front + [s[n]];
    HangsIff(sv, st, front);
    FeedSnoc(sv, st, front, s[n]);
    HangStep(sv, Feed(sv, st, front), s[n]);
    forall i | 0 <= i < n ensures NulBehindLine(sv, st, front, i) <==> NulBehindLine(sv, st, s, i) {
      BehindLineSame(sv, st, front, s[n], i);
    }
    MultilineIff(sv, st, front);
    assert NulBehindLine(sv, st, s, n) <==> Feed(sv, st, front).phase.Multiline? && s[n] == NUL by {
      LastBehindLine(sv, st, s);
    }
  }

  lemma FeedNone(sv: Server, st: State)
    ensures Feed(sv, st, []) == st
  {
  }

  lemma FeedSnoc(sv: Server, st: State, s: bytes, b: byte)
    ensures Feed(sv, st, s + [b]) == Step(sv, Feed(sv, st, s), b)
  {
    hide Step;
    FeedJoins(sv, st, s, [b]);
    FeedOne(sv, Feed(sv, st, s), b);
  }

  lemma BehindLineSame(sv: Server, st: State, s: bytes, b: byte, i: nat)
    requires i < |s|
    ensures NulBehindLine(sv, st, s, i) <==> NulBehindLine(sv, st, s + [b], i)
  {
    hide Feed;
    assert i > 0 ==> (s + [b])[..i - 1] == s[..i - 1];
  }

  lemma LastBehindLine(sv: Server, st: State, s: bytes)
    requires s != []
    ensures var n := |s| - 1;
      NulBehindLine(sv, st, s, n) <==>
          n > 0 && s[n] == NUL && s[..n][n - 1] == LF && Feed(sv, st, s[..n][..n - 1]).phase.Value?
  {
    hide Feed;
    var n := |s| - 1;
    assert n > 0 ==> s[..n][..n - 1] == s[..n - 1];
  }

  lemma HangStep(sv: Server, st: State, b: byte)
    ensures Step(sv, st, b).phase.Hung? <==> st.phase.Hung? || (st.phase.Multiline? && b == NUL)
    ensures Step(sv, st, b).phase.Multiline? <==> st.phase.Value? && b == LF
  {
    hide CString, SkipSpaces, Position, QueryDict, Header, AtoL, StrStr, M.Insert, Q.Unquote, Q.IndexOf;
  }

  // Only the end of a header's value leads behind its line.
  lemma MultilineIff(sv: Server, st: State, s: bytes)
    requires !st.phase.Multiline?
    ensures Feed(sv, st, s).phase.Multiline? <==> s != [] && s[|s| - 1] == LF && Feed(sv, st, s[..|s| - 1]).phase.Value?
  {
    hide Feed, Step;
    if s == [] {
      FeedNone(sv, st);
    } else {
      var n := |s| - 1;
      assert s == s[..n] + [s[n]];
      FeedSnoc(sv, st, s[..n], s[n]);
      HangStep(sv, Feed(sv, st, s[..n]), s[n]);
    }
  }

  lemma {:induction false} NulFreeReturns(sv: Server, st: State, s: bytes)
    requires NulFree(s) && !st.phase.Hung?
    ensures !Feed(sv, st, s).phase.Hung?
    decreases |s|
  {
    hide KeyByte, AddHeader, EndString, Push, ValueByte, SkipWsByte, BodyByte;
    if s != [] {
      NulFreeReturns(sv, Step(sv, st, s[0]), s[1..]);
    }
  }

  // ---------- a request written out and read back ----------

  // One line of a header: white space, a text, and how the line ends.
  datatype Piece = Piece(blank: bytes, text: bytes, crlf: bool)

  // A header: its name, the rest of its line, and the lines it goes on in.
  datatype Line = Line(key: bytes, first: Piece, more: seq<Piece>)

  // What a request says in front of its body. Without a version the address ends the line.
  datatype Head = Head(verb: nat, path: seq<Q.Unit>, query: Option<seq<Q.Part>>, version: Option<bytes>,
                       crlf: bool, headers: seq<Line>)

  function Eol(crlf: bool): bytes { if crlf then CRLF else [LF] }

  function RenderTarget(h: Head): bytes {
    Q.Spell(h.path) + if h.query.Some? then [QUESTION] + Q.SpellAll(h.query.value) else []
  }

  function RenderVersion(h: Head): bytes {
    if h.version.None? then [LF] else [SPACE] + (h.version.value + Eol(h.crlf))
  }

  function RequestLine(h: Head): bytes
    requires h.verb < |Verbs()|
  {
    Verbs()[h.verb] + [SPACE] + (RenderTarget(h) + RenderVersion(h))
  }

  function RenderPiece(p: Piece): bytes { p.blank + (p.text + Eol(p.crlf)) }

  function RenderPieces(ps: seq<Piece>): bytes {
    if ps == [] then [] else RenderPiece(ps[0]) + RenderPieces(ps[1..])
  }

  function RenderLine(l: Line): bytes { l.key + [COLON] + (RenderPiece(l.first) + RenderPieces(l.more)) }

  function RenderHeaders(hs: seq<Line>): bytes {
    if hs == [] then [] else RenderLine(hs[0]) + RenderHeaders(hs[1..])
  }

  function RenderHead(h: Head): bytes
    requires h.verb < |Verbs()|
  {
    RequestLine(h) + (RenderHeaders(h.headers) + Eol(h.crlf))
  }

  predicate IsBlankByte(b: byte) { b == SPACE || b == TAB }

  ghost predicate Blanks(s: bytes) { forall i :: 0 <= i < |s| ==> IsBlankByte(s[i]) }

  ghost predicate TidyPiece(p: Piece) {
    && Blanks(p.blank)
    && (forall i :: 0 <= i < |p.text| ==> p.text[i] != NUL && p.text[i] != LF)
    && (p.text != [] ==> !IsSpace(p.text[0]) && (p.crlf || p.text[|p.text| - 1] != CR))
  }

  // A further line starts with white space and has a text.
  ghost predicate Continues(p: Piece) { TidyPiece(p) && p.blank != [] && p.text != [] }

  // The room further lines take up in a token.
  function Room(ps: seq<Piece>): nat {
    if ps == [] then 0 else |ps[0].text| + 2 + Room(ps[1..])
  }

  // A header that can be written, and that fits a token.
  ghost predicate OneHeader(l: Line) {
    && |l.key| < LIMIT && |l.first.blank| + |l.first.text| + 1 + Room(l.more) <= LIMIT
    && (forall i :: 0 <= i < |l.key| ==>
         l.key[i] != NUL && l.key[i] != COLON && l.key[i] != LF && l.key[i] != CR)
    && (l.key != [] ==> !IsBlankByte(l.key[0]))
    && TidyPiece(l.first) && forall i :: 0 <= i < |l.more| ==> Continues(l.more[i])
  }

  ghost predicate Word(w: bytes) {
    NulFree(w) && |w| < LIMIT && forall i :: 0 <= i < |w| ==> !IsSpace(w[i])
  }

  const SPACES: bytes := [TAB, LF, CR, SPACE]

  // An address: nothing in it ends it too early.
  ghost predicate Address(path: seq<Q.Unit>, query: Option<seq<Q.Part>>) {
    && Q.AllValid(path) && Q.Avoids(path, QUESTION) && (forall b :: b in SPACES ==> Q.Avoids(path, b))
    && (query.Some? ==> Q.Complete(query.value) && forall b :: b in SPACES ==> Q.PartsAvoid(query.value, b))
  }

  ghost predicate Printable(h: Head) {
    && h.verb < |Verbs()| && Address(h.path, h.query) && |RenderTarget(h)| < LIMIT
    && (h.version.Some? ==> Word(h.version.value))
    && forall i :: 0 <= i < |h.headers| ==> OneHeader(h.headers[i])
  }

  // The texts of the lines of a header with one space between, up to the first line that
  // ends with a carriage return.
  function Joined(p: Piece, more: seq<Piece>): bytes
    decreases |more|
  {
    if p.crlf || more == [] then p.text
    else if p.text == [] then Joined(more[0], more[1..])
    else p.text + [SPACE] + Joined(more[0], more[1..])
  }

  function HeaderEntries(hs: seq<Line>): seq<Entry<bytes, bytes>> {
    seq(|hs|, i requires 0 <= i < |hs| => Entry(hs[i].key, Joined(hs[i].first, hs[i].more), OD_HEADER))
  }

  // The pairs of a query in a dictionary.
  function QueryTree(ps: seq<Q.Part>): Dictionary { M.InsertAll(StrCmp, Nil, Q.Entries(Q.Pairs(ps))) }

  function PathOf(h: Head): bytes { CString(Q.Means(h.path)) }

  // What the request line alone says.
  function LineMeaning(h: Head): Req {
    Req(h.verb, h.version == Some(HTTP11), Some(PathOf(h)),
        if h.query.Some? then Some(QueryTree(h.query.value)) else if h.version.Some? then Some(Nil) else None,
        Nil, None, None, None)
  }

  // The request a head stands for.
  function Meaning(h: Head): Req {
    LineMeaning(h).(headers := M.InsertAll(StrCaseCmp, Nil, HeaderEntries(h.headers)))
  }

  lemma FeedWord(sv: Server, st: State, w: bytes, b: byte, more: bytes)
    requires st.phase.Method? || st.phase.Url? || st.phase.Version?
    requires IsSpace(b) && st.tok == [] && |w| < LIMIT && forall i :: 0 <= i < |w| ==> !IsSpace(w[i])
    ensures Feed(sv, st, w + [b] + more) == Feed(sv, EndString(st.(tok := w, used := st.used + |w| + 1), b == LF), more)
  {
    hide IsSpace, EndString, Feed;
    FeedJoins(sv, st, w + [b], more);
    FeedJoins(sv, st, w, [b]);
    FeedString(sv, st, w);
    assert [] + w == w;
    FeedOne(sv, st.(tok := w, used := st.used + |w|), b);
  }

  lemma {:induction false} NoCRSame(s: bytes)
    requires forall i :: 0 <= i < |s| ==> s[i] != CR
    ensures NoCR(s) == s
  {
    if s != [] {
      NoCRSame(s[1..]);
      assert [s[0]] + s[1..] == s;
    }
  }

  lemma FeedHeaderKey(sv: Server, st: State, k: bytes, more: bytes)
    requires st.phase.Key? && st.tok == [] && |k| < LIMIT && NulFree(k)
    requires forall i :: 0 <= i < |k| ==> k[i] != COLON && k[i] != LF && k[i] != CR
    ensures Feed(sv, st, k + [COLON] + more) == Feed(sv, st.(phase := Value, key := k, used := st.used + |k| + 1), more)
  {
    hide Feed, CString, NoCR, AddHeader, EndString, EndHeaders, BodyByte, SkipWsByte, ValueByte;
    FeedJoins(sv, st, k + [COLON], more);
    FeedJoins(sv, st, k, [COLON]);
    NoCRSame(k);
    FeedKey(sv, st, k);
    assert [] + k == k;
    CStringOfNulFree(k);
    FeedOne(sv, st.(tok := k, used := st.used + |k|), COLON);
  }

  // The end of a line leaves a NUL in the place of a carriage return.
  function Mark(crlf: bool): (r: bytes)
    ensures |r| <= 1
  {
    if crlf then [NUL] else []
  }

  lemma FeedText(sv: Server, st: State, v: bytes, crlf: bool, more: bytes)
    requires st.phase.Value? && |st.tok| + |v| + 1 <= LIMIT && forall i :: 0 <= i < |v| ==> v[i] != LF
    requires !crlf && st.tok + v != [] ==> (st.tok + v)[|st.tok + v| - 1] != CR
    ensures Feed(sv, st, v + Eol(crlf) + more) ==
      Feed(sv, st.(phase := Multiline, tok := st.tok + v + Mark(crlf), used := st.used + |v| + |Eol(crlf)|), more)
  {
    hide Feed, Step, Clip;
    var line := if crlf then v + [CR] else v;
    var tok := st.tok + line;
    assert v + Eol(crlf) == line + [LF];
    FeedJoins(sv, st, line + [LF], more);
    FeedJoins(sv, st, line, [LF]);
    FeedLine(sv, st, line);
    FeedOne(sv, st.(tok := tok, used := st.used + |line|), LF);
    LineEnds(sv, st.(tok := tok, used := st.used + |line|));
    if crlf {
      assert tok[|tok| - 1] == CR && tok[..|tok| - 1] == st.tok + v;
    } else {
      assert tok + Mark(crlf) == tok;
    }
  }

  lemma LineEnds(sv: Server, st: State)
    requires st.phase.Value?
    ensures var n := |st.tok|;
      Step(sv, st, LF) == st.(phase := Multiline, used := st.used + 1,
        tok := if n > 0 && st.tok[n - 1] == CR then st.tok[..n - 1] + [NUL] else st.tok)
  {
  }

  lemma {:induction false} FeedBlanks(sv: Server, st: State, s: bytes)
    requires st.phase.SkipWs? && Blanks(s)
    ensures Feed(sv, st, s) == st.(used := st.used + |s|)
    decreases |s|
  {
    if s != [] {
      assert IsBlankByte(s[0]);
      FeedBlanks(sv, st.(used := st.used + 1), s[1..]);
    }
  }

  // A line that goes on with a header.
  lemma FeedPiece(sv: Server, st: State, p: Piece, more: bytes)
    requires st.phase.Multiline? && Continues(p) && |st.tok| + |p.text| + 2 <= LIMIT
    ensures Feed(sv, st, RenderPiece(p) + more) ==
      Feed(sv, st.(tok := st.tok + [SPACE] + p.text + Mark(p.crlf), used := st.used + |RenderPiece(p)|), more)
  {
    hide Feed, AddHeader, EndString, KeyByte, BodyByte, ValueByte, IsSpace, Room, Eol;
    assert IsSpace(SPACE) && IsSpace(TAB) && IsSpace(LF) by {
      Spaces();
    }
    var b, v, rest := p.blank, p.text, p.text[1..] + Eol(p.crlf) + more;
    assert RenderPiece(p) + more == [b[0]] + (b[1..] + ([v[0]] + rest));
    assert IsBlankByte(b[0]);
    FeedJoins(sv, st, [b[0]], b[1..] + ([v[0]] + rest));
    FeedOne(sv, st, b[0]);
    var st1 := st.(phase := SkipWs, used := st.used + 1);
    FeedJoins(sv, st1, b[1..], [v[0]] + rest);
    FeedBlanks(sv, st1, b[1..]);
    var st2 := st1.(used := st.used + |b|);
    FeedJoins(sv, st2, [v[0]], rest);
    FeedOne(sv, st2, v[0]);
    var st3 := st2.(phase := Value, tok := st.tok + [SPACE, v[0]], used := st2.used + 1);
    assert st3.tok + v[1..] == st.tok + [SPACE] + v;
    assert (st3.tok + v[1..])[|st3.tok + v[1..]| - 1] == v[|v| - 1];
    FeedText(sv, st3, v[1..], p.crlf, more);
  }

  function Tail(ps: seq<Piece>): bytes {
    if ps == [] then [] else [SPACE] + ps[0].text + Mark(ps[0].crlf) + Tail(ps[1..])
  }

  lemma {:induction false} FeedPieces(sv: Server, st: State, ps: seq<Piece>, more: bytes)
    requires st.phase.Multiline? && |st.tok| + Room(ps) <= LIMIT && forall i :: 0 <= i < |ps| ==> Continues(ps[i])
    ensures Feed(sv, st, RenderPieces(ps) + more) ==
      Feed(sv, st.(tok := st.tok + Tail(ps), used := st.used + |RenderPieces(ps)|), more)
    decreases |ps|
  {
    hide Feed, Continues, RenderPiece, Mark;
    if ps == [] {
      assert [] + more == more && st.tok + [] == st.tok;
    } else {
      var p, rest := ps[0], RenderPieces(ps[1..]);
      Assoc(RenderPiece(p), rest, more);
      FeedPiece(sv, st, p, rest + more);
      var st1 := st.(tok := st.tok + [SPACE] + p.text + Mark(p.crlf), used := st.used + |RenderPiece(p)|);
      FeedPieces(sv, st1, ps[1..], more);
      Assoc(st.tok, [SPACE] + p.text + Mark(p.crlf), Tail(ps[1..]));
      assert st.tok + ([SPACE] + p.text + Mark(p.crlf)) == st1.tok;
    }
  }

  // The line behind a header shows that it does not go on.
  lemma FeedNextLine(sv: Server, st: State, s: bytes)
    requires st.phase.Multiline? && s != [] && s[0] != NUL && s[0] != SPACE && s[0] != TAB
    ensures Feed(sv, st, s) == Feed(sv, AddHeader(st), s)
  {
    hide KeyByte;
    AddHeaderUsed(st);
  }

  lemma AddHeaderUsed(st: State)
    ensures AddHeader(st).phase == Key && AddHeader(st.(used := st.used + 1)) == AddHeader(st).(used := st.used + 1)
  {
  }

  lemma {:induction false} SkipsBlanks(b: bytes, v: bytes)
    requires Blanks(b) && (v != [] ==> !IsSpace(v[0]))
    ensures SkipSpaces(b + v) == v
  {
    if b == [] {
      assert b + v == v;
    } else {
      assert IsBlankByte(b[0]) && (b + v)[1..] == b[1..] + v;
      SkipsBlanks(b[1..], v);
    }
  }

  // The string in a token, after any text in front.
  lemma {:induction false} TokenString(front: bytes, p: Piece, more: seq<Piece>)
    requires NulFree(front) && TidyPiece(p) && forall i :: 0 <= i < |more| ==> Continues(more[i])
    ensures p.text != [] || p.crlf || more == [] ==>
      CString(front + p.text + Mark(p.crlf) + Tail(more)) == front + Joined(p, more)
    ensures p.text == [] && !p.crlf && more != [] ==>
      CString(front + p.text + Mark(p.crlf) + Tail(more)) == front + [SPACE] + Joined(p, more)
    decreases |more|
  {
    hide CString, IsSpace, Blanks, Joined;
    var a := front + p.text;
    JoinedIs(p, more);
    if p.crlf {
      assert NulFree(a);
      CStringStops(a, Tail(more));
      CStringOfNulFree(a);
    } else if more == [] {
      assert a + Mark(false) + Tail(more) == a;
      CStringOfNulFree(a);
    } else {
      var q := more[0];
      assert TidyPiece(q) && NulFree(a + [SPACE]);
      TokenString(a + [SPACE], q, more[1..]);
      TailIs(a, more);
      assert q.text != [];
      Assoc(front, p.text, [SPACE]);
      Assoc(front, p.text + [SPACE], Joined(q, more[1..]));
      assert p.text == [] ==> a == front;
    }
  }

  lemma JoinedIs(p: Piece, more: seq<Piece>)
    ensures Joined(p, more) ==
      if p.crlf || more == [] then p.text
      else if p.text == [] then Joined(more[0], more[1..])
      else p.text + [SPACE] + Joined(more[0], more[1..])
  {
  }

  lemma TailIs(a: bytes, ps: seq<Piece>)
    requires ps != []
    ensures a + Mark(false) + Tail(ps) == a + [SPACE] + ps[0].text + Mark(ps[0].crlf) + Tail(ps[1..])
  {
    hide Mark;
    assert Mark(false) == [] by {
      NoMark();
    }
    var p, rest := ps[0], Tail(ps[1..]);
    assert a + [] == a;
    Assoc(a, [SPACE] + p.text + Mark(p.crlf), rest);
    Assoc(a, [SPACE] + p.text, Mark(p.crlf));
    Assoc(a, [SPACE], p.text);
  }

  lemma NoMark()
    ensures Mark(false) == []
  {
  }

  lemma {:induction false} JoinedStarts(p: Piece, more: seq<Piece>)
    requires TidyPiece(p) && forall i :: 0 <= i < |more| ==> Continues(more[i])
    ensures Joined(p, more) != [] ==> !IsSpace(Joined(p, more)[0])
    decreases |more|
  {
    hide IsSpace, Blanks;
    if !p.crlf && more != [] {
      assert Continues(more[0]);
      JoinedStarts(more[0], more[1..]);
    }
  }

  // All the lines of a header with one space between, however they end.
  function Folded(p: Piece, more: seq<Piece>): bytes
    decreases |more|
  {
    if more == [] then p.text
    else if p.text == [] then Folded(more[0], more[1..])
    else p.text + [SPACE] + Folded(more[0], more[1..])
  }

  // The line of a header with that number.
  function LineOf(l: Line, i: nat): Piece
    requires i <= |l.more|
  {
    if i == 0 then l.first else l.more[i - 1]
  }

  /** The lines that a header goes on in are part of its value if and only if no line in
      front of one ends with a carriage return. */
  lemma {:induction false} FoldKeptIff(l: Line)
    requires OneHeader(l)
    ensures Joined(l.first, l.more) == Folded(l.first, l.more) <==>
      forall i :: 0 <= i < |l.more| ==> !LineOf(l, i).crlf
  {
    hide TidyPiece, Room;
    assert forall i :: 0 <= i < |l.more| ==> LineOf(l, i + 1) == l.more[i];
    FoldKept(l.first, l.more);
    assert l.more != [] ==> LineOf(l, 0) == l.first;
  }

  lemma {:induction false} FoldKept(p: Piece, more: seq<Piece>)
    requires forall i :: 0 <= i < |more| ==> more[i].text != []
    ensures Joined(p, more) == Folded(p, more) <==>
      (more != [] ==> !p.crlf) && forall i :: 0 <= i < |more| - 1 ==> !more[i].crlf
    ensures |Folded(p, more)| >= |p.text| && (more != [] ==> |Folded(p, more)| > |p.text|)
    ensures |Joined(p, more)| <= |Folded(p, more)|
    decreases |more|
  {
    if more != [] {
      var rest := more[1..];
      FoldKept(more[0], rest);
      assert forall i :: 0 < i < |more| ==> more[i] == rest[i - 1];
      if !p.crlf && p.text != [] {
        var a, j, f := p.text + [SPACE], Joined(more[0], rest), Folded(more[0], rest);
        assert (a + j)[|a|..] == j && (a + f)[|a|..] == f;
      }
    }
  }

  /** So a value "a" that goes on with "b" behind a carriage return is read as "a". */
  lemma FoldLost(l: Line)
    requires l == Line([0x58], Piece([SPACE], [0x61], true), [Piece([SPACE], [0x62], true)])
    ensures OneHeader(l) && Joined(l.first, l.more) == [0x61] && Folded(l.first, l.more) == [0x61, SPACE, 0x62]
  {
    assert l.more[1..] == [];
  }

  // The value of a header.
  lemma TokenValue(l: Line)
    requires OneHeader(l)
    ensures SkipSpaces(CString(l.first.blank + l.first.text + Mark(l.first.crlf) + Tail(l.more))) ==
      Joined(l.first, l.more)
  {
    hide CString, IsSpace, SkipSpaces, Joined, Continues;
    var b, v := l.first.blank, Joined(l.first, l.more);
    assert NulFree(b) by {
      forall i | 0 <= i < |b| ensures b[i] != NUL {
        assert IsBlankByte(b[i]);
      }
    }
    TokenString(b, l.first, l.more);
    JoinedStarts(l.first, l.more);
    if l.first.text != [] || l.first.crlf || l.more == [] {
      SkipsBlanks(b, v);
    } else {
      assert Blanks(b + [SPACE]);
      SkipsBlanks(b + [SPACE], v);
    }
  }

  // Behind the lines of a header: what they left is in the token.
  function LineRead(st: State, l: Line): State {
    st.(phase := Multiline, key := l.key, used := st.used + |RenderLine(l)|,
        tok := l.first.blank + l.first.text + Mark(l.first.crlf) + Tail(l.more))
  }

  lemma FeedHeaderLine(sv: Server, st: State, l: Line, more: bytes)
    requires st.phase.Key? && st.tok == [] && OneHeader(l)
    ensures Feed(sv, st, RenderLine(l) + more) == Feed(sv, LineRead(st, l), more)
  {
    hide Feed, RenderPieces, RenderLine, Room, Eol, Tail, Continues, IsSpace, IsBlankByte, CString, NulFree, TidyPiece,
      Blanks, OneHeader;
    var b, v, eol, rest := l.first.blank, l.first.text, Eol(l.first.crlf), RenderPieces(l.more);
    LineText(l, more);
    KeyText(l);
    FeedHeaderKey(sv, st, l.key, b + v + eol + (rest + more));
    var st1 := st.(phase := Value, key := l.key, used := st.used + |l.key| + 1);
    FirstPiece(l);
    FeedText(sv, st1, b + v, l.first.crlf, rest + more);
    assert [] + (b + v) == b + v;
    var st2 := st1.(phase := Multiline, tok := b + v + Mark(l.first.crlf), used := st1.used + |b + v| + |eol|);
    FeedPieces(sv, st2, l.more, more);
  }

  lemma KeyText(l: Line)
    requires OneHeader(l)
    ensures |l.key| < LIMIT && NulFree(l.key) && forall i :: 0 <= i < |l.more| ==> Continues(l.more[i])
    ensures forall i :: 0 <= i < |l.key| ==> l.key[i] != COLON && l.key[i] != LF && l.key[i] != CR
  {
  }

  lemma FeedHeader(sv: Server, st: State, l: Line, more: bytes)
    requires st.phase.Key? && st.tok == [] && st.key == [] && OneHeader(l)
    requires more != [] && more[0] != NUL && more[0] != SPACE && more[0] != TAB
    ensures var e := Entry(l.key, Joined(l.first, l.more), OD_HEADER);
      Feed(sv, st, RenderLine(l) + more) ==
      Feed(sv, st.(req := st.req.(headers := M.Insert(StrCaseCmp, st.req.headers, e)),
                   used := st.used + |RenderLine(l)|), more)
  {
    hide M.Insert, Feed, CString, SkipSpaces, Joined, RenderLine, OneHeader, Tail;
    FeedHeaderLine(sv, st, l, more);
    FeedNextLine(sv, LineRead(st, l), more);
    TokenValue(l);
  }

  lemma LineText(l: Line, more: bytes)
    ensures RenderLine(l) + more == l.key + [COLON]
      + (l.first.blank + l.first.text + Eol(l.first.crlf) + (RenderPieces(l.more) + more))
    ensures |RenderLine(l)| ==
      |l.key| + 1 + |l.first.blank + l.first.text| + |Eol(l.first.crlf)| + |RenderPieces(l.more)|
  {
    hide Eol, RenderPieces;
    var p := l.first;
    Assoc(l.key + [COLON], RenderPiece(p) + RenderPieces(l.more), more);
    Assoc(RenderPiece(p), RenderPieces(l.more), more);
    Assoc(p.blank, p.text, Eol(p.crlf));
  }

  lemma FirstPiece(l: Line)
    requires OneHeader(l)
    ensures var v := l.first.blank + l.first.text;
      && (forall i :: 0 <= i < |v| ==> v[i] != LF)
      && (!l.first.crlf && v != [] ==> v[|v| - 1] != CR)
      && |v| + 1 + Room(l.more) <= LIMIT
  {
    hide Room, Continues;
    var b, v := l.first.blank, l.first.blank + l.first.text;
    forall i | 0 <= i < |b| ensures b[i] != LF && b[i] != CR {
      assert IsBlankByte(b[i]);
    }
  }

  lemma Spaces()
    ensures IsSpace(LF) && IsSpace(CR) && IsSpace(SPACE) && IsSpace(TAB) && !IsSpace(NUL)
  {
  }

  lemma {:induction false} FeedHeaders(sv: Server, st: State, hs: seq<Line>, more: bytes)
    requires st.phase.Key? && st.tok == [] && st.key == []
    requires forall i :: 0 <= i < |hs| ==> OneHeader(hs[i])
    requires more != [] && more[0] != NUL && more[0] != SPACE && more[0] != TAB
    ensures Feed(sv, st, RenderHeaders(hs) + more) ==
      Feed(sv, st.(req := st.req.(headers := M.InsertAll(StrCaseCmp, st.req.headers, HeaderEntries(hs))),
                   used := st.used + |RenderHeaders(hs)|), more)
    decreases |hs|
  {
    hide M.Insert, OneHeader, Feed, RenderLine, Joined;
    if hs == [] {
      assert HeaderEntries(hs) == [] && [] + more == more;
    } else {
      var l, rest := hs[0], RenderHeaders(hs[1..]) + more;
      NextLineStarts(hs[1..], more);
      FeedHeader(sv, st, l, rest);
      Assoc(RenderLine(l), RenderHeaders(hs[1..]), more);
      var e := Entry(l.key, Joined(l.first, l.more), OD_HEADER);
      assert HeaderEntries(hs)[0] == e && HeaderEntries(hs)[1..] == HeaderEntries(hs[1..]);
      FeedHeaders(sv, st.(req := st.req.(headers := M.Insert(StrCaseCmp, st.req.headers, e)),
          used := st.used + |RenderLine(l)|), hs[1..], more);
    }
  }

  lemma NextLineStarts(hs: seq<Line>, more: bytes)
    requires forall i :: 0 <= i < |hs| ==> OneHeader(hs[i])
    requires more != [] && more[0] != NUL && more[0] != SPACE && more[0] != TAB
    ensures var s := RenderHeaders(hs) + more; s != [] && s[0] != NUL && s[0] != SPACE && s[0] != TAB
  {
    if hs != [] {
      assert OneHeader(hs[0]);
      assert RenderHeaders(hs)[0] == (hs[0].key + [COLON])[0];
    }
  }

  lemma EndOfHeaders(sv: Server, st: State, crlf: bool, more: bytes)
    requires st.phase.Key? && st.tok == []
    ensures Feed(sv, st, Eol(crlf) + more) == Feed(sv, EndHeaders(sv, st.(used := st.used + |Eol(crlf)|)), more)
  {
    hide EndHeaders;
    FeedJoins(sv, st, Eol(crlf), more);
    if crlf {
      assert CRLF[1..] == [LF];
      FeedOne(sv, st.(used := st.used + 1), LF);
    } else {
      FeedOne(sv, st, LF);
    }
  }

  ghost predicate Letters(s: string) {
    forall i :: 0 <= i < |s| ==> 'A' <= s[i] <= 'Z'
  }

  lemma LetterByte(c: char)
    requires 'A' <= c <= 'Z'
    ensures var b := ((c as int) % 256) as byte; b as int == c as int && 0x41 <= b <= 0x5A
  {
  }

  lemma AsciiLetters(s: string)
    requires Letters(s)
    ensures forall i :: 0 <= i < |s| ==> Ascii(s)[i] as int == s[i] as int && 0x41 <= Ascii(s)[i] <= 0x5A
  {
    forall i | 0 <= i < |s| ensures Ascii(s)[i] as int == s[i] as int && 0x41 <= Ascii(s)[i] <= 0x5A {
      LetterByte(s[i]);
    }
  }

  lemma AsciiDistinct(s: string, t: string)
    requires Letters(s) && Letters(t) && Ascii(s) == Ascii(t)
    ensures s == t
  {
    AsciiLetters(s);
    AsciiLetters(t);
    assert |s| == |Ascii(s)| == |t|;
    forall i | 0 <= i < |s| ensures s[i] == t[i] {
      assert s[i] as int == t[i] as int;
    }
  }

  lemma {:induction false} PositionOf(words: seq<bytes>, i: nat)
    requires i < |words| && forall j :: 0 <= j < i ==> words[j] != words[i]
    ensures Position(words, words[i]) == Some(i)
  {
    if i > 0 {
      PositionOf(words[1..], i - 1);
    }
  }

  lemma VerbNames(i: nat, j: nat)
    requires j < i < |VERBS|
    ensures Letters(VERBS[i]) && Letters(VERBS[j]) && VERBS[i] != VERBS[j] && |VERBS[i]| < LIMIT
  {
    assert |VERBS[i]| != |VERBS[j]| || VERBS[i][0] != VERBS[j][0];
  }

  lemma VerbWord(i: nat)
    requires i < |Verbs()|
    ensures var w := Verbs()[i];
      && Position(Verbs(), w) == Some(i) && NulFree(w) && |w| < LIMIT
      && forall k :: 0 <= k < |w| ==> !IsSpace(w[k])
  {
    hide Position;
    var w := Verbs()[i];
    assert Letters(VERBS[i]) by {
      if i > 0 {
        VerbNames(i, 0);
      }
    }
    AsciiLetters(VERBS[i]);
    assert w == Ascii(VERBS[i]);
    forall j | 0 <= j < i ensures Verbs()[j] != w {
      VerbNames(i, j);
      if Ascii(VERBS[j]) == w {
        AsciiDistinct(VERBS[i], VERBS[j]);
      }
    }
    PositionOf(Verbs(), i);
  }

  ghost predicate TargetText(s: bytes) {
    forall i :: 0 <= i < |s| ==> !IsSpace(s[i]) && s[i] != NUL
  }

  lemma NotHex(b: byte)
    requires b == QUESTION || b == NUL || b in SPACES
    ensures HexValue(b).None? && b !in [0x25, 0x26, 0x2B, 0x3D]
  {
  }

  lemma InSpaces(b: byte)
    requires IsSpace(b)
    ensures b in SPACES
  {
    assert SPACES == [TAB, LF, CR, SPACE];
    assert SPACES[0] == TAB && SPACES[1] == LF && SPACES[2] == CR && SPACES[3] == SPACE;
  }

  lemma PathText(us: seq<Q.Unit>)
    requires Address(us, None)
    ensures TargetText(Q.Spell(us)) && QUESTION !in Q.Spell(us)
  {
    hide IsSpace, Q.Spell, NulFree;
    var s := Q.Spell(us);
    Q.NulSpelt(us);
    NotHex(QUESTION);
    Q.SpeltAvoids(us, QUESTION);
    forall i | 0 <= i < |s| ensures !IsSpace(s[i]) && s[i] != NUL {
      assert s[i] in s;
      if IsSpace(s[i]) {
        InSpaces(s[i]);
        NotHex(s[i]);
        Q.SpeltAvoids(us, s[i]);
      }
      NulNot(s, i);
    }
  }

  lemma NulNot(s: bytes, i: nat)
    requires NulFree(s) && i < |s|
    ensures s[i] != NUL
  {
  }

  lemma QueryTextOf(ps: seq<Q.Part>)
    requires Q.Complete(ps) && forall b :: b in SPACES ==> Q.PartsAvoid(ps, b)
    ensures TargetText(Q.SpellAll(ps))
  {
    hide IsSpace, Q.SpellAll, NulFree;
    var s := Q.SpellAll(ps);
    Q.ReadsQuery(ps);
    forall i | 0 <= i < |s| ensures !IsSpace(s[i]) && s[i] != NUL {
      assert s[i] in s;
      if IsSpace(s[i]) {
        InSpaces(s[i]);
        NotHex(s[i]);
        Q.SpeltAllAvoids(ps, s[i]);
      }
      NulNot(s, i);
    }
  }

  lemma TextJoins(p: bytes, r: bytes)
    requires TargetText(p) && TargetText(r)
    ensures TargetText(p + [QUESTION] + r)
  {
    assert !IsSpace(QUESTION) && QUESTION != NUL;
    hide IsSpace;
    var t := p + [QUESTION] + r;
    forall i | 0 <= i < |t| ensures !IsSpace(t[i]) && t[i] != NUL {
      assert t[i] == if i < |p| then p[i] else if i == |p| then QUESTION else r[i - |p| - 1];
    }
  }

  lemma CutAt(p: bytes, c: byte, r: bytes)
    requires c !in p
    ensures Q.IndexOf(p + [c] + r, c) == |p| && Q.IndexOf(p, c) == |p|
    ensures (p + [c] + r)[..|p|] == p && (p + [c] + r)[|p| + 1..] == r
  {
    var t := p + [c] + r;
    assert t[|p|] == c;
    assert forall i :: 0 <= i < |p| ==> t[i] == p[i];
  }

  lemma TargetChars(h: Head)
    requires Address(h.path, h.query)
    ensures var t, n := RenderTarget(h), |Q.Spell(h.path)|;
      && n <= |t| && t[..n] == Q.Spell(h.path) && Q.IndexOf(t, QUESTION) == n
      && (n < |t| <==> h.query.Some?) && (h.query.Some? ==> t[n + 1..] == Q.SpellAll(h.query.value))
      && TargetText(t)
  {
    hide TargetText, Q.IndexOf, NulFree, Q.Spell, Q.SpellAll, Q.AllValid, Q.Avoids, Q.PartsAvoid, Q.Complete;
    var p, t := Q.Spell(h.path), RenderTarget(h);
    PathText(h.path);
    if h.query.Some? {
      var r := Q.SpellAll(h.query.value);
      QueryTextOf(h.query.value);
      TextJoins(p, r);
      CutAt(p, QUESTION, r);
      Assoc(p, [QUESTION], r);
    } else {
      CutAt(p, QUESTION, []);
      assert p + [] == p && p[..|p|] == p;
    }
  }

  lemma TargetSpaces(h: Head)
    requires Printable(h)
    ensures forall i :: 0 <= i < |RenderTarget(h)| ==> !IsSpace(RenderTarget(h)[i])
  {
    TargetChars(h);
  }

  lemma UrlMeans(st: State, h: Head, newline: bool)
    requires Printable(h) && st.tok == RenderTarget(h)
    ensures EndUrl(st, newline) == st.(phase := if newline then Key else Version, tok := [],
      req := st.req.(path := Some(PathOf(h)),
                     get := if h.query.Some? then Some(QueryTree(h.query.value)) else None))
  {
    hide OneHeader, NulFree, TargetText, RenderTarget, Q.Spell, Q.Means, Q.Unquote, Q.IndexOf, QueryDict, QueryTree,
      Q.SpellAll, Word, CString, Q.AllValid, Q.Avoids, Q.PartsAvoid, Q.Complete;
    var n := |Q.Spell(h.path)|;
    TargetChars(h);
    TargetNulFree(st.tok);
    CStringOfNulFree(st.tok);
    Q.UnquoteSpelt(h.path);
    if h.query.Some? {
      QueryMeans(h.query.value);
      assert st.tok[n + 1..] == Q.SpellAll(h.query.value);
    }
    assert st.tok[..n] == Q.Spell(h.path);
  }

  lemma TargetNulFree(s: bytes)
    requires TargetText(s)
    ensures NulFree(s)
  {
    hide IsSpace;
  }

  lemma QueryMeans(ps: seq<Q.Part>)
    requires Q.Complete(ps)
    ensures QueryDict(Q.SpellAll(ps)) == Some(QueryTree(ps))
  {
    hide Q.SpellAll, Q.RawPairs, Q.DecodeAll, M.InsertAll, Q.Complete;
    Q.ReadsQuery(ps);
  }

  lemma FeedVerb(sv: Server, verb: nat, more: bytes)
    requires verb < |Verbs()|
    ensures var w := Verbs()[verb];
      Feed(sv, Initial(), w + [SPACE] + more) ==
      Feed(sv, Initial().(phase := Url, used := |w| + 1, req := Initial().req.(verb := verb)), more)
  {
    VerbWord(verb);
    Spaces();
    hide Verbs, Feed, IsSpace, Position, NulFree, CString;
    var w := Verbs()[verb];
    FeedWord(sv, Initial(), w, SPACE, more);
    CStringOfNulFree(w);
  }

  lemma FeedTarget(sv: Server, st: State, h: Head, newline: bool, more: bytes)
    requires Printable(h) && st.phase == Url && st.tok == []
    ensures Feed(sv, st, RenderTarget(h) + [if newline then LF else SPACE] + more) ==
      Feed(sv, st.(phase := if newline then Key else Version, used := st.used + |RenderTarget(h)| + 1,
                   req := st.req.(path := Some(PathOf(h)),
                     get := if h.query.Some? then Some(QueryTree(h.query.value)) else None)), more)
  {
    hide EndUrl, EndString, RenderTarget, Printable, Feed, IsSpace, QueryTree;
    var t := RenderTarget(h);
    TargetSpaces(h);
    Spaces();
    ShortTarget(h);
    var st' := st.(tok := t, used := st.used + |t| + 1);
    FeedWord(sv, st, t, if newline then LF else SPACE, more);
    UrlMeans(st', h, newline);
    EndStringOfUrl(st', newline);
  }

  lemma ShortTarget(h: Head)
    requires Printable(h)
    ensures |RenderTarget(h)| < LIMIT
  {
  }

  lemma EndStringOfUrl(st: State, newline: bool)
    requires st.phase.Url?
    ensures EndString(st, newline) == EndUrl(st, newline)
  {
    hide EndUrl;
  }

  lemma MethodMeans(mid: State, newline: bool)
    requires mid.phase.Method?
    ensures var i := Position(Verbs(), CString(mid.tok));
      EndString(mid, newline) ==
        if i.None? then mid.(phase := Failed(OCS_NOT_IMPLEMENTED))
        else mid.(phase := Url, tok := [], req := mid.req.(verb := i.value))
  {
    hide CString, Position, Verbs;
  }

  lemma VersionMeans(mid: State, newline: bool)
    requires mid.phase.Version?
    ensures EndString(mid, newline) == mid.(phase := if newline then Key else SkipNL(None), tok := [],
      req := mid.req.(http11 := mid.req.http11 || CString(mid.tok) == HTTP11,
                      get := if mid.req.get.None? then Some(Nil) else mid.req.get))
  {
    hide CString;
  }

  lemma FeedVersion(sv: Server, st: State, v: bytes, newline: bool, more: bytes)
    requires st.phase.Version? && st.tok == [] && !st.req.http11 && Word(v)
    ensures Feed(sv, st, v + [if newline then LF else CR] + more) ==
      Feed(sv, st.(phase := if newline then Key else SkipNL(None), used := st.used + |v| + 1,
                   req := st.req.(http11 := v == HTTP11,
                     get := if st.req.get.None? then Some(Nil) else st.req.get)), more)
  {
    hide Feed, IsSpace, CString, NulFree, EndString;
    Spaces();
    CStringOfNulFree(v);
    VersionMeans(st.(tok := v, used := st.used + |v| + 1), newline);
    FeedWord(sv, st, v, if newline then LF else CR, more);
  }

  // The first line up to the carriage return behind the version.
  function FirstLine(h: Head): bytes
    requires h.verb < |Verbs()| && h.version.Some?
  {
    Verbs()[h.verb] + [SPACE] + (RenderTarget(h) + [SPACE] + (h.version.value + [CR]))
  }

  lemma {:induction false} FeedFirstLine(sv: Server, h: Head, more: bytes)
    requires Printable(h) && h.version.Some?
    ensures Feed(sv, Initial(), FirstLine(h) + more) ==
      Feed(sv, State(SkipNL(None), [], [], [], LineMeaning(h), |FirstLine(h)|), more)
  {
    hide Verbs, RenderTarget, Ascii, Feed, OneHeader, QueryTree, Word;
    var w, t, v := Verbs()[h.verb], RenderTarget(h), h.version.value;
    var rest := v + [CR] + more;
    Assoc(w + [SPACE], t + [SPACE] + (v + [CR]), more);
    Assoc(t + [SPACE], v + [CR], more);
    FeedVerb(sv, h.verb, t + [SPACE] + rest);
    var st := Initial().(phase := Url, used := |w| + 1, req := Initial().req.(verb := h.verb));
    FeedTarget(sv, st, h, false, rest);
    FeedVersion(sv, st.(phase := Version, used := st.used + |t| + 1, req := st.req.(path := Some(PathOf(h)),
      get := if h.query.Some? then Some(QueryTree(h.query.value)) else None)), v, false, more);
  }

  // A first line that ends with a new line alone.
  lemma {:induction false} FeedBareLine(sv: Server, h: Head, more: bytes)
    requires Printable(h) && (h.version.Some? ==> !h.crlf)
    ensures Feed(sv, Initial(), RequestLine(h) + more) ==
      Feed(sv, State(Key, [], [], [], LineMeaning(h), |RequestLine(h)|), more)
  {
    hide Verbs, RenderTarget, Ascii, Feed, OneHeader, QueryTree, Word;
    var w, t := Verbs()[h.verb], RenderTarget(h);
    var st := Initial().(phase := Url, used := |w| + 1, req := Initial().req.(verb := h.verb));
    if h.version.None? {
      assert RequestLine(h) + more == w + [SPACE] + (t + [LF] + more);
      FeedVerb(sv, h.verb, t + [LF] + more);
      FeedTarget(sv, st, h, true, more);
    } else {
      var v := h.version.value;
      var rest := v + [LF] + more;
      assert RequestLine(h) + more == w + [SPACE] + (t + [SPACE] + rest) by {
        Assoc(w + [SPACE], t + ([SPACE] + (v + [LF])), more);
        Assoc(t, [SPACE] + (v + [LF]), more);
        Assoc([SPACE], v + [LF], more);
        Assoc(t, [SPACE], rest);
      }
      FeedVerb(sv, h.verb, t + [SPACE] + rest);
      FeedTarget(sv, st, h, false, rest);
      FeedVersion(sv, st.(phase := Version, used := st.used + |t| + 1, req := st.req.(path := Some(PathOf(h)),
        get := if h.query.Some? then Some(QueryTree(h.query.value)) else None)), v, true, more);
    }
  }

  lemma FeedRequestLine(sv: Server, h: Head, more: bytes)
    requires Printable(h)
    ensures Feed(sv, Initial(), RequestLine(h) + more) ==
      Feed(sv, State(Key, [], [], [], LineMeaning(h), |RequestLine(h)|), more)
  {
    hide RenderTarget, Feed, LineMeaning;
    if h.version.Some? && h.crlf {
      var w, t, v := Verbs()[h.verb], RenderTarget(h), h.version.value;
      assert RequestLine(h) == FirstLine(h) + [LF];
      Assoc(FirstLine(h), [LF], more);
      FeedFirstLine(sv, h, [LF] + more);
      FeedLF(sv, State(SkipNL(None), [], [], [], LineMeaning(h), |FirstLine(h)|), more);
    } else {
      FeedBareLine(sv, h, more);
    }
  }

  // ---------- inputs that show what fails ----------

  /** Any request line and any header with a NUL behind it: the parser hangs. */
  lemma NulHangs(sv: Server, h: Head, l: Line, more: bytes)
    requires Printable(h) && OneHeader(l)
    ensures Feed(sv, Initial(), RequestLine(h) + (RenderLine(l) + ([NUL] + more))).phase.Hung?
  {
    hide RequestLine, RenderLine, Feed, LineMeaning, OneHeader;
    var st := State(Key, [], [], [], LineMeaning(h), |RequestLine(h)|);
    FeedRequestLine(sv, h, RenderLine(l) + ([NUL] + more));
    FeedHeaderLine(sv, st, l, [NUL] + more);
    HangsAtNul(sv, LineRead(st, l), more);
  }

  lemma HangsAtNul(sv: Server, st: State, more: bytes)
    requires st.phase.Multiline?
    ensures Feed(sv, st, [NUL] + more).phase.Hung?
  {
    FeedStopped(sv, st.(phase := Hung), more);
  }

  /** Any request line whose version is not followed by a line end: an error, unless the
      input is cut between the two bytes. */
  lemma BadLineEndMet(sv: Server, h: Head, x: byte, y: byte, more: bytes)
    requires Printable(h) && h.version.Some? && x != LF && !(x == CR && y == LF)
    ensures var a, b := FirstLine(h) + [x], [y] + more;
      && Feed(sv, Initial(), a + b).phase == Failed(OCS_INTERNAL_ERROR)
      && FeedChunks(sv, Initial(), [a, b]) != FeedChunks(sv, Initial(), [a + b])
  {
    hide Verbs, RenderTarget, Ascii, Feed, FirstLine, OneHeader, LineMeaning, Step, FeedChunks;
    var a, b := FirstLine(h) + [x], [y] + more;
    var s := a + b;
    var st := State(SkipNL(None), [], [], [], LineMeaning(h), |FirstLine(h)|);
    FeedFirstLine(sv, h, [x]);
    FeedOne(sv, st, x);
    assert Feed(sv, Initial(), a).phase == SkipNL(Some(x)) by {
      SkipsByte(sv, st, x);
    }
    assert s[..|a|] == a && s[|a|..] == b && s[|a|] == y;
    BadLineEndDepends(sv, Initial(), s, |a|);
    OneChunk(sv, Initial(), s);
  }

  lemma SkipsByte(sv: Server, st: State, b: byte)
    requires st.phase == SkipNL(None) && b != LF
    ensures Step(sv, st, b).phase == SkipNL(Some(b))
  {
  }

  lemma OneChunk(sv: Server, st: State, s: bytes)
    ensures FeedChunks(sv, st, [s]) == Forget(Feed(sv, st, s))
  {
    hide Feed;
    assert [s][..0] == [];
  }

  // The first line and the headers, and then something that belongs to neither.
  lemma FeedLines(sv: Server, h: Head, more: bytes)
    requires Printable(h) && more != [] && more[0] != NUL && more[0] != SPACE && more[0] != TAB
    ensures Feed(sv, Initial(), RequestLine(h) + (RenderHeaders(h.headers) + more)) ==
      Feed(sv, State(Key, [], [], [], Meaning(h), |RequestLine(h)| + |RenderHeaders(h.headers)|), more)
  {
    hide RequestLine, RenderHeaders, HeaderEntries, LineMeaning, Feed, OneHeader, Address, Word, M.InsertAll;
    FeedRequestLine(sv, h, RenderHeaders(h.headers) + more);
    FeedHeaders(sv, State(Key, [], [], [], LineMeaning(h), |RequestLine(h)|), h.headers, more);
    NoHeadersYet(h);
  }

  /** A request head written out is read back exactly: method, path, query pairs, version
      and headers, the latter sorted without regard to case, equal names in the order of
      the lines. The parser then decides on the body. */
  lemma HeadRoundTrip(sv: Server, h: Head, more: bytes)
    requires Printable(h)
    ensures Feed(sv, Initial(), RenderHead(h) + more) ==
      Feed(sv, EndHeaders(sv, State(Key, [], [], [], Meaning(h), |RenderHead(h)|)), more)
  {
    hide RequestLine, RenderHeaders, Meaning, Feed, EndHeaders, OneHeader, Address, Word;
    var lines, eol := RenderHeaders(h.headers), Eol(h.crlf);
    Assoc(RequestLine(h), lines + eol, more);
    Assoc(lines, eol, more);
    FeedLines(sv, h, eol + more);
    EndOfHeaders(sv, State(Key, [], [], [], Meaning(h), |RequestLine(h)| + |lines|), h.crlf, more);
  }

  lemma NoHeadersYet(h: Head)
    ensures LineMeaning(h).headers == Nil
  {
  }

  lemma FeedLF(sv: Server, st: State, more: bytes)
    requires st.phase == SkipNL(None)
    ensures Feed(sv, st, [LF] + more) == Feed(sv, st.(phase := Key, used := st.used + 1), more)
  {
    FeedJoins(sv, st, [LF], more);
    FeedOne(sv, st, LF);
  }

  // A run without an error met no bad line end.
  lemma NoErrorNoBadLineEnd(sv: Server, st: State, s: bytes)
    requires !Feed(sv, st, s).phase.Failed?
    ensures !MeetsBadLineEnd(sv, st, s)
  {
    if i :| 0 <= i < |s| && BadLineEnd(Feed(sv, st, s[..i]).phase, s[i]) {
      BadLineEndDepends(sv, st, s, i);
    }
  }
}
