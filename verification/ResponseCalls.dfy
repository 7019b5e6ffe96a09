/** The calls of a handler on its response, and what they amount to. */
module ResponseCalls {
  import opened Wrappers
  import opened AATree
  import M = Multimap
  import opened Bytes
  import opened HeaderText

  const BUFFER_SIZE := 1500

  // What a handler can do with a response.
  datatype Call =
    | WriteCall(data: bytes) | FlushCall | HeaderCall(key: bytes, value: bytes) | LengthCall(len: nat)
    | CodeCall(code: nat) | SendHeadersCall

  function Written(calls: seq<Call>): bytes {
    if calls == [] then []
    else Written(calls[..|calls| - 1]) + if calls[|calls| - 1].WriteCall? then calls[|calls| - 1].data else []
  }

  /** What calls amount to: whether the headers are out, what went out in front of them,
      what has been handed over behind them, and how much of that is counted; the header
      fields, the length and the status the headers have or will have, and whether a length
      was set too late for them. */
  datatype Stream = Stream(out: bool, front: bytes, body: bytes, counted: nat,
                           fields: Fields, length: Option<nat>, code: nat, late: bool)
  {
    // One more call, where block is what the header block is at that time.
    function Next(call: Call, block: bytes): Stream {
      match call
      case WriteCall(data) =>
        this.(out := out || |body| + |data| > BUFFER_SIZE || (data == [] && body != []),
              body := body + data, counted := counted + |data|)
      case FlushCall => this.(out := out || body != [])
      case HeaderCall(key, value) => if out then this else this.(fields := WithField(fields, key, value))
      case LengthCall(len) =>
        if out then this.(late := true) else this.(fields := WithLength(fields, len), length := Some(len))
      case CodeCall(c) => if out then this else this.(code := c)
      case SendHeadersCall =>
        if out then this.(body := body + block, counted := 0)
        else this.(out := true, front := body, body := [], counted := 0)
    }

    // A small response gets its exact length.
    function Sized(): Stream {
      if !out && |body| < BUFFER_SIZE then Next(LengthCall(|body|), []) else this
    }

    // The step that ends a handled request.
    function Handled(): Stream { Sized().Next(FlushCall, []) }

    // The end of the response.
    function Finished(): Stream { if out then this else Sized().Next(SendHeadersCall, []) }

    function Settings(): Settings { HeaderText.Settings(code, length.Some?, false, InOrder(fields)) }

    function Chunked(req: Request): bool { !req.isHead && req.Chunks(length.Some?) }

    // The length the response compares with what it counted.
    function Length(): nat { if length.Some? then length.value else 0 }
  }

  function Start(req: Request): Stream {
    Stream(false, [], [], 0, Default(req), None, 200, false)
  }

  function Run(req: Request, calls: seq<Call>, blocks: seq<bytes>): Stream
    requires |blocks| == |calls|
  {
    if calls == [] then Start(req)
    else Run(req, calls[..|calls| - 1], blocks[..|calls| - 1]).Next(calls[|calls| - 1], blocks[|calls| - 1])
  }

  lemma RunNone(req: Request)
    ensures Run(req, [], []) == Start(req)
  {
  }

  lemma RunNext(req: Request, calls: seq<Call>, i: nat, blocks: seq<bytes>, block: bytes)
    requires i < |calls| && |blocks| == i
    ensures Run(req, calls[..i + 1], blocks + [block]) == Run(req, calls[..i], blocks).Next(calls[i], block)
  {
    assert calls[..i + 1][..i] == calls[..i] && (blocks + [block])[..i] == blocks;
  }

  /** A whole response: the calls, the end of the handler, the end of the response. */
  function Whole(req: Request, calls: seq<Call>, blocks: seq<bytes>): Stream
    requires |blocks| == |calls|
  {
    Run(req, calls, blocks).Handled().Finished()
  }

  // The bytes that wait for the headers, or nothing if these are out.
  function Waiting(calls: seq<Call>): Option<bytes> {
    if calls == [] then Some([])
    else
      var before, call := Waiting(calls[..|calls| - 1]), calls[|calls| - 1];
      if before.None? then None
      else match call
        case WriteCall(data) =>
          if |before.value + data| > BUFFER_SIZE || (data == [] && before.value != []) then None
          else Some(before.value + data)
        case FlushCall => if before.value == [] then before else None
        case SendHeadersCall => None
        case _ => before
  }

  // The headers are written while bytes wait for them.
  predicate TooLate(calls: seq<Call>, i: nat)
    requires i < |calls|
  {
    calls[i].SendHeadersCall? && Waiting(calls[..i]).Some? && Waiting(calls[..i]).value != []
  }

  // The headers are written once more.
  predicate Again(calls: seq<Call>, i: nat)
    requires i < |calls|
  {
    calls[i].SendHeadersCall? && Waiting(calls[..i]).None?
  }

  // A write that never returns.
  predicate Endless(calls: seq<Call>, i: nat)
    requires i < |calls|
  {
    calls[i].WriteCall? && Waiting(calls[..i]).Some? && |Waiting(calls[..i]).value + calls[i].data| > 2 * BUFFER_SIZE
  }

  lemma {:induction false} RunPhase(req: Request, calls: seq<Call>, blocks: seq<bytes>)
    requires |blocks| == |calls|
    ensures var s := Run(req, calls, blocks);
      && (s.out <==> Waiting(calls).None?)
      && (!s.out ==>
            && s.front == [] && s.body == Waiting(calls).value == Written(calls) && s.counted == |s.body| && !s.late)
  {
    if calls != [] {
      RunPhase(req, calls[..|calls| - 1], blocks[..|calls| - 1]);
    }
  }

  /** Without a second header write, what goes out is what was written, with what waited
      for an explicit header write in front. */
  lemma {:induction false} RunOnce(req: Request, calls: seq<Call>, blocks: seq<bytes>)
    requires |blocks| == |calls| && forall i :: 0 <= i < |calls| ==> !Again(calls, i)
    ensures var s := Run(req, calls, blocks); s.front + s.body == Written(calls) && s.counted == |s.body|
  {
    hide Default, Waiting, Stream.Next, Again;
    if calls != [] {
      var n := |calls| - 1;
      forall i | 0 <= i < n ensures !Again(calls[..n], i) {
        assert !Again(calls, i);
        AgainFront(calls, i);
      }
      RunOnce(req, calls[..n], blocks[..n]);
      RunPhase(req, calls[..n], blocks[..n]);
      assert !Again(calls, n);
      NotAgain(calls);
      NextJoins(Run(req, calls[..n], blocks[..n]), calls[n], blocks[n]);
    }
  }

  lemma AgainFront(calls: seq<Call>, i: nat)
    requires i < |calls| - 1
    ensures Again(calls[..|calls| - 1], i) <==> Again(calls, i)
  {
    assert calls[..|calls| - 1][..i] == calls[..i];
  }

  lemma NotAgain(calls: seq<Call>)
    requires calls != []
    ensures !Again(calls, |calls| - 1) ==>
      calls[|calls| - 1].SendHeadersCall? ==> Waiting(calls[..|calls| - 1]).Some?
  {
  }

  // What one call adds to the front and the body together.
  lemma NextJoins(s: Stream, call: Call, block: bytes)
    requires s.counted == |s.body| && (!s.out ==> s.front == []) && (call.SendHeadersCall? ==> !s.out)
    ensures var s' := s.Next(call, block);
      && s'.front + s'.body == s.front + s.body + (if call.WriteCall? then call.data else [])
      && s'.counted == |s'.body|
  {
    hide WithField, WithLength;
    if call.WriteCall? {
      Assoc(s.front, s.body, call.data);
    } else {
      assert s.front + s.body + [] == s.front + s.body;
    }
    if call.SendHeadersCall? {
      assert s.body + [] == s.body == [] + s.body;
    }
  }

  // The bytes in front of the headers are those that waited for an explicit header write.
  lemma {:induction false} RunFront(req: Request, calls: seq<Call>, blocks: seq<bytes>)
    requires |blocks| == |calls|
    ensures Run(req, calls, blocks).front <= Written(calls)
    ensures Run(req, calls, blocks).front != [] <==> exists i :: 0 <= i < |calls| && TooLate(calls, i)
  {
    if calls != [] {
      var n := |calls| - 1;
      RunFront(req, calls[..n], blocks[..n]);
      RunPhase(req, calls[..n], blocks[..n]);
      forall i | 0 <= i < n ensures TooLate(calls[..n], i) <==> TooLate(calls, i) {
        assert calls[..n][..i] == calls[..i];
      }
      assert TooLate(calls, n) ==> Run(req, calls, blocks).front != [];
    }
  }

  // A second header write adds to the body, if the blocks are not empty.
  lemma {:induction false} RunLength(req: Request, calls: seq<Call>, blocks: seq<bytes>)
    requires |blocks| == |calls| && forall i :: 0 <= i < |calls| ==> blocks[i] != []
    ensures |Run(req, calls, blocks).front + Run(req, calls, blocks).body| >= |Written(calls)|
    ensures |Run(req, calls, blocks).front + Run(req, calls, blocks).body| == |Written(calls)| ==>
      forall i :: 0 <= i < |calls| ==> !Again(calls, i)
  {
    if calls != [] {
      var n := |calls| - 1;
      RunLength(req, calls[..n], blocks[..n]);
      RunPhase(req, calls[..n], blocks[..n]);
      forall i | 0 <= i < n ensures Again(calls[..n], i) <==> Again(calls, i) {
        assert calls[..n][..i] == calls[..i];
      }
    }
  }

  // ---------- what the headers say ----------

  // The header fields, as a map, while the headers are not out; then they stay.
  function FieldMap(req: Request, calls: seq<Call>): map<bytes, bytes> {
    if calls == [] then DefaultMap(req)
    else
      var front, call := calls[..|calls| - 1], calls[|calls| - 1];
      var m := FieldMap(req, front);
      if Waiting(front).None? then m
      else match call
        case HeaderCall(key, value) => m[key := value]
        case LengthCall(len) => m[CONTENT_LENGTH := Decimal(len)]
        case _ => m
  }

  // The length set last before the headers went out.
  function Announced(calls: seq<Call>): Option<nat> {
    if calls == [] then None
    else
      var front, call := calls[..|calls| - 1], calls[|calls| - 1];
      if Waiting(front).Some? && call.LengthCall? then Some(call.len) else Announced(front)
  }

  // A length is set when the headers are out.
  predicate LateLength(calls: seq<Call>, i: nat)
    requires i < |calls|
  {
    calls[i].LengthCall? && Waiting(calls[..i]).None?
  }

  // A call that sends the headers: the explicit write, a flush of something, and a write that
  // fills the buffer or hands over nothing behind something.
  predicate SendsHeaders(calls: seq<Call>, i: nat)
    requires i < |calls|
  {
    var before := Written(calls[..i]);
    match calls[i]
    case SendHeadersCall => true
    case FlushCall => before != []
    case WriteCall(data) => |before| + |data| > BUFFER_SIZE || (data == [] && before != [])
    case _ => false
  }

  // The headers are out before that call.
  ghost predicate OutBefore(calls: seq<Call>, n: nat)
    requires n <= |calls|
  {
    exists i :: 0 <= i < n && SendsHeaders(calls, i)
  }

  lemma OutBeforeFront(calls: seq<Call>, n: nat, m: nat)
    requires n <= m <= |calls|
    ensures OutBefore(calls[..m], n) <==> OutBefore(calls, n)
  {
    forall i | 0 <= i < n ensures SendsHeaders(calls[..m], i) <==> SendsHeaders(calls, i) {
      assert calls[..m][..i] == calls[..i];
    }
  }

  /** The headers wait, with everything that was written, until some call sends them. */
  lemma {:induction false} WaitingIs(calls: seq<Call>)
    ensures Waiting(calls) == if OutBefore(calls, |calls|) then None else Some(Written(calls))
  {
    hide OutBefore;
    if calls == [] {
      NoneOut();
    } else {
      var n := |calls| - 1;
      WaitingIs(calls[..n]);
      OutBeforeFront(calls, n, n);
      OutNext(calls);
      assert Written(calls[..n]) + [] == Written(calls[..n]);
    }
  }

  lemma NoneOut()
    ensures !OutBefore([], 0)
  {
  }

  lemma OutNext(calls: seq<Call>)
    requires calls != []
    ensures OutBefore(calls, |calls|) <==> OutBefore(calls, |calls| - 1) || SendsHeaders(calls, |calls| - 1)
  {
  }

  // The call gives a header field its value.
  predicate SetsField(call: Call, key: bytes, value: bytes) {
    || call == HeaderCall(key, value)
    || (call.LengthCall? && key == CONTENT_LENGTH && value == Decimal(call.len))
  }

  predicate NamesField(call: Call, key: bytes) {
    (call.HeaderCall? && call.key == key) || (call.LengthCall? && key == CONTENT_LENGTH)
  }

  // No later call in time sets the field.
  ghost predicate LastField(calls: seq<Call>, k: nat, key: bytes, value: bytes)
    requires k < |calls|
  {
    && SetsField(calls[k], key, value) && !OutBefore(calls, k)
    && forall j :: k < j < |calls| && NamesField(calls[j], key) ==> OutBefore(calls, j)
  }

  /** A header field has the value it was given last before the headers went out, and
      otherwise the one it began with. */
  lemma {:induction false} FieldIs(req: Request, calls: seq<Call>, key: bytes)
    ensures forall k, value :: 0 <= k < |calls| && LastField(calls, k, key, value) ==>
      key in FieldMap(req, calls) && FieldMap(req, calls)[key] == value
    ensures (forall j :: 0 <= j < |calls| && NamesField(calls[j], key) ==> OutBefore(calls, j)) ==>
      (key in FieldMap(req, calls) <==> key in DefaultMap(req))
      && (key in DefaultMap(req) ==> FieldMap(req, calls)[key] == DefaultMap(req)[key])
  {
    hide OutBefore, Waiting, DefaultMap, Decimal;
    if calls != [] {
      var n := |calls| - 1;
      var front := calls[..n];
      FieldIs(req, front, key);
      WaitingIs(front);
      FieldMapNext(req, calls);
      forall k | 0 <= k <= n ensures OutBefore(front, k) <==> OutBefore(calls, k) {
        OutBeforeFront(calls, k, n);
      }
      forall k, value | 0 <= k < |calls| && LastField(calls, k, key, value)
        ensures key in FieldMap(req, calls) && FieldMap(req, calls)[key] == value
      {
        if k < n {
          LastInFront(calls, k, key, value);
        } else {
          assert calls[n] == HeaderCall(key, value) || (calls[n].LengthCall? && key == CONTENT_LENGTH);
        }
      }
    }
  }

  lemma LastInFront(calls: seq<Call>, k: nat, key: bytes, value: bytes)
    requires k < |calls| - 1 && LastField(calls, k, key, value)
    ensures LastField(calls[..|calls| - 1], k, key, value)
    ensures NamesField(calls[|calls| - 1], key) ==> OutBefore(calls, |calls| - 1)
  {
    hide OutBefore, SetsField, NamesField;
    var n := |calls| - 1;
    var front := calls[..n];
    forall j | 0 <= j <= n ensures OutBefore(front, j) <==> OutBefore(calls, j) {
      OutBeforeFront(calls, j, n);
    }
  }

  // The status set last before the headers went out.
  function FinalCode(calls: seq<Call>): nat {
    if calls == [] then 200
    else
      var front, call := calls[..|calls| - 1], calls[|calls| - 1];
      if Waiting(front).Some? && call.CodeCall? then call.code else FinalCode(front)
  }

  // No later call in time sets the status.
  ghost predicate LastCode(calls: seq<Call>, k: nat)
    requires k < |calls|
  {
    && calls[k].CodeCall? && !OutBefore(calls, k)
    && forall j :: k < j < |calls| && calls[j].CodeCall? ==> OutBefore(calls, j)
  }

  /** The status is the one set last before the headers went out, and otherwise 200. */
  lemma {:induction false} CodeIs(calls: seq<Call>)
    ensures forall k :: 0 <= k < |calls| && LastCode(calls, k) ==> FinalCode(calls) == calls[k].code
    ensures (forall j :: 0 <= j < |calls| && calls[j].CodeCall? ==> OutBefore(calls, j)) ==> FinalCode(calls) == 200
  {
    hide OutBefore, Waiting;
    if calls != [] {
      var n := |calls| - 1;
      var front := calls[..n];
      CodeIs(front);
      WaitingIs(front);
      forall k | 0 <= k <= n ensures OutBefore(front, k) <==> OutBefore(calls, k) {
        OutBeforeFront(calls, k, n);
      }
    }
  }

  // Whether the end of the handler finds a small response that waits for its headers.
  predicate Small(calls: seq<Call>) {
    Waiting(calls).Some? && |Waiting(calls).value| < BUFFER_SIZE
  }

  // The length in the end: small responses get theirs.
  function FinalLength(calls: seq<Call>): Option<nat> {
    if Small(calls) then Some(|Waiting(calls).value|) else Announced(calls)
  }

  function FinalFields(req: Request, calls: seq<Call>): map<bytes, bytes> {
    if Small(calls) then FieldMap(req, calls)[CONTENT_LENGTH := Decimal(|Waiting(calls).value|)]
    else FieldMap(req, calls)
  }

  lemma WithFieldShows(t: Fields, m: map<bytes, bytes>, key: bytes, value: bytes)
    requires Shows(t, m)
    ensures Shows(WithField(t, key, value), m[key := value])
  {
    hide Shows;
    InsertShows(t, m, Entry(key, value, OD_DUP_ALL_REPLACE));
  }

  lemma {:induction false} RunFields(req: Request, calls: seq<Call>, blocks: seq<bytes>)
    requires |blocks| == |calls|
    ensures Shows(Run(req, calls, blocks).fields, FieldMap(req, calls))
    ensures Run(req, calls, blocks).length == Announced(calls) && Run(req, calls, blocks).code == FinalCode(calls)
    ensures Run(req, calls, blocks).late <==> exists i :: 0 <= i < |calls| && LateLength(calls, i)
  {
    hide Shows, WithField, Default, DefaultMap;
    if calls == [] {
      DefaultShows(req);
    } else {
      var n := |calls| - 1;
      var s, call := Run(req, calls[..n], blocks[..n]), calls[n];
      RunFields(req, calls[..n], blocks[..n]);
      RunPhase(req, calls[..n], blocks[..n]);
      forall i | 0 <= i < n ensures LateLength(calls[..n], i) <==> LateLength(calls, i) {
        assert calls[..n][..i] == calls[..i];
      }
      if call.HeaderCall? {
        WithFieldShows(s.fields, FieldMap(req, calls[..n]), call.key, call.value);
      }
      if call.LengthCall? {
        WithFieldShows(s.fields, FieldMap(req, calls[..n]), CONTENT_LENGTH, Decimal(call.len));
      }
      assert LateLength(calls, n) <==> call.LengthCall? && s.out;
    }
  }

  /** What a whole response comes to, from its calls. */
  lemma WholeIs(req: Request, calls: seq<Call>, blocks: seq<bytes>)
    requires |blocks| == |calls|
    ensures var w, s := Whole(req, calls, blocks), Run(req, calls, blocks);
      && w.out && w.front == s.front && w.body == s.body && w.counted == s.counted
      && w.code == FinalCode(calls) && w.length == FinalLength(calls) && Shows(w.fields, FinalFields(req, calls))
      && (w.late <==> exists i :: 0 <= i < |calls| && LateLength(calls, i))
  {
    hide Shows, WithField, FieldMap, Announced, FinalCode, Run, Waiting, LateLength;
    RunPhase(req, calls, blocks);
    RunFields(req, calls, blocks);
    var s := Run(req, calls, blocks);
    if Small(calls) {
      var m, text := FieldMap(req, calls), Decimal(|s.body|);
      WithFieldShows(s.fields, m, CONTENT_LENGTH, text);
      WithFieldShows(WithField(s.fields, CONTENT_LENGTH, text), m[CONTENT_LENGTH := text], CONTENT_LENGTH, text);
      assert m[CONTENT_LENGTH := text][CONTENT_LENGTH := text] == m[CONTENT_LENGTH := text];
    }
  }

  // A header field is named, or a length set, before the headers are out.
  predicate NamesLength(calls: seq<Call>, i: nat)
    requires i < |calls|
  {
    calls[i].HeaderCall? && calls[i].key == CONTENT_LENGTH && Waiting(calls[..i]).Some?
  }

  predicate SetsLength(calls: seq<Call>, i: nat)
    requires i < |calls|
  {
    calls[i].LengthCall? && Waiting(calls[..i]).Some?
  }

  // A length set behind every header field that names one.
  ghost predicate LengthLast(calls: seq<Call>) {
    forall i :: 0 <= i < |calls| && NamesLength(calls, i) ==> exists j :: i < j < |calls| && SetsLength(calls, j)
  }

  lemma FieldMapNext(req: Request, calls: seq<Call>)
    requires calls != []
    ensures var n := |calls| - 1;
      var m, call := FieldMap(req, calls[..n]), calls[n];
      FieldMap(req, calls) ==
        if Waiting(calls[..n]).None? then m
        else if call.HeaderCall? then m[call.key := call.value]
        else if call.LengthCall? then m[CONTENT_LENGTH := Decimal(call.len)] else m
  {
  }

  /** Then the field is that of the length. */
  lemma {:induction false} LengthNamed(req: Request, calls: seq<Call>)
    requires LengthLast(calls) && Announced(calls).Some?
    ensures CONTENT_LENGTH in FieldMap(req, calls)
    ensures FieldMap(req, calls)[CONTENT_LENGTH] == Decimal(Announced(calls).value)
  {
    var n := |calls| - 1;
    FieldMapNext(req, calls);
    hide Waiting, FieldMap, DefaultMap;
    if !SetsLength(calls, n) {
      var front := calls[..n];
      forall i | 0 <= i < n && NamesLength(front, i) ensures exists j :: i < j < n && SetsLength(front, j) {
        assert front[..i] == calls[..i];
        assert NamesLength(calls, i);
        var j :| i < j < |calls| && SetsLength(calls, j);
        assert j < n && front[..j] == calls[..j];
        assert SetsLength(front, j);
      }
      LengthNamed(req, front);
      assert !NamesLength(calls, n);
    }
  }

  // The fields of a response, and what else its header block says, are in order.
  ghost predicate TidyFields(req: Request, m: map<bytes, bytes>) {
    && (forall code: int :: OneLine(req.reason(code))) && (req.session.Some? ==> OneLine(req.session.value))
    && forall key :: key in m ==> OneLine(key) && COLON !in key && OneLine(m[key])
  }

  lemma TidyShown(req: Request, m: map<bytes, bytes>, s: Stream)
    requires TidyFields(req, m) && Shows(s.fields, m)
    ensures Tidy(req, s.Settings())
  {
    hide Good, OneLine;
    var es := InOrder(s.fields);
    forall i | 0 <= i < |es| ensures OneLine(es[i].key) && COLON !in es[i].key && OneLine(es[i].value) {
      assert Has(es, es[i].key, es[i].value);
    }
  }

  // The length announced is that of the body.
  predicate DeclaresBody(req: Request, calls: seq<Call>) {
    var m := FinalFields(req, calls);
    CONTENT_LENGTH in m && m[CONTENT_LENGTH] == Decimal(|Written(calls)|)
  }

  lemma FinalNamed(req: Request, calls: seq<Call>)
    requires LengthLast(calls) && FinalLength(calls).Some?
    ensures var m := FinalFields(req, calls);
      CONTENT_LENGTH in m && m[CONTENT_LENGTH] == Decimal(FinalLength(calls).value)
  {
    if !Small(calls) {
      LengthNamed(req, calls);
    }
  }
}
