/** Dictionaries printed as JSON and read back. */
module JsonDict {
  import opened Wrappers
  import opened AATree
  import M = Multimap
  import opened Bytes
  import opened JsonText
  import B = Block
  import D = Dict

  /** A dictionary value: a string, or the content of a nested dictionary. */
  datatype Json = Text(s: bytes) | Sub(t: Tree<bytes, Json>)
  type JTree = Tree<bytes, Json>
  type JEntry = Entry<bytes, Json>

  const OPEN: byte := 0x7B
  const CLOSE: byte := 0x7D
  const COMMA: byte := 0x2C
  const SEPARATOR: bytes := [COMMA, SPACE]

  function PrintedKey(key: bytes): bytes {
    [QUOTE] + Quote(key) + [QUOTE, COLON]
  }

  function PrintedJson(v: Json): bytes
    decreases v, 3
  {
    match v case Text(s) => [QUOTE] + Quote(s) + [QUOTE] case Sub(t) => Print(t)
  }

  // The text one entry adds, and the separator behind it.
  function PrintEntry(e: JEntry): (r: bytes)
    ensures |r| >= 2 && r[|r| - 2..] == SEPARATOR
    decreases e, 0
  {
    PrintedKey(e.key) + PrintedJson(e.value) + SEPARATOR
  }

  function PrintNodes(t: JTree): (r: bytes)
    ensures t.Node? ==> |r| >= 2 && r[|r| - 2..] == SEPARATOR
    decreases t, 1
  {
    if t.Nil? then [] else PrintNodes(t.left) + PrintEntry(t.entry) + PrintNodes(t.right)
  }

  // The text of a dictionary; the last separator is dropped.
  function Print(t: JTree): bytes
    decreases t, 2
  {
    if t.Nil? then [OPEN, CLOSE] else [OPEN] + PrintNodes(t)[..|PrintNodes(t)| - 2] + [CLOSE]
  }

  method PrintPair(block: B.Block, e: JEntry)
    requires block.Valid()
    modifies block, block.data
    ensures block.Valid() && (block.data == old(block.data) || fresh(block.data))
    ensures block.Contents() == old(block.Contents()) + PrintEntry(e)
    decreases e, 0
  {
    ghost var was := block.Contents();
    PrintKey(block, e.key);
    PrintJson(block, e.value);
    block.AddString(SEPARATOR);
    hide Quote, Print;
    var k, v := PrintedKey(e.key), PrintedJson(e.value);
    assert was + k + v + SEPARATOR == was + (k + v + SEPARATOR);
  }

  method PrintKey(block: B.Block, key: bytes)
    requires block.Valid()
    modifies block, block.data
    ensures block.Valid() && (block.data == old(block.data) || fresh(block.data))
    ensures block.Contents() == old(block.Contents()) + PrintedKey(key)
  {
    hide Quote;
    ghost var was := block.Contents();
    block.AddChar(QUOTE);
    QuoteAdd(block, Some(key));
    block.AddString([QUOTE, COLON]);
    assert was + [QUOTE] + Quote(key) + [QUOTE, COLON] == was + ([QUOTE] + Quote(key) + [QUOTE, COLON]);
  }

  method PrintJson(block: B.Block, v: Json)
    requires block.Valid()
    modifies block, block.data
    ensures block.Valid() && (block.data == old(block.data) || fresh(block.data))
    ensures block.Contents() == old(block.Contents()) + PrintedJson(v)
    decreases v, 3
  {
    hide Quote, Print;
    ghost var was := block.Contents();
    match v {
      case Sub(t) =>
        var tmp := ToJson(t);
        block.AddBlock(tmp);
      case Text(s) =>
        block.AddChar(QUOTE);
        QuoteAdd(block, Some(s));
        block.AddChar(QUOTE);
        assert was + [QUOTE] + Quote(s) + [QUOTE] == was + ([QUOTE] + Quote(s) + [QUOTE]);
    }
  }

  method PrintAll(block: B.Block, t: JTree)
    requires block.Valid()
    modifies block, block.data
    ensures block.Valid() && (block.data == old(block.data) || fresh(block.data))
    ensures block.Contents() == old(block.Contents()) + PrintNodes(t)
    decreases t, 1
  {
    hide PrintNodes, PrintEntry;
    ghost var was := block.Contents();
    PrintNodesParts(was, t);
    if t.Node? {
      PrintAll(block, t.left);
      PrintPair(block, t.entry);
      PrintAll(block, t.right);
    }
  }

  lemma PrintNodesParts(was: bytes, t: JTree)
    ensures was + PrintNodes(t) ==
      if t.Nil? then was else was + PrintNodes(t.left) + PrintEntry(t.entry) + PrintNodes(t.right)
  {
    if t.Nil? {
      assert was + [] == was;
    } else {
      var l, e, r := PrintNodes(t.left), PrintEntry(t.entry), PrintNodes(t.right);
      Assoc(was, l, e);
      Assoc(was, l + e, r);
    }
  }

  // The closing step: take back the last separator, if there is one.
  method Finish(block: B.Block, ghost t: JTree)
    requires block.Valid() && block.Contents() == [OPEN] + PrintNodes(t)
    modifies block, block.data
    ensures block.Valid() && (block.data == old(block.data) || fresh(block.data))
    ensures block.Contents() == Print(t)
  {
    if block.size != 1 {
      block.Rewind(2);
    }
    block.AddChar(CLOSE);
  }

  method ToJson(t: JTree) returns (block: B.Block)
    ensures fresh(block) && fresh(block.data) && block.Valid() && block.Contents() == Print(t)
    decreases t, 2
  {
    block := new B.Block();
    block.AddChar(OPEN);
    PrintAll(block, t);
    Finish(block, t);
  }

  // ---------- reading ----------

  function SkipSpace(s: bytes, i: nat): (r: nat)
    requires i <= |s|
    ensures i <= r <= |s|
    decreases |s| - i
  {
    if i < |s| && IsSpace(s[i]) then SkipSpace(s, i + 1) else i
  }

  function SkipDigits(s: bytes, i: nat): (r: nat)
    requires i <= |s|
    ensures i <= r <= |s|
    decreases |s| - i
  {
    if i < |s| && IsDigit(s[i]) then SkipDigits(s, i + 1) else i
  }

  const OD_SUBDICT: bv16 := 0x116 // OD_DUP_KEY | OD_DICT | OD_FREE_VALUE

  /** What reading gives: a dictionary and the position behind it, nothing, or a read
      past the end of the text, which only an unterminated string causes. */
  datatype Outcome = Parsed(t: JTree, next: nat) | Null | Runaway

  ghost predicate Advances(o: Outcome, i: nat, n: nat) {
    o.Parsed? ==> i < o.next <= n
  }

  function ParseDict(s: bytes, i: nat): (o: Outcome)
    requires NulFree(s) && i <= |s|
    ensures Advances(o, i, |s|)
    decreases |s| - i, 0
  {
    var open := SkipSpace(s, i);
    if At(s, open) != OPEN then Null else ParseMembers(s, SkipSpace(s, open + 1), Nil)
  }

  // The loop: each turn reads one member and what separates it from the next.
  function ParseMembers(s: bytes, i: nat, acc: JTree): (o: Outcome)
    requires NulFree(s) && i <= |s|
    ensures Advances(o, i, |s|)
    decreases |s| - i, 2
  {
    if At(s, i) == CLOSE then Parsed(acc, i + 1)
    else
      var m := ParseMember(s, i, acc);
      if !m.Parsed? then m
      else
        var sep := SkipSpace(s, m.next);
        if At(s, sep) == CLOSE then Parsed(m.t, sep + 1)
        else if At(s, sep) != COMMA then Null
        else ParseMembers(s, SkipSpace(s, sep + 1), m.t)
  }

  // A key and the colon behind it.
  datatype KeyOutcome = Key(key: bytes, next: nat) | NoKey | KeyRunaway

  function ParseKey(s: bytes, i: nat): (o: KeyOutcome)
    requires NulFree(s) && i <= |s|
    ensures o.Key? ==> i < o.next <= |s|
  {
    match Unquote(s, i)
    case Bad => NoKey
    case Overrun => KeyRunaway
    case Done(key, next) =>
      if next > |s| then KeyRunaway
      else
        var colon := SkipSpace(s, next);
        if At(s, colon) != COLON then NoKey else Key(CString(key), SkipSpace(s, colon + 1))
  }

  function ParseMember(s: bytes, i: nat, acc: JTree): (o: Outcome)
    requires NulFree(s) && i <= |s|
    ensures Advances(o, i, |s|)
    decreases |s| - i, 1
  {
    match ParseKey(s, i)
    case NoKey => Null
    case KeyRunaway => Runaway
    case Key(key, next) => ParseValue(s, next, key, acc)
  }

  function ParseValue(s: bytes, i: nat, key: bytes, acc: JTree): (o: Outcome)
    requires NulFree(s) && i <= |s|
    ensures Advances(o, i, |s|)
    decreases |s| - i, 1
  {
    if At(s, i) == OPEN then
      var sub := ParseDict(s, i);
      if !sub.Parsed? then sub
      else Parsed(M.Insert(StrCmp, acc, Entry(key, Sub(sub.t), OD_SUBDICT)), sub.next)
    else if IsDigit(At(s, i)) then
      var end := SkipDigits(s, i + 1);
      Parsed(M.Insert(StrCmp, acc, Entry(key, Text(s[i..end]), OD_DUP_ALL)), end)
    else if At(s, i) == QUOTE then
      match Unquote(s, i)
      case Bad => Null
      case Overrun => Runaway
      case Done(value, next) => Parsed(M.Insert(StrCmp, acc, Entry(key, Text(CString(value)), OD_DUP_ALL)), next)
    else Null
  }

  /** Only space may follow the dictionary. */
  function FromJson(s: bytes): Outcome
    requires NulFree(s)
  {
    var o := ParseDict(s, 0);
    if o.Parsed? && SkipSpace(s, o.next) != |s| then Null else o
  }

  // ---------- the reading methods ----------

  method SkipSpaces(s: bytes, i: nat) returns (r: nat)
    requires i <= |s|
    ensures r == SkipSpace(s, i)
  {
    r := i;
    while r < |s| && IsSpace(s[r])
      invariant i <= r <= |s| && SkipSpace(s, r) == SkipSpace(s, i)
    {
      r := r + 1;
    }
  }

  // `strdup`: a copy up to the first NUL.
  method StrDup(a: array<byte>) returns (r: bytes)
    requires exists i :: 0 <= i < a.Length && a[i] == NUL
    ensures r == CString(a[..])
  {
    var i := 0;
    while a[i] != NUL
      invariant 0 <= i < a.Length && forall k :: 0 <= k < i ==> a[k] != NUL
      invariant exists k :: i <= k < a.Length && a[k] == NUL
      decreases a.Length - i
    {
      i := i + 1;
    }
    r := a[..i];
    CStringStops(r, a[i + 1..]);
    CStringOfNulFree(r);
    assert a[..] == r + [NUL] + a[i + 1..];
  }

  method BlockString(block: B.Block) returns (r: bytes)
    requires block.Valid()
    modifies block, block.data
    ensures block.Valid() && (block.data == old(block.data) || fresh(block.data))
    ensures r == CString(old(block.Contents()))
  {
    var d := block.Data();
    r := StrDup(d);
  }

  // How a turn of the reading loop ends: the next position, `goto error`, or a
  // string that never ends.
  datatype Turn = Next(at: nat) | Failed | Lost

  // What a method did to the dictionary it fills and the position it is at.
  ghost predicate Agrees(r: Turn, o: Outcome, t: JTree) {
    match o
    case Parsed(t', next) => r == Next(next) && t == t'
    case Null => r == Failed
    case Runaway => r == Lost
  }

  lemma PartNulFree(s: bytes, i: nat, j: nat)
    requires NulFree(s) && i <= j <= |s|
    ensures NulFree(s[i..j])
  {
    var part := s[i..j];
    forall k | 0 <= k < |part| ensures part[k] != NUL {
      assert part[k] == s[i + k];
    }
  }

  // The digits of a number, taken verbatim as a string.
  method ReadDigits(s: bytes, at: nat, value: B.Block) returns (data: nat, v: bytes)
    requires NulFree(s) && at < |s| && IsDigit(s[at]) && value.Valid() && value.Contents() == []
    modifies value, value.data
    ensures value.Valid() && (value.data == old(value.data) || fresh(value.data))
    ensures data == SkipDigits(s, at + 1) && v == s[at..data]
  {
    hide NulFree;
    data := at;
    while data < |s| && IsDigit(s[data])
      invariant at <= data <= |s| && SkipDigits(s, data) == SkipDigits(s, at)
      invariant value.Valid() && value.Contents() == s[at..data]
      invariant value.data == old(value.data) || fresh(value.data)
    {
      value.AddChar(s[data]);
      data := data + 1;
    }
    v := BlockString(value);
    PartNulFree(s, at, data);
    CStringOfNulFree(s[at..data]);
  }

  method ReadText(s: bytes, at: nat, value: B.Block) returns (r: Turn, v: bytes)
    requires NulFree(s) && at < |s| && value.Valid() && value.Contents() == []
    modifies value, value.data
    ensures value.Valid() && (value.data == old(value.data) || fresh(value.data))
    ensures match Unquote(s, at)
      case Done(out, next) => r == Next(next) && v == CString(out)
      case Bad => r == Failed
      case Overrun => r == Lost
  {
    hide Unquote, CString;
    var read := UnquoteAdd(value, s, at);
    ghost var out := if Unquote(s, at).Done? then Unquote(s, at).out else [];
    assert [] + out == out;
    match read {
      case PastEnd => return Lost, [];
      case Error => return Failed, [];
      case Count(n) =>
        v := BlockString(value);
        r := Next(at + n);
    }
  }

  method ReadValue(s: bytes, at: nat, key: bytes, value: B.Block, ret: D.Dict<Json>) returns (r: Turn)
    requires NulFree(s) && at <= |s| && value.Valid() && value.Contents() == []
    requires ret.Valid() && ret.cmp == StrCmp
    modifies value, value.data, ret, ret.Nodes()
    ensures value.Valid() && (value.data == old(value.data) || fresh(value.data))
    ensures ret.Valid() && ret.cmp == StrCmp && fresh(ret.Nodes() - old(ret.Nodes()))
    ensures Agrees(r, ParseValue(s, at, key, old(ret.Value())), ret.Value())
    ensures r.Next? ==> value.Contents() == []
    decreases |s| - at, 1
  {
    hide D.Dict.Valid, D.TreeOf, D.Ok, M.Insert, Unquote, SkipDigits, ParseDict, CString;
    if At(s, at) == OPEN {
      var sub, content := FromJsonAt(s, at);
      if sub.Next? {
        ret.Add(Some(key), Sub(content), OD_SUBDICT);
      }
      r := sub;
    } else if IsDigit(At(s, at)) {
      var end, v := ReadDigits(s, at, value);
      ret.Add(Some(key), Text(v), OD_DUP_ALL);
      value.Clear();
      r := Next(end);
    } else if At(s, at) == QUOTE {
      var text, v := ReadText(s, at, value);
      if text.Next? {
        ret.Add(Some(key), Text(v), OD_DUP_ALL);
        value.Clear();
      }
      r := text;
    } else {
      r := Failed;
    }
  }

  method ReadKey(s: bytes, at: nat, key: B.Block) returns (r: Turn, k: bytes)
    requires NulFree(s) && at <= |s| && key.Valid() && key.Contents() == []
    modifies key, key.data
    ensures key.Valid() && (key.data == old(key.data) || fresh(key.data))
    ensures match ParseKey(s, at)
      case Key(k', next) => r == Next(next) && k == k'
      case NoKey => r == Failed
      case KeyRunaway => r == Lost
  {
    hide Unquote, SkipSpace, CString;
    k := [];
    var read := UnquoteAdd(key, s, at);
    if !read.Count? {
      return if read.PastEnd? then Lost else Failed, k;
    }
    assert [] + Unquote(s, at).out == Unquote(s, at).out;
    k := BlockString(key);
    var data := at + read.n;
    if data > |s| {
      return Lost, k;
    }
    data := SkipSpaces(s, data);
    if At(s, data) != COLON {
      return Failed, k;
    }
    data := SkipSpaces(s, data + 1);
    r := Next(data);
  }

  method ReadMember(s: bytes, at: nat, key: B.Block, value: B.Block, ret: D.Dict<Json>) returns (r: Turn)
    requires NulFree(s) && at <= |s|
    requires key != value && key.data != value.data
    requires key.Valid() && key.Contents() == [] && value.Valid() && value.Contents() == []
    requires ret.Valid() && ret.cmp == StrCmp
    modifies key, key.data, value, value.data, ret, ret.Nodes()
    ensures key.Valid() && (key.data == old(key.data) || fresh(key.data))
    ensures value.Valid() && (value.data == old(value.data) || fresh(value.data)) && key.data != value.data
    ensures ret.Valid() && ret.cmp == StrCmp && fresh(ret.Nodes() - old(ret.Nodes()))
    ensures Agrees(r, ParseMember(s, at, old(ret.Value())), ret.Value())
    ensures r.Next? ==> key.Contents() == [] && value.Contents() == []
    decreases |s| - at, 2
  {
    hide D.Dict.Valid, D.TreeOf, D.Ok, ParseKey, ParseValue;
    var start, k := ReadKey(s, at, key);
    if start.Next? {
      r := ReadValue(s, start.at, k, value, ret);
    } else {
      r := start;
    }
    key.Clear();
  }

  lemma MembersUnfold(s: bytes, i: nat, acc: JTree)
    requires NulFree(s) && i <= |s|
    ensures ParseMembers(s, i, acc) ==
      if At(s, i) == CLOSE then Parsed(acc, i + 1)
      else
        var m := ParseMember(s, i, acc);
        if !m.Parsed? then m
        else
          var sep := SkipSpace(s, m.next);
          if At(s, sep) == CLOSE then Parsed(m.t, sep + 1)
          else if At(s, sep) != COMMA then Null
          else ParseMembers(s, SkipSpace(s, sep + 1), m.t)
  {
  }

  // The member loop.
  method ReadMembers(s: bytes, at: nat, key: B.Block, value: B.Block, ret: D.Dict<Json>) returns (r: Turn)
    requires NulFree(s) && at <= |s|
    requires key != value && key.data != value.data
    requires key.Valid() && key.Contents() == [] && value.Valid() && value.Contents() == []
    requires ret.Valid() && ret.cmp == StrCmp
    modifies key, key.data, value, value.data, ret, ret.Nodes()
    ensures ret.Valid()
    ensures Agrees(r, ParseMembers(s, at, old(ret.Value())), ret.Value())
    decreases |s| - at, 3
  {
    hide D.Dict.Valid, D.TreeOf, D.Ok, SkipSpace, ParseMember, ParseMembers, M.Insert, B.Block.Contents, B.Block.Valid;
    var data := at;
    ghost var acc := ret.Value();
    while At(s, data) != CLOSE
      invariant at <= data <= |s|
      invariant key.Valid() && key.Contents() == [] && (key.data == old(key.data) || fresh(key.data))
      invariant value.Valid() && value.Contents() == [] && (value.data == old(value.data) || fresh(value.data))
      invariant key.data != value.data
      invariant ret.Valid() && ret.cmp == StrCmp && fresh(ret.Nodes() - old(ret.Nodes()))
      invariant ParseMembers(s, at, acc) == ParseMembers(s, data, ret.Value())
      decreases |s| - data
    {
      MembersUnfold(s, data, ret.Value());
      r := ReadMember(s, data, key, value, ret);
      if !r.Next? {
        return;
      }
      data := SkipSpaces(s, r.at);
      if At(s, data) == CLOSE {
        return Next(data + 1);
      }
      if At(s, data) != COMMA {
        return Failed;
      }
      data := SkipSpaces(s, data + 1);
    }
    MembersUnfold(s, data, ret.Value());
    r := Next(data + 1);
  }

  /** The recursive reader. It gives the content of the dictionary it built. */
  method FromJsonAt(s: bytes, at: nat) returns (r: Turn, content: JTree)
    requires NulFree(s) && at <= |s|
    ensures Agrees(r, ParseDict(s, at), content)
    decreases |s| - at, 0
  {
    hide D.Dict.Valid, D.TreeOf, SkipSpace, ParseMembers;
    var data := SkipSpaces(s, at);
    if At(s, data) != OPEN {
      return Failed, Nil;
    }
    data := SkipSpaces(s, data + 1);
    var ret := new D.Dict<Json>();
    var key := new B.Block();
    var value := new B.Block();
    r := ReadMembers(s, data, key, value, ret);
    content := D.NodeValue(ret.root);
  }

  method DictFromJson(s: bytes) returns (r: Turn, content: JTree)
    requires NulFree(s)
    ensures Agrees(r, FromJson(s), content)
  {
    r, content := FromJsonAt(s, 0);
    if r.Next? {
      var end := SkipSpaces(s, r.at);
      if end < |s| {
        return Failed, Nil;
      }
    }
  }
}
