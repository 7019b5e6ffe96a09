/** Printing a dictionary and reading the text gives the dictionary back. */
module JsonRoundTrip {
  import opened AATree
  import M = Multimap
  import opened Bytes
  import opened JsonText
  import opened JsonDict

  /** What a dictionary says: its keys and values in order, all the way down. The
      shape of the tree and the ownership flags are not part of it. */
  datatype Doc = Str(s: bytes) | Obj(members: seq<(bytes, Doc)>)

  function Meaning(v: Json): Doc
    decreases v, 1
  {
    match v case Text(s) => Str(s) case Sub(t) => Obj(Members(t))
  }

  function Members(t: JTree): seq<(bytes, Doc)>
    decreases t, 0
  {
    if t.Nil? then [] else Members(t.left) + [(t.entry.key, Meaning(t.entry.value))] + Members(t.right)
  }

  // A dictionary of C strings compared with `strcmp`, nested to any depth; equal keys
  // are allowed at every level.
  ghost predicate Storable(t: JTree)
    decreases t, 2
  {
    M.Sorted(StrCmp, InOrder(t)) && AllStorable(t)
  }

  ghost predicate AllStorable(t: JTree)
    decreases t, 1
  {
    t.Node? ==> NulFree(t.entry.key) && StorableJson(t.entry.value) && AllStorable(t.left) && AllStorable(t.right)
  }

  ghost predicate StorableJson(v: Json)
    decreases v, 0
  {
    match v case Text(s) => NulFree(s) case Sub(t) => Storable(t)
  }

  // ---------- trees as sequences of entries ----------

  function MembersOf(es: seq<JEntry>): seq<(bytes, Doc)> {
    if es == [] then [] else [(es[0].key, Meaning(es[0].value))] + MembersOf(es[1..])
  }

  function PrintEntries(es: seq<JEntry>): bytes {
    if es == [] then [] else PrintEntry(es[0]) + PrintEntries(es[1..])
  }

  ghost predicate EntriesStorable(es: seq<JEntry>) {
    forall i :: 0 <= i < |es| ==> NulFree(es[i].key) && StorableJson(es[i].value)
  }

  // The number of entries, nested ones included.
  function Weight(t: JTree): nat
    decreases t, 0
  {
    if t.Nil? then 0 else Weight(t.left) + (1 + WeightJson(t.entry.value)) + Weight(t.right)
  }

  function WeightJson(v: Json): nat
    decreases v, 1
  {
    match v case Text(_) => 0 case Sub(t) => 1 + Weight(t)
  }

  function WeightOf(es: seq<JEntry>): nat {
    if es == [] then 0 else 1 + WeightJson(es[0].value) + WeightOf(es[1..])
  }

  lemma {:induction false} SeqJoins(a: seq<JEntry>, b: seq<JEntry>)
    ensures MembersOf(a + b) == MembersOf(a) + MembersOf(b)
    ensures PrintEntries(a + b) == PrintEntries(a) + PrintEntries(b)
    ensures WeightOf(a + b) == WeightOf(a) + WeightOf(b)
  {
    if a == [] {
      assert a + b == b;
    } else {
      assert (a + b)[1..] == a[1..] + b;
      SeqJoins(a[1..], b);
      Assoc(PrintEntry(a[0]), PrintEntries(a[1..]), PrintEntries(b));
    }
  }

  lemma SeqCons(e: JEntry, r: seq<JEntry>)
    ensures MembersOf([e] + r) == [(e.key, Meaning(e.value))] + MembersOf(r)
    ensures PrintEntries([e] + r) == PrintEntry(e) + PrintEntries(r)
    ensures WeightOf([e] + r) == 1 + WeightJson(e.value) + WeightOf(r)
  {
    assert ([e] + r)[1..] == r;
  }

  lemma {:induction false} TreeAsSeq(t: JTree)
    ensures MembersOf(InOrder(t)) == Members(t)
    ensures PrintEntries(InOrder(t)) == PrintNodes(t)
    ensures WeightOf(InOrder(t)) == Weight(t)
  {
    if t.Node? {
      TreeAsSeq(t.left);
      TreeAsSeq(t.right);
      var l, e, r := InOrder(t.left), t.entry, InOrder(t.right);
      Assoc(l, [e], r);
      SeqCons(e, r);
      SeqJoins(l, [e] + r);
      Assoc(MembersOf(l), [(e.key, Meaning(e.value))], MembersOf(r));
      Assoc(PrintEntries(l), PrintEntry(e), PrintEntries(r));
      assert Members(t) == Members(t.left) + [(e.key, Meaning(e.value))] + Members(t.right);
      assert PrintNodes(t) == PrintNodes(t.left) + PrintEntry(e) + PrintNodes(t.right);
      assert Weight(t) == Weight(t.left) + (1 + WeightJson(e.value)) + Weight(t.right);
      assert InOrder(t) == l + [e] + r;
      hide *;
    }
  }

  lemma {:induction false} TreeStorable(t: JTree)
    requires AllStorable(t)
    ensures EntriesStorable(InOrder(t))
  {
    hide StorableJson;
    if t.Node? {
      TreeStorable(t.left);
      TreeStorable(t.right);
      var l, e, r := InOrder(t.left), t.entry, InOrder(t.right);
      M.PartsAt(l, e, r);
      var s := InOrder(t);
      forall i | 0 <= i < |s| ensures NulFree(s[i].key) && StorableJson(s[i].value) {
        if i < |l| {
          assert s[i] == l[i];
        } else if i > |l| {
          assert s[|l| + 1 + (i - |l| - 1)] == r[i - |l| - 1];
        }
      }
    }
  }

  lemma {:induction false} EntriesEndWithSeparator(es: seq<JEntry>)
    requires es != []
    ensures |PrintEntries(es)| >= 2
    ensures PrintEntries(es) == PrintEntries(es)[..|PrintEntries(es)| - 2] + SEPARATOR
  {
    var p, rest := PrintEntry(es[0]), PrintEntries(es[1..]);
    if |es| == 1 {
      assert p + [] == p;
      assert p == p[..|p| - 2] + p[|p| - 2..];
    } else {
      EntriesEndWithSeparator(es[1..]);
      var cut := rest[..|rest| - 2];
      assert (p + rest)[..|p + rest| - 2] == p + cut;
      Assoc(p, cut, SEPARATOR);
    }
  }

  // What stands between the braces: the entries without the last separator.
  function Body(es: seq<JEntry>): bytes
    requires es != []
  {
    EntriesEndWithSeparator(es);
    PrintEntries(es)[..|PrintEntries(es)| - 2]
  }

  lemma BodySteps(es: seq<JEntry>)
    requires es != []
    ensures Body(es) == PrintedKey(es[0].key) + PrintedJson(es[0].value)
                        + if |es| == 1 then [] else SEPARATOR + Body(es[1..])
    ensures |Body(es)| == |PrintedKey(es[0].key)| + |PrintedJson(es[0].value)| + if |es| ==
      1 then 0 else 2 + |Body(es[1..])|
  {
    var e := es[0];
    var k, v, p := PrintedKey(e.key), PrintedJson(e.value), PrintEntry(e);
    assert p == k + v + SEPARATOR;
    var rest := PrintEntries(es[1..]);
    if |es| == 1 {
      assert PrintEntries(es) == p + [] == p;
      assert p[..|p| - 2] == k + v;
      assert k + v + [] == k + v;
    } else {
      EntriesEndWithSeparator(es[1..]);
      var cut := rest[..|rest| - 2];
      assert (p + rest)[..|p + rest| - 2] == p + cut;
      Assoc(k + v, SEPARATOR, cut);
    }
  }

  // ---------- reading what was printed ----------

  lemma NoSpace(s: bytes, i: nat)
    requires i < |s| && !IsSpace(s[i])
    ensures SkipSpace(s, i) == i
  {
  }

  lemma ReadsString(s: bytes, i: nat, str: bytes)
    requires NulFree(s) && NulFree(str) && StartsAt(s, i, [QUOTE] + Quote(str) + [QUOTE])
    ensures s[i] == QUOTE && Unquote(s, i) == Done(str, i + |Quote(str)| + 2)
    ensures i + |Quote(str)| + 2 <= |s|
  {
    Assoc([QUOTE], Quote(str), [QUOTE]);
    StartsSplit(s, i, [QUOTE], Quote(str) + [QUOTE]);
    StartsElements(s, i, [QUOTE]);
    ReadsQuoted(s, i + 1, str);
  }

  lemma ReadsKey(s: bytes, i: nat, key: bytes)
    requires NulFree(s) && NulFree(key) && StartsAt(s, i, PrintedKey(key))
    requires i + |PrintedKey(key)| < |s| && !IsSpace(s[i + |PrintedKey(key)|])
    ensures s[i] == QUOTE && ParseKey(s, i) == Key(key, i + |PrintedKey(key)|)
  {
    hide Quote, Unquote;
    var str := [QUOTE] + Quote(key) + [QUOTE];
    assert PrintedKey(key) == str + [COLON];
    StartsSplit(s, i, str, [COLON]);
    ReadsString(s, i, key);
    StartsElements(s, i + |str|, [COLON]);
    NoSpace(s, i + |str|);
    NoSpace(s, i + |str| + 1);
    CStringOfNulFree(key);
  }

  lemma PrintedJsonStart(v: Json)
    ensures |PrintedJson(v)| >= 2 && PrintedJson(v)[0] == if v.Text? then QUOTE else OPEN
  {
  }

  lemma {:induction false} ReadsJson(s: bytes, i: nat, key: bytes, v: Json, acc: JTree) returns (e: JEntry)
    requires NulFree(s) && StorableJson(v) && StartsAt(s, i, PrintedJson(v))
    ensures e.key == key && Meaning(e.value) == Meaning(v) && !e.Replaces()
    ensures ParseValue(s, i, key, acc) == Parsed(M.Insert(StrCmp, acc, e), i + |PrintedJson(v)|)
    decreases WeightJson(v), 0
  {
    hide Quote, M.Insert, M.Sorted;
    PrintedJsonStart(v);
    StartsElements(s, i, PrintedJson(v));
    assert s[i + 0] == PrintedJson(v)[0];
    match v {
      case Text(str) =>
        ReadsString(s, i, str);
        CStringOfNulFree(str);
        e := Entry(key, Text(str), OD_DUP_ALL);
      case Sub(t) =>
        var t' := ReadsDict(s, i, t);
        e := Entry(key, Sub(t'), OD_SUBDICT);
    }
  }

  // The entries still to come follow those already added.
  lemma Appends(acc: JTree, e: JEntry, es: seq<JEntry>)
    requires es != [] && e.key == es[0].key && !e.Replaces()
    requires M.Sorted(StrCmp, InOrder(acc) + es)
    ensures InOrder(M.Insert(StrCmp, acc, e)) == InOrder(acc) + [e]
    ensures M.Sorted(StrCmp, InOrder(acc) + [e] + es[1..])
  {
    hide InOrder, M.Sorted, M.Insert, StrCmp;
    StrCmpPreorder();
    hide TotalPreorder;
    SortedFront(InOrder(acc), es);
    M.InsertIsStable(StrCmp, acc, e);
    InsertsLast(InOrder(acc), e, es);
    SortedKeys(InOrder(acc) + es, InOrder(acc) + [e] + es[1..]);
  }

  lemma SortedFront(a: seq<JEntry>, es: seq<JEntry>)
    requires es != [] && M.Sorted(StrCmp, a + es)
    ensures M.Sorted(StrCmp, a) && forall j :: 0 <= j < |a| ==> StrCmp(a[j].key, es[0].key) <= 0
  {
    hide StrCmp;
    var all := a + es;
    forall i, j | 0 <= i < j < |a| ensures StrCmp(a[i].key, a[j].key) <= 0 {
      assert all[i] == a[i] && all[j] == a[j];
    }
    forall j | 0 <= j < |a| ensures StrCmp(a[j].key, es[0].key) <= 0 {
      assert all[j] == a[j] && all[|a|] == es[0];
    }
  }

  lemma InsertsLast(a: seq<JEntry>, e: JEntry, es: seq<JEntry>)
    requires es != [] && e.key == es[0].key && M.Sorted(StrCmp, a + es)
    ensures M.StableInsert(StrCmp, a, e) == a + [e]
  {
    SortedFront(a, es);
    hide M.Sorted, StrCmp, M.StableInsert;
    StrCmpPreorder();
    hide TotalPreorder;
    var k := M.StableInsertAt(StrCmp, a, e);
    forall j | 0 <= j < |a| ensures StrCmp(e.key, a[j].key) >= 0 {
      StrCmpSwap(a[j].key, e.key);
    }
    assert k == |a|;
  }

  // Only the keys decide on the order.
  lemma SortedKeys(a: seq<JEntry>, b: seq<JEntry>)
    requires M.Sorted(StrCmp, a) && |a| == |b| && forall i :: 0 <= i < |a| ==> a[i].key == b[i].key
    ensures M.Sorted(StrCmp, b)
  {
    hide StrCmp;
  }

  lemma {:induction false} ReadsMembers(s: bytes, i: nat, acc: JTree, es: seq<JEntry>) returns (t: JTree)
    requires NulFree(s) && es != [] && EntriesStorable(es) && M.Sorted(StrCmp, InOrder(acc) + es)
    requires StartsAt(s, i, Body(es) + [CLOSE])
    ensures ParseMembers(s, i, acc) == Parsed(t, i + |Body(es)| + 1)
    ensures MembersOf(InOrder(t)) == MembersOf(InOrder(acc)) + MembersOf(es)
    decreases WeightOf(es), 1
  {
    hide *;
    var e, more := es[0], es[1..];
    var end := i + |PrintedKey(e.key)| + |PrintedJson(e.value)|;
    StorableRest(es);
    var e' := ReadsMember(s, i, acc, es);
    Appends(acc, e', es);
    var acc' := M.Insert(StrCmp, acc, e');
    MembersGrow(acc, e', es);
    BodySteps(es);
    NotSpace(s, end);
    if |es| == 1 {
      t := acc';
      LastMember(s, i, acc, acc', end);
    } else {
      BodyStart(s, end + 2, more);
      SkipOne(s, end + 1);
      t := ReadsMembers(s, end + 2, acc', more);
      NextMember(s, i, acc, acc', end);
    }
  }

  lemma StorableRest(es: seq<JEntry>)
    requires es != [] && EntriesStorable(es)
    ensures EntriesStorable(es[1..]) && WeightOf(es) == 1 + WeightJson(es[0].value) + WeightOf(es[1..])
  {
  }

  lemma {:induction false} MembersGrow(acc: JTree, e': JEntry, es: seq<JEntry>)
    requires es != [] && e'.key == es[0].key && Meaning(e'.value) == Meaning(es[0].value)
    requires InOrder(M.Insert(StrCmp, acc, e')) == InOrder(acc) + [e']
    ensures MembersOf(InOrder(M.Insert(StrCmp, acc, e'))) + MembersOf(es[1..]) ==
      MembersOf(InOrder(acc)) + MembersOf(es)
    ensures |es| == 1 ==> MembersOf(InOrder(M.Insert(StrCmp, acc, e'))) == MembersOf(InOrder(acc)) + MembersOf(es)
  {
    hide InOrder, MembersOf, M.Insert, WeightOf, PrintEntries;
    var m := MembersOf(InOrder(acc));
    SeqJoins(InOrder(acc), [e']);
    SeqCons(e', []);
    assert [e'] + [] == [e'];
    NoMembers();
    SeqCons(es[0], es[1..]);
    assert es == [es[0]] + es[1..];
    Assoc(m, MembersOf([e']), MembersOf(es[1..]));
  }

  lemma NoMembers()
    ensures MembersOf([]) == []
  {
  }

  lemma NotSpace(s: bytes, i: nat)
    requires i < |s| && (s[i] == CLOSE || s[i] == COMMA)
    ensures SkipSpace(s, i) == i
  {
  }

  lemma LastMember(s: bytes, i: nat, acc: JTree, acc': JTree, end: nat)
    requires NulFree(s) && i < end < |s| && At(s, i) == QUOTE && ParseMember(s, i, acc) == Parsed(acc', end)
    requires s[end] == CLOSE && SkipSpace(s, end) == end
    ensures ParseMembers(s, i, acc) == Parsed(acc', end + 1)
  {
  }

  lemma NextMember(s: bytes, i: nat, acc: JTree, acc': JTree, end: nat)
    requires NulFree(s) && i < end && end + 2 < |s| && At(s, i) == QUOTE && ParseMember(s, i, acc) == Parsed(acc', end)
    requires s[end] == COMMA && SkipSpace(s, end) == end && SkipSpace(s, end + 1) == end + 2
    ensures ParseMembers(s, i, acc) == ParseMembers(s, end + 2, acc')
  {
  }

  // One member: it is read, and what stands behind it is the rest of the text.
  lemma {:induction false} ReadsMember(s: bytes, i: nat, acc: JTree, es: seq<JEntry>) returns (e': JEntry)
    requires NulFree(s) && es != [] && EntriesStorable(es)
    requires StartsAt(s, i, Body(es) + [CLOSE])
    ensures e'.key == es[0].key && Meaning(e'.value) == Meaning(es[0].value) && !e'.Replaces()
    ensures var end := i + |PrintedKey(es[0].key)| + |PrintedJson(es[0].value)|;
      && ParseMember(s, i, acc) == Parsed(M.Insert(StrCmp, acc, e'), end)
      && i < end < |s| && At(s, i) == QUOTE
      && if |es| == 1 then s[end] == CLOSE
         else end + 2 < |s| && s[end] == COMMA && s[end + 1] == SPACE && StartsAt(s, end + 2, Body(es[1..]) + [CLOSE])
    decreases 1 + WeightJson(es[0].value), 0
  {
    hide Quote, M.Insert, ParseValue, ParseKey, PrintedJson, SkipSpace, StartsAt, Body;
    var e := es[0];
    var k, v := PrintedKey(e.key), PrintedJson(e.value);
    var tail := if |es| == 1 then [CLOSE] else SEPARATOR + (Body(es[1..]) + [CLOSE]);
    MemberText(es);
    StartsSplit(s, i, k, v + tail);
    StartsSplit(s, i + |k|, v, tail);
    StartsElements(s, i + |k|, v);
    StartsElements(s, i + |k| + |v|, tail);
    StartsInside(s, i + |k|, v, tail);
    PrintedJsonStart(e.value);
    assert s[i + |k| + 0] == v[0];
    ReadsKey(s, i, e.key);
    e' := ReadsJson(s, i + |k|, e.key, e.value, acc);
    var end := i + |k| + |v|;
    assert s[end + 0] == tail[0];
    if |es| != 1 {
      assert s[end + 1] == tail[1] == SPACE;
      StartsSplit(s, end, SEPARATOR, Body(es[1..]) + [CLOSE]);
    }
  }

  lemma MemberText(es: seq<JEntry>)
    requires es != []
    ensures Body(es) + [CLOSE] == PrintedKey(es[0].key)
      + (PrintedJson(es[0].value) + if |es| == 1 then [CLOSE] else SEPARATOR + (Body(es[1..]) + [CLOSE]))
  {
    BodySteps(es);
    hide PrintedKey, PrintedJson, Body;
    var k, v := PrintedKey(es[0].key), PrintedJson(es[0].value);
    if |es| == 1 {
      assert k + v + [] == k + v;
      Assoc(k, v, [CLOSE]);
    } else {
      var b := Body(es[1..]);
      Assoc(k + v, SEPARATOR + b, [CLOSE]);
      Assoc(SEPARATOR, b, [CLOSE]);
      Assoc(k, v, SEPARATOR + (b + [CLOSE]));
    }
  }

  lemma BodyStart(s: bytes, i: nat, es: seq<JEntry>)
    requires es != [] && StartsAt(s, i, Body(es) + [CLOSE])
    ensures i < |s| && s[i] == QUOTE
  {
    MemberText(es);
    var rest := PrintedJson(es[0].value) + if |es| == 1 then [CLOSE] else SEPARATOR + (Body(es[1..]) + [CLOSE]);
    StartsSplit(s, i, PrintedKey(es[0].key), rest);
    StartsElements(s, i, PrintedKey(es[0].key));
    assert s[i + 0] == PrintedKey(es[0].key)[0];
  }

  lemma SkipOne(s: bytes, i: nat)
    requires i + 1 < |s| && s[i] == SPACE && s[i + 1] == QUOTE
    ensures SkipSpace(s, i) == i + 1
  {
  }

  lemma {:induction false} ReadsDict(s: bytes, i: nat, t: JTree) returns (t': JTree)
    requires NulFree(s) && Storable(t) && StartsAt(s, i, Print(t))
    ensures ParseDict(s, i) == Parsed(t', i + |Print(t)|) && Members(t') == Members(t)
    decreases Weight(t), 2
  {
    hide M.Sorted, ParseMembers, Body;
    var es := InOrder(t);
    TreeAsSeq(t);
    TreeStorable(t);
    StartsElements(s, i, Print(t));
    assert s[i + 0] == OPEN;
    NoSpace(s, i);
    if t.Nil? {
      assert s[i + 1] == CLOSE;
      NoSpace(s, i + 1);
      t' := Nil;
      ParsesEmpty(s, i + 1);
    } else {
      PrintIsBody(t);
      StartsSplit(s, i, [OPEN], Body(es) + [CLOSE]);
      BodyStart(s, i + 1, es);
      NoSpace(s, i + 1);
      assert InOrder<bytes, Json>(Nil) + es == es;
      t' := ReadsMembers(s, i + 1, Nil, es);
      TreeAsSeq(t');
      assert MembersOf([]) + MembersOf(es) == MembersOf(es);
    }
  }

  lemma ParsesEmpty(s: bytes, i: nat)
    requires NulFree(s) && i < |s| && s[i] == CLOSE
    ensures ParseMembers(s, i, Nil) == Parsed(Nil, i + 1)
  {
  }

  lemma PrintIsBody(t: JTree)
    requires t.Node?
    ensures Print(t) == [OPEN] + (Body(InOrder(t)) + [CLOSE])
  {
    TreeAsSeq(t);
  }

  /** The text printed for a dictionary, duplicate keys and nested dictionaries
      included, is read as a dictionary with the same keys and values in the same
      order at every level. */
  lemma JsonRoundTrips(t: JTree)
    requires Storable(t)
    ensures NulFree(Print(t))
    ensures var o := FromJson(Print(t)); o.Parsed? && Members(o.t) == Members(t)
  {
    hide Print, ParseDict, Members, NulFree, M.Sorted, AllStorable;
    PrintNulFree(t);
    var s := Print(t);
    assert s[0..|s|] == s;
    var t' := ReadsDict(s, 0, t);
  }

  lemma {:induction false} PrintNulFree(t: JTree)
    requires AllStorable(t)
    ensures NulFree(Print(t))
    decreases t, 1
  {
    if t.Nil? {
      assert Print(t) == [OPEN, CLOSE];
    } else {
      NodesNulFree(t);
      var p := PrintNodes(t);
      assert NulFree(p[..|p| - 2]);
      NulFreeJoins([OPEN], p[..|p| - 2], [CLOSE]);
    }
  }

  lemma {:induction false} NodesNulFree(t: JTree)
    requires AllStorable(t)
    ensures NulFree(PrintNodes(t))
    decreases t, 0
  {
    if t.Node? {
      NodesNulFree(t.left);
      NodesNulFree(t.right);
      var e := t.entry;
      assert StorableJson(e.value);
      if e.value.Sub? {
        assert Storable(e.value.t) && AllStorable(e.value.t);
        PrintNulFree(e.value.t);
      }
      EntryNulFree(e);
      assert PrintNodes(t) == PrintNodes(t.left) + PrintEntry(e) + PrintNodes(t.right);
      hide PrintNodes, PrintEntry, NulFree;
      NulFreeJoins(PrintNodes(t.left), PrintEntry(e), PrintNodes(t.right));
    }
  }

  lemma EntryNulFree(e: JEntry)
    requires NulFree(e.key) && if e.value.Text? then NulFree(e.value.s) else NulFree(Print(e.value.t))
    ensures NulFree(PrintEntry(e))
  {
    QuoteHasNoControls(e.key);
    NulFreeJoins([QUOTE], Quote(e.key), [QUOTE, COLON]);
    if e.value.Text? {
      QuoteHasNoControls(e.value.s);
      NulFreeJoins([QUOTE], Quote(e.value.s), [QUOTE]);
    }
    NulFreeJoins(PrintedKey(e.key), PrintedJson(e.value), SEPARATOR);
  }

  lemma NulFreeJoins(a: bytes, b: bytes, c: bytes)
    requires NulFree(a) && NulFree(b) && NulFree(c)
    ensures NulFree(a + b + c)
  {
  }
}
