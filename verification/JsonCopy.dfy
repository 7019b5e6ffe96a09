/** Hard duplicates of dictionaries with dictionaries inside. */
module JsonCopy {
  import opened AATree
  import M = Multimap
  import opened Bytes
  import opened JsonDict
  import opened JsonRoundTrip
  import D = Dict

  /** A hard duplicate goes all the way down, and every dictionary in it is compared with
      `strcmp`. */
  function Duplicate(v: Json): Json
    decreases v, 1
  {
    match v case Text(s) => Text(s) case Sub(t) => Sub(CopyInto(Nil, t))
  }

  // The traversal that adds the duplicate of every entry.
  function CopyInto(acc: JTree, t: JTree): JTree
    decreases t, 0
  {
    if t.Nil? then acc
    else
      var e := t.entry;
      var value := if e.flags & OD_DICT != 0 then Duplicate(e.value) else e.value;
      var flags := if e.flags & OD_DICT != 0 then OD_DUP_ALL | OD_DICT else OD_DUP_ALL;
      CopyInto(M.Insert(StrCmp, CopyInto(acc, t.left), Entry(e.key, value, flags)), t.right)
  }

  // The type flag of an entry tells what its value is, at every level.
  ghost predicate Typed(t: JTree)
    decreases t, 1
  {
    t.Node? ==>
      && (t.entry.flags & OD_DICT != 0 <==> t.entry.value.Sub?)
      && TypedJson(t.entry.value) && Typed(t.left) && Typed(t.right)
  }

  ghost predicate TypedJson(v: Json)
    decreases v, 0
  {
    v.Sub? ==> Typed(v.t)
  }

  // Every dictionary is in `strcmp` order, nested ones too.
  ghost predicate InStrCmpOrder(t: JTree)
    decreases t, 2
  {
    M.Sorted(StrCmp, InOrder(t)) && Ordered(t)
  }

  ghost predicate Ordered(t: JTree)
    decreases t, 1
  {
    t.Node? ==> OrderedJson(t.entry.value) && Ordered(t.left) && Ordered(t.right)
  }

  ghost predicate OrderedJson(v: Json)
    decreases v, 0
  {
    v.Sub? ==> InStrCmpOrder(v.t)
  }

  lemma {:induction false} CopyIsInsertAll(acc: JTree, t: JTree)
    ensures CopyInto(acc, t) == M.InsertAll(StrCmp, acc, D.Copies(InOrder(t), true, Duplicate))
    decreases t
  {
    hide M.InsertAll, M.Insert, D.Copies;
    if t.Nil? {
      assert D.Copies(InOrder(t), true, Duplicate) == [];
      M.InsertAllNone(StrCmp, acc);
    } else {
      var l, e, r := D.Copies(InOrder(t.left), true, Duplicate), D.Copy(t.entry, true, Duplicate),
        D.Copies(InOrder(t.right), true, Duplicate);
      CopyIsInsertAll(acc, t.left);
      CopyIsInsertAll(M.Insert(StrCmp, CopyInto(acc, t.left), e), t.right);
      D.CopiesJoin(InOrder(t.left), t.entry, InOrder(t.right), true, Duplicate);
      M.InsertAllCons(StrCmp, CopyInto(acc, t.left), e, r);
      M.InsertAllJoins(StrCmp, acc, l, [e] + r);
    }
  }

  // The values of the copies mean the same.
  ghost predicate SameMeaning(es: seq<JEntry>) {
    forall i :: 0 <= i < |es| ==> Meaning(D.Copy(es[i], true, Duplicate).value) == Meaning(es[i].value)
  }

  lemma {:induction false} MembersAt(es: seq<JEntry>, i: nat)
    requires i < |es|
    ensures |MembersOf(es)| == |es| && MembersOf(es)[i] == (es[i].key, Meaning(es[i].value))
  {
    if i > 0 {
      MembersAt(es[1..], i - 1);
    } else if |es| > 1 {
      MembersAt(es[1..], 0);
    }
  }

  lemma MembersCount(es: seq<JEntry>)
    ensures |MembersOf(es)| == |es|
  {
    if es != [] {
      MembersAt(es, 0);
    }
  }

  lemma MembersEqual(a: seq<JEntry>, b: seq<JEntry>)
    ensures MembersOf(a) == MembersOf(b) <==>
      |a| == |b| && forall i :: 0 <= i < |a| ==> a[i].key == b[i].key && Meaning(a[i].value) == Meaning(b[i].value)
  {
    MembersCount(a);
    MembersCount(b);
    forall i | 0 <= i < |a| ensures MembersOf(a)[i] == (a[i].key, Meaning(a[i].value)) {
      MembersAt(a, i);
    }
    forall i | 0 <= i < |b| ensures MembersOf(b)[i] == (b[i].key, Meaning(b[i].value)) {
      MembersAt(b, i);
    }
  }

  // One dictionary: its order, and what its values mean.
  lemma LevelKept(t: JTree)
    ensures Members(CopyInto(Nil, t)) == Members(t) <==> M.Sorted(StrCmp, InOrder(t)) && SameMeaning(InOrder(t))
  {
    hide M.Sorted, CopyInto, Members, MembersOf, M.InsertAll;
    var es, c, t' := InOrder(t), D.Copies(InOrder(t), true, Duplicate), CopyInto(Nil, t);
    CopyIsInsertAll(Nil, t);
    TreeAsSeq(t);
    TreeAsSeq(t');
    D.CopyOfEntries(es, Duplicate);
    MembersEqual(InOrder(t'), es);
    if Members(t') == Members(t) {
      SortedCopy(es);
      SortedKeys(InOrder(t'), es);
    }
  }

  lemma SortedCopy(es: seq<JEntry>)
    ensures M.Sorted(StrCmp, InOrder(M.InsertAll(StrCmp, Nil, D.Copies(es, true, Duplicate))))
  {
    StrCmpPreorder();
    D.CopiesSorted(es, true, Duplicate);
    hide TotalPreorder;
    M.InsertAllIsStableSort(StrCmp, Nil, D.Copies(es, true, Duplicate));
  }

  /** A hard duplicate has the same keys and values in the same order at every level if and
      only if every dictionary, down to the innermost, was in `strcmp` order. */
  lemma {:induction false} DuplicateKeepsIff(t: JTree)
    requires Typed(t)
    ensures Members(CopyInto(Nil, t)) == Members(t) <==> InStrCmpOrder(t)
    decreases t, 2
  {
    hide CopyInto, M.Sorted;
    LevelKept(t);
    ValuesKeptIff(t);
  }

  lemma {:induction false} ValuesKeptIff(t: JTree)
    requires Typed(t)
    ensures SameMeaning(InOrder(t)) <==> Ordered(t)
    decreases t, 1
  {
    hide CopyInto, M.Sorted;
    if t.Node? {
      ValuesKeptIff(t.left);
      ValuesKeptIff(t.right);
      JoinSame(InOrder(t.left), t.entry, InOrder(t.right));
      if t.entry.value.Sub? {
        DuplicateKeepsIff(t.entry.value.t);
      }
    }
  }

  lemma JoinSame(l: seq<JEntry>, e: JEntry, r: seq<JEntry>)
    ensures SameMeaning(l + [e] + r) <==> SameMeaning(l) && SameMeaning([e]) && SameMeaning(r)
    ensures SameMeaning([e]) <==> Meaning(D.Copy(e, true, Duplicate).value) == Meaning(e.value)
  {
    var s := l + [e] + r;
    if SameMeaning(s) {
      assert forall i :: 0 <= i < |l| ==> s[i] == l[i];
      assert s[|l|] == e;
      assert forall i :: 0 <= i < |r| ==> r[i] == s[|l| + 1 + i];
    }
  }

  /** The method that duplicates a linked dictionary, its nested ones included. */
  method HardDup(d: D.Dict<Json>) returns (c: D.Dict<Json>)
    requires d.Valid() && Typed(d.Value())
    ensures fresh(c) && c.Valid() && c.cmp == StrCmp && c.Value() == CopyInto(Nil, d.Value())
    ensures Members(c.Value()) == Members(d.Value()) <==> InStrCmpOrder(d.Value())
  {
    hide CopyInto, M.InsertAll, D.Ok, D.TreeOf, D.Copies, Typed, InStrCmpOrder, Members;
    CopyIsInsertAll(Nil, d.Value());
    DuplicateKeepsIff(d.Value());
    c := d.HardDup(Duplicate);
  }
}
