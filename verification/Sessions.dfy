/** Sessions kept in memory: dictionaries shared between the store and the requests that
    use them, with a count of the references. */
module Sessions {
  import opened Wrappers
  import opened Bytes
  import D = Dict

  // The sessions of a store that are this dictionary.
  ghost function Ids(store: map<bytes, D.Dict<bytes>>, d: D.Dict<bytes>): set<bytes> {
    set id | id in store && store[id] == d
  }

  ghost function Stored(store: map<bytes, D.Dict<bytes>>, d: D.Dict<bytes>): nat {
    |Ids(store, d)|
  }

  lemma StoredPut(store: map<bytes, D.Dict<bytes>>, id: bytes, x: D.Dict<bytes>, d: D.Dict<bytes>)
    ensures Stored(store[id := x], d) ==
      Stored(store, d) + (if d == x then 1 else 0) - (if id in store && store[id] == d then 1 else 0)
  {
    var others := Ids(store, d) - {id};
    assert Ids(store[id := x], d) == if d == x then others + {id} else others;
    assert Ids(store, d) == if id in store && store[id] == d then others + {id} else others;
  }

  lemma StoredWithout(store: map<bytes, D.Dict<bytes>>, id: bytes, d: D.Dict<bytes>)
    requires id in store
    ensures Stored(store - {id}, d) == Stored(store, d) - (if store[id] == d then 1 else 0)
  {
    var others := Ids(store, d) - {id};
    assert Ids(store - {id}, d) == others;
    assert Ids(store, d) == if store[id] == d then others + {id} else others;
  }

  lemma StoredSome(store: map<bytes, D.Dict<bytes>>, id: bytes)
    requires id in store
    ensures Stored(store, store[id]) > 0
  {
    assert id in Ids(store, store[id]);
  }

  lemma NotStored(store: map<bytes, D.Dict<bytes>>, d: D.Dict<bytes>)
    requires Stored(store, d) == 0
    ensures forall id :: id in store ==> store[id] != d
  {
    assert forall id :: id in store && store[id] == d ==> id in Ids(store, d);
  }

  lemma NotYetStored(store: map<bytes, D.Dict<bytes>>, all: set<D.Dict<bytes>>, d: D.Dict<bytes>)
    requires d !in all && forall id :: id in store ==> store[id] in all
    ensures Stored(store, d) == 0
  {
    assert Ids(store, d) == {};
  }

  class Sessions {
    var store: map<bytes, D.Dict<bytes>>
    // Every session dictionary there ever was, and the references requests hold.
    ghost var all: set<D.Dict<bytes>>
    ghost var handles: multiset<D.Dict<bytes>>

    /** A dictionary's count is the number of its entries in the store and of live handles,
        and it is freed exactly when that is zero. */
    ghost predicate Valid()
      reads this, all
    {
      && (forall id :: id in store ==> store[id] in all)
      && (forall d :: d in handles ==> d in all)
      && forall d :: d in all ==> Counted(d)
    }

    ghost predicate Counted(d: D.Dict<bytes>)
      reads this, d
    {
      d.refcount == Stored(store, d) + handles[d] && (d.freed <==> d.refcount == 0)
    }

    constructor ()
      ensures Valid() && store == map[] && all == {} && handles == multiset{}
    {
      store, all, handles := map[], {}, multiset{};
    }

    // Nobody who refers to a dictionary can find it freed.
    lemma Alive(d: D.Dict<bytes>)
      requires Valid() && (d in handles || exists id :: id in store && store[id] == d)
      ensures d in all && !d.freed && d.refcount > 0
    {
      if d !in handles {
        var id :| id in store && store[id] == d;
        StoredSome(store, id);
      }
    }

    lemma AllAlive()
      requires Valid()
      ensures forall x :: x in handles ==> x in all && !x.freed
    {
      hide Valid, Counted;
      forall x | x in handles ensures x in all && !x.freed {
        Alive(x);
      }
    }

    lemma Known()
      requires Valid()
      ensures (forall id :: id in store ==> store[id] in all) && forall d :: d in handles ==> d in all
    {
    }

    // Another reference, if there is such a session.
    method Get(id: bytes) returns (d: D.Dict?<bytes>)
      requires Valid()
      modifies this`handles, (if id in store then {store[id]} else {})`refcount
      ensures Valid()
      ensures if id in store then d == store[id] && handles == old(handles) + multiset{store[id]}
              else d == null && handles == old(handles)
    {
      if id !in store {
        return null;
      }
      Alive(store[id]);
      d := store[id];
      d.Dup();
      handles := handles + multiset{d};
    }

    // The store takes a reference of its own and gives up the one it had.
    method Save(id: bytes, data: D.Dict<bytes>)
      requires Valid() && data in handles
      modifies this`store, data`refcount, (if id in store then {store[id]} else {})`refcount,
        (if id in store then {store[id]} else {})`freed
      ensures Valid() && store == old(store)[id := data] && !data.freed
      ensures data.refcount == old(data.refcount) + if id in old(store) && old(store)[id] == data then 0 else 1
      ensures forall d :: d in all && d.freed && !old(d.freed) ==>
        id in old(store) && d == old(store)[id] && d != data && d !in handles
    {
      hide Stored, D.Dict.Valid, D.Dict.Nodes, D.Dict.Value, D.Ok, D.TreeOf;
      Alive(data);
      ghost var before := store;
      data.Dup();
      var replaced := if id in store then Some(store[id]) else None;
      store := store[id := data];
      forall d ensures Stored(store, d) ==
        Stored(before, d) + (if d == data then 1 else 0) - (if id in before && before[id] == d then 1 else 0) {
        StoredPut(before, id, data, d);
      }
      if replaced.Some? {
        replaced.value.Free();
      }
      forall d | d in all ensures Counted(d) {
        assert old(Counted(d));
      }
    }

    method Remove(id: bytes)
      requires Valid()
      modifies this`store, (if id in store then {store[id]} else {})`refcount,
        (if id in store then {store[id]} else {})`freed
      ensures Valid() && store == old(store) - {id}
      ensures forall d :: d in all && d.freed && !old(d.freed) ==>
        id in old(store) && d == old(store)[id] && d !in handles
    {
      hide Stored;
      if id !in store {
        assert store == store - {id};
        return;
      }
      Alive(store[id]);
      ghost var before := store;
      var d := store[id];
      store := store - {id};
      forall x ensures Stored(store, x) == Stored(before, x) - (if before[id] == x then 1 else 0) {
        StoredWithout(before, id, x);
      }
      d.Free();
    }

    // A handle is given back.
    method Release(d: D.Dict<bytes>)
      requires Valid() && d in handles
      modifies this`handles, d`refcount, d`freed
      ensures Valid() && handles == old(handles) - multiset{d} && d.refcount == old(d.refcount) - 1
      ensures forall x :: x in all && x.freed && !old(x.freed) ==>
        x == d && x !in handles && forall id :: id in store ==> store[id] != x
    {
      Alive(d);
      d.Free();
      handles := handles - multiset{d};
      assert d.freed ==> forall id :: id in store ==> store[id] != d by {
        if d.freed {
          NotStored(store, d);
        }
      }
    }

    /** A new session under a random identifier. Should that be in use, the session that had
        it leaves the store, and is freed if nobody holds it. */
    method Create(id: bytes) returns (ghost d: D.Dict<bytes>)
      requires Valid()
      modifies this`store, this`all, this`handles
      modifies (if id in store then {store[id]} else {})`refcount, (if id in store then {store[id]} else {})`freed
      ensures Valid() && handles == old(handles) && fresh(d) && all == old(all) + {d}
      ensures store == old(store)[id := d] && d.refcount == 1 && d.root == null && d.cmp == StrCmp
      ensures forall x :: x in old(all) && x.freed && !old(x.freed) ==>
        id in old(store) && x == old(store)[id] && x !in handles
    {
      hide Valid, Counted, D.Dict.Valid, D.Dict.Nodes, D.Dict.Value, D.Ok, D.TreeOf, Stored;
      Known();
      var data := new D.Dict<bytes>();
      Adopt(id, data);
      d := data;
    }

    // A new session, and a handle of it.
    method Open(id: bytes) returns (d: D.Dict<bytes>)
      requires Valid()
      modifies this`store, this`all, this`handles, all`refcount, all`freed
      ensures Valid() && fresh(d) && all == old(all) + {d} && handles == old(handles) + multiset{d}
      ensures store == old(store)[id := d] && d.root == null && d.cmp == StrCmp
    {
      hide Valid, Counted, D.Dict.Valid, D.Dict.Nodes, D.Dict.Value, D.Ok, D.TreeOf, Stored;
      Known();
      ghost var _ := Create(id);
      d := Get(id);
    }

    // A new dictionary becomes a session; the reference that came with it is given back.
    method Adopt(id: bytes, data: D.Dict<bytes>)
      requires Valid() && data !in all && data.refcount == 1 && !data.freed
      modifies this`store, this`all, this`handles, data`refcount, data`freed
      modifies (if id in store then {store[id]} else {})`refcount, (if id in store then {store[id]} else {})`freed
      ensures Valid() && handles == old(handles) && all == old(all) + {data}
      ensures store == old(store)[id := data] && data.refcount == 1
      ensures forall x :: x in old(all) && x.freed && !old(x.freed) ==>
        id in old(store) && x == old(store)[id] && x !in handles
    {
      hide Valid, Counted, D.Dict.Valid, D.Dict.Nodes, D.Dict.Value, D.Ok, D.TreeOf, Stored;
      Known();
      Enter(data);
      Save(id, data);
      Release(data);
    }

    // The reference that comes with a new dictionary.
    ghost method Enter(data: D.Dict<bytes>)
      requires Valid() && data !in all && data.refcount == 1 && !data.freed
      modifies this`all, this`handles
      ensures Valid() && all == old(all) + {data} && handles == old(handles) + multiset{data}
    {
      NotYetStored(store, all, data);
      all := all + {data};
      handles := handles + multiset{data};
      assert handles[data] == 1;
    }
  }

  // The first of the identifiers a request offers that is a session.
  ghost predicate First(ids: seq<bytes>, known: set<bytes>, k: nat) {
    k < |ids| && ids[k] in known && forall j :: 0 <= j < k ==> ids[j] !in known
  }

  lemma OnlyFirst(ids: seq<bytes>, known: set<bytes>, k: nat)
    requires First(ids, known, k)
    ensures k < |ids| && ids[k] in known
    ensures forall i :: 0 <= i < |ids| && ids[i] in known && (forall j :: 0 <= j < i ==> ids[j] !in known) ==> i == k
  {
  }

  ghost function One(session: D.Dict?<bytes>): multiset<D.Dict<bytes>> {
    if session == null then multiset{} else multiset{session}
  }

  /** What a request holds of a session: one handle, as long as it has one at all. */
  class Request {
    const sessions: Sessions
    var session: D.Dict?<bytes>
    var id: Option<bytes>

    ghost predicate Valid()
      reads this, sessions, sessions.all
    {
      sessions.Valid() && (session == null <==> id.None?) && (session != null ==> session in sessions.handles)
    }

    ghost function Held(): multiset<D.Dict<bytes>>
      reads this
    {
      One(session)
    }

    constructor (sessions: Sessions)
      requires sessions.Valid()
      ensures Valid() && this.sessions == sessions && session == null
    {
      this.sessions, session, id := sessions, null, None;
    }

    // Tries the identifiers of the cookie one by one: k is where one was found.
    method GuessSessionId(cookies: seq<bytes>) returns (ghost k: nat)
      requires Valid()
      modifies this, sessions`handles, sessions.all`refcount
      ensures Valid() && sessions.handles - Held() == old(sessions.handles - Held())
      ensures sessions.store == old(sessions.store)
      ensures if old(id).Some? then id == old(id) && session == old(session)
              else if id.None? then forall j :: 0 <= j < |cookies| ==> cookies[j] !in sessions.store
              else
                && First(cookies, sessions.store.Keys, k)
                && id == Some(cookies[k]) && session == sessions.store[cookies[k]]
    {
      hide Sessions.Valid, Sessions.Counted, Stored, D.Dict.Valid, D.Dict.Nodes, D.Dict.Value, D.Ok, D.TreeOf;
      k := 0;
      if id.Some? {
        return;
      }
      var i: nat := 0;
      while i < |cookies|
        invariant i <= |cookies| && Valid() && id.None? && sessions.handles == old(sessions.handles)
        invariant forall j :: 0 <= j < i ==> cookies[j] !in sessions.store
      {
        sessions.Known();
        var s := sessions.Get(cookies[i]);
        if s != null {
          session, id := s, Some(cookies[i]);
          k := i;
          return;
        }
        i := i + 1;
      }
    }

    /** The session of a request: the one it has, the one it names, or a new one. */
    method GetSessionDict(cookies: seq<bytes>, newId: bytes) returns (d: D.Dict<bytes>)
      requires Valid()
      modifies this, sessions, sessions.all`refcount, sessions.all`freed
      ensures Valid() && d == session && !d.freed
      ensures old(session) != null ==> d == old(session) && id == old(id)
      ensures old(session) == null && (forall j :: 0 <= j < |cookies| ==> cookies[j] !in old(sessions.store)) ==>
        && id == Some(newId) && fresh(d) && d.root == null && d.cmp == StrCmp
        && sessions.store == old(sessions.store)[newId := d]
      ensures forall k ::
        0 <= k < |cookies| && old(session) == null && cookies[k] in old(sessions.store) &&
        (forall j :: 0 <= j < k ==> cookies[j] !in old(sessions.store)) ==>
          id == Some(cookies[k]) && d == old(sessions.store)[cookies[k]] && sessions.store == old(sessions.store)
      ensures sessions.handles - Held() == old(sessions.handles - Held())
      ensures old(sessions.all) <= sessions.all && fresh(sessions.all - old(sessions.all))
    {
      hide First, Sessions.Valid, Sessions.Counted, Stored, D.Dict.Valid, D.Dict.Nodes, D.Dict.Value, D.Ok, D.TreeOf;
      ghost var before, k, none := sessions.store, 0, session == null;
      if session == null {
        k := GuessSessionId(cookies);
        if session == null {
          Begin(newId);
          k := |cookies|;
        } else {
          OnlyFirst(cookies, before.Keys, k);
        }
      }
      StillAlive();
      d := session;
      forall i |
        0 <= i < |cookies| && none && cookies[i] in before && (forall j :: 0 <= j < i ==> cookies[j] !in before)
        ensures id == Some(cookies[i]) && d == before[cookies[i]] && sessions.store == before
      {
        assert i == k;
      }
    }

    lemma StillAlive()
      requires Valid() && session != null
      ensures !session.freed
    {
      sessions.Alive(session);
    }

    // A session of its own.
    method Begin(newId: bytes)
      requires Valid() && session == null
      modifies this, sessions, sessions.all`refcount, sessions.all`freed
      ensures Valid() && session != null && fresh(session) && id == Some(newId)
      ensures session.root == null && session.cmp == StrCmp
      ensures sessions.store == old(sessions.store)[newId := session]
      ensures sessions.handles - Held() == old(sessions.handles)
      ensures old(sessions.all) <= sessions.all && fresh(sessions.all - old(sessions.all))
    {
      hide Sessions.Valid, Sessions.Counted, Stored, D.Dict.Valid, D.Dict.Nodes, D.Dict.Value, D.Ok, D.TreeOf;
      session := sessions.Open(newId);
      id := Some(newId);
    }

    // The handle is given up.
    method GiveBack()
      requires Valid() && session != null
      modifies this, sessions`handles, session`refcount, session`freed
      ensures Valid() && session == null && sessions.handles == old(sessions.handles - Held())
    {
      hide Sessions.Valid, Sessions.Counted, Stored, D.Dict.Valid, D.Dict.Nodes, D.Dict.Value, D.Ok, D.TreeOf;
      sessions.Known();
      sessions.Release(session);
      session := null;
      id := None;
    }

    /** The session ends: it leaves the store, and the request gives its handle back.
        A dictionary that another request still holds is not freed. */
    method SessionFree(cookies: seq<bytes>)
      requires Valid()
      modifies this, sessions`store, sessions`handles, sessions.all`refcount, sessions.all`freed
      ensures Valid() && session == null && sessions.handles == old(sessions.handles - Held())
      ensures forall x :: x in sessions.handles ==> x in sessions.all && !x.freed
      ensures old(id).Some? ==> sessions.store == old(sessions.store) - {old(id).value}
      ensures old(id).None? && (forall j :: 0 <= j < |cookies| ==> cookies[j] !in old(sessions.store)) ==>
        sessions.store == old(sessions.store)
      ensures forall k ::
        0 <= k < |cookies| && old(id).None? && cookies[k] in old(sessions.store) &&
        (forall j :: 0 <= j < k ==> cookies[j] !in old(sessions.store)) ==>
          sessions.store == old(sessions.store) - {cookies[k]}
    {
      hide First, Sessions.Valid, Sessions.Counted, Stored, D.Dict.Valid, D.Dict.Nodes, D.Dict.Value, D.Ok,
        D.TreeOf;
      if id.None? {
        ghost var k := GuessSessionId(cookies);
        if id.Some? {
          OnlyFirst(cookies, sessions.store.Keys, k);
        }
      }
      if id.Some? {
        EndSession();
      }
      sessions.AllAlive();
    }

    method EndSession()
      requires Valid() && id.Some?
      modifies this, sessions`store, sessions`handles, sessions.all`refcount, sessions.all`freed
      ensures Valid() && session == null && sessions.handles == old(sessions.handles - Held())
      ensures sessions.store == old(sessions.store) - {old(id).value}
    {
      hide Sessions.Valid, Sessions.Counted, Stored, D.Dict.Valid, D.Dict.Nodes, D.Dict.Value, D.Ok, D.TreeOf;
      sessions.Known();
      sessions.Remove(id.value);
      GiveBack();
    }

    /** The end of a request: an empty session ends, another one is saved. Either way one
        handle is given back. */
    method Clean()
      requires Valid() && (session != null ==> session.Valid())
      modifies this, sessions`store, sessions`handles, sessions.all`refcount, sessions.all`freed
      ensures Valid() && session == null && sessions.handles == old(sessions.handles - Held())
      ensures forall x :: x in sessions.handles ==> x in sessions.all && !x.freed
      ensures old(session) == null ==> sessions.store == old(sessions.store)
      ensures old(session) != null && old(session.Contents()) == [] ==>
        sessions.store == old(sessions.store) - {old(id).value}
      ensures old(session) != null && old(session.Contents()) != [] ==>
        sessions.store == old(sessions.store)[old(id).value := old(session)] && !old(session).freed
    {
      hide Sessions.Valid, Sessions.Counted, Stored, D.Dict.Valid, D.Dict.Nodes, D.Dict.Value, D.Ok, D.TreeOf;
      if id.Some? {
        var n := session.Count();
        Finish(n == 0);
      }
      sessions.AllAlive();
    }

    // What is done with the session, by whether it is empty.
    method Finish(empty: bool)
      requires Valid() && id.Some?
      modifies this, sessions`store, sessions`handles, sessions.all`refcount, sessions.all`freed
      ensures Valid() && session == null && sessions.handles == old(sessions.handles - Held())
      ensures empty ==> sessions.store == old(sessions.store) - {old(id).value}
      ensures !empty ==> sessions.store == old(sessions.store)[old(id).value := old(session)] && !old(session).freed
    {
      hide Sessions.Valid, Sessions.Counted, Stored, D.Dict.Valid, D.Dict.Nodes, D.Dict.Value, D.Ok, D.TreeOf;
      if empty {
        EndSession();
      } else {
        sessions.Known();
        ghost var d, i := session, id.value;
        sessions.Save(id.value, session);
        GiveBack();
        assert sessions.store[i] == d;
        sessions.Alive(d);
      }
    }
  }

  // ---------- many requests ----------

  // What a request does with sessions.
  datatype Act = Ask(cookies: seq<bytes>, newId: bytes) | End(empty: bool) | Drop(cookies: seq<bytes>)

  // The session of each request.
  ghost function Using(requests: seq<Request>): (s: seq<D.Dict?<bytes>>)
    reads requests
    ensures |s| == |requests| && forall i :: 0 <= i < |s| ==> s[i] == requests[i].session
  {
    seq(|requests|, i requires 0 <= i < |requests| reads requests => requests[i].session)
  }

  ghost predicate Separate(requests: seq<Request>) {
    forall i, j :: 0 <= i < j < |requests| ==> requests[i] != requests[j]
  }

  ghost predicate Linked(sessions: Sessions, r: Request)
    reads sessions, r
  {
    r.sessions == sessions && (r.session == null <==> r.id.None?) && (r.session != null ==> r.session in sessions.all)
  }

  /** The handles of a store are those of the requests: the number of references to a
      dictionary is the number of its entries and of the requests that use it. */
  ghost predicate Consistent(sessions: Sessions, requests: seq<Request>)
    reads sessions, sessions.all, requests
  {
    && sessions.Valid()
    && (forall i :: 0 <= i < |requests| ==> Linked(sessions, requests[i]))
    && (forall d :: d in sessions.all ==> sessions.handles[d] == multiset(Using(requests))[d])
  }

  lemma EachValid(sessions: Sessions, requests: seq<Request>, k: nat)
    requires Consistent(sessions, requests) && k < |requests|
    ensures requests[k].Valid()
  {
    assert Using(requests)[k] in multiset(Using(requests));
  }

  // Another session for one of the requests.
  lemma OneMoves(before: seq<D.Dict?<bytes>>, after: seq<D.Dict?<bytes>>, k: nat,
                 handles: multiset<D.Dict<bytes>>, now: multiset<D.Dict<bytes>>, d: D.Dict<bytes>)
    requires k < |before| && |after| == |before| && after == before[k := after[k]]
    requires One(before[k]) <= handles && One(after[k]) <= now && now - One(after[k]) == handles - One(before[k])
    requires handles[d] == multiset(before)[d]
    ensures now[d] == multiset(after)[d]
  {
    assert multiset(after) == multiset(before) - multiset{before[k]} + multiset{after[k]};
    assert (now - One(after[k]))[d] == (handles - One(before[k]))[d];
  }

  // One request acts.
  method Step(sessions: Sessions, requests: seq<Request>, k: nat, act: Act)
    requires Consistent(sessions, requests) && Separate(requests) && k < |requests|
    modifies sessions, requests[k], sessions.all`refcount, sessions.all`freed
    ensures Consistent(sessions, requests)
    ensures old(sessions.all) <= sessions.all && fresh(sessions.all - old(sessions.all))
  {
    hide Sessions.Valid, Sessions.Counted, Stored, D.Dict.Valid, D.Dict.Nodes, D.Dict.Value, D.Ok, D.TreeOf;
    ghost var before, handles, all := Using(requests), sessions.handles, sessions.all;
    EachValid(sessions, requests, k);
    sessions.Known();
    Do(requests[k], act);
    sessions.Known();
    ghost var after := Using(requests);
    forall i | 0 <= i < |requests| ensures Linked(sessions, requests[i]) {
      assert i == k || old(Linked(sessions, requests[i]));
    }
    assert after == before[k := requests[k].session];
    forall d | d in sessions.all ensures sessions.handles[d] == multiset(after)[d] {
      if d !in all {
        assert d !in before;
      }
      OneMoves(before, after, k, handles, sessions.handles, d);
    }
  }

  method Do(r: Request, act: Act)
    requires r.Valid()
    modifies r, r.sessions, r.sessions.all`refcount, r.sessions.all`freed
    ensures r.Valid() && r.sessions.handles - r.Held() == old(r.sessions.handles - r.Held())
    ensures old(r.sessions.all) <= r.sessions.all && fresh(r.sessions.all - old(r.sessions.all))
  {
    hide Sessions.Valid, Sessions.Counted, Stored, D.Dict.Valid, D.Dict.Nodes, D.Dict.Value, D.Ok, D.TreeOf;
    match act {
      case Ask(cookies, newId) =>
        var _ := r.GetSessionDict(cookies, newId);
      case End(empty) =>
        if r.id.Some? {
          r.Finish(empty);
        }
      case Drop(cookies) =>
        r.SessionFree(cookies);
    }
  }

  /** Requests that share a store, each acting any number of times in any order: at the end
      every dictionary there ever was has as many references as the store and the requests
      hold of it, it is freed exactly when they hold none, and so none in use is. */
  method Serve(sessions: Sessions, requests: seq<Request>, acts: seq<(nat, Act)>)
    requires Consistent(sessions, requests) && Separate(requests)
    requires forall i :: 0 <= i < |acts| ==> acts[i].0 < |requests|
    modifies sessions, requests, sessions.all`refcount, sessions.all`freed
    ensures Consistent(sessions, requests) && old(sessions.all) <= sessions.all
    ensures forall d :: d in sessions.all ==>
      && d.refcount == Stored(sessions.store, d) + multiset(Using(requests))[d]
      && (d.freed <==> Stored(sessions.store, d) == 0 && d !in Using(requests))
    ensures forall r :: r in requests && r.session != null ==> r.session in sessions.all && !r.session.freed
  {
    for i := 0 to |acts|
      invariant Consistent(sessions, requests)
      invariant old(sessions.all) <= sessions.all && fresh(sessions.all - old(sessions.all))
    {
      Step(sessions, requests, acts[i].0, acts[i].1);
    }
    forall k | 0 <= k < |requests| ensures requests[k].session != null ==>
      requests[k].session in sessions.all && !requests[k].session.freed {
      EachValid(sessions, requests, k);
      if requests[k].session != null {
        sessions.Alive(requests[k].session);
      }
    }
  }
}
