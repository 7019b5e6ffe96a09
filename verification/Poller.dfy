/** The poller: a list of slots shared by threads that wait for events, call back, and
    watch descriptors again or remove them. */
module Poller {
  import opened Wrappers

  type Fd = nat

  // ---------- the linked list ----------

  // A new slot goes behind the head, which stays where it is.
  function LinkIn(list: seq<Fd>, el: Fd): seq<Fd> {
    if list == [] then [el] else [list[0], el] + list[1..]
  }

  function LinkOut(list: seq<Fd>, fd: Fd): seq<Fd> {
    if list == [] then [] else if list[0] == fd then list[1..] else [list[0]] + LinkOut(list[1..], fd)
  }

  ghost predicate Distinct(list: seq<Fd>) {
    forall i, j :: 0 <= i < j < |list| ==> list[i] != list[j]
  }

  lemma LinkInKeeps(list: seq<Fd>, el: Fd)
    requires Distinct(list) && el !in list
    ensures Distinct(LinkIn(list, el)) && forall x :: x in LinkIn(list, el) <==> x in list || x == el
  {
    var r := LinkIn(list, el);
    if list != [] {
      assert forall i :: 2 <= i < |r| ==> r[i] == list[i - 1];
      forall x ensures x in r <==> x in list || x == el {
        assert list == [list[0]] + list[1..];
      }
    }
  }

  lemma {:induction false} LinkOutKeeps(list: seq<Fd>, fd: Fd)
    requires Distinct(list)
    ensures Distinct(LinkOut(list, fd)) && forall x :: x in LinkOut(list, fd) <==> x in list && x != fd
  {
    if list != [] {
      var rest := list[1..];
      assert list == [list[0]] + rest;
      LinkOutKeeps(rest, fd);
      var out, r := LinkOut(rest, fd), LinkOut(list, fd);
      assert forall k :: 0 <= k < |rest| ==> rest[k] == list[k + 1] != list[0];
      if list[0] != fd {
        assert list[0] !in out && r == [list[0]] + out;
        forall i, j | 0 <= i < j < |r| ensures r[i] != r[j] {
          assert r[j] == out[j - 1];
        }
      }
    }
  }

  // The link a list needs at one of its slots.
  function After(list: seq<Fd>, i: nat): int
    requires i < |list|
  {
    if i + 1 < |list| then list[i + 1] else -1
  }

  // Every slot of a list holds the link it needs.
  ghost predicate LinksHold(next: seq<int>, list: seq<Fd>) {
    && (forall i :: 0 <= i < |list| ==> list[i] < |next|)
    && forall i {:trigger After(list, i)} :: 0 <= i < |list| ==> next[list[i]] == After(list, i)
  }

  // Its link passed to the slot before it takes a slot out of the list.
  lemma UnlinksAt(next: seq<int>, next': seq<int>, list: seq<Fd>, k: nat)
    requires Distinct(list) && LinksHold(next, list) && k < |list|
    requires next' == if k == 0 then next else next[list[k - 1] := After(list, k)]
    ensures LinksHold(next', list[..k] + list[k + 1..])
  {
    var r := list[..k] + list[k + 1..];
    forall i | 0 <= i < |r| ensures r[i] < |next'| && next'[r[i]] == After(r, i) {
      var j := if i < k then i else i + 1;
      assert r[i] == list[j] && next[list[j]] == After(list, j);
      assert i + 1 < |r| ==> r[i + 1] == list[if i + 1 < k then i + 1 else i + 2];
    }
  }

  /** The list as it is linked: every slot stands in a table at the index of its
      descriptor, and holds the index of the next. */
  class SlotList {
    const next: array<int>
    var head: int
    ghost var list: seq<Fd>

    ghost predicate Valid()
      reads this, next
    {
      Distinct(list) && LinksHold(next[..], list) && head == if list == [] then -1 else list[0]
    }

    constructor (maxSlots: nat)
      ensures Valid() && list == [] && fresh(next) && next.Length == maxSlots
    {
      next := new int[maxSlots];
      head := -1;
      list := [];
    }

    // A slot is cleared when it is made: nothing may be linked through it.
    method ClearSlot(fd: Fd)
      requires Valid() && fd < next.Length && fd !in list
      modifies next
      ensures Valid() && next[fd] == -1
    {
      next[fd] := -1;
      assert forall i :: 0 <= i < |list| ==> list[i] != fd;
    }

    method Link(el: Fd)
      requires Valid() && el < next.Length && el !in list && next[el] == -1
      modifies this`head, this`list, next
      ensures Valid() && list == LinkIn(old(list), el)
    {
      LinkInKeeps(list, el);
      ghost var before := list;
      list := LinkIn(list, el);
      if head == -1 {
        head := el;
      } else {
        assert next[before[0]] == After(before, 0);
        next[el] := next[head];
        next[head] := el;
        forall i | 0 <= i < |list| ensures next[list[i]] == After(list, i) {
          if i >= 2 {
            assert list[i] == before[i - 1] && before[i - 1] != el && before[i - 1] != before[0];
            assert After(list, i) == After(before, i - 1);
          } else if i == 1 {
            assert After(list, 1) == After(before, 0);
          }
        }
        forall i | 0 <= i < |list| ensures list[i] < next.Length {
          assert list[i] in before || list[i] == el;
        }
      }
    }

    /** Takes a descriptor off the list. The original looks behind the head without
        checking that there is one. */
    method Unlink(fd: Fd) returns (found: bool)
      requires Valid() && list != []
      modifies this`head, this`list, next
      ensures Valid() && found == (fd in old(list)) && list == LinkOut(old(list), fd)
    {
      hide LinkOut, Distinct;
      LinkOutKeeps(list, fd);
      ghost var before := list;
      if head == fd {
        assert next[before[0]] == After(before, 0);
        LinkOutAt(before, fd, 0);
        assert before[..0] + before[1..] == before[1..];
        UnlinksAt(next[..], next[..], before, 0);
        head := next[head];
        list := LinkOut(list, fd);
        return true;
      }
      var el := head;
      ghost var k := 0;
      while next[el] != -1
        invariant Valid() && list == before && next[..] == old(next[..])
        invariant k < |before| && el == before[k] && forall i :: 0 <= i <= k ==> before[i] != fd
        decreases |before| - k
      {
        assert next[before[k]] == After(before, k);
        if next[el] == fd {
          LinkOutAt(before, fd, k + 1);
          var t := next[el];
          assert next[before[k + 1]] == After(before, k + 1);
          ghost var links := next[..];
          next[el] := next[t];
          UnlinksAt(links, next[..], before, k + 1);
          list := LinkOut(list, fd);
          return true;
        }
        el := next[el];
        k := k + 1;
      }
      assert next[before[k]] == After(before, k);
      LinkOutAbsent(before, fd);
      list := LinkOut(list, fd);
      found := false;
    }
  }

  lemma {:induction false} LinkOutAt(list: seq<Fd>, fd: Fd, i: nat)
    requires i < |list| && list[i] == fd && forall j :: 0 <= j < i ==> list[j] != fd
    ensures LinkOut(list, fd) == list[..i] + list[i + 1..]
  {
    if i > 0 {
      LinkOutAt(list[1..], fd, i - 1);
      assert [list[0]] + list[1..][..i - 1] == list[..i];
    }
  }

  lemma {:induction false} LinkOutAbsent(list: seq<Fd>, fd: Fd)
    requires fd !in list
    ensures LinkOut(list, fd) == list
  {
    if list != [] {
      LinkOutAbsent(list[1..], fd);
    }
  }

  // ---------- threads and the kernel ----------

  const EPOLLIN: bv32 := 0x001
  const EPOLLPRI: bv32 := 0x002
  const EPOLLOUT: bv32 := 0x004
  const EPOLLERR: bv32 := 0x008
  const EPOLLHUP: bv32 := 0x010
  const EPOLLONESHOT: bv32 := 0x4000_0000

  // The events a slot is armed for. Whatever is asked for, an event disarms it.
  function EventsFor(read: bool, write: bool, other: bool): (r: bv32)
    ensures r & EPOLLONESHOT != 0 && r & EPOLLHUP != 0
    ensures (r & EPOLLIN != 0 <==> read) && (r & EPOLLOUT != 0 <==> write)
    ensures (r & EPOLLERR != 0 <==> other) && (r & EPOLLPRI != 0 <==> other)
  {
    var r0 := EPOLLONESHOT | EPOLLHUP;
    var r1 := if read then r0 | EPOLLIN else r0;
    var r2 := if write then r1 | EPOLLOUT else r1;
    if other then r2 | EPOLLERR | EPOLLPRI else r2
  }

  // An event names the slot of a descriptor; a hang-up is not passed to the callback.
  datatype Event = Event(fd: Fd, hup: bool)

  /** What a thread is doing with the descriptor of an event, step by step. A callback, or
      code outside of any, may add a descriptor it has just opened. */
  datatype Doing = Idle | Taking
    | Calling(fd: Fd) | Rearming(fd: Fd) | Deleting(fd: Fd) | Unlinking(fd: Fd) | Closing(fd: Fd)
    | Opened(caller: Option<Fd>, added: Fd) | Filled(caller: Option<Fd>, added: Fd)
    | Linked(caller: Option<Fd>, added: Fd)
  {
    // The descriptor whose event is being handled.
    function Handles(): Option<Fd> {
      match this
      case Idle | Taking => None
      case Calling(fd) => Some(fd)
      case Rearming(fd) => Some(fd)
      case Deleting(fd) => Some(fd)
      case Unlinking(fd) => Some(fd)
      case Closing(fd) => Some(fd)
      case Opened(c, _) => c
      case Filled(c, _) => c
      case Linked(c, _) => c
    }

    // The descriptor being added.
    function Adds(): Option<Fd> {
      if Opened? || Filled? || Linked? then Some(added) else None
    }

    // Whether the callback of a slot is running.
    predicate InCallback(x: Fd) {
      Handles() == Some(x) && (Calling? || Opened? || Filled? || Linked?)
    }
  }

  // Events a thread has got and not yet looked at, and what it is doing.
  datatype Thread = Thread(batch: seq<Event>, doing: Doing) {
    predicate Waits(x: Fd) {
      exists i :: 0 <= i < |batch| && batch[i].fd == x
    }

    // Nobody else may touch the slot.
    predicate Owns(x: Fd) {
      Waits(x) || doing.Handles() == Some(x) || doing.Adds() == Some(x)
    }
  }

  /** The whole system: which descriptors are open and how often each was, whose callback
      each slot holds, the linked list, what the kernel watches and what is armed. */
  datatype State = State(open: set<Fd>, opening: map<Fd, nat>, slot: map<Fd, nat>, list: seq<Fd>,
                         watched: set<Fd>, armed: set<Fd>, threads: seq<Thread>)

  datatype Action = Wait(events: seq<Event>) | Take | Rest
    | Accept(n: Fd) | SlotNew | Link | Watch
    | Return(failed: bool) | Rearm | Delete | Unlink | Close(closes: bool)

  function Openings(s: State, n: Fd): nat { if n in s.opening then s.opening[n] else 0 }

  function Resume(caller: Option<Fd>): Doing {
    if caller.Some? then Calling(caller.value) else Idle
  }

  ghost predicate DistinctEvents(es: seq<Event>) {
    forall i, j :: 0 <= i < j < |es| ==> es[i].fd != es[j].fd
  }

  /** What the environment and the code allow a thread to do next. The kernel delivers an
      event for an armed descriptor only, and hands out closed descriptors only. */
  ghost predicate Enabled(s: State, t: nat, a: Action) {
    t < |s.threads| &&
    var th := s.threads[t];
    match a
    case Wait(es) => th.doing.Idle? && th.batch == [] && DistinctEvents(es) && forall i ::
      0 <= i < |es| ==> es[i].fd in s.armed
    case Take => th.doing.Taking? && th.batch != []
    case Rest => th.doing.Taking? && th.batch == []
    case Accept(n) => (th.doing.Calling? || (th.doing.Idle? && th.batch == [])) && n !in s.open
    case SlotNew => th.doing.Opened?
    case Link => th.doing.Filled?
    case Watch => th.doing.Linked?
    case Return(_) => th.doing.Calling?
    case Rearm => th.doing.Rearming?
    case Delete => th.doing.Deleting?
    case Unlink => th.doing.Unlinking?
    case Close(_) => th.doing.Closing?
  }

  ghost function Do(s: State, t: nat, a: Action): State
    requires Enabled(s, t, a)
  {
    var th := s.threads[t];
    match a
    case Wait(es) => s.(armed := s.armed - (set e | e in es :: e.fd), threads := s.threads[t := Thread(es, Taking)])
    case Take =>
      var e := th.batch[0];
      s.(threads := s.threads[t := Thread(th.batch[1..], if e.hup then Deleting(e.fd) else Calling(e.fd))])
    case Rest => s.(threads := s.threads[t := th.(doing := Idle)])
    case Accept(n) =>
      s.(open := s.open + {n}, opening := s.opening[n := Openings(s, n) + 1],
         threads := s.threads[t := th.(doing := Opened(if th.doing.Calling? then Some(th.doing.fd) else None, n))])
    case SlotNew =>
      s.(slot := s.slot[th.doing.added := Openings(s, th.doing.added)],
         threads := s.threads[t := th.(doing := Filled(th.doing.caller, th.doing.added))])
    case Link =>
      s.(list := LinkIn(s.list, th.doing.added),
          threads := s.threads[t := th.(doing := Linked(th.doing.caller, th.doing.added))])
    case Watch =>
      s.(watched := s.watched + {th.doing.added}, armed := s.armed + {th.doing.added},
         threads := s.threads[t := th.(doing := Resume(th.doing.caller))])
    case Return(failed) =>
      s.(threads := s.threads[t := th.(doing := if failed then Deleting(th.doing.fd) else Rearming(th.doing.fd))])
    case Rearm => s.(armed := s.armed + {th.doing.fd}, threads := s.threads[t := th.(doing := Taking)])
    case Delete =>
      s.(watched := s.watched - {th.doing.fd}, armed := s.armed - {th.doing.fd},
         threads := s.threads[t := th.(doing := Unlinking(th.doing.fd))])
    case Unlink => s.(list := LinkOut(s.list, th.doing.fd),
      threads := s.threads[t := th.(doing := Closing(th.doing.fd))])
    case Close(closes) =>
      s.(open := if closes then s.open - {th.doing.fd} else s.open, threads := s.threads[t := th.(doing := Taking)])
  }

  // ---------- the invariant ----------

  /** What a thread relies on. */
  ghost predicate Sound(s: State, th: Thread) {
    && DistinctEvents(th.batch)
    && (forall x :: th.Owns(x) ==> x in s.open && x !in s.armed)
    && (forall x :: th.Waits(x) ==> x in s.watched && th.doing.Handles() != Some(x) && th.doing.Adds() != Some(x))
    && (th.doing.Idle? || (th.doing.Adds().Some? && th.doing.Handles().None?) ==> th.batch == [])
    && (th.doing.Handles().Some? ==>
          var x := th.doing.Handles().value;
          && (x in s.list <==> !th.doing.Closing?)
          && (x in s.watched <==> !th.doing.Closing? && !th.doing.Unlinking?)
          && th.doing.Adds() != Some(x))
    && (th.doing.Adds().Some? ==>
          var x := th.doing.Adds().value;
          && (x in s.list <==> th.doing.Linked?) && x !in s.watched
          && (!th.doing.Opened? ==> x in s.slot && s.slot[x] == Openings(s, x)))
  }

  ghost predicate Inv(s: State) {
    && Distinct(s.list)
    && (forall x :: x in s.list ==> x in s.open && x in s.slot && s.slot[x] == Openings(s, x))
    && s.watched <= (set x | x in s.list) && s.armed <= s.watched
    && (forall t :: 0 <= t < |s.threads| ==> Sound(s, s.threads[t]))
    && (forall t, u, x :: 0 <= t < u < |s.threads| ==> !(s.threads[t].Owns(x) && s.threads[u].Owns(x)))
  }

  // A thread that owns none of what changed stays sound.
  lemma StaysSound(s: State, s': State, th: Thread)
    requires Sound(s, th)
    requires forall x :: th.Owns(x) ==>
      && x in s'.open && x !in s'.armed && (x in s'.list <==> x in s.list) && (x in s'.watched <==> x in s.watched)
      && (x in s.slot ==> x in s'.slot && s'.slot[x] == s.slot[x]) && Openings(s', x) == Openings(s, x)
    ensures Sound(s', th)
  {
    var h, a := th.doing.Handles(), th.doing.Adds();
    assert h.Some? ==> th.Owns(h.value);
    assert a.Some? ==> th.Owns(a.value);
    assert forall x :: th.Waits(x) ==> th.Owns(x);
  }

  // The descriptor an action is about.
  function Subject(s: State, t: nat, a: Action): Option<Fd>
    requires t < |s.threads|
  {
    match a
    case Wait(_) | Take | Rest | Return(_) => None
    case Accept(n) => Some(n)
    case SlotNew | Link | Watch => s.threads[t].doing.Adds()
    case Rearm | Delete | Unlink | Close(_) => s.threads[t].doing.Handles()
  }

  lemma SubjectOwned(s: State, t: nat, a: Action)
    requires Inv(s) && Enabled(s, t, a) && Subject(s, t, a).Some?
    ensures forall u :: 0 <= u < |s.threads| && u != t ==> !s.threads[u].Owns(Subject(s, t, a).value)
  {
    var x := Subject(s, t, a).value;
    forall u | 0 <= u < |s.threads| && u != t ensures !s.threads[u].Owns(x) {
      if a.Accept? {
        assert x !in s.open && Sound(s, s.threads[u]);
      } else {
        assert s.threads[t].Owns(x);
      }
    }
  }

  // What an action leaves as it is, for every descriptor but its subject.
  lemma OnlySubject(s: State, t: nat, a: Action, x: Fd)
    requires Inv(s) && Enabled(s, t, a) && Subject(s, t, a) != Some(x)
    ensures var s' := Do(s, t, a);
      && (x in s.open <==> x in s'.open) && (x in s'.armed ==> x in s.armed) && (x in s'.list <==> x in s.list)
      && (x in s'.watched <==> x in s.watched) && (x in s.slot ==> x in s'.slot && s'.slot[x] == s.slot[x])
      && Openings(s', x) == Openings(s, x)
  {
    hide Sound, Distinct;
    if a.Link? {
      LinkInKeeps(s.list, s.threads[t].doing.added) by {
        AddsUnlisted(s, t);
      }
    }
    if a.Unlink? {
      LinkOutKeeps(s.list, s.threads[t].doing.fd);
    }
  }

  lemma AddsUnlisted(s: State, t: nat)
    requires Inv(s) && t < |s.threads| && s.threads[t].doing.Filled?
    ensures s.threads[t].doing.added !in s.list && s.threads[t].doing.added in s.open
    ensures s.threads[t].doing.added in s.slot
      && s.slot[s.threads[t].doing.added] == Openings(s, s.threads[t].doing.added)
  {
    var th := s.threads[t];
    assert Sound(s, th) && th.Owns(th.doing.added);
  }

  lemma OthersStaySound(s: State, t: nat, a: Action, u: nat)
    requires Inv(s) && Enabled(s, t, a) && u < |s.threads| && u != t
    ensures Sound(Do(s, t, a), s.threads[u])
  {
    var s', th := Do(s, t, a), s.threads[u];
    assert Sound(s, th);
    if Subject(s, t, a).Some? {
      SubjectOwned(s, t, a);
    }
    forall x | th.Owns(x)
      ensures x in s'.open && x !in s'.armed && (x in s'.list <==> x in s.list) && (x in s'.watched <==> x in s.watched)
      ensures (x in s.slot ==> x in s'.slot && s'.slot[x] == s.slot[x]) && Openings(s', x) == Openings(s, x)
    {
      OnlySubject(s, t, a, x);
    }
    hide Do, Enabled, Sound;
    StaysSound(s, s', th);
  }

  // The acting thread comes to own nothing but its subject and the events it gets.
  lemma OwnsLittleMore(s: State, t: nat, a: Action, x: Fd)
    requires Inv(s) && Enabled(s, t, a) && Do(s, t, a).threads[t].Owns(x)
    ensures s.threads[t].Owns(x) || Subject(s, t, a) == Some(x) || (a.Wait? && x in s.armed)
  {
    var th, th' := s.threads[t], Do(s, t, a).threads[t];
    if th'.Waits(x) {
      var i :| 0 <= i < |th'.batch| && th'.batch[i].fd == x;
      if a.Take? {
        assert th.batch[i + 1].fd == x;
      } else if a.Wait? {
        assert a.events[i].fd in s.armed;
      } else {
        assert th.batch[i].fd == x;
      }
    } else if a.Take? {
      assert th.batch[0].fd == x;
    }
  }

  lemma StaysDisjoint(s: State, t: nat, a: Action, u: nat, x: Fd)
    requires Inv(s) && Enabled(s, t, a) && u < |s.threads| && u != t
    ensures !(Do(s, t, a).threads[t].Owns(x) && s.threads[u].Owns(x))
  {
    if Do(s, t, a).threads[t].Owns(x) && s.threads[u].Owns(x) {
      OwnsLittleMore(s, t, a, x);
      assert Sound(s, s.threads[u]);
      if Subject(s, t, a) == Some(x) {
        SubjectOwned(s, t, a);
      }
    }
  }

  // A step of the descriptor a thread is busy with, which leaves its other events alone.
  ghost predicate SoundDoing(s: State, d: Doing) {
    && (d.Handles().Some? ==>
          var x := d.Handles().value;
          && x in s.open && x !in s.armed
          && (x in s.list <==> !d.Closing?) && (x in s.watched <==> !d.Closing? && !d.Unlinking?)
          && d.Adds() != Some(x))
    && (d.Adds().Some? ==>
          var x := d.Adds().value;
          && x in s.open && x !in s.armed && (x in s.list <==> d.Linked?) && x !in s.watched
          && (!d.Opened? ==> x in s.slot && s.slot[x] == Openings(s, x)))
  }

  lemma DoingSound(s: State, th: Thread)
    requires Sound(s, th)
    ensures SoundDoing(s, th.doing)
  {
    assert th.doing.Handles().Some? ==> th.Owns(th.doing.Handles().value);
    assert th.doing.Adds().Some? ==> th.Owns(th.doing.Adds().value);
  }

  lemma SameBatch(s: State, s': State, th: Thread, th': Thread)
    requires Sound(s, th) && th'.batch == th.batch && SoundDoing(s', th'.doing)
    requires th'.doing.Idle? || (th'.doing.Adds().Some? && th'.doing.Handles().None?) ==> th.batch == []
    requires forall x :: th.Waits(x) ==>
      x in s'.open && x !in s'.armed && x in s'.watched && th'.doing.Handles() != Some(x) && th'.doing.Adds() != Some(x)
    ensures Sound(s', th')
  {
    assert forall x :: th'.Waits(x) <==> th.Waits(x);
    hide SoundDoing;
    forall x | th'.Owns(x) ensures x in s'.open && x !in s'.armed {
      if !th.Waits(x) {
        DoingOwns(s', th'.doing, x);
      }
    }
    DoingHandles(s', th'.doing);
  }

  lemma DoingOwns(s: State, d: Doing, x: Fd)
    requires SoundDoing(s, d) && (d.Handles() == Some(x) || d.Adds() == Some(x))
    ensures x in s.open && x !in s.armed
  {
  }

  lemma DoingHandles(s: State, d: Doing)
    requires SoundDoing(s, d)
    ensures d.Handles().Some? ==>
      var x := d.Handles().value;
      (x in s.list <==> !d.Closing?) && (x in s.watched <==> !d.Closing? && !d.Unlinking?) && d.Adds() != Some(x)
    ensures d.Adds().Some? ==>
      var x := d.Adds().value;
      (x in s.list <==> d.Linked?) && x !in s.watched && (!d.Opened? ==> x in s.slot && s.slot[x] == Openings(s, x))
  {
  }

  // The descriptor a thread is busy with, one step on.
  lemma DoingStaysSound(s: State, t: nat, a: Action)
    requires Inv(s) && Enabled(s, t, a) && !a.Wait? && !a.Take?
    ensures SoundDoing(Do(s, t, a), Do(s, t, a).threads[t].doing)
  {
    var th := s.threads[t];
    assert Sound(s, th);
    DoingSound(s, th);
    hide Sound, Distinct;
    if a.Link? {
      ListIsDistinct(s);
      LinkInKeeps(s.list, th.doing.added);
    } else if a.Unlink? {
      ListIsDistinct(s);
      LinkOutKeeps(s.list, th.doing.fd);
    } else if a.Accept? {
      ClosedIsUnused(s, a.n);
    }
  }

  lemma ListIsDistinct(s: State)
    requires Inv(s)
    ensures Distinct(s.list)
  {
  }

  lemma ClosedIsUnused(s: State, n: Fd)
    requires Inv(s) && n !in s.open
    ensures n !in s.list && n !in s.watched && n !in s.armed
  {
    assert n in s.watched ==> n in s.list;
  }

  lemma SelfStaysSound(s: State, t: nat, a: Action)
    requires Inv(s) && Enabled(s, t, a)
    ensures Sound(Do(s, t, a), Do(s, t, a).threads[t])
  {
    var s', th, th' := Do(s, t, a), s.threads[t], Do(s, t, a).threads[t];
    assert Sound(s, th);
    if a.Wait? {
      WaitSound(s, t, a.events);
    } else if a.Take? {
      TakeSound(s, t);
    } else {
      DoingStaysSound(s, t, a);
      DoingSound(s, th);
      forall x | th.Waits(x)
        ensures x in s'.open && x !in s'.armed && x in s'.watched && th'.doing.Handles() != Some(x)
          && th'.doing.Adds() != Some(x)
      {
        assert th.Owns(x);
        OnlySubject(s, t, a, x);
      }
      hide Sound, SoundDoing;
      BatchesSame(s, t, a);
      SameBatch(s, s', th, th');
    }
  }

  lemma BatchesSame(s: State, t: nat, a: Action)
    requires Inv(s) && Enabled(s, t, a) && !a.Wait? && !a.Take?
    ensures var th, th' := s.threads[t], Do(s, t, a).threads[t];
      && th'.batch == th.batch
      && (th'.doing.Idle? || (th'.doing.Adds().Some? && th'.doing.Handles().None?) ==> th.batch == [])
  {
    assert Sound(s, s.threads[t]);
  }

  lemma WaitSound(s: State, t: nat, es: seq<Event>)
    requires Inv(s) && Enabled(s, t, Wait(es))
    ensures Sound(Do(s, t, Wait(es)), Thread(es, Taking))
  {
    var s', th' := Do(s, t, Wait(es)), Thread(es, Taking);
    hide Sound;
    forall x | th'.Waits(x) ensures x in s'.open && x !in s'.armed && x in s'.watched {
      var i :| 0 <= i < |es| && es[i].fd == x;
      assert es[i].fd in s.armed && es[i] in es;
      assert x in s.list;
    }
    AllWaiting(s', th');
  }

  lemma AllWaiting(s: State, th: Thread)
    requires th.doing.Taking? && DistinctEvents(th.batch) && forall x ::
      th.Waits(x) ==> x in s.open && x !in s.armed && x in s.watched
    ensures Sound(s, th)
  {
  }

  lemma TakeSound(s: State, t: nat)
    requires Inv(s) && Enabled(s, t, Take)
    ensures Sound(Do(s, t, Take), Do(s, t, Take).threads[t])
  {
    var s', th, th' := Do(s, t, Take), s.threads[t], Do(s, t, Take).threads[t];
    var fd := th.batch[0].fd;
    assert Sound(s, th) && th.Waits(fd) && th.Owns(fd);
    assert fd in s.list;
    forall x | th'.Waits(x) ensures th.Waits(x) && th.Owns(x) && x != fd {
      var i :| 0 <= i < |th'.batch| && th'.batch[i].fd == x;
      assert th.batch[i + 1].fd == x;
    }
    assert DistinctEvents(th'.batch) by {
      assert forall i :: 0 <= i < |th'.batch| ==> th'.batch[i] == th.batch[i + 1];
    }
  }

  // ---------- runs ----------

  lemma Preserves(s: State, t: nat, a: Action)
    requires Inv(s) && Enabled(s, t, a)
    ensures Inv(Do(s, t, a))
  {
    var s' := Do(s, t, a);
    ListStays(s, t, a);
    hide Distinct, Sound;
    forall u | 0 <= u < |s'.threads| ensures Sound(s', s'.threads[u]) {
      if u == t {
        SelfStaysSound(s, t, a);
      } else {
        OthersStaySound(s, t, a, u);
      }
    }
    forall u, v, x | 0 <= u < v < |s'.threads| ensures !(s'.threads[u].Owns(x) && s'.threads[v].Owns(x)) {
      if u == t {
        StaysDisjoint(s, t, a, v, x);
      } else if v == t {
        StaysDisjoint(s, t, a, u, x);
      }
    }
  }

  lemma ListStays(s: State, t: nat, a: Action)
    requires Inv(s) && Enabled(s, t, a)
    ensures var s' := Do(s, t, a);
      && Distinct(s'.list) && |s'.threads| == |s.threads|
      && (forall u :: 0 <= u < |s.threads| && u != t ==> s'.threads[u] == s.threads[u])
      && (forall x :: x in s'.list ==> x in s'.open && x in s'.slot && s'.slot[x] == Openings(s', x))
      && s'.watched <= (set x | x in s'.list) && s'.armed <= s'.watched
  {
    var s', th := Do(s, t, a), s.threads[t];
    assert Sound(s, th);
    DoingSound(s, th);
    hide Sound, Distinct;
    if a.Link? {
      AddsUnlisted(s, t);
      LinkInKeeps(s.list, th.doing.added);
    } else if a.Unlink? {
      LinkOutKeeps(s.list, th.doing.fd);
    } else if a.Accept? {
      ClosedIsUnused(s, a.n);
    }
  }

  datatype Move = Move(thread: nat, action: Action)

  // Nothing open, nothing linked, and threads outside of the loop.
  function Start(threads: nat): State {
    State({}, map[], map[], [], {}, {}, seq(threads, i => Thread([], Idle)))
  }

  ghost predicate Legal(s: State, ms: seq<Move>)
    decreases |ms|
  {
    ms != [] ==> Enabled(s, ms[0].thread, ms[0].action) && Legal(Do(s, ms[0].thread, ms[0].action), ms[1..])
  }

  ghost function RunFrom(s: State, ms: seq<Move>): State
    requires Legal(s, ms)
    decreases |ms|
  {
    if ms == [] then s else RunFrom(Do(s, ms[0].thread, ms[0].action), ms[1..])
  }

  lemma StartSound(threads: nat)
    ensures Inv(Start(threads))
  {
    var s := Start(threads);
    forall t | 0 <= t < threads ensures Sound(s, s.threads[t]) && forall x :: !s.threads[t].Owns(x) {
    }
  }

  lemma {:induction false} RunSound(s: State, ms: seq<Move>)
    requires Inv(s) && Legal(s, ms)
    ensures Inv(RunFrom(s, ms))
    decreases |ms|
  {
    hide Inv, Enabled, Do;
    if ms != [] {
      Preserves(s, ms[0].thread, ms[0].action);
      RunSound(Do(s, ms[0].thread, ms[0].action), ms[1..]);
    }
  }

  /** Over all interleavings: a descriptor's callback runs in at most one thread, and it is
      the callback set for the present opening of the descriptor. */
  lemma OneCallback(threads: nat, ms: seq<Move>, t: nat, x: Fd)
    requires Legal(Start(threads), ms)
    requires var s := RunFrom(Start(threads), ms); t < |s.threads| && s.threads[t].doing.InCallback(x)
    ensures var s := RunFrom(Start(threads), ms);
      && (forall u :: 0 <= u < |s.threads| && u != t ==> !s.threads[u].doing.InCallback(x))
      && x in s.open && x in s.slot && s.slot[x] == Openings(s, x)
  {
    StartSound(threads);
    RunSound(Start(threads), ms);
    var s := RunFrom(Start(threads), ms);
    hide Legal, RunFrom, Distinct;
    assert Sound(s, s.threads[t]) && s.threads[t].Owns(x);
    forall u | 0 <= u < |s.threads| && u != t ensures !s.threads[u].doing.InCallback(x) {
      assert s.threads[u].doing.InCallback(x) ==> s.threads[u].Owns(x);
    }
  }

  /** A slot is never made anew while it is linked, watched or armed, nor while any thread
      has an event of it or runs its callback. */
  lemma SlotReuseSafe(threads: nat, ms: seq<Move>, t: nat)
    requires Legal(Start(threads), ms) && Enabled(RunFrom(Start(threads), ms), t, SlotNew)
    ensures var s := RunFrom(Start(threads), ms);
      var n := s.threads[t].doing.added;
      && n !in s.list && n !in s.watched && n !in s.armed
      && (forall u :: 0 <= u < |s.threads| ==> !s.threads[u].Waits(n) && s.threads[u].doing.Handles() != Some(n))
      && (forall u :: 0 <= u < |s.threads| && u != t ==> s.threads[u].doing.Adds() != Some(n))
  {
    StartSound(threads);
    RunSound(Start(threads), ms);
    var s := RunFrom(Start(threads), ms);
    hide Legal, RunFrom, Distinct;
    var n := s.threads[t].doing.added;
    assert Sound(s, s.threads[t]) && s.threads[t].Owns(n);
    forall u | 0 <= u < |s.threads| && u != t ensures !s.threads[u].Owns(n) {
    }
  }

  /** A removal finds its descriptor on the list, which therefore is not empty: the missing
      check for an empty list does no harm. Linked slots have distinct descriptors. */
  lemma RemovalFinds(threads: nat, ms: seq<Move>, t: nat)
    requires Legal(Start(threads), ms) && Enabled(RunFrom(Start(threads), ms), t, Unlink)
    ensures var s := RunFrom(Start(threads), ms);
      s.list != [] && s.threads[t].doing.fd in s.list && Distinct(s.list)
  {
    StartSound(threads);
    RunSound(Start(threads), ms);
    var s := RunFrom(Start(threads), ms);
    hide Legal, RunFrom;
    assert Sound(s, s.threads[t]);
  }

  // ---------- what an event leads to ----------

  // How many of some moves are a thread's own.
  function Own(ms: seq<Move>, t: nat): nat {
    if ms == [] then 0 else (if ms[0].thread == t then 1 else 0) + Own(ms[1..], t)
  }

  // What others do leaves a thread alone, and what it owns.
  lemma OtherMoves(s: State, t: nat, u: nat, a: Action, x: Fd)
    requires Inv(s) && Enabled(s, u, a) && u != t && t < |s.threads| && s.threads[t].Owns(x)
    ensures var s' := Do(s, u, a);
      && |s'.threads| == |s.threads| && s'.threads[t] == s.threads[t]
      && x in s'.open && x !in s'.armed && (x in s'.list <==> x in s.list) && (x in s'.watched <==> x in s.watched)
      && (x in s.slot ==> x in s'.slot && s'.slot[x] == s.slot[x])
  {
    assert Sound(s, s.threads[t]);
    if Subject(s, u, a).Some? {
      SubjectOwned(s, u, a);
    }
    OnlySubject(s, u, a, x);
    ListStays(s, u, a);
  }

  // A descriptor whose callback went well, until its thread goes on.
  ghost predicate GoesOn(s: State, t: nat, x: Fd, opening: nat) {
    && t < |s.threads| && s.threads[t].doing == Rearming(x)
    && x in s.open && x in s.list && x in s.watched && x in s.slot && s.slot[x] == opening
  }

  lemma {:induction false} GoesOnRun(s: State, t: nat, x: Fd, opening: nat, ms: seq<Move>)
    requires Inv(s) && GoesOn(s, t, x, opening) && Legal(s, ms)
    requires ms != [] && ms[|ms| - 1].thread == t && Own(ms, t) == 1
    ensures var s' := RunFrom(s, ms);
      && x in s'.armed && x in s'.watched && x in s'.list && x in s'.open
      && x in s'.slot && s'.slot[x] == opening
    decreases |ms|
  {
    hide Inv, Sound, Distinct;
    var m, rest := ms[0], ms[1..];
    assert s.threads[t].Owns(x);
    Preserves(s, m.thread, m.action);
    if m.thread == t {
      if rest != [] {
        LastIsOwn(rest, t);
      }
    } else {
      OtherMoves(s, t, m.thread, m.action, x);
      GoesOnRun(Do(s, m.thread, m.action), t, x, opening, rest);
    }
  }

  lemma {:induction false} LastIsOwn(ms: seq<Move>, t: nat)
    requires ms != [] && ms[|ms| - 1].thread == t
    ensures Own(ms, t) > 0
  {
    if |ms| > 1 {
      LastIsOwn(ms[1..], t);
    }
  }

  /** After a callback that did not fail, and whatever others do, the next step of its thread
      leaves the descriptor armed: it is still open, linked and watched, with the same slot. */
  lemma SuccessRearms(threads: nat, before: seq<Move>, t: nat, x: Fd, ms: seq<Move>)
    requires Legal(Start(threads), before)
    requires var s := RunFrom(Start(threads), before); t < |s.threads| && s.threads[t].doing == Calling(x)
    requires Legal(Do(RunFrom(Start(threads), before), t, Return(false)), ms)
    requires ms != [] && ms[|ms| - 1].thread == t && Own(ms, t) == 1
    ensures var s, s' := RunFrom(Start(threads), before),
        RunFrom(Do(RunFrom(Start(threads), before), t, Return(false)), ms);
      && x in s'.armed && x in s'.watched && x in s'.list && x in s'.open
      && x in s.slot && x in s'.slot && s'.slot[x] == s.slot[x]
  {
    StartSound(threads);
    RunSound(Start(threads), before);
    var s := RunFrom(Start(threads), before);
    hide Legal, RunFrom, Distinct;
    assert Sound(s, s.threads[t]) && s.threads[t].Owns(x);
    Preserves(s, t, Return(false));
    GoesOnRun(Do(s, t, Return(false)), t, x, s.slot[x], ms);
  }

  // A descriptor on its way out: how many steps its thread has still to take.
  function StepsLeft(d: Doing): nat {
    match d
    case Deleting(_) => 3
    case Unlinking(_) => 2
    case Closing(_) => 1
    case _ => 0
  }

  lemma {:induction false} LeavesRun(s: State, t: nat, x: Fd, ms: seq<Move>)
    requires Inv(s) && t < |s.threads| && s.threads[t].doing.Handles() == Some(x) && StepsLeft(s.threads[t].doing) > 0
    requires Legal(s, ms) && ms != [] && ms[|ms| - 1].thread == t && Own(ms, t) == StepsLeft(s.threads[t].doing)
    ensures var s' := RunFrom(s, ms);
      x !in s'.watched && x !in s'.armed && x !in s'.list
    decreases |ms|
  {
    hide Inv, Sound, Distinct;
    var m, rest := ms[0], ms[1..];
    var s' := Do(s, m.thread, m.action);
    assert s.threads[t].Owns(x);
    Preserves(s, m.thread, m.action);
    if m.thread == t {
      if s.threads[t].doing.Closing? {
        if rest != [] {
          LastIsOwn(rest, t);
        }
        Gone(s, t, x);
      } else {
        LastStays(ms);
        LeavesRun(s', t, x, rest);
      }
    } else {
      OtherMoves(s, t, m.thread, m.action, x);
      LastStays(ms);
      LeavesRun(s', t, x, rest);
    }
  }

  lemma LastStays(ms: seq<Move>)
    ensures |ms| > 1 ==> ms[1..] != [] && ms[1..][|ms[1..]| - 1] == ms[|ms| - 1]
  {
  }

  lemma Gone(s: State, t: nat, x: Fd)
    requires Inv(s) && t < |s.threads| && s.threads[t].doing == Closing(x)
    ensures x !in s.watched && x !in s.armed && x !in s.list
  {
    assert Sound(s, s.threads[t]) && s.threads[t].Owns(x);
  }

  /** After a callback that failed, or a hang-up, and whatever others do, the next three steps of
      the thread leave the descriptor unwatched, unarmed and unlinked. */
  lemma FailureRemoves(threads: nat, before: seq<Move>, t: nat, x: Fd, a: Action, ms: seq<Move>)
    requires Legal(Start(threads), before)
    requires var s := RunFrom(Start(threads), before);
      && Enabled(s, t, a)
      && if a.Take? then s.threads[t].batch[0] == Event(x, true)
         else a == Return(true) && s.threads[t].doing == Calling(x)
    requires Legal(Do(RunFrom(Start(threads), before), t, a), ms)
    requires ms != [] && ms[|ms| - 1].thread == t && Own(ms, t) == 3
    ensures var s' := RunFrom(Do(RunFrom(Start(threads), before), t, a), ms);
      x !in s'.watched && x !in s'.armed && x !in s'.list
  {
    StartSound(threads);
    RunSound(Start(threads), before);
    var s := RunFrom(Start(threads), before);
    hide Legal, RunFrom, Distinct, Inv;
    Preserves(s, t, a);
    LeavesRun(Do(s, t, a), t, x, ms);
  }

  /** An event that is no hang-up is what its callback runs for. */
  lemma EventCalls(s: State, t: nat, x: Fd)
    requires Enabled(s, t, Take) && s.threads[t].batch[0] == Event(x, false)
    ensures Do(s, t, Take).threads[t].doing.InCallback(x)
  {
  }

  // ---------- nothing is lost ----------

  ghost predicate Owned(s: State, x: Fd) {
    exists t :: 0 <= t < |s.threads| && s.threads[t].Owns(x)
  }

  // What is watched will have its next event; what is linked is watched, or about to be or not to be.
  ghost predicate NoneLost(s: State) {
    && (forall x :: x in s.watched ==> x in s.armed || Owned(s, x))
    && (forall x :: x in s.list ==> x in s.watched || Owned(s, x))
  }

  lemma KeepsOwned(s: State, t: nat, a: Action, x: Fd)
    requires Inv(s) && Enabled(s, t, a) && Owned(s, x)
    ensures var s' := Do(s, t, a);
      Owned(s', x) || (x in s'.armed && x in s'.watched) || (x !in s'.watched && x !in s'.list)
  {
    var s' := Do(s, t, a);
    var u :| 0 <= u < |s.threads| && s.threads[u].Owns(x);
    ListStays(s, t, a);
    if u != t {
      assert s'.threads[u].Owns(x);
    } else {
      OwnGoesOn(s, t, a, x);
    }
  }

  lemma OwnGoesOn(s: State, t: nat, a: Action, x: Fd)
    requires Inv(s) && Enabled(s, t, a) && s.threads[t].Owns(x)
    ensures var s' := Do(s, t, a);
      Owned(s', x) || (x in s'.armed && x in s'.watched) || (x !in s'.watched && x !in s'.list)
  {
    var s', th, th' := Do(s, t, a), s.threads[t], Do(s, t, a).threads[t];
    assert Sound(s, th);
    if th.Waits(x) {
      WaitsOn(s, t, a, x);
      assert th'.Owns(x);
    } else if th'.doing.Handles() == Some(x) || th'.doing.Adds() == Some(x) {
      assert th'.Owns(x);
    } else {
      hide Sound;
      StepsOff(s, t, a, x);
    }
  }

  lemma WaitsOn(s: State, t: nat, a: Action, x: Fd)
    requires Inv(s) && Enabled(s, t, a) && s.threads[t].Waits(x)
    ensures Do(s, t, a).threads[t].Owns(x)
  {
    var th, th' := s.threads[t], Do(s, t, a).threads[t];
    var i :| 0 <= i < |th.batch| && th.batch[i].fd == x;
    assert Sound(s, th);
    if a.Take? {
      if i > 0 {
        assert th'.batch[i - 1].fd == x;
      }
    } else {
      assert th'.batch[i].fd == x;
    }
  }

  lemma StepsOff(s: State, t: nat, a: Action, x: Fd)
    requires Inv(s) && Enabled(s, t, a)
    requires s.threads[t].doing.Handles() == Some(x) || s.threads[t].doing.Adds() == Some(x)
    requires var d' := Do(s, t, a).threads[t].doing; d'.Handles() != Some(x) && d'.Adds() != Some(x)
    ensures var s' := Do(s, t, a); (x in s'.armed && x in s'.watched) || (x !in s'.watched && x !in s'.list)
  {
    assert Sound(s, s.threads[t]) && s.threads[t].Owns(x);
    DoingSound(s, s.threads[t]);
    hide Sound, Distinct;
  }

  lemma KeepsNoneLost(s: State, t: nat, a: Action)
    requires Inv(s) && NoneLost(s) && Enabled(s, t, a)
    ensures NoneLost(Do(s, t, a))
  {
    var s' := Do(s, t, a);
    hide Inv, Sound, Distinct;
    forall x | x in s'.watched || x in s'.list
      ensures x in s'.watched ==> x in s'.armed || Owned(s', x)
      ensures x in s'.list ==> x in s'.watched || Owned(s', x)
    {
      if Owned(s, x) {
        KeepsOwned(s, t, a, x);
      } else {
        NewlyOwned(s, t, a, x);
      }
    }
  }

  // A descriptor that nobody owned.
  lemma NewlyOwned(s: State, t: nat, a: Action, x: Fd)
    requires Inv(s) && NoneLost(s) && Enabled(s, t, a) && !Owned(s, x)
    ensures var s' := Do(s, t, a);
      (x in s'.watched ==> x in s'.armed || Owned(s', x)) && (x in s'.list ==> x in s'.watched || Owned(s', x))
  {
    var s', th, th' := Do(s, t, a), s.threads[t], Do(s, t, a).threads[t];
    assert !th.Owns(x);
    if a.Wait? && exists e :: e in a.events && e.fd == x {
      var e :| e in a.events && e.fd == x;
      var i :| 0 <= i < |a.events| && a.events[i] == e;
      assert th'.batch[i].fd == x;
      assert th'.Owns(x);
    } else if a.Accept? && a.n == x {
      assert th'.Owns(x);
    } else {
      OnlySubject(s, t, a, x);
      if x in s.armed {
        Undisturbed(s, t, a, x);
      }
    }
  }

  lemma Undisturbed(s: State, t: nat, a: Action, x: Fd)
    requires Inv(s) && Enabled(s, t, a) && x in s.armed && !s.threads[t].Owns(x)
    requires !(a.Wait? && exists e :: e in a.events && e.fd == x)
    ensures x in Do(s, t, a).armed
  {
  }

  lemma {:induction false} RunNoneLost(s: State, ms: seq<Move>)
    requires Inv(s) && NoneLost(s) && Legal(s, ms)
    ensures NoneLost(RunFrom(s, ms))
    decreases |ms|
  {
    hide Inv, Enabled, Do, NoneLost;
    if ms != [] {
      Preserves(s, ms[0].thread, ms[0].action);
      KeepsNoneLost(s, ms[0].thread, ms[0].action);
      RunNoneLost(Do(s, ms[0].thread, ms[0].action), ms[1..]);
    }
  }

  /** In every state of every run a watched descriptor is armed, or in the hands of a thread:
      none is lost. And a linked one is watched, or being added or removed. */
  lemma NoneIsLost(threads: nat, ms: seq<Move>, x: Fd)
    requires Legal(Start(threads), ms)
    ensures var s := RunFrom(Start(threads), ms);
      && (x in s.watched ==> x in s.armed || exists t :: 0 <= t < |s.threads| && s.threads[t].Owns(x))
      && (x in s.list ==> x in s.watched || exists t :: 0 <= t < |s.threads| && s.threads[t].Owns(x))
  {
    StartSound(threads);
    RunNoneLost(Start(threads), ms);
  }
}
