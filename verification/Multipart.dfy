/** A file in a multipart body: its bytes are written out as they arrive, except for
    those that may turn out to be the delimiter behind it. */
module Multipart {
  import opened Wrappers
  import opened Bytes
  import opened RequestText

  const DASH: byte := 0x2D

  // What a file ends with: the new line, and a carriage return before it if there is one.
  function Boundary(token: bytes): bytes { [CR, LF, DASH, DASH] + token }

  function Delimiter(token: bytes): bytes { [LF, DASH, DASH] + token }

  ghost predicate OneLineToken(token: bytes) {
    forall i :: 0 <= i < |token| ==> token[i] != CR && token[i] != LF
  }

  // A sequence stands at a position of another.
  predicate Occurs(d: bytes, s: bytes, i: nat) {
    i + |d| <= |s| && s[i..i + |d|] == d
  }

  ghost predicate Free(d: bytes, s: bytes) {
    forall i: nat :: !Occurs(d, s, i)
  }

  // The end of s from i on is the beginning of d, but not all of it.
  predicate Begins(d: bytes, s: bytes, i: nat) {
    i < |s| && |s| - i < |d| && s[i..] == d[..|s| - i]
  }

  lemma OccursAt(d: bytes, s: bytes, i: nat)
    ensures Occurs(d, s, i) <==> i + |d| <= |s| && forall k :: 0 <= k < |d| ==> s[i + k] == d[k]
  {
    if i + |d| <= |s| {
      if forall k :: 0 <= k < |d| ==> s[i + k] == d[k] {
        assert s[i..i + |d|] == d;
      }
      if s[i..i + |d|] == d {
        forall k | 0 <= k < |d| ensures s[i + k] == d[k] {
          assert s[i..i + |d|][k] == s[i + k];
        }
      }
    }
  }

  lemma BeginsAt(d: bytes, s: bytes, i: nat)
    ensures Begins(d, s, i) <==> i < |s| && |s| - i < |d| && forall k :: 0 <= k < |s| - i ==> s[i + k] == d[k]
  {
    if i < |s| && |s| - i < |d| {
      if forall k :: 0 <= k < |s| - i ==> s[i + k] == d[k] {
        assert s[i..] == d[..|s| - i];
      }
      if s[i..] == d[..|s| - i] {
        forall k | 0 <= k < |s| - i ensures s[i + k] == d[k] {
          assert s[i..][k] == s[i + k];
        }
      }
    }
  }

  // One byte more: an occurrence or a beginning in s + [c] comes from one in s.
  lemma Grows(d: bytes, s: bytes, c: byte, i: nat)
    requires |d| > 1
    ensures i < |s| ==> (Begins(d, s + [c], i) <==> Begins(d, s, i) && |s| - i + 1 < |d| && c == d[|s| - i])
    ensures i == |s| ==> (Begins(d, s + [c], i) <==> c == d[0])
    ensures Occurs(d, s + [c], i) <==> Occurs(d, s, i) || (Begins(d, s, i) && |s| - i + 1 == |d| && c == d[|s| - i])
  {
    var t := s + [c];
    BeginsAt(d, s, i);
    BeginsAt(d, t, i);
    OccursAt(d, s, i);
    OccursAt(d, t, i);
    if i < |s| {
      assert t[i + (|s| - i)] == c;
    }
  }

  lemma BoundaryBytes(token: bytes)
    requires OneLineToken(token)
    ensures var b, d := Boundary(token), Delimiter(token);
      && |b| == |d| + 1 && b[1..] == d && |d| >= 3 && b[0] == CR && b[1] == LF
      && forall k :: 1 <= k < |d| ==> d[k] == b[k + 1] && d[k] != CR && d[k] != LF
  {
  }

  // ---------- the scanner's state ----------

  predicate EndsInCR(s: bytes) { s != [] && s[|s| - 1] == CR }

  /** What the two positions say about the bytes seen so far: no delimiter yet, and how
      much of one stands at the end, with or without a carriage return before it. */
  ghost predicate Scanned(token: bytes, s: bytes, pos: nat, startpos: nat) {
    var d := Delimiter(token);
    && Free(d, s) && pos <= |d| && startpos <= 1
    && (pos <= 1 ==> (forall i: nat :: !Begins(d, s, i)) && (EndsInCR(s) <==> pos == 1))
    && (pos == 1 ==> startpos == 0)
    && (pos >= 2 ==>
          && pos - 1 <= |s|
          && (forall i: nat :: Begins(d, s, i) <==> i == |s| - (pos - 1))
          && (startpos == 0 <==> EndsInCR(s[..|s| - (pos - 1)])))
  }

  // How many bytes at the end are held back.
  function Held(pos: nat, startpos: nat): nat {
    if pos <= startpos then 0 else pos - startpos
  }

  // A byte that cannot continue what stands at the end.
  ghost predicate Fresh(token: bytes, s: bytes, c: byte) {
    var d := Delimiter(token);
    && Free(d, s)
    && (forall i: nat :: Begins(d, s, i) ==> c != d[|s| - i])
    && (EndsInCR(s) ==> c != LF)
  }

  lemma Restarts(token: bytes, s: bytes, pos: nat, startpos: nat, c: byte)
    requires OneLineToken(token) && Scanned(token, s, pos, startpos) && (pos == 0 || c != Boundary(token)[pos])
    ensures Fresh(token, s, c)
  {
    BoundaryBytes(token);
    var d := Delimiter(token);
    hide Boundary, Delimiter, Begins, Occurs, Free;
    forall i: nat | Begins(d, s, i) ensures c != d[|s| - i] {
      BeginsAt(d, s, i);
      assert pos >= 2 && i == |s| - (pos - 1);
    }
    if pos >= 2 {
      BeginsAt(d, s, |s| - (pos - 1));
      assert s[|s| - 1] == d[pos - 2];
    }
  }

  lemma FirstByte(token: bytes, s: bytes, c: byte)
    requires OneLineToken(token) && Fresh(token, s, c)
    ensures c == LF ==> Scanned(token, s + [c], 2, 1)
    ensures c == CR ==> Scanned(token, s + [c], 1, 0)
    ensures c != LF && c != CR ==> Scanned(token, s + [c], 0, 0)
  {
    BoundaryBytes(token);
    var d, t := Delimiter(token), s + [c];
    assert d[0] == LF;
    hide Boundary, Delimiter, Begins, Occurs;
    forall i: nat ensures !Occurs(d, t, i) && (Begins(d, t, i) <==> i == |s| && c == LF) {
      Grows(d, s, c, i);
      BeginsAt(d, s, i);
      BeginsAt(d, t, i);
    }
    assert t[..|s|] == s;
  }

  lemma NextMatch(token: bytes, s: bytes, pos: nat, startpos: nat, c: byte)
    requires OneLineToken(token) && Scanned(token, s, pos, startpos) && 0 < pos && c == Boundary(token)[pos]
    ensures pos < |Delimiter(token)| ==> Scanned(token, s + [c], pos + 1, startpos)
    ensures pos == |Delimiter(token)| ==> Ended(token, s + [c], startpos)
  {
    BoundaryBytes(token);
    var d, t := Delimiter(token), s + [c];
    assert d[0] == LF;
    hide Boundary, Delimiter, Begins, Occurs;
    var n := |s| - (pos - 1);
    forall i: nat
      ensures Occurs(d, t, i) <==> pos == |d| && i == n
      ensures pos < |d| ==> (Begins(d, t, i) <==> i == n)
    {
      Grows(d, s, c, i);
      BeginsAt(d, s, i);
      BeginsAt(d, t, i);
    }
    assert pos == 1 ==> t[..n] == s && n == |s|;
    assert pos >= 2 ==> t[..n] == s[..n];
  }

  // The bytes seen end with the first delimiter.
  ghost predicate Ended(token: bytes, s: bytes, startpos: nat) {
    var d := Delimiter(token);
    && |d| <= |s| && startpos <= 1
    && (forall i: nat :: Occurs(d, s, i) <==> i == |s| - |d|)
    && (startpos == 0 <==> EndsInCR(s[..|s| - |d|]))
  }

  /** The file in front of a delimiter. */
  function FileOf(s: bytes): bytes {
    if EndsInCR(s) then s[..|s| - 1] else s
  }

  // ---------- the size that is counted ----------

  /** How much of the boundary stands at the end of some bytes: a new line counts as the
      second byte of it, with or without the carriage return. */
  ghost function Matched(token: bytes, s: bytes): (m: nat)
    ensures m < |Boundary(token)|
  {
    if exists i: nat :: Begins(Delimiter(token), s, i) then
      var i: nat :| Begins(Delimiter(token), s, i); |s| - i + 1
    else if EndsInCR(s) then 1 else 0
  }

  // A byte shows that what stands at the end is no delimiter.
  ghost predicate Breaks(token: bytes, s: bytes, c: byte) {
    Matched(token, s) > 0 && c != Boundary(token)[Matched(token, s)]
  }

  /** What the bytes of a file are charged: one each, and once more every beginning of the
      boundary that came to nothing, whether its carriage return was there or not. */
  ghost function Charge(token: bytes, s: bytes): (total: nat) {
    if s == [] then 0
    else
      var front, c := s[..|s| - 1], s[|s| - 1];
      Charge(token, front) + 1 + if Breaks(token, front, c) then Matched(token, front) else 0
  }

  // A byte at which the file is found too big for the room that the limit and the files
  // before it leave, which may be less than none: it breaks a beginning off, or is itself to be written.
  ghost predicate RefusedAt(token: bytes, room: int, s: bytes, c: byte) {
    if Breaks(token, s, c) then
      Charge(token, s) > room || (c != CR && c != LF && Charge(token, s) + Matched(token, s) > room)
    else
      Matched(token, s) == 0 && c != CR && c != LF && Charge(token, s) > room
  }

  /** A file is refused: at some byte in front of the end of the first delimiter. */
  ghost predicate Refused(token: bytes, room: int, s: bytes) {
    exists k: nat :: k < |s| && RefusedIn(token, room, s, k)
  }

  ghost predicate RefusedIn(token: bytes, room: int, s: bytes, k: nat)
    requires k < |s|
  {
    Free(Delimiter(token), s[..k]) && RefusedAt(token, room, s[..k], s[k])
  }

  lemma MatchedIs(token: bytes, s: bytes, pos: nat, startpos: nat)
    requires Scanned(token, s, pos, startpos)
    ensures Matched(token, s) == pos
  {
    hide Begins, Delimiter, Boundary;
    if pos >= 2 {
      assert Begins(Delimiter(token), s, |s| - (pos - 1));
    }
  }

  lemma ChargeNext(token: bytes, s: bytes, c: byte)
    ensures Charge(token, s + [c]) == Charge(token, s) + 1 + if Breaks(token, s, c) then Matched(token, s) else 0
  {
    assert (s + [c])[..|s + [c]| - 1] == s;
  }

  lemma RefusedNext(token: bytes, room: int, s: bytes, c: byte)
    ensures Refused(token, room, s + [c]) <==>
      Refused(token, room, s) || (Free(Delimiter(token), s) && RefusedAt(token, room, s, c))
  {
    hide RefusedAt, Free, Delimiter;
    var t := s + [c];
    forall k: nat | k < |s| ensures RefusedIn(token, room, t, k) <==> RefusedIn(token, room, s, k) {
      assert t[..k] == s[..k];
    }
    assert t[..|s|] == s;
    assert RefusedIn(token, room, t, |s|) <==> Free(Delimiter(token), s) && RefusedAt(token, room, s, c);
  }

  lemma RefusedMore(token: bytes, room: int, s: bytes, more: bytes)
    requires Refused(token, room, s)
    ensures Refused(token, room, s + more)
  {
    hide RefusedAt, Free, Delimiter;
    var k: nat :| k < |s| && RefusedIn(token, room, s, k);
    assert (s + more)[..k] == s[..k];
    assert RefusedIn(token, room, s + more, k);
  }

  // Behind the end of a delimiter nothing is refused.
  lemma RefusedBefore(token: bytes, room: int, s: bytes, more: bytes)
    requires !Refused(token, room, s) && !Free(Delimiter(token), s)
    ensures !Refused(token, room, s + more)
  {
    hide RefusedAt, Delimiter;
    var d, t := Delimiter(token), s + more;
    var i: nat :| Occurs(d, s, i);
    forall k: nat | k < |t| ensures !RefusedIn(token, room, t, k) {
      if k < |s| {
        assert t[..k] == s[..k];
        assert !RefusedIn(token, room, s, k);
      } else {
        OccursAt(d, s, i);
        OccursAt(d, t[..k], i);
      }
    }
  }

  /** The invariant of the scan: the bytes seen are those written out and those held back,
      which may be the beginning of a delimiter. After a fall back, the next byte is known
      not to have continued it. */
  ghost predicate Scanning(token: bytes, s: bytes, pos: nat, startpos: nat, total: nat, out: bytes, retry: Option<byte>)
    ensures Scanning(token, s, pos, startpos, total, out, retry) ==> pos < |Boundary(token)|
  {
    && OneLineToken(token)
    && (if retry.Some? then pos == 0 && Fresh(token, s, retry.value) && Breaks(token, s, retry.value)
        else Scanned(token, s, pos, startpos))
    && Held(pos, startpos) <= |s| && out == s[..|s| - Held(pos, startpos)]
    && total == Charge(token, s) + (if retry.Some? then Matched(token, s) else 0)
  }

  // The positions with which a byte is compared: a new line need not follow a carriage return.
  function PosFor(pos: nat, c: byte): nat { if pos == 0 && c == LF then 1 else pos }

  function StartFor(pos: nat, startpos: nat, c: byte): nat {
    if pos == 0 then (if c == LF then 1 else 0) else startpos
  }

  lemma ByteMatches(token: bytes, s: bytes, pos: nat, startpos: nat, total: nat, out: bytes, retry: Option<byte>,
      c: byte)
    requires Scanning(token, s, pos, startpos, total, out, retry) && (retry.Some? ==> retry.value == c)
    requires PosFor(pos, c) < |Boundary(token)| && c == Boundary(token)[PosFor(pos, c)]
    ensures var pos', start' := PosFor(pos, c) + 1, StartFor(pos, startpos, c);
      && (pos' < |Boundary(token)| ==> Scanning(token, s + [c], pos', start', total + 1, out, None))
      && (pos' == |Boundary(token)| ==> Delivered(token, s + [c], out))
    ensures !Breaks(token, s, c) || retry.Some?
    ensures retry.None? ==> total == Charge(token, s)
    ensures PosFor(pos, c) + 1 == |Boundary(token)| ==> retry.None?
  {
    hide Boundary, Delimiter, Begins, Occurs, Free, Matched, Charge, Fresh;
    BoundaryBytes(token);
    ChargeNext(token, s, c);
    if retry.None? {
      MatchedIs(token, s, pos, startpos);
    }
    if pos == 0 {
      if retry.None? {
        Restarts(token, s, pos, startpos, c);
      }
      FirstByte(token, s, c);
    } else {
      NextMatch(token, s, pos, startpos, c);
    }
    hide Scanned;
    assert (s + [c])[..|s| - Held(pos, startpos)] == s[..|s| - Held(pos, startpos)];
    if pos + 1 == |Boundary(token)| {
      assert (s + [c])[..|s| + 1 - |Delimiter(token)|] == s[..|s| + 1 - |Delimiter(token)|];
    }
  }

  // A byte that is no part of a delimiter: what was held back has to be written out, and
  // the byte is looked at again; or it is written itself.
  lemma ByteDiffers(token: bytes, s: bytes, pos: nat, startpos: nat, total: nat, out: bytes, retry: Option<byte>,
      c: byte)
    requires Scanning(token, s, pos, startpos, total, out, retry) && (retry.Some? ==> retry.value == c)
    requires PosFor(pos, c) < |Boundary(token)| && c != Boundary(token)[PosFor(pos, c)]
    ensures PosFor(pos, c) == pos && (pos > 0 ==> startpos <= pos)
    ensures pos > 0 ==> Scanning(token, s, 0, 0, total + pos, out + Boundary(token)[startpos..pos], Some(c))
    ensures pos == 0 ==> Scanning(token, s + [c], 0, 0, total + 1, out + [c], None)
    ensures pos > 0 ==> Breaks(token, s, c) && Matched(token, s) == pos
  {
    hide Boundary, Delimiter, Begins, Occurs, Free, Matched, Charge, Fresh;
    BoundaryBytes(token);
    ChargeNext(token, s, c);
    if retry.None? {
      MatchedIs(token, s, pos, startpos);
    }
    if pos > 0 {
      Restarts(token, s, pos, startpos, c);
      HeldBytes(token, s, pos, startpos);
    } else {
      if retry.None? {
        Restarts(token, s, pos, startpos, c);
      }
      FirstByte(token, s, c);
    }
    assert s[..|s|] == s && (s + [c])[..|s| + 1] == s + [c];
  }

  // The bytes held back are the front of the boundary.
  lemma HeldBytes(token: bytes, s: bytes, pos: nat, startpos: nat)
    requires OneLineToken(token) && Scanned(token, s, pos, startpos) && 0 < pos
    ensures Held(pos, startpos) <= |s| && startpos <= pos <= |Boundary(token)|
    ensures s[..|s| - Held(pos, startpos)] + Boundary(token)[startpos..pos] == s
  {
    BoundaryBytes(token);
    var d := Delimiter(token);
    var n := |s| - (pos - 1);
    if pos >= 2 {
      assert Begins(d, s, n);
      assert s[n..] == Boundary(token)[1..pos];
      assert startpos == 0 ==> s[n - 1] == CR && Boundary(token)[0..pos] == [CR] + Boundary(token)[1..pos];
    } else {
      assert s[|s| - 1] == CR && Boundary(token)[0..1] == [CR];
    }
  }

  // The comparison of a byte and the size so far decide on a refusal.
  lemma Judged(token: bytes, room: int, s: bytes, pos: nat, startpos: nat, total: nat, out: bytes,
      retry: Option<byte>, c: byte)
    requires Scanning(token, s, pos, startpos, total, out, retry)
    requires retry.Some? ==> retry.value == c && Charge(token, s) <= room
    ensures PosFor(pos, c) < |Boundary(token)|
    ensures c == Boundary(token)[PosFor(pos, c)] ==> !RefusedAt(token, room, s, c)
    ensures c != Boundary(token)[PosFor(pos, c)] && total > room ==> RefusedAt(token, room, s, c)
    ensures c != Boundary(token)[PosFor(pos, c)] && total <= room ==>
      if pos == 0 then !RefusedAt(token, room, s, c) else Charge(token, s) <= room
  {
    BoundaryBytes(token);
    hide Charge, Matched, Fresh, Delimiter;
    if retry.None? {
      MatchedIs(token, s, pos, startpos);
    }
  }

  /** The file is what stands before the first delimiter, with which the bytes seen end. */
  ghost predicate Delivered(token: bytes, s: bytes, file: bytes) {
    var d := Delimiter(token);
    var cut := |s| - |d|;
    0 <= cut && file == FileOf(s[..cut]) && forall i: nat :: Occurs(d, s, i) <==> i == cut
  }

  lemma IsFree(token: bytes, s: bytes, pos: nat, startpos: nat, total: nat, out: bytes, retry: Option<byte>)
    requires Scanning(token, s, pos, startpos, total, out, retry)
    ensures Free(Delimiter(token), s)
  {
  }

  lemma StopsHere(token: bytes, room: int, s: bytes, file: bytes, more: bytes)
    requires Delivered(token, s, file) && !Refused(token, room, s)
    ensures !Refused(token, room, s + more)
  {
    assert Occurs(Delimiter(token), s, |s| - |Delimiter(token)|);
    RefusedBefore(token, room, s, more);
  }

  // The scan goes on: nothing has been refused.
  ghost predicate Going(token: bytes, room: int, s: bytes, pos: nat, startpos: nat, total: nat, out: bytes,
      retry: Option<byte>)
    ensures Going(token, room, s, pos, startpos, total, out, retry) ==> pos < |Boundary(token)|
  {
    && Scanning(token, s, pos, startpos, total, out, retry) && !Refused(token, room, s)
    && (retry.Some? ==> Charge(token, s) <= room)
  }

  lemma GoesOn(token: bytes, room: int, s: bytes, pos: nat, startpos: nat, total: nat, out: bytes,
      retry: Option<byte>, c: byte, more: bytes)
    requires Going(token, room, s, pos, startpos, total, out, retry) && (retry.Some? ==> retry.value == c)
    requires PosFor(pos, c) < |Boundary(token)| && c == Boundary(token)[PosFor(pos, c)]
    ensures var pos', start' := PosFor(pos, c) + 1, StartFor(pos, startpos, c);
      && (pos' < |Boundary(token)| ==> Going(token, room, s + [c], pos', start', total + 1, out, None))
      && (pos' == |Boundary(token)| ==>
            Delivered(token, s + [c], out) && !Refused(token, room, s + [c] + more) && total == Charge(token, s))
  {
    hide Scanning, Refused, RefusedAt, Charge, Delivered, Boundary, Free;
    Judged(token, room, s, pos, startpos, total, out, retry, c);
    RefusedNext(token, room, s, c);
    ByteMatches(token, s, pos, startpos, total, out, retry, c);
    if PosFor(pos, c) + 1 == |Boundary(token)| {
      StopsHere(token, room, s + [c], out, more);
    }
  }

  lemma FallsBack(token: bytes, room: int, s: bytes, pos: nat, startpos: nat, total: nat, out: bytes,
      retry: Option<byte>, c: byte, more: bytes)
    requires Going(token, room, s, pos, startpos, total, out, retry) && (retry.Some? ==> retry.value == c)
    requires PosFor(pos, c) < |Boundary(token)| && c != Boundary(token)[PosFor(pos, c)]
    ensures PosFor(pos, c) == pos && (pos > 0 ==> startpos <= pos)
    ensures total > room ==> Refused(token, room, s + [c] + more)
    ensures total <= room && pos > 0 ==>
      Going(token, room, s, 0, 0, total + pos, out + Boundary(token)[startpos..pos], Some(c))
    ensures total <= room && pos == 0 ==> Going(token, room, s + [c], 0, 0, total + 1, out + [c], None)
  {
    hide Scanning, Refused, RefusedAt, Charge, Boundary, Free;
    Judged(token, room, s, pos, startpos, total, out, retry, c);
    RefusedNext(token, room, s, c);
    ByteDiffers(token, s, pos, startpos, total, out, retry, c);
    if total > room {
      IsFree(token, s, pos, startpos, total, out, retry);
      RefusedMore(token, room, s + [c], more);
    }
  }

  // ---------- the scanner ----------

  const TMP_SIZE := 1024

  /** The scan of one file of a body. The size runs on from file to file: it starts from
      what the files before left. */
  class Scanner {
    const token: bytes
    const maxFileSize: nat
    ghost const base: nat
    var pos: nat
    var startpos: nat
    var total: nat
    var file: bytes
    var closed: bool
    ghost var fed: bytes

    // What is not held back as a possible delimiter is in the file.
    ghost predicate Valid() reads this {
      !closed && base <= total && Going(token, Room(), fed, pos, startpos, total - base, file, None)
    }

    // What is left for this file.
    ghost function Room(): int { maxFileSize - base }

    constructor (token: bytes, maxFileSize: nat, base: nat)
      requires OneLineToken(token)
      ensures Valid() && fed == [] && this.token == token && this.maxFileSize == maxFileSize
      ensures this.base == total == base
    {
      this.token, this.maxFileSize, this.base := token, maxFileSize, base;
      pos, startpos, total, file, closed, fed := 0, 0, base, [], false, [];
    }

    // One byte into the buffer, which is written out when it is full.
    method PutByte(tmp: array<byte>, tmppos: nat, c: byte) returns (n: nat)
      requires tmp.Length == TMP_SIZE && tmppos < TMP_SIZE
      modifies this`file, tmp
      ensures n < TMP_SIZE && file + tmp[..n] == old(file + tmp[..tmppos]) + [c]
    {
      tmp[tmppos] := c;
      n := tmppos + 1;
      assert tmp[..n] == old(tmp[..tmppos]) + [c];
      if n == TMP_SIZE {
        file := file + tmp[..n];
        n := 0;
      }
    }

    /** Scans some input. Either all of it is taken and nothing of a delimiter has been
        written to the file; or it is taken up to the end of the first delimiter, and the
        file is exactly what stands before that; or the file is refused for its size. */
    method Parse(data: bytes) returns (code: int, used: nat)
      requires Valid()
      modifies this
      ensures used <= |data| && (code == OCS_NEED_MORE_DATA || code == OCS_INTERNAL_ERROR)
      ensures code == OCS_INTERNAL_ERROR <==> Refused(token, Room(), old(fed) + data)
      ensures code == OCS_NEED_MORE_DATA ==> fed == old(fed) + data[..used]
      ensures code == OCS_NEED_MORE_DATA && !closed ==> Valid() && used == |data|
      ensures code == OCS_NEED_MORE_DATA && closed ==> Delivered(token, fed, file) && !Refused(token, Room(), fed)
      ensures code == OCS_NEED_MORE_DATA && closed ==> fed != [] && total == base + Charge(token, fed[..|fed| - 1])
    {
      hide Going, Delivered, Boundary, Refused;
      var boundary := Boundary(token);
      var tmp := new byte[TMP_SIZE];
      var tmppos: nat := 0;
      var i := 0;
      ghost var retry: Option<byte>, out := None, file;
      assert data[..0] == [] && fed + [] == fed && file + tmp[..0] == file;
      while i < |data|
        invariant i <= |data| && tmppos < TMP_SIZE && !closed && base <= total && boundary == Boundary(token)
        invariant fed == old(fed) + data[..i] && out == file + tmp[..tmppos]
        invariant Going(token, Room(), fed, pos, startpos, total - base, out, retry)
          && (retry.Some? ==> i < |data| && retry.value == data[i])
        decreases |data| - i, pos
      {
        var p := data[i];
        assert data[..i + 1] == data[..i] + [p];
        ghost var pos0, startpos0 := pos, startpos;
        if pos == 0 {
          if p == LF {
            pos := 1;
            startpos := 1;
          } else {
            startpos := 0;
          }
        }
        LongBoundary(token);
        ghost var more := data[i + 1..];
        Onward(old(fed), data, i);
        if p == boundary[pos] {
          GoesOn(token, Room(), fed, pos0, startpos0, total - base, out, retry, p, more);
          pos := pos + 1;
          fed := fed + [p];
          if pos == |boundary| {
            pos, startpos := 0, 0;
            file := file + tmp[..tmppos];
            closed := true;
            NotYet(token, Room(), fed, more);
            assert fed[..|fed| - 1] == old(fed) + data[..i];
            return OCS_NEED_MORE_DATA, i + 1;
          }
        } else {
          FallsBack(token, Room(), fed, pos0, startpos0, total - base, out, retry, p, more);
          if total > maxFileSize {
            return OCS_INTERNAL_ERROR, i;
          }
          if pos != 0 {
            total := total + pos;
            file := file + tmp[..tmppos];
            tmppos := 0;
            file := file + boundary[startpos..pos];
            out := file;
            assert file + tmp[..0] == file;
            pos, startpos := 0, 0;
            retry := Some(p);
            continue;
          }
          tmppos := PutByte(tmp, tmppos, p);
          out := out + [p];
          fed := fed + [p];
        }
        retry := None;
        total := total + 1;
        i := i + 1;
      }
      file := file + tmp[..tmppos];
      assert data[..i] == data;
      StillGoing(token, Room(), fed, pos, startpos, total - base, file);
      return OCS_NEED_MORE_DATA, |data|;
    }
  }

  lemma Onward(before: bytes, data: bytes, i: nat)
    requires i < |data|
    ensures before + data[..i] + [data[i]] + data[i + 1..] == before + data
  {
    assert data == data[..i] + [data[i]] + data[i + 1..];
  }

  lemma NotYet(token: bytes, room: int, s: bytes, more: bytes)
    requires !Refused(token, room, s + more)
    ensures !Refused(token, room, s)
  {
    if Refused(token, room, s) {
      RefusedMore(token, room, s, more);
    }
  }

  lemma StillGoing(token: bytes, room: int, s: bytes, pos: nat, startpos: nat, total: nat, out: bytes)
    requires Going(token, room, s, pos, startpos, total, out, None)
    ensures !Refused(token, room, s) && Free(Delimiter(token), s)
  {
  }

  lemma LongBoundary(token: bytes)
    ensures |Boundary(token)| > 3
  {
  }

  // ---------- whole streams ----------

  ghost predicate FirstAt(d: bytes, s: bytes, cut: nat) {
    Occurs(d, s, cut) && forall i: nat :: i < cut ==> !Occurs(d, s, i)
  }

  lemma DeliveredFirst(token: bytes, s: bytes, more: bytes, file: bytes)
    requires Delivered(token, s, file)
    ensures var d := Delimiter(token);
      FirstAt(d, s + more, |s| - |d|) && file == FileOf((s + more)[..|s| - |d|])
  {
    var d, t := Delimiter(token), s + more;
    var cut := |s| - |d|;
    hide Delimiter;
    forall i: nat | i <= cut ensures Occurs(d, t, i) <==> Occurs(d, s, i) {
      assert t[i..i + |d|] == s[i..i + |d|];
    }
    assert Occurs(d, s, cut);
    assert t[..cut] == s[..cut];
  }

  /** Input in chunks, until the file ends. For every token without a new line and every
      chunking, unless the file is refused: it is closed if and only if the stream has a
      delimiter, and then it holds exactly what stands before the first one, and parsing
      goes on right behind it. */
  method ParseAll(sc: Scanner, chunks: seq<bytes>) returns (code: int, ghost taken: nat)
    requires sc.Valid() && sc.fed == []
    modifies sc
    ensures var s, d := Flatten(chunks), Delimiter(sc.token);
      && (code == OCS_INTERNAL_ERROR || code == OCS_NEED_MORE_DATA)
      && (code == OCS_INTERNAL_ERROR <==> Refused(sc.token, sc.Room(), s))
      && (code == OCS_NEED_MORE_DATA ==> (sc.closed <==> exists i: nat :: Occurs(d, s, i)))
      && (code == OCS_NEED_MORE_DATA && sc.closed ==>
            && |d| <= taken <= |s| && FirstAt(d, s, taken - |d|) && sc.file == FileOf(s[..taken - |d|])
            && sc.total == sc.base + Charge(sc.token, s[..taken - 1]))
  {
    hide Going, Delivered, Delimiter, Refused, Charge, Occurs, FileOf;
    for i := 0 to |chunks|
      invariant sc.Valid() && sc.fed == Flatten(chunks[..i])
    {
      ghost var more := FlattenRest(chunks, i + 1);
      assert chunks[..i + 1][..i] == chunks[..i];
      ghost var before := sc.fed;
      assert Flatten(chunks[..i + 1]) == before + chunks[i];
      var used;
      code, used := sc.Parse(chunks[i]);
      if code != OCS_NEED_MORE_DATA {
        RefusedMore(sc.token, sc.Room(), before + chunks[i], more);
        return code, 0;
      }
      if sc.closed {
        taken := |sc.fed|;
        ghost var behind := chunks[i][used..] + more;
        assert chunks[i] == chunks[i][..used] + chunks[i][used..];
        Assoc(before, chunks[i][..used], chunks[i][used..]);
        Assoc(sc.fed, chunks[i][used..], more);
        DeliveredFirst(sc.token, sc.fed, behind, sc.file);
        StopsHere(sc.token, sc.Room(), sc.fed, sc.file, behind);
        DeliveredSize(sc.token, sc.fed, sc.file);
        assert Flatten(chunks) == sc.fed + behind;
        FrontOf(sc.fed, behind, taken - 1);
        return;
      }
    }
    assert chunks[..|chunks|] == chunks;
    StillGoing(sc.token, sc.Room(), sc.fed, sc.pos, sc.startpos, sc.total - sc.base, sc.file);
    return OCS_NEED_MORE_DATA, 0;
  }

  lemma FrontOf(s: bytes, more: bytes, n: nat)
    requires n <= |s|
    ensures (s + more)[..n] == s[..n]
  {
  }

  lemma DeliveredSize(token: bytes, s: bytes, file: bytes)
    requires Delivered(token, s, file)
    ensures |Delimiter(token)| <= |s|
  {
  }

  // ---------- what a file is charged ----------

  lemma EndedOccurs(token: bytes, s: bytes, startpos: nat)
    requires Ended(token, s, startpos)
    ensures !Free(Delimiter(token), s)
  {
    assert Occurs(Delimiter(token), s, |s| - |Delimiter(token)|);
  }

  // What the positions of the scan are at the end of some bytes, and the size counted.
  lemma {:induction false} Charged(token: bytes, s: bytes) returns (pos: nat, startpos: nat)
    requires OneLineToken(token) && Free(Delimiter(token), s)
    ensures Scanned(token, s, pos, startpos) && (pos == 0 || startpos + 1 <= pos)
    ensures |s| <= Charge(token, s) && Charge(token, s) + 2 * Held(pos, startpos) <= 3 * |s|
  {
    if s == [] {
      return 0, 0;
    }
    var d, front, c := Delimiter(token), s[..|s| - 1], s[|s| - 1];
    assert s == front + [c];
    forall i: nat ensures !Occurs(d, front, i) {
      OccursAt(d, front, i);
      OccursAt(d, s, i);
    }
    var pos', start' := Charged(token, front);
    MatchedIs(token, front, pos', start');
    BoundaryBytes(token);
    if pos' > 0 && c == Boundary(token)[pos'] {
      NextMatch(token, front, pos', start', c);
      if pos' == |d| {
        EndedOccurs(token, s, start');
        assert false;
      }
      return pos' + 1, start';
    }
    Restarts(token, front, pos', start', c);
    FirstByte(token, front, c);
    pos, startpos := if c == LF then 2 else if c == CR then 1 else 0, if c == LF then 1 else 0;
  }

  /** A file is charged at least its size, and at most three times that. */
  lemma ChargeBounds(token: bytes, s: bytes)
    requires OneLineToken(token) && Free(Delimiter(token), s)
    ensures |s| <= Charge(token, s) && Charge(token, s) + Matched(token, s) <= 3 * |s|
  {
    var pos, startpos := Charged(token, s);
    MatchedIs(token, s, pos, startpos);
  }

  // In the delimiter behind a file nothing breaks off.
  lemma {:induction false} AlongBoundary(token: bytes, room: int, file: bytes, j: nat)
    requires OneLineToken(token) && Free(Delimiter(token), file) && 0 < j <= |Delimiter(token)|
    ensures Scanned(token, file + Boundary(token)[..j], j, 0)
    ensures Refused(token, room, file + Boundary(token)[..j]) <==>
      Refused(token, room, file) || (Matched(token, file) > 0 && Charge(token, file) > room)
    ensures Charge(token, file + Boundary(token)[..j]) == Charge(token, file) + Matched(token, file) + j
  {
    var b := Boundary(token);
    BoundaryBytes(token);
    var s, c := file + b[..j - 1], b[j - 1];
    assert s + [c] == file + b[..j];
    RefusedNext(token, room, s, c);
    ChargeNext(token, s, c);
    if j == 1 {
      assert s == file;
      var pos, startpos := Charged(token, file);
      MatchedIs(token, file, pos, startpos);
      Restarts(token, file, pos, startpos, c);
      FirstByte(token, file, c);
    } else {
      AlongBoundary(token, room, file, j - 1);
      MatchedIs(token, s, j - 1, 0);
      NextMatch(token, s, j - 1, 0, c);
    }
  }

  /** A file with its delimiter behind it is refused exactly if it is on its way, or if it ends
      in the beginning of a delimiter and is charged more than the room: whatever follows. */
  lemma RefusedFile(token: bytes, room: int, file: bytes, more: bytes)
    requires OneLineToken(token) && Free(Delimiter(token), file)
    ensures Refused(token, room, file + Boundary(token) + more) <==>
      Refused(token, room, file) || (Matched(token, file) > 0 && Charge(token, file) > room)
  {
    hide Boundary, Delimiter, Begins, Matched, Charge, Refused;
    var b, n := Boundary(token), |Delimiter(token)|;
    BoundaryBytes(token);
    AlongBoundary(token, room, file, n);
    var s := file + b[..n];
    MatchedIs(token, s, n, 0);
    RefusedNext(token, room, s, b[n]);
    var t := file + b;
    assert s + [b[n]] == t;
    NextMatch(token, s, n, 0, b[n]);
    assert Occurs(Delimiter(token), t, |t| - n);
    if Refused(token, room, t) {
      RefusedMore(token, room, t, more);
    } else {
      RefusedBefore(token, room, t, more);
    }
  }

  /** A file of more than one byte above the room there is for it is always refused. */
  lemma OversizedRefused(token: bytes, room: int, file: bytes, more: bytes)
    requires OneLineToken(token) && Free(Delimiter(token), file) && file != [] && |file| > room + 1
    ensures Refused(token, room, file + Boundary(token) + more)
  {
    RefusedFile(token, room, file, more);
    ChargeBounds(token, file);
    if Matched(token, file) == 0 {
      var front, c := file[..|file| - 1], file[|file| - 1];
      assert file == front + [c];
      LastByte(token, front, c);
      ChargeBounds(token, front);
      RefusedNext(token, room, front, c);
    }
  }

  // A byte behind which nothing of a delimiter stands.
  lemma LastByte(token: bytes, s: bytes, c: byte)
    requires OneLineToken(token) && Free(Delimiter(token), s + [c])
    ensures Free(Delimiter(token), s)
    ensures Matched(token, s + [c]) == 0 ==> c != CR && c != LF && (Matched(token, s) == 0 || Breaks(token, s, c))
  {
    var d := Delimiter(token);
    BoundaryBytes(token);
    forall i: nat ensures !Occurs(d, s, i) {
      OccursAt(d, s, i);
      OccursAt(d, s + [c], i);
    }
    var pos, startpos := Charged(token, s);
    MatchedIs(token, s, pos, startpos);
    if pos > 0 && c == Boundary(token)[pos] {
      NextMatch(token, s, pos, startpos, c);
      if pos == |d| {
        EndedOccurs(token, s + [c], startpos);
        assert false;
      }
      MatchedIs(token, s + [c], pos + 1, startpos);
    } else {
      Restarts(token, s, pos, startpos, c);
      FirstByte(token, s, c);
      MatchedIs(token, s + [c], if c == LF then 2 else if c == CR then 1 else 0, if c == LF then 1 else 0);
    }
  }

  ghost predicate Plain(s: bytes) {
    forall i :: 0 <= i < |s| ==> s[i] != CR && s[i] != LF
  }

  lemma {:induction false} PlainCharge(token: bytes, room: int, s: bytes)
    requires OneLineToken(token) && Plain(s)
    ensures Free(Delimiter(token), s) && Matched(token, s) == 0 && Charge(token, s) == |s|
    ensures Refused(token, room, s) <==> s != [] && |s| > room + 1
  {
    var d := Delimiter(token);
    assert d[0] == LF;
    hide Delimiter;
    forall i: nat ensures !Occurs(d, s, i) && !Begins(d, s, i) {
      OccursAt(d, s, i);
      BeginsAt(d, s, i);
    }
    if s != [] {
      var front, c := s[..|s| - 1], s[|s| - 1];
      assert s == front + [c];
      PlainCharge(token, room, front);
      RefusedNext(token, room, front, c);
    }
  }

  /** A file without a new line is refused if and only if it has more than one byte above the
      room there is for it. */
  lemma PlainFileRefused(token: bytes, room: int, file: bytes, more: bytes)
    requires OneLineToken(token) && Plain(file)
    ensures Refused(token, room, file + Boundary(token) + more) <==> file != [] && |file| > room + 1
  {
    PlainCharge(token, room, file);
    RefusedFile(token, room, file, more);
  }

  // A new line begins a delimiter, and breaks off what was begun.
  lemma NewLine(token: bytes, s: bytes)
    requires OneLineToken(token) && Free(Delimiter(token), s) && !EndsInCR(s)
    ensures Free(Delimiter(token), s + [LF]) && Matched(token, s + [LF]) == 2
    ensures Charge(token, s + [LF]) == Charge(token, s) + 1 + Matched(token, s)
  {
    var pos, startpos := Charged(token, s);
    MatchedIs(token, s, pos, startpos);
    BoundaryBytes(token);
    Restarts(token, s, pos, startpos, LF);
    FirstByte(token, s, LF);
    MatchedIs(token, s + [LF], 2, 1);
    ChargeNext(token, s, LF);
  }

  /** Three new lines are refused where three bytes are allowed. */
  lemma NewLinesRefused(token: bytes, more: bytes)
    requires OneLineToken(token)
    ensures Refused(token, 3, [LF, LF, LF] + Boundary(token) + more)
    ensures !Refused(token, 3, [0, 0, 0] + Boundary(token) + more)
    ensures !Refused(token, 0, [0] + Boundary(token) + more)
  {
    hide Delimiter, Boundary, Matched, Charge, Refused, RefusedAt, Free, OneLineToken;
    var s := [LF, LF];
    NewLinesFree(token);
    ThirdRefused(token, s);
    RefusedNext(token, 3, s, LF);
    assert s + [LF] == [LF, LF, LF];
    RefusedFile(token, 3, [LF, LF, LF], more);
    PlainFileRefused(token, 3, [0, 0, 0], more);
    PlainFileRefused(token, 0, [0], more);
  }

  lemma NewLinesFree(token: bytes)
    requires OneLineToken(token)
    ensures Free(Delimiter(token), [LF, LF, LF])
  {
    var d, s := Delimiter(token), [LF, LF, LF];
    BoundaryBytes(token);
    assert d[1] == DASH;
    hide Delimiter, Boundary;
    forall i: nat ensures !Occurs(d, s, i) {
      OccursAt(d, s, i);
      assert i + 1 < 3 ==> s[i + 1] == LF;
    }
  }

  lemma ThirdRefused(token: bytes, s: bytes)
    requires OneLineToken(token) && s == [LF, LF]
    ensures Free(Delimiter(token), s) && RefusedAt(token, 3, s, LF)
  {
    assert Boundary(token)[2] == DASH;
    PlainCharge(token, 3, []);
    hide Delimiter, Boundary, Matched, Charge, Free, OneLineToken;
    NewLine(token, []);
    NewLine(token, [LF]);
    assert [] + [LF] == [LF] && [LF] + [LF] == s;
  }

  // ---------- the files of a body ----------

  /** What a file with its delimiter leaves for the files behind it: its charge, once more what
      stood at its end, and the delimiter but for its last byte. */
  ghost function Left(token: bytes, file: bytes): nat {
    Charge(token, file) + Matched(token, file) + |Delimiter(token)|
  }

  ghost function Before(token: bytes, files: seq<bytes>): nat {
    if files == [] then 0 else Before(token, files[..|files| - 1]) + Left(token, files[|files| - 1])
  }

  lemma LeftBehind(token: bytes, file: bytes)
    requires OneLineToken(token) && Free(Delimiter(token), file)
    ensures Charge(token, file + Boundary(token)[..|Boundary(token)| - 1]) == Left(token, file)
  {
    BoundaryBytes(token);
    AlongBoundary(token, 0, file, |Delimiter(token)|);
  }

  /** The file at a place of a body is refused: what those before it left counts too. */
  ghost predicate FileRefused(token: bytes, maxFileSize: nat, files: seq<bytes>, k: nat)
    requires k < |files|
  {
    var room := maxFileSize - Before(token, files[..k]);
    Refused(token, room, files[k]) || (Matched(token, files[k]) > 0 && Charge(token, files[k]) > room)
  }

  // What arrives for a file: its bytes, its delimiter, and whatever is behind.
  ghost predicate Carried(token: bytes, file: bytes, stream: bytes) {
    Free(Delimiter(token), file) && file + Boundary(token) <= stream
  }

  // The first delimiter behind a file is the one that ends it.
  lemma FileBefore(token: bytes, file: bytes, stream: bytes, cut: nat)
    requires OneLineToken(token) && Carried(token, file, stream) && FirstAt(Delimiter(token), stream, cut)
    ensures cut == |file| + 1 && FileOf(stream[..cut]) == file
    ensures stream[..cut + |Delimiter(token)| - 1] == file + Boundary(token)[..|Boundary(token)| - 1]
  {
    var d, b := Delimiter(token), Boundary(token);
    BoundaryBytes(token);
    FirstInFile(token, file);
    var t := file + b;
    assert stream[..|t|] == t;
    OccursAt(d, stream, |file| + 1);
    OccursAt(d, t, |file| + 1);
    if cut < |file| + 1 {
      OccursAt(d, stream, cut);
      OccursAt(d, t, cut);
      assert false;
    }
    assert stream[..cut] == file + [CR];
    assert stream[..cut + |d| - 1] == t[..|t| - 1];
  }

  lemma FirstInFile(token: bytes, file: bytes)
    requires OneLineToken(token) && Free(Delimiter(token), file)
    ensures forall i: nat :: Occurs(Delimiter(token), file + Boundary(token), i) <==> i == |file| + 1
  {
    var b, d, n := Boundary(token), Delimiter(token), |Delimiter(token)|;
    BoundaryBytes(token);
    AlongBoundary(token, 0, file, n);
    var s := file + b[..n];
    assert s + [b[n]] == file + b;
    NextMatch(token, s, n, 0, b[n]);
  }

  /** All files of a body, each in any chunks. They are stored exactly, unless one of them is
      refused, which the files before it have their part in. */
  method ParseFiles(token: bytes, maxFileSize: nat, parts: seq<seq<bytes>>, ghost files: seq<bytes>)
      returns (code: int, stored: seq<bytes>)
    requires OneLineToken(token) && |files| == |parts|
    requires forall k :: 0 <= k < |parts| ==> Carried(token, files[k], Flatten(parts[k]))
    ensures code == OCS_INTERNAL_ERROR || code == OCS_NEED_MORE_DATA
    ensures code == OCS_INTERNAL_ERROR <==> exists k :: 0 <= k < |files| && FileRefused(token, maxFileSize, files, k)
    ensures code == OCS_NEED_MORE_DATA ==> stored == files
  {
    hide Delimiter, Boundary, FileRefused, Carried, Before, Left, Scanner.Valid, FirstAt;
    stored := [];
    var total: nat := 0;
    assert files[..0] == [];
    NothingBefore(token);
    for k := 0 to |parts|
      invariant stored == files[..k] && total == Before(token, files[..k])
      invariant forall i :: 0 <= i < k ==> !FileRefused(token, maxFileSize, files, i)
    {
      assert files[..k + 1][..k] == files[..k];
      var sc := new Scanner(token, maxFileSize, total);
      ghost var taken;
      code, taken := ParseAll(sc, parts[k]);
      FileParsed(token, maxFileSize, files, k, Flatten(parts[k]), code, taken);
      if code != OCS_NEED_MORE_DATA {
        return;
      }
      stored, total := stored + [sc.file], sc.total;
    }
    code := OCS_NEED_MORE_DATA;
    assert files[..|files|] == files;
  }

  lemma NothingBefore(token: bytes)
    ensures Before(token, []) == 0
  {
  }

  lemma FileParsed(token: bytes, maxFileSize: nat, files: seq<bytes>, k: nat, stream: bytes, code: int, taken: nat)
    requires OneLineToken(token) && k < |files| && Carried(token, files[k], stream)
    requires code == OCS_INTERNAL_ERROR || code == OCS_NEED_MORE_DATA
    requires code == OCS_INTERNAL_ERROR <==> Refused(token, maxFileSize - Before(token, files[..k]), stream)
    ensures code == OCS_INTERNAL_ERROR <==> FileRefused(token, maxFileSize, files, k)
    ensures exists i: nat :: Occurs(Delimiter(token), stream, i)
    ensures |Delimiter(token)| <= taken <= |stream| && FirstAt(Delimiter(token), stream, taken - |Delimiter(token)|) ==>
      && FileOf(stream[..taken - |Delimiter(token)|]) == files[k] && taken > 0
      && Before(token, files[..k]) + Charge(token, stream[..taken - 1]) == Before(token, files[..k + 1])
  {
    hide *;
    var file, d := files[k], Delimiter(token);
    CarriedMeans(token, file, stream);
    FileRefusedIs(token, maxFileSize, files, k);
    BeforeNext(token, files, k);
    LongBoundary(token);
    LeftBehind(token, file);
    RefusedFile(token, maxFileSize - Before(token, files[..k]), file, stream[|file + Boundary(token)|..]);
    if |d| <= taken <= |stream| && FirstAt(d, stream, taken - |d|) {
      FileBefore(token, file, stream, taken - |d|);
    }
  }

  lemma CarriedMeans(token: bytes, file: bytes, stream: bytes)
    requires OneLineToken(token) && Carried(token, file, stream)
    ensures Free(Delimiter(token), file) && |file + Boundary(token)| <= |stream|
    ensures stream == file + Boundary(token) + stream[|file + Boundary(token)|..]
    ensures exists i: nat :: Occurs(Delimiter(token), stream, i)
  {
    var t := file + Boundary(token);
    assert stream == t + stream[|t|..];
    FirstInFile(token, file);
    OccursAt(Delimiter(token), t, |file| + 1);
    OccursAt(Delimiter(token), stream, |file| + 1);
    assert Occurs(Delimiter(token), t, |file| + 1);
  }

  lemma FileRefusedIs(token: bytes, maxFileSize: nat, files: seq<bytes>, k: nat)
    requires k < |files|
    ensures var room := maxFileSize - Before(token, files[..k]);
      FileRefused(token, maxFileSize, files, k) <==>
        Refused(token, room, files[k]) || (Matched(token, files[k]) > 0 && Charge(token, files[k]) > room)
  {
  }

  lemma BeforeNext(token: bytes, files: seq<bytes>, k: nat)
    requires k < |files|
    ensures Before(token, files[..k + 1]) == Before(token, files[..k]) + Left(token, files[k])
  {
    assert files[..k + 1][..k] == files[..k];
  }

  lemma {:induction false} PlainBefore(token: bytes, files: seq<bytes>)
    requires OneLineToken(token) && forall i :: 0 <= i < |files| ==> Plain(files[i])
    ensures Before(token, files) == |Flatten(files)| + |files| * |Delimiter(token)|
  {
    if files != [] {
      var n, d := |files| - 1, |Delimiter(token)|;
      PlainBefore(token, files[..n]);
      PlainCharge(token, 0, files[n]);
      hide Delimiter, Matched, Charge, Plain;
      OneMore(n, d);
    }
  }

  lemma OneMore(n: nat, d: nat)
    ensures (n + 1) * d == n * d + d
  {
  }

  /** With files without new lines, one is refused if and only if it is not empty and all of
      them up to its end, and the delimiters between, are more than one byte above the limit. */
  lemma PlainFilesRefused(token: bytes, maxFileSize: nat, files: seq<bytes>, k: nat)
    requires OneLineToken(token) && k < |files| && forall i :: 0 <= i < |files| ==> Plain(files[i])
    ensures FileRefused(token, maxFileSize, files, k) <==>
      files[k] != [] && |Flatten(files[..k + 1])| + k * |Delimiter(token)| > maxFileSize + 1
  {
    hide Delimiter, Matched, Charge, Refused, Before, Plain;
    PlainBefore(token, files[..k]);
    PlainCharge(token, maxFileSize - Before(token, files[..k]), files[k]);
    assert files[..k + 1][..k] == files[..k];
  }

  /** Ten bytes and then five, where ten are allowed for a file: the five are refused. */
  lemma FiveRefused(token: bytes, first: bytes, second: bytes)
    requires OneLineToken(token) && Plain(first) && Plain(second) && |first| == 10 && |second| == 5
    ensures !FileRefused(token, 10, [first, second], 0) && FileRefused(token, 10, [first, second], 1)
    ensures !FileRefused(token, 10, [second], 0)
  {
    hide FileRefused, Plain;
    PlainFilesRefused(token, 10, [first, second], 0);
    PlainFilesRefused(token, 10, [first, second], 1);
    PlainFilesRefused(token, 10, [second], 0);
    assert [first, second][..1] == [first] && [first, second][..2] == [first, second] && [second][..1] == [second];
    assert [first, second][..2][..1] == [first] && [first][..0] == [] && [second][..0] == [];
  }
}
