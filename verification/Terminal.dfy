/** The output of a terminal: a circular buffer that browsers read from the position the
    last answer gave them. */
module Terminal {
  import opened Wrappers
  import opened Bytes

  const BUFFER_SIZE := 16384
  const READ_SIZE := 4096

  // The buffer position after n bytes. The end is not wrapped around to zero.
  function PosAt(n: nat): (p: nat)
    ensures p <= BUFFER_SIZE
  {
    if n > 0 && n % BUFFER_SIZE == 0 then BUFFER_SIZE else n % BUFFER_SIZE
  }

  lemma PosAdvances(n: nat, m: nat)
    requires m <= BUFFER_SIZE
    ensures PosAt(n + m) == if PosAt(n) + m > BUFFER_SIZE then PosAt(n) + m - BUFFER_SIZE else PosAt(n) + m
  {
  }

  // Two positions of the stream that are close enough.
  lemma Gap(n: nat, len: nat)
    requires n < len && (len - n < BUFFER_SIZE || (n == 0 && len == BUFFER_SIZE))
    ensures var p, pos := PosAt(n), PosAt(len);
      && p != pos && (p < BUFFER_SIZE ==> n % BUFFER_SIZE == p)
      && (pos < p ==> var m := n + (BUFFER_SIZE - p); n <= m <= len && m % BUFFER_SIZE == 0 && len - m == pos)
      && (p < pos ==> pos - p == len - n)
  {
    PosAdvances(n, len - n);
  }

  // Where new bytes go, and that they leave the others that still count alone.
  lemma IndexOfByte(n: nat, m: nat, k: nat)
    requires m <= READ_SIZE && k < n + m && n + m - BUFFER_SIZE <= k
    ensures var p, i := PosAt(n), k % BUFFER_SIZE;
      var room := BUFFER_SIZE - p;
      if k >= n then i == if p + m > BUFFER_SIZE && k - n >= room then k - n - room else p + (k - n)
      else !(p <= i < p + m) && (p + m > BUFFER_SIZE ==> i >= m - room)
  {
  }

  class Process {
    const buffer: array<byte>
    var pos: nat
    ghost var out: bytes

    // The buffer holds the last output, each byte at its index modulo the size, and zeros
    // where nothing was written.
    ghost predicate Valid()
      reads this, buffer
    {
      && buffer.Length == BUFFER_SIZE && pos == PosAt(|out|)
      && (forall k :: 0 <= k < |out| && |out| - BUFFER_SIZE <= k ==> buffer[k % BUFFER_SIZE] == out[k])
      && (forall k :: |out| <= k < BUFFER_SIZE ==> buffer[k] == NUL)
    }

    constructor ()
      ensures Valid() && out == [] && fresh(buffer)
    {
      buffer := new byte[BUFFER_SIZE](_ => NUL);
      pos, out := 0, [];
    }

    // A `memcpy` into the buffer.
    method CopyIn(at: nat, data: bytes)
      requires at + |data| <= buffer.Length
      modifies buffer
      ensures forall i :: 0 <= i < buffer.Length ==>
        buffer[i] == if at <= i < at + |data| then data[i - at] else old(buffer[i])
    {
      forall i | 0 <= i < |data| {
        buffer[at + i] := data[i];
      }
    }

    /** Output arrives, in pieces of a limited size. */
    method DataReady(data: bytes)
      requires Valid() && |data| <= READ_SIZE
      modifies this, buffer
      ensures Valid() && out == old(out) + data
    {
      ghost var n := |out|;
      PosAdvances(n, |data|);
      hide PosAt;
      var rest := data;
      if pos + |rest| > BUFFER_SIZE {
        var room := BUFFER_SIZE - pos;
        CopyIn(pos, rest[..room]);
        rest := rest[room..];
        pos := 0;
      }
      CopyIn(pos, rest);
      pos := pos + |rest|;
      out := out + data;
      forall k | 0 <= k < |out| && |out| - BUFFER_SIZE <= k ensures buffer[k % BUFFER_SIZE] == out[k] {
        IndexOfByte(n, |data|, k);
        assert out[k] == if k < n then old(out)[k] else data[k - n];
      }
    }

    // What stands in the buffer between two positions of the stream.
    lemma Stretch(from: nat, to: nat, i: nat)
      requires Valid() && from <= to <= |out| && |out| - BUFFER_SIZE <= from && i <= BUFFER_SIZE
      requires i + (to - from) <= BUFFER_SIZE && (from == to || from % BUFFER_SIZE == i)
      ensures buffer[i..i + (to - from)] == out[from..to]
    {
      forall k | 0 <= k < to - from ensures buffer[i..i + (to - from)][k] == out[from..to][k] {
        InRange(from, k, i);
        assert buffer[(from + k) % BUFFER_SIZE] == out[from + k];
      }
    }

    // What an answer consists of, when it is complete.
    lemma Answer(p: nat, n: nat)
      requires Valid() && n < |out| && p == PosAt(n) && (|out| - n < BUFFER_SIZE || (n == 0 && |out| == BUFFER_SIZE))
      ensures p != pos
      ensures pos < p ==> buffer[p..] + buffer[0..pos] == out[n..]
      ensures p < pos ==> buffer[p..pos] == out[n..]
    {
      Gap(n, |out|);
      if pos < p {
        var m := n + (BUFFER_SIZE - p);
        Stretch(n, m, p);
        Stretch(m, |out|, 0);
        hide Valid, PosAt;
        assert out[n..] == out[n..m] + out[m..|out|];
        assert buffer[p..] == buffer[p..p + (m - n)];
      } else {
        Stretch(n, |out|, p);
        assert out[n..] == out[n..|out|];
      }
    }

    /** An answer to a reader that was at a position: None means that it waits. With n bytes
        of output seen before, the answer is what followed if and only if fewer than a whole
        buffer of bytes arrived since, or exactly one buffer from the very beginning. */
    method Out(p: nat, ghost n: nat) returns (r: Option<bytes>, newPos: nat)
      requires Valid() && n <= |out| && p == PosAt(n)
      ensures newPos == PosAt(|out|)
      ensures r == Some(out[n..]) <==> n < |out| && (|out| - n < BUFFER_SIZE || (n == 0 && |out| == BUFFER_SIZE))
      ensures n == |out| ==> r == None
    {
      newPos := pos;
      ghost var fits := n < |out| && (|out| - n < BUFFER_SIZE || (n == 0 && |out| == BUFFER_SIZE));
      if fits {
        Answer(p, n);
      } else if |out| - n == BUFFER_SIZE {
        PosAdvances(n, BUFFER_SIZE);
      }
      if p == pos {
        return None, pos;
      }
      var from, written := p, [];
      if pos < from {
        written := buffer[from..];
        from := 0;
      }
      written := written + buffer[from..pos];
      assert [] + buffer[from..pos] == buffer[from..pos];
      r := Some(written);
    }

    // The last full buffer of output, in the two parts it is stored in.
    lemma Snapshot()
      requires Valid() && |out| > BUFFER_SIZE
      ensures buffer[pos..] + buffer[..pos] == Last(out)
    {
      var n := |out|;
      var m := n - BUFFER_SIZE;
      ResidueOf(n);
      Stretch(n - pos, n, 0);
      if pos < BUFFER_SIZE {
        Stretch(m, n - pos, pos);
      }
      hide Valid;
      SnapshotParts(buffer[..], out, pos);
    }

    lemma WholeOutput()
      requires Valid() && |out| <= BUFFER_SIZE
      ensures buffer[..pos] == out
    {
      if out != [] {
        Stretch(0, |out|, 0);
      }
    }

    /** What a new reader gets first. It is the last full buffer of output, or all of it if
        it is shorter, if and only if the last byte of the buffer is known to be written:
        when it is a NUL, the older part is left out. */
    method Initial() returns (r: bytes, newPos: nat)
      requires Valid()
      ensures newPos == PosAt(|out|)
      ensures r == Last(out) <==> ShowsAll(out)
      ensures NulFree(out) ==> r == Last(out)
    {
      if |out| > BUFFER_SIZE {
        Snapshot();
        EndOfBuffer();
      } else {
        WholeOutput();
      }
      newPos := pos;
      r := [];
      if buffer[BUFFER_SIZE - 1] != NUL {
        r := buffer[pos..];
      }
      r := r + buffer[..pos];
      ghost var all := Last(out);
      assert [] + buffer[..pos] == buffer[..pos];
      if pos == BUFFER_SIZE {
        assert buffer[pos..] == [];
      }
    }

    lemma EndOfBuffer()
      requires Valid() && |out| > BUFFER_SIZE
      ensures buffer[BUFFER_SIZE - 1] == LastColumn(out)
    {
      var k := LastColumnAt(|out|);
      assert buffer[k % BUFFER_SIZE] == out[k];
    }
  }

  function Last(out: bytes): bytes {
    if |out| <= BUFFER_SIZE then out else out[|out| - BUFFER_SIZE..]
  }

  // The last byte that was written to the end of the buffer.
  function LastColumnAt(n: nat): (k: nat)
    requires n >= BUFFER_SIZE
    ensures k < n && n - BUFFER_SIZE <= k && k % BUFFER_SIZE == BUFFER_SIZE - 1
  {
    (n / BUFFER_SIZE) * BUFFER_SIZE - 1
  }

  function LastColumn(out: bytes): byte {
    if |out| >= BUFFER_SIZE then out[LastColumnAt(|out|)] else NUL
  }

  // Nothing older was output, or the byte at the end of the buffer tells that it was.
  predicate ShowsAll(out: bytes) {
    |out| <= BUFFER_SIZE || |out| % BUFFER_SIZE == 0 || LastColumn(out) != NUL
  }

  /** A NUL that is output to the end of the buffer hides the older part from a new reader. */
  lemma NulHides(front: bytes, more: bytes)
    requires |front| == BUFFER_SIZE - 1 && 0 < |more| < BUFFER_SIZE
    ensures !ShowsAll(front + [NUL] + more)
  {
    var out := front + [NUL] + more;
    assert LastColumnAt(|out|) == BUFFER_SIZE - 1 && out[BUFFER_SIZE - 1] == NUL;
  }

  lemma ResidueOf(n: nat)
    requires n > BUFFER_SIZE
    ensures var p := PosAt(n);
      && 0 < p && (n - p) % BUFFER_SIZE == 0 && (p < BUFFER_SIZE ==> (n - BUFFER_SIZE) % BUFFER_SIZE == p)
  {
  }

  lemma SnapshotParts(buffer: bytes, out: bytes, pos: nat)
    requires |buffer| == BUFFER_SIZE < |out| && 0 < pos <= BUFFER_SIZE
    requires buffer[0..pos] == out[|out| - pos..|out|]
    requires pos < BUFFER_SIZE ==> buffer[pos..BUFFER_SIZE] == out[|out| - BUFFER_SIZE..|out| - pos]
    ensures buffer[pos..] + buffer[..pos] == Last(out)
  {
    var n := |out|;
    assert buffer[pos..] == out[n - BUFFER_SIZE..n - pos];
    assert buffer[..pos] == buffer[0..pos] == out[n - pos..];
    assert out[n - BUFFER_SIZE..] == out[n - BUFFER_SIZE..n - pos] + out[n - pos..];
  }

  lemma InRange(from: nat, k: nat, i: nat)
    requires from % BUFFER_SIZE == i && i + k < BUFFER_SIZE
    ensures (from + k) % BUFFER_SIZE == i + k
  {
  }

  // ---------- a reader over a whole session ----------

  datatype Event = Output(data: bytes) | Poll

  function Produced(es: seq<Event>): bytes {
    if es == [] then []
    else Produced(es[..|es| - 1]) + match es[|es| - 1] case Output(data) => data case Poll => []
  }

  // How much arrived since the last poll.
  function Since(es: seq<Event>): nat {
    if es == [] then 0
    else match es[|es| - 1] case Output(data) => Since(es[..|es| - 1]) + |data| case Poll => 0
  }

  // The reader polls before a whole buffer of output has arrived.
  ghost predicate Timely(es: seq<Event>) {
    forall i :: 0 <= i < |es| ==> Since(es[..i + 1]) < BUFFER_SIZE && (es[i].Output? ==> |es[i].data| <= READ_SIZE)
  }

  /** Answers polled in time, each from the position of the one before, add up to exactly
      the output, with nothing lost and nothing twice. */
  method Follow(term: Process, es: seq<Event>) returns (got: bytes)
    requires term.Valid() && Timely(es)
    modifies term, term.buffer
    ensures term.Valid() && term.out == old(term.out) + Produced(es) && got == Produced(es)
  {
    hide Process.Valid, PosAt;
    var pos := Position(term);
    ghost var start, n := |term.out|, |term.out|;
    got := [];
    for i := 0 to |es|
      invariant term.Valid() && term.out == old(term.out) + Produced(es[..i])
      invariant start <= n <= |term.out| && pos == PosAt(n) && |term.out| - n == Since(es[..i])
      invariant got == term.out[start..n]
    {
      assert es[..i + 1][..i] == es[..i];
      if es[i].Output? {
        term.DataReady(es[i].data);
        Assoc(old(term.out), Produced(es[..i]), es[i].data);
      } else {
        got, pos := PollOnce(term, got, pos, start, n);
        n := |term.out|;
        assert Produced(es[..i]) + [] == Produced(es[..i]);
      }
      assert Since(es[..i + 1]) < BUFFER_SIZE;
    }
    assert es[..|es|] == es;
    if |es| > 0 {
      assert Since(es[..|es| - 1 + 1]) < BUFFER_SIZE;
    }
    got, pos := PollOnce(term, got, pos, start, n);
  }

  method Position(term: Process) returns (pos: nat)
    requires term.Valid()
    ensures pos == PosAt(|term.out|)
  {
    pos := term.pos;
  }

  method PollOnce(term: Process, got: bytes, pos: nat, ghost start: nat, ghost n: nat) returns (got': bytes, pos': nat)
    requires term.Valid() && start <= n <= |term.out| && pos == PosAt(n) && got == term.out[start..n]
      && |term.out| - n < BUFFER_SIZE
    ensures got' == term.out[start..] && pos' == PosAt(|term.out|)
  {
    hide Process.Valid, PosAt;
    var r;
    r, pos' := term.Out(pos, n);
    assert term.out[start..] == term.out[start..n] + term.out[n..];
    got' := got + if r.Some? then r.value else [];
  }
}
