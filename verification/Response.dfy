/** The response buffer: body bytes are held back until the buffer is full or
    flushed, headers are sent late, and bodies of unknown length are chunked. */
module Response {
  import opened Wrappers
  import opened AATree
  import M = Multimap
  import opened Bytes
  import opened Chunked
  import opened HeaderText
  import opened ResponseCalls

  const OCS_CLOSE_CONNECTION := -2

  // The counters are 32 bits wide.
  function U32(n: int): int { n % 0x1_0000_0000 }

  lemma U32Adds(a: int, b: int)
    ensures U32(U32(a) + b) == U32(a + b)
  {
  }

  class Response {
    const request: Request
    var headers: Tree<bytes, bytes>
    var code: nat
    var lengthSet: bool
    var headerSent: bool
    var chunked: bool
    var skipContent: bool
    var upgrade: bool
    var length: int
    var sentBytes: int
    const buffer: array<byte>
    var bufferPos: int

    // The bytes the socket took, in order.
    ghost var wire: bytes
    // No body write failed, and every line of the chunked coding was taken whole.
    ghost var clean: bool
    // What was handed over to be sent: the headers and the body without coding.
    ghost var sent: bytes
    // The chunks sent, and what came before them.
    ghost var chunks: seq<bytes>
    ghost var preamble: bytes
    // The header block, as it was when it was sent.
    ghost var block: bytes
    // The unbounded value of sentBytes.
    ghost var count: int
    // Set where the original would loop for ever; the model returns instead.
    var hung: bool

    ghost predicate Valid()
      reads `headerSent, `chunked, `skipContent, `sentBytes, `bufferPos, `wire, `clean, `sent, `chunks, `preamble,
        `count
      ensures Valid() ==> buffer.Length == BUFFER_SIZE && 0 <= bufferPos <= BUFFER_SIZE
      ensures Valid() ==> (chunked ==> headerSent) && (skipContent ==> headerSent && request.isHead && !chunked)
    {
      && buffer.Length == BUFFER_SIZE && 0 <= bufferPos <= BUFFER_SIZE
      && sentBytes == U32(count)
      && (skipContent ==> headerSent && request.isHead && !chunked)
      && (chunked ==> headerSent)
      && (clean ==> Framed())
    }

    // How the bytes on the wire carry what was handed over.
    ghost predicate Framed()
      reads `headerSent, `chunked, `wire, `sent, `chunks, `preamble
    {
      && (!headerSent ==> sent == [])
      && (!chunked ==> wire == sent)
      && (chunked ==> wire == preamble + Chunks(chunks) && sent == preamble + Flatten(chunks)
                      && forall i :: 0 <= i < |chunks| ==> chunks[i] != [])
    }

    // Everything accepted so far: handed over, or still in the buffer.
    ghost function Payload(): bytes
      requires 0 <= bufferPos <= buffer.Length
      reads `sent, `bufferPos, buffer
    {
      sent + buffer[..bufferPos]
    }

    ghost function Held(): bytes
      requires 0 <= bufferPos <= buffer.Length
      reads `bufferPos, buffer
    {
      buffer[..bufferPos]
    }

    // The headers are out and the body goes to the client.
    ghost predicate Streaming()
      reads this
    {
      headerSent && !skipContent && !hung
    }

    predicate ChunkedMode()
      reads `lengthSet
    {
      request.Chunks(lengthSet)
    }

    // What the header block depends on.
    function BlockSettings(): Settings
      reads `headers, `code, `lengthSet, `upgrade
    {
      Settings(code, lengthSet, upgrade, InOrder(headers))
    }

    // The header block, as the sequence of writes that produce it.
    function HeaderPieces(): seq<bytes>
      reads `headers, `code, `lengthSet, `upgrade
    {
      Pieces(request, BlockSettings())
    }

    ghost function HeaderBlock(): bytes
      reads `headers, `code, `lengthSet, `upgrade
    {
      Block(request, BlockSettings())
    }

    lemma PiecesMakeBlock()
      ensures Flatten(HeaderPieces()) == HeaderBlock()
    {
      hide Flatten, Pieces, Block;
      PiecesAreBlock(request, BlockSettings());
    }

    constructor (request: Request)
      ensures clean && fresh(buffer) && this.request == request && Carries(Start(request))
    {
      this.request := request;
      headers := Default(request);
      code := 200;
      lengthSet, headerSent, chunked, skipContent, upgrade := false, false, false, false, false;
      length, sentBytes, bufferPos := 0, 0, 0;
      buffer := new byte[BUFFER_SIZE];
      hung := false;
      wire, clean, sent, chunks, preamble, count := [], true, [], [], [], 0;
      block := [];
    }

    // ---------- the socket ----------

    // The listen point's `write`: it takes any part of the data, or fails.
    method Socket(data: bytes) returns (w: int)
      modifies this`wire
      ensures w <= |data| && wire == old(wire) + if w > 0 then data[..w] else []
    {
      var n: int := *;
      w := if n > |data| then |data| else n;
      wire := wire + if w > 0 then data[..w] else [];
    }

    // A line of the chunked coding. The result is checked by the caller, or not at all.
    method SendLine(line: bytes) returns (w: int)
      requires line != []
      modifies this`wire, this`clean
      ensures clean ==> old(clean) && w > 0 && wire == old(wire) + line
      ensures w <= 0 ==> !clean
    {
      w := Socket(line);
      clean := clean && w == |line|;
      assert line[..|line|] == line;
    }

    // The loop that writes out the buffer, however little the socket takes at a time.
    method SendBuffer() returns (r: int)
      requires buffer.Length == BUFFER_SIZE && 0 < bufferPos <= BUFFER_SIZE
      modifies this`wire, this`clean, this`bufferPos
      ensures bufferPos == 0 && (r == 0 || r == OCS_CLOSE_CONNECTION)
      ensures clean ==> old(clean) && r == 0 && wire == old(wire) + old(Held())
      ensures r != 0 ==> !clean
    {
      ghost var all := buffer[..bufferPos];
      var pos := 0;
      var w := Socket(buffer[..bufferPos]);
      assert all[..|all|] == all;
      while w != bufferPos
        invariant 0 <= pos && 0 < bufferPos && pos + bufferPos == |all|
        invariant w <= bufferPos && clean == old(clean)
        invariant buffer[..] == old(buffer[..])
        invariant wire == old(wire) + all[..if w > 0 then pos + w else pos]
        decreases bufferPos
      {
        if w <= 0 {
          bufferPos := 0;
          clean := false;
          return OCS_CLOSE_CONNECTION;
        }
        pos := pos + w;
        bufferPos := bufferPos - w;
        w := Socket(buffer[pos..pos + bufferPos]);
        if w > 0 {
          assert all[..pos] + all[pos..][..w] == all[..pos + w];
          assert buffer[pos..pos + bufferPos][..w] == all[pos..][..w];
        }
      }
      bufferPos := 0;
      r := 0;
    }

    // ---------- what the operations promise ----------

    // Nothing but the buffer and the transmission state may change below.
    twostate predicate SameSettings()
      reads this
    {
      && headers == old(headers) && code == old(code) && lengthSet == old(lengthSet)
      && upgrade == old(upgrade) && length == old(length) && (clean ==> old(clean))
    }

    // Data was added behind what had been accepted, in the same mode.
    twostate predicate Appended(data: bytes)
      requires old(Valid()) && Valid()
      reads this, buffer
    {
      && SameSettings() && headerSent == old(headerSent) && chunked == old(chunked) && hung == old(hung)
      && skipContent == old(skipContent) && preamble == old(preamble) && block == old(block)
      && (clean ==> Payload() == old(Payload()) + data && count + bufferPos == old(count + bufferPos) + |data|)
    }

    // The headers went out, in front of the given body.
    twostate predicate Started(front: bytes, body: bytes)
      requires old(Valid()) && Valid()
      reads this, buffer
    {
      && SameSettings() && headerSent && block == old(HeaderBlock())
      && (clean ==> preamble == front + block)
      && if request.isHead then
           skipContent && !chunked && (clean ==> wire == sent == preamble)
         else
           && Streaming() && chunked == old(ChunkedMode())
           && (clean ==> Payload() == preamble + body && count + bufferPos == |body|)
    }

    method Store(data: bytes)
      requires Valid() && bufferPos + |data| <= BUFFER_SIZE
      modifies this`bufferPos, buffer
      ensures Valid() && bufferPos == old(bufferPos) + |data|
      ensures Held() == old(Held()) + data && Payload() == old(Payload()) + data
    {
      for i := 0 to |data|
        invariant bufferPos == old(bufferPos)
        invariant forall k :: 0 <= k < i ==> buffer[bufferPos + k] == data[k]
        invariant forall k :: 0 <= k < bufferPos ==> buffer[k] == old(buffer[k])
      {
        buffer[bufferPos + i] := data[i];
      }
      bufferPos := bufferPos + |data|;
      assert buffer[..bufferPos] == old(buffer[..bufferPos]) + data;
      Assoc(sent, old(Held()), data);
    }

    // The buffer as one chunk: its size, the bytes, and the line end behind them.
    method SendChunk() returns (r: int)
      requires buffer.Length == BUFFER_SIZE && 0 < bufferPos <= BUFFER_SIZE
      modifies this`wire, this`clean, this`bufferPos
      ensures 0 <= bufferPos <= BUFFER_SIZE && (r == 0 || r == OCS_CLOSE_CONNECTION)
      ensures clean ==> old(clean) && r == 0 && wire == old(wire) + Chunk(old(Held()))
      ensures r == 0 ==> bufferPos == 0
    {
      ghost var was, size, body := wire, Hex(bufferPos), Held();
      var w := SendLine(Hex(bufferPos) + CRLF);
      if w <= 0 {
        return OCS_CLOSE_CONNECTION;
      }
      r := SendBuffer();
      if r != 0 {
        return;
      }
      var _ := SendLine(CRLF);
      hide Hex;
      assert was + (size + CRLF) + body + CRLF == was + (size + CRLF + body + CRLF);
    }

    // `sent_bytes += buffer_pos`, in 32 bits.
    method CountBuffer()
      requires Valid()
      modifies this`count, this`sentBytes
      ensures Valid() && count == old(count) + bufferPos
    {
      U32Adds(count, bufferPos);
      count := count + bufferPos;
      sentBytes := U32(sentBytes + bufferPos);
    }

    // A flush once the headers are out and a body is wanted.
    method FlushBody() returns (r: int)
      requires Valid() && Streaming() && bufferPos > 0
      modifies this`wire, this`clean, this`bufferPos, this`sent, this`chunks
      ensures Valid() && (clean ==> old(clean)) && (r == 0 || r == OCS_CLOSE_CONNECTION)
      ensures clean ==> r == 0 && sent == old(Payload())
      ensures r == 0 || !chunked ==> bufferPos == 0
    {
      hide Chunk, U32, Chunks, Flatten;
      ghost var body := Held();
      if chunked {
        ChunkAdds(preamble, chunks, body);
        r := SendChunk();
        chunks := chunks + [body];
      } else {
        r := SendBuffer();
      }
      sent := sent + body;
    }

    // Before the headers: they are sent first, the buffered bytes put back behind them.
    method FlushUnsent()
      requires Valid() && !hung && bufferPos > 0 && !headerSent
      modifies this`headerSent, this`chunked, this`skipContent, this`sentBytes, this`bufferPos, buffer
      modifies this`wire, this`clean, this`sent, this`chunks, this`preamble, this`block, this`count, this`hung
      ensures Valid() && !hung && Started([], old(Held())) && (request.isHead ==> bufferPos == 0)
      decreases 1, 1
    {
      hide Response.HeaderBlock, Response.ChunkedMode, Response.Framed, U32;
      var tmpb := buffer[..bufferPos];
      bufferPos := 0;
      assert Held() == [];
      WriteHeaders();
      assert preamble + [] == preamble;
      var _ := Write(tmpb);
    }

    /** Writes out what is buffered. Before the headers, it sends them first and puts
        the buffered bytes back behind them; they may stay in the buffer then. */
    method Flush() returns (r: int)
      requires Valid() && !hung
      modifies this`headerSent, this`chunked, this`skipContent, this`sentBytes, this`bufferPos, buffer
      modifies this`wire, this`clean, this`sent, this`chunks, this`preamble, this`block, this`count, this`hung
      ensures Valid() && SameSettings() && !hung && (r == 0 || r == OCS_CLOSE_CONNECTION)
      ensures old(bufferPos) == 0 ==>
        r == 0 && bufferPos == 0 && Appended([]) && wire == old(wire) && clean == old(clean)
      ensures old(bufferPos) > 0 && old(Streaming()) ==>
        Appended([]) && (clean ==> r == 0) && (r == 0 || !chunked ==> bufferPos == 0)
      ensures old(bufferPos) > 0 && old(skipContent) ==>
        r == 0 && skipContent && wire == old(wire) && clean == old(clean) && bufferPos == old(bufferPos)
        && preamble == old(preamble) && block == old(block) && sent == old(sent)
      ensures old(bufferPos) > 0 && !old(headerSent) ==>
        r == 0 && Started([], old(Held())) && (request.isHead ==> bufferPos == 0)
      decreases if headerSent then 0 else 1, 2
    {
      hide Response.Valid, Response.HeaderBlock, Response.ChunkedMode, U32;
      if bufferPos == 0 {
        assert sent + buffer[..0] + [] == sent + buffer[..0];
        return 0;
      }
      CountBuffer();
      if !headerSent {
        FlushUnsent();
        return 0;
      }
      if skipContent {
        return 0;
      }
      r := FlushBody();
    }

    // The headers were written when they were out already: they join the body, and it is
    // counted anew. Nothing of this is seen for a HEAD.
    twostate predicate Repeated()
      requires old(Valid()) && Valid()
      reads this, buffer
    {
      && SameSettings() && headerSent == old(headerSent) && chunked == old(chunked)
      && skipContent == old(skipContent) && preamble == old(preamble) && block == old(block)
      && (clean ==>
            if request.isHead then wire == old(wire)
            else Payload() == old(Payload() + HeaderBlock()) && count + bufferPos == 0)
    }

    // What holds between two calls once the headers are out.
    ghost predicate Settled()
      reads this
    {
      && (request.isHead <==> skipContent)
      && (!request.isHead && ChunkedMode() ==> chunked)
    }

    /** Sends the header block. What the buffer holds at this point goes out in front, and
        headers that are out already are sent once more. */
    method WriteHeaders()
      requires Valid() && !hung && (headerSent ==> Settled())
      modifies this`headerSent, this`chunked, this`skipContent, this`sentBytes, this`bufferPos, buffer
      modifies this`wire, this`clean, this`sent, this`chunks, this`preamble, this`block, this`count, this`hung
      ensures Valid() && !hung
      ensures !old(headerSent) ==> Started(old(Held()), []) && (request.isHead ==> bufferPos == 0)
      ensures old(headerSent) ==> Repeated()
      decreases if headerSent then 0 else 1, if headerSent then 7 else 0
    {
      hide Response.HeaderPieces, Response.HeaderBlock, Response.ChunkedMode, Flatten, U32;
      PiecesMakeBlock();
      var isChunked, pieces := ChunkedMode(), HeaderPieces();
      if headerSent {
        WriteAll(pieces);
        EndAgain(isChunked);
        return;
      }
      block := HeaderBlock();
      headerSent := true;
      WriteAll(pieces);
      EndHeaders(isChunked);
    }

    // The header block is not counted.
    method RestartCount()
      requires Valid()
      modifies this`count, this`sentBytes
      ensures Valid() && count + bufferPos == 0
    {
      count := -bufferPos;
      sentBytes := U32(-bufferPos);
    }

    // The same behind headers that were out before.
    method EndAgain(isChunked: bool)
      requires Valid() && !hung && headerSent && (request.isHead <==> skipContent)
        && (!request.isHead && isChunked ==> chunked)
      modifies this`headerSent, this`chunked, this`skipContent, this`sentBytes, this`bufferPos, buffer
      modifies this`wire, this`clean, this`sent, this`chunks, this`preamble, this`block, this`count, this`hung
      ensures Valid() && SameSettings() && !hung && headerSent && chunked == old(chunked)
      ensures skipContent == old(skipContent) && preamble == old(preamble) && block == old(block)
      ensures clean ==>
        if request.isHead then wire == old(wire) else Payload() == old(Payload()) && count + bufferPos == 0
      decreases 0, 6
    {
      hide Response.HeaderBlock, Response.ChunkedMode, Response.HeaderPieces, U32;
      RestartCount();
      assert Payload() + [] == Payload();
      if request.isHead {
        var _ := Flush();
        skipContent := true;
        return;
      }
      if isChunked {
        var _ := Flush();
        chunked := true;
      }
    }

    // The counter starts again behind the headers, and the body's coding is chosen.
    method EndHeaders(isChunked: bool)
      requires Valid() && Streaming() && !chunked
      modifies this`headerSent, this`chunked, this`skipContent, this`sentBytes, this`bufferPos, buffer
      modifies this`wire, this`clean, this`sent, this`chunks, this`preamble, this`block, this`count, this`hung
      ensures Valid() && SameSettings() && headerSent && !hung && preamble == old(Payload()) && block == old(block)
      ensures request.isHead ==> skipContent && !chunked && bufferPos == 0 && (clean ==> wire == sent == preamble)
      ensures !request.isHead ==>
        !skipContent && chunked == isChunked && (clean ==> Payload() == preamble && count + bufferPos == 0)
      decreases 0, 6
    {
      hide Response.HeaderBlock, Response.ChunkedMode, Response.HeaderPieces, U32;
      RestartCount();
      preamble := Payload();
      if request.isHead {
        var _ := Flush();
        assert sent + buffer[..0] == sent;
        skipContent := true;
        return;
      }
      if isChunked {
        var _ := Flush();
        assert sent + buffer[..0] == sent;
        chunked := true;
        chunks := [];
      }
    }

    // The writes of the header block, one after another.
    method WriteAll(pieces: seq<bytes>)
      requires Valid() && headerSent && !hung
      modifies this`headerSent, this`chunked, this`skipContent, this`sentBytes, this`bufferPos, buffer
      modifies this`wire, this`clean, this`sent, this`chunks, this`preamble, this`block, this`count, this`hung
      ensures Valid() && !hung
      ensures if old(skipContent) then unchanged(this) && unchanged(buffer) else Appended(Flatten(pieces))
      decreases 0, 6
    {
      for i := 0 to |pieces|
        invariant Valid() && !hung
        invariant if old(skipContent) then unchanged(this) && unchanged(buffer) else Appended(Flatten(pieces[..i]))
      {
        assert pieces[..i + 1][..i] == pieces[..i];
        var _ := Write(pieces[i]);
      }
      assert pieces[..|pieces|] == pieces;
    }

    method Write(data: bytes) returns (w: int)
      requires Valid() && !hung
      modifies this`headerSent, this`chunked, this`skipContent, this`sentBytes, this`bufferPos, buffer
      modifies this`wire, this`clean, this`sent, this`chunks, this`preamble, this`block, this`count, this`hung
      ensures Valid() && SameSettings()
      ensures old(skipContent) ==> w == OCS_CLOSE_CONNECTION && unchanged(this) && unchanged(buffer)
      ensures old(Streaming()) ==> !hung && Appended(data) && (clean ==> w == |data|)
      ensures !old(headerSent) && old(bufferPos) + |data| <= BUFFER_SIZE && data != [] ==>
        Appended(data) && Held() == old(Held()) + data && w == |data| && wire == old(wire) && clean == old(clean)
            && count == old(count)
      ensures !old(headerSent) && data == [] ==>
        w == 0
        && if old(bufferPos) == 0 then Appended([]) && wire == old(wire) && bufferPos == 0
           else Started([], old(Held()))
      ensures !old(headerSent) && old(bufferPos) + |data| > BUFFER_SIZE ==> Started([], old(Held()) + data)
      ensures hung <==> !old(headerSent) && request.isHead && old(bufferPos) + |data| > 2 * BUFFER_SIZE
      decreases if headerSent then 0 else 1, 5
    {
      if skipContent {
        return OCS_CLOSE_CONNECTION;
      }
      if data == [] {
        var _ := Flush();
        return 0;
      }
      w := WriteLoop(data);
    }

    method WriteLoop(data: bytes) returns (w: int)
      requires Valid() && !hung && !skipContent && data != []
      modifies this`headerSent, this`chunked, this`skipContent, this`sentBytes, this`bufferPos, buffer
      modifies this`wire, this`clean, this`sent, this`chunks, this`preamble, this`block, this`count, this`hung
      ensures Valid() && SameSettings()
      ensures old(headerSent) ==> !hung && Appended(data) && (clean ==> w == |data|)
      ensures !old(headerSent) && old(bufferPos) + |data| <= BUFFER_SIZE ==>
        Appended(data) && Held() == old(Held()) + data && w == |data| && wire == old(wire) && clean == old(clean)
            && count == old(count)
      ensures !old(headerSent) && old(bufferPos) + |data| > BUFFER_SIZE ==> Started([], old(Held()) + data)
      ensures hung <==> !old(headerSent) && request.isHead && old(bufferPos) + |data| > 2 * BUFFER_SIZE
      decreases if headerSent then 0 else 1, 4
    {
      hide Response.Valid, Response.HeaderBlock, Response.ChunkedMode, Response.Payload, Response.Held, U32;
      var l, off := |data|, 0;
      w := 0;
      ghost var p, h, done := Payload(), Held(), data[..0];
      assert p + done == p && h + done == h;
      while bufferPos + l > BUFFER_SIZE
        invariant Valid() && SameSettings() && w == off && off + l == |data| && !hung && 0 <= l && done == data[..off]
        invariant old(headerSent) ==> Streaming() && Appended(done)
        invariant !old(headerSent) && !headerSent ==>
          off == 0 && Appended([]) && Held() == h && bufferPos == old(bufferPos) && wire == old(wire)
              && clean == old(clean) && count == old(count)
        invariant !old(headerSent) && headerSent ==> old(bufferPos) + |data| > BUFFER_SIZE && Started([], h + done)
        invariant skipContent ==>
          old(bufferPos) + off == BUFFER_SIZE + bufferPos && (bufferPos == 0 || bufferPos == BUFFER_SIZE)
        decreases l, if headerSent then 0 else 1, bufferPos
      {
        var wb := BUFFER_SIZE - bufferPos;
        ghost var next := Slices(p, h, preamble, data, off, wb);
        var skipping := skipContent;
        var r := FillAndFlush(data[off..off + wb]);
        if r < 0 {
          return;
        }
        if wb == 0 && skipping {
          hung := true; // the code goes round with nothing left to change
          return;
        }
        l := l - wb;
        off := off + wb;
        w := w + wb;
        done := next;
      }
      done := Slices(p, h, preamble, data, off, l);
      assert data[..|data|] == data;
      Store(data[off..off + l]);
      w := w + l;
    }

    // The buffer is filled up and flushed. With content skipped it stays full.
    method FillAndFlush(data: bytes) returns (r: int)
      requires Valid() && !hung && bufferPos + |data| == BUFFER_SIZE
      modifies this`headerSent, this`chunked, this`skipContent, this`sentBytes, this`bufferPos, buffer
      modifies this`wire, this`clean, this`sent, this`chunks, this`preamble, this`block, this`count, this`hung
      ensures Valid() && SameSettings() && !hung && (r == 0 || r == OCS_CLOSE_CONNECTION)
      ensures old(Streaming()) ==> Appended(data) && (clean ==> r == 0) && (r == 0 ==> bufferPos == 0)
      ensures old(skipContent) ==>
        r == 0 && skipContent && !chunked && bufferPos == BUFFER_SIZE
        && wire == old(wire) && sent == old(sent) && preamble == old(preamble) && block == old(block)
      ensures !old(headerSent) ==> r == 0 && Started([], old(Held()) + data) && (request.isHead ==> bufferPos == 0)
      decreases if headerSent then 0 else 1, 3
    {
      hide Response.Valid, Response.HeaderBlock, Response.ChunkedMode, Response.Payload, Response.Held, U32;
      Store(data);
      r := Flush();
    }

    // ---------- the rest of the interface ----------

    method SetHeader(key: bytes, value: bytes)
      modifies this`headers
      ensures headers == WithField(old(headers), key, value)
    {
      headers := M.Insert(StrCmp, headers, Entry(key, value, OD_DUP_ALL_REPLACE));
    }

    method SetLength(len: nat)
      modifies this`headers, this`length, this`lengthSet
      ensures if headerSent && len != sentBytes then unchanged(this)
              else headers == WithLength(old(headers), len) && lengthSet && length == U32(len)
    {
      if len != sentBytes && headerSent {
        return;
      }
      SetHeader(CONTENT_LENGTH, Decimal(len));
      length := U32(len);
      lengthSet := true;
    }

    method SetCode(c: nat)
      modifies this`code
      ensures code == c
    {
      code := c;
    }

    // The headers that will go out, or have gone out.
    ghost predicate Shown(s: Stream)
      reads this
    {
      && headerSent == s.out && !upgrade
      && (s.length.Some? ==> lengthSet) && (!s.late ==> length == U32(s.Length()))
      && if headerSent then Settled() && block == Block(request, s.Settings()) && chunked == s.Chunked(request)
         else headers == s.fields && code == s.code && (lengthSet ==> s.length.Some?) && !s.late
    }

    /** What the client has to be able to read at any time: the header block, behind what
        was too late for it, and then exactly the body accepted so far, sent or buffered. */
    ghost predicate Carries(s: Stream)
      reads this, buffer
    {
      && Valid() && !hung && Shown(s)
      && (!headerSent ==> Held() == s.body && s.front == [] && s.counted == |s.body|)
      && (clean ==>
            if !headerSent then wire == []
            else
              && preamble == s.front + block
              && if request.isHead then wire == preamble
                 else Payload() == preamble + s.body && count + bufferPos == s.counted)
    }

    // The step that ends a handled request: a small response gets its exact length.
    method EndHandler(ghost s: Stream)
      requires Carries(s)
      modifies this, buffer
      ensures Carries(s.Handled())
      ensures (clean ==> old(clean)) && (headerSent || bufferPos == 0)
    {
      hide U32, Block, HeaderText.Request.Chunks, WithField;
      if !headerSent && bufferPos < BUFFER_SIZE {
        Announce(bufferPos, s);
      }
      Push(s.Sized());
    }

    // A flush, by whomever.
    method Push(ghost s: Stream)
      requires Carries(s)
      modifies this, buffer
      ensures Carries(s.Next(FlushCall, [])) && (clean ==> old(clean)) && (headerSent || bufferPos == 0)
      ensures old(headerSent) && clean && !request.isHead ==> bufferPos == 0
    {
      hide U32, Block, HeaderText.Request.Chunks, WithField;
      var _ := Flush();
      assert [] + block == block;
    }

    // A call of the handler that writes.
    method Accept(data: bytes, ghost s: Stream)
      requires Carries(s)
      modifies this, buffer
      ensures !hung ==> Carries(s.Next(WriteCall(data), []))
      ensures hung <==> request.isHead && !s.out && |s.body + data| > 2 * BUFFER_SIZE
      ensures clean ==> old(clean)
    {
      hide U32, Block, HeaderText.Request.Chunks, WithField;
      Assoc(s.front + block, s.body, data);
      var _ := Write(data);
      assert data == [] ==> s.body + data == s.body;
      assert [] + block == block;
    }

    method Announce(len: nat, ghost s: Stream)
      requires Carries(s)
      modifies this`headers, this`length, this`lengthSet
      ensures Carries(s.Next(LengthCall(len), []))
    {
      hide U32, Block, WithField;
      SetLength(len);
    }

    method Name(key: bytes, value: bytes, ghost s: Stream)
      requires Carries(s)
      modifies this`headers
      ensures Carries(s.Next(HeaderCall(key, value), []))
    {
      hide U32, Block, WithField;
      SetHeader(key, value);
    }

    method Decide(c: nat, ghost s: Stream)
      requires Carries(s)
      modifies this`code
      ensures Carries(s.Next(CodeCall(c), []))
    {
      hide U32, Block, WithField;
      SetCode(c);
    }

    method SendHeaders(ghost s: Stream)
      requires Carries(s)
      modifies this, buffer
      ensures Carries(s.Next(SendHeadersCall, old(HeaderBlock()))) && (clean ==> old(clean))
      ensures !s.out && request.isHead ==> bufferPos == 0
    {
      hide U32, Block, HeaderText.Request.Chunks, WithField;
      Assoc(s.front + block, s.body, HeaderBlock());
      WriteHeaders();
      assert preamble + [] == preamble;
    }

    // What stands behind the header block on the wire.
    ghost predicate Delivers(start: bytes, tail: bytes)
      reads this
    {
      && start <= wire
      && if request.isHead then wire == start
         else if chunked then Dechunk(wire[|start|..]) == Some(tail)
         else wire == start + tail
    }

    // Everything accepted has been handed over.
    ghost predicate AllSent(s: Stream)
      reads this, buffer
    {
      && Valid() && s.out && Shown(s)
      && (clean ==>
            && preamble == s.front + block
            && if request.isHead then wire == preamble else sent == preamble + s.body && count == s.counted)
    }

    /** Finishes the response and says whether the connection may be kept. If body
        bytes are still held back without headers, they go out in front of the header
        block, which is why a handled request is flushed before. */
    method Free(ghost s: Stream) returns (keep: bool)
      requires Carries(s)
      modifies this, buffer
      ensures var end := s.Finished();
        && block == Block(request, end.Settings()) && chunked == end.Chunked(request)
        && (clean ==> Delivers(end.front + block, end.body))
        && (request.isHead || chunked ==> (keep <==> request.KeepAlive()))
        && (clean && !end.late ==>
              (keep <==> request.KeepAlive() && (request.isHead || chunked || U32(end.Length()) == U32(end.counted))))
      ensures !hung && (clean ==> old(clean)) && (keep ==> request.KeepAlive())
    {
      hide U32, Block, HeaderText.Request.Chunks, WithField;
      SendRest(s);
      keep := Terminate(s.Finished());
    }

    // What is not yet sent: the headers, if need be, and the buffer.
    method SendRest(ghost s: Stream)
      requires Carries(s)
      modifies this, buffer
      ensures AllSent(s.Finished()) && !hung && (clean ==> old(clean))
    {
      hide U32, Block, HeaderText.Request.Chunks, WithField;
      ghost var end := s.Finished();
      if !headerSent && bufferPos < BUFFER_SIZE {
        Announce(bufferPos, s);
      }
      if !headerSent {
        SendHeaders(s.Sized());
      }
      Push(end);
      assert sent + buffer[..0] == sent;
    }

    // The last chunk, and the decision about the connection.
    method Terminate(ghost s: Stream) returns (keep: bool)
      requires AllSent(s)
      modifies this`wire, this`clean
      ensures clean ==> old(clean) && Delivers(s.front + block, s.body)
      ensures request.isHead || chunked ==> (keep <==> request.KeepAlive())
      ensures clean && !s.late ==>
        (keep <==> request.KeepAlive() && (request.isHead || chunked || U32(s.Length()) == U32(s.counted)))
      ensures keep ==> request.KeepAlive()
    {
      hide Block, HeaderText.Request.Chunks, WithField;
      if chunked {
        var _ := SendLine(LAST_CHUNK);
        if clean {
          EndsChunked(s.front + block, s.body);
        }
      }
      keep := request.KeepAlive() && (skipContent || length == sentBytes || chunked);
    }

    lemma EndsChunked(start: bytes, tail: bytes)
      requires wire == start + Chunks(chunks) + LAST_CHUNK && start + tail == start + Flatten(chunks)
      requires forall i :: 0 <= i < |chunks| ==> chunks[i] != []
      ensures start <= wire && Dechunk(wire[|start|..]) == Some(tail)
    {
      DechunksMessage(chunks);
      Assoc(start, Chunks(chunks), LAST_CHUNK);
      assert wire[|start|..] == Chunks(chunks) + LAST_CHUNK;
      assert (start + tail)[|start|..] == tail && (start + Flatten(chunks))[|start|..] == Flatten(chunks);
    }
  }

  lemma CarriesOut(res: Response, s: Stream)
    requires res.Carries(s)
    ensures !res.hung
  {
  }

  method Perform(res: Response, call: Call, ghost s: Stream) returns (ghost block: bytes)
    requires res.Carries(s)
    modifies res, res.buffer
    ensures Heading(block) && (!res.hung ==> res.Carries(s.Next(call, block)))
    ensures res.hung <==> res.request.isHead && !s.out && call.WriteCall? && |s.body + call.data| > 2 * BUFFER_SIZE
    ensures res.clean ==> old(res.clean)
  {
    hide U32, Block, HeaderText.Request.Chunks, WithField, Heading, Response.Carries;
    block := res.HeaderBlock();
    BlockHeading(res.request, res.BlockSettings());
    CarriesOut(res, s);
    match call {
      case WriteCall(data) =>
        res.Accept(data, s);
      case FlushCall =>
        res.Push(s);
      case HeaderCall(key, value) =>
        res.Name(key, value, s);
      case LengthCall(len) =>
        res.Announce(len, s);
      case CodeCall(code) =>
        res.Decide(code, s);
      case SendHeadersCall =>
        res.SendHeaders(s);
    }
    if !call.WriteCall? {
      CarriesOut(res, s.Next(call, block));
    }
  }

  /** No header write comes too late, and none is seen twice. */
  ghost predicate Orderly(calls: seq<Call>, isHead: bool) {
    forall i :: 0 <= i < |calls| ==> !TooLate(calls, i) && (isHead || !Again(calls, i))
  }

  // No length is set once the headers are out.
  ghost predicate InTime(calls: seq<Call>) {
    forall i :: 0 <= i < |calls| ==> !LateLength(calls, i)
  }

  /** A whole response: any calls by the handler, the step that ends a handled request,
      and the end of the response. Unless the socket failed, the wire holds what was too
      late for the headers, the header block, and then exactly the rest, as it is or
      chunked. The connection is kept if the client allows it, and for a HEAD, behind a
      chunked body, or when the length set last is that of the body in 32 bits. */
  method Respond(request: Request, calls: seq<Call>) returns (res: Response, keep: bool, ghost blocks: seq<bytes>)
    ensures res.request == request && fresh(res)
    ensures res.hung <==> request.isHead && exists i :: 0 <= i < |calls| && Endless(calls, i)
    ensures !res.hung ==>
      && |blocks| == |calls| && Heading(res.block)
      && res.block == Block(request, Whole(request, calls, blocks).Settings())
      && StatusText(request, FinalCode(calls)) <= res.block
      && (res.chunked <==> !request.isHead && request.http11 && FinalLength(calls).None? && Keeps(request))
    ensures !res.hung && res.clean ==>
      res.Delivers(Run(request, calls, blocks).front + res.block, Run(request, calls, blocks).body)
    ensures !res.hung && keep ==> !request.noKeepAlive
    ensures !res.hung && request.http11 && request.connection.Some? ==>
      (SameLetters(request.connection.value, CLOSE) ==> !keep && !res.chunked)
    ensures !res.hung && !request.http11 && keep ==>
      request.connection.Some? && SameLetters(request.connection.value, KEEP_ALIVE)
    ensures !res.hung && res.clean && InTime(calls) && request.http11 && !request.noKeepAlive ==>
      (request.connection.None? && Fits(calls, Run(request, calls, blocks).counted) ==> keep)
    ensures !res.hung && (request.isHead || res.chunked) && Keeps(request) ==> keep
    ensures !res.hung && res.clean && InTime(calls) ==>
      (keep <==>
         && Keeps(request)
         && (request.isHead || res.chunked || U32(LengthOr0(calls)) == U32(Run(request, calls, blocks).counted)))
    ensures !res.hung && res.clean && Orderly(calls, request.isHead) ==> res.Delivers(res.block, Written(calls))
    ensures !res.hung && res.clean && !Heading(Written(calls)) && res.Delivers(res.block, Written(calls)) ==>
      Orderly(calls, request.isHead)
    ensures !res.hung && res.clean && Orderly(calls, request.isHead) ==>
      && (request.isHead || res.chunked || DeclaresBody(request, calls) ==> SelfDelimiting(res, Written(calls)))
      && (TidyFields(request, FinalFields(request, calls)) && SelfDelimiting(res, Written(calls)) ==>
            request.isHead || res.chunked || DeclaresBody(request, calls))
    ensures !res.hung && res.clean && keep && Plainly(request, calls) ==> SelfDelimiting(res, Written(calls))
  {
    hide SelfDelimiting, DeclaresBody, TidyFields, FinalFields, Plainly, Block, HeaderText.Request.Chunks, U32, Heading,
      Response.Delivers, Response.Carries, Orderly, InTime, Whole, FinalLength, FinalCode, StatusText, LengthOr0, Ended,
      Run, Written;
    res := new Response(request);
    keep, blocks := false, [];
    RunNone(request);
    assert calls[..0] == [];
    for i := 0 to |calls|
      invariant fresh(res) && fresh(res.buffer) && res.request == request
      invariant |blocks| == i && forall k :: 0 <= k < i ==> Heading(blocks[k])
      invariant res.Carries(Run(request, calls[..i], blocks))
      invariant request.isHead ==> forall k :: 0 <= k < i ==> !Endless(calls, k)
    {
      RunPhase(request, calls[..i], blocks);
      ghost var block := Perform(res, calls[i], Run(request, calls[..i], blocks));
      if res.hung {
        assert Endless(calls, i);
        return;
      }
      RunNext(request, calls, i, blocks, block);
      blocks := blocks + [block];
    }
    assert calls[..|calls|] == calls;
    keep := Conclude(res, calls, blocks);
    KeepAliveIff(request);
    ChunksIff(request, FinalLength(calls).Some?);
    EndedMeans(res, keep, calls, blocks);
    if res.clean {
      HeadersFirst(res, calls, blocks);
      if Orderly(calls, request.isHead) {
        DelimitedIff(res, calls, blocks);
        if keep && Plainly(request, calls) {
          PlainlyDeclared(request, calls, blocks);
        }
      }
      PlainlyMeans(request, calls);
    }
  }

  // No length was set, or that of the body, as far as 32 bits tell.
  predicate Fits(calls: seq<Call>, counted: nat) {
    FinalLength(calls).None? || U32(LengthOr0(calls)) == U32(counted)
  }

  function LengthOr0(calls: seq<Call>): nat {
    if FinalLength(calls).Some? then FinalLength(calls).value else 0
  }

  // What a response has become at its end.
  ghost predicate Ended(res: Response, keep: bool, calls: seq<Call>, blocks: seq<bytes>)
    requires |blocks| == |calls|
    reads res
  {
    var w := Whole(res.request, calls, blocks);
    && !res.hung && res.block == Block(res.request, w.Settings()) && res.chunked == w.Chunked(res.request)
    && (res.clean ==> res.Delivers(w.front + res.block, w.body))
    && (keep ==> res.request.KeepAlive())
    && (res.request.isHead || res.chunked ==> (keep <==> res.request.KeepAlive()))
    && (res.clean && !w.late ==>
          (keep <==>
             && res.request.KeepAlive()
             && (res.request.isHead || res.chunked || U32(w.Length()) == U32(w.counted))))
  }

  // The end of a response after all the calls.
  method Conclude(res: Response, ghost calls: seq<Call>, ghost blocks: seq<bytes>) returns (keep: bool)
    requires |blocks| == |calls| && res.Carries(Run(res.request, calls, blocks))
    modifies res, res.buffer
    ensures Ended(res, keep, calls, blocks)
  {
    hide Block, HeaderText.Request.Chunks, WithField, U32, Run, Response.Delivers, Response.Carries;
    ghost var s := Run(res.request, calls, blocks);
    res.EndHandler(s);
    keep := res.Free(s.Handled());
  }

  lemma EndedMeans(res: Response, keep: bool, calls: seq<Call>, blocks: seq<bytes>)
    requires |blocks| == |calls| && Ended(res, keep, calls, blocks)
    ensures Heading(res.block) && !res.hung && (keep ==> res.request.KeepAlive())
    ensures res.block == Block(res.request, Whole(res.request, calls, blocks).Settings())
    ensures res.chunked <==> !res.request.isHead && res.request.Chunks(FinalLength(calls).Some?)
    ensures StatusText(res.request, FinalCode(calls)) <= res.block
    ensures res.clean ==>
      res.Delivers(Run(res.request, calls, blocks).front + res.block, Run(res.request, calls, blocks).body)
    ensures res.request.isHead || res.chunked ==> (keep <==> res.request.KeepAlive())
    ensures res.clean && InTime(calls) ==>
      (keep <==>
         && res.request.KeepAlive()
         && (res.request.isHead || res.chunked
             || U32(LengthOr0(calls)) == U32(Run(res.request, calls, blocks).counted)))
  {
    hide Block, HeaderText.Request.Chunks, U32, Run, Response.Delivers, Shows, Heading, Whole, FinalLength, FinalFields,
      FinalCode, StatusText;
    WholeIs(res.request, calls, blocks);
    BlockHeading(res.request, Whole(res.request, calls, blocks).Settings());
    StatusFirst(res.request, Whole(res.request, calls, blocks).Settings());
  }

  // The headers come first if and only if the calls are in order; a body that begins as a
  // header does could be taken for one.
  lemma HeadersFirst(res: Response, calls: seq<Call>, blocks: seq<bytes>)
    requires |blocks| == |calls| && Heading(res.block) && forall i :: 0 <= i < |blocks| ==> Heading(blocks[i])
    requires res.Delivers(Run(res.request, calls, blocks).front + res.block, Run(res.request, calls, blocks).body)
    ensures Orderly(calls, res.request.isHead) ==> res.Delivers(res.block, Written(calls))
    ensures !Heading(Written(calls)) && res.Delivers(res.block, Written(calls)) ==> Orderly(calls, res.request.isHead)
  {
    var s := Run(res.request, calls, blocks);
    RunFront(res.request, calls, blocks);
    forall i | 0 <= i < |blocks| ensures blocks[i] != [] {
      HeadingLong(blocks[i]);
    }
    RunLength(res.request, calls, blocks);
    hide Heading;
    if Orderly(calls, res.request.isHead) {
      assert [] + res.block == res.block && [] + s.body == s.body;
      if !res.request.isHead {
        RunOnce(res.request, calls, blocks);
      }
    }
    if !Heading(Written(calls)) && res.Delivers(res.block, Written(calls)) {
      if s.front != [] {
        FrontHeading(s.front, res.block, res.wire);
        HeadingMore(s.front, Written(calls));
      }
      assert [] + res.block == res.block && [] + s.body == s.body;
    }
  }

  lemma HeadingLong(block: bytes)
    requires Heading(block)
    ensures block != []
  {
  }

  lemma HeadingMore(front: bytes, s: bytes)
    requires Heading(front) && front <= s
    ensures Heading(s)
  {
  }

  // What begins like a header in front of a header does so before that one begins.
  lemma FrontHeading(front: bytes, block: bytes, wire: bytes)
    requires front != [] && Heading(block) && block <= wire && front + block <= wire
    ensures Heading(front)
  {
    assert wire[0] == block[0] && wire[1] == block[1] && wire[2] == block[2] && wire[3] == block[3];
    assert wire[4] == block[4] && wire[5] == block[5] && wire[6] == block[6];
    assert wire[|front|] == (front + block)[|front|] == block[0];
    assert forall i :: 0 <= i < |front| ==> front[i] == wire[i];
    assert |front| >= 7;
    assert front[..7] == HTTP1;
  }

  // ---------- where a kept response ends ----------

  /** A client can tell where the message ends (section 3.3.3 of RFC 7230): it asked with HEAD,
      or the coding is announced and ends with the body, or the length of the body is. */
  ghost predicate SelfDelimiting(res: Response, body: bytes)
    reads res
  {
    || res.request.isHead
    || (HoldsLine(res.block, Field(TRANSFER_ENCODING, CHUNKED))
        && res.block <= res.wire && Dechunk(res.wire[|res.block|..]) == Some(body))
    || (HoldsLine(res.block, Field(CONTENT_LENGTH, Decimal(|body|))) && res.wire == res.block + body)
  }

  /** A handler that does nothing out of order: no header write and no length comes too late,
      no field overrides the length, and the sizes have 32 bits; over HTTP/1.1. */
  ghost predicate Plainly(req: Request, calls: seq<Call>) {
    && req.http11 && Orderly(calls, req.isHead) && InTime(calls) && LengthLast(calls)
    && |Written(calls)| < 0x1_0000_0000 && LengthOr0(calls) < 0x1_0000_0000
  }

  lemma PlainlyMeans(req: Request, calls: seq<Call>)
    ensures Plainly(req, calls) ==> Orderly(calls, req.isHead) && InTime(calls)
  {
  }

  // Everything written is counted, if the headers are written once and in time.
  lemma OrderlyCounts(req: Request, calls: seq<Call>, blocks: seq<bytes>)
    requires |blocks| == |calls| && Orderly(calls, false)
    ensures Run(req, calls, blocks).counted == |Written(calls)|
  {
    hide Run, Written, TooLate, Again;
    RunFront(req, calls, blocks);
    RunOnce(req, calls, blocks);
    assert [] + Run(req, calls, blocks).body == Run(req, calls, blocks).body;
  }

  // A connection that is kept although the body is neither chunked nor that of a HEAD.
  lemma PlainlyDeclared(req: Request, calls: seq<Call>, blocks: seq<bytes>)
    requires |blocks| == |calls| && Plainly(req, calls) && req.KeepAlive()
    ensures req.isHead || req.Chunks(FinalLength(calls).Some?)
      || (U32(LengthOr0(calls)) == U32(Run(req, calls, blocks).counted) ==> DeclaresBody(req, calls))
  {
    hide Run, Written, FinalLength, FinalFields, LengthLast, InTime, Orderly, U32, Decimal;
    if !req.isHead && FinalLength(calls).Some? {
      FinalNamed(req, calls);
      PlainlyMeans(req, calls);
      OrderlyCounts(req, calls, blocks);
      if U32(LengthOr0(calls)) == U32(|Written(calls)|) {
        SameIn32Bits(LengthOr0(calls), |Written(calls)|);
      }
    }
  }

  lemma SameIn32Bits(a: nat, b: nat)
    requires a < 0x1_0000_0000 && b < 0x1_0000_0000 && U32(a) == U32(b)
    ensures a == b
  {
  }

  lemma {:induction false} DechunkShorter(s: bytes)
    ensures Dechunk(s).Some? ==> |Dechunk(s).value| < |s|
    decreases |s|
  {
    hide HexPrefix;
    var (size, digits) := HexPrefix(s, 0);
    if Dechunk(s).Some? && size > 0 {
      var body := s[digits + 2..];
      DechunkShorter(body[size + 2..]);
    }
  }

  /** The end of a message behind its headers can be told if and only if it answers a HEAD, is
      chunked, or announces the length of its body, in a block without line ends where they do
      not belong. */
  lemma DelimitedIff(res: Response, calls: seq<Call>, blocks: seq<bytes>)
    requires |blocks| == |calls| && res.block == Block(res.request, Whole(res.request, calls, blocks).Settings())
    requires res.chunked <==> !res.request.isHead && res.request.Chunks(FinalLength(calls).Some?)
    requires res.Delivers(res.block, Written(calls))
    ensures res.request.isHead || res.chunked || DeclaresBody(res.request, calls) ==>
      SelfDelimiting(res, Written(calls))
    ensures TidyFields(res.request, FinalFields(res.request, calls)) && SelfDelimiting(res, Written(calls)) ==>
      res.request.isHead || res.chunked || DeclaresBody(res.request, calls)
  {
    var req, body := res.request, Written(calls);
    var w, m := Whole(req, calls, blocks), FinalFields(req, calls);
    WholeIs(req, calls, blocks);
    assert Shows(w.fields, m);
    var st := w.Settings();
    assert forall value :: Has(st.fields, CONTENT_LENGTH, value) <==> CONTENT_LENGTH in m && m[CONTENT_LENGTH] == value;
    hide Shows, Whole, FinalFields, FinalLength, Block, Field, Has, HoldsLine, Dechunk, Written, TidyFields, Tidy,
      OneLine;
    if res.chunked {
      FieldHeld(req, st, TRANSFER_ENCODING, CHUNKED);
    } else if DeclaresBody(req, calls) {
      FieldHeld(req, st, CONTENT_LENGTH, Decimal(|body|));
    } else if TidyFields(req, m) && SelfDelimiting(res, body) && !req.isHead {
      assert res.wire[|res.block|..] == body;
      DechunkShorter(body);
      TidyShown(req, m, w);
      NamesTidy();
      DecimalTidy(|body|);
      OnlyFieldsHeld(req, st, CONTENT_LENGTH, Decimal(|body|));
    }
  }

  // ---------- lengths that are not those of the body ----------

  const FIVE := 5
  const HELLO: bytes := Ascii("hello")
  const THREE: bytes := Ascii("3")

  // A length is set, and a field of that name to something else.
  function Disagreeing(): seq<Call> {
    [LengthCall(FIVE), HeaderCall(CONTENT_LENGTH, THREE), WriteCall(HELLO), FlushCall]
  }

  lemma DisagreeingIs(req: Request)
    ensures Waiting(Disagreeing()) == None && Announced(Disagreeing()) == Some(FIVE) && Written(Disagreeing()) == HELLO
    ensures FieldMap(req, Disagreeing()) == DefaultMap(req)[CONTENT_LENGTH := THREE]
    ensures Orderly(Disagreeing(), false) && InTime(Disagreeing())
  {
    var cs := Disagreeing();
    var c1, c2, c3 := cs[..1], cs[..2], cs[..3];
    assert |HELLO| == 5;
    assert cs[..4] == cs && c3[..2] == c2 && c2[..1] == c1 && c1[..0] == [];
    assert [] + HELLO == HELLO;
    hide Ascii, DefaultMap;
    assert Waiting(c1) == Some([]) && Waiting(c2) == Some([]) && Waiting(c3) == Some(HELLO);
    assert FieldMap(req, c1) == DefaultMap(req)[CONTENT_LENGTH := Decimal(FIVE)];
    assert FieldMap(req, c2) == DefaultMap(req)[CONTENT_LENGTH := THREE];
    assert FieldMap(req, c3) == FieldMap(req, c2);
    assert Announced(c1) == Some(FIVE) && Announced(c2) == Some(FIVE) && Announced(c3) == Some(FIVE);
    assert Written(c1) == [] && Written(c2) == [] && Written(c3) == HELLO && HELLO + [] == HELLO;
  }

  /** Every field of a response has its line in the header block. */
  lemma FieldInBlock(req: Request, calls: seq<Call>, blocks: seq<bytes>, key: bytes)
    requires |blocks| == |calls| && key in FinalFields(req, calls)
    ensures HoldsLine(Block(req, Whole(req, calls, blocks).Settings()), Field(key, FinalFields(req, calls)[key]))
  {
    hide Whole, FinalFields, FinalLength, Block, Field, Has, HoldsLine, Good, InOrder;
    WholeIs(req, calls, blocks);
    FieldHeld(req, Whole(req, calls, blocks).Settings(), key, FinalFields(req, calls)[key]);
  }

  lemma EndsAs(req: Request, calls: seq<Call>)
    requires Waiting(calls).None?
    ensures FinalLength(calls) == Announced(calls) && FinalFields(req, calls) == FieldMap(req, calls)
  {
    hide Waiting, Announced, FieldMap;
  }

  /** A response that is small enough to wait for the end of its handler is announced right,
      whatever was set before. */
  lemma SmallDeclares(req: Request, calls: seq<Call>, blocks: seq<bytes>)
    requires |blocks| == |calls| && Small(calls)
    ensures DeclaresBody(req, calls)
  {
    hide Run, Waiting, Written, FieldMap, Decimal;
    RunPhase(req, calls, blocks);
  }

  /** The connection is kept behind five bytes that were announced as three. */
  method DisagreementKept(request: Request) returns (res: Response, keep: bool)
    requires request.http11 && request.KeepAlive() && !request.isHead
    ensures fresh(res) && res.request == request && !res.hung
    ensures res.clean ==>
      keep && res.wire == res.block + HELLO && HoldsLine(res.block, Field(CONTENT_LENGTH, THREE))
    ensures res.clean && TidyFields(request, DefaultMap(request)[CONTENT_LENGTH := THREE]) ==>
      !SelfDelimiting(res, HELLO)
  {
    KeepAliveIff(request);
    ChunksIff(request, true);
    DisagreeingIs(request);
    FiveIsNotThree();
    hide Disagreeing, FieldMap, Waiting, Announced, Written, DefaultMap, TidyFields, SelfDelimiting, Orderly, InTime,
      FinalLength, FinalFields, Block, Whole, HoldsLine, Field, Decimal, Heading, Keeps, HeaderText.Request.KeepAlive,
      SameLetters;
    ghost var blocks;
    res, keep, blocks := Respond(request, Disagreeing());
    EndsAs(request, Disagreeing());
    OrderlyCounts(request, Disagreeing(), blocks);
    FieldInBlock(request, Disagreeing(), blocks, CONTENT_LENGTH);
  }

  lemma FiveIsNotThree()
    ensures Decimal(|HELLO|) != THREE && |HELLO| == FIVE
  {
    assert THREE[0] == 0x33 && Decimal(5)[0] == 0x35;
  }

  const HUGE := 0x1_0000_0000

  function Wrapping(): seq<Call> { [LengthCall(HUGE), SendHeadersCall] }

  lemma WrappingIs(req: Request)
    ensures Waiting(Wrapping()) == None && Announced(Wrapping()) == Some(HUGE) && Written(Wrapping()) == []
    ensures FieldMap(req, Wrapping()) == DefaultMap(req)[CONTENT_LENGTH := Decimal(HUGE)]
    ensures Orderly(Wrapping(), false) && InTime(Wrapping())
  {
    hide Ascii, DefaultMap, Decimal;
    var cs := Wrapping();
    var c1 := cs[..1];
    assert cs[..2] == cs && c1[..0] == [];
    assert Waiting(c1) == Some([]) && Announced(c1) == Some(HUGE) && Written(c1) == [];
    assert FieldMap(req, c1) == DefaultMap(req)[CONTENT_LENGTH := Decimal(HUGE)];
  }

  lemma HugeWraps()
    ensures U32(HUGE) == U32(0)
  {
  }

  /** An empty body announced as 2^32 bytes: the connection is kept. */
  method WrongLengthKept(request: Request) returns (res: Response, keep: bool)
    requires request.http11 && request.KeepAlive() && !request.isHead
    ensures fresh(res) && res.request == request && !res.hung
    ensures res.clean ==>
      keep && res.wire == res.block && HoldsLine(res.block, Field(CONTENT_LENGTH, Decimal(HUGE)))
  {
    KeepAliveIff(request);
    ChunksIff(request, true);
    WrappingIs(request);
    HugeWraps();
    hide Wrapping, FieldMap, Waiting, Announced, Written, DefaultMap, TidyFields, SelfDelimiting, Orderly, InTime,
      FinalLength, FinalFields, Block, Whole, HoldsLine, Field, Decimal, Heading, U32, Keeps,
      HeaderText.Request.KeepAlive, SameLetters;
    ghost var blocks;
    res, keep, blocks := Respond(request, Wrapping());
    EndsAs(request, Wrapping());
    OrderlyCounts(request, Wrapping(), blocks);
    FieldInBlock(request, Wrapping(), blocks, CONTENT_LENGTH);
    assert res.block + [] == res.block;
  }

  // A HEAD answered with one write of more than two buffers.
  lemma LongWriteEndless(data: bytes)
    requires |data| > 2 * BUFFER_SIZE
    ensures Endless([WriteCall(data)], 0)
  {
    assert [WriteCall(data)][..0] == [] && [] + data == data;
  }

  /** A header write while a byte waits sends that byte in front of the header. */
  lemma ByteFirst(req: Request, b: byte, blocks: seq<bytes>)
    requires |blocks| == 2
    ensures var calls := [WriteCall([b]), SendHeadersCall];
      TooLate(calls, 1) && Run(req, calls, blocks).front == [b] && Run(req, calls, blocks).body == []
  {
    var calls := [WriteCall([b]), SendHeadersCall];
    assert calls[..1] == [WriteCall([b])] && calls[..1][..0] == [] && [] + [b] == [b];
    assert Run(req, calls[..1], blocks[..1]).body == [b] && !Run(req, calls[..1], blocks[..1]).out;
  }

  // The next piece of the data, behind everything before it.
  lemma Slices(p: bytes, h: bytes, front: bytes, data: bytes, off: nat, n: nat) returns (next: bytes)
    requires off + n <= |data|
    ensures next == data[..off + n] && |next| == off + n
    ensures p + data[..off] + data[off..off + n] == p + next
    ensures h + data[..off] + data[off..off + n] == h + next
    ensures front + (h + data[..off]) + data[off..off + n] == front + (h + next)
  {
    next := data[..off + n];
  }

  lemma ChunkAdds(front: bytes, cs: seq<bytes>, c: bytes)
    ensures front + Chunks(cs + [c]) == front + Chunks(cs) + Chunk(c)
    ensures front + Flatten(cs + [c]) == front + Flatten(cs) + c
  {
    assert (cs + [c])[..|cs + [c]| - 1] == cs;
    Assoc(front, Chunks(cs), Chunk(c));
    Assoc(front, Flatten(cs), c);
  }
}
