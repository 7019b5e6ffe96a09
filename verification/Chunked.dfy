/** The chunked transfer coding, and a receiver that decodes it. */
module Chunked {
  import opened Wrappers
  import opened Bytes

  // ---------- the sender ----------

  function Hex(n: nat): (r: bytes)
    ensures |r| > 0
  {
    if n < 16 then [HexDigit(n)] else Hex(n / 16) + [HexDigit(n % 16)]
  }

  function Chunk(c: bytes): bytes {
    Hex(|c|) + CRLF + c + CRLF
  }

  function Chunks(cs: seq<bytes>): bytes {
    if cs == [] then [] else Chunks(cs[..|cs| - 1]) + Chunk(cs[|cs| - 1])
  }

  const LAST_CHUNK: bytes := [0x30, 13, 10, 13, 10]

  function HexNumber(c: byte): Option<nat> {
    var d := HexValue(c);
    if d.None? then None else Some(d.value as nat)
  }

  // The hexadecimal number at the front, its value added to acc, and how long it is.
  function HexPrefix(s: bytes, acc: nat): (r: (nat, nat))
    ensures r.1 <= |s|
  {
    if s == [] || HexNumber(s[0]).None? then (acc, 0)
    else
      var rest := HexPrefix(s[1..], 16 * acc + HexNumber(s[0]).value);
      (rest.0, rest.1 + 1)
  }

  /** The receiver of section 4.1 of RFC 7230, without extensions and trailers: chunks
      up to the first of size zero, which must end the message. */
  function Dechunk(s: bytes): Option<bytes>
    decreases |s|
  {
    var (size, digits) := HexPrefix(s, 0);
    if digits == 0 || |s| < digits + 2 || s[digits..digits + 2] != CRLF then None
    else
      var body := s[digits + 2..];
      if |body| < size + 2 || body[size..size + 2] != CRLF then None
      else if size == 0 then (if |body| == 2 then Some([]) else None)
      else
        var rest := Dechunk(body[size + 2..]);
        if rest.None? then None else Some(body[..size] + rest.value)
  }

  ghost predicate AllHex(ds: bytes) {
    forall i :: 0 <= i < |ds| ==> HexNumber(ds[i]).Some?
  }

  function FoldHex(ds: bytes, acc: nat): nat
    requires AllHex(ds)
  {
    if ds == [] then acc else FoldHex(ds[1..], 16 * acc + HexNumber(ds[0]).value)
  }

  lemma {:induction false} FoldSnoc(ds: bytes, d: byte, acc: nat)
    requires AllHex(ds) && HexNumber(d).Some?
    ensures FoldHex(ds + [d], acc) == 16 * FoldHex(ds, acc) + HexNumber(d).value
  {
    if ds == [] {
      assert [d][1..] == [];
    } else {
      assert (ds + [d])[1..] == ds[1..] + [d];
      FoldSnoc(ds[1..], d, 16 * acc + HexNumber(ds[0]).value);
    }
  }

  lemma DigitNumber(d: nat)
    requires d < 16
    ensures HexNumber(HexDigit(d)) == Some(d)
  {
  }

  lemma {:induction false} HexFolds(n: nat)
    ensures AllHex(Hex(n)) && FoldHex(Hex(n), 0) == n
  {
    hide HexNumber, HexDigit;
    DigitNumber(n % 16);
    if n >= 16 {
      HexFolds(n / 16);
      FoldSnoc(Hex(n / 16), HexDigit(n % 16), 0);
    }
  }

  lemma {:induction false} HexPrefixFolds(ds: bytes, rest: bytes, acc: nat)
    requires AllHex(ds) && (rest == [] || HexNumber(rest[0]).None?)
    ensures HexPrefix(ds + rest, acc) == (FoldHex(ds, acc), |ds|)
  {
    if ds == [] {
      assert ds + rest == rest;
    } else {
      assert (ds + rest)[1..] == ds[1..] + rest;
      HexPrefixFolds(ds[1..], rest, 16 * acc + HexNumber(ds[0]).value);
    }
  }

  lemma DechunksOne(c: bytes, rest: bytes)
    requires c != []
    ensures Dechunk(Chunk(c) + rest) ==
      if Dechunk(rest).None? then None else Some(c + Dechunk(rest).value)
  {
    hide HexPrefix, HexNumber, Hex, FoldHex;
    var h, s := Hex(|c|), Chunk(c) + rest;
    var tail := CRLF + (c + (CRLF + rest));
    assert s == h + tail;
    HexFolds(|c|);
    CrIsNoDigit();
    HexPrefixFolds(h, tail, 0);
    var body := c + (CRLF + rest);
    Cut(h, CRLF, body);
    assert h + CRLF + body == s;
    assert body[..|c|] == c && body[|c|..|c| + 2] == CRLF && body[|c| + 2..] == rest;
  }

  lemma Cut(a: bytes, b: bytes, c: bytes)
    ensures (a + b + c)[|a|..|a| + |b|] == b && (a + b + c)[|a| + |b|..] == c
  {
  }

  lemma CrIsNoDigit()
    ensures HexNumber(13).None?
  {
  }

  /** Decoding gives back the bytes that went into the chunks, provided none of the
      chunks is empty: an empty one would end the message. */
  lemma {:induction false} DechunksAll(cs: seq<bytes>, rest: bytes)
    requires forall i :: 0 <= i < |cs| ==> cs[i] != []
    ensures Dechunk(Chunks(cs) + rest) ==
      if Dechunk(rest).None? then None else Some(Flatten(cs) + Dechunk(rest).value)
  {
    if cs == [] {
      assert Chunks(cs) + rest == rest;
      assert Dechunk(rest).Some? ==> Flatten(cs) + Dechunk(rest).value == Dechunk(rest).value;
    } else {
      var front, c := cs[..|cs| - 1], cs[|cs| - 1];
      Assoc(Chunks(front), Chunk(c), rest);
      DechunksOne(c, rest);
      DechunksAll(front, Chunk(c) + rest);
      if Dechunk(rest).Some? {
        Assoc(Flatten(front), c, Dechunk(rest).value);
      }
    }
  }

  lemma DechunksLast()
    ensures Dechunk(LAST_CHUNK) == Some([])
  {
    var s, t := LAST_CHUNK, LAST_CHUNK[1..];
    assert t == CRLF + CRLF && HexPrefix(t, 0) == (0, 0);
    assert HexPrefix(s, 0) == (0, 1);
    assert s[1..3] == CRLF && s[3..] == CRLF && s[3..][0..2] == CRLF;
    hide HexPrefix, HexNumber;
  }

  lemma DechunksMessage(cs: seq<bytes>)
    requires forall i :: 0 <= i < |cs| ==> cs[i] != []
    ensures Dechunk(Chunks(cs) + LAST_CHUNK) == Some(Flatten(cs))
  {
    DechunksLast();
    DechunksAll(cs, LAST_CHUNK);
    assert Flatten(cs) + [] == Flatten(cs);
    hide Dechunk, Flatten, Chunks;
  }
}
