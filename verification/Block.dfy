/** The growable byte buffer. */
module Block {
  import opened Bytes

  const GROW_MIN_BLOCK := 16
  const GROW_EXPONENTIAL_LIMIT := 1024

  class Block {
    var data: array<byte>
    var size: int
    var maxsize: int

    ghost predicate Valid()
      reads this
    {
      0 <= size <= maxsize == data.Length && GROW_MIN_BLOCK <= maxsize
    }

    ghost function Contents(): bytes
      requires Valid()
      reads this, data
    {
      data[..size]
    }

    constructor ()
      ensures Valid() && Contents() == [] && fresh(data)
    {
      data := new byte[GROW_MIN_BLOCK];
      maxsize := GROW_MIN_BLOCK;
      size := 0;
    }

    method Clear()
      requires Valid()
      modifies this`size
      ensures Valid() && Contents() == []
    {
      size := 0;
    }

    // `realloc`: a fresh array with the old bytes in front.
    method Reallocate(n: int)
      requires Valid() && n >= maxsize
      modifies this
      ensures Valid() && fresh(data) && maxsize == n && Contents() == old(Contents()) && size == old(size)
    {
      var copy := new byte[n];
      for i := 0 to size
        modifies copy
        invariant forall k :: 0 <= k < i ==> copy[k] == data[k]
      {
        copy[i] := data[i];
      }
      assert copy[..size] == data[..size];
      data := copy;
      maxsize := n;
    }

    method MinMaxsize(minsize: int)
      requires Valid()
      modifies this
      ensures Valid() && Contents() == old(Contents()) && maxsize >= minsize
      ensures data == old(data) || fresh(data)
    {
      if maxsize < minsize {
        Reallocate(minsize);
      }
    }

    /** One byte more; a full buffer doubles up to 1024 bytes and then grows by 1024. */
    method AddChar(c: byte)
      requires Valid()
      modifies this, data
      ensures Valid() && Contents() == old(Contents()) + [c]
      ensures data == old(data) || fresh(data)
      ensures maxsize <= old(maxsize) + GROW_EXPONENTIAL_LIMIT
    {
      if size >= maxsize {
        var grow := maxsize;
        if grow > GROW_EXPONENTIAL_LIMIT {
          grow := GROW_EXPONENTIAL_LIMIT;
        }
        Reallocate(maxsize + grow);
      }
      data[size] := c;
      size := size + 1;
    }

    /** The contents as a C string: a NUL is put behind them, growing if necessary. */
    method Data() returns (d: array<byte>)
      requires Valid()
      modifies this, data
      ensures Valid() && Contents() == old(Contents()) && (data == old(data) || fresh(data))
      ensures d == data && size < d.Length && d[size] == NUL
      ensures CString(d[..]) == CString(Contents())
    {
      if size == maxsize {
        AddChar(NUL);
        size := size - 1;
      } else {
        data[size] := NUL;
      }
      d := data;
      assert d[..] == Contents() + [NUL] + d[size + 1..];
      CStringStops(Contents(), d[size + 1..]);
    }

    method Rewind(n: int)
      requires Valid() && 0 <= n
      modifies this`size
      ensures Valid()
      ensures Contents() == if old(size) < n then [] else old(Contents())[..old(size) - n]
    {
      if size < n {
        size := 0;
      } else {
        size := size - n;
      }
    }

    /** Appends l bytes of an array, which may be the block's own buffer: the bytes
        appended are those the source held before the call. */
    method AddData(src: array<byte>, off: nat, l: nat)
      requires Valid() && off + l <= src.Length
      modifies this, data
      ensures Valid() && Contents() == old(Contents()) + old(src[off..off + l])
      ensures data == old(data) || fresh(data)
    {
      ghost var was, add := Contents(), src[off..off + l];
      var target := data;
      if size + l > maxsize {
        var grow := l;
        if grow < GROW_MIN_BLOCK {
          grow := GROW_MIN_BLOCK;
        }
        maxsize := size + grow;
        target := Enlarged(maxsize);
      }
      assert target[..size] == was && src[off..off + l] == add;
      Move(target, size, src, off, l);
      assert target[..size + l] == target[..size] + target[size..size + l];
      data := target;
      size := size + l;
    }

    // `realloc`: a larger buffer with the same bytes.
    method Enlarged(n: nat) returns (target: array<byte>)
      requires 0 <= size <= data.Length && size <= n
      ensures fresh(target) && target.Length == n && target[..size] == data[..size]
    {
      target := new byte[n];
      for i := 0 to size
        invariant forall k :: 0 <= k < i ==> target[k] == data[k]
      {
        target[i] := data[i];
      }
    }

    method AddBlock(toadd: Block)
      requires Valid() && toadd.Valid()
      modifies this, data
      ensures Valid() && Contents() == old(Contents()) + old(toadd.Contents())
      ensures data == old(data) || fresh(data)
    {
      AddData(toadd.data, 0, toadd.size);
    }

    // A string that is not in the block: a literal, or an argument.
    method AddString(s: bytes)
      requires Valid()
      modifies this, data
      ensures Valid() && Contents() == old(Contents()) + s
      ensures data == old(data) || fresh(data)
    {
      var src := new byte[|s|](i requires 0 <= i < |s| => s[i]);
      assert src[0..|s|] == s;
      AddData(src, 0, |s|);
    }
  }

  // `memmove`: the ranges may overlap.
  method Move(dst: array<byte>, at: nat, src: array<byte>, off: nat, l: nat)
    requires at + l <= dst.Length && off + l <= src.Length
    modifies dst
    ensures dst[at..at + l] == old(src[off..off + l])
    ensures dst[..at] == old(dst[..at]) && dst[at + l..] == old(dst[at + l..])
  {
    var s := src[off..off + l];
    for i := 0 to l
      invariant forall k :: 0 <= k < i ==> dst[at + k] == s[k]
      invariant forall k :: 0 <= k < dst.Length && !(at <= k < at + i) ==> dst[k] == old(dst[k])
    {
      dst[at + i] := s[i];
    }
  }
}
