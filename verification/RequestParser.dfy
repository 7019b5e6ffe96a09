/** The request parser: tokenizers that keep what they have read between calls, and one
    parsing step after another as far as the input goes. */
module RequestParser {
  import opened Wrappers
  import opened AATree
  import M = Multimap
  import opened Bytes
  import Q = Query
  import opened RequestText

  const STRING := 1001
  const KEY := 1002
  const LINE := 1003
  const NEW_LINE := 1004
  const STRING_NEW_LINE := 1009

  // The input of one call.
  class Buffer {
    const data: bytes
    var size: nat
    var pos: nat

    ghost predicate Valid() reads this { pos <= size <= |data| }

    ghost function Rest(): bytes
      requires Valid()
      reads this
    {
      data[pos..size]
    }

    constructor (data: bytes)
      ensures Valid() && pos == 0 && this.data == data && Rest() == data
    {
      this.data := data;
      size := |data|;
      pos := 0;
    }

    method Next() returns (c: byte)
      requires Valid() && pos < size
      modifies this`pos
      ensures c == data[old(pos)] && pos == old(pos) + 1
    {
      c := data[pos];
      pos := pos + 1;
    }
  }

  lemma Front(data: bytes, pos: nat, size: nat, l: nat)
    requires pos + l <= size <= |data|
    ensures data[pos..pos + l] == data[pos..size][..l]
  {
  }

  // ---------- where a token ends ----------

  lemma ByteOfRest(data: bytes, pos: nat, size: nat, k: nat)
    requires pos + k < size <= |data|
    ensures data[pos..size][k] == data[pos + k]
  {
  }

  lemma StretchGrows(before: bytes, rest: bytes, k: nat)
    requires k < |rest|
    ensures before + rest[..k] + [rest[k]] == before + rest[..k + 1]
  {
  }

  function SpaceAt(s: bytes): (k: nat)
    ensures k <= |s|
  {
    if s == [] || IsSpace(s[0]) then 0 else 1 + SpaceAt(s[1..])
  }

  function DelimiterAt(s: bytes, c: byte): (k: nat)
    ensures k <= |s|
  {
    if s == [] || s[0] == c || s[0] == LF then 0 else 1 + DelimiterAt(s[1..], c)
  }

  // How far a token goes, byte by byte.
  lemma {:induction false} SpaceIs(s: bytes, k: nat)
    requires k <= SpaceAt(s) && k < |s|
    ensures IsSpace(s[k]) <==> SpaceAt(s) == k
  {
    if k > 0 {
      SpaceIs(s[1..], k - 1);
    }
  }

  lemma {:induction false} DelimiterIs(s: bytes, c: byte, k: nat)
    requires k <= DelimiterAt(s, c) && k < |s|
    ensures s[k] == c || s[k] == LF <==> DelimiterAt(s, c) == k
  {
    if k > 0 {
      DelimiterIs(s[1..], c, k - 1);
    }
  }

  lemma NoSpaceBefore(s: bytes)
    ensures forall i :: 0 <= i < SpaceAt(s) ==> !IsSpace(s[i])
    ensures SpaceAt(s) < |s| ==> IsSpace(s[SpaceAt(s)])
  {
    if SpaceAt(s) < |s| {
      SpaceIs(s, SpaceAt(s));
    }
    forall i | 0 <= i < SpaceAt(s) ensures !IsSpace(s[i]) {
      SpaceIs(s, i);
    }
  }

  lemma NoDelimiterBefore(s: bytes, c: byte)
    ensures forall i :: 0 <= i < DelimiterAt(s, c) ==> s[i] != c && s[i] != LF
    ensures DelimiterAt(s, c) < |s| ==> s[DelimiterAt(s, c)] == c || s[DelimiterAt(s, c)] == LF
  {
    if DelimiterAt(s, c) < |s| {
      DelimiterIs(s, c, DelimiterAt(s, c));
    }
    forall i | 0 <= i < DelimiterAt(s, c) ensures s[i] != c && s[i] != LF {
      DelimiterIs(s, c, i);
    }
  }

  lemma {:induction false} NoCRSnoc(s: bytes, c: byte)
    ensures NoCR(s + [c]) == NoCR(s) + if c == CR then [] else [c]
  {
    if s == [] {
      assert [c][1..] == [];
    } else {
      assert (s + [c])[1..] == s[1..] + [c];
      NoCRSnoc(s[1..], c);
      if s[0] != CR {
        Assoc([s[0]], NoCR(s[1..]), if c == CR then [] else [c]);
      }
    }
  }

  lemma {:induction false} NoCRGrows(s: bytes, i: nat)
    requires i <= |s|
    ensures |NoCR(s[..i])| <= |NoCR(s)|
  {
    if i > 0 {
      NoCRGrows(s[1..], i - 1);
      assert s[..i][1..] == s[1..][..i - 1];
    }
  }

  lemma NoCROfNone()
    ensures NoCR([]) == []
  {
  }

  // A text and the first characters of another, without the carriage returns of these.
  ghost function KeyUpTo(t: bytes, s: bytes, k: nat): bytes
    requires k <= |s|
  {
    t + NoCR(s[..k])
  }

  lemma KeyUpToIs(t: bytes, s: bytes, k: nat)
    requires k <= |s|
    ensures KeyUpTo(t, s, k) == t + NoCR(s[..k]) && KeyUpTo(t, s, 0) == t
    ensures k == |s| ==> KeyUpTo(t, s, k) == t + NoCR(s)
  {
    hide NoCR;
    NoCROfNone();
    assert s[..0] == [] && t + [] == t;
    assert s[..|s|] == s;
  }

  // One character more of a key.
  lemma KeyGrows(t: bytes, s: bytes, k: nat, c: byte)
    requires k < DelimiterAt(s, c)
    ensures KeyUpTo(t, s, k + 1) == if s[k] == CR then KeyUpTo(t, s, k) else KeyUpTo(t, s, k) + [s[k]]
    ensures |KeyUpTo(t, s, k + 1)| <= |t| + |NoCR(s[..DelimiterAt(s, c)])|
  {
    hide NoCR, DelimiterAt;
    assert s[..k + 1] == s[..k] + [s[k]];
    NoCRSnoc(s[..k], s[k]);
    NoCRGrows(s[..DelimiterAt(s, c)], k + 1);
    assert s[..DelimiterAt(s, c)][..k + 1] == s[..k + 1];
    if s[k] == CR {
      assert NoCR(s[..k]) + [] == NoCR(s[..k]);
    } else {
      Assoc(t, NoCR(s[..k]), [s[k]]);
    }
  }

  class Token {
    var str: array<byte>
    var pos: nat

    ghost predicate Valid() reads this { str.Length == LIMIT + 1 && pos <= LIMIT }

    // What was read so far.
    ghost function Text(): (r: bytes)
      requires Valid()
      reads this, str
      ensures |r| == pos
    {
      str[..pos]
    }

    constructor ()
      ensures Valid() && pos == 0 && fresh(str)
    {
      str := new byte[LIMIT + 1];
      pos := 0;
    }

    // One byte more.
    method Store(c: byte)
      requires Valid() && pos < LIMIT
      modifies this`pos, str
      ensures Valid() && pos == old(pos) + 1 && Text() == old(Text()) + [c]
    {
      str[pos] := c;
      pos := pos + 1;
      assert str[..pos] == old(str[..pos]) + [c];
    }

    // The terminator; the token is empty again.
    method Finish()
      requires Valid()
      modifies this`pos, str
      ensures Valid() && pos == 0 && str[..old(pos)] == old(Text()) && str[old(pos)] == NUL
    {
      str[pos] := NUL;
      pos := 0;
    }

    /** Reads up to white space. */
    method ReadString(buf: Buffer) returns (code: int)
      requires Valid() && buf.Valid() && pos + SpaceAt(buf.Rest()) < LIMIT
      modifies this`pos, str, buf`pos
      ensures Valid() && buf.Valid()
      ensures var rest, k := old(buf.Rest()), SpaceAt(old(buf.Rest()));
        && (k == |rest| ==> code == OCS_NEED_MORE_DATA && Text() == old(Text()) + rest && buf.pos == buf.size)
        && (k < |rest| ==>
              && code == (if rest[k] == LF then STRING_NEW_LINE else STRING) && pos == 0
              && buf.pos == old(buf.pos) + k + 1
              && str[..old(pos) + k] == old(Text()) + rest[..k] && str[old(pos) + k] == NUL)
    {
      hide SpaceAt, IsSpace;
      ghost var rest := buf.Rest();
      if buf.pos >= buf.size {
        assert rest == [] && Text() + [] == Text();
        return OCS_NEED_MORE_DATA;
      }
      var c := buf.Next();
      ghost var k, before := 0, Text();
      assert rest[..0] == [] && before + [] == before;
      while !IsSpace(c)
        invariant old(buf.pos) + k + 1 == buf.pos <= buf.size && k < |rest| && c == rest[k]
        invariant Valid() && pos == |before| + k < LIMIT && Text() == before + rest[..k] && k <= SpaceAt(rest)
        decreases |rest| - k
      {
        SpaceIs(rest, k);
        StretchGrows(before, rest, k);
        Store(c);
        k := k + 1;
        if buf.pos >= buf.size {
          assert rest[..k] == rest;
          return OCS_NEED_MORE_DATA;
        }
        if pos >= LIMIT {
          assert false;
        }
        c := buf.Next();
        ByteOfRest(buf.data, old(buf.pos), buf.size, k);
      }
      SpaceIs(rest, k);
      code := if c == LF then STRING_NEW_LINE else STRING;
      Finish();
    }

    /** Reads up to a delimiter or a new line, leaving out carriage returns. */
    method ReadUntil(buf: Buffer, delimiter: byte) returns (code: int)
      requires Valid() && buf.Valid() && delimiter != LF && delimiter != CR
      requires pos + |NoCR(buf.Rest()[..DelimiterAt(buf.Rest(), delimiter)])| < LIMIT
      modifies this`pos, str, buf`pos
      ensures Valid() && buf.Valid()
      ensures var rest, k := old(buf.Rest()), DelimiterAt(old(buf.Rest()), delimiter);
        && (k == |rest| ==> code == OCS_NEED_MORE_DATA && Text() == old(Text()) + NoCR(rest) && buf.pos == buf.size)
        && (k < |rest| ==>
              var n := old(pos) + |NoCR(rest[..k])|;
              && code == (if rest[k] == delimiter then STRING else if n == 0 then NEW_LINE else STRING_NEW_LINE)
              && pos == 0 && buf.pos == old(buf.pos) + k + 1
              && str[..n] == old(Text()) + NoCR(rest[..k]) && str[n] == NUL)
    {
      hide DelimiterAt, NoCR, Token.Text, KeyUpTo;
      ghost var rest := buf.Rest();
      if buf.pos >= buf.size {
        assert rest == [];
        KeyUpToIs(Text(), rest, 0);
        return OCS_NEED_MORE_DATA;
      }
      var c := buf.Next();
      ghost var k, before := 0, Text();
      KeyUpToIs(before, rest, 0);
      while c != delimiter && c != LF
        invariant old(buf.pos) + k + 1 == buf.pos <= buf.size && k < |rest| && c == rest[k]
        invariant Valid() && pos < LIMIT && Text() == KeyUpTo(before, rest, k)
        invariant k <= DelimiterAt(rest, delimiter)
        decreases |rest| - k
      {
        DelimiterIs(rest, delimiter, k);
        KeyGrows(before, rest, k, delimiter);
        if c != CR {
          Store(c);
        }
        k := k + 1;
        if buf.pos >= buf.size {
          KeyUpToIs(before, rest, k);
          return OCS_NEED_MORE_DATA;
        }
        if pos >= LIMIT {
          assert false;
        }
        c := buf.Next();
        ByteOfRest(buf.data, old(buf.pos), buf.size, k);
      }
      DelimiterIs(rest, delimiter, k);
      KeyUpToIs(before, rest, k);
      code := STRING;
      if c != delimiter {
        if pos == 0 && c == LF {
          code := NEW_LINE;
        } else {
          code := STRING_NEW_LINE;
        }
      }
      Finish();
    }

    method ReadKey(buf: Buffer) returns (code: int)
      requires Valid() && buf.Valid() && pos + |NoCR(buf.Rest()[..DelimiterAt(buf.Rest(), COLON)])| < LIMIT
      modifies this`pos, str, buf`pos
      ensures Valid() && buf.Valid()
      ensures var rest, k := old(buf.Rest()), DelimiterAt(old(buf.Rest()), COLON);
        && (k == |rest| ==> code == OCS_NEED_MORE_DATA && Text() == old(Text()) + NoCR(rest) && buf.pos == buf.size)
        && (k < |rest| ==>
              var n := old(pos) + |NoCR(rest[..k])|;
              && code == (if rest[k] == COLON then KEY else if n == 0 then NEW_LINE else OCS_INTERNAL_ERROR)
              && pos == 0 && buf.pos == old(buf.pos) + k + 1
              && str[..n] == old(Text()) + NoCR(rest[..k]) && str[n] == NUL)
    {
      code := ReadUntil(buf, COLON);
      if code == STRING {
        code := KEY;
      } else if code == STRING_NEW_LINE {
        code := OCS_INTERNAL_ERROR;
      }
    }

    // A byte of a line, unless the buffer is full or was before.
    method StoreIfRoom(c: byte, ignore: bool) returns (ignore': bool)
      requires Valid() && (ignore ==> pos == LIMIT)
      modifies this`pos, str
      ensures Valid() && (ignore' ==> pos == LIMIT)
      ensures Text() == if |old(Text())| < LIMIT then old(Text()) + [c] else old(Text())
    {
      ignore' := ignore;
      if !ignore && pos >= LIMIT {
        ignore' := true;
      }
      if !ignore' {
        Store(c);
      }
    }

    /** Reads up to a new line; what does not fit is dropped. */
    method ReadLine(buf: Buffer) returns (code: int)
      requires Valid() && buf.Valid()
      modifies this`pos, str, buf`pos
      ensures Valid() && buf.Valid()
      ensures var rest, k := old(buf.Rest()), DelimiterAt(old(buf.Rest()), LF);
        && (k == |rest| ==> code == OCS_NEED_MORE_DATA && Text() == Clip(old(Text()) + rest) && buf.pos == buf.size)
        && (k < |rest| ==>
              var line := Clip(old(Text()) + rest[..k]);
              && code == LINE && buf.pos == old(buf.pos) + k + 1 && pos == |line|
              && if line != [] && line[|line| - 1] == CR then Text() == line[..|line| - 1] + [NUL]
                 else Text() == line && str[pos] == NUL)
    {
      hide DelimiterAt, Clip;
      ghost var rest := buf.Rest();
      if buf.pos >= buf.size {
        assert rest == [] && Text() + [] == Text();
        return OCS_NEED_MORE_DATA;
      }
      var c := buf.Next();
      var ignore := false;
      ghost var k, before := 0, Text();
      assert rest[..0] == [] && before + [] == before;
      while c != LF
        invariant old(buf.pos) + k + 1 == buf.pos <= buf.size && k < |rest| && c == rest[k]
        invariant Valid() && Text() == Clip(before + rest[..k]) && (ignore ==> pos == LIMIT)
        invariant k <= DelimiterAt(rest, LF)
        decreases |rest| - k
      {
        DelimiterIs(rest, LF, k);
        ClipSnoc(before, rest, k);
        ignore := StoreIfRoom(c, ignore);
        k := k + 1;
        if buf.pos >= buf.size {
          assert rest[..k] == rest;
          return OCS_NEED_MORE_DATA;
        }
        c := buf.Next();
        ByteOfRest(buf.data, old(buf.pos), buf.size, k);
      }
      DelimiterIs(rest, LF, k);
      TerminateLine();
      code := LINE;
    }

    // A string ends here: before a carriage return, if there is one.
    method TerminateLine()
      requires Valid()
      modifies str
      ensures Valid()
      ensures var line := old(Text());
        if line != [] && line[|line| - 1] == CR then Text() == line[..|line| - 1] + [NUL]
        else Text() == line && str[pos] == NUL
    {
      if pos > 0 && str[pos - 1] == CR {
        str[pos - 1] := NUL;
      } else {
        str[pos] := NUL;
      }
    }

    /** Reads the rest of a line end. One byte of it is forgotten when the input runs out. */
    method ReadNewLine(buf: Buffer) returns (code: int)
      requires Valid() && buf.Valid() && pos == 0
      modifies this`pos, str, buf`pos
      ensures Valid() && buf.Valid() && pos == 0
      ensures var rest := old(buf.Rest());
        if rest == [] then code == OCS_NEED_MORE_DATA && buf.pos == old(buf.pos)
        else if rest[0] == LF then code == NEW_LINE && buf.pos == old(buf.pos) + 1
        else if |rest| == 1 then code == OCS_NEED_MORE_DATA && buf.pos == buf.size
        else
          && code == (if rest[0] == CR && rest[1] == LF then NEW_LINE else OCS_INTERNAL_ERROR)
          && buf.pos == old(buf.pos) + 2
    {
      ghost var rest := buf.Rest();
      while pos < 2 && buf.size - buf.pos > 0
        invariant Valid() && buf.Valid() && pos <= 2 && buf.pos == old(buf.pos) + pos
        invariant forall i :: 0 <= i < pos ==> str[i] == rest[i]
        invariant pos > 0 ==> rest[0] != LF
      {
        str[pos] := buf.data[buf.pos];
        pos := pos + 1;
        buf.pos := buf.pos + 1;
        if pos == 1 && str[0] == LF {
          pos := 0;
          return NEW_LINE;
        }
      }
      code := OCS_NEED_MORE_DATA;
      if pos == 2 {
        pos := 0;
        if str[0] == CR && str[1] == LF {
          code := NEW_LINE;
        } else {
          code := OCS_INTERNAL_ERROR;
        }
      }
      pos := 0;
    }
  }

  lemma ClipSnoc(t: bytes, s: bytes, k: nat)
    requires k < |s|
    ensures Clip(t + s[..k + 1]) == if |t| + k < LIMIT then Clip(t + s[..k]) + [s[k]] else Clip(t + s[..k])
    ensures |t| + k < LIMIT <==> |Clip(t + s[..k])| < LIMIT
  {
    assert t + s[..k + 1] == t + s[..k] + [s[k]];
  }

  // ---------- stretches of input ----------

  // Reading a string up to white space, in terms of the byte by byte parser.
  lemma StringStretch(sv: Server, st: State, rest: bytes)
    requires st.phase.Method? || st.phase.Url? || st.phase.Version?
    requires |st.tok| < LIMIT && !Feed(sv, st, rest).phase.Overrun?
    ensures var k := SpaceAt(rest);
      && |st.tok| + k < LIMIT
      && (k == |rest| ==> Feed(sv, st, rest) == st.(tok := st.tok + rest, used := st.used + |rest|))
      && (k < |rest| ==>
            Feed(sv, st, rest[..k + 1]) ==
                EndString(st.(tok := st.tok + rest[..k], used := st.used + k + 1), rest[k] == LF))
  {
    hide SpaceAt, IsSpace, Feed, EndString, Step;
    var k := SpaceAt(rest);
    NoSpaceBefore(rest);
    assert rest == rest[..k] + rest[k..];
    FeedPrefix(sv, st, rest[..k], rest[k..]);
    FeedString(sv, st, rest[..k]);
    if k < |rest| {
      assert rest[..k + 1] == rest[..k] + [rest[k]];
      FeedJoins(sv, st, rest[..k], [rest[k]]);
      FeedOne(sv, st.(tok := st.tok + rest[..k], used := st.used + k), rest[k]);
      StringStep(sv, st.(tok := st.tok + rest[..k], used := st.used + k), rest[k]);
    } else {
      assert rest[..k] == rest;
    }
  }

  lemma KeyStretch(sv: Server, st: State, rest: bytes)
    requires st.phase.Key? && |st.tok| < LIMIT && !Feed(sv, st, rest).phase.Overrun?
    ensures var k := DelimiterAt(rest, COLON);
      && |st.tok| + |NoCR(rest[..k])| < LIMIT
      && (k == |rest| ==> Feed(sv, st, rest) == st.(tok := st.tok + NoCR(rest), used := st.used + |rest|))
      && (k < |rest| ==>
            Feed(sv, st, rest[..k + 1]) ==
                KeyByte(sv, st.(tok := st.tok + NoCR(rest[..k]), used := st.used + k + 1), rest[k]))
  {
    hide DelimiterAt, Feed, KeyByte, NoCR, Step;
    var k := DelimiterAt(rest, COLON);
    NoDelimiterBefore(rest, COLON);
    assert rest == rest[..k] + rest[k..];
    FeedPrefix(sv, st, rest[..k], rest[k..]);
    FeedKey(sv, st, rest[..k]);
    if k < |rest| {
      assert rest[..k + 1] == rest[..k] + [rest[k]];
      FeedJoins(sv, st, rest[..k], [rest[k]]);
      FeedOne(sv, st.(tok := st.tok + NoCR(rest[..k]), used := st.used + k), rest[k]);
      KeyStep(sv, st.(tok := st.tok + NoCR(rest[..k]), used := st.used + k), rest[k]);
    } else {
      assert rest[..k] == rest;
    }
  }

  lemma LineStep(sv: Server, st: State)
    requires st.phase.Value?
    ensures Step(sv, st, LF) == EndLine(st.(used := st.used + 1))
  {
    hide EndLine;
  }

  lemma StringStep(sv: Server, st: State, b: byte)
    requires (st.phase.Method? || st.phase.Url? || st.phase.Version?) && IsSpace(b)
    ensures Step(sv, st, b) == EndString(st.(used := st.used + 1), b == LF)
  {
    hide EndString;
  }

  lemma KeyStep(sv: Server, st: State, b: byte)
    requires st.phase.Key?
    ensures Step(sv, st, b) == KeyByte(sv, st.(used := st.used + 1), b)
  {
    hide KeyByte;
  }

  lemma LineStretch(sv: Server, st: State, rest: bytes)
    requires st.phase.Value? && |st.tok| <= LIMIT
    ensures var k := DelimiterAt(rest, LF);
      && (k == |rest| ==> Feed(sv, st, rest) == st.(tok := Clip(st.tok + rest), used := st.used + |rest|))
      && (k < |rest| ==>
            Feed(sv, st, rest[..k + 1]) == EndLine(st.(tok := Clip(st.tok + rest[..k]), used := st.used + k + 1)))
  {
    hide DelimiterAt, Feed, EndLine, Clip, Step;
    var k := DelimiterAt(rest, LF);
    NoDelimiterBefore(rest, LF);
    FeedLine(sv, st, rest[..k]);
    if k < |rest| {
      assert rest[..k + 1] == rest[..k] + [rest[k]];
      FeedJoins(sv, st, rest[..k], [rest[k]]);
      FeedOne(sv, st.(tok := Clip(st.tok + rest[..k]), used := st.used + k), rest[k]);
      LineStep(sv, st.(tok := Clip(st.tok + rest[..k]), used := st.used + k));
    } else {
      assert rest[..k] == rest;
    }
  }

  // As much of a body as there is, and no more than was announced.
  lemma BodyStretch(sv: Server, st: State, rest: bytes)
    requires st.phase.Body? && st.phase.left > 0 && !Feed(sv, st, rest).phase.Overrun?
    ensures var n := st.phase.left;
      && (|rest| < n ==>
            Feed(sv, st, rest) ==
                st.(body := st.body + rest, phase := Body(st.phase.kind, n - |rest|), used := st.used + |rest|))
      && (|rest| >= n ==>
            var end, body := Feed(sv, st, rest), st.body + rest[..n];
            && end.phase == Ready && end.used == st.used + n
            && end.req == match st.phase.kind
                          case Raw => st.req.(data := Some(body))
                          case File => st.req.(file := Some(body))
                          case Form => st.req.(post := QueryDict(CString(body))))
  {
    FeedBody(sv, st, rest);
  }

  // ---------- the parser ----------

  datatype Parse = GET | URL | VERSION | KEY_SKIP_NL | HEADER_KEY | VALUE | MULTILINE_IF_SPACE | SKIP_LEADING_WHITESPACE
    | CONTENT_LENGTH | POST_URLENCODE | PUT_FILE | MULTIPART

  class Parser {
    const server: Server
    const token: Token
    var parser: Parse
    // The header key, or the size of the body and the part of it that was read.
    var key: bytes
    var extraSize: nat
    var body: bytes
    var boundary: bytes
    // The request.
    var verb: nat
    var http11: bool
    var path: Option<bytes>
    var get: Option<Dictionary>
    var headers: Dictionary
    var post: Option<Dictionary>
    var data: Option<bytes>
    var file: Option<bytes>
    // A call that would not return.
    var hung: bool
    ghost var used: nat

    function Request(): Req
      reads `verb, `http11, `path, `get, `headers, `post, `data, `file
    {
      Req(verb, http11, path, get, headers, post, data, file)
    }

    ghost predicate InToken() reads this {
      parser.GET? || parser.URL? || parser.VERSION? || parser.HEADER_KEY? || parser.VALUE? || parser.MULTILINE_IF_SPACE?
      || parser.SKIP_LEADING_WHITESPACE?
    }

    ghost predicate InBody() reads this {
      parser.CONTENT_LENGTH? || parser.POST_URLENCODE? || parser.PUT_FILE?
    }

    ghost function PhaseOf(): Phase
      requires InBody() ==> |body| <= extraSize
      reads this
    {
      match parser
      case GET => Method
      case URL => Url
      case VERSION => Version
      case KEY_SKIP_NL => SkipNL(None)
      case HEADER_KEY => Key
      case VALUE => Value
      case MULTILINE_IF_SPACE => Multiline
      case SKIP_LEADING_WHITESPACE => SkipWs
      case CONTENT_LENGTH => Body(Raw, extraSize - |body|)
      case POST_URLENCODE => Body(Form, extraSize - |body|)
      case PUT_FILE => Body(File, extraSize - |body|)
      case MULTIPART => Multipart(boundary, extraSize)
    }

    ghost predicate Valid()
      reads this, token, token.str
    {
      && token.Valid() && !hung
      && (parser.GET? || parser.URL? || parser.VERSION? || parser.HEADER_KEY? ==> token.pos < LIMIT)
      && (parser.KEY_SKIP_NL? ==> token.pos == 0) && (parser.GET? || parser.URL? ==> get.None?)
      && (parser.MULTILINE_IF_SPACE? ==> Terminated(token.str[..], token.pos))
      && (InBody() ==> |body| < extraSize)
    }

    // The state of the byte by byte parser that this one stands for.
    ghost function Abs(): State
      requires Valid()
      reads this, token, token.str
    {
      State(PhaseOf(), if InToken() then token.Text() else [], key, body, Request(), used)
    }

    constructor (server: Server)
      ensures Valid() && Abs() == Initial() && this.server == server && fresh(token) && fresh(token.str)
    {
      this.server := server;
      token := new Token();
      parser, key, extraSize, body, boundary := GET, [], 0, [], [];
      verb, http11, path, get, headers, post, data, file := 0, false, None, None, Nil, None, None, None;
      hung := false;
      used := 0;
    }

    // What a call has led to, when the byte by byte parser ends in this state.
    ghost predicate After(code: int, st: State)
      reads this, token, token.str
    {
      if hung then st.phase.Hung?
      else if code == OCS_NEED_MORE_DATA then Valid() && Abs() == st
      else if code == OCS_REQUEST_READY then st.phase == Ready && Request() == st.req && used == st.used
      else st.phase == Failed(code) && code < 0
    }

    // The whole of the input leads to end.
    ghost predicate Heads(buf: Buffer, end: State)
      reads this, token, token.str, buf
    {
      Valid() && buf.Valid() && Feed(server, Abs(), buf.Rest()) == end && !end.phase.Overrun?
    }

    // A parsing step has gone some way to end, or all of it.
    ghost predicate Outcome(code: int, end: State, buf: Buffer)
      reads this, token, token.str, buf
    {
      buf.Valid() &&
      if code == OCS_NEED_MORE_DATA && !hung then
        Valid() && if buf.Rest() == [] then Abs() == Forget(end) && !Stopped(end.phase) else Heads(buf, end)
      else After(code, end)
    }

    // Something was read, if there was anything to read.
    ghost predicate Advances(rest: bytes, buf: Buffer)
      reads buf
    {
      buf.Valid() && (|buf.Rest()| < |rest| || buf.Rest() == rest == [])
    }

    // Between two steps.
    lemma Pauses(end: State, buf: Buffer)
      requires Heads(buf, end) && !parser.KEY_SKIP_NL?
      ensures Outcome(OCS_NEED_MORE_DATA, end, buf)
    {
      hide Feed;
      if buf.Rest() == [] {
        FeedNothing(server, Abs());
      }
    }

    // ---------- the body that follows the headers ----------

    method PreparePOST(contentType: bytes) returns (code: int)
      requires Valid() && parser.HEADER_KEY? && token.pos == 0 && Header(Request(), TYPE_NAME) == Some(contentType)
      modifies this`extraSize, this`body, this`boundary, this`parser
      ensures After(code, PreparePost(server, old(Abs()), contentType))
    {
      hide Header, StrStr, AtoL, SizeT, Ascii, Terminated, Feed, Buffer.Valid, CString, Parser.Request,
        RequestText.PrepareParts;
      var contentSize := Header(Request(), LENGTH_NAME);
      if contentSize.None? {
        return OCS_INTERNAL_ERROR;
      }
      var cl := SizeT(AtoL(contentSize.value));
      if cl == 0 {
        return OCS_REQUEST_READY;
      }
      if StrStr(contentType, FORM).Some? {
        if cl > server.maxPost {
          return OCS_INTERNAL_ERROR;
        }
        extraSize, body := cl, [];
        parser := POST_URLENCODE;
        return OCS_NEED_MORE_DATA;
      }
      code := PrepareParts(contentType, cl);
    }

    // A body in parts, with the boundary that the type of the content names.
    method PrepareParts(contentType: bytes, cl: nat) returns (code: int)
      requires Valid() && parser.HEADER_KEY? && token.pos == 0 && cl > 0
      modifies this`extraSize, this`body, this`boundary, this`parser
      ensures After(code, RequestText.PrepareParts(server, old(Abs()), contentType, cl))
    {
      hide StrStr, Ascii, Terminated, Feed, Buffer.Valid, CString, Parser.Request;
      var b := StrStr(contentType, BOUNDARY_IS);
      if b.None? {
        return OCS_INTERNAL_ERROR;
      }
      boundary := contentType[b.value..][|BOUNDARY_IS|..];
      extraSize, body := if cl > server.maxPost then server.maxPost else cl, [];
      parser := MULTIPART;
      code := OCS_NEED_MORE_DATA;
    }

    method PrepareCONTENT_LENGTH() returns (code: int)
      requires Valid() && parser.HEADER_KEY? && token.pos == 0
      requires var cl := Header(Request(), LENGTH_NAME); cl.Some? && AtoI(cl.value) > 0
      modifies this
      ensures After(code, PrepareLength(server, old(Abs()),
        SizeT(AtoL(old(Header(Request(), LENGTH_NAME).value)))))
    {
      hide Header, AtoL, Ascii;
      var cl := SizeT(AtoL(Header(Request(), LENGTH_NAME).value));
      if cl > server.maxPost {
        return OCS_INTERNAL_ERROR;
      }
      NonZeroSize(Header(Request(), LENGTH_NAME).value);
      extraSize, body := cl, [];
      parser := CONTENT_LENGTH;
      code := OCS_NEED_MORE_DATA;
    }

    method PreparePUT() returns (code: int)
      requires Valid() && parser.HEADER_KEY? && token.pos == 0
      modifies this
      ensures After(code, PreparePut(server, old(Abs())))
    {
      hide Header, AtoL, SizeT, Ascii;
      var contentSize := Header(Request(), LENGTH_NAME);
      if contentSize.None? {
        return OCS_INTERNAL_ERROR;
      }
      var cl := SizeT(AtoL(contentSize.value));
      if cl > server.maxFile {
        return OCS_INTERNAL_ERROR;
      }
      if cl == 0 {
        file := Some([]);
        return OCS_REQUEST_READY;
      }
      extraSize, body := cl, [];
      parser := PUT_FILE;
      code := OCS_NEED_MORE_DATA;
    }

    // The empty line behind the headers.
    method HeadersEnd() returns (code: int)
      requires Valid() && parser.HEADER_KEY? && token.pos == 0
      modifies this
      ensures After(code, EndHeaders(server, old(Abs())))
    {
      hide Header, AtoL, SizeT, Ascii, StrStr, PreparePost, PreparePut, PrepareLength;
      if verb == OR_POST {
        var contentType := Header(Request(), TYPE_NAME);
        if contentType.Some?
           && (StrStr(contentType.value, FORM).Some?
               || StrStr(contentType.value, BOUNDARY).Some?) {
          code := PreparePOST(contentType.value);
          return;
        }
      }
      if verb == OR_PUT {
        code := PreparePUT();
        return;
      }
      if Header(Request(), LENGTH_NAME).Some? {
        var n := AtoI(Header(Request(), LENGTH_NAME).value);
        if n > 0 {
          code := PrepareCONTENT_LENGTH();
          return;
        }
      }
      code := OCS_REQUEST_READY;
    }

    // ---------- bodies ----------

    method ParseCONTENT_LENGTH(buf: Buffer, ghost end: State) returns (code: int)
      requires Heads(buf, end) && parser.CONTENT_LENGTH?
      modifies this, buf`pos
      ensures Outcome(code, end, buf) && Advances(old(buf.Rest()), buf)
    {
      hide Feed, QueryDict, CString, Terminated, EndBody;
      ghost var rest := buf.Rest();
      BodyStretch(server, Abs(), rest);
      var length, exit := buf.size - buf.pos, false;
      if length + |body| >= extraSize {
        exit := true;
        length := extraSize - |body|;
      }
      Front(buf.data, buf.pos, buf.size, length);
      body := body + buf.data[buf.pos..buf.pos + length];
      buf.pos := buf.pos + length;
      used := used + length;
      if exit {
        data := Some(body);
        code := OCS_REQUEST_READY;
      } else {
        code := OCS_NEED_MORE_DATA;
        assert rest[..length] == rest && buf.Rest() == [];
      }
    }

    // The bytes go to a file; the write is complete.
    method ParsePUT(buf: Buffer, ghost end: State) returns (code: int)
      requires Heads(buf, end) && parser.PUT_FILE?
      modifies this, buf`pos
      ensures Outcome(code, end, buf) && Advances(old(buf.Rest()), buf)
    {
      hide Feed, QueryDict, CString, Terminated, EndBody;
      ghost var rest := buf.Rest();
      BodyStretch(server, Abs(), rest);
      var length, exit := buf.size - buf.pos, false;
      if length >= extraSize - |body| {
        exit := true;
        length := extraSize - |body|;
      }
      Front(buf.data, buf.pos, buf.size, length);
      body := body + buf.data[buf.pos..buf.pos + length];
      buf.pos := buf.pos + length;
      used := used + length;
      if exit {
        file := Some(body);
        code := OCS_REQUEST_READY;
      } else {
        code := OCS_NEED_MORE_DATA;
        assert rest[..length] == rest && buf.Rest() == [];
      }
    }

    // Bytes of a form: the end of the input moves down by as many.
    method TakeForm(buf: Buffer, l: nat)
      requires buf.Valid() && l <= |buf.Rest()|
      modifies this`body, this`used, buf`size
      ensures buf.Valid() && buf.pos == old(buf.pos) && buf.size == old(buf.size) - l
      ensures body == old(body) + old(buf.Rest())[..l] && used == old(used) + l
    {
      Front(buf.data, buf.pos, buf.size, l);
      body := body + buf.data[buf.pos..buf.pos + l];
      buf.size := buf.size - l;
      used := used + l;
    }

    // The form is copied first; the end of the input moves down instead of the position up.
    method ParsePOST_urlencode(buf: Buffer, ghost end: State) returns (code: int)
      requires Heads(buf, end) && parser.POST_URLENCODE?
      modifies this`body, this`used, this`post, buf`size
      ensures Outcome(code, end, buf) && Advances(old(buf.Rest()), buf)
    {
      hide Feed, QueryDict, CString, Terminated, EndBody;
      ghost var rest := buf.Rest();
      BodyStretch(server, Abs(), rest);
      var l := buf.size - buf.pos;
      if l > extraSize - |body| {
        l := extraSize - |body|;
      }
      TakeForm(buf, l);
      if extraSize == |body| {
        post := QueryDict(CString(body));
        code := OCS_REQUEST_READY;
      } else {
        code := OCS_NEED_MORE_DATA;
        assert rest[..l] == rest && buf.Rest() == [];
      }
    }

    // The parts of a multipart body are not parsed here.
    method ParseMultipart(buf: Buffer, ghost end: State) returns (code: int)
      requires Heads(buf, end) && parser.MULTIPART?
      modifies this, buf`pos
      ensures Outcome(code, end, buf) && Advances(old(buf.Rest()), buf)
    {
      hide Feed;
      FeedMultipart(server, Abs(), buf.Rest());
      body := body + buf.data[buf.pos..buf.size];
      used := used + (buf.size - buf.pos);
      buf.pos := buf.size;
      code := OCS_NEED_MORE_DATA;
    }

    // ---------- headers ----------

    // A key token, and the state before the byte that ended it.
    method NextKey(buf: Buffer, ghost end: State) returns (code: int, ghost mid: State)
      requires Heads(buf, end) && parser.HEADER_KEY?
      modifies this`used, token`pos, token.str, buf`pos
      ensures Advances(old(buf.Rest()), buf)
      ensures code == OCS_NEED_MORE_DATA ==> Outcome(code, end, buf)
      ensures code != OCS_NEED_MORE_DATA ==>
        && (code == KEY || code == NEW_LINE || code == OCS_INTERNAL_ERROR) && token.Valid() && token.pos == 0
        && mid == old(Abs()).(tok := mid.tok, used := used) && CString(token.str[..]) == CString(mid.tok)
        && (code == NEW_LINE ==> mid.tok == []) && (code == OCS_INTERNAL_ERROR ==> mid.tok != [])
        && |buf.Rest()| < |old(buf.Rest())|
        && end == Feed(server, KeyByte(server, mid, if code == KEY then COLON else LF), buf.Rest())
    {
      hide Feed, CString, NoCR, DelimiterAt, KeyByte, Terminated, Outcome, Step, Parser.Request;
      ghost var st, rest, k := Abs(), buf.Rest(), DelimiterAt(buf.Rest(), COLON);
      KeyStretch(server, st, rest);
      if k < |rest| {
        DelimiterIs(rest, COLON, k);
      }
      code := token.ReadKey(buf);
      if code == OCS_NEED_MORE_DATA {
        used := used + |rest|;
        assert rest[..|rest|] == rest && buf.Rest() == [];
        FeedNothing(server, Abs());
        Pauses(end, buf);
        mid := st;
        return;
      }
      used := used + k + 1;
      Remainder(server, st, rest, k + 1);
      assert buf.Rest() == rest[k + 1..];
      mid := st.(tok := st.tok + NoCR(rest[..k]), used := used);
      CStringCut(token.str[..], |mid.tok|);
      assert token.str[..][..|mid.tok|] == mid.tok;
    }

    method ParseKEY(buf: Buffer, ghost end: State) returns (code: int)
      requires Heads(buf, end) && parser.HEADER_KEY?
      modifies this, token`pos, token.str, buf`pos
      ensures Outcome(code, end, buf) && Advances(old(buf.Rest()), buf)
      decreases |buf.Rest()|, 5
    {
      hide Feed, CString, EndHeaders, Terminated, Outcome, Step;
      ghost var mid;
      code, mid := NextKey(buf, end);
      if code == OCS_NEED_MORE_DATA {
        return;
      }
      if code == OCS_INTERNAL_ERROR {
        FeedStopped(server, KeyByte(server, mid, LF), buf.Rest());
        Fails(code, end, buf);
        return;
      }
      if code == NEW_LINE {
        code := HeadersEnd();
        EndsHeaders(code, KeyByte(server, mid, LF), end, buf);
        return;
      }
      key := CString(token.str[..]);
      parser := VALUE;
      code := ParseVALUE(buf, end);
    }

    // The line of a value, or as much of it as there is.
    method NextLine(buf: Buffer, ghost end: State) returns (code: int)
      requires Heads(buf, end) && parser.VALUE?
      modifies this`used, token`pos, token.str, buf`pos
      ensures Advances(old(buf.Rest()), buf) && (code == OCS_NEED_MORE_DATA || code == LINE)
      ensures code == OCS_NEED_MORE_DATA ==> Outcome(code, end, buf)
      ensures code == LINE ==>
        && token.Valid() && Terminated(token.str[..], token.pos) && |buf.Rest()| < |old(buf.Rest())|
        && end == Feed(server, old(Abs()).(phase := Multiline, tok := token.Text(), used := used), buf.Rest())
    {
      hide Feed, CString, Clip, DelimiterAt, AddHeader, Outcome, Step, Parser.Request;
      ghost var st, rest, k := Abs(), buf.Rest(), DelimiterAt(buf.Rest(), LF);
      LineStretch(server, st, rest);
      code := token.ReadLine(buf);
      if code == OCS_NEED_MORE_DATA {
        used := used + |rest|;
        assert buf.Rest() == [];
        FeedNothing(server, Abs());
        Pauses(end, buf);
        return;
      }
      used := used + k + 1;
      Remainder(server, st, rest, k + 1);
      assert buf.Rest() == rest[k + 1..];
    }

    method ParseVALUE(buf: Buffer, ghost end: State) returns (code: int)
      requires Heads(buf, end) && parser.VALUE?
      modifies this, token`pos, token.str, buf`pos
      ensures Outcome(code, end, buf) && Advances(old(buf.Rest()), buf)
      decreases |buf.Rest()|, 4
    {
      hide Feed, Outcome, Step, Terminated, Parser.Request;
      code := NextLine(buf, end);
      if code == LINE {
        parser := MULTILINE_IF_SPACE;
        code := ParseVALUE_multiline_if_space(buf, end);
      }
    }

    // Peeks at the next line. A NUL looks like the end of the input, and when it is not,
    // this step is tried again for ever.
    method ParseVALUE_multiline_if_space(buf: Buffer, ghost end: State) returns (code: int)
      requires Heads(buf, end) && parser.MULTILINE_IF_SPACE?
      modifies this, token`pos, token.str, buf`pos
      ensures Outcome(code, end, buf)
      ensures buf.Valid() && (Advances(old(buf.Rest()), buf)
        || (buf.Rest() == old(buf.Rest()) && (hung || parser.HEADER_KEY?)))
      decreases |buf.Rest()|, 3
    {
      hide Feed, CString, SkipSpaces, M.Insert, Outcome, Step;
      ghost var st, rest := Abs(), buf.Rest();
      var peek := if buf.pos >= buf.size then NUL else buf.data[buf.pos];
      if peek == NUL {
        code := OCS_NEED_MORE_DATA;
        if buf.pos < buf.size {
          hung := true;
          PeekNul(server, st, rest);
          HangsHere(code, end, buf);
        } else {
          Pauses(end, buf);
        }
        return;
      }
      assert rest[0] == peek;
      if peek == SPACE || peek == TAB {
        parser := SKIP_LEADING_WHITESPACE;
        PeekBlank(server, st, rest);
        code := ParseVALUE_skip_leading_whitespace(buf, end);
        return;
      }
      FeedNextLine(server, st, rest);
      CStringCut(token.str[..], token.pos);
      token.pos := 0;
      var p := SkipSpaces(CString(token.str[..]));
      headers := M.Insert(StrCaseCmp, headers, Entry(key, p, OD_HEADER));
      key := [];
      parser := HEADER_KEY;
      code := OCS_NEED_MORE_DATA;
      Pauses(end, buf);
    }

    lemma Fails(code: int, end: State, buf: Buffer)
      requires !hung && buf.Valid() && code < 0 && end.phase == Failed(code)
      ensures Outcome(code, end, buf)
    {
    }

    lemma HangsHere(code: int, end: State, buf: Buffer)
      requires hung && buf.Valid() && end.phase.Hung?
      ensures Outcome(code, end, buf)
    {
    }

    // The value goes on behind one space.
    method ParseVALUE_skip_leading_whitespace(buf: Buffer, ghost end: State) returns (code: int)
      requires Heads(buf, end) && parser.SKIP_LEADING_WHITESPACE?
      modifies this, token`pos, token.str, buf`pos
      ensures Outcome(code, end, buf) && Advances(old(buf.Rest()), buf)
      decreases |buf.Rest()|, 2
    {
      hide Feed, Outcome, Step, Terminated, Parser.Request;
      while buf.pos < buf.size
        invariant Heads(buf, end) && parser.SKIP_LEADING_WHITESPACE?
        invariant Advances(old(buf.Rest()), buf) || buf.Rest() == old(buf.Rest())
        decreases buf.size - buf.pos
      {
        var peek := SkipByte(buf, end);
        if peek == LF {
          Pauses(end, buf);
          return OCS_NEED_MORE_DATA;
        }
        if parser.VALUE? {
          code := ParseVALUE(buf, end);
          return;
        }
      }
      Pauses(end, buf);
      code := OCS_NEED_MORE_DATA;
    }

    // One byte of a line that continues a header: a blank, the end, or the first of the value.
    method SkipByte(buf: Buffer, ghost end: State) returns (peek: byte)
      requires Heads(buf, end) && parser.SKIP_LEADING_WHITESPACE? && buf.pos < buf.size
      modifies this`used, this`parser, token`pos, token.str, buf`pos
      ensures Heads(buf, end) && |buf.Rest()| < |old(buf.Rest())|
      ensures parser == if peek == TAB || peek == SPACE || peek == LF then SKIP_LEADING_WHITESPACE else VALUE
    {
      hide Feed, Step, Terminated, Parser.Request;
      ghost var rest := buf.Rest();
      SkipStretch(server, Abs(), rest);
      peek := buf.Next();
      assert buf.Rest() == rest[1..];
      used := used + 1;
      if peek != TAB && peek != SPACE && peek != LF {
        AppendToToken(peek);
        parser := VALUE;
      }
    }

    method AppendToToken(c: byte)
      requires token.Valid() && token.pos + 2 <= LIMIT
      modifies token`pos, token.str
      ensures token.Valid() && token.Text() == old(token.Text()) + [SPACE, c]
    {
      token.str[token.pos] := SPACE;
      token.pos := token.pos + 1;
      token.str[token.pos] := c;
      token.pos := token.pos + 1;
    }

    method ParseKEY_skip_NL(buf: Buffer, ghost end: State) returns (code: int)
      requires Heads(buf, end) && parser.KEY_SKIP_NL?
      modifies this, token`pos, token.str, buf`pos
      ensures Outcome(code, end, buf) && Advances(old(buf.Rest()), buf)
      decreases |buf.Rest()|, 6
    {
      hide Feed, Step;
      ghost var rest := buf.Rest();
      NewLineStretch(server, Abs(), rest);
      code := token.ReadNewLine(buf);
      if code == OCS_NEED_MORE_DATA {
        used := used + |rest|;
        return;
      }
      if code == OCS_INTERNAL_ERROR {
        return;
      }
      ghost var n := if rest[0] == LF then 1 else 2;
      assert buf.Rest() == rest[n..];
      used := used + n;
      parser := HEADER_KEY;
      code := ParseKEY(buf, end);
    }

    // ---------- the request line ----------

    // A word ends at position k of the input.
    method EndWord(ghost rest: bytes, ghost k: nat, ghost st: State, ghost newline: bool) returns (ghost mid: State)
      requires token.Valid() && k < |rest| && st.used == used && |st.tok| + k < LIMIT
      requires token.str[..|st.tok| + k] == st.tok + rest[..k] && token.str[|st.tok| + k] == NUL
      requires st.phase.Method? || st.phase.Url? || st.phase.Version?
      requires Feed(server, st, rest[..k + 1]) ==
        EndString(st.(tok := st.tok + rest[..k], used := st.used + k + 1), newline)
      modifies this`used
      ensures mid == st.(tok := mid.tok, used := used) && CString(token.str[..]) == CString(mid.tok)
      ensures Feed(server, st, rest) == Feed(server, EndString(mid, newline), rest[k + 1..])
    {
      hide Feed, CString, EndString;
      used := used + k + 1;
      Remainder(server, st, rest, k + 1);
      CStringCut(token.str[..], |st.tok| + k);
      mid := st.(tok := st.tok + rest[..k], used := used);
      assert token.str[..][..|st.tok| + k] == mid.tok;
    }

    // A string token, and the state at its end.
    method NextString(buf: Buffer, ghost end: State) returns (code: int, ghost mid: State)
      requires Heads(buf, end) && (parser.GET? || parser.URL? || parser.VERSION?)
      modifies this`used, token`pos, token.str, buf`pos
      ensures Advances(old(buf.Rest()), buf)
      ensures code == OCS_NEED_MORE_DATA ==> Outcome(code, end, buf)
      ensures code != OCS_NEED_MORE_DATA ==>
        && (code == STRING || code == STRING_NEW_LINE) && token.Valid() && token.pos == 0
        && mid == old(Abs()).(tok := mid.tok, used := used) && CString(token.str[..]) == CString(mid.tok)
        && (mid.phase.Method? || mid.phase.Url? || mid.phase.Version?)
        && |buf.Rest()| < |old(buf.Rest())| && end == Feed(server, EndString(mid, code == STRING_NEW_LINE), buf.Rest())
    {
      hide Feed, Outcome, CString, SpaceAt, IsSpace, Terminated, EndString, Step, Parser.Request;
      ghost var st, rest, k := Abs(), buf.Rest(), SpaceAt(buf.Rest());
      StringStretch(server, st, rest);
      code := token.ReadString(buf);
      if code == OCS_NEED_MORE_DATA {
        used := used + |rest|;
        assert buf.Rest() == [];
        FeedNothing(server, Abs());
        Pauses(end, buf);
        mid := st;
        return;
      }
      assert buf.Rest() == rest[k + 1..];
      mid := EndWord(rest, k, st, code == STRING_NEW_LINE);
    }

    method ParseVERSION(buf: Buffer, ghost end: State) returns (code: int)
      requires Heads(buf, end) && parser.VERSION?
      modifies this, token`pos, token.str, buf`pos
      ensures Outcome(code, end, buf) && Advances(old(buf.Rest()), buf)
      decreases |buf.Rest()|, 7
    {
      hide Feed, Outcome, CString, Terminated, EndString, Parser.Request;
      ghost var mid;
      code, mid := NextString(buf, end);
      if code == OCS_NEED_MORE_DATA {
        return;
      }
      TakeVersion(code == STRING_NEW_LINE, mid, end, buf);
      if parser.KEY_SKIP_NL? {
        code := ParseKEY_skip_NL(buf, end);
      } else {
        code := ParseKEY(buf, end);
      }
    }

    // The version has been read.
    method TakeVersion(newline: bool, ghost mid: State, ghost end: State, buf: Buffer)
      requires Valid() && parser.VERSION? && IsRead(mid, newline, end, buf)
      modifies this`http11, this`get, this`parser
      ensures Heads(buf, end) && parser == if newline then HEADER_KEY else KEY_SKIP_NL
    {
      hide Feed, CString, Ascii, Terminated, EndString;
      VersionMeans(mid, newline);
      if CString(token.str[..]) == HTTP11 {
        http11 := true;
      }
      if get.None? {
        get := Some(Nil);
      }
      parser := if newline then HEADER_KEY else KEY_SKIP_NL;
    }

    // A word has been read, and what it leads to is the end.
    ghost predicate IsRead(mid: State, newline: bool, end: State, buf: Buffer)
      reads this, token, token.str, buf
    {
      && Valid() && token.pos == 0 && mid == Abs().(tok := mid.tok) && CString(token.str[..]) == CString(mid.tok)
      && (mid.phase.Method? || mid.phase.Url? || mid.phase.Version?)
      && buf.Valid() && end == Feed(server, EndString(mid, newline), buf.Rest()) && !end.phase.Overrun?
    }

    method ParseURL(buf: Buffer, ghost end: State) returns (code: int)
      requires Heads(buf, end) && parser.URL?
      modifies this, token`pos, token.str, buf`pos
      ensures Outcome(code, end, buf) && Advances(old(buf.Rest()), buf)
      decreases |buf.Rest()|, 8
    {
      hide Feed, Outcome, CString, Terminated, EndString, Parser.Request;
      ghost var mid;
      code, mid := NextString(buf, end);
      if code == OCS_NEED_MORE_DATA {
        return;
      }
      TakeAddress(code == STRING_NEW_LINE, mid, end, buf);
      if parser.VERSION? {
        code := ParseVERSION(buf, end);
      } else {
        code := ParseKEY(buf, end);
      }
    }

    // The address has been read.
    method TakeAddress(newline: bool, ghost mid: State, ghost end: State, buf: Buffer)
      requires Valid() && parser.URL? && IsRead(mid, newline, end, buf)
      modifies this`path, this`get, this`parser
      ensures Heads(buf, end) && parser == if newline then HEADER_KEY else VERSION
    {
      hide Feed, CString, Terminated, QueryDict, Q.Unquote, Q.IndexOf;
      StaysDefined(server, EndString(mid, newline), buf.Rest());
      ParseQuery(CString(token.str[..]));
      parser := if newline then HEADER_KEY else VERSION;
    }

    // The path and the query of an address, cut at the first question mark.
    method ParseQuery(full: bytes)
      requires var q := Q.IndexOf(full, QUESTION);
        Q.Unquote(full[..q]).Some? && (q < |full| ==> QueryDict(full[q + 1..]).Some?)
      modifies this`path, this`get
      ensures var q := Q.IndexOf(full, QUESTION);
        && path == Some(CString(Q.Unquote(full[..q]).value))
        && get == if q < |full| then QueryDict(full[q + 1..]) else old(get)
    {
      hide CString, Q.Unquote, QueryDict, Q.IndexOf;
      var p := 0;
      while p < |full| && full[p] != QUESTION
        invariant p <= Q.IndexOf(full, QUESTION)
      {
        p := p + 1;
      }
      assert p == Q.IndexOf(full, QUESTION);
      path := Some(CString(Q.Unquote(full[..p]).value));
      if p < |full| {
        get := QueryDict(full[p + 1..]);
      }
    }

    method ParseGET(buf: Buffer, ghost end: State) returns (code: int)
      requires Heads(buf, end) && parser.GET?
      modifies this, token`pos, token.str, buf`pos
      ensures Outcome(code, end, buf) && Advances(old(buf.Rest()), buf)
      decreases |buf.Rest()|, 9
    {
      hide Feed, Outcome, CString, Terminated, Position, Verbs, EndString;
      ghost var mid;
      code, mid := NextString(buf, end);
      if code == OCS_NEED_MORE_DATA {
        return;
      }
      MethodMeans(mid, code == STRING_NEW_LINE);
      var i := FindVerb(CString(token.str[..]));
      if i.None? {
        FeedStopped(server, EndString(mid, code == STRING_NEW_LINE), buf.Rest());
        Fails(OCS_NOT_IMPLEMENTED, end, buf);
        return OCS_NOT_IMPLEMENTED;
      }
      verb := i.value;
      parser := URL;
      code := ParseURL(buf, end);
    }

    method FindVerb(word: bytes) returns (r: Option<nat>)
      ensures r == Position(Verbs(), word)
    {
      hide Verbs, Position;
      var i := 0;
      while i < 16
        invariant i <= |Verbs()| && forall j :: 0 <= j < i ==> Verbs()[j] != word
      {
        if i >= |Verbs()| {
          PositionAbsent(Verbs(), word);
          return None;
        }
        if Verbs()[i] == word {
          PositionOf(Verbs(), i);
          return Some(i);
        }
        i := i + 1;
      }
      assert false;
    }

    // The bytes left, and whether the peek at the next one is still to come.
    ghost function Left(buf: Buffer): (nat, nat)
      requires buf.Valid()
      reads this, buf
    {
      (|buf.Rest()|, if parser.MULTILINE_IF_SPACE? then 1 else 0)
    }

    ghost predicate Fewer(a: (nat, nat), b: (nat, nat)) { a.0 < b.0 || (a.0 == b.0 && a.1 < b.1) }

    lemma GoesOn(end: State, buf: Buffer)
      requires Outcome(OCS_NEED_MORE_DATA, end, buf) && !hung && buf.Rest() != []
      ensures Heads(buf, end)
    {
      hide Feed;
    }

    // The call of the parsing step whose turn it is.
    method Turn(buf: Buffer, ghost end: State) returns (code: int)
      requires Heads(buf, end) && buf.Rest() != []
      modifies this, token`pos, token.str, buf
      ensures Outcome(code, end, buf) && buf.Valid()
      ensures hung || Fewer(Left(buf), old(Left(buf)))
    {
      hide Feed, Outcome, Heads, Parser.Valid, Parser.Request;
      match parser {
        case GET => code := ParseGET(buf, end);
        case URL => code := ParseURL(buf, end);
        case VERSION => code := ParseVERSION(buf, end);
        case KEY_SKIP_NL => code := ParseKEY_skip_NL(buf, end);
        case HEADER_KEY => code := ParseKEY(buf, end);
        case VALUE => code := ParseVALUE(buf, end);
        case MULTILINE_IF_SPACE => code := ParseVALUE_multiline_if_space(buf, end);
        case SKIP_LEADING_WHITESPACE => code := ParseVALUE_skip_leading_whitespace(buf, end);
        case CONTENT_LENGTH => code := ParseCONTENT_LENGTH(buf, end);
        case POST_URLENCODE => code := ParsePOST_urlencode(buf, end);
        case PUT_FILE => code := ParsePUT(buf, end);
        case MULTIPART => code := ParseMultipart(buf, end);
      }
    }

    /** One call with some of the input. It leaves the parser in the state that the bytes
        lead to one by one, or says how the request ended; it always returns, unless
        those bytes hang. */
    method Write(data: bytes) returns (code: int)
      requires Valid() && !Feed(server, Abs(), data).phase.Overrun?
      modifies this, token`pos, token.str
      ensures var end := Feed(server, old(Abs()), data);
        if hung then end.phase.Hung?
        else if code == OCS_NEED_MORE_DATA then Valid() && Abs() == Forget(end) && !Stopped(end.phase)
        else if code == OCS_REQUEST_READY then end.phase == Ready && Request() == end.req && used == end.used
        else end.phase == Failed(code) && code < 0
    {
      hide Feed;
      ghost var end := Feed(server, Abs(), data);
      var odata := new Buffer(data);
      if odata.size == odata.pos {
        FeedNothing(server, Abs());
      }
      code := OCS_NEED_MORE_DATA;
      while odata.size > odata.pos
        invariant Outcome(code, end, odata) && code == OCS_NEED_MORE_DATA && !hung
        decreases Left(odata).0, Left(odata).1
      {
        GoesOn(end, odata);
        code := Turn(odata, end);
        if code != OCS_NEED_MORE_DATA || hung {
          return;
        }
      }
    }

    // What follows the empty line, or the end of the request.
    lemma EndsHeaders(code: int, st: State, end: State, buf: Buffer)
      requires buf.Valid() && After(code, st) && end == Feed(server, st, buf.Rest()) && !end.phase.Overrun?
      requires !st.phase.SkipNL? && !st.phase.Hung?
      ensures Outcome(code, end, buf)
    {
      hide Feed;
      if Stopped(st.phase) {
        FeedStopped(server, st, buf.Rest());
      } else if buf.Rest() == [] {
        FeedNothing(server, st);
      }
    }
  }

  lemma NextByte(sv: Server, st: State, rest: bytes)
    requires rest != []
    ensures Feed(sv, st, rest) == Feed(sv, Step(sv, st, rest[0]), rest[1..])
    ensures !Feed(sv, st, rest).phase.Overrun? ==> !Step(sv, st, rest[0]).phase.Overrun?
  {
    hide Step;
    if Step(sv, st, rest[0]).phase.Overrun? {
      FeedStopped(sv, Step(sv, st, rest[0]), rest[1..]);
    }
  }

  lemma SkipStretch(sv: Server, st: State, rest: bytes)
    requires st.phase.SkipWs? && rest != [] && !Feed(sv, st, rest).phase.Overrun?
    ensures rest[0] == SPACE || rest[0] == TAB || rest[0] == LF ==>
      Feed(sv, st, rest) == Feed(sv, st.(used := st.used + 1), rest[1..])
    ensures rest[0] != SPACE && rest[0] != TAB && rest[0] != LF ==>
      && |st.tok| + 2 <= LIMIT
      && Feed(sv, st, rest) ==
        Feed(sv, st.(used := st.used + 1, phase := Value, tok := st.tok + [SPACE, rest[0]]), rest[1..])
  {
    hide Feed;
    NextByte(sv, st, rest);
  }

  // The second half of a line end, or the whole of a bare one.
  lemma NewLineStretch(sv: Server, st: State, rest: bytes)
    requires st.phase == SkipNL(None)
    ensures rest == [] ==> Feed(sv, st, rest) == st
    ensures rest != [] && rest[0] == LF ==>
      Feed(sv, st, rest) == Feed(sv, st.(phase := Key, used := st.used + 1), rest[1..])
    ensures |rest| == 1 && rest[0] != LF ==>
      Feed(sv, st, rest) == st.(phase := SkipNL(Some(rest[0])), used := st.used + 1)
    ensures |rest| > 1 && rest[0] == CR && rest[1] == LF ==>
      Feed(sv, st, rest) == Feed(sv, st.(phase := Key, used := st.used + 2), rest[2..])
    ensures |rest| > 1 && rest[0] != LF && !(rest[0] == CR && rest[1] == LF) ==>
      Feed(sv, st, rest).phase == Failed(OCS_INTERNAL_ERROR)
  {
    hide Feed;
    if rest == [] {
      FeedNothing(sv, st);
    } else {
      var next := Step(sv, st, rest[0]);
      NextByte(sv, st, rest);
      if |rest| == 1 {
        assert rest[1..] == [];
        FeedNothing(sv, next);
      } else if rest[0] != LF {
        NextByte(sv, next, rest[1..]);
        assert rest[1..][1..] == rest[2..];
        if !(rest[0] == CR && rest[1] == LF) {
          FeedStopped(sv, Step(sv, next, rest[1]), rest[2..]);
        }
      }
    }
  }

  lemma StaysDefined(sv: Server, st: State, s: bytes)
    requires !Feed(sv, st, s).phase.Overrun?
    ensures !st.phase.Overrun?
  {
    if st.phase.Overrun? {
      FeedStopped(sv, st, s);
    }
  }

  lemma {:induction false} PositionAbsent(words: seq<bytes>, w: bytes)
    requires forall j :: 0 <= j < |words| ==> words[j] != w
    ensures Position(words, w) == None
  {
    if words != [] {
      PositionAbsent(words[1..], w);
    }
  }

  lemma PeekNul(sv: Server, st: State, rest: bytes)
    requires st.phase.Multiline? && rest != [] && rest[0] == NUL
    ensures Feed(sv, st, rest).phase.Hung?
  {
    hide Feed;
    NextByte(sv, st, rest);
    FeedStopped(sv, Step(sv, st, rest[0]), rest[1..]);
  }

  // A blank is skipped as the first of the white space.
  lemma PeekBlank(sv: Server, st: State, rest: bytes)
    requires st.phase.Multiline? && rest != [] && (rest[0] == SPACE || rest[0] == TAB)
    ensures Feed(sv, st, rest) == Feed(sv, st.(phase := SkipWs), rest)
  {
    hide Feed;
    NextByte(sv, st, rest);
    NextByte(sv, st.(phase := SkipWs), rest);
  }

  /** Calls with one chunk after another until one of them has a result. However the
      input was cut, the outcome is that of the whole: the same request, ready at the
      same byte, or the same error. */
  method WriteAll(p: Parser, chunks: seq<bytes>) returns (code: int)
    requires p.Valid() && !Feed(p.server, p.Abs(), Flatten(chunks)).phase.Overrun?
    requires !MeetsBadLineEnd(p.server, p.Abs(), Flatten(chunks))
    modifies p, p.token`pos, p.token.str
    ensures var end := Feed(p.server, old(p.Abs()), Flatten(chunks));
      if p.hung then end.phase.Hung?
      else if code == OCS_NEED_MORE_DATA then p.Valid() && p.Abs() == Forget(end) && !Stopped(end.phase)
      else if code == OCS_REQUEST_READY then end.phase == Ready && p.Request() == end.req && p.used == end.used
      else end.phase == Failed(code) && code < 0
  {
    hide Feed, MeetsBadLineEnd;
    ghost var st := p.Abs();
    code := OCS_NEED_MORE_DATA;
    FeedNothing(p.server, st);
    for i := 0 to |chunks|
      invariant p.Valid() && p.Abs() == Forget(Feed(p.server, st, Flatten(chunks[..i])))
      invariant code == OCS_NEED_MORE_DATA && !Stopped(Feed(p.server, st, Flatten(chunks[..i])).phase)
    {
      ghost var a := Flatten(chunks[..i]);
      ghost var more := FlattenRest(chunks, i + 1);
      assert chunks[..i + 1][..i] == chunks[..i];
      assert Flatten(chunks[..i + 1]) == a + chunks[i];
      NextChunk(p.server, st, a, chunks[i], more);
      code := p.Write(chunks[i]);
      if code != OCS_NEED_MORE_DATA || p.hung {
        FeedJoins(p.server, st, a + chunks[i], more);
        FeedStopped(p.server, Feed(p.server, st, a + chunks[i]), more);
        return;
      }
    }
    assert chunks[..|chunks|] == chunks;
  }

  lemma FeedNothing(sv: Server, st: State)
    ensures Feed(sv, st, []) == st
  {
  }

  lemma Remainder(sv: Server, st: State, rest: bytes, n: nat)
    requires n <= |rest|
    ensures Feed(sv, st, rest) == Feed(sv, Feed(sv, st, rest[..n]), rest[n..])
  {
    hide Feed;
    assert rest == rest[..n] + rest[n..];
    FeedJoins(sv, st, rest[..n], rest[n..]);
  }

  lemma NonZeroSize(s: bytes)
    requires AtoI(s) > 0
    ensures SizeT(AtoL(s)) > 0
  {
    hide AtoL;
  }

  // A string in a token buffer that ends within or just behind what was read.
  ghost predicate Terminated(str: bytes, pos: nat) {
    pos < |str| && (str[pos] == NUL || (pos > 0 && str[pos - 1] == NUL))
  }

  lemma {:induction false} CStringCut(str: bytes, n: nat)
    requires n < |str| && (str[n] == NUL || (n > 0 && str[n - 1] == NUL))
    ensures CString(str) == CString(str[..n])
    decreases n
  {
    if n > 0 && str[0] != NUL {
      CStringCut(str[1..], n - 1);
      assert str[..n][1..] == str[1..][..n - 1];
    }
  }
}
