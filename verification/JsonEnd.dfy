/** Which texts the JSON reader reads beyond their end. */
module JsonEnd {
  import opened AATree
  import opened Bytes
  import opened JsonText
  import opened JsonDict
  import JsonRoundTrip

  // ---------- inside and outside of strings ----------

  // How many quotes stand before position i, escaped ones not counted.
  function Quotes(s: bytes, i: nat): nat
    requires i <= |s|
  {
    if i == 0 then 0
    else Quotes(s, i - 1) + if s[i - 1] == QUOTE && Backslashes(s, 0, i - 1) % 2 == 0 then 1 else 0
  }

  predicate Outside(s: bytes, i: nat)
    requires i <= |s|
  {
    Quotes(s, i) % 2 == 0
  }

  // Behind an opening brace or a comma, and any space.
  predicate Follows(s: bytes, j: nat, i: nat) {
    j < i <= |s| && (s[j] == OPEN || s[j] == COMMA) && forall k :: j < k < i ==> IsSpace(s[k])
  }

  ghost predicate KeyPlace(s: bytes, i: nat) {
    exists j: nat :: Follows(s, j, i)
  }

  /** A quote that opens a string which is never closed; or, outside of strings, something
      behind a brace or a comma that is neither a quote nor a closing brace. */
  ghost predicate Unended(s: bytes, i: nat) {
    && i <= |s| && Outside(s, i)
    && if At(s, i) == QUOTE then !Closed(s, i + 1)
       else KeyPlace(s, i) && At(s, i) != CLOSE && !IsSpace(At(s, i))
  }

  /** Where the reader stands between strings: everything before is as it should be. */
  ghost predicate Between(s: bytes, i: nat) {
    i <= |s| && Outside(s, i) && Backslashes(s, 0, i) % 2 == 0 && forall k: nat :: k < i ==> !Unended(s, k)
  }

  lemma KeyPlaceNext(s: bytes, i: nat)
    requires i < |s|
    ensures KeyPlace(s, i + 1) <==> if IsSpace(s[i]) then KeyPlace(s, i) else s[i] == OPEN || s[i] == COMMA
  {
    if j: nat :| Follows(s, j, i) {
      assert IsSpace(s[i]) ==> Follows(s, j, i + 1);
    }
    var next := i + 1;
    if j: nat :| Follows(s, j, next) {
      assert j < i ==> Follows(s, j, i);
    }
    assert s[i] == OPEN || s[i] == COMMA ==> Follows(s, i, i + 1);
  }

  // One character outside of strings.
  lemma CharBetween(s: bytes, i: nat)
    requires i < |s| && Between(s, i) && s[i] != QUOTE && s[i] != BACKSLASH
    requires IsSpace(s[i]) || s[i] == CLOSE || !KeyPlace(s, i)
    ensures Between(s, i + 1)
    ensures KeyPlace(s, i + 1) <==> if IsSpace(s[i]) then KeyPlace(s, i) else s[i] == OPEN || s[i] == COMMA
  {
    hide KeyPlace;
    KeyPlaceNext(s, i);
  }

  lemma {:induction false} SpaceBetween(s: bytes, i: nat)
    requires i <= |s| && Between(s, i)
    ensures Between(s, SkipSpace(s, i)) && (KeyPlace(s, SkipSpace(s, i)) <==> KeyPlace(s, i))
    ensures !IsSpace(At(s, SkipSpace(s, i)))
    decreases |s| - i
  {
    hide Between, KeyPlace;
    if i < |s| && IsSpace(s[i]) {
      CharBetween(s, i);
      SpaceBetween(s, i + 1);
    }
  }

  lemma {:induction false} DigitsBetween(s: bytes, i: nat)
    requires i <= |s| && Between(s, i) && !KeyPlace(s, i)
    ensures Between(s, SkipDigits(s, i)) && !KeyPlace(s, SkipDigits(s, i))
    decreases |s| - i
  {
    hide Between, KeyPlace;
    if i < |s| && IsDigit(s[i]) {
      CharBetween(s, i);
      DigitsBetween(s, i + 1);
    }
  }

  // ---------- along a string ----------

  // A position inside of a string that is not behind half an escape.
  predicate Within(s: bytes, i: nat) {
    i <= |s| && !Outside(s, i) && Backslashes(s, 0, i) % 2 == 0
  }

  lemma CharWithin(s: bytes, i: nat)
    requires i < |s| && Within(s, i) && s[i] != QUOTE && s[i] != BACKSLASH
    ensures Within(s, i + 1)
  {
  }

  lemma EscapeWithin(s: bytes, i: nat)
    requires i + 1 < |s| && Within(s, i) && s[i] == BACKSLASH
    ensures Within(s, i + 2) && !Outside(s, i + 1)
  {
    assert Backslashes(s, 0, i + 1) == 1 + Backslashes(s, 0, i);
    assert Quotes(s, i + 2) == Quotes(s, i + 1) == Quotes(s, i);
  }

  lemma UnitWithin(s: bytes, i: nat)
    requires NulFree(s) && i + 1 < |s| && Within(s, i) && s[i] == BACKSLASH && Hex4(s, i + 2) != 0
    ensures Within(s, i + 6) && forall k :: i <= k < i + 6 ==> !Outside(s, k)
  {
    hide HexBits, Combine;
    HexDigitPlain(s[i + 2]);
    HexDigitPlain(s[i + 3]);
    HexDigitPlain(s[i + 4]);
    HexDigitPlain(s[i + 5]);
    EscapeWithin(s, i);
    CharWithin(s, i + 2);
    CharWithin(s, i + 3);
    CharWithin(s, i + 4);
    CharWithin(s, i + 5);
    hide Outside;
    forall k | i <= k < i + 6 ensures !Outside(s, k) {
      assert k == i || k == i + 1 || k == i + 2 || k == i + 3 || k == i + 4 || k == i + 5;
    }
  }

  // One turn of the reading loop.
  lemma StepWithin(s: bytes, i: nat)
    requires NulFree(s) && Within(s, i) && At(s, i) != QUOTE
    requires ReadStep(s, i, QUOTE).Emit? && ReadStep(s, i, QUOTE).next <= |s|
    ensures var next := ReadStep(s, i, QUOTE).next; Within(s, next) && forall k :: i <= k < next ==> !Outside(s, k)
  {
    hide Within, Outside, Hex4, Supplementary, Utf8;
    WithinMeans(s, i);
    var next := ReadStep(s, i, QUOTE).next;
    if s[i] != BACKSLASH {
      CharWithin(s, i);
    } else if s[i + 1] != LETTER_U {
      EscapeWithin(s, i);
    } else {
      UnitWithin(s, i);
      if next == i + 12 {
        UnitWithin(s, i + 6);
      }
    }
  }

  lemma WithinMeans(s: bytes, i: nat)
    requires Within(s, i)
    ensures i <= |s| && !Outside(s, i)
  {
  }

  // The closing quote is the first position outside again.
  lemma {:induction false} StringWithin(s: bytes, i: nat)
    requires NulFree(s) && Within(s, i) && ReadUntil(s, i, QUOTE).Done?
    ensures var next := ReadUntil(s, i, QUOTE).next;
      && i < next <= |s| && Outside(s, next) && Backslashes(s, 0, next) == 0 && s[next - 1] == QUOTE
      && forall k :: i <= k < next ==> !Outside(s, k)
    decreases |s| - i
  {
    if At(s, i) != QUOTE {
      hide ReadStep, Within, Outside, Backslashes;
      StepWithin(s, i);
      WithinMeans(s, i);
      StringWithin(s, ReadStep(s, i, QUOTE).next);
    } else {
      ClosesHere(s, i);
    }
  }

  lemma ClosesHere(s: bytes, i: nat)
    requires i < |s| && Within(s, i) && s[i] == QUOTE
    ensures Outside(s, i + 1) && Backslashes(s, 0, i + 1) == 0
  {
  }

  // A string that is read has its place in the text.
  lemma StringBetween(s: bytes, i: nat)
    requires NulFree(s) && i < |s| && Between(s, i) && s[i] == QUOTE && Unquote(s, i).Done?
    ensures Between(s, Unquote(s, i).next) && !KeyPlace(s, Unquote(s, i).next)
  {
    hide ReadUntil, Closed, KeyPlace;
    assert Within(s, i + 1);
    StringWithin(s, i + 1);
    OverrunIff(s, i + 1);
    KeyPlaceNext(s, Unquote(s, i).next - 1);
  }

  // A string that is not read to its end, and has no error, is unended.
  lemma StringUnended(s: bytes, i: nat)
    requires NulFree(s) && i < |s| && Between(s, i) && s[i] == QUOTE && Unquote(s, i) == Overrun
    ensures Unended(s, i)
  {
    OverrunIff(s, i + 1);
  }

  // ---------- along a dictionary ----------

  // What the text holds up to where the reader came to, or somewhere.
  ghost predicate Found(s: bytes, o: Outcome) {
    match o
    case Parsed(_, next) => Between(s, next) && !KeyPlace(s, next)
    case Runaway => exists k: nat :: Unended(s, k)
    case Null => true
  }

  // A key that does not begin with a quote is read to the end of the text.
  lemma {:induction false} ReadsToEnd(s: bytes, i: nat)
    requires NulFree(s) && i <= |s| + 2
    ensures ReadUntil(s, i, NUL).Done? ==> ReadUntil(s, i, NUL).next == |s| + 1
    ensures i <= |s| ==> !ReadUntil(s, i, NUL).Overrun?
    decreases |s| + 2 - i
  {
    if i < |s| {
      var step := ReadStep(s, i, NUL);
      assert step.Emit? ==> step.next <= |s|;
      hide ReadStep;
      if step.Emit? {
        ReadsToEnd(s, step.next);
      }
    }
  }

  /** A key is lost if and only if it has no error and is not closed, or not quoted. */
  lemma KeyRunawayIff(s: bytes, i: nat)
    requires NulFree(s) && i <= |s|
    ensures ParseKey(s, i) == KeyRunaway <==> Unquote(s, i) != Bad && (At(s, i) == QUOTE ==> !Closed(s, i + 1))
  {
    hide ReadUntil, Closed;
    if At(s, i) == QUOTE {
      OverrunIff(s, i + 1);
    } else {
      ReadsToEnd(s, i);
    }
  }

  lemma KeyFound(s: bytes, i: nat)
    requires NulFree(s) && Between(s, i) && KeyPlace(s, i) && At(s, i) != CLOSE && !IsSpace(At(s, i))
    ensures ParseKey(s, i) == KeyRunaway ==> Unended(s, i)
    ensures ParseKey(s, i).Key? ==> Between(s, ParseKey(s, i).next) && !KeyPlace(s, ParseKey(s, i).next)
    ensures ParseKey(s, i).Key? ==> !IsSpace(At(s, ParseKey(s, i).next))
  {
    hide KeyPlace, Closed, ReadUntil;
    KeyRunawayIff(s, i);
    if ParseKey(s, i).Key? {
      QuotedKey(s, i);
      hide Between, Unquote;
      StringBetween(s, i);
      var colon := SkipSpace(s, Unquote(s, i).next);
      SpaceBetween(s, Unquote(s, i).next);
      CharBetween(s, colon);
      SpaceBetween(s, colon + 1);
    }
  }

  lemma QuotedKey(s: bytes, i: nat)
    requires NulFree(s) && i <= |s| && ParseKey(s, i).Key?
    ensures i < |s| && s[i] == QUOTE && Unquote(s, i).Done? && Unquote(s, i).next <= |s|
  {
    if At(s, i) != QUOTE {
      ReadsToEnd(s, i);
    }
  }

  lemma {:induction false} ValueFound(s: bytes, i: nat, key: bytes, acc: JTree)
    requires NulFree(s) && Between(s, i) && !KeyPlace(s, i)
    ensures Found(s, ParseValue(s, i, key, acc))
    decreases |s| - i, 1
  {
    hide KeyPlace, Between, Unended, Unquote, ParseDict, SkipDigits;
    BetweenMeans(s, i);
    if At(s, i) == OPEN {
      DictFound(s, i);
    } else if IsDigit(At(s, i)) {
      CharBetween(s, i);
      DigitsBetween(s, i + 1);
    } else if At(s, i) == QUOTE {
      if Unquote(s, i) == Overrun {
        StringUnended(s, i);
      } else if Unquote(s, i).Done? {
        StringBetween(s, i);
      }
    }
  }

  lemma BetweenMeans(s: bytes, i: nat)
    requires Between(s, i)
    ensures i <= |s| && forall k: nat :: k < i ==> !Unended(s, k)
  {
  }

  lemma {:induction false} MemberFound(s: bytes, i: nat, acc: JTree)
    requires NulFree(s) && Between(s, i) && KeyPlace(s, i) && At(s, i) != CLOSE && !IsSpace(At(s, i))
    ensures i <= |s| && Found(s, ParseMember(s, i, acc))
    decreases |s| - i, 2
  {
    hide KeyPlace, Between, Unended, ParseKey, ParseValue;
    BetweenMeans(s, i);
    KeyFound(s, i);
    var k := ParseKey(s, i);
    if k.Key? {
      ValueFound(s, k.next, k.key, acc);
    }
  }

  lemma {:induction false} MembersFound(s: bytes, i: nat, acc: JTree)
    requires NulFree(s) && Between(s, i) && KeyPlace(s, i) && !IsSpace(At(s, i))
    ensures i <= |s| && Found(s, ParseMembers(s, i, acc))
    decreases |s| - i, 3
  {
    hide KeyPlace, Between, Unended, ParseMember, SkipSpace;
    BetweenMeans(s, i);
    if At(s, i) == CLOSE {
      CharBetween(s, i);
      return;
    }
    MemberFound(s, i, acc);
    var m := ParseMember(s, i, acc);
    if m.Parsed? {
      var sep := SkipSpace(s, m.next);
      SpaceBetween(s, m.next);
      if At(s, sep) == CLOSE {
        CharBetween(s, sep);
      } else if At(s, sep) == COMMA {
        CharBetween(s, sep);
        SpaceBetween(s, sep + 1);
        MembersFound(s, SkipSpace(s, sep + 1), m.t);
      }
    }
  }

  lemma {:induction false} DictFound(s: bytes, i: nat)
    requires NulFree(s) && Between(s, i) && !KeyPlace(s, i)
    ensures i <= |s| && Found(s, ParseDict(s, i))
    decreases |s| - i, 0
  {
    hide KeyPlace, Between, Unended, ParseMembers, SkipSpace;
    BetweenMeans(s, i);
    SpaceBetween(s, i);
    var open := SkipSpace(s, i);
    if At(s, open) == OPEN {
      CharBetween(s, open);
      SpaceBetween(s, open + 1);
      MembersFound(s, SkipSpace(s, open + 1), Nil);
    }
  }

  lemma BetweenAtStart(s: bytes)
    ensures Between(s, 0) && !KeyPlace(s, 0)
  {
  }

  /** A text without an error is read beyond its end if and only if it has a string that is
      never closed, or a key that is not quoted. */
  lemma RunawayIff(s: bytes)
    requires NulFree(s) && FromJson(s) != Null
    ensures FromJson(s) == Runaway <==> exists i: nat :: Unended(s, i)
  {
    hide Between, ParseDict;
    BetweenAtStart(s);
    DictFound(s, 0);
    var o := ParseDict(s, 0);
    if o.Parsed? {
      SpaceBetween(s, o.next);
      NoneUnended(s);
    }
  }

  lemma NoneUnended(s: bytes)
    requires Between(s, |s|) && !KeyPlace(s, |s|)
    ensures forall i: nat :: !Unended(s, i)
  {
    hide KeyPlace;
  }

  /** A printed dictionary has none of either. */
  lemma PrintedEnds(t: JTree)
    requires JsonRoundTrip.Storable(t)
    ensures forall i: nat :: !Unended(Print(t), i)
  {
    hide FromJson, Print, Unended, JsonRoundTrip.Storable;
    JsonRoundTrip.JsonRoundTrips(t);
    RunawayIff(Print(t));
  }

  // An opening brace and a letter: the key has no end.
  lemma RunsAway(c: byte)
    requires 0x61 <= c <= 0x7A
    ensures FromJson([OPEN, c]) == Runaway
  {
    var s := [OPEN, c];
    assert SkipSpace(s, 0) == 0 && SkipSpace(s, 1) == 1;
    assert ReadUntil(s, 2, NUL) == Done([], 3);
    assert ReadStep(s, 1, NUL) == Emit([c], 2);
    assert ReadUntil(s, 1, NUL) == Done([c] + [], 3);
    assert ParseKey(s, 1) == KeyRunaway;
    assert ParseMember(s, 1, Nil) == Runaway;
    assert ParseMembers(s, 1, Nil) == Runaway;
    assert ParseDict(s, 0) == Runaway;
  }
}
