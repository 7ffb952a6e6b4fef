/** AS2 message and party identifiers in their headers (src/as2.rs, src/as2/client.rs,
    src/builder.rs). */
module Identifiers {
  import opened Wrappers
  import opened Text

  // ---- Message ids -------------------------------------------------------------------

  /** `valid_message_id`, on octets. */
  predicate ValidMessageId(id: string)
  {
    match SplitOnce(id, '@')
    case None => false
    case Some((left, right)) =>
      && left != "" && right != "" && '@' !in right && |id| <= 255
      && forall i :: 0 <= i < |id| ==> '!' <= id[i] <= '~' && id[i] !in "<>\"\\"
  }

  /** One side of a message id: printable, without space, brackets, quotes, backslash or
      another `@`. */
  predicate IsIdPart(s: string)
  {
    s != "" && forall i :: 0 <= i < |s| ==> '!' <= s[i] <= '~' && s[i] !in "<>\"\\@"
  }

  /** Valid ids are exactly two such sides around an `@`, within 255 octets. */
  lemma ValidMessageIdIff(id: string)
    ensures ValidMessageId(id) <==>
              |id| <= 255 && exists left, right :: id == left + "@" + right && IsIdPart(left) && IsIdPart(right)
  {
    if ValidMessageId(id) {
      var p := SplitOnce(id, '@').value;
      ValidHasParts(id, p.0, p.1);
    }
    hide ValidMessageId, IsIdPart;
    if left, right :| id == left + "@" + right && IsIdPart(left) && IsIdPart(right) {
      PartsAreValid(id, left, right);
    }
  }

  lemma ValidHasParts(id: string, left: string, right: string)
    requires ValidMessageId(id) && SplitOnce(id, '@') == Some((left, right))
    ensures |id| <= 255 && id == left + "@" + right && IsIdPart(left) && IsIdPart(right)
  {
    hide SplitOnce;
    assert id == left + ['@'] + right;
    assert forall i :: 0 <= i < |left| ==> left[i] == id[i] && left[i] in left;
    assert forall i :: 0 <= i < |right| ==> right[i] == id[|left| + 1 + i] && right[i] in right;
  }

  lemma PartsAreValid(id: string, left: string, right: string)
    requires id == left + "@" + right && IsIdPart(left) && IsIdPart(right)
    ensures |id| <= 255 ==> ValidMessageId(id)
  {
    assert '@' !in left && '@' !in right;
    assert id == left + ['@'] + right;
    SplitOnceAt(left, '@', right);
    hide SplitOnce;
    forall i | 0 <= i < |id| ensures '!' <= id[i] <= '~' && id[i] !in "<>\"\\" {
      if i < |left| {
        assert id[i] == left[i];
      } else if i > |left| {
        assert id[i] == right[i - |left| - 1];
      }
    }
  }

  function Bracketed(id: string): string
  {
    "<" + id + ">"
  }

  function StripPrefix(s: string, c: char): string
  {
    if s != "" && s[0] == c then s[1..] else s
  }

  function StripSuffix(s: string, c: char): string
  {
    if s != "" && s[|s| - 1] == c then s[..|s| - 1] else s
  }

  /** `normalize_message_id`. */
  function Normalized(id: string): string
  {
    Trim(StripSuffix(StripPrefix(Trim(id), '<'), '>'))
  }

  /** In angle brackets an id keeps all but its surrounding space, so it survives
      exactly when it has none; every id the sender accepts does. */
  lemma MessageIdSurvives(id: string)
    ensures Normalized(Bracketed(id)) == Trim(id)
    ensures ValidMessageId(id) ==> Normalized(Bracketed(id)) == id
  {
    TrimKeeps(Bracketed(id));
    assert Bracketed(id)[1..] == id + ">";
    assert (id + ">")[..|id|] == id;
    TrimKeeps(id);
    if ValidMessageId(id) {
      assert !IsSpace(id[0]) && !IsSpace(id[|id| - 1]);
    }
  }

  /** A bracket on one side only is removed as well, and an id without brackets kept. */
  lemma UnpairedBrackets(id: string)
    requires id != "" && Trim(id) == id && id[0] != '<' && id[|id| - 1] != '>'
    ensures Normalized(id) == id && Normalized("<" + id) == id && Normalized(id + ">") == id
  {
    TrimKeeps(id);
    TrimKeeps("<" + id);
    TrimKeeps(id + ">");
    assert ("<" + id)[1..] == id && (id + ">")[..|id|] == id;
  }

  // ---- Party ids ------------------------------------------------------------------------

  /** `is_as2_id`. */
  predicate IsAs2Id(id: string)
  {
    1 <= |id| <= 128 && forall i :: 0 <= i < |id| ==> ' ' <= id[i] <= '~'
  }

  predicate NeedsQuotes(id: string)
  {
    ' ' in id || '"' in id || '\\' in id
  }

  function Replace(s: string, c: char, with: string): string
  {
    if s == "" then "" else (if s[0] == c then with else [s[0]]) + Replace(s[1..], c, with)
  }

  /** `header_id`. */
  function HeaderId(id: string): string
  {
    if NeedsQuotes(id) then "\"" + Escaped(id) + "\"" else id
  }

  /** A backslash stands for the character behind it; one at the end for nothing. */
  function Unescaped(s: string): string
  {
    if s == "" then ""
    else if s[0] != '\\' then [s[0]] + Unescaped(s[1..])
    else if |s| == 1 then ""
    else [s[1]] + Unescaped(s[2..])
  }

  predicate IsQuoted(v: string)
  {
    |v| >= 2 && v[0] == '"' && v[|v| - 1] == '"'
  }

  function ParsedHeaderId(value: string): string
  {
    var v := Trim(value);
    if IsQuoted(v) then Unescaped(v[1..|v| - 1]) else v
  }

  /** `parse_header_id`, with its escape flag. */
  method ParseHeaderId(value: string) returns (id: string)
    ensures id == ParsedHeaderId(value)
  {
    var v := Trim(value);
    if !IsQuoted(v) {
      return v;
    }
    id := Unescape(v[1..|v| - 1]);
  }

  method Unescape(inner: string) returns (out: string)
    ensures out == Unescaped(inner)
  {
    out := "";
    var escaped := false;
    assert inner[0..] == inner;
    hide Unescaped;
    for i := 0 to |inner|
      invariant UnescapeUnderWay(inner, i, escaped, out)
    {
      var c := inner[i];
      UnescapeGoesOn(inner, i, escaped, out);
      if escaped {
        out := out + [c];
        escaped := false;
      } else if c == '\\' {
        escaped := true;
      } else {
        out := out + [c];
      }
    }
    UnescapeEnds(inner, escaped, out);
  }

  /** The text still to read, behind the backslash that was read last, if any. */
  function Left(inner: string, i: nat, escaped: bool): string
    requires i <= |inner|
  {
    if escaped then ['\\'] + inner[i..] else inner[i..]
  }

  ghost predicate UnescapeUnderWay(inner: string, i: nat, escaped: bool, out: string)
    requires i <= |inner|
  {
    Unescaped(inner) == out + Unescaped(Left(inner, i, escaped))
  }

  lemma UnescapeGoesOn(inner: string, i: nat, escaped: bool, out: string)
    requires i < |inner| && UnescapeUnderWay(inner, i, escaped, out)
    ensures if escaped || inner[i] != '\\' then UnescapeUnderWay(inner, i + 1, false, out + [inner[i]])
            else UnescapeUnderWay(inner, i + 1, true, out)
  {
    var c, more := inner[i], inner[i + 1..];
    hide Unescaped;
    LeftUnfolds(inner, i);
    if escaped {
      UnescapedPair(c, more);
      Regroup(out, c, Unescaped(more));
    } else if c != '\\' {
      UnescapedPlain(c, more);
      Regroup(out, c, Unescaped(more));
    }
    hide Left;
  }

  lemma LeftUnfolds(inner: string, i: nat)
    requires i < |inner|
    ensures Left(inner, i, false) == [inner[i]] + inner[i + 1..]
    ensures Left(inner, i, true) == ['\\'] + ([inner[i]] + inner[i + 1..])
    ensures Left(inner, i + 1, false) == inner[i + 1..] && Left(inner, i + 1, true) == ['\\'] + inner[i + 1..]
  {
    assert inner[i..] == [inner[i]] + inner[i + 1..];
  }

  lemma Regroup(out: string, c: char, more: string)
    ensures out + ([c] + more) == out + [c] + more
  {
  }

  lemma UnescapeEnds(inner: string, escaped: bool, out: string)
    requires UnescapeUnderWay(inner, |inner|, escaped, out)
    ensures out == Unescaped(inner)
  {
    assert inner[|inner|..] == "" && ['\\'] + "" == "\\";
    assert Unescaped(Left(inner, |inner|, escaped)) == "";
  }

  lemma UnescapedPair(c: char, more: string)
    ensures Unescaped(['\\'] + ([c] + more)) == [c] + Unescaped(more)
  {
    var s := ['\\'] + ([c] + more);
    assert s[1] == c && s[2..] == more;
  }

  lemma UnescapedPlain(c: char, more: string)
    requires c != '\\'
    ensures Unescaped([c] + more) == [c] + Unescaped(more)
  {
    assert ([c] + more)[1..] == more;
  }

  lemma ReplaceCons(c: char, s: string, x: char, with: string)
    ensures Replace([c] + s, x, with) == (if c == x then with else [c]) + Replace(s, x, with)
  {
    assert ([c] + s)[1..] == s;
  }

  function Escaped(id: string): string
  {
    Replace(Replace(id, '\\', "\\\\"), '"', "\\\"")
  }

  /** The two replacements put a backslash before each backslash and quote. */
  lemma EscapedCons(c: char, id: string)
    ensures Escaped([c] + id) == (if c == '\\' || c == '"' then ['\\'] + ([c] + Escaped(id)) else [c] + Escaped(id))
  {
    var once := Replace(id, '\\', "\\\\");
    ReplaceCons(c, id, '\\', "\\\\");
    hide Replace;
    if c == '\\' {
      assert "\\\\" + once == ['\\'] + (['\\'] + once);
      ReplaceCons('\\', ['\\'] + once, '"', "\\\"");
      ReplaceCons('\\', once, '"', "\\\"");
    } else {
      ReplaceCons(c, once, '"', "\\\"");
      assert "\\\"" + Escaped(id) == ['\\'] + (['"'] + Escaped(id));
    }
  }

  lemma {:induction false} EscapeUndone(id: string)
    ensures Unescaped(Escaped(id)) == id
  {
    if id != "" {
      var c, more := id[0], id[1..];
      assert id == [c] + more;
      EscapeUndone(more);
      EscapedCons(c, more);
      hide Escaped;
      UnescapedPair(c, Escaped(more));
      if c != '\\' { UnescapedPlain(c, Escaped(more)); }
    }
  }

  /** A party id survives its header exactly when it is quoted there or has no space at
      its ends; every AS2 id does. */
  lemma PartyIdSurvives(id: string)
    ensures ParsedHeaderId(HeaderId(id)) == id <==> NeedsQuotes(id) || Trim(id) == id
    ensures IsAs2Id(id) ==> ParsedHeaderId(HeaderId(id)) == id
  {
    var v := HeaderId(id);
    TrimKeeps(v);
    if NeedsQuotes(id) {
      assert v[1..|v| - 1] == Escaped(id);
      EscapeUndone(id);
    } else {
      TrimmedIsPart(id);
      if IsAs2Id(id) {
        assert id[0] in id && id[|id| - 1] in id;
      }
    }
  }

  /** An id is written as it is exactly when it has no space, quote or backslash. */
  lemma PlainIdIsPlain(id: string)
    ensures HeaderId(id) == id <==> ' ' !in id && '"' !in id && '\\' !in id
  {
    EscapedLength(id);
  }

  lemma {:induction false} EscapedLength(id: string)
    ensures |Escaped(id)| >= |id|
  {
    if id != "" {
      EscapedLength(id[1..]);
      EscapedCons(id[0], id[1..]);
      assert id == [id[0]] + id[1..];
      hide Escaped;
    }
  }

  /** Trimmed text holds no character the text does not. */
  lemma TrimmedIsPart(s: string)
    ensures forall c :: c in Trim(s) ==> c in s
    ensures Trim(s) != "" ==> Trim(s)[0] in s
  {
    StartIsPart(s);
    EndIsPart(TrimStart(s));
    assert Trim(s) != "" ==> Trim(s)[0] in Trim(s);
  }

  lemma {:induction false} StartIsPart(s: string)
    ensures forall c :: c in TrimStart(s) ==> c in s
  {
    if s != "" && IsSpace(s[0]) { StartIsPart(s[1..]); }
  }

  lemma {:induction false} EndIsPart(s: string)
    ensures forall c :: c in TrimEnd(s) ==> c in s
  {
    if s != "" && IsSpace(s[|s| - 1]) { EndIsPart(s[..|s| - 1]); }
  }
}
