/**
 * escape_md, used when the bot shows a button's id in a Telegram MarkdownV2
 * message: every character that MarkdownV2 reserves gets a backslash in front.
 */
module Markdown {
  /** The characters escape_md escapes, in the order it escapes them. */
  const Specials: string := "_*[]()~`>#+-=|{}.!"

  /** The characters occurring in `s`. */
  function CharSet(s: string): (cs: set<char>)
    ensures forall c :: c in cs <==> c in s
  {
    set c | c in s
  }

  /** `c` with a backslash in front when it is one of `cs`. */
  function EscapeChar(c: char, cs: set<char>): (t: string)
    ensures c in cs ==> t == ['\\', c]
    ensures c !in cs ==> t == [c]
  {
    if c in cs then ['\\', c] else [c]
  }

  /** `s` with a backslash in front of every character of `cs`. */
  function EscapedOnly(s: string, cs: set<char>): string {
    if s == [] then [] else EscapeChar(s[0], cs) + EscapedOnly(s[1..], cs)
  }

  /** The text escape_md returns: each special character escaped once, nothing else touched. */
  function Escaped(s: string): string {
    EscapedOnly(s, CharSet(Specials))
  }

  /** Python's str.replace with a one-character pattern: every `c` becomes `rep`. */
  function ReplaceChar(s: string, c: char, rep: string): (t: string)
    ensures c !in s ==> t == s
  {
    if s == [] then [] else (if s[0] == c then rep else [s[0]]) + ReplaceChar(s[1..], c, rep)
  }

  /** The number of special characters in `s`. */
  function SpecialCount(s: string): nat {
    if s == [] then 0 else (if s[0] in Specials then 1 else 0) + SpecialCount(s[1..])
  }

  /**
   * MarkdownV2's reading of plain text: a backslash makes the character after
   * it an ordinary character and is itself dropped.
   */
  function Unescape(t: string): string {
    if t == [] then []
    else if |t| >= 2 && t[0] == '\\' then [t[1]] + Unescape(t[2..])
    else [t[0]] + Unescape(t[1..])
  }

  /**
   * escape_md: one pass of str.replace per special character.  Each pass only
   * touches its own character and never a backslash, so the passes do not
   * interfere and the result escapes every special character exactly once.
   */
  method EscapeMd(text: string) returns (t: string)
    ensures t == Escaped(text)
  {
    t := text;
    EscapedNothing(text);
    for i := 0 to |Specials|
      invariant t == EscapedOnly(text, CharSet(Specials[..i]))
    {
      var c := Specials[i];
      SpecialsDistinct(i);
      ReplaceEscapes(text, CharSet(Specials[..i]), c);
      CharSetGrows(i);
      t := ReplaceChar(t, c, ['\\', c]);
    }
    assert Specials[..|Specials|] == Specials;
  }

  lemma CharSetGrows(i: nat)
    requires i < |Specials|
    ensures CharSet(Specials[..i]) + {Specials[i]} == CharSet(Specials[..i + 1])
  {
    assert Specials[..i + 1] == Specials[..i] + [Specials[i]];
  }

  lemma {:induction false} EscapedNothing(s: string)
    ensures EscapedOnly(s, CharSet([])) == s
    decreases |s|
  {
    if s != [] {
      EscapedNothing(s[1..]);
    }
  }

  lemma SpecialsDistinct(i: nat)
    requires i < |Specials|
    ensures Specials[i] !in Specials[..i] && Specials[i] != '\\'
  {
  }

  lemma {:induction false} ReplaceConcat(a: string, b: string, c: char, rep: string)
    ensures ReplaceChar(a + b, c, rep) == ReplaceChar(a, c, rep) + ReplaceChar(b, c, rep)
    decreases |a|
  {
    if a != [] {
      assert (a + b)[0] == a[0] && (a + b)[1..] == a[1..] + b;
      ReplaceConcat(a[1..], b, c, rep);
      var head := if a[0] == c then rep else [a[0]];
      assert ReplaceChar(a + b, c, rep) == head + ReplaceChar(a[1..] + b, c, rep);
      assert ReplaceChar(a, c, rep) == head + ReplaceChar(a[1..], c, rep);
    } else {
      assert a + b == b;
    }
  }

  /** One replace pass adds the escapes of one more character to text already escaped for the others. */
  lemma {:induction false} ReplaceEscapes(s: string, cs: set<char>, c: char)
    requires c !in cs && c != '\\'
    ensures ReplaceChar(EscapedOnly(s, cs), c, ['\\', c]) == EscapedOnly(s, cs + {c})
    decreases |s|
  {
    if s != [] {
      ReplaceConcat(EscapeChar(s[0], cs), EscapedOnly(s[1..], cs), c, ['\\', c]);
      ReplaceEscapes(s[1..], cs, c);
      if s[0] in cs {
        assert ReplaceChar(['\\', s[0]], c, ['\\', c]) == ['\\', s[0]] by {
          assert ReplaceChar([s[0]], c, ['\\', c]) == [s[0]];
        }
      }
    }
  }

  /** escape_md lengthens the text by exactly the number of special characters in it. */
  lemma {:induction false} EscapedLength(s: string)
    ensures |Escaped(s)| == |s| + SpecialCount(s)
    decreases |s|
  {
    if s != [] {
      EscapedLength(s[1..]);
      assert Escaped(s) == EscapeChar(s[0], CharSet(Specials)) + Escaped(s[1..]);
    }
  }

  /** Text without special characters is left as it is. */
  lemma {:induction false} EscapedPlain(s: string)
    requires forall i :: 0 <= i < |s| ==> s[i] !in Specials
    ensures Escaped(s) == s
    decreases |s|
  {
    if s != [] {
      EscapedPlain(s[1..]);
      assert Escaped(s) == EscapeChar(s[0], CharSet(Specials)) + Escaped(s[1..]);
    }
  }

  /** For text without backslashes, MarkdownV2 reads back exactly the text that was escaped. */
  lemma {:induction false} UnescapeEscaped(s: string)
    requires '\\' !in s
    ensures Unescape(Escaped(s)) == s
    decreases |s|
  {
    if s != [] {
      var rest := Escaped(s[1..]);
      assert Escaped(s) == EscapeChar(s[0], CharSet(Specials)) + rest;
      assert '\\' !in s[1..];
      UnescapeEscaped(s[1..]);
      if s[0] in Specials {
        assert (['\\', s[0]] + rest)[2..] == rest;
      } else {
        assert ([s[0]] + rest)[1..] == rest;
      }
    }
  }

  /**
   * What MarkdownV2 reads back from the escaped text, described on the text
   * itself: a backslash followed by a character that is not special pairs
   * with it and is lost; everything else comes back.
   */
  function ReadBack(s: string): string {
    if s == [] then []
    else if |s| >= 2 && s[0] == '\\' && s[1] !in Specials then [s[1]] + ReadBack(s[2..])
    else [s[0]] + ReadBack(s[1..])
  }

  lemma {:induction false} UnescapeEscapedReads(s: string)
    ensures Unescape(Escaped(s)) == ReadBack(s)
    decreases |s|
  {
    if s == [] {
    } else if |s| >= 2 && s[0] == '\\' {
      var c, t := s[1], s[2..];
      UnescapeEscapedReads(t);
      ReadsBackslashPair(c, t);
      assert s == ['\\'] + ([c] + t);
    } else {
      var c, t := s[0], s[1..];
      UnescapeEscapedReads(t);
      ReadsOne(c, t);
      assert s == [c] + t;
    }
  }

  /** One step of UnescapeEscapedReads for a character that is not a backslash followed by more. */
  lemma ReadsOne(c: char, t: string)
    requires c != '\\' || t == []
    requires Unescape(Escaped(t)) == ReadBack(t)
    ensures Unescape(Escaped([c] + t)) == ReadBack([c] + t)
  {
    EscapedCons(c, t);
    UnescapeEscapeChar(c, Escaped(t));
    ReadBackCons(c, t);
  }

  /** One step of UnescapeEscapedReads for a backslash followed by a character. */
  lemma ReadsBackslashPair(c: char, t: string)
    requires Unescape(Escaped(t)) == ReadBack(t)
    ensures Unescape(Escaped(['\\'] + ([c] + t))) == ReadBack(['\\'] + ([c] + t))
  {
    EscapedCons('\\', [c] + t);
    EscapedCons(c, t);
    BackslashNotSpecial();
    UnescapeAfterBackslash(c, Escaped(t));
    ReadBackAfterBackslash(c, t);
  }

  lemma EscapedCons(c: char, t: string)
    ensures Escaped([c] + t) == EscapeChar(c, CharSet(Specials)) + Escaped(t)
  {
    assert ([c] + t)[1..] == t;
  }

  /** MarkdownV2 reads an escaped character back as itself, and a lone final backslash too. */
  lemma UnescapeEscapeChar(c: char, rest: string)
    requires c != '\\' || rest == []
    ensures Unescape(EscapeChar(c, CharSet(Specials)) + rest) == [c] + Unescape(rest)
  {
    if c in CharSet(Specials) {
      UnescapePair(c, rest);
    } else if c == '\\' {
      assert EscapeChar(c, CharSet(Specials)) + rest == ['\\'];
    } else {
      UnescapePlain(c, rest);
    }
  }

  lemma ReadBackCons(c: char, t: string)
    requires c != '\\' || t == []
    ensures ReadBack([c] + t) == [c] + ReadBack(t)
  {
    assert ([c] + t)[1..] == t;
  }

  lemma UnescapeAfterBackslash(c: char, rest: string)
    ensures Unescape(['\\'] + (EscapeChar(c, CharSet(Specials)) + rest))
      == (if c in CharSet(Specials) then ['\\', c] else [c]) + Unescape(rest)
  {
    if c in CharSet(Specials) {
      BackslashNotSpecial();
      assert ['\\'] + (EscapeChar(c, CharSet(Specials)) + rest) == ['\\', '\\'] + ([c] + rest);
      UnescapePair('\\', [c] + rest);
      UnescapePlain(c, rest);
    } else {
      assert ['\\'] + (EscapeChar(c, CharSet(Specials)) + rest) == ['\\', c] + rest;
      UnescapePair(c, rest);
    }
  }

  lemma ReadBackAfterBackslash(c: char, t: string)
    ensures ReadBack(['\\'] + ([c] + t))
      == (if c in CharSet(Specials) then ['\\', c] else [c]) + ReadBack(t)
  {
    var s := ['\\'] + ([c] + t);
    assert s[2..] == t && s[1..] == [c] + t;
    if c in CharSet(Specials) {
      BackslashNotSpecial();
      ReadBackCons(c, t);
    }
  }

  /** escape_md never escapes a backslash. */
  lemma BackslashNotSpecial()
    ensures '\\' !in CharSet(Specials)
  {
    forall i | 0 <= i < |Specials| ensures Specials[i] != '\\' {
      SpecialsDistinct(i);
    }
  }

  /** MarkdownV2 reads a backslash and the character after it as that character. */
  lemma UnescapePair(c: char, rest: string)
    ensures Unescape(['\\', c] + rest) == [c] + Unescape(rest)
  {
    assert (['\\', c] + rest)[2..] == rest;
  }

  /** MarkdownV2 reads any other character as itself. */
  lemma UnescapePlain(c: char, rest: string)
    requires c != '\\'
    ensures Unescape([c] + rest) == [c] + Unescape(rest)
  {
    assert ([c] + rest)[1..] == rest;
  }

  lemma {:induction false} ReadBackShorter(s: string, i: nat)
    requires i + 1 < |s| && s[i] == '\\' && s[i + 1] !in Specials
    ensures |ReadBack(s)| < |s|
    decreases |s|
  {
    if !(s[0] == '\\' && s[1] !in Specials) {
      ReadBackShorter(s[1..], i - 1);
    } else {
      ReadBackNoLonger(s[2..]);
    }
  }

  lemma {:induction false} ReadBackNoLonger(s: string)
    ensures |ReadBack(s)| <= |s|
    decreases |s|
  {
    if |s| >= 2 && s[0] == '\\' && s[1] !in Specials {
      ReadBackNoLonger(s[2..]);
    } else if s != [] {
      ReadBackNoLonger(s[1..]);
    }
  }

  /**
   * A backslash is not escaped, so one followed by a character that is not
   * special is swallowed by MarkdownV2 together with the escape it seems to
   * make: the text does not come back.
   */
  lemma BackslashSwallowed(s: string, i: nat)
    requires i + 1 < |s| && s[i] == '\\' && s[i + 1] !in Specials
    ensures Unescape(Escaped(s)) != s
  {
    UnescapeEscapedReads(s);
    ReadBackShorter(s, i);
  }
}
