/** escapeHtml: the text of a name or note made safe to place inside HTML
    markup, by replacing the five characters HTML gives meaning to with
    character references. */
module Html {
  import opened Text

  const Amp: string := "&amp;"
  const Lt: string := "&lt;"
  const Gt: string := "&gt;"
  const Quot: string := "&quot;"
  const Apos: string := "&#039;"

  /** escapeHtml(str) on a string: five replaceAll passes, the ampersand
      first so that the references the later passes insert are not escaped
      again. */
  function EscapeHtml(s: string): (r: string)
    ensures '<' !in r && '>' !in r && '"' !in r && '\'' !in r
  {
    var r1 := ReplaceAll(s, '&', Amp);
    var r2 := ReplaceAll(r1, '<', Lt);
    var r3 := ReplaceAll(r2, '>', Gt);
    var r4 := ReplaceAll(r3, '"', Quot);
    ReplaceAllNoNew(r2, '>', Gt, '<');
    ReplaceAllNoNew(r3, '"', Quot, '<');
    ReplaceAllNoNew(r3, '"', Quot, '>');
    ReplaceAllNoNew(r4, '\'', Apos, '<');
    ReplaceAllNoNew(r4, '\'', Apos, '>');
    ReplaceAllNoNew(r4, '\'', Apos, '"');
    ReplaceAll(r4, '\'', Apos)
  }

  /** The reference that stands for one character. */
  function EscapeChar(c: char): string {
    if c == '&' then Amp
    else if c == '<' then Lt
    else if c == '>' then Gt
    else if c == '"' then Quot
    else if c == '\'' then Apos
    else [c]
  }

  /** Escaping character by character, in one pass. */
  function Escaped(s: string): string {
    if s == [] then [] else EscapeChar(s[0]) + Escaped(s[1..])
  }

  lemma EscapeOneChar(c: char)
    ensures EscapeHtml([c]) == EscapeChar(c)
  {
    if c == '&' || c == '<' || c == '>' || c == '"' || c == '\'' {
      EscapeSpecial(c);
    } else {
      EscapeOrdinary(c);
    }
  }

  lemma EscapeSpecial(c: char)
    requires c == '&' || c == '<' || c == '>' || c == '"' || c == '\''
    ensures EscapeHtml([c]) == EscapeChar(c)
  {
    if c == '&' {
      EscapeAmpersand();
    } else if c == '<' {
      EscapeLessThan();
    } else if c == '>' {
      EscapeGreaterThan();
    } else if c == '"' {
      EscapeQuote();
    } else {
      EscapeApostrophe();
    }
  }

  /** A text without <, >, " or ' passes the last four replacements unchanged. */
  lemma LastFourPassesKeep(x: string)
    requires '<' !in x && '>' !in x && '"' !in x && '\'' !in x
    ensures ReplaceAll(ReplaceAll(ReplaceAll(ReplaceAll(x, '<', Lt), '>', Gt), '"', Quot), '\'', Apos) == x
  {
    ReplaceAllAbsent(x, '<', Lt);
    ReplaceAllAbsent(x, '>', Gt);
    ReplaceAllAbsent(x, '"', Quot);
    ReplaceAllAbsent(x, '\'', Apos);
  }

  lemma LastThreePassesKeep(x: string)
    requires '>' !in x && '"' !in x && '\'' !in x
    ensures ReplaceAll(ReplaceAll(ReplaceAll(x, '>', Gt), '"', Quot), '\'', Apos) == x
  {
    ReplaceAllAbsent(x, '>', Gt);
    ReplaceAllAbsent(x, '"', Quot);
    ReplaceAllAbsent(x, '\'', Apos);
  }

  lemma LastTwoPassesKeep(x: string)
    requires '"' !in x && '\'' !in x
    ensures ReplaceAll(ReplaceAll(x, '"', Quot), '\'', Apos) == x
  {
    ReplaceAllAbsent(x, '"', Quot);
    ReplaceAllAbsent(x, '\'', Apos);
  }

  lemma LastPassKeeps(x: string)
    requires '\'' !in x
    ensures ReplaceAll(x, '\'', Apos) == x
  {
    ReplaceAllAbsent(x, '\'', Apos);
  }

  lemma EscapeAmpersand()
    ensures EscapeHtml("&") == Amp
  {
    ReplaceAllSingle('&', '&', Amp);
    LastFourPassesKeep(Amp);
  }

  lemma EscapeLessThan()
    ensures EscapeHtml("<") == Lt
  {
    ReplaceAllSingle('<', '&', Amp);
    ReplaceAllSingle('<', '<', Lt);
    LastThreePassesKeep(Lt);
  }

  lemma EscapeGreaterThan()
    ensures EscapeHtml(">") == Gt
  {
    ReplaceAllSingle('>', '&', Amp);
    ReplaceAllSingle('>', '<', Lt);
    ReplaceAllSingle('>', '>', Gt);
    LastTwoPassesKeep(Gt);
  }

  lemma EscapeQuote()
    ensures EscapeHtml("\"") == Quot
  {
    ReplaceAllSingle('"', '&', Amp);
    ReplaceAllSingle('"', '<', Lt);
    ReplaceAllSingle('"', '>', Gt);
    ReplaceAllSingle('"', '"', Quot);
    LastPassKeeps(Quot);
  }

  lemma EscapeApostrophe()
    ensures EscapeHtml("'") == Apos
  {
    ReplaceAllSingle('\'', '&', Amp);
    ReplaceAllSingle('\'', '<', Lt);
    ReplaceAllSingle('\'', '>', Gt);
    ReplaceAllSingle('\'', '"', Quot);
    ReplaceAllSingle('\'', '\'', Apos);
  }

  lemma EscapeOrdinary(c: char)
    requires c != '&' && c != '<' && c != '>' && c != '"' && c != '\''
    ensures EscapeHtml([c]) == [c]
  {
    ReplaceAllSingle(c, '&', Amp);
    ReplaceAllSingle(c, '<', Lt);
    ReplaceAllSingle(c, '>', Gt);
    ReplaceAllSingle(c, '"', Quot);
    ReplaceAllSingle(c, '\'', Apos);
  }

  lemma {:induction false} EscapeHtmlAppend(a: string, b: string)
    ensures EscapeHtml(a + b) == EscapeHtml(a) + EscapeHtml(b)
  {
    var a1, b1 := ReplaceAll(a, '&', Amp), ReplaceAll(b, '&', Amp);
    ReplaceAllAppend(a, b, '&', Amp);
    var a2, b2 := ReplaceAll(a1, '<', Lt), ReplaceAll(b1, '<', Lt);
    ReplaceAllAppend(a1, b1, '<', Lt);
    var a3, b3 := ReplaceAll(a2, '>', Gt), ReplaceAll(b2, '>', Gt);
    ReplaceAllAppend(a2, b2, '>', Gt);
    var a4, b4 := ReplaceAll(a3, '"', Quot), ReplaceAll(b3, '"', Quot);
    ReplaceAllAppend(a3, b3, '"', Quot);
    ReplaceAllAppend(a4, b4, '\'', Apos);
  }

  /** The five passes do exactly what one character-by-character pass does:
      no reference inserted by one pass is touched by a later one. */
  lemma {:induction false} EscapeHtmlIsOnePass(s: string)
    ensures EscapeHtml(s) == Escaped(s)
  {
    if s != [] {
      assert s == [s[0]] + s[1..];
      EscapeHtmlAppend([s[0]], s[1..]);
      EscapeOneChar(s[0]);
      EscapeHtmlIsOnePass(s[1..]);
    }
  }

  // ---------------------------------------------------------------------------
  // Reading escaped text back
  // ---------------------------------------------------------------------------

  predicate StartsWith(s: string, prefix: string) {
    |prefix| <= |s| && s[..|prefix|] == prefix
  }

  /** True when the text at the front of s is one of the five references. */
  predicate StartsWithReference(s: string) {
    StartsWith(s, Amp) || StartsWith(s, Lt) || StartsWith(s, Gt) || StartsWith(s, Quot) || StartsWith(s, Apos)
  }

  /** Every ampersand in r begins one of the five references. */
  predicate AmpersandsAreReferences(r: string) {
    forall i :: 0 <= i < |r| && r[i] == '&' ==> StartsWithReference(r[i..])
  }

  /** Decodes the five references, leaving every other character alone. */
  function Unescape(s: string): string
    decreases |s|
  {
    if s == [] then []
    else if StartsWith(s, Amp) then "&" + Unescape(s[|Amp|..])
    else if StartsWith(s, Lt) then "<" + Unescape(s[|Lt|..])
    else if StartsWith(s, Gt) then ">" + Unescape(s[|Gt|..])
    else if StartsWith(s, Quot) then "\"" + Unescape(s[|Quot|..])
    else if StartsWith(s, Apos) then "'" + Unescape(s[|Apos|..])
    else [s[0]] + Unescape(s[1..])
  }

  lemma UnescapeFront(c: char, rest: string)
    ensures Unescape(EscapeChar(c) + rest) == [c] + Unescape(rest)
  {
    var head := EscapeChar(c);
    var s := head + rest;
    assert s[..|head|] == head && s[|head|..] == rest;
    if c == '&' {
      assert StartsWith(s, Amp);
    } else if c == '<' {
      assert !StartsWith(s, Amp) by { assert s[1] == 'l'; }
      assert StartsWith(s, Lt);
    } else if c == '>' {
      assert !StartsWith(s, Amp) && !StartsWith(s, Lt) by { assert s[1] == 'g'; }
      assert StartsWith(s, Gt);
    } else if c == '"' {
      assert !StartsWith(s, Amp) && !StartsWith(s, Lt) && !StartsWith(s, Gt) by { assert s[1] == 'q'; }
      assert StartsWith(s, Quot);
    } else if c == '\'' {
      assert !StartsWith(s, Amp) && !StartsWith(s, Lt) && !StartsWith(s, Gt) && !StartsWith(s, Quot) by {
        assert s[1] == '#';
      }
      assert StartsWith(s, Apos);
    } else {
      assert s[0] == c && s[1..] == rest;
      assert !StartsWithReference(s) by { assert s[0] != '&'; }
    }
  }

  /** Unescaping undoes escapeHtml: the escaped text still says exactly what
      the original said. */
  lemma {:induction false} UnescapeEscapeHtml(s: string)
    ensures Unescape(EscapeHtml(s)) == s
  {
    EscapeHtmlIsOnePass(s);
    UnescapeEscaped(s);
  }

  lemma {:induction false} UnescapeEscaped(s: string)
    ensures Unescape(Escaped(s)) == s
  {
    if s != [] {
      UnescapeFront(s[0], Escaped(s[1..]));
      UnescapeEscaped(s[1..]);
      assert s == [s[0]] + s[1..];
    }
  }

  /** In escaped text every ampersand begins a reference, so no text the user
      typed can form markup or a reference of its own. */
  lemma {:induction false} EscapeHtmlAmpersands(s: string)
    ensures AmpersandsAreReferences(EscapeHtml(s))
  {
    EscapeHtmlIsOnePass(s);
    EscapedAmpersands(s);
  }

  lemma {:induction false} EscapedAmpersands(s: string)
    ensures AmpersandsAreReferences(Escaped(s))
  {
    if s != [] {
      EscapedAmpersands(s[1..]);
      var head, tail := EscapeChar(s[0]), Escaped(s[1..]);
      var r := head + tail;
      forall i | 0 <= i < |r| && r[i] == '&'
        ensures StartsWithReference(r[i..])
      {
        if i < |head| {
          assert i == 0 && head[0] == '&';
          assert r[..|head|] == head;
        } else {
          assert r[i..] == tail[i - |head|..];
        }
      }
    }
  }
}
