/** String helpers that the tracker's code takes from the JavaScript runtime:
    decimal rendering (String(n)), decimal reading (Number(s) on digit runs),
    padStart, split on a one-character separator, trim, and replaceAll with a
    one-character pattern. Strings are sequences of characters. */
module Text {

  // ---------------------------------------------------------------------------
  // Decimal digits
  // ---------------------------------------------------------------------------

  predicate IsDigit(c: char) {
    '0' <= c <= '9'
  }

  /** True when every character of s is an ASCII decimal digit (s may be empty). */
  predicate IsDigits(s: string) {
    forall i :: 0 <= i < |s| ==> IsDigit(s[i])
  }

  function DigitValue(c: char): (v: nat)
    requires IsDigit(c)
    ensures v < 10
  {
    (c as int - '0' as int) as nat
  }

  function DigitChar(v: nat): (c: char)
    requires v < 10
    ensures IsDigit(c) && DigitValue(c) == v
  {
    ('0' as int + v) as char
  }

  /** The value of a run of decimal digits, as Number(s) reads it; the empty
      run reads as 0, and leading zeros are allowed. */
  function ParseDigits(s: string): nat
    requires IsDigits(s)
  {
    if s == [] then 0 else ParseDigits(s[..|s| - 1]) * 10 + DigitValue(s[|s| - 1])
  }

  /** String(n) for a natural number: shortest decimal rendering. */
  function NatToString(n: nat): (r: string)
    ensures r != [] && IsDigits(r)
    ensures ParseDigits(r) == n
    ensures r[0] == '0' ==> r == "0"
    ensures n < 10 ==> |r| == 1
    ensures n < 100 ==> |r| <= 2
    decreases n
  {
    if n < 10 then [DigitChar(n)]
    else
      var front := NatToString(n / 10);
      var r := front + [DigitChar(n % 10)];
      assert r[..|r| - 1] == front;
      r
  }

  /** String(i) for an integer: a minus sign in front of the magnitude when negative. */
  function IntToString(i: int): (r: string)
    ensures i >= 0 ==> IsDigits(r) && ParseDigits(r) == i
    ensures i < 0 ==> |r| > 1 && r[0] == '-' && IsDigits(r[1..]) && ParseDigits(r[1..]) == -i
  {
    if i < 0 then "-" + NatToString(-i) else NatToString(i)
  }

  // ---------------------------------------------------------------------------
  // padStart
  // ---------------------------------------------------------------------------

  /** s.padStart(width, fill) with a one-character fill: fill characters are
      put in front until the length reaches width; a string already that long
      is returned as is. */
  function PadStart(s: string, width: nat, fill: char): (r: string)
    ensures |r| == if |s| >= width then |s| else width
    ensures r[|r| - |s|..] == s
    ensures forall i :: 0 <= i < |r| - |s| ==> r[i] == fill
    decreases width - |s|
  {
    if |s| >= width then s
    else
      var t := [fill] + s;
      var r := PadStart(t, width, fill);
      assert r[|r| - |t|..] == t;
      assert r[|r| - |s|..] == t[1..];
      r
  }

  lemma {:induction false} ParseDigitsLeadingZero(s: string)
    requires IsDigits(s)
    ensures IsDigits("0" + s) && ParseDigits("0" + s) == ParseDigits(s)
    decreases |s|
  {
    if s != [] {
      var front := s[..|s| - 1];
      assert ("0" + s)[..|"0" + s| - 1] == "0" + front;
      ParseDigitsLeadingZero(front);
    } else {
      assert ("0" + s)[..0] == [];
    }
  }

  /** Two-digit field as produced by String(n).padStart(2, "0"). */
  function TwoDigits(n: nat): (r: string)
    requires n < 100
    ensures |r| == 2 && IsDigits(r) && ParseDigits(r) == n
  {
    var digits := NatToString(n);
    var r := PadStart(digits, 2, '0');
    if |digits| >= 2 then r
    else
      assert r == "0" + digits;
      ParseDigitsLeadingZero(digits);
      r
  }

  // ---------------------------------------------------------------------------
  // split
  // ---------------------------------------------------------------------------

  /** s.split(sep) for a one-character separator: the maximal separator-free
      fields, in order; always at least one field. */
  function Split(s: string, sep: char): (parts: seq<string>)
    ensures |parts| >= 1
    ensures forall i :: 0 <= i < |parts| ==> sep !in parts[i]
  {
    if s == [] then [[]]
    else
      var rest := Split(s[1..], sep);
      if s[0] == sep then [[]] + rest
      else [[s[0]] + rest[0]] + rest[1..]
  }

  /** Joining the fields with the separator gives back the string. */
  function Join(parts: seq<string>, sep: char): string
  {
    if |parts| <= 1 then (if parts == [] then [] else parts[0])
    else parts[0] + [sep] + Join(parts[1..], sep)
  }

  lemma {:induction false} JoinSplit(s: string, sep: char)
    ensures Join(Split(s, sep), sep) == s
  {
    if s != [] {
      var rest := Split(s[1..], sep);
      JoinSplit(s[1..], sep);
      if s[0] == sep {
        assert Split(s, sep) == [[]] + rest;
        assert ([[]] + rest)[1..] == rest;
      } else {
        var parts := Split(s, sep);
        assert parts == [[s[0]] + rest[0]] + rest[1..];
        if |rest| == 1 {
          assert s == [s[0]] + s[1..];
        } else {
          assert parts[1..] == rest[1..];
          assert Join(rest, sep) == rest[0] + [sep] + Join(rest[1..], sep);
          assert s == [s[0]] + s[1..];
        }
      }
    }
  }

  lemma {:induction false} SplitNoSeparator(a: string, sep: char)
    requires sep !in a
    ensures Split(a, sep) == [a]
  {
    if a != [] {
      assert sep !in a[1..];
      SplitNoSeparator(a[1..], sep);
      assert [a[0]] + a[1..] == a;
    }
  }

  lemma {:induction false} SplitAtSeparator(a: string, rest: string, sep: char)
    requires sep !in a
    ensures Split(a + [sep] + rest, sep) == [a] + Split(rest, sep)
  {
    var s := a + [sep] + rest;
    if a == [] {
      assert s[1..] == rest;
    } else {
      assert s[1..] == a[1..] + [sep] + rest;
      assert sep !in a[1..];
      SplitAtSeparator(a[1..], rest, sep);
      assert [a[0]] + a[1..] == a;
    }
  }

  /** Three separator-free fields joined by the separator split back into exactly those fields. */
  lemma SplitThree(a: string, b: string, c: string, sep: char)
    requires sep !in a && sep !in b && sep !in c
    ensures Split(a + [sep] + b + [sep] + c, sep) == [a, b, c]
  {
    assert a + [sep] + b + [sep] + c == a + [sep] + (b + [sep] + c);
    SplitAtSeparator(a, b + [sep] + c, sep);
    SplitAtSeparator(b, c, sep);
    SplitNoSeparator(c, sep);
  }

  lemma DigitsHaveNoSeparator(s: string, sep: char)
    requires IsDigits(s) && !IsDigit(sep)
    ensures sep !in s
  {
  }

  // ---------------------------------------------------------------------------
  // trim
  // ---------------------------------------------------------------------------

  /** The characters String.prototype.trim removes: the ECMAScript WhiteSpace
      (tab, vertical tab, form feed, no-break space, byte-order mark and the
      Unicode space separators) and LineTerminator code points. */
  predicate IsSpace(c: char) {
    || c == '\t' || c == '\n' || c == '\U{000B}' || c == '\U{000C}' || c == '\r'
    || c == ' ' || c == '\U{00A0}' || c == '\U{1680}'
    || ('\U{2000}' <= c <= '\U{200A}')
    || c == '\U{2028}' || c == '\U{2029}' || c == '\U{202F}' || c == '\U{205F}'
    || c == '\U{3000}' || c == '\U{FEFF}'
  }

  predicate AllSpace(s: string) {
    forall i :: 0 <= i < |s| ==> IsSpace(s[i])
  }

  /** s[i..j] is what trimming s leaves: everything outside it is white space,
      and inside it neither end is white space. */
  predicate TrimBounds(s: string, i: int, j: int) {
    && 0 <= i <= j <= |s|
    && AllSpace(s[..i]) && AllSpace(s[j..])
    && (i < j ==> !IsSpace(s[i]) && !IsSpace(s[j - 1]))
  }

  function LeadingSpace(s: string): (n: nat)
    ensures n <= |s| && AllSpace(s[..n])
    ensures n < |s| ==> !IsSpace(s[n])
  {
    if s == [] || !IsSpace(s[0]) then 0
    else
      var n := 1 + LeadingSpace(s[1..]);
      assert forall k :: 1 <= k < n ==> s[k] == s[1..][k - 1];
      n
  }

  function TrailingSpace(s: string): (n: nat)
    ensures n <= |s| && AllSpace(s[|s| - n..])
    ensures n < |s| ==> !IsSpace(s[|s| - n - 1])
  {
    if s == [] || !IsSpace(s[|s| - 1]) then 0
    else
      var front := s[..|s| - 1];
      var n := 1 + TrailingSpace(front);
      assert forall k :: |s| - n <= k < |s| - 1 ==> s[k] == front[k];
      n
  }

  /** s.trim(). */
  function Trim(s: string): (r: string)
    ensures exists i, j :: TrimBounds(s, i, j) && r == s[i..j]
    ensures r == [] <==> AllSpace(s)
  {
    var i := LeadingSpace(s);
    if i == |s| then
      assert TrimBounds(s, i, i);
      []
    else
      var n := TrailingSpace(s[i..]);
      TrimInside(s, i, n);
      s[i..|s| - n]
  }

  /** Leading white space up to i and trailing white space of the rest bound
      a non-empty trimmed middle. */
  lemma TrimInside(s: string, i: nat, n: nat)
    requires i < |s| && AllSpace(s[..i]) && !IsSpace(s[i])
    requires n <= |s| - i && AllSpace(s[i..][|s| - i - n..])
    requires n < |s| - i ==> !IsSpace(s[i..][|s| - i - n - 1])
    ensures n < |s| - i && TrimBounds(s, i, |s| - n)
  {
    var t := s[i..];
    assert t[0] == s[i];
    assert t[|s| - i - n..] == s[|s| - n..];
    if n < |s| - i {
      assert s[|s| - n - 1] == t[|s| - i - n - 1];
    }
  }

  // ---------------------------------------------------------------------------
  // replaceAll with a one-character pattern
  // ---------------------------------------------------------------------------

  /** s.replaceAll(c, by) where the pattern is the one character c. */
  function ReplaceAll(s: string, c: char, rep: string): (r: string)
    ensures c !in rep ==> c !in r
  {
    if s == [] then []
    else (if s[0] == c then rep else [s[0]]) + ReplaceAll(s[1..], c, rep)
  }

  lemma {:induction false} ReplaceAllAppend(a: string, b: string, c: char, rep: string)
    ensures ReplaceAll(a + b, c, rep) == ReplaceAll(a, c, rep) + ReplaceAll(b, c, rep)
  {
    if a != [] {
      assert (a + b)[0] == a[0] && (a + b)[1..] == a[1..] + b;
      ReplaceAllAppend(a[1..], b, c, rep);
    } else {
      assert a + b == b;
    }
  }

  /** Replacing brings in no character that neither s nor the replacement has. */
  lemma {:induction false} ReplaceAllNoNew(s: string, c: char, rep: string, d: char)
    requires d !in s && d !in rep
    ensures d !in ReplaceAll(s, c, rep)
  {
    if s != [] {
      assert d !in s[1..];
      ReplaceAllNoNew(s[1..], c, rep, d);
    }
  }

  lemma ReplaceAllSingle(x: char, c: char, rep: string)
    ensures ReplaceAll([x], c, rep) == if x == c then rep else [x]
  {
    assert [x][1..] == [];
  }

  lemma {:induction false} ReplaceAllAbsent(s: string, c: char, rep: string)
    requires c !in s
    ensures ReplaceAll(s, c, rep) == s
  {
    if s != [] {
      assert c !in s[1..];
      ReplaceAllAbsent(s[1..], c, rep);
      assert [s[0]] + s[1..] == s;
    }
  }
}
