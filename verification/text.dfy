/**
  The handful of Python `str` operations the modelled code relies on, over
  `string` (a sequence of characters). Case mapping and whitespace are the
  ASCII parts of Python's Unicode tables.
 */
module Text {
  import opened Wrappers

  /** Python's `str.isspace` on ASCII: tab, newline, vertical tab, form feed,
      carriage return, the separators 0x1C-0x1F and space. */
  predicate IsSpace(c: char) {
    ('\t' <= c <= '\r') || ('\U{1C}' <= c <= '\U{1F}') || c == ' '
  }

  predicate IsDigit(c: char) {
    '0' <= c <= '9'
  }

  predicate IsLowerLetter(c: char) {
    'a' <= c <= 'z'
  }

  predicate IsUpperLetter(c: char) {
    'A' <= c <= 'Z'
  }

  function LowerChar(c: char): char {
    if IsUpperLetter(c) then (c as int + 32) as char else c
  }

  function UpperChar(c: char): char {
    if IsLowerLetter(c) then (c as int - 32) as char else c
  }

  /** `str.lower()` */
  function Lower(s: string): (r: string)
    ensures |r| == |s|
    ensures forall i :: 0 <= i < |s| ==> r[i] == LowerChar(s[i])
  {
    seq(|s|, i requires 0 <= i < |s| => LowerChar(s[i]))
  }

  /** `str.upper()` */
  function Upper(s: string): (r: string)
    ensures |r| == |s|
    ensures forall i :: 0 <= i < |s| ==> r[i] == UpperChar(s[i])
  {
    seq(|s|, i requires 0 <= i < |s| => UpperChar(s[i]))
  }

  /** Lower-casing twice is lower-casing once. */
  lemma LowerIdempotent(s: string)
    ensures Lower(Lower(s)) == Lower(s)
  {
  }

  /** A string is its own upper-casing exactly when it holds no lower-case letter. */
  lemma UpperFixedIff(s: string)
    ensures Upper(s) == s <==> forall i :: 0 <= i < |s| ==> !IsLowerLetter(s[i])
  {
    if Upper(s) == s {
      forall i | 0 <= i < |s|
        ensures !IsLowerLetter(s[i])
      {
        assert UpperChar(s[i]) == s[i];
      }
    }
  }

  /** A string without upper-case letters is its own lower-casing. */
  lemma LowerFixed(s: string)
    requires forall i :: 0 <= i < |s| ==> !IsUpperLetter(s[i])
    ensures Lower(s) == s
  {
  }

  // ---------------------------------------------------------------------
  // strip

  /** Drops the leading characters that are in `cs`. */
  function TrimStart(s: string, cs: set<char>): (r: string)
    ensures |r| <= |s| && r == s[|s| - |r|..]
    ensures forall i :: 0 <= i < |s| - |r| ==> s[i] in cs
    ensures r != [] ==> r[0] !in cs
    decreases |s|
  {
    if s != [] && s[0] in cs then TrimStart(s[1..], cs) else s
  }

  /** Drops the trailing characters that are in `cs`. */
  function TrimEnd(s: string, cs: set<char>): (r: string)
    ensures |r| <= |s| && r == s[..|r|]
    ensures forall i :: |r| <= i < |s| ==> s[i] in cs
    ensures r != [] ==> r[|r| - 1] !in cs
    decreases |s|
  {
    if s != [] && s[|s| - 1] in cs then TrimEnd(s[..|s| - 1], cs) else s
  }

  /** `s.strip(chars)`: what is left of `s` once the characters of `cs` are
      removed from both ends (see `StripCharsShape`). */
  function StripChars(s: string, cs: set<char>): (r: string)
    ensures |r| <= |s|
    ensures r != [] ==> r[0] !in cs && r[|r| - 1] !in cs
  {
    TrimEnd(TrimStart(s, cs), cs)
  }

  /** The number of characters `strip` removes on the left. */
  function LeadLength(s: string, cs: set<char>): nat {
    |s| - |TrimStart(s, cs)|
  }

  /** `s.strip(cs)` is the infix of `s` left after removing only characters of
      `cs` on each side; with `StripChars`' own contract (neither end of the
      result is in `cs`) this pins the result down. */
  lemma StripCharsShape(s: string, cs: set<char>)
    ensures var r := StripChars(s, cs); var k := LeadLength(s, cs);
      && k + |r| <= |s|
      && r == s[k..k + |r|]
      && (forall i :: 0 <= i < k ==> s[i] in cs)
      && (forall i :: k + |r| <= i < |s| ==> s[i] in cs)
  {
    var t := TrimStart(s, cs);
    var r := TrimEnd(t, cs);
    var k := |s| - |t|;
    assert StripChars(s, cs) == r && LeadLength(s, cs) == k;
    InfixOfSuffix(s, k, r);
    TrimEndTail(s, k, r, cs);
  }

  lemma InfixOfSuffix(s: string, k: nat, r: string)
    requires k <= |s| && |r| <= |s| - k && r == s[k..][..|r|]
    ensures r == s[k..k + |r|]
  {
  }

  lemma TrimEndTail(s: string, k: nat, r: string, cs: set<char>)
    requires k <= |s| && r == TrimEnd(s[k..], cs)
    ensures forall i :: k + |r| <= i < |s| ==> s[i] in cs
  {
    var t := s[k..];
    forall i | k + |r| <= i < |s|
      ensures s[i] in cs
    {
      assert s[i] == t[i - k];
    }
  }

  /** The characters `str.strip()` removes. */
  const Whitespace: set<char> :=
    {'\t', '\n', '\U{B}', '\U{C}', '\r', '\U{1C}', '\U{1D}', '\U{1E}', '\U{1F}', ' '}

  lemma WhitespaceIsSpace(c: char)
    ensures c in Whitespace <==> IsSpace(c)
  {
  }

  /** `str.strip()` */
  function Strip(s: string): string {
    StripChars(s, Whitespace)
  }

  /** Lower-casing neither creates nor removes whitespace. */
  lemma LowerKeepsWhitespace(c: char)
    ensures LowerChar(c) in Whitespace <==> c in Whitespace
  {
  }

  lemma {:induction false} LowerTrimStart(s: string)
    ensures TrimStart(Lower(s), Whitespace) == Lower(TrimStart(s, Whitespace))
    decreases |s|
  {
    if s != [] {
      LowerKeepsWhitespace(s[0]);
      assert Lower(s)[1..] == Lower(s[1..]);
      LowerTrimStart(s[1..]);
    }
  }

  lemma {:induction false} LowerTrimEnd(s: string)
    ensures TrimEnd(Lower(s), Whitespace) == Lower(TrimEnd(s, Whitespace))
    decreases |s|
  {
    if s != [] {
      LowerKeepsWhitespace(s[|s| - 1]);
      assert Lower(s)[..|s| - 1] == Lower(s[..|s| - 1]);
      LowerTrimEnd(s[..|s| - 1]);
    }
  }

  /** `s.lower().strip() == s.strip().lower()` */
  lemma LowerStrip(s: string)
    ensures Strip(Lower(s)) == Lower(Strip(s))
  {
    LowerTrimStart(s);
    LowerTrimEnd(TrimStart(s, Whitespace));
  }

  /** A string whose ends are not in `cs` is left alone by `strip`. */
  lemma StripCharsNoop(s: string, cs: set<char>)
    requires s != [] ==> s[0] !in cs && s[|s| - 1] !in cs
    ensures StripChars(s, cs) == s
  {
  }

  /** Characters of `cs` appended on the right do not survive `strip`. */
  lemma {:induction false} TrimEndAppend(x: string, t: string, cs: set<char>)
    requires forall i :: 0 <= i < |t| ==> t[i] in cs
    ensures TrimEnd(x + t, cs) == TrimEnd(x, cs)
    decreases |t|
  {
    if t != [] {
      var u := t[..|t| - 1];
      assert (x + t)[..|x + t| - 1] == x + u;
      TrimEndAppend(x, u, cs);
    } else {
      assert x + t == x;
    }
  }

  lemma {:induction false} TrimStartAppend(x: string, t: string, cs: set<char>)
    requires forall i :: 0 <= i < |t| ==> t[i] in cs
    ensures TrimStart(x, cs) != [] ==> TrimStart(x + t, cs) == TrimStart(x, cs) + t
    ensures TrimStart(x, cs) == [] ==> TrimStart(x + t, cs) == []
    decreases |x|
  {
    if x == [] {
      assert x + t == t;
      TrimStartAllIn(t, cs);
    } else if x[0] in cs {
      assert (x + t)[1..] == x[1..] + t;
      TrimStartAppend(x[1..], t, cs);
    }
  }

  lemma {:induction false} TrimStartAllIn(t: string, cs: set<char>)
    requires forall i :: 0 <= i < |t| ==> t[i] in cs
    ensures TrimStart(t, cs) == []
    decreases |t|
  {
    if t != [] {
      TrimStartAllIn(t[1..], cs);
    }
  }

  /** Characters of `cs` added on the right of `x` change nothing about `x.strip(cs)`. */
  lemma StripCharsAppend(x: string, t: string, cs: set<char>)
    requires forall i :: 0 <= i < |t| ==> t[i] in cs
    ensures StripChars(x + t, cs) == StripChars(x, cs)
  {
    TrimStartAppend(x, t, cs);
    if TrimStart(x, cs) != [] {
      TrimEndAppend(TrimStart(x, cs), t, cs);
    }
  }

  /** Characters of `cs` added on the left of `x` change nothing about `x.strip(cs)`. */
  lemma {:induction false} StripCharsPrepend(t: string, x: string, cs: set<char>)
    requires forall i :: 0 <= i < |t| ==> t[i] in cs
    ensures StripChars(t + x, cs) == StripChars(x, cs)
    decreases |t|
  {
    if t != [] {
      assert (t + x)[1..] == t[1..] + x;
      StripCharsPrepend(t[1..], x, cs);
    } else {
      assert t + x == x;
    }
  }

  // ---------------------------------------------------------------------
  // join and split

  /** `sep.join(parts)` */
  function Join(sep: string, parts: seq<string>): string
    decreases |parts|
  {
    if |parts| == 0 then ""
    else if |parts| == 1 then parts[0]
    else parts[0] + sep + Join(sep, parts[1..])
  }

  /** The joined string ends with the last part. */
  lemma {:induction false} JoinEndsWithLast(sep: string, parts: seq<string>)
    requires |parts| > 0
    ensures var j := Join(sep, parts);
      |j| >= |parts[|parts| - 1]| && j[|j| - |parts[|parts| - 1]|..] == parts[|parts| - 1]
    decreases |parts|
  {
    if |parts| > 1 {
      JoinEndsWithLast(sep, parts[1..]);
    }
  }

  /** The joined string starts with the first part. */
  lemma JoinStartsWithFirst(sep: string, parts: seq<string>)
    requires |parts| > 0
    ensures var j := Join(sep, parts); |j| >= |parts[0]| && j[..|parts[0]|] == parts[0]
  {
  }

  /** `s.split(c)`: the pieces between occurrences of `c`; there is always one
      more piece than there are separators. */
  function Split(s: string, c: char): (parts: seq<string>)
    ensures |parts| >= 1
    ensures forall i :: 0 <= i < |parts| ==> c !in parts[i]
    decreases |s|
  {
    if s == [] then [[]]
    else
      var rest := Split(s[1..], c);
      if s[0] == c then [[]] + rest
      else [[s[0]] + rest[0]] + rest[1..]
  }

  /** Joining the pieces of a split with the separator gives back the string. */
  lemma {:induction false} JoinSplit(s: string, c: char)
    ensures Join([c], Split(s, c)) == s
    decreases |s|
  {
    if s != [] {
      var rest := Split(s[1..], c);
      JoinSplit(s[1..], c);
      if s[0] == c {
        assert ([[]] + rest)[1..] == rest;
      } else {
        var ps := [[s[0]] + rest[0]] + rest[1..];
        if |rest| > 1 {
          assert ps[1..] == rest[1..];
        }
      }
    }
  }

  lemma {:induction false} SplitNoSeparator(s: string, c: char)
    requires c !in s
    ensures Split(s, c) == [s]
    decreases |s|
  {
    if s != [] {
      SplitNoSeparator(s[1..], c);
      assert [s[0]] + s[1..] == s;
    }
  }

  lemma {:induction false} SplitAfterFirst(x: string, c: char, y: string)
    requires c !in x
    ensures Split(x + [c] + y, c) == [x] + Split(y, c)
    decreases |x|
  {
    if x == [] {
      assert x + [c] + y == [c] + y;
      assert ([c] + y)[1..] == y;
    } else {
      assert (x + [c] + y)[1..] == x[1..] + [c] + y;
      SplitAfterFirst(x[1..], c, y);
      assert [x[0]] + x[1..] == x;
    }
  }

  /** Splitting a join on a separator that no part contains gives back the parts. */
  lemma {:induction false} SplitJoin(parts: seq<string>, c: char)
    requires |parts| >= 1
    requires forall i :: 0 <= i < |parts| ==> c !in parts[i]
    ensures Split(Join([c], parts), c) == parts
    decreases |parts|
  {
    if |parts| == 1 {
      SplitNoSeparator(parts[0], c);
    } else {
      SplitJoin(parts[1..], c);
      SplitAfterFirst(parts[0], c, Join([c], parts[1..]));
      assert [parts[0]] + parts[1..] == parts;
    }
  }

  /** The parts after the first, each prefixed with `tail`. */
  function PrefixRest(tail: string, parts: seq<string>): (r: seq<string>)
    ensures |r| == |parts|
    ensures |parts| > 0 ==> r[0] == parts[0]
    ensures forall i :: 0 < i < |parts| ==> r[i] == tail + parts[i]
  {
    if |parts| == 0 then [] else [parts[0]] + seq(|parts| - 1, i requires 0 <= i < |parts| - 1 => tail + parts[i + 1])
  }

  /** Adding text in front of the first part adds it in front of the join. */
  lemma JoinExtendFirst(sep: string, t: string, parts: seq<string>)
    requires |parts| > 0
    ensures Join(sep, [t + parts[0]] + parts[1..]) == t + Join(sep, parts)
  {
    var ps := [t + parts[0]] + parts[1..];
    if |parts| > 1 {
      assert ps[1..] == parts[1..];
    }
  }

  /** Joining with a separator `c + tail` is joining with `c` the parts after the
      first each prefixed with `tail`. */
  lemma {:induction false} JoinLongSeparator(c: char, tail: string, parts: seq<string>)
    ensures Join([c] + tail, parts) == Join([c], PrefixRest(tail, parts))
    decreases |parts|
  {
    if |parts| > 1 {
      var rest := parts[1..];
      JoinLongSeparator(c, tail, rest);
      var p := PrefixRest(tail, parts);
      var q := PrefixRest(tail, rest);
      assert p[1..] == [tail + q[0]] + q[1..];
      JoinExtendFirst([c], tail, q);
      assert Join([c], p) == parts[0] + [c] + Join([c], p[1..]);
    }
  }

  /** `s.split()`: the maximal runs of non-whitespace characters. */
  function SplitWhitespace(s: string): (words: seq<string>)
    ensures forall i :: 0 <= i < |words| ==> words[i] != [] && forall k :: 0 <= k < |words[i]| ==> !IsSpace(words[i][k])
    ensures s != [] && !IsSpace(s[0]) ==> |words| > 0 && words[0][0] == s[0]
    decreases |s|
  {
    if s == [] then []
    else
      var rest := SplitWhitespace(s[1..]);
      if IsSpace(s[0]) then rest
      else if |s| > 1 && !IsSpace(s[1]) then [[s[0]] + rest[0]] + rest[1..]
      else [[s[0]]] + rest
  }

  lemma {:induction false} SplitWhitespaceWord(t: string)
    requires t != []
    requires forall k :: 0 <= k < |t| ==> !IsSpace(t[k])
    ensures SplitWhitespace(t) == [t]
    decreases |t|
  {
    if |t| > 1 {
      SplitWhitespaceWord(t[1..]);
      assert t[1..][0] == t[1];
      assert [t[0]] + t[1..] == t;
    } else {
      assert [t[0]] == t;
    }
  }

  lemma {:induction false} SplitWhitespaceAfterWord(t: string, y: string)
    requires t != []
    requires forall k :: 0 <= k < |t| ==> !IsSpace(t[k])
    ensures SplitWhitespace(t + " " + y) == [t] + SplitWhitespace(y)
    decreases |t|
  {
    var s := t + " " + y;
    if |t| == 1 {
      assert s[1..] == " " + y;
      assert (" " + y)[1..] == y;
      assert s[1] == ' ';
      assert [t[0]] == t;
    } else {
      assert s[1..] == t[1..] + " " + y;
      SplitWhitespaceAfterWord(t[1..], y);
      assert [t[0]] + t[1..] == t;
    }
  }

  /** Splitting on whitespace a space-join of non-empty space-free words gives back the words. */
  lemma {:induction false} SplitWhitespaceJoin(words: seq<string>)
    requires forall i :: 0 <= i < |words| ==> words[i] != []
    requires forall i, k :: 0 <= i < |words| && 0 <= k < |words[i]| ==> !IsSpace(words[i][k])
    ensures SplitWhitespace(Join(" ", words)) == words
    decreases |words|
  {
    if |words| == 1 {
      SplitWhitespaceWord(words[0]);
    } else if |words| > 1 {
      SplitWhitespaceJoin(words[1..]);
      SplitWhitespaceAfterWord(words[0], Join(" ", words[1..]));
      assert [words[0]] + words[1..] == words;
    }
  }

  // ---------------------------------------------------------------------
  // search and replace

  /** `s.find(c)`: the index of the first `c`, or -1. */
  function Find(s: string, c: char): (r: int)
    ensures -1 <= r < |s|
    ensures r == -1 <==> c !in s
    ensures r >= 0 ==> s[r] == c && c !in s[..r]
    decreases |s|
  {
    if s == [] then -1
    else if s[0] == c then 0
    else
      var k := Find(s[1..], c);
      assert s[1..][..if k < 0 then 0 else k] == s[1..if k < 0 then 1 else k + 1];
      if k == -1 then -1 else k + 1
  }

  /** `s.rfind(c)`: the index of the last `c`, or -1. */
  function RFind(s: string, c: char): (r: int)
    ensures -1 <= r < |s|
    ensures r == -1 <==> c !in s
    ensures r >= 0 ==> s[r] == c && c !in s[r + 1..]
    decreases |s|
  {
    if s == [] then -1
    else if s[|s| - 1] == c then |s| - 1
    else
      var k := RFind(s[..|s| - 1], c);
      assert k >= 0 ==> s[k + 1..] == s[..|s| - 1][k + 1..] + [s[|s| - 1]];
      k
  }

  /** `find` returns a position no later than any occurrence. */
  lemma {:induction false} FindAtMost(s: string, c: char, i: int)
    requires 0 <= i < |s| && s[i] == c
    ensures 0 <= Find(s, c) <= i
    decreases |s|
  {
    if s[0] != c {
      FindAtMost(s[1..], c, i - 1);
    }
  }

  /** `rfind` returns a position no earlier than any occurrence. */
  lemma {:induction false} RFindAtLeast(s: string, c: char, j: int)
    requires 0 <= j < |s| && s[j] == c
    ensures j <= RFind(s, c)
    decreases |s|
  {
    if s[|s| - 1] != c {
      RFindAtLeast(s[..|s| - 1], c, j);
    }
  }

  /** Text without `c` in front of `s` shifts `find` by its length. */
  lemma {:induction false} FindAfterPrefix(a: string, s: string, c: char)
    requires c !in a && c in s
    ensures Find(a + s, c) == |a| + Find(s, c)
    decreases |a|
  {
    if a != [] {
      assert (a + s)[1..] == a[1..] + s;
      FindAfterPrefix(a[1..], s, c);
    } else {
      assert a + s == s;
    }
  }

  /** Text without `c` after `s` does not move `rfind`. */
  lemma {:induction false} RFindBeforeSuffix(s: string, b: string, c: char)
    requires c !in b && c in s
    ensures RFind(s + b, c) == RFind(s, c)
    decreases |b|
  {
    if b != [] {
      assert (s + b)[..|s + b| - 1] == s + b[..|b| - 1];
      RFindBeforeSuffix(s, b[..|b| - 1], c);
    } else {
      assert s + b == s;
    }
  }

  /** `pat in s` for strings. */
  predicate Contains(s: string, pat: string)
    decreases |s|
  {
    if |s| < |pat| then false
    else s[..|pat|] == pat || (s != [] && Contains(s[1..], pat))
  }

  /** A string that lacks the first character of a non-empty pattern does not contain it. */
  lemma {:induction false} NotContainsWithoutHead(s: string, pat: string)
    requires pat != [] && pat[0] !in s
    ensures !Contains(s, pat)
    decreases |s|
  {
    if |s| >= |pat| {
      assert s[..|pat|][0] == s[0];
      NotContainsWithoutHead(s[1..], pat);
    }
  }

  /** Gluing two strings around a character the pattern does not use cannot
      create an occurrence of the pattern. */
  lemma {:induction false} NotContainsAround(a: string, c: char, b: string, pat: string)
    requires pat != [] && c !in pat
    requires !Contains(a, pat) && !Contains(b, pat)
    ensures !Contains(a + [c] + b, pat)
    decreases |a|
  {
    var s := a + [c] + b;
    if |s| >= |pat| {
      if |a| >= |pat| {
        assert a[..|pat|] == s[..|pat|];
      } else {
        assert s[|a|] == c;
      }
      if a == [] {
        assert s[1..] == b;
      } else {
        assert s[1..] == a[1..] + [c] + b;
        assert !Contains(a[1..], pat);
        NotContainsAround(a[1..], c, b, pat);
      }
    }
  }

  /** Text lacking the pattern's first character, put in front, cannot create a match. */
  lemma {:induction false} NotContainsPrepend(a: string, b: string, pat: string)
    requires pat != [] && pat[0] !in a && !Contains(b, pat)
    ensures !Contains(a + b, pat)
    decreases |a|
  {
    if a != [] && |a + b| >= |pat| {
      assert (a + b)[..|pat|][0] == a[0];
      assert (a + b)[1..] == a[1..] + b;
      NotContainsPrepend(a[1..], b, pat);
    } else if a == [] {
      assert a + b == b;
    }
  }

  /** `s.replace(pat, rep)`: every non-overlapping occurrence, scanning left to right. */
  function ReplaceAll(s: string, pat: string, rep: string): string
    requires pat != []
    decreases |s|
  {
    if |s| < |pat| then s
    else if s[..|pat|] == pat then rep + ReplaceAll(s[|pat|..], pat, rep)
    else [s[0]] + ReplaceAll(s[1..], pat, rep)
  }

  /** Replacing a pattern that does not occur changes nothing. */
  lemma {:induction false} ReplaceAllAbsent(s: string, pat: string, rep: string)
    requires pat != [] && !Contains(s, pat)
    ensures ReplaceAll(s, pat, rep) == s
    decreases |s|
  {
    if |s| >= |pat| {
      ReplaceAllAbsent(s[1..], pat, rep);
      assert [s[0]] + s[1..] == s;
    }
  }

  /** When the head of the pattern does not recur inside it, the pattern cannot
      start inside a non-empty string that lacks it and end in a following copy. */
  lemma NoMatchBeforeSuffix(x: string, pat: string)
    requires pat != [] && x != []
    requires forall k :: 0 < k < |pat| ==> pat[k] != pat[0]
    requires !Contains(x, pat)
    ensures (x + pat)[..|pat|] != pat
  {
    var s := x + pat;
    if |x| >= |pat| {
      assert x[..|pat|] == s[..|pat|];
    } else {
      assert s[|x|] == pat[0];
      assert pat[|x|] != pat[0];
    }
  }

  /** A pattern at the start is replaced, and the scan goes on after it. */
  lemma ReplaceAllAtStart(pat: string, y: string, rep: string)
    requires pat != []
    ensures ReplaceAll(pat + y, pat, rep) == rep + ReplaceAll(y, pat, rep)
  {
    var s := pat + y;
    assert s[..|pat|] == pat;
    assert s[|pat|..] == y;
  }

  /** No match at the start: the first character is kept and the scan moves on. */
  lemma ReplaceAllSkip(s: string, pat: string, rep: string)
    requires pat != [] && |s| >= |pat| && s[..|pat|] != pat
    ensures ReplaceAll(s, pat, rep) == [s[0]] + ReplaceAll(s[1..], pat, rep)
  {
  }

  /** A string lacking the pattern still lacks it without its first character. */
  lemma NotContainsTail(x: string, pat: string)
    requires x != [] && !Contains(x, pat)
    ensures !Contains(x[1..], pat)
  {
  }

  /** When the head of the pattern does not recur inside it, the first
      occurrence after a stretch that lacks the pattern is the first replaced. */
  lemma {:induction false} ReplaceAllFirstMatch(x: string, pat: string, y: string, rep: string)
    requires pat != []
    requires forall k :: 0 < k < |pat| ==> pat[k] != pat[0]
    requires !Contains(x, pat)
    ensures ReplaceAll(x + pat + y, pat, rep) == x + rep + ReplaceAll(y, pat, rep)
    decreases |x|
  {
    if x == [] {
      assert x + pat + y == pat + y;
      ReplaceAllAtStart(pat, y, rep);
    } else {
      ReplaceAllSkipPrefix(x, pat, y, rep);
      NotContainsTail(x, pat);
      ReplaceAllFirstMatch(x[1..], pat, y, rep);
      ConsRest(x, rep, ReplaceAll(y, pat, rep));
    }
  }

  /** Before a first occurrence, the first character of a stretch without the pattern is kept. */
  lemma ReplaceAllSkipPrefix(x: string, pat: string, y: string, rep: string)
    requires pat != [] && x != []
    requires forall k :: 0 < k < |pat| ==> pat[k] != pat[0]
    requires !Contains(x, pat)
    ensures ReplaceAll(x + pat + y, pat, rep) == [x[0]] + ReplaceAll(x[1..] + pat + y, pat, rep)
  {
    var s := x + pat + y;
    NoMatchBeforeSuffix(x, pat);
    assert s[..|pat|] == (x + pat)[..|pat|];
    ReplaceAllSkip(s, pat, rep);
    assert s[1..] == x[1..] + pat + y;
  }

  lemma ConsRest(x: string, u: string, v: string)
    requires x != []
    ensures [x[0]] + (x[1..] + u + v) == x + u + v
  {
    assert x == [x[0]] + x[1..];
  }

  /** An occurrence at the end of a string that otherwise lacks the pattern is
      the only one replaced. */
  lemma ReplaceAllSuffix(x: string, pat: string, rep: string)
    requires pat != []
    requires forall k :: 0 < k < |pat| ==> pat[k] != pat[0]
    requires !Contains(x, pat)
    ensures ReplaceAll(x + pat, pat, rep) == x + rep
  {
    ReplaceAllFirstMatch(x, pat, [], rep);
    assert x + pat + [] == x + pat;
  }

  /** `s.replace(c, d)` for single characters. */
  function ReplaceChar(s: string, c: char, d: char): (r: string)
    ensures |r| == |s|
    ensures forall i :: 0 <= i < |s| ==> r[i] == (if s[i] == c then d else s[i])
  {
    seq(|s|, i requires 0 <= i < |s| => if s[i] == c then d else s[i])
  }

  /** Replacing a character that does not occur changes nothing. */
  lemma ReplaceCharAbsent(s: string, c: char, d: char)
    requires c !in s
    ensures ReplaceChar(s, c, d) == s
  {
  }

  lemma ReplaceCharAppend(a: string, b: string, c: char, d: char)
    ensures ReplaceChar(a + b, c, d) == ReplaceChar(a, c, d) + ReplaceChar(b, c, d)
  {
  }

  /** `s.replace(c, '')` */
  function RemoveChar(s: string, c: char): (r: string)
    ensures c !in r
    ensures forall x :: x != c ==> (x in r <==> x in s)
    ensures forall i :: 0 <= i < |r| ==> r[i] in s
    decreases |s|
  {
    if s == [] then []
    else if s[0] == c then RemoveChar(s[1..], c)
    else [s[0]] + RemoveChar(s[1..], c)
  }

  lemma {:induction false} RemoveCharAppend(a: string, b: string, c: char)
    ensures RemoveChar(a + b, c) == RemoveChar(a, c) + RemoveChar(b, c)
    decreases |a|
  {
    if a == [] {
      assert a + b == b;
    } else {
      assert (a + b)[0] == a[0] && (a + b)[1..] == a[1..] + b;
      RemoveCharAppend(a[1..], b, c);
    }
  }

  /** Removing a character never lengthens a string. */
  lemma {:induction false} RemoveCharLength(s: string, c: char)
    ensures |RemoveChar(s, c)| <= |s|
    decreases |s|
  {
    if s != [] {
      RemoveCharLength(s[1..], c);
    }
  }

  /** Concatenation regroups freely. */
  lemma ConcatAssoc(x: string, y: string, z: string)
    ensures x + (y + z) == x + y + z
  {
  }

  // ---------------------------------------------------------------------
  // decimal integers

  function DigitChar(d: nat): char
    requires d < 10
  {
    ('0' as int + d) as char
  }

  function DigitValue(c: char): nat
    requires IsDigit(c)
  {
    c as int - '0' as int
  }

  /** `str(n)` for a natural number. */
  function DecimalString(n: nat): (r: string)
    ensures r != []
    ensures forall i :: 0 <= i < |r| ==> IsDigit(r[i])
  {
    if n < 10 then [DigitChar(n)] else DecimalString(n / 10) + [DigitChar(n % 10)]
  }

  /** The value of a string of decimal digits. */
  function DigitsValue(s: string): nat
    requires forall i :: 0 <= i < |s| ==> IsDigit(s[i])
    decreases |s|
  {
    if s == [] then 0 else DigitsValue(s[..|s| - 1]) * 10 + DigitValue(s[|s| - 1])
  }

  /** Python's `int(...)` grammar for the digits of a base-10 literal: digits,
      single underscores allowed between two digits. */
  predicate DigitGroups(s: string) {
    && s != []
    && IsDigit(s[0]) && IsDigit(s[|s| - 1])
    && (forall i :: 0 <= i < |s| ==> IsDigit(s[i]) || s[i] == '_')
    && (forall i :: 0 <= i < |s| - 1 ==> !(s[i] == '_' && s[i + 1] == '_'))
  }

  /** `int(s)` on the text after the sign: `None` where Python raises `ValueError`. */
  function ParseDigits(s: string): (r: Option<nat>)
    ensures r.Some? <==> DigitGroups(s)
  {
    if DigitGroups(s) then Some(DigitsValue(RemoveChar(s, '_'))) else None
  }

  /** `int(s)` in base 10: surrounding whitespace and one sign allowed. */
  function ParseInt(s: string): Option<int> {
    var t := Strip(s);
    var signed := t != [] && (t[0] == '-' || t[0] == '+');
    var body: string := if signed then t[1..] else t;
    var d := ParseDigits(body);
    if d.None? then None else Some(if signed && t[0] == '-' then 0 - d.value else d.value)
  }

  lemma {:induction false} DigitsValueOfDecimal(n: nat)
    ensures DigitsValue(DecimalString(n)) == n
  {
    if n >= 10 {
      var s := DecimalString(n);
      DigitsValueOfDecimal(n / 10);
      assert s[..|s| - 1] == DecimalString(n / 10);
    }
  }

  lemma {:induction false} RemoveCharAbsent(s: string, c: char)
    requires c !in s
    ensures RemoveChar(s, c) == s
    decreases |s|
  {
    if s != [] {
      RemoveCharAbsent(s[1..], c);
      assert [s[0]] + s[1..] == s;
    }
  }

  /** Digits of a decimal numeral parse back to its value. */
  lemma ParseDigitsDecimal(n: nat)
    ensures ParseDigits(DecimalString(n)) == Some(n)
  {
    var d := DecimalString(n);
    assert '_' !in d;
    assert DigitGroups(d);
    RemoveCharAbsent(d, '_');
    DigitsValueOfDecimal(n);
  }

  /** An unsigned, unpadded numeral is parsed by its digits alone. */
  lemma ParseIntUnsigned(d: string)
    requires d != [] && IsDigit(d[0]) && IsDigit(d[|d| - 1])
    ensures ParseInt(d) == (match ParseDigits(d) case Some(v) => Some(v as int) case None => None)
  {
    StripCharsNoop(d, Whitespace);
  }

  /** `int(str(n)) == n`. */
  lemma ParseIntDecimal(n: nat)
    ensures ParseInt(DecimalString(n)) == Some(n)
  {
    var d := DecimalString(n);
    ParseIntUnsigned(d);
    ParseDigitsDecimal(n);
  }
}
