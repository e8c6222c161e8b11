/** The handful of Python `str` operations the wiki code relies on, written as
    functions over `seq<char>`: `in`, `startswith`/`endswith`, `replace`,
    `split`, `join` and the `strip` family. Each is defined the way CPython
    computes it, and the facts the rest of the model needs are proved here. */
module Text {

  /** The characters for which Python's `str.isspace()` holds; this is also the
      class `\s` matches in a `str` regular expression, and the set the
      argument-less `strip()` removes. */
  const Whitespace: set<char> := {
    '\U{0009}', '\U{000A}', '\U{000B}', '\U{000C}', '\U{000D}',
    '\U{001C}', '\U{001D}', '\U{001E}', '\U{001F}', '\U{0020}',
    '\U{0085}', '\U{00A0}', '\U{1680}',
    '\U{2000}', '\U{2001}', '\U{2002}', '\U{2003}', '\U{2004}', '\U{2005}',
    '\U{2006}', '\U{2007}', '\U{2008}', '\U{2009}', '\U{200A}',
    '\U{2028}', '\U{2029}', '\U{202F}', '\U{205F}', '\U{3000}'
  }

  predicate EndsWith(s: string, suffix: string)
  {
    |suffix| <= |s| && s[|s| - |suffix|..] == suffix
  }

  /** Python's `pat in s`. */
  predicate Contains(s: string, pat: string)
    decreases |s|
  {
    pat <= s || (s != [] && Contains(s[1..], pat))
  }

  lemma {:induction false} ContainsAt(s: string, pat: string, i: nat)
    requires i + |pat| <= |s| && s[i..i + |pat|] == pat
    ensures Contains(s, pat)
    decreases i
  {
    if i == 0 {
      assert s[..|pat|] == pat;
    } else {
      assert s[1..][i - 1..i - 1 + |pat|] == s[i..i + |pat|];
      ContainsAt(s[1..], pat, i - 1);
    }
  }

  /** `".." in s` holds exactly when two adjacent characters are both dots. */
  lemma {:induction false} ContainsPairIff(s: string, c: char)
    ensures Contains(s, [c, c]) <==> exists i :: 0 <= i < |s| - 1 && s[i] == c && s[i + 1] == c
    decreases |s|
  {
    if |s| >= 2 {
      ContainsPairIff(s[1..], c);
      if [c, c] <= s {
        assert s[0] == [c, c][0] && s[1] == [c, c][1];
      }
      if Contains(s[1..], [c, c]) {
        var i :| 0 <= i < |s| - 2 && s[1..][i] == c && s[1..][i + 1] == c;
        assert s[i + 1] == c && s[i + 2] == c;
      }
      if exists i :: 0 <= i < |s| - 1 && s[i] == c && s[i + 1] == c {
        var i :| 0 <= i < |s| - 1 && s[i] == c && s[i + 1] == c;
        if i > 0 {
          assert 0 <= i - 1 < |s[1..]| - 1 && s[1..][i - 1] == c && s[1..][i] == c;
          assert Contains(s[1..], [c, c]);
        } else {
          assert s[..2] == [c, c];
        }
      }
    } else if |s| == 1 {
      assert !([c, c] <= s);
      assert !([c, c] <= s[1..]);
    }
  }

  /** Where `pat` first occurs: the lowest index at which `s` continues with
      `pat` (what a left-to-right search finds). */
  function Find(s: string, pat: string): (i: nat)
    requires Contains(s, pat)
    ensures i + |pat| <= |s| && s[i..i + |pat|] == pat
    ensures forall k :: 0 <= k < i ==> !(pat <= s[k..])
    decreases |s|
  {
    if pat <= s then 0
    else
      var j := Find(s[1..], pat);
      assert forall k :: 1 <= k <= j ==> s[k..] == s[1..][k - 1..];
      assert s[j + 1..j + 1 + |pat|] == s[1..][j..j + |pat|];
      j + 1
  }

  /** Where `pat` does not occur, no suffix starts with it or contains it. */
  lemma {:induction false} NotContainsSuffix(s: string, pat: string, k: nat)
    requires !Contains(s, pat) && k <= |s|
    ensures !(pat <= s[k..]) && !Contains(s[k..], pat)
    decreases k
  {
    if k > 0 {
      NotContainsSuffix(s[1..], pat, k - 1);
      assert s[1..][k - 1..] == s[k..];
    }
  }

  /** Python's `s.replace(pat, rep)` for a non-empty `pat`: occurrences are
      found left to right and never overlap. */
  function ReplaceAll(s: string, pat: string, rep: string): string
    requires pat != []
    decreases |s|
  {
    if s == [] then []
    else if pat <= s then rep + ReplaceAll(s[|pat|..], pat, rep)
    else [s[0]] + ReplaceAll(s[1..], pat, rep)
  }

  /** Deleting every occurrence of a pattern makes a text strictly shorter
      exactly when the pattern occurs in it, and never longer. */
  lemma {:induction false} RemoveAllShrinks(s: string, pat: string)
    requires pat != []
    ensures |ReplaceAll(s, pat, [])| <= |s|
    ensures Contains(s, pat) ==> |ReplaceAll(s, pat, [])| < |s|
    decreases |s|
  {
    if s == [] {
    } else if pat <= s {
      RemoveAllShrinks(s[|pat|..], pat);
    } else {
      RemoveAllShrinks(s[1..], pat);
    }
  }

  /** Deleting a pattern keeps every character that is not of the pattern
      (a character-level sanity fact used by callers). */
  lemma {:induction false} RemoveAllKeepsOthers(s: string, pat: string, x: char)
    requires pat != [] && x !in pat
    ensures multiset(ReplaceAll(s, pat, []))[x] == multiset(s)[x]
    decreases |s|
  {
    if s == [] {
    } else if pat <= s {
      RemoveAllKeepsOthers(s[|pat|..], pat, x);
      assert s == s[..|pat|] + s[|pat|..];
      assert multiset(s[..|pat|])[x] == 0;
    } else {
      RemoveAllKeepsOthers(s[1..], pat, x);
      assert s == [s[0]] + s[1..];
    }
  }

  /** Replacing a one-character pattern by text that lacks that character
      leaves no occurrence of it. */
  lemma {:induction false} ReplaceCharRemovesIt(s: string, c: char, rep: string)
    requires c !in rep
    ensures c !in ReplaceAll(s, [c], rep)
    decreases |s|
  {
    if s != [] {
      ReplaceCharRemovesIt(s[1..], c, rep);
    }
  }

  /** Replacing a one-character pattern works piece by piece: the text can be
      cut anywhere and the halves replaced separately. */
  lemma {:induction false} ReplaceCharAppend(a: string, b: string, c: char, rep: string)
    ensures ReplaceAll(a + b, [c], rep) == ReplaceAll(a, [c], rep) + ReplaceAll(b, [c], rep)
    decreases |a|
  {
    if a == [] {
      assert a + b == b;
    } else {
      var ab := a + b;
      assert ab[0] == a[0] && ab[1..] == a[1..] + b;
      assert [c] <= ab <==> a[0] == c;
      assert [c] <= a <==> a[0] == c;
      var h := if a[0] == c then rep else [a[0]];
      calc {
        ReplaceAll(ab, [c], rep);
        h + ReplaceAll(a[1..] + b, [c], rep);
        { ReplaceCharAppend(a[1..], b, c, rep); }
        h + (ReplaceAll(a[1..], [c], rep) + ReplaceAll(b, [c], rep));
        (h + ReplaceAll(a[1..], [c], rep)) + ReplaceAll(b, [c], rep);
        ReplaceAll(a, [c], rep) + ReplaceAll(b, [c], rep);
      }
    }
  }

  /** A single character is replaced when it is the pattern and kept
      otherwise. */
  lemma ReplaceCharSingle(x: char, c: char, rep: string)
    ensures ReplaceAll([x], [c], rep) == if x == c then rep else [x]
  {
    assert [x][1..] == [] && [x][|[c]|..] == [];
    assert ReplaceAll([], [c], rep) == [];
    if x == c {
      assert [c] <= [x];
    } else {
      assert [x][..1][0] != [c][0];
    }
  }

  /** Replacing one character by another works position by position. */
  lemma {:induction false} ReplaceCharAt(s: string, a: char, b: char)
    ensures |ReplaceAll(s, [a], [b])| == |s|
    ensures forall i :: 0 <= i < |s| ==>
      ReplaceAll(s, [a], [b])[i] == (if s[i] == a then b else s[i])
    decreases |s|
  {
    if s != [] {
      ReplaceCharAt(s[1..], a, b);
      var r := ReplaceAll(s, [a], [b]);
      assert [a] <= s <==> s[0] == a;
      assert r == (if s[0] == a then [b] else [s[0]]) + ReplaceAll(s[1..], [a], [b]);
    }
  }

  /** Index of the first occurrence of `c`. */
  function IndexOf(s: string, c: char): (i: nat)
    requires c in s
    ensures i < |s| && s[i] == c && c !in s[..i]
  {
    if s[0] == c then 0 else 1 + IndexOf(s[1..], c)
  }

  /** Python's `s.split(c, 1)` when `c` occurs: the text before and after the
      first `c`. */
  function SplitOnce(s: string, c: char): (r: (string, string))
    requires c in s
    ensures r.0 + [c] + r.1 == s && c !in r.0
  {
    var i := IndexOf(s, c);
    assert s == s[..i] + [c] + s[i + 1..];
    (s[..i], s[i + 1..])
  }

  /** Python's `s.split(c)` for a one-character separator: always at least one
      part, and no part contains the separator. */
  function Split(s: string, c: char): (parts: seq<string>)
    ensures |parts| >= 1
    ensures forall k :: 0 <= k < |parts| ==> c !in parts[k]
    decreases |s|
  {
    if c in s then
      var i := IndexOf(s, c);
      [s[..i]] + Split(s[i + 1..], c)
    else [s]
  }

  /** Python's `c.join(parts)`. */
  function Join(parts: seq<string>, c: char): string
  {
    if |parts| == 0 then []
    else if |parts| == 1 then parts[0]
    else parts[0] + [c] + Join(parts[1..], c)
  }

  /** Splitting and joining back on the same separator gives the text back. */
  lemma {:induction false} JoinSplit(s: string, c: char)
    ensures Join(Split(s, c), c) == s
    decreases |s|
  {
    if c in s {
      var i := IndexOf(s, c);
      JoinSplit(s[i + 1..], c);
      var rest := Split(s[i + 1..], c);
      assert Split(s, c) == [s[..i]] + rest;
      assert ([s[..i]] + rest)[1..] == rest;
      assert s == s[..i] + [c] + s[i + 1..];
    }
  }

  /** Joining parts that do not contain the separator and splitting again
      gives the parts back. */
  lemma {:induction false} SplitJoin(parts: seq<string>, c: char)
    requires |parts| >= 1
    requires forall k :: 0 <= k < |parts| ==> c !in parts[k]
    ensures Split(Join(parts, c), c) == parts
    decreases |parts|
  {
    if |parts| > 1 {
      var b := Join(parts[1..], c);
      SplitAtFirst(parts[0], c, b);
      SplitJoin(parts[1..], c);
      assert parts == [parts[0]] + parts[1..];
    }
  }

  /** Splitting at a first separator that follows a separator-free text. */
  lemma SplitAtFirst(a: string, c: char, b: string)
    requires c !in a
    ensures Split(a + [c] + b, c) == [a] + Split(b, c)
  {
    var s := a + [c] + b;
    IndexOfAfterPrefix(a, c, b);
    assert s[..|a|] == a && s[|a| + 1..] == b;
  }

  lemma IndexOfAfterPrefix(a: string, c: char, b: string)
    requires c !in a
    ensures c in a + [c] + b && IndexOf(a + [c] + b, c) == |a|
  {
    var s := a + [c] + b;
    assert s[|a|] == c;
    assert s[..|a|] == a;
  }

  /** The last element of a non-empty sequence, Python's `xs[-1]`. */
  function Last<T>(xs: seq<T>): T
    requires xs != []
  {
    xs[|xs| - 1]
  }

  lemma LastOfCons<T>(x: T, r: seq<T>)
    requires r != []
    ensures Last([x] + r) == Last(r)
  {
  }

  /** Index of the last occurrence of `c`, or -1. */
  function LastIndexOf(s: string, c: char): (i: int)
    ensures -1 <= i < |s| && (0 <= i ==> s[i] == c)
    ensures forall k :: i < k < |s| ==> s[k] != c
    decreases |s|
  {
    if s == [] then -1
    else if s[|s| - 1] == c then |s| - 1
    else LastIndexOf(s[..|s| - 1], c)
  }

  /** The last occurrence is the one index with a `c` and none after it. */
  lemma LastIndexOfUnique(s: string, c: char, j: int)
    requires -1 <= j < |s| && (0 <= j ==> s[j] == c)
    requires forall k :: j < k < |s| ==> s[k] != c
    ensures LastIndexOf(s, c) == j
  {
  }

  /** The text after the last separator. */
  function LastSegment(s: string, c: char): (r: string)
    ensures |r| <= |s| && r == s[|s| - |r|..] && c !in r
    ensures |r| < |s| ==> s[|s| - |r| - 1] == c
  {
    s[LastIndexOf(s, c) + 1..]
  }

  /** Splitting on a separator and taking the last part gives `LastSegment`:
      it is Python's `s.split(c)[-1]`. */
  lemma {:induction false} LastOfSplit(s: string, c: char)
    ensures Last(Split(s, c)) == LastSegment(s, c)
    decreases |s|
  {
    if c in s {
      var i := IndexOf(s, c);
      var t := s[i + 1..];
      calc {
        Last(Split(s, c));
        { SplitStep(s, c); }
        Last([s[..i]] + Split(t, c));
        { LastOfCons(s[..i], Split(t, c)); }
        Last(Split(t, c));
        { LastOfSplit(t, c); }
        LastSegment(t, c);
        { LastSegmentPastSeparator(s, i, c); }
        LastSegment(s, c);
      }
    } else {
      assert Split(s, c) == [s];
      LastIndexOfUnique(s, c, -1);
      assert s[0..] == s;
    }
  }

  /** Past any separator, the last part is that of the rest. */
  lemma LastSegmentPastSeparator(s: string, i: nat, c: char)
    requires i < |s| && s[i] == c
    ensures LastSegment(s, c) == LastSegment(s[i + 1..], c)
  {
    var t := s[i + 1..];
    var j := LastIndexOf(t, c);
    forall k | i + 1 + j < k < |s| ensures s[k] != c {
      assert s[k] == t[k - i - 1];
    }
    LastIndexOfUnique(s, c, i + 1 + j);
    assert s[i + 1 + j + 1..] == t[j + 1..];
  }

  /** One step of `Split` past the first separator. */
  lemma SplitStep(s: string, c: char)
    requires c in s
    ensures Split(s, c) == [s[..IndexOf(s, c)]] + Split(s[IndexOf(s, c) + 1..], c)
  {
  }

  /** The last part is a suffix of the text that holds no separator, and
      when the separator occurs at all it stands right before that suffix. */
  lemma LastSegmentIsSuffix(s: string, c: char)
    ensures |LastSegment(s, c)| <= |s|
    ensures LastSegment(s, c) == s[|s| - |LastSegment(s, c)|..]
    ensures c !in LastSegment(s, c)
    ensures c in s ==> |LastSegment(s, c)| < |s| && s[|s| - |LastSegment(s, c)| - 1] == c
    ensures c !in s ==> LastSegment(s, c) == s
    ensures |Split(s, c)| > 1 <==> c in s
  {
    SplitCount(s, c);
    if c !in s {
      LastIndexOfUnique(s, c, -1);
    } else {
      var j :| 0 <= j < |s| && s[j] == c;
      assert LastIndexOf(s, c) >= j;
    }
  }

  /** A split yields more than one part exactly when the separator occurs. */
  lemma SplitCount(s: string, c: char)
    ensures |Split(s, c)| > 1 <==> c in s
  {
    if c in s {
      SplitStep(s, c);
    }
  }

  /** Python's `s.lstrip(chars)`. */
  function LStrip(s: string, chars: set<char>): (r: string)
    ensures |r| <= |s| && r == s[|s| - |r|..]
    ensures r != [] ==> r[0] !in chars
    ensures forall i :: 0 <= i < |s| - |r| ==> s[i] in chars
    decreases |s|
  {
    if s != [] && s[0] in chars then LStrip(s[1..], chars) else s
  }

  /** Python's `s.rstrip(chars)`. */
  function RStrip(s: string, chars: set<char>): (r: string)
    ensures |r| <= |s| && r == s[..|r|]
    ensures r != [] ==> r[|r| - 1] !in chars
    ensures forall i :: |r| <= i < |s| ==> s[i] in chars
    decreases |s|
  {
    if s != [] && s[|s| - 1] in chars then RStrip(s[..|s| - 1], chars) else s
  }

  /** Python's `s.strip(chars)`; `Strip(s, Whitespace)` is `s.strip()`. */
  function Strip(s: string, chars: set<char>): string
  {
    LStrip(RStrip(s, chars), chars)
  }

  /** A stripped text neither starts nor ends with a stripped character, and
      stripping it again changes nothing. */
  lemma StripProperties(s: string, chars: set<char>)
    ensures var r := Strip(s, chars);
      (r != [] ==> r[0] !in chars && r[|r| - 1] !in chars) && Strip(r, chars) == r
  {
    var m := RStrip(s, chars);
    var r := LStrip(m, chars);
    if r != [] {
      assert r[|r| - 1] == m[|m| - 1];
      StripIdentity(r, chars);
    }
  }

  /** Stripping only removes characters: what is left comes from the text. */
  lemma StripKeepsChars(s: string, chars: set<char>)
    ensures forall i :: 0 <= i < |Strip(s, chars)| ==> Strip(s, chars)[i] in s
  {
    var m := RStrip(s, chars);
    var r := LStrip(m, chars);
    forall i | 0 <= i < |r| ensures r[i] in s {
      assert r[i] == m[|m| - |r| + i] == s[|m| - |r| + i];
    }
  }

  /** Text whose ends are not stripped characters is left alone by `strip`. */
  lemma StripIdentity(s: string, chars: set<char>)
    requires s != [] ==> s[0] !in chars && s[|s| - 1] !in chars
    ensures Strip(s, chars) == s
  {
  }

  /** A slice of a text without a doubled character has none either. */
  lemma SliceAvoidsPair(s: string, d: char, a: nat, b: nat)
    requires a <= b <= |s| && !Contains(s, [d, d])
    ensures !Contains(s[a..b], [d, d])
  {
    var t := s[a..b];
    ContainsPairIff(s, d);
    forall i | 0 <= i < |t| - 1
      ensures !(t[i] == d && t[i + 1] == d)
    {
      assert t[i] == s[a + i] && t[i + 1] == s[a + i + 1];
    }
    ContainsPairIff(t, d);
  }

  /** No part of a split has a doubled character the whole text lacks. */
  lemma {:induction false} SplitAvoidsPair(s: string, c: char, d: char)
    requires !Contains(s, [d, d])
    ensures forall k :: 0 <= k < |Split(s, c)| ==> !Contains(Split(s, c)[k], [d, d])
    decreases |s|
  {
    if c in s {
      var i := IndexOf(s, c);
      assert s[0..i] == s[..i] && s[i + 1..|s|] == s[i + 1..];
      SliceAvoidsPair(s, d, 0, i);
      SliceAvoidsPair(s, d, i + 1, |s|);
      SplitAvoidsPair(s[i + 1..], c, d);
    }
  }

  /** Joining parts without a doubled `d` on a separator other than `d`
      cannot create one. */
  lemma {:induction false} JoinAvoidsPair(parts: seq<string>, c: char, d: char)
    requires c != d
    requires forall k :: 0 <= k < |parts| ==> !Contains(parts[k], [d, d])
    ensures !Contains(Join(parts, c), [d, d])
    decreases |parts|
  {
    if |parts| > 1 {
      JoinAvoidsPair(parts[1..], c, d);
      var a := parts[0];
      var b := Join(parts[1..], c);
      var s := a + [c] + b;
      ContainsPairIff(a, d);
      ContainsPairIff(b, d);
      forall i | 0 <= i < |s| - 1
        ensures !(s[i] == d && s[i + 1] == d)
      {
        if i + 1 < |a| {
          assert s[i] == a[i] && s[i + 1] == a[i + 1];
        } else if i > |a| {
          assert s[i] == b[i - |a| - 1] && s[i + 1] == b[i - |a|];
        }
      }
      ContainsPairIff(s, d);
    }
  }
}
