/**
 The handful of Python `str` operations the command handlers rely on,
 restricted to ASCII where Python is Unicode-aware (`isdigit`, `lower`,
 `title`): prefix and suffix tests, substring search, `replace`, `join`,
 `split`, padding and `removesuffix`.
 */
module Strings {

  /** `s.startswith(p)`. */
  predicate StartsWith(s: string, p: string) {
    |p| <= |s| && s[..|p|] == p
  }

  /** `s.endswith(p)`. */
  predicate EndsWith(s: string, p: string) {
    |p| <= |s| && s[|s| - |p|..] == p
  }

  /** `p in s`: `p` occurs in `s` at some offset. */
  predicate Contains(s: string, p: string)
    decreases |s|
  {
    StartsWith(s, p) || (|s| > 0 && Contains(s[1..], p))
  }

  /** `p` occurs in `s` at offset `k`. */
  predicate OccursAt(s: string, p: string, k: nat) {
    k + |p| <= |s| && s[k..k + |p|] == p
  }

  lemma {:induction false} ContainsAt(s: string, p: string, k: nat)
    requires OccursAt(s, p, k)
    ensures Contains(s, p)
    decreases k
  {
    if k > 0 {
      assert s[1..][k - 1..k - 1 + |p|] == s[k..k + |p|];
      ContainsAt(s[1..], p, k - 1);
    }
  }

  /** `p in s` holds exactly when `p` occurs at some offset. */
  lemma {:induction false} ContainsIffOccurs(s: string, p: string)
    ensures Contains(s, p) <==> exists k: nat :: OccursAt(s, p, k)
    decreases |s|
  {
    if exists k: nat :: OccursAt(s, p, k) {
      var k: nat :| OccursAt(s, p, k);
      ContainsAt(s, p, k);
    }
    if Contains(s, p) {
      if StartsWith(s, p) {
        assert OccursAt(s, p, 0);
      } else {
        ContainsIffOccurs(s[1..], p);
        var k: nat :| OccursAt(s[1..], p, k);
        assert s[k + 1..k + 1 + |p|] == s[1..][k..k + |p|];
        assert OccursAt(s, p, k + 1);
      }
    }
  }

  /** `s.replace(pat, rep)` for a non-empty pattern: occurrences are replaced
      left to right and never overlap. */
  function Replace(s: string, pat: string, rep: string): string
    requires |pat| > 0
    decreases |s|
  {
    if |s| == 0 then []
    else if StartsWith(s, pat) then rep + Replace(s[|pat|..], pat, rep)
    else [s[0]] + Replace(s[1..], pat, rep)
  }

  /** Replacing one character by another rewrites exactly the positions that
      held it and keeps every other character where it was. */
  lemma {:induction false} ReplaceCharPointwise(s: string, a: char, b: char)
    ensures |Replace(s, [a], [b])| == |s|
    ensures forall i :: 0 <= i < |s| ==>
      Replace(s, [a], [b])[i] == (if s[i] == a then b else s[i])
    decreases |s|
  {
    if |s| > 0 {
      ReplaceCharPointwise(s[1..], a, b);
      var rest := Replace(s[1..], [a], [b]);
      if s[0] == a {
        assert StartsWith(s, [a]);
        assert Replace(s, [a], [b]) == [b] + rest;
      } else {
        assert !StartsWith(s, [a]);
        assert Replace(s, [a], [b]) == [s[0]] + rest;
      }
    }
  }

  /** At an occurrence of the pattern, `replace` emits the replacement. */
  lemma ReplaceAtMatch(s: string, pat: string, rep: string)
    requires |pat| > 0 && StartsWith(s, pat)
    ensures Replace(s, pat, rep) == rep + Replace(s[|pat|..], pat, rep)
    ensures |rep| > 0 ==> Replace(s, pat, rep)[0] in rep
  {
  }

  /** While no character of the replacement shows up, the output of `replace`
      is a copy of its input. */
  lemma {:induction false} ReplaceCopiesPrefix(s: string, pat: string, rep: string, n: nat)
    requires |pat| > 0 && |rep| > 0
    requires n <= |Replace(s, pat, rep)|
    requires forall j :: 0 <= j < n ==> Replace(s, pat, rep)[j] !in rep
    ensures n <= |s| && Replace(s, pat, rep)[..n] == s[..n]
    decreases |s|
  {
    var r := Replace(s, pat, rep);
    if n > 0 {
      if StartsWith(s, pat) {
        ReplaceAtMatch(s, pat, rep);
        assert false;
      } else {
        var rest := Replace(s[1..], pat, rep);
        assert r == [s[0]] + rest;
        forall j | 0 <= j < n - 1
          ensures rest[j] !in rep
        {
          assert rest[j] == r[j + 1];
        }
        ReplaceCopiesPrefix(s[1..], pat, rep, n - 1);
        assert r[..n] == [s[0]] + rest[..n - 1];
        assert s[..n] == [s[0]] + s[1..][..n - 1];
      }
    }
  }

  /** No character of `a` is a character of `b`. */
  predicate NoCommonChar(a: string, b: string) {
    forall i, j :: 0 <= i < |a| && 0 <= j < |b| ==> a[i] != b[j]
  }

  /** When the replacement shares no character with the pattern, the pattern
      occurs nowhere in the output of `replace`. */
  lemma {:induction false} ReplaceLeavesNoPattern(s: string, pat: string, rep: string, k: nat)
    requires |pat| > 0 && |rep| > 0
    requires NoCommonChar(rep, pat)
    ensures !OccursAt(Replace(s, pat, rep), pat, k)
    decreases |s|
  {
    if |s| > 0 && StartsWith(s, pat) {
      var rest := Replace(s[|pat|..], pat, rep);
      ReplaceAtMatch(s, pat, rep);
      if k >= |rep| {
        ReplaceLeavesNoPattern(s[|pat|..], pat, rep, k - |rep|);
        OccursAtShift(rep, rest, pat, k - |rep|);
      } else {
        assert rep[k] != pat[0];
        assert (rep + rest)[k] == rep[k];
      }
    } else if |s| > 0 {
      var rest := Replace(s[1..], pat, rep);
      ReplaceSkipsChar(s, pat, rep);
      if k > 0 {
        ReplaceLeavesNoPattern(s[1..], pat, rep, k - 1);
        OccursAtShift([s[0]], rest, pat, k - 1);
      } else {
        ReplaceNoPatternAtFront(s, pat, rep);
      }
    }
  }

  /** The case of `ReplaceLeavesNoPattern` at offset 0 when `s` does not start
      with the pattern: the output then starts with a copy of `s`. */
  lemma ReplaceNoPatternAtFront(s: string, pat: string, rep: string)
    requires |pat| > 0 && |rep| > 0 && |s| > 0 && !StartsWith(s, pat)
    requires NoCommonChar(rep, pat)
    ensures !OccursAt(Replace(s, pat, rep), pat, 0)
  {
    var rest := Replace(s[1..], pat, rep);
    ReplaceSkipsChar(s, pat, rep);
    assert ([s[0]] + rest)[1..] == rest;
    if OccursAt([s[0]] + rest, pat, 0) {
      MatchAvoidsReplacement([s[0]] + rest, pat, rep);
      ReplaceCopiesPrefix(s[1..], pat, rep, |pat| - 1);
      CopiedFrontMatch(s, pat, rest);
      assert false;
    }
  }

  /** An occurrence in `t` is an occurrence in `a + t`, shifted by `|a|`, and
      back. */
  lemma OccursAtShift(a: string, t: string, p: string, k: nat)
    ensures OccursAt(a + t, p, |a| + k) <==> OccursAt(t, p, k)
  {
    if |a| + k + |p| <= |a + t| {
      assert (a + t)[|a| + k..|a| + k + |p|] == t[k..k + |p|];
    }
  }

  /** Off an occurrence of the pattern, `replace` copies one character. */
  lemma ReplaceSkipsChar(s: string, pat: string, rep: string)
    requires |pat| > 0 && |s| > 0 && !StartsWith(s, pat)
    ensures Replace(s, pat, rep) == [s[0]] + Replace(s[1..], pat, rep)
  {
  }

  /** A copy of the pattern after the first character has no character of a
      replacement disjoint from the pattern. */
  lemma MatchAvoidsReplacement(r: string, pat: string, rep: string)
    requires |pat| > 0 && OccursAt(r, pat, 0) && NoCommonChar(rep, pat)
    ensures forall j :: 0 <= j < |pat| - 1 ==> r[1..][j] !in rep
  {
    forall j | 0 <= j < |pat| - 1
      ensures r[1..][j] !in rep
    {
      assert r[1..][j] == r[..|pat|][j + 1] == pat[j + 1];
      forall i | 0 <= i < |rep|
        ensures rep[i] != r[1..][j]
      {
      }
    }
  }

  /** If `[s[0]] + rest` starts with the pattern and `rest` copies `s[1..]`
      that far, then `s` starts with the pattern. */
  lemma CopiedFrontMatch(s: string, pat: string, rest: string)
    requires 0 < |pat| && 0 < |s| && |pat| - 1 <= |s| - 1 && |pat| - 1 <= |rest|
    requires OccursAt([s[0]] + rest, pat, 0)
    requires rest[..|pat| - 1] == s[1..][..|pat| - 1]
    ensures StartsWith(s, pat)
  {
    var r := [s[0]] + rest;
    assert r[..|pat|] == [s[0]] + rest[..|pat| - 1];
    assert s[..|pat|] == [s[0]] + s[1..][..|pat| - 1];
  }

  predicate IsAsciiDigit(c: char) {
    '0' <= c <= '9'
  }

  /** `s.isdigit()` on ASCII: non-empty and made of decimal digits only. */
  predicate IsDigits(s: string) {
    |s| > 0 && forall i :: 0 <= i < |s| ==> IsAsciiDigit(s[i])
  }

  predicate IsAsciiUpper(c: char) {
    'A' <= c <= 'Z'
  }

  predicate IsAsciiLower(c: char) {
    'a' <= c <= 'z'
  }

  /** The characters Python's `title` treats as cased, on ASCII. */
  predicate IsAsciiLetter(c: char) {
    IsAsciiUpper(c) || IsAsciiLower(c)
  }

  function ToLowerChar(c: char): (r: char)
    ensures IsAsciiUpper(c) ==> IsAsciiLower(r)
    ensures !IsAsciiUpper(c) ==> r == c
  {
    if IsAsciiUpper(c) then (c as int + 32) as char else c
  }

  function ToUpperChar(c: char): (r: char)
    ensures IsAsciiLower(c) ==> IsAsciiUpper(r)
    ensures !IsAsciiLower(c) ==> r == c
  {
    if IsAsciiLower(c) then (c as int - 32) as char else c
  }

  /** `s.lower()` on ASCII. */
  function Lower(s: string): (r: string)
    ensures |r| == |s|
  {
    seq(|s|, i requires 0 <= i < |s| => ToLowerChar(s[i]))
  }

  /** `s.upper()` on ASCII. */
  function Upper(s: string): (r: string)
    ensures |r| == |s|
  {
    seq(|s|, i requires 0 <= i < |s| => ToUpperChar(s[i]))
  }

  /** Lower-casing twice is lower-casing once. */
  lemma LowerIdempotent(s: string)
    ensures Lower(Lower(s)) == Lower(s)
  {
  }

  /** Upper-casing loses nothing that lower-casing keeps. */
  lemma LowerOfUpper(s: string)
    ensures Lower(Upper(s)) == Lower(s)
  {
    forall i | 0 <= i < |s|
      ensures Lower(Upper(s))[i] == Lower(s)[i]
    {
      var c := s[i];
      if IsAsciiLower(c) {
        assert ToLowerChar(ToUpperChar(c)) as int == c as int;
      }
    }
  }

  /** The case `title` gives the character at `i`: a letter is upper-case when
      it starts a run of letters and lower-case inside one; every other
      character is kept. */
  function TitleCharAt(s: string, i: nat): char
    requires i < |s|
  {
    if !IsAsciiLetter(s[i]) then s[i]
    else if i > 0 && IsAsciiLetter(s[i - 1]) then ToLowerChar(s[i])
    else ToUpperChar(s[i])
  }

  /** One left-to-right pass of `title`, knowing whether the character just
      before `s` was a letter. */
  function TitleFrom(s: string, afterLetter: bool): (r: string)
    ensures |r| == |s|
    decreases |s|
  {
    if |s| == 0 then []
    else
      var c := s[0];
      var out := if !IsAsciiLetter(c) then c
                 else if afterLetter then ToLowerChar(c)
                 else ToUpperChar(c);
      [out] + TitleFrom(s[1..], IsAsciiLetter(c))
  }

  /** `s.title()` on ASCII. */
  function Title(s: string): (r: string)
    ensures |r| == |s|
    ensures forall i :: 0 <= i < |s| ==> r[i] == TitleCharAt(s, i)
  {
    TitleFromPointwise(s, [], false);
    assert [] + s == s;
    TitleFrom(s, false)
  }

  /** `TitleFrom` run on the suffix of `before + s` agrees with the whole
      string's per-character rule. */
  lemma {:induction false} TitleFromPointwise(s: string, before: string, flag: bool)
    requires flag == (|before| > 0 && IsAsciiLetter(before[|before| - 1]))
    ensures forall i :: 0 <= i < |s| ==>
      TitleFrom(s, flag)[i] == TitleCharAt(before + s, |before| + i)
    decreases |s|
  {
    if |s| > 0 {
      var w := before + s;
      var before' := before + [s[0]];
      TitleFromPointwise(s[1..], before', IsAsciiLetter(s[0]));
      assert before' + s[1..] == w;
      var r := TitleFrom(s, flag);
      var tail := TitleFrom(s[1..], IsAsciiLetter(s[0]));
      assert before'[|before'| - 1] == s[0];
      assert r[1..] == tail;
      forall i | 0 <= i < |s|
        ensures r[i] == TitleCharAt(w, |before| + i)
      {
        if i > 0 {
          assert r[i] == tail[i - 1];
          assert tail[i - 1] == TitleCharAt(before' + s[1..], |before'| + (i - 1));
        } else {
          assert w[|before|] == s[0];
          if |before| > 0 {
            assert w[|before| - 1] == before[|before| - 1];
          }
        }
      }
    }
  }

  /** `title` of a word of lower-case letters raises its first letter only. */
  lemma TitleWord(w: string)
    requires |w| > 0
    requires forall i :: 0 <= i < |w| ==> IsAsciiLower(w[i])
    ensures Title(w) == [ToUpperChar(w[0])] + w[1..]
  {
    forall i | 0 <= i < |w|
      ensures Title(w)[i] == ([ToUpperChar(w[0])] + w[1..])[i]
    {
      if i > 0 {
        assert IsAsciiLetter(w[i - 1]);
      }
    }
  }

  /** `title` cases the words on either side of a space independently. */
  lemma TitleAtSpace(a: string, b: string)
    ensures Title(a + " " + b) == Title(a) + " " + Title(b)
  {
    var w := a + " " + b;
    var r := Title(a) + " " + Title(b);
    forall i | 0 <= i < |w|
      ensures Title(w)[i] == r[i]
    {
      if i < |a| {
        assert w[i] == a[i];
        if i > 0 {
          assert w[i - 1] == a[i - 1];
        }
        assert r[i] == Title(a)[i];
      } else if i > |a| {
        var j := i - |a| - 1;
        assert w[i] == b[j];
        if j > 0 {
          assert w[i - 1] == b[j - 1];
        }
        assert r[i] == Title(b)[j];
      }
    }
  }

  /** `replace` copies a prefix in which no occurrence of the pattern starts. */
  lemma {:induction false} ReplaceSkipsPrefix(a: string, b: string, pat: string, rep: string)
    requires |pat| > 0
    requires forall k :: 0 <= k < |a| ==> !StartsWith((a + b)[k..], pat)
    ensures Replace(a + b, pat, rep) == a + Replace(b, pat, rep)
    decreases |a|
  {
    if |a| > 0 {
      var w := a + b;
      assert w[1..] == a[1..] + b;
      forall k | 0 <= k < |a| - 1
        ensures !StartsWith((a[1..] + b)[k..], pat)
      {
        assert (a[1..] + b)[k..] == w[k + 1..];
      }
      ReplaceSkipsPrefix(a[1..], b, pat, rep);
      assert w[0..] == w;
      assert Replace(w, pat, rep) == [a[0]] + Replace(a[1..] + b, pat, rep);
      assert [a[0]] + (a[1..] + Replace(b, pat, rep)) == ([a[0]] + a[1..]) + Replace(b, pat, rep);
      assert [a[0]] + a[1..] == a;
    } else {
      assert a + b == b;
    }
  }

  /** On text without upper-case letters, `title` only raises letters: an
      all-lower-case word found in the result was already there. */
  lemma TitleKeepsLowerOccurrence(t: string, p: string, k: nat)
    requires forall i :: 0 <= i < |t| ==> !IsAsciiUpper(t[i])
    requires forall j :: 0 <= j < |p| ==> IsAsciiLower(p[j])
    requires OccursAt(Title(t), p, k)
    ensures OccursAt(t, p, k)
  {
    forall j | 0 <= j < |p|
      ensures t[k + j] == p[j]
    {
      assert Title(t)[k + j] == p[j];
    }
  }

  /** `s.rjust(width, fill)`, which is what `f"{s:>0width}"` does to a string:
      fill characters on the left up to `width`, `s` itself kept whole. */
  function PadLeft(s: string, width: nat, fill: char): (r: string)
    ensures |r| == if |s| >= width then |s| else width
    ensures EndsWith(r, s)
    ensures forall i :: 0 <= i < |r| - |s| ==> r[i] == fill
  {
    if |s| >= width then s else seq(width - |s|, _ => fill) + s
  }

  /** The pieces of a three-part concatenation sit at the offsets their
      lengths give. */
  lemma ConcatSlices(a: string, b: string, t: string)
    ensures (a + b + t)[..|a|] == a
    ensures (a + b + t)[|a|..|a| + |b|] == b
  {
  }

  /** Appending keeps a prefix. */
  lemma StartsWithExtend(s: string, p: string, t: string)
    requires StartsWith(s, p)
    ensures StartsWith(s + t, p)
  {
    assert (s + t)[..|p|] == s[..|p|];
  }

  /** The last two parts of a concatenation are its suffix. */
  lemma EndsWithLastTwo(y: string, a: string, b: string)
    ensures EndsWith(y + a + b, a + b)
  {
    assert y + a + b == y + (a + b);
    ConcatEnds(y, a + b);
  }

  /** A concatenation starts with its first part and ends with its second. */
  lemma ConcatEnds(a: string, b: string)
    ensures StartsWith(a + b, a)
    ensures EndsWith(a + b, b)
  {
    assert (a + b)[..|a|] == a;
    assert (a + b)[|a + b| - |b|..] == b;
  }

  /** Prepending keeps a suffix. */
  lemma EndsWithAppend(s: string, t: string, p: string)
    requires EndsWith(t, p)
    ensures EndsWith(s + t, p)
  {
    assert (s + t)[|s + t| - |p|..] == t[|t| - |p|..];
  }

  /** `s.removesuffix(suffix)`. */
  function RemoveSuffix(s: string, suffix: string): (r: string)
    ensures |suffix| > 0 && EndsWith(s, suffix) ==> r + suffix == s
    ensures !(|suffix| > 0 && EndsWith(s, suffix)) ==> r == s
  {
    if |suffix| > 0 && EndsWith(s, suffix) then s[..|s| - |suffix|] else s
  }

  /** `sep.join(parts)`. */
  function Join(parts: seq<string>, sep: string): string
    decreases |parts|
  {
    if |parts| == 0 then ""
    else if |parts| == 1 then parts[0]
    else parts[0] + sep + Join(parts[1..], sep)
  }

  /** `s.split(sep)` for a one-character separator: always at least one piece. */
  function Split(s: string, sep: char): (r: seq<string>)
    ensures |r| >= 1
    decreases |s|
  {
    if |s| == 0 then [""]
    else
      var rest := Split(s[1..], sep);
      if s[0] == sep then [""] + rest
      else [[s[0]] + rest[0]] + rest[1..]
  }

  lemma {:induction false} SplitWithoutSeparator(a: string, t: string, sep: char)
    requires sep !in a
    ensures Split(a + t, sep) == [a + Split(t, sep)[0]] + Split(t, sep)[1..]
    decreases |a|
  {
    if |a| > 0 {
      assert (a + t)[1..] == a[1..] + t;
      SplitWithoutSeparator(a[1..], t, sep);
      assert [a[0]] + (a[1..] + Split(t, sep)[0]) == a + Split(t, sep)[0];
    } else {
      assert a + t == t;
      assert a + Split(t, sep)[0] == Split(t, sep)[0];
      assert [Split(t, sep)[0]] + Split(t, sep)[1..] == Split(t, sep);
    }
  }

  /** Splitting a join on the same separator gives the parts back, as long as
      no part contains the separator. */
  lemma {:induction false} SplitJoin(parts: seq<string>, sep: char)
    requires |parts| >= 1
    requires forall i :: 0 <= i < |parts| ==> sep !in parts[i]
    ensures Split(Join(parts, [sep]), sep) == parts
    decreases |parts|
  {
    if |parts| == 1 {
      SplitWithoutSeparator(parts[0], "", sep);
      assert parts[0] + "" == parts[0];
    } else {
      var tail := Join(parts[1..], [sep]);
      SplitJoin(parts[1..], sep);
      assert Join(parts, [sep]) == parts[0] + ([sep] + tail);
      SplitWithoutSeparator(parts[0], [sep] + tail, sep);
      assert ([sep] + tail)[1..] == tail;
      assert Split([sep] + tail, sep) == [""] + parts[1..];
      assert parts[0] + "" == parts[0];
      assert [parts[0]] + parts[1..] == parts;
    }
  }
}
