/** The Python string operations the bot relies on: `str.strip()`,
    `str.replace(old, '')`, `str.lower()` on command words and
    `sep.join(parts)`. The bot never splits text; `Split` (Python's
    `str.split` on a one-character separator) only serves to state what a
    message reads like line by line. */
module Text {

  /** The characters Python's `str.isspace()` accepts, which is what
      `str.strip()` with no argument removes. */
  predicate IsSpace(c: char)
  {
    || ('\U{0009}' <= c <= '\U{000D}')
    || ('\U{001C}' <= c <= '\U{0020}')
    || c == '\U{0085}' || c == '\U{00A0}' || c == '\U{1680}'
    || ('\U{2000}' <= c <= '\U{200A}')
    || c == '\U{2028}' || c == '\U{2029}' || c == '\U{202F}' || c == '\U{205F}'
    || c == '\U{3000}'
  }

  /** Among ASCII characters, white space is exactly tab, line feed,
      vertical tab, form feed, carriage return, the four information
      separators and the space; no digit or letter is white space. */
  lemma IsSpaceAscii(c: char)
    ensures c as int < 128 ==>
              (IsSpace(c) <==> c in " \t\n\r\U{000B}\U{000C}\U{001C}\U{001D}\U{001E}\U{001F}")
    ensures ('0' <= c <= '9' || 'a' <= c <= 'z' || 'A' <= c <= 'Z') ==> !IsSpace(c)
  {
  }

  predicate AllSpace(s: string)
  {
    forall i :: 0 <= i < |s| ==> IsSpace(s[i])
  }

  /** Neither begins nor ends with white space. */
  predicate Stripped(s: string)
  {
    |s| == 0 || (!IsSpace(s[0]) && !IsSpace(s[|s| - 1]))
  }

  /** `r` is `s` with only white space cut off at either end, the cut
      starting at `i`. */
  ghost predicate TrimmedAt(s: string, r: string, i: int)
  {
    && 0 <= i <= |s| - |r|
    && s[i..i + |r|] == r
    && AllSpace(s[..i])
    && AllSpace(s[i + |r|..])
  }

  function StripLeft(s: string): (r: string)
    ensures |r| <= |s| && r == s[|s| - |r|..]
    ensures AllSpace(s[..|s| - |r|])
    ensures |r| > 0 ==> !IsSpace(r[0])
    decreases |s|
  {
    if |s| > 0 && IsSpace(s[0]) then
      var r := StripLeft(s[1..]);
      assert s[..|s| - |r|] == [s[0]] + s[1..][..|s[1..]| - |r|];
      r
    else s
  }

  function StripRight(s: string): (r: string)
    ensures |r| <= |s| && r == s[..|r|]
    ensures AllSpace(s[|r|..])
    ensures |r| > 0 ==> !IsSpace(r[|r| - 1])
    decreases |s|
  {
    if |s| > 0 && IsSpace(s[|s| - 1]) then
      var r := StripRight(s[..|s| - 1]);
      assert s[|r|..] == s[..|s| - 1][|r|..] + [s[|s| - 1]];
      r
    else s
  }

  /** Python's `s.strip()`. */
  function Strip(s: string): (r: string)
    ensures Stripped(r)
    ensures exists i :: TrimmedAt(s, r, i)
  {
    var r := StripRight(StripLeft(s));
    StripTrims(s);
    r
  }

  lemma StripTrims(s: string)
    ensures TrimmedAt(s, StripRight(StripLeft(s)), |s| - |StripLeft(s)|)
  {
    var l := StripLeft(s);
    var i := |s| - |l|;
    assert l == s[i..];
    SuffixTrim(s, i, StripRight(l));
  }

  /** Trimming the end of the suffix `s[i..]`, whose prefix `s[..i]` is
      white space, trims `s` at `i`. */
  lemma SuffixTrim(s: string, i: int, r: string)
    requires 0 <= i <= |s| && AllSpace(s[..i])
    requires |r| <= |s| - i && r == s[i..][..|r|] && AllSpace(s[i..][|r|..])
    ensures TrimmedAt(s, r, i)
  {
    assert s[i..i + |r|] == s[i..][..|r|];
    assert s[i + |r|..] == s[i..][|r|..];
  }

  lemma {:induction false} StripLeftPadded(a: string, x: string)
    requires AllSpace(a)
    requires |x| == 0 || !IsSpace(x[0])
    ensures StripLeft(a + x) == x
    decreases |a|
  {
    if |a| > 0 {
      assert (a + x)[0] == a[0];
      assert (a + x)[1..] == a[1..] + x;
      StripLeftPadded(a[1..], x);
    } else {
      assert a + x == x;
    }
  }

  lemma {:induction false} StripRightPadded(x: string, b: string)
    requires AllSpace(b)
    requires |x| == 0 || !IsSpace(x[|x| - 1])
    ensures StripRight(x + b) == x
    decreases |b|
  {
    if |b| > 0 {
      var b' := b[..|b| - 1];
      assert (x + b)[|x + b| - 1] == b[|b| - 1];
      assert (x + b)[..|x + b| - 1] == x + b';
      StripRightPadded(x, b');
    } else {
      assert x + b == x;
    }
  }

  /** Stripping text that is padded with white space only returns the text:
      `strip` undoes any white-space padding of a stripped string. */
  lemma StripPadded(a: string, t: string, b: string)
    requires AllSpace(a) && AllSpace(b) && Stripped(t)
    ensures Strip(a + t + b) == t
  {
    if |t| > 0 {
      assert a + t + b == a + (t + b);
      assert (t + b)[0] == t[0];
      StripLeftPadded(a, t + b);
      StripRightPadded(t, b);
    } else {
      assert a + t + b == (a + b) + [];
      StripLeftPadded(a + b, []);
    }
  }

  /** Stripping twice is stripping once. */
  lemma StripIdempotent(s: string)
    ensures Strip(Strip(s)) == Strip(s)
  {
    StrippedIsFixed(Strip(s));
  }

  /** A text without white space at its ends is left alone by `strip`. */
  lemma StrippedIsFixed(t: string)
    requires Stripped(t)
    ensures Strip(t) == t
  {
    StripPadded([], t, []);
    assert [] + t + [] == t;
  }

  /** `p` occurs in `s` starting at position `i`. */
  ghost predicate OccursAt(s: string, p: string, i: int)
  {
    0 <= i && i + |p| <= |s| && s[i..i + |p|] == p
  }

  ghost predicate Occurs(s: string, p: string)
  {
    exists i :: OccursAt(s, p, i)
  }

  /** Python's `s.replace(p, '')`: scan left to right, drop each occurrence
      of `p` found, and resume the scan right after it. */
  function RemoveAll(s: string, p: string): (r: string)
    ensures |r| <= |s|
    decreases |s|
  {
    if |p| == 0 || |s| < |p| then s
    else if s[..|p|] == p then RemoveAll(s[|p|..], p)
    else [s[0]] + RemoveAll(s[1..], p)
  }

  /** Text without an occurrence of `p` passes through unchanged. */
  lemma {:induction false} RemoveAllAbsent(s: string, p: string)
    requires !Occurs(s, p)
    ensures RemoveAll(s, p) == s
    decreases |s|
  {
    if |p| > 0 && |s| >= |p| {
      assert s[..|p|] != p by {
        assert s[0..0 + |p|] == s[..|p|];
        assert !OccursAt(s, p, 0);
      }
      assert !Occurs(s[1..], p) by {
        forall i | OccursAt(s[1..], p, i)
          ensures false
        {
          assert s[1..][i..i + |p|] == s[i + 1..i + 1 + |p|];
          assert OccursAt(s, p, i + 1);
        }
      }
      RemoveAllAbsent(s[1..], p);
    } else if |p| == 0 {
      assert OccursAt(s, p, 0);
    }
  }

  /** A leading occurrence is dropped. */
  lemma RemoveAllLeading(p: string, s: string)
    requires |p| > 0
    ensures RemoveAll(p + s, p) == RemoveAll(s, p)
  {
    assert (p + s)[..|p|] == p;
    assert (p + s)[|p|..] == s;
  }

  /** A first character that does not begin an occurrence is kept; `k` is
      a position where the text and `p` differ. */
  lemma RemoveAllKeepsFirst(s: string, p: string, k: nat)
    requires |p| > 0 && |s| >= |p|
    requires k < |p| && s[k] != p[k]
    ensures RemoveAll(s, p) == [s[0]] + RemoveAll(s[1..], p)
  {
    assert s[..|p|][k] != p[k];
  }

  /** Everything before the first occurrence of `p` is kept, that occurrence
      is dropped, and the scan resumes right after it. With RemoveAllAbsent
      this determines `RemoveAll` on every input. */
  lemma {:induction false} RemoveAllAtFirst(a: string, p: string, b: string)
    requires |p| > 0
    requires forall i :: 0 <= i < |a| ==> !OccursAt(a + p + b, p, i)
    ensures RemoveAll(a + p + b, p) == a + RemoveAll(b, p)
    decreases |a|
  {
    var s := a + p + b;
    if |a| == 0 {
      assert s == p + b;
      RemoveAllLeading(p, b);
    } else {
      assert s[..|p|] != p by {
        assert s[0..0 + |p|] == s[..|p|];
        assert !OccursAt(s, p, 0);
      }
      assert s[1..] == a[1..] + p + b;
      forall i | 0 <= i < |a[1..]|
        ensures !OccursAt(a[1..] + p + b, p, i)
      {
        if OccursAt(a[1..] + p + b, p, i) {
          assert s[i + 1..i + 1 + |p|] == (a[1..] + p + b)[i..i + |p|];
          assert OccursAt(s, p, i + 1);
        }
      }
      RemoveAllAtFirst(a[1..], p, b);
      assert a + RemoveAll(b, p) == [a[0]] + (a[1..] + RemoveAll(b, p));
    }
  }

  /** Leading characters that cannot start `p` are kept as they are. */
  lemma {:induction false} RemoveAllKeepsPrefix(a: string, s: string, p: string)
    requires |p| > 0
    requires forall i :: 0 <= i < |a| ==> a[i] != p[0]
    ensures RemoveAll(a + s, p) == a + RemoveAll(s, p)
    decreases |a|
  {
    if |a| == 0 {
      assert a + s == s;
    } else {
      var x := a + s;
      assert x[0] == a[0];
      assert x[1..] == a[1..] + s;
      RemoveAllKeepsPrefix(a[1..], s, p);
      if |x| >= |p| {
        assert x[..|p|][0] != p[0];
      } else {
        assert |s| < |p|;
      }
    }
  }

  function LowerChar(c: char): char
  {
    if 'A' <= c <= 'Z' then (c as int - 'A' as int + 'a' as int) as char else c
  }

  /** Python's `s.lower()` restricted to ASCII letters. */
  function Lower(s: string): (r: string)
    ensures |r| == |s|
    ensures forall i :: 0 <= i < |s| ==> r[i] == LowerChar(s[i])
    ensures NoUpper(r)
    decreases |s|
  {
    if |s| == 0 then "" else [LowerChar(s[0])] + Lower(s[1..])
  }

  /** `c` is `w` itself or the upper-case form of the lower-case letter `w`. */
  predicate SameIgnoringCase(c: char, w: char)
  {
    c == w || ('a' <= w <= 'z' && c as int == w as int - 32)
  }

  /** `s` spells `w` up to the case of its letters. */
  predicate MatchesIgnoringCase(s: string, w: string)
  {
    |s| == |w| && forall i :: 0 <= i < |s| ==> SameIgnoringCase(s[i], w[i])
  }

  predicate NoUpper(w: string)
  {
    forall i :: 0 <= i < |w| ==> !('A' <= w[i] <= 'Z')
  }

  /** Comparing `s.lower()` with a word that has no capitals accepts exactly
      the spellings of that word that differ in letter case only. */
  lemma {:induction false} LowerEqualsIff(s: string, w: string)
    requires NoUpper(w)
    ensures Lower(s) == w <==> MatchesIgnoringCase(s, w)
    decreases |s|
  {
    if |s| > 0 && |w| == |s| {
      assert NoUpper(w[1..]) by {
        forall i | 0 <= i < |w[1..]| ensures !('A' <= w[1..][i] <= 'Z') {
          assert w[1..][i] == w[i + 1];
        }
      }
      LowerEqualsIff(s[1..], w[1..]);
      assert !('A' <= w[0] <= 'Z');
      assert LowerChar(s[0]) == w[0] <==> SameIgnoringCase(s[0], w[0]);
      assert w == [w[0]] + w[1..];
      if Lower(s) == w {
        forall i | 0 <= i < |s| ensures SameIgnoringCase(s[i], w[i]) {
          if i > 0 {
            assert s[1..][i - 1] == s[i] && w[1..][i - 1] == w[i];
          }
        }
      }
      if forall i :: 0 <= i < |s| ==> SameIgnoringCase(s[i], w[i]) {
        forall i | 0 <= i < |s[1..]| ensures SameIgnoringCase(s[1..][i], w[1..][i]) {
          assert s[1..][i] == s[i + 1] && w[1..][i] == w[i + 1];
        }
      }
    }
  }

  /** Python's `sep.join(parts)`. */
  function Join(parts: seq<string>, sep: string): (r: string)
    ensures |parts| == 0 ==> r == ""
    ensures |parts| == 1 ==> r == parts[0]
    decreases |parts|
  {
    if |parts| == 0 then ""
    else if |parts| == 1 then parts[0]
    else parts[0] + sep + Join(parts[1..], sep)
  }

  /** A join starts with the first part and ends with the last one; with
      two parts or more, the separator follows the first part. */
  lemma {:induction false} JoinEnds(parts: seq<string>, sep: string)
    requires |parts| > 0
    ensures var r := Join(parts, sep);
      && |r| >= |parts[0]| && r[..|parts[0]|] == parts[0]
      && |r| >= |parts[|parts| - 1]| && r[|r| - |parts[|parts| - 1]|..] == parts[|parts| - 1]
      && (|parts| > 1 ==> |r| >= |parts[0]| + |sep| && r[|parts[0]|..|parts[0]| + |sep|] == sep)
    decreases |parts|
  {
    if |parts| > 1 {
      var rest := Join(parts[1..], sep);
      JoinEnds(parts[1..], sep);
      var r := parts[0] + sep + rest;
      assert Join(parts, sep) == r;
      assert r[|r| - |rest|..] == rest;
      assert parts[1..][|parts[1..]| - 1] == parts[|parts| - 1];
    }
  }

  /** Python's `s.split(c)` for a one-character separator: the pieces between
      separators, an empty string standing for an empty piece. */
  function Split(s: string, c: char): (r: seq<string>)
    ensures |r| >= 1
    decreases |s|
  {
    if |s| == 0 then [""]
    else
      var rest := Split(s[1..], c);
      if s[0] == c then [""] + rest else [[s[0]] + rest[0]] + rest[1..]
  }

  lemma {:induction false} SplitWithout(a: string, c: char)
    requires c !in a
    ensures Split(a, c) == [a]
    decreases |a|
  {
    if |a| > 0 {
      assert c !in a[1..];
      SplitWithout(a[1..], c);
      assert a == [a[0]] + a[1..];
    }
  }

  lemma {:induction false} SplitAfter(a: string, c: char, b: string)
    requires c !in a
    ensures Split(a + [c] + b, c) == [a] + Split(b, c)
    decreases |a|
  {
    var s := a + [c] + b;
    if |a| == 0 {
      assert s[0] == c && s[1..] == b;
    } else {
      assert s[0] == a[0];
      assert s[1..] == a[1..] + [c] + b;
      assert c !in a[1..];
      SplitAfter(a[1..], c, b);
      assert a == [a[0]] + a[1..];
    }
  }

  /** Splitting a join on the same separator gives the parts back, provided
      no part contains the separator. */
  lemma {:induction false} SplitJoin(parts: seq<string>, c: char)
    requires |parts| > 0
    requires forall i :: 0 <= i < |parts| ==> c !in parts[i]
    ensures Split(Join(parts, [c]), c) == parts
    decreases |parts|
  {
    if |parts| == 1 {
      SplitWithout(parts[0], c);
    } else {
      SplitJoin(parts[1..], c);
      SplitAfter(parts[0], c, Join(parts[1..], [c]));
      assert parts == [parts[0]] + parts[1..];
    }
  }
}
