/** The string operations the normalisers use: `str.strip()`, ASCII
    `str.lower()`, the `in` test for substrings and `str.replace`. */
module Text {

  /** `c.isspace()` for a single character (the full set of characters
      Python's `str.strip()` removes). */
  predicate IsSpace(c: char) {
    c == ' ' || ('\t' <= c <= '\r') || ('\U{1c}' <= c <= '\U{1f}')
    || c == '\U{85}' || c == '\U{a0}' || c == '\U{1680}'
    || ('\U{2000}' <= c <= '\U{200a}') || c == '\U{2028}' || c == '\U{2029}'
    || c == '\U{202f}' || c == '\U{205f}' || c == '\U{3000}'
  }

  /** Number of leading whitespace characters. */
  function LeadingSpace(s: string): (n: nat)
    ensures n <= |s|
    ensures forall k :: 0 <= k < n ==> IsSpace(s[k])
    ensures n < |s| ==> !IsSpace(s[n])
  {
    if s == [] || !IsSpace(s[0]) then 0 else 1 + LeadingSpace(s[1..])
  }

  /** Number of trailing whitespace characters. */
  function TrailingSpace(s: string): (n: nat)
    ensures n <= |s|
    ensures forall k :: |s| - n <= k < |s| ==> IsSpace(s[k])
    ensures n < |s| ==> !IsSpace(s[|s| - 1 - n])
  {
    if s == [] || !IsSpace(s[|s| - 1]) then 0 else 1 + TrailingSpace(s[..|s| - 1])
  }

  /** `s.strip()`: the longest infix of `s` that neither starts nor ends
      with whitespace, obtained by removing whitespace only. */
  function Strip(s: string): (r: string)
    ensures |r| <= |s|
    ensures r != [] ==> !IsSpace(r[0]) && !IsSpace(r[|r| - 1])
    ensures forall c :: c in r ==> c in s
    ensures exists i, j ::
      && 0 <= i <= j <= |s| && r == s[i..j]
      && forall k :: 0 <= k < i || j <= k < |s| ==> IsSpace(s[k])
  {
    var t := s[LeadingSpace(s)..];
    StripCut(s);
    t[..|t| - TrailingSpace(t)]
  }

  /** Where `Strip` cuts: everything before and after the kept infix is
      whitespace. */
  lemma StripCut(s: string)
    ensures var i, t := LeadingSpace(s), s[LeadingSpace(s)..];
      var j := |s| - TrailingSpace(t);
      && i <= j
      && t[..|t| - TrailingSpace(t)] == s[i..j]
      && forall k :: 0 <= k < i || j <= k < |s| ==> IsSpace(s[k])
  {
    var i := LeadingSpace(s);
    var t := s[i..];
    var n := TrailingSpace(t);
    var j := |s| - n;
    forall k | j <= k < |s|
      ensures IsSpace(s[k])
    {
      assert s[k] == t[k - i];
    }
  }

  /** Stripping a string that has no whitespace at either end changes nothing,
      so `strip` is idempotent. */
  lemma StripIdempotent(s: string)
    ensures Strip(Strip(s)) == Strip(s)
  {
    var r := Strip(s);
    assert LeadingSpace(r) == 0;
    assert TrailingSpace(r) == 0;
  }

  function LowerChar(c: char): char {
    if 'A' <= c <= 'Z' then (c as int + 32) as char else c
  }

  /** `s.lower()` on ASCII letters; other characters are kept. */
  function Lower(s: string): (r: string)
    ensures |r| == |s|
    ensures forall k :: 0 <= k < |s| ==> r[k] == LowerChar(s[k])
  {
    if s == [] then [] else [LowerChar(s[0])] + Lower(s[1..])
  }

  /** `pat in s` for strings. */
  predicate Contains(s: string, pat: string)
    decreases |s|
  {
    |pat| <= |s| && (s[..|pat|] == pat || (s != [] && Contains(s[1..], pat)))
  }

  /** `s.replace(pat, rep)`: every non-overlapping occurrence of a non-empty
      `pat`, scanned from the left, is replaced by `rep`. */
  function Replace(s: string, pat: string, rep: string): string
    requires pat != []
    decreases |s|
  {
    if |s| < |pat| then s
    else if s[..|pat|] == pat then rep + Replace(s[|pat|..], pat, rep)
    else [s[0]] + Replace(s[1..], pat, rep)
  }

  /** Reference definition: `s` with every occurrence of `c` dropped. */
  function Without(s: string, c: char): string {
    if s == [] then [] else (if s[0] == c then [] else [s[0]]) + Without(s[1..], c)
  }

  /** Reference definition: `s` with every `c` changed into `d`. */
  function Substitute(s: string, c: char, d: char): string {
    if s == [] then [] else [if s[0] == c then d else s[0]] + Substitute(s[1..], c, d)
  }

  /** `s.replace(c, "")` drops exactly the occurrences of `c`. */
  lemma {:induction false} ReplaceByEmpty(s: string, c: char)
    ensures Replace(s, [c], []) == Without(s, c)
    ensures c !in Without(s, c)
    ensures forall x :: x in Without(s, c) <==> x in s && x != c
  {
    if s != [] {
      ReplaceByEmpty(s[1..], c);
      assert s[..1] == [s[0]];
    }
  }

  /** `s.replace(c, d)` for single characters rewrites exactly the
      occurrences of `c`. */
  lemma {:induction false} ReplaceByChar(s: string, c: char, d: char)
    ensures Replace(s, [c], [d]) == Substitute(s, c, d)
    ensures |Substitute(s, c, d)| == |s|
    ensures forall k :: 0 <= k < |s| ==> Substitute(s, c, d)[k] == if s[k] == c then d else s[k]
  {
    if s != [] {
      ReplaceByChar(s[1..], c, d);
      assert s[..1] == [s[0]];
      var t := Substitute(s, c, d);
      forall k | 0 <= k < |s| ensures t[k] == if s[k] == c then d else s[k] {
        if k > 0 { assert t[k] == Substitute(s[1..], c, d)[k - 1]; }
      }
    }
  }

  /** A one-character pattern is contained iff the character occurs. */
  lemma {:induction false} ContainsChar(s: string, c: char)
    ensures Contains(s, [c]) <==> c in s
  {
    if s != [] {
      ContainsChar(s[1..], c);
      assert s == [s[0]] + s[1..];
    }
  }
  /** A string with no whitespace at either end is its own `strip()`. */
  lemma StripUnpadded(s: string)
    requires s != [] && !IsSpace(s[0]) && !IsSpace(s[|s| - 1])
    ensures Strip(s) == s
  {
    assert LeadingSpace(s) == 0;
    assert s[0..] == s;
    assert TrailingSpace(s) == 0;
  }

  /** A leading blank and a trailing newline are stripped away again. */
  lemma StripPadded(s: string)
    requires s != [] && !IsSpace(s[0]) && !IsSpace(s[|s| - 1])
    ensures Strip(" " + s + "\n") == s
  {
    var p := " " + s + "\n";
    assert LeadingSpace(p) == 1 by { assert p[1..] == s + "\n"; }
    assert p[1..] == s + "\n";
    assert TrailingSpace(s + "\n") == 1 by { assert (s + "\n")[..|s|] == s; }
  }

  /** `lower()` leaves a string without upper-case letters unchanged. */
  lemma LowerUnchanged(s: string)
    requires forall k :: 0 <= k < |s| ==> !('A' <= s[k] <= 'Z')
    ensures Lower(s) == s
  {
  }

  /** Only a string holding the first character of `pat` can contain it. */
  lemma {:induction false} ContainsFirstChar(s: string, pat: string)
    requires pat != []
    ensures Contains(s, pat) ==> pat[0] in s
    decreases |s|
  {
    if |pat| <= |s| {
      if s[..|pat|] == pat {
        assert s[0] == pat[0];
      } else if s != [] {
        ContainsFirstChar(s[1..], pat);
      }
    }
  }

  /** Replacing a pattern that does not occur changes nothing. */
  lemma {:induction false} ReplaceAbsent(s: string, pat: string, rep: string)
    requires pat != [] && !Contains(s, pat)
    ensures Replace(s, pat, rep) == s
    decreases |s|
  {
    if |s| >= |pat| {
      ReplaceAbsent(s[1..], pat, rep);
      assert s == [s[0]] + s[1..];
    }
  }

  lemma {:induction false} WithoutConcat(a: string, b: string, c: char)
    ensures Without(a + b, c) == Without(a, c) + Without(b, c)
  {
    if a != [] {
      assert (a + b)[1..] == a[1..] + b;
      WithoutConcat(a[1..], b, c);
    } else {
      assert a + b == b;
    }
  }

  lemma {:induction false} SubstituteConcat(a: string, b: string, c: char, d: char)
    ensures Substitute(a + b, c, d) == Substitute(a, c, d) + Substitute(b, c, d)
  {
    if a != [] {
      assert (a + b)[1..] == a[1..] + b;
      SubstituteConcat(a[1..], b, c, d);
    } else {
      assert a + b == b;
    }
  }

  lemma {:induction false} SubstituteAbsent(s: string, c: char, d: char)
    requires c !in s
    ensures Substitute(s, c, d) == s
  {
    if s != [] {
      SubstituteAbsent(s[1..], c, d);
      assert s == [s[0]] + s[1..];
    }
  }

  lemma {:induction false} WithoutAbsent(s: string, c: char)
    requires c !in s
    ensures Without(s, c) == s
  {
    if s != [] {
      WithoutAbsent(s[1..], c);
      assert s == [s[0]] + s[1..];
    }
  }
  /** A character outside the pattern survives the replacement. */
  lemma {:induction false} ReplaceKeeps(s: string, pat: string, rep: string, x: char)
    requires pat != [] && x in s && x !in pat
    ensures x in Replace(s, pat, rep)
    decreases |s|
  {
    if |s| >= |pat| {
      if s[..|pat|] == pat {
        assert s == s[..|pat|] + s[|pat|..];
        ReplaceKeeps(s[|pat|..], pat, rep, x);
      } else if x != s[0] {
        assert s == [s[0]] + s[1..];
        ReplaceKeeps(s[1..], pat, rep, x);
      }
    }
  }

  lemma {:induction false} WithoutCount(s: string, c: char, d: char)
    ensures multiset(Without(s, c))[d] == if d == c then 0 else multiset(s)[d]
  {
    if s != [] {
      WithoutCount(s[1..], c, d);
      assert s == [s[0]] + s[1..];
      assert multiset(s) == multiset([s[0]]) + multiset(s[1..]);
    }
  }

  lemma {:induction false} SubstituteCount(s: string, c: char, d: char)
    requires c != d
    ensures multiset(Substitute(s, c, d))[d] == multiset(s)[d] + multiset(s)[c]
  {
    if s != [] {
      SubstituteCount(s[1..], c, d);
      assert s == [s[0]] + s[1..];
      assert multiset(s) == multiset([s[0]]) + multiset(s[1..]);
    }
  }
}
