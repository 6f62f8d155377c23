/** The two Python string operations the cleaning step uses:
    `str.replace(pat, '')` (delete every occurrence of a pattern, in one
    left-to-right pass over non-overlapping occurrences) and `str.strip()`
    (remove surrounding whitespace). */
module Text {

  /** Python's `str.isspace` on a single character: the characters that
      `str.strip()` with no argument removes. */
  predicate IsSpace(c: char)
  {
    || ('\t' <= c <= '\r')           // tab, line feed, vertical tab, form feed, carriage return
    || ('\U{1C}' <= c <= '\U{1F}')   // file, group, record and unit separators
    || c == ' '
    || c == '\U{85}'
    || c == '\U{A0}'
    || c == '\U{1680}'
    || ('\U{2000}' <= c <= '\U{200A}')
    || c == '\U{2028}'
    || c == '\U{2029}'
    || c == '\U{202F}'
    || c == '\U{205F}'
    || c == '\U{3000}'
  }

  /** `pat` starts at position `i` of `s`. */
  predicate OccursAt(s: string, pat: string, i: nat)
  {
    i + |pat| <= |s| && s[i..i + |pat|] == pat
  }

  /** `s.replace(pat, '')` for a non-empty `pat`: scan from the left; where
      `pat` starts, drop it and continue after it, otherwise keep the
      character. Occurrences formed only by the deletion are not deleted. */
  function Delete(s: string, pat: string): (r: string)
    requires |pat| > 0
    ensures |r| <= |s|
    decreases |s|
  {
    if |s| < |pat| then s
    else if s[..|pat|] == pat then Delete(s[|pat|..], pat)
    else [s[0]] + Delete(s[1..], pat)
  }

  /** Every character of the result comes from `s`, as many times at most,
      and characters that do not occur in `pat` are all kept. */
  lemma {:induction false} DeleteKeeps(s: string, pat: string)
    requires |pat| > 0
    ensures multiset(Delete(s, pat)) <= multiset(s)
    ensures forall c :: c !in pat ==> multiset(Delete(s, pat))[c] == multiset(s)[c]
    decreases |s|
  {
    if |s| < |pat| {
    } else if s[..|pat|] == pat {
      DeleteKeeps(s[|pat|..], pat);
      assert s == s[..|pat|] + s[|pat|..];
      assert multiset(s) == multiset(pat) + multiset(s[|pat|..]);
      forall c | c !in pat ensures multiset(pat)[c] == 0 { }
    } else {
      DeleteKeeps(s[1..], pat);
      assert s == [s[0]] + s[1..];
    }
  }

  /** The number of occurrences of `pat` that `Delete` removes: the
      non-overlapping occurrences found scanning from the left. */
  function Matches(s: string, pat: string): nat
    requires |pat| > 0
    decreases |s|
  {
    if |s| < |pat| then 0
    else if s[..|pat|] == pat then 1 + Matches(s[|pat|..], pat)
    else Matches(s[1..], pat)
  }

  /** The deletion removes whole copies of `pat`, one per occurrence found. */
  lemma {:induction false} DeleteRemovesWholeCopies(s: string, pat: string)
    requires |pat| > 0
    ensures |s| == |Delete(s, pat)| + Matches(s, pat) * |pat|
    decreases |s|
  {
    if |s| < |pat| {
    } else if s[..|pat|] == pat {
      DeleteRemovesWholeCopies(s[|pat|..], pat);
      MultiplySucc(Matches(s[|pat|..], pat), |pat|);
    } else {
      DeleteRemovesWholeCopies(s[1..], pat);
    }
  }

  lemma MultiplySucc(m: nat, k: nat)
    ensures (1 + m) * k == m * k + k
  {
  }

  /** A string in which `pat` never occurs is left as it is. */
  lemma {:induction false} DeleteAbsent(s: string, pat: string)
    requires |pat| > 0
    requires forall i: nat :: !OccursAt(s, pat, i)
    ensures Delete(s, pat) == s
    decreases |s|
  {
    if |s| < |pat| {
    } else {
      assert !OccursAt(s, pat, 0);
      forall i: nat ensures !OccursAt(s[1..], pat, i) {
        assert !OccursAt(s, pat, i + 1);
      }
      DeleteAbsent(s[1..], pat);
      assert s == [s[0]] + s[1..];
    }
  }

  /** `s` with every copy of `c` filtered out, the kept characters in their
      order: an independent statement of what deleting one character does. */
  function Without(s: string, c: char): string
  {
    if s == [] then [] else (if s[0] == c then [] else [s[0]]) + Without(s[1..], c)
  }

  /** A character is in the filtered text exactly when it is in `s` and is
      not `c`. */
  lemma {:induction false} WithoutMembership(s: string, c: char, d: char)
    ensures d in Without(s, c) <==> d in s && d != c
  {
    if s != [] {
      WithoutMembership(s[1..], c, d);
      assert s == [s[0]] + s[1..];
    }
  }

  /** Filtering out a character that does not occur changes nothing. */
  lemma {:induction false} WithoutAbsent(s: string, c: char)
    requires c !in s
    ensures Without(s, c) == s
  {
    if s != [] {
      assert s[1..] == s[1..] && forall d :: d in s[1..] ==> d in s;
      WithoutAbsent(s[1..], c);
      assert s == [s[0]] + s[1..];
    }
  }

  /** Filtering distributes over concatenation. */
  lemma {:induction false} WithoutConcat(a: string, b: string, c: char)
    ensures Without(a + b, c) == Without(a, c) + Without(b, c)
  {
    if a == [] {
      assert a + b == b;
    } else {
      assert (a + b)[1..] == a[1..] + b;
      WithoutConcat(a[1..], b, c);
    }
  }

  /** Deleting a single character keeps every other character, in order,
      and removes every copy of it. */
  lemma DeleteChar(s: string, c: char)
    ensures Delete(s, [c]) == Without(s, c)
    ensures c !in Delete(s, [c])
    ensures multiset(Delete(s, [c])) == multiset(s)[c := 0]
  {
    DeleteKeeps(s, [c]);
    DeleteCharFilters(s, c);
    WithoutMembership(s, c, c);
    var r := Delete(s, [c]);
    assert multiset(r)[c] == 0;
    forall d ensures multiset(r)[d] == multiset(s)[c := 0][d] {
      if d != c { assert d !in [c]; }
    }
  }

  lemma {:induction false} DeleteCharFilters(s: string, c: char)
    ensures Delete(s, [c]) == Without(s, c)
    decreases |s|
  {
    if s != [] {
      DeleteCharFilters(s[1..], c);
      if s[0] == c {
        assert s[..1] == [c];
      } else {
        assert s[..1] != [c] by { assert s[..1][0] == s[0]; }
      }
    }
  }

  /** A single character that does not occur is not deleted. */
  lemma DeleteAbsentChar(s: string, c: char)
    requires c !in s
    ensures Delete(s, [c]) == s
  {
    forall i: nat ensures !OccursAt(s, [c], i) {
      if i < |s| {
        assert s[i..i + 1][0] == s[i] && s[i] in s;
      }
    }
    DeleteAbsent(s, [c]);
  }

  /** Deleting `pat` from `a + b`, when `a` holds no character that starts
      `pat`, leaves `a` alone. */
  lemma {:induction false} DeleteAfter(a: string, b: string, pat: string)
    requires |pat| > 0
    requires forall i :: 0 <= i < |a| ==> (a + b)[i] != pat[0]
    ensures Delete(a + b, pat) == a + Delete(b, pat)
    decreases |a|
  {
    if a == [] {
      assert a + b == b;
    } else {
      var s := a + b;
      DeletePast(s, pat, 0);
      assert s[1..] == a[1..] + b;
      forall i | 0 <= i < |a| - 1 ensures (a[1..] + b)[i] != pat[0] {
        assert (a[1..] + b)[i] == s[i + 1];
      }
      DeleteAfter(a[1..], b, pat);
      assert a == [a[0]] + a[1..];
    }
  }

  /** `Delete` where `pat` starts the text: the occurrence is dropped. */
  lemma DeleteHere(s: string, pat: string)
    requires |pat| > 0 && OccursAt(s, pat, 0)
    ensures Delete(s, pat) == Delete(s[|pat|..], pat)
  {
    assert s[..|pat|] == s[0..|pat|];
  }

  /** `Delete` where the text does not start with `pat`, as its `k`-th
      character shows: the first character is kept. */
  lemma DeletePast(s: string, pat: string, k: nat)
    requires k < |pat| && k < |s| && s[k] != pat[k]
    ensures Delete(s, pat) == [s[0]] + Delete(s[1..], pat)
  {
    if |s| >= |pat| {
      assert s[..|pat|][k] != pat[k];
    } else {
      assert s == [s[0]] + s[1..];
    }
  }

  /** Stripping takes nothing in: a character absent from `s` is absent
      from `s.strip()`. */
  lemma StripKeepsOut(s: string, c: char)
    requires c !in s
    ensures c !in Strip(s)
  {
    var r := Strip(s);
    var i := StripSlice(s);
    forall k | 0 <= k < |r| ensures r[k] != c {
      assert r[k] == s[i + k];
    }
  }

  /** `s.lstrip()`: the longest suffix of `s` that does not start with
      whitespace, everything before it being whitespace. */
  function TrimStart(s: string): (r: string)
    ensures |r| <= |s| && r == s[|s| - |r|..]
    ensures forall k :: 0 <= k < |s| - |r| ==> IsSpace(s[k])
    ensures r == [] || !IsSpace(r[0])
  {
    if |s| > 0 && IsSpace(s[0]) then
      var r := TrimStart(s[1..]);
      assert forall k :: 0 < k < |s| ==> s[k] == s[1..][k - 1];
      assert s[1..][|s| - 1 - |r|..] == s[|s| - |r|..];
      r
    else s
  }

  /** `s.rstrip()`: the longest prefix of `s` that does not end with
      whitespace, everything after it being whitespace. */
  function TrimEnd(s: string): (r: string)
    ensures |r| <= |s| && r == s[..|r|]
    ensures forall k :: |r| <= k < |s| ==> IsSpace(s[k])
    ensures r == [] || !IsSpace(r[|r| - 1])
  {
    if |s| > 0 && IsSpace(s[|s| - 1]) then
      var r := TrimEnd(s[..|s| - 1]);
      assert forall k :: 0 <= k < |s| - 1 ==> s[k] == s[..|s| - 1][k];
      assert s[..|s| - 1][..|r|] == s[..|r|];
      r
    else s
  }

  /** `s.strip()`: `s` without the whitespace at either end; the result
      neither starts nor ends with whitespace. */
  function Strip(s: string): (r: string)
    ensures r == [] || (!IsSpace(r[0]) && !IsSpace(r[|r| - 1]))
  {
    TrimEnd(TrimStart(s))
  }

  /** What `Strip` leaves is a slice `s[i..i + |Strip(s)|]`, with only
      whitespace outside it. */
  lemma StripSlice(s: string) returns (i: nat)
    ensures i + |Strip(s)| <= |s| && Strip(s) == s[i..i + |Strip(s)|]
    ensures forall k :: 0 <= k < i ==> IsSpace(s[k])
    ensures forall k :: i + |Strip(s)| <= k < |s| ==> IsSpace(s[k])
  {
    var t := TrimStart(s);
    i := |s| - |t|;
    TrimEndOfSuffix(s, i, t);
  }

  /** `TrimEnd` of the suffix `s[i..]` is the slice of `s` from `i`, with only
      whitespace after it. */
  lemma TrimEndOfSuffix(s: string, i: nat, t: string)
    requires i <= |s| && t == s[i..]
    ensures i + |TrimEnd(t)| <= |s| && TrimEnd(t) == s[i..i + |TrimEnd(t)|]
    ensures forall k :: i + |TrimEnd(t)| <= k < |s| ==> IsSpace(s[k])
  {
    var r := TrimEnd(t);
    assert s[i..][..|r|] == s[i..i + |r|];
    forall k | i + |r| <= k < |s| ensures IsSpace(s[k]) {
      assert s[k] == t[k - i];
    }
  }

  /** Text with no whitespace at either end is left as it is. */
  lemma StripPlain(s: string)
    requires s == [] || (!IsSpace(s[0]) && !IsSpace(s[|s| - 1]))
    ensures Strip(s) == s
  {
    assert TrimStart(s) == s;
    assert TrimEnd(s) == s;
  }

  /** A trailing space after text with no whitespace at either end is
      stripped off. */
  lemma StripTrailingSpace(w: string)
    requires w != [] && !IsSpace(w[0]) && !IsSpace(w[|w| - 1])
    ensures Strip(w + " ") == w
  {
    var a := w + " ";
    assert TrimStart(a) == a;
    assert a[..|a| - 1] == w;
    assert TrimEnd(w) == w;
  }

  /** Stripping twice is stripping once. */
  lemma StripIdempotent(s: string)
    ensures Strip(Strip(s)) == Strip(s)
  {
    StripPlain(Strip(s));
  }

}
