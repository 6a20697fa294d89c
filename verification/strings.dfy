/** The string primitives the component relies on: a global literal
    `String.prototype.replace`, `String.prototype.includes`, and a character count. */
module Strings {

  /** Number of occurrences of the character `c` in `s`. */
  function CountChar(s: string, c: char): (n: nat)
    ensures n <= |s|
    ensures n == 0 <==> c !in s
  {
    if |s| == 0 then 0
    else (if s[0] == c then 1 else 0) + CountChar(s[1..], c)
  }

  lemma {:induction false} CountCharAppend(a: string, b: string, c: char)
    ensures CountChar(a + b, c) == CountChar(a, c) + CountChar(b, c)
  {
    if |a| == 0 {
      assert a + b == b;
    } else {
      assert (a + b)[1..] == a[1..] + b;
      CountCharAppend(a[1..], b, c);
    }
  }

  /** `s.includes(sub)`: `sub` occurs somewhere in `s` (the empty string occurs everywhere). */
  predicate Contains(s: string, sub: string)
    decreases |s|
  {
    sub <= s || (|s| > 0 && Contains(s[1..], sub))
  }

  /** Contains agrees with the positional definition of a substring. */
  lemma {:induction false} ContainsIff(s: string, sub: string)
    ensures Contains(s, sub) <==> exists i :: 0 <= i <= |s| && sub <= s[i..]
    decreases |s|
  {
    if |s| > 0 {
      ContainsIff(s[1..], sub);
      if Contains(s[1..], sub) {
        var i :| 0 <= i <= |s[1..]| && sub <= s[1..][i..];
        assert s[1..][i..] == s[i + 1..];
        assert 0 <= i + 1 <= |s| && sub <= s[i + 1..];
      }
      if sub <= s {
        assert s[0..] == s;
      }
      if exists i :: 0 <= i <= |s| && sub <= s[i..] {
        var i :| 0 <= i <= |s| && sub <= s[i..];
        if i > 0 {
          assert s[1..][i - 1..] == s[i..];
          assert Contains(s[1..], sub);
        } else {
          assert sub <= s;
        }
      }
    } else {
      if exists i :: 0 <= i <= |s| && sub <= s[i..] {
        var i :| 0 <= i <= |s| && sub <= s[i..];
        assert s[i..] == s;
      }
    }
  }

  /** `s.replace(/pat/g, rep)` for a regular expression that is a plain literal:
      the text is scanned left to right and every non-overlapping occurrence
      of `pat` is replaced by `rep`; every other character is copied. */
  function ReplaceAll(s: string, pat: string, rep: string): (r: string)
    requires |pat| > 0
    ensures |rep| == |pat| ==> |r| == |s|
    decreases |s|
  {
    if |s| == 0 then ""
    else
      var hit := pat <= s;
      var consumed := if hit then |pat| else 1;
      (if hit then rep else [s[0]]) + ReplaceAll(s[consumed..], pat, rep)
  }

  /** Every character of the result comes from the text or from the replacement. */
  lemma {:induction false} ReplaceIntroduces(s: string, pat: string, rep: string, ch: char)
    requires |pat| > 0
    ensures ch in ReplaceAll(s, pat, rep) ==> ch in s || ch in rep
    decreases |s|
  {
    if |s| > 0 {
      var m := if pat <= s then |pat| else 1;
      ReplaceStep(s, pat, rep);
      ReplaceIntroduces(s[m..], pat, rep, ch);
      assert ch in s[m..] ==> ch in s;
    }
  }

  /** A pattern that does not occur leaves the text unchanged. */
  lemma {:induction false} ReplaceAbsent(s: string, pat: string, rep: string)
    requires |pat| > 0
    requires !Contains(s, pat)
    ensures ReplaceAll(s, pat, rep) == s
    decreases |s|
  {
    if |s| > 0 {
      ReplaceAbsent(s[1..], pat, rep);
      assert [s[0]] + s[1..] == s;
    }
  }

  /** A prefix that does not hold the pattern's first character is copied unchanged. */
  lemma {:induction false} ReplaceSkipsPrefix(a: string, b: string, pat: string, rep: string)
    requires |pat| > 0 && pat[0] !in a
    ensures ReplaceAll(a + b, pat, rep) == a + ReplaceAll(b, pat, rep)
    decreases |a|
  {
    if |a| > 0 {
      assert (a + b)[0] == a[0];
      assert !(pat <= a + b);
      assert (a + b)[1..] == a[1..] + b;
      ReplaceSkipsPrefix(a[1..], b, pat, rep);
    } else {
      assert a + b == b;
    }
  }

  /** An occurrence at the very front is replaced and the scan resumes after it. */
  lemma ReplaceAtFront(pat: string, b: string, rep: string)
    requires |pat| > 0
    ensures ReplaceAll(pat + b, pat, rep) == rep + ReplaceAll(b, pat, rep)
  {
    assert pat <= pat + b;
    assert (pat + b)[|pat|..] == b;
  }

  /** A pattern with a character the text lacks cannot occur in it. */
  lemma MissingCharNotContained(s: string, pat: string, c: char)
    requires c in pat && c !in s
    ensures !Contains(s, pat)
  {
    ContainsIff(s, pat);
  }

  /** Replacing a single character: the text splits at any point. */
  lemma {:induction false} ReplaceCharAppend(a: string, b: string, c: char, rep: string)
    ensures ReplaceAll(a + b, [c], rep) == ReplaceAll(a, [c], rep) + ReplaceAll(b, [c], rep)
    decreases |a|
  {
    if |a| == 0 {
      assert a + b == b;
    } else {
      assert (a + b)[1..] == a[1..] + b;
      assert [c] <= a + b <==> [c] <= a;
      ReplaceCharAppend(a[1..], b, c, rep);
    }
  }

  /** Replacing a single character changes the length by |rep| - 1 per occurrence. */
  lemma {:induction false} ReplaceCharLength(s: string, c: char, rep: string)
    ensures |ReplaceAll(s, [c], rep)| == |s| + CountChar(s, c) * (|rep| - 1)
    decreases |s|
  {
    if |s| > 0 {
      ReplaceCharLength(s[1..], c, rep);
      var k := |rep| - 1;
      var n := CountChar(s[1..], c);
      var tail := ReplaceAll(s[1..], [c], rep);
      assert |tail| == |s| - 1 + n * k;
      if s[0] == c {
        assert ReplaceAll(s, [c], rep) == rep + tail by {
          assert [c] <= s;
        }
        assert CountChar(s, c) == 1 + n;
        MulSucc(n, k);
      } else {
        assert ReplaceAll(s, [c], rep) == [s[0]] + tail by {
          assert !([c] <= s);
        }
      }
    }
  }

  lemma MulSucc(n: int, k: int)
    ensures (1 + n) * k == k + n * k
  {
  }

  /** Replacing a single character by a text without it removes every occurrence. */
  lemma {:induction false} ReplaceCharRemoves(s: string, c: char, rep: string)
    requires c !in rep
    ensures c !in ReplaceAll(s, [c], rep)
    decreases |s|
  {
    if |s| > 0 {
      ReplaceCharRemoves(s[1..], c, rep);
      assert [c] <= s <==> s[0] == c;
    }
  }

  /** Where the character at position `i` lands: an occurrence of `c` becomes
      `rep`, any other character is copied, at the offset shifted by the
      occurrences of `c` before it. */
  lemma ReplaceCharAt(s: string, c: char, rep: string, i: int)
    requires 0 <= i < |s|
    ensures var r := ReplaceAll(s, [c], rep);
            var o := i + CountChar(s[..i], c) * (|rep| - 1);
            && (s[i] == c ==> o + |rep| <= |r| && r[o..o + |rep|] == rep)
            && (s[i] != c ==> o < |r| && r[o] == s[i])
  {
    var pre, mid, post := s[..i], [s[i]], s[i + 1..];
    assert s == pre + mid + post;
    ReplaceCharAppend(pre + mid, post, c, rep);
    ReplaceCharAppend(pre, mid, c, rep);
    ReplaceCharLength(pre, c, rep);
    var m := ReplaceAll(mid, [c], rep);
    assert [c] <= mid <==> s[i] == c;
    assert mid[1..] == [];
    if s[i] == c {
      assert m == rep;
    } else {
      assert m == [s[i]];
    }
  }

  /** `t` is `s` with some occurrences of `y` turned into `x`, and nothing else changed. */
  ghost predicate Demoted(s: string, t: string, y: char, x: char) {
    && |s| == |t|
    && forall i :: 0 <= i < |s| ==> t[i] == s[i] || (s[i] == y && t[i] == x)
  }

  lemma DemotedTransitive(s: string, t: string, u: string, y: char, x: char)
    requires Demoted(s, t, y, x) && Demoted(t, u, y, x) && x != y
    ensures Demoted(s, u, y, x)
  {
  }

  /** Demoting adds only `x`, so a pattern without `x` found in the result
      was already in the original, at the same place. */
  lemma DemotedOccurrence(s: string, t: string, y: char, x: char, pat: string, i: int)
    requires Demoted(s, t, y, x) && x !in pat && 0 <= i <= |t|
    ensures pat <= t[i..] ==> pat <= s[i..]
  {
    if pat <= t[i..] {
      forall k | 0 <= k < |pat|
        ensures s[i..][k] == pat[k]
      {
        assert t[i..][k] == pat[k];
      }
    }
  }

  lemma DemotedContains(s: string, t: string, y: char, x: char, pat: string)
    requires Demoted(s, t, y, x) && x !in pat
    ensures Contains(t, pat) ==> Contains(s, pat)
  {
    ContainsIff(t, pat);
    ContainsIff(s, pat);
    forall i | 0 <= i <= |t| && pat <= t[i..]
      ensures pat <= s[i..]
    {
      DemotedOccurrence(s, t, y, x, pat, i);
    }
  }

  /** Rewriting the last character of a pattern demotes that character. */
  lemma {:induction false} ReplaceDemotes(s: string, pat: string, x: char)
    requires |pat| > 0
    ensures Demoted(s, ReplaceAll(s, pat, pat[..|pat| - 1] + [x]), pat[|pat| - 1], x)
    decreases |s|
  {
    var rep := pat[..|pat| - 1] + [x];
    if |s| > 0 {
      var r := ReplaceAll(s, pat, rep);
      if pat <= s {
        var rest := s[|pat|..];
        ReplaceDemotes(rest, pat, x);
        assert r == rep + ReplaceAll(rest, pat, rep);
        forall i | 0 <= i < |s|
          ensures r[i] == s[i] || (s[i] == pat[|pat| - 1] && r[i] == x)
        {
          if i >= |pat| {
            assert r[i] == ReplaceAll(rest, pat, rep)[i - |pat|];
            assert s[i] == rest[i - |pat|];
          } else {
            assert s[i] == pat[i];
          }
        }
      } else {
        ReplaceDemotes(s[1..], pat, x);
        assert r == [s[0]] + ReplaceAll(s[1..], pat, rep);
      }
    }
  }

  /** Rewriting the last character of a pattern into one the pattern lacks
      leaves no occurrence of the pattern behind. */
  lemma {:induction false} ReplaceClearsPattern(s: string, pat: string, x: char)
    requires |pat| > 0 && x !in pat
    ensures !Contains(ReplaceAll(s, pat, pat[..|pat| - 1] + [x]), pat)
    decreases |s|
  {
    var r := ReplaceAll(s, pat, pat[..|pat| - 1] + [x]);
    forall i | 0 <= i <= |r|
      ensures !(pat <= r[i..])
    {
      NoOccurrenceAt(s, pat, x, i);
    }
    ContainsIff(r, pat);
  }

  lemma {:induction false} NoOccurrenceAt(s: string, pat: string, x: char, i: int)
    requires |pat| > 0 && x !in pat
    requires 0 <= i <= |ReplaceAll(s, pat, pat[..|pat| - 1] + [x])|
    ensures !(pat <= ReplaceAll(s, pat, pat[..|pat| - 1] + [x])[i..])
    decreases |s|
  {
    var rep := pat[..|pat| - 1] + [x];
    var r := ReplaceAll(s, pat, rep);
    if |s| > 0 && i + |pat| <= |r| {
      var hit := pat <= s;
      var head := if hit then rep else [s[0]];
      var rest := if hit then s[|pat|..] else s[1..];
      var tail := ReplaceAll(rest, pat, rep);
      ReplaceStep(s, pat, rep);
      assert r == head + tail;
      if i >= |head| {
        NoOccurrenceAt(rest, pat, x, i - |head|);
        assert r[i..] == tail[i - |head|..];
      } else if hit {
        var k := |rep| - 1 - i;
        assert r[i..][k] == x;
      } else {
        assert i == 0;
        ReplaceDemotes(s, pat, x);
        DemotedOccurrence(s, r, pat[|pat| - 1], x, pat, 0);
      }
    }
  }

  /** `w` occurs in `s` ending right before position `j`. */
  predicate EndsAt(s: string, w: string, j: int) {
    |w| <= j <= |s| && forall k :: 0 <= k < |w| ==> s[j - |w| + k] == w[k]
  }

  /** One of the words ends right before position `j` of `s`. */
  predicate SomeEndsAt(s: string, words: seq<string>, j: int) {
    exists k :: 0 <= k < |words| && EndsAt(s, words[k], j)
  }

  /** A word of the list ends at `j` when the first does or one of the rest does. */
  lemma SomeEndsAtSplit(s: string, words: seq<string>, j: int)
    requires |words| > 0
    ensures SomeEndsAt(s, words, j) <==> EndsAt(s, words[0], j) || SomeEndsAt(s, words[1..], j)
  {
    if SomeEndsAt(s, words, j) {
      var k :| 0 <= k < |words| && EndsAt(s, words[k], j);
      if k > 0 {
        assert words[1..][k - 1] == words[k];
      }
    }
    if SomeEndsAt(s, words[1..], j) {
      var k :| 0 <= k < |words[1..]| && EndsAt(s, words[1..][k], j);
      assert words[1..][k] == words[k + 1];
    }
  }

  /** Demoting `y` into `x` keeps which words, none holding either character, end at `j`. */
  lemma SomeEndsAtDemoted(s: string, t: string, y: char, x: char, words: seq<string>, j: int)
    requires Demoted(s, t, y, x)
    requires forall k :: 0 <= k < |words| ==> y !in words[k] && x !in words[k]
    ensures SomeEndsAt(s, words, j) <==> SomeEndsAt(t, words, j)
  {
    forall k | 0 <= k < |words|
      ensures EndsAt(s, words[k], j) <==> EndsAt(t, words[k], j)
    {
      DemotedEndsAt(s, t, y, x, words[k], j);
    }
  }

  /** Rewriting `name + [y]` into `name + [x]`, where `name` lacks `y`: a `y`
      of the text becomes `x` exactly when `name` ends right before it. The
      scan misses no such occurrence, because two of them never overlap. */
  lemma {:induction false} ReplaceLastCharAt(s: string, name: string, y: char, x: char, j: int)
    requires y !in name && x != y
    requires 0 <= j < |s| && s[j] == y
    ensures var r := ReplaceAll(s, name + [y], name + [x]);
            j < |r| && (r[j] == x <==> EndsAt(s, name, j))
    decreases |s|, 1
  {
    var pat, rep := name + [y], name + [x];
    ReplaceStepAt(s, pat, rep, j);
    if j < (if pat <= s then |pat| else 1) {
      FirstStepAt(s, name, y, x, j);
    } else {
      ReplaceLastCharLater(s, name, y, x, j);
    }
  }

  /** The case of `ReplaceLastCharAt` past the first step of the scan. */
  lemma {:induction false} ReplaceLastCharLater(s: string, name: string, y: char, x: char, j: int)
    requires y !in name && x != y
    requires 0 <= j < |s| && s[j] == y
    requires j >= (if name + [y] <= s then |name| + 1 else 1)
    ensures var r := ReplaceAll(s, name + [y], name + [x]);
            j < |r| && (r[j] == x <==> EndsAt(s, name, j))
    decreases |s|, 0
  {
    var pat, rep := name + [y], name + [x];
    ReplaceStepAt(s, pat, rep, j);
    if pat <= s {
      var m := |pat|;
      assert s[m..][j - m] == y;
      ReplaceLastCharAt(s[m..], name, y, x, j - m);
      EndsAtShift(s, name, m, j);
      if j - m < |name| {
        FirstStepCovers(s, name, y, j);
      }
    } else {
      assert s[1..][j - 1] == y;
      ReplaceLastCharAt(s[1..], name, y, x, j - 1);
      EndsAtShift(s, name, 1, j);
      if j - 1 < |name| {
        FirstStepCovers(s, name, y, j);
      }
    }
  }

  /** One step of the scan: the replacement or the first character, then the rest of the scan. */
  lemma ReplaceStep(s: string, pat: string, rep: string)
    requires |pat| > 0 && |s| > 0
    ensures var m := if pat <= s then |pat| else 1;
            var head := if pat <= s then rep else [s[0]];
            && m <= |s|
            && ReplaceAll(s, pat, rep) == head + ReplaceAll(s[m..], pat, rep)
  {
  }

  /** One step of the scan, position by position, for a replacement as long as the pattern. */
  lemma ReplaceStepAt(s: string, pat: string, rep: string, j: int)
    requires |pat| > 0 && |rep| == |pat| && 0 <= j < |s|
    ensures var r := ReplaceAll(s, pat, rep);
            var m := if pat <= s then |pat| else 1;
            var head := if pat <= s then rep else [s[0]];
            && m <= |s| && |r| == |s|
            && (j < m ==> r[j] == head[j])
            && (j >= m ==> r[j] == ReplaceAll(s[m..], pat, rep)[j - m])
  {
    ReplaceStep(s, pat, rep);
  }

  /** Within the first step of the scan, a `y` becomes `x` exactly when it
      closes an occurrence at the front. */
  lemma FirstStepAt(s: string, name: string, y: char, x: char, j: int)
    requires y !in name && x != y
    requires 0 <= j < |s| && s[j] == y
    requires j < (if name + [y] <= s then |name| + 1 else 1)
    ensures var head := if name + [y] <= s then name + [x] else [s[0]];
            j < |head| && (head[j] == x <==> EndsAt(s, name, j))
  {
    if name + [y] <= s {
      assert forall i :: 0 <= i < |name| ==> s[i] == name[i];
      assert s[..|name|] == name;
    }
  }

  /** An occurrence of `name` that ends at a `y` lying past the first step of
      the scan but before its next `|name|` characters cannot exist. */
  lemma FirstStepCovers(s: string, name: string, y: char, j: int)
    requires y !in name
    requires 0 <= j < |s| && s[j] == y
    requires var m := if name + [y] <= s then |name| + 1 else 1; m <= j < m + |name|
    ensures !EndsAt(s, name, j)
  {
    if name + [y] <= s {
      WindowHolds(s, name, j, |name|);
    } else {
      ClosedAtFront(s, name, y, j);
    }
  }

  /** Every character of an occurrence belongs to the word. */
  lemma WindowHolds(s: string, w: string, j: int, p: int)
    requires 0 <= p < |s|
    ensures EndsAt(s, w, j) && j - |w| <= p < j ==> s[p] in w
  {
    if EndsAt(s, w, j) && j - |w| <= p < j {
      assert s[p] == w[p - (j - |w|)];
    }
  }

  /** A word ending at the front right before a `y` makes `w + [y]` a prefix. */
  lemma ClosedAtFront(s: string, w: string, y: char, j: int)
    requires 0 <= j < |s| && s[j] == y
    ensures EndsAt(s, w, j) && j == |w| ==> w + [y] <= s
  {
    if j == |w| {
      assert s[..j + 1] == s[..j] + [s[j]];
    }
  }

  /** Past the first `m` characters, an occurrence ending at `j` is one ending at `j - m` in the rest. */
  lemma EndsAtShift(s: string, w: string, m: int, j: int)
    requires 0 <= m <= |s| && m <= j
    ensures j - m >= |w| ==> (EndsAt(s, w, j) <==> EndsAt(s[m..], w, j - m))
  {
    if |w| <= j - m && j <= |s| {
      assert s[j - |w|..j] == s[m..][j - m - |w|..j - m];
    }
  }

  /** Demoting `y` into `x` neither creates nor destroys an occurrence of a
      word that holds neither character. */
  lemma DemotedEndsAt(s: string, t: string, y: char, x: char, w: string, j: int)
    requires Demoted(s, t, y, x) && y !in w && x !in w
    ensures EndsAt(s, w, j) <==> EndsAt(t, w, j)
  {
    if |w| <= j <= |s| {
      if EndsAt(s, w, j) {
        forall k | 0 <= k < |w|
          ensures t[j - |w|..j][k] == w[k]
        {
          assert s[j - |w| + k] == w[k];
        }
      }
      if EndsAt(t, w, j) {
        forall k | 0 <= k < |w|
          ensures s[j - |w|..j][k] == w[k]
        {
          assert t[j - |w| + k] == w[k];
        }
      }
    }
  }
}
