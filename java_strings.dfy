/** Java's literal `String.replace(CharSequence, CharSequence)`, on which the
    report-URL rewrite relies, and a split at the first occurrence of a
    character, used to read composed device names back into their parts. */
module JavaStrings {
  import opened Wrappers

  /** `t` occurs in `s` starting at index `i`. */
  predicate OccursAt(s: string, t: string, i: nat)
  {
    i + |t| <= |s| && s[i..i + |t|] == t
  }

  /** `t` occurs somewhere in `s` (Java: `s.contains(t)`). */
  predicate Occurs(s: string, t: string)
  {
    exists i: nat | i <= |s| :: OccursAt(s, t, i)
  }

  /** Java's `s.replace(t, r)`: scanning left to right, every occurrence of `t`
      that does not overlap an earlier replaced one becomes `r`. An empty `t`
      matches before every character and at the end, so `r` is inserted there. */
  function ReplaceAll(s: string, t: string, r: string): (res: string)
    ensures |t| == |r| ==> |res| == |s|
    decreases |s|
  {
    if t == [] then
      if s == [] then r else r + [s[0]] + ReplaceAll(s[1..], t, r)
    else if |s| < |t| then s
    else if s[..|t|] == t then r + ReplaceAll(s[|t|..], t, r)
    else [s[0]] + ReplaceAll(s[1..], t, r)
  }

  /** Where `t` does not occur, `replace` returns its receiver unchanged. */
  lemma {:induction false} ReplaceAllAbsent(s: string, t: string, r: string)
    requires t != [] && !Occurs(s, t)
    ensures ReplaceAll(s, t, r) == s
    decreases |s|
  {
    if |s| >= |t| {
      assert !OccursAt(s, t, 0);
      assert s[..|t|] != t;
      assert !Occurs(s[1..], t) by {
        forall i: nat | i <= |s[1..]| && OccursAt(s[1..], t, i) ensures false {
          assert s[i + 1..i + 1 + |t|] == s[1..][i..i + |t|];
          assert OccursAt(s, t, i + 1);
        }
      }
      ReplaceAllAbsent(s[1..], t, r);
    }
  }

  /** A leading occurrence of a non-empty `t` is replaced, and the scan resumes after it. */
  lemma ReplaceAllLeading(t: string, rest: string, r: string)
    requires t != []
    ensures ReplaceAll(t + rest, t, r) == r + ReplaceAll(rest, t, r)
  {
    assert (t + rest)[..|t|] == t;
    assert (t + rest)[|t|..] == rest;
  }

  /** Where a non-empty `t` does not start at the first character, that
      character is kept and the scan moves on by one. */
  lemma ReplaceAllSkip(s: string, t: string, r: string)
    requires t != [] && s != [] && !OccursAt(s, t, 0)
    ensures ReplaceAll(s, t, r) == [s[0]] + ReplaceAll(s[1..], t, r)
  {
    if |s| >= |t| {
      assert s[..|t|] != t;
    }
  }

  /** Occurrences in `[x] + s` after the first character are the occurrences in `s`. */
  lemma OccursAtShift(x: char, s: string, t: string, n: nat)
    requires forall i :: 0 <= i < n + 1 ==> !OccursAt([x] + s, t, i)
    ensures forall i :: 0 <= i < n ==> !OccursAt(s, t, i)
  {
    forall i | 0 <= i < n
      ensures !OccursAt(s, t, i)
    {
      assert !OccursAt([x] + s, t, i + 1);
      assert i + |t| <= |s| ==> ([x] + s)[i + 1..i + 1 + |t|] == s[i..i + |t|];
    }
  }

  /** Regrouping a concatenation whose first part is split off at its head. */
  lemma RegroupHead(p: string, u: string, v: string)
    requires p != []
    ensures [p[0]] + (p[1..] + u + v) == p + u + v
  {
    assert p == [p[0]] + p[1..];
  }

  /** The first occurrence of a non-empty `t` is replaced wherever it starts:
      the characters before it are kept, and the scan resumes after it. */
  lemma {:induction false} ReplaceAllFirst(p: string, t: string, q: string, r: string)
    requires t != []
    requires forall i :: 0 <= i < |p| ==> !OccursAt(p + t + q, t, i)
    ensures ReplaceAll(p + t + q, t, r) == p + r + ReplaceAll(q, t, r)
    decreases |p|
  {
    if p == [] {
      assert p + t + q == t + q;
      ReplaceAllLeading(t, q, r);
    } else {
      var s := p + t + q;
      var tail := p[1..] + t + q;
      assert s == [p[0]] + tail;
      assert ReplaceAll(s, t, r) == [p[0]] + ReplaceAll(tail, t, r) by {
        ReplaceAllSkip(s, t, r);
      }
      OccursAtShift(p[0], tail, t, |p[1..]|);
      ReplaceAllFirst(p[1..], t, q, r);
      RegroupHead(p, r, ReplaceAll(q, t, r));
    }
  }

  /** A string replaced in itself becomes the replacement, for every `t`, the empty one included. */
  lemma ReplaceAllWhole(t: string, r: string)
    ensures ReplaceAll(t, t, r) == r
  {
    if t != [] {
      ReplaceAllLeading(t, [], r);
      assert t + [] == t;
    }
  }

  /** Replacing one character by one character is a pointwise substitution. */
  lemma ReplaceOneCharPointwise(s: string, c: char, d: char)
    ensures var out := ReplaceAll(s, [c], [d]);
      |out| == |s| && forall i :: 0 <= i < |s| ==> out[i] == if s[i] == c then d else s[i]
  {
    ReplaceCharAgrees(s, c, [d]);
    ReplaceCharPointwise(s, c, d);
  }

  /** Replacing a target by itself returns the receiver unchanged, for the
      empty target too. */
  lemma {:induction false} ReplaceAllSelf(s: string, t: string)
    ensures ReplaceAll(s, t, t) == s
    decreases |s|
  {
    if s != [] && (t == [] || |s| >= |t|) {
      if t != [] && s[..|t|] == t {
        ReplaceAllSelf(s[|t|..], t);
        assert s == s[..|t|] + s[|t|..];
      } else {
        ReplaceAllSelf(s[1..], t);
        assert s == [s[0]] + s[1..];
      }
    }
  }

  /** Replacing the character `c` by `r`, read one character at a time. */
  function ReplaceChar(s: string, c: char, r: string): string
    decreases |s|
  {
    if s == [] then [] else (if s[0] == c then r else [s[0]]) + ReplaceChar(s[1..], c, r)
  }

  /** Read one character at a time, replacing one character by one
      character keeps the length and substitutes position by position. */
  lemma {:induction false} ReplaceCharPointwise(s: string, c: char, d: char)
    ensures var out := ReplaceChar(s, c, [d]);
      |out| == |s| && forall i :: 0 <= i < |s| ==> out[i] == if s[i] == c then d else s[i]
    decreases |s|
  {
    if s != [] {
      ReplaceCharPointwise(s[1..], c, d);
      var head := if s[0] == c then [d] else [s[0]];
      assert ReplaceChar(s, c, [d]) == head + ReplaceChar(s[1..], c, [d]);
    }
  }

  /** `replace` with a one-character target is the character-at-a-time reading. */
  lemma {:induction false} ReplaceCharAgrees(s: string, c: char, r: string)
    ensures ReplaceAll(s, [c], r) == ReplaceChar(s, c, r)
    decreases |s|
  {
    if s != [] {
      ReplaceCharAgrees(s[1..], c, r);
      assert s[..|[c]|] == [s[0]];
      assert s[|[c]|..] == s[1..];
    }
  }

  /** The character-at-a-time reading distributes over concatenation. */
  lemma {:induction false} ReplaceCharSplits(a: string, b: string, c: char, r: string)
    ensures ReplaceChar(a + b, c, r) == ReplaceChar(a, c, r) + ReplaceChar(b, c, r)
    decreases |a|
  {
    if a == [] {
      assert a + b == b;
    } else {
      var head := if a[0] == c then r else [a[0]];
      var rest := ReplaceChar(a[1..], c, r);
      var tail := ReplaceChar(b, c, r);
      assert ReplaceChar(a + b, c, r) == head + ReplaceChar(a[1..] + b, c, r) by {
        assert (a + b)[0] == a[0] && (a + b)[1..] == a[1..] + b;
      }
      ReplaceCharSplits(a[1..], b, c, r);
      assert ReplaceChar(a, c, r) == head + rest;
      assert head + (rest + tail) == (head + rest) + tail;
    }
  }

  /** Replacing a single character distributes over concatenation. */
  lemma ReplaceCharConcat(a: string, b: string, c: char, r: string)
    ensures ReplaceAll(a + b, [c], r) == ReplaceAll(a, [c], r) + ReplaceAll(b, [c], r)
  {
    ReplaceCharAgrees(a + b, c, r);
    ReplaceCharAgrees(a, c, r);
    ReplaceCharAgrees(b, c, r);
    ReplaceCharSplits(a, b, c, r);
  }

  /** After replacing the character `c` by a string free of `c`, no `c` is left. */
  lemma {:induction false} ReplaceCharRemoves(s: string, c: char, r: string)
    requires c !in r
    ensures c !in ReplaceAll(s, [c], r)
    decreases |s|
  {
    if s != [] {
      ReplaceCharRemoves(s[1..], c, r);
      assert s[..1] == [s[0]];
      assert s[|[c]|..] == s[1..];
    }
  }

  /** Splits `s` at the first `c` (Java: `i = s.indexOf(c)`, then `s.substring(0, i)`
      and `s.substring(i + 1)`); `None` when `s` holds no `c` (`indexOf` returns -1). */
  function Cut(s: string, c: char): (r: Option<(string, string)>)
    ensures r.Some? ==> s == r.value.0 + [c] + r.value.1 && c !in r.value.0
    ensures r.None? <==> c !in s
    decreases |s|
  {
    if s == [] then None
    else if s[0] == c then Some(([], s[1..]))
    else
      match Cut(s[1..], c)
      case None => None
      case Some((before, after)) => Some(([s[0]] + before, after))
  }

  /** The first `c` of `a + [c] + b` is the one after `a` when `a` holds none. */
  lemma {:induction false} CutAtFirst(a: string, b: string, c: char)
    requires c !in a
    ensures Cut(a + [c] + b, c) == Some((a, b))
    decreases |a|
  {
    if a == [] {
      assert a + [c] + b == [c] + b;
    } else {
      CutAtFirst(a[1..], b, c);
      assert (a + [c] + b)[1..] == a[1..] + [c] + b;
      assert [a[0]] + a[1..] == a;
    }
  }
}
