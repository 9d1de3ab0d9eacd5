/** The few Python string operations the summarizer relies on: `str.strip()`
    with no argument, `sep.join(parts)`, and the notion of one string occurring
    inside another. Strings are sequences of Unicode scalar values. */
module PyStr {

  /** Python's `str.isspace()` set: the characters `str.strip()` removes. */
  predicate IsSpace(c: char) {
    || ('\t' <= c <= '\r')
    || ('\U{1C}' <= c <= '\U{1F}')
    || c == ' '
    || c == '\U{85}'
    || c == '\U{A0}'
    || c == '\U{1680}'
    || ('\U{2000}' <= c <= '\U{200A}')
    || c == '\U{2028}'
    || c == '\U{2029}'
    || c == '\U{202F}'
    || c == '\U{205F}'
    || c == '\U{3000}'
  }

  predicate AllSpace(s: string) {
    forall k :: 0 <= k < |s| ==> IsSpace(s[k])
  }

  /** A string with nothing left for `strip()` to remove at either end. */
  predicate Trimmed(s: string) {
    s == [] || (!IsSpace(s[0]) && !IsSpace(s[|s| - 1]))
  }

  /** The index of the first non-whitespace character at or after `i`, or
      `|s|` when there is none. */
  function SkipSpace(s: string, i: nat): (n: nat)
    requires i <= |s|
    ensures i <= n <= |s|
    ensures forall k :: i <= k < n ==> IsSpace(s[k])
    ensures n == |s| || !IsSpace(s[n])
    decreases |s| - i
  {
    if i < |s| && IsSpace(s[i]) then SkipSpace(s, i + 1) else i
  }

  /** The index just past the last non-whitespace character before `j`, or
      0 when there is none. */
  function SkipSpaceBack(s: string, j: nat): (n: nat)
    requires j <= |s|
    ensures n <= j
    ensures forall k :: n <= k < j ==> IsSpace(s[k])
    ensures n == 0 || !IsSpace(s[n - 1])
    decreases j
  {
    if j > 0 && IsSpace(s[j - 1]) then SkipSpaceBack(s, j - 1) else j
  }

  /** `s.lstrip()` */
  function StripStart(s: string): (r: string)
    ensures |r| <= |s| && r == s[|s| - |r|..]
    ensures AllSpace(s[..|s| - |r|])
    ensures r == [] || !IsSpace(r[0])
  {
    s[SkipSpace(s, 0)..]
  }

  /** `s.rstrip()` */
  function StripEnd(s: string): (r: string)
    ensures |r| <= |s| && r == s[..|r|]
    ensures AllSpace(s[|r|..])
    ensures r == [] || !IsSpace(r[|r| - 1])
  {
    s[..SkipSpaceBack(s, |s|)]
  }

  /** `s.strip()` */
  function Strip(s: string): (r: string)
    ensures |r| <= |s|
    ensures Trimmed(r)
  {
    StripEnd(StripStart(s))
  }

  /** The contract of `SkipSpace` determines its result. */
  lemma SkipSpaceUnique(s: string, i: nat, n: nat)
    requires i <= n <= |s|
    requires forall k :: i <= k < n ==> IsSpace(s[k])
    requires n == |s| || !IsSpace(s[n])
    ensures SkipSpace(s, i) == n
  {
  }

  /** The contract of `SkipSpaceBack` determines its result. */
  lemma SkipSpaceBackUnique(s: string, j: nat, n: nat)
    requires n <= j <= |s|
    requires forall k :: n <= k < j ==> IsSpace(s[k])
    requires n == 0 || !IsSpace(s[n - 1])
    ensures SkipSpaceBack(s, j) == n
  {
  }

  /** `strip()` of a string that is whitespace, then a string that neither
      starts nor ends with whitespace, then whitespace, is the middle part. */
  lemma StripOf(w1: string, r: string, w2: string)
    requires AllSpace(w1) && AllSpace(w2) && Trimmed(r)
    ensures Strip(w1 + r + w2) == r
  {
    if r == [] {
      assert w1 + r + w2 == (w1 + w2) + [];
      AllSpaceConcat(w1, w2);
      StripStartPast(w1 + w2, []);
    } else {
      assert w1 + r + w2 == w1 + (r + w2);
      assert (r + w2)[0] == r[0];
      StripStartPast(w1, r + w2);
      StripEndBefore(r, w2);
    }
  }

  /** `lstrip()` removes a blank prefix up to a non-blank character. */
  lemma StripStartPast(w: string, t: string)
    requires AllSpace(w) && (t == [] || !IsSpace(t[0]))
    ensures StripStart(w + t) == t
  {
    var s := w + t;
    forall k | 0 <= k < |w|
      ensures IsSpace(s[k])
    {
      assert s[k] == w[k];
    }
    if t != [] {
      assert s[|w|] == t[0];
    }
    SkipSpaceUnique(s, 0, |w|);
    assert s[|w|..] == t;
  }

  /** `rstrip()` removes a blank suffix back to a non-blank character. */
  lemma StripEndBefore(r: string, w: string)
    requires AllSpace(w) && (r == [] || !IsSpace(r[|r| - 1]))
    ensures StripEnd(r + w) == r
  {
    var s := r + w;
    forall k | |r| <= k < |s|
      ensures IsSpace(s[k])
    {
      assert s[k] == w[k - |r|];
    }
    if r != [] {
      assert s[|r| - 1] == r[|r| - 1];
    }
    SkipSpaceBackUnique(s, |s|, |r|);
    assert s[..|r|] == r;
  }

  /** `strip()` removes exactly a blank prefix and a blank suffix (the prefix
      being what `lstrip()` removes), and what it keeps neither starts nor
      ends with whitespace. */
  lemma StripSplits(s: string)
    ensures var i := |s| - |StripStart(s)|;
      && i + |Strip(s)| <= |s|
      && s == s[..i] + Strip(s) + s[i + |Strip(s)|..]
      && AllSpace(s[..i]) && AllSpace(s[i + |Strip(s)|..])
    ensures Trimmed(Strip(s))
  {
    var t := StripStart(s);
    var r := StripEnd(t);
    var i := |s| - |t|;
    assert r == Strip(s);
    Recompose(s, t, r);
    assert AllSpace(s[..i]);
    assert AllSpace(t[|r|..]);
    if r != [] {
      assert r[0] == t[0];
    }
  }

  /** A string is its part before a suffix `t`, a prefix `r` of `t`, and the
      rest of `t`. */
  lemma Recompose(s: string, t: string, r: string)
    requires |t| <= |s| && t == s[|s| - |t|..] && |r| <= |t| && r == t[..|r|]
    ensures var i := |s| - |t|;
      s == s[..i] + r + s[i + |r|..] && t[|r|..] == s[i + |r|..]
  {
    var i := |s| - |t|;
    assert s == s[..i] + t;
    assert t == r + t[|r|..];
  }

  /** Leading and trailing whitespace never changes what `strip()` returns. */
  lemma StripIgnoresPadding(w1: string, s: string, w2: string)
    requires AllSpace(w1) && AllSpace(w2)
    ensures Strip(w1 + s + w2) == Strip(s)
  {
    var a, b := StripParts(s);
    var r := Strip(s);
    Regroup(w1, s, w2, a, r, b);
    AllSpaceConcat(w1, a);
    AllSpaceConcat(b, w2);
    StripOf(w1 + a, r, b + w2);
  }

  /** The whitespace `strip()` removes on either side, as two strings. */
  lemma StripParts(s: string) returns (a: string, b: string)
    ensures s == a + Strip(s) + b && AllSpace(a) && AllSpace(b)
  {
    StripSplits(s);
    var i := |s| - |StripStart(s)|;
    a, b := s[..i], s[i + |Strip(s)|..];
  }

  lemma Regroup(w1: string, s: string, w2: string, a: string, r: string, b: string)
    requires s == a + r + b
    ensures w1 + s + w2 == (w1 + a) + r + (b + w2)
  {
  }

  lemma AllSpaceConcat(a: string, b: string)
    requires AllSpace(a) && AllSpace(b)
    ensures AllSpace(a + b)
  {
    forall k | 0 <= k < |a + b|
      ensures IsSpace((a + b)[k])
    {
      if k >= |a| {
        assert (a + b)[k] == b[k - |a|];
      }
    }
  }

  /** `strip()` is idempotent. */
  lemma StripIdempotent(s: string)
    ensures Strip(Strip(s)) == Strip(s)
  {
    StripSplits(s);
    var r := Strip(s);
    assert [] + r + [] == r;
    StripOf([], r, []);
  }

  /** A string that starts and ends with a non-blank character survives as a
      prefix of whatever `strip()` makes of it followed by anything. */
  lemma StripKeepsPrefix(t: string, u: string)
    requires t != [] && !IsSpace(t[0]) && !IsSpace(t[|t| - 1])
    ensures Strip(t + u) == t + StripEnd(u)
  {
    var e := StripEnd(u);
    var w := StripEndPart(u);
    TrimmedThenTrimmedEnd(t, e);
    Reassociate(t, u, e, w);
    StripOf([], t + e, w);
  }

  /** The whitespace `rstrip()` removes, as a string. */
  lemma StripEndPart(u: string) returns (w: string)
    ensures u == StripEnd(u) + w && AllSpace(w)
  {
    w := u[|StripEnd(u)|..];
  }

  lemma Reassociate(t: string, u: string, e: string, w: string)
    requires u == e + w
    ensures t + u == [] + (t + e) + w
  {
  }

  /** A trimmed non-empty string followed by one that does not end in
      whitespace is trimmed. */
  lemma TrimmedThenTrimmedEnd(t: string, e: string)
    requires t != [] && !IsSpace(t[0]) && !IsSpace(t[|t| - 1])
    requires e == [] || !IsSpace(e[|e| - 1])
    ensures Trimmed(t + e)
  {
    var m := t + e;
    assert m[0] == t[0];
    if e == [] {
      assert m == t;
    } else {
      assert m[|m| - 1] == e[|e| - 1];
    }
  }

  /** `p` occurs in `s` starting at index `i`. */
  predicate OccursAt(s: string, p: string, i: nat) {
    i + |p| <= |s| && s[i..i + |p|] == p
  }

  /** `p` is a contiguous part of `s`. */
  ghost predicate IsInfix(p: string, s: string) {
    exists i: nat :: OccursAt(s, p, i)
  }

  lemma InfixTransitive(a: string, b: string, c: string)
    requires IsInfix(a, b) && IsInfix(b, c)
    ensures IsInfix(a, c)
  {
    var i: nat :| OccursAt(b, a, i);
    var j: nat :| OccursAt(c, b, j);
    forall k | 0 <= k < |a|
      ensures c[j + i + k] == a[k]
    {
      assert c[j..j + |b|][i + k] == b[i + k];
      assert b[i..i + |a|][k] == b[i + k];
    }
    assert c[j + i..j + i + |a|] == a;
    assert OccursAt(c, a, j + i);
  }

  /** What `strip()` keeps is a contiguous part of its input. */
  lemma StripIsInfix(s: string)
    ensures IsInfix(Strip(s), s)
  {
    var a, b := StripParts(s);
    InfixOfConcat(a, Strip(s), b);
    assert OccursAt(s, Strip(s), |a|);
  }

  lemma InfixOfConcat(a: string, p: string, b: string)
    ensures OccursAt(a + p + b, p, |a|)
  {
    assert (a + p + b)[|a|..|a| + |p|] == p;
  }

  /** The parts occur in `s` in the given order, without overlapping. */
  ghost predicate OccurInOrder(s: string, parts: seq<string>)
    decreases |parts|
  {
    parts == [] || exists i: nat :: (OccursAt(s, parts[0], i)
      && OccurInOrder(s[i + |parts[0]|..], parts[1..]))
  }

  /** Anything put in front of a string keeps what occurs in it, in order. */
  lemma {:induction false} OccurInOrderPrepend(a: string, s: string, parts: seq<string>)
    requires OccurInOrder(s, parts)
    ensures OccurInOrder(a + s, parts)
  {
    if parts != [] {
      var i: nat :| OccursAt(s, parts[0], i) && OccurInOrder(s[i + |parts[0]|..], parts[1..]);
      assert (a + s)[|a| + i..|a| + i + |parts[0]|] == s[i..i + |parts[0]|];
      assert (a + s)[|a| + i + |parts[0]|..] == s[i + |parts[0]|..];
      assert OccursAt(a + s, parts[0], |a| + i)
        && OccurInOrder((a + s)[|a| + i + |parts[0]|..], parts[1..]);
    }
  }

  /** Ordered occurrences in two strings combine into ordered occurrences in
      their concatenation. */
  lemma {:induction false} OccurInOrderConcat(a: string, ps: seq<string>, b: string, qs: seq<string>)
    requires OccurInOrder(a, ps) && OccurInOrder(b, qs)
    ensures OccurInOrder(a + b, ps + qs)
    decreases |ps|
  {
    if ps == [] {
      OccurInOrderPrepend(a, b, qs);
      assert ps + qs == qs;
    } else {
      var i: nat :| OccursAt(a, ps[0], i) && OccurInOrder(a[i + |ps[0]|..], ps[1..]);
      var rest := a[i + |ps[0]|..];
      OccurInOrderConcat(rest, ps[1..], b, qs);
      assert (a + b)[i..i + |ps[0]|] == a[i..i + |ps[0]|];
      assert (a + b)[i + |ps[0]|..] == rest + b;
      assert (ps + qs)[0] == ps[0] && (ps + qs)[1..] == ps[1..] + qs;
      assert OccursAt(a + b, (ps + qs)[0], i)
        && OccurInOrder((a + b)[i + |(ps + qs)[0]|..], (ps + qs)[1..]);
    }
  }

  /** A string occurs, on its own, in anything that ends with it. */
  lemma OccurInOrderEnd(a: string, p: string)
    ensures OccurInOrder(a + p, [p])
  {
    assert (a + p)[|a|..|a| + |p|] == p;
    assert (a + p)[|a| + |p|..] == [];
    assert OccursAt(a + p, [p][0], |a|) && OccurInOrder((a + p)[|a| + |p|..], [p][1..]);
  }

  /** `sep.join(parts)` */
  function Join(sep: string, parts: seq<string>): (r: string)
    decreases |parts|
  {
    if parts == [] then ""
    else if |parts| == 1 then parts[0]
    else parts[0] + sep + Join(sep, parts[1..])
  }

  function TotalLength(parts: seq<string>): (n: nat)
    decreases |parts|
  {
    if parts == [] then 0 else |parts[0]| + TotalLength(parts[1..])
  }

  /** The joined string is the parts plus one separator between each pair. */
  lemma {:induction false} JoinLength(sep: string, parts: seq<string>)
    requires parts != []
    ensures |Join(sep, parts)| == TotalLength(parts) + (|parts| - 1) * |sep|
  {
    if |parts| > 1 {
      JoinLength(sep, parts[1..]);
    } else {
      assert parts[1..] == [];
    }
  }

  /** The separator is what lies between a part and the parts before it:
      joining one more part appends the separator and that part. */
  lemma {:induction false} JoinAppend(sep: string, parts: seq<string>, p: string)
    requires parts != []
    ensures Join(sep, parts + [p]) == Join(sep, parts) + sep + p
    decreases |parts|
  {
    var longer := parts + [p];
    assert longer[0] == parts[0];
    if |parts| == 1 {
      assert longer[1..] == [p];
    } else {
      assert longer[1..] == parts[1..] + [p];
      JoinAppend(sep, parts[1..], p);
    }
  }

  /** Every part survives the join, in its original order. */
  lemma {:induction false} JoinKeepsParts(sep: string, parts: seq<string>)
    ensures OccurInOrder(Join(sep, parts), parts)
  {
    if parts != [] {
      var j := Join(sep, parts);
      var rest := if |parts| == 1 then "" else sep + Join(sep, parts[1..]);
      assert j == parts[0] + rest;
      assert OccursAt(j, parts[0], 0);
      assert j[|parts[0]|..] == rest;
      if |parts| == 1 {
        assert parts[1..] == [];
        assert OccursAt(j, parts[0], 0) && OccurInOrder(j[|parts[0]|..], parts[1..]);
      } else {
        JoinKeepsParts(sep, parts[1..]);
        OccurInOrderPrepend(sep, Join(sep, parts[1..]), parts[1..]);
      }
    }
  }
}
