/** The JavaScript string operations the scraper relies on, over `seq<char>`:
    `includes`, `trim`, `split` on a one-character separator and `join`. */
module Text {
  import opened Common

  /** `s.includes(sub)`: `sub` occurs somewhere in `s` (the empty string occurs everywhere). */
  predicate Contains(s: string, sub: string)
    decreases |s|
  {
    sub <= s || (|s| > 0 && Contains(s[1..], sub))
  }

  /** A string always contains each of its infixes. */
  lemma {:induction false} ContainsInfix(a: string, sub: string, b: string)
    ensures Contains(a + sub + b, sub)
  {
    if |a| > 0 {
      ContainsInfix(a[1..], sub, b);
      assert (a + sub + b)[1..] == a[1..] + sub + b;
    } else {
      assert a + sub + b == sub + b;
    }
  }

  /** `sub` occurs in `s` starting at position `k`. */
  predicate OccursAt(s: string, sub: string, k: int) {
    0 <= k <= |s| - |sub| && s[k..k + |sub|] == sub
  }

  /** `includes` holds exactly when `sub` occurs at some position of `s`. */
  lemma {:induction false} ContainsAt(s: string, sub: string)
    ensures Contains(s, sub) <==> exists k :: OccursAt(s, sub, k)
    decreases |s|
  {
    if Contains(s, sub) {
      if sub <= s {
        assert OccursAt(s, sub, 0);
      } else {
        ContainsAt(s[1..], sub);
        var k :| OccursAt(s[1..], sub, k);
        SliceOfTail(s, k, |sub|);
        assert OccursAt(s, sub, k + 1);
      }
    }
    if exists k :: OccursAt(s, sub, k) {
      var k :| OccursAt(s, sub, k);
      if k == 0 {
        assert sub <= s;
      } else {
        SliceOfTail(s, k - 1, |sub|);
        assert OccursAt(s[1..], sub, k - 1);
        ContainsAt(s[1..], sub);
      }
    }
  }

  /** A slice of the tail is the slice one position further on. */
  lemma SliceOfTail(s: string, k: nat, n: nat)
    requires k + n < |s|
    ensures s[1..][k..k + n] == s[k + 1..k + 1 + n]
  {
    var t := s[1..][k..k + n];
    assert forall i :: 0 <= i < n ==> t[i] == s[k + 1 + i];
  }

  /** The characters `String.prototype.trim` removes: ECMAScript WhiteSpace
      (tab, vertical tab, form feed, no-break space, byte-order mark and the
      Unicode space separators) and LineTerminator (LF, CR, LS, PS). */
  predicate IsSpace(c: char) {
    var n := c as int;
    n == 0x09 || n == 0x0A || n == 0x0B || n == 0x0C || n == 0x0D || n == 0x20
    || n == 0xA0 || n == 0x1680 || (0x2000 <= n <= 0x200A) || n == 0x2028
    || n == 0x2029 || n == 0x202F || n == 0x205F || n == 0x3000 || n == 0xFEFF
  }

  predicate AllSpace(s: string) {
    forall k :: 0 <= k < |s| ==> IsSpace(s[k])
  }

  /** The number of white-space characters `s` starts with. */
  function LeadingSpace(s: string): (n: nat)
    ensures n <= |s|
  {
    if |s| > 0 && IsSpace(s[0]) then 1 + LeadingSpace(s[1..]) else 0
  }

  /** The number of white-space characters `s` ends with. */
  function TrailingSpace(s: string): (n: nat)
    ensures n <= |s|
  {
    if |s| > 0 && IsSpace(s[|s| - 1]) then 1 + TrailingSpace(s[..|s| - 1]) else 0
  }

  /** The leading run is all white space and is followed by a non-space
      character or by the end of the string. */
  lemma {:induction false} LeadingSpaceRun(s: string)
    ensures AllSpace(s[..LeadingSpace(s)])
    ensures LeadingSpace(s) < |s| ==> !IsSpace(s[LeadingSpace(s)])
  {
    if |s| > 0 && IsSpace(s[0]) {
      LeadingSpaceRun(s[1..]);
      var n := LeadingSpace(s[1..]);
      assert s[..n + 1] == [s[0]] + s[1..][..n];
      assert s[n + 1..] == s[1..][n..];
    }
  }

  /** The trailing run is all white space and is preceded by a non-space
      character or by the start of the string. */
  lemma {:induction false} TrailingSpaceRun(s: string)
    ensures AllSpace(s[|s| - TrailingSpace(s)..])
    ensures TrailingSpace(s) < |s| ==> !IsSpace(s[|s| - TrailingSpace(s) - 1])
  {
    if |s| > 0 && IsSpace(s[|s| - 1]) {
      var s' := s[..|s| - 1];
      TrailingSpaceRun(s');
      var n := TrailingSpace(s');
      assert s[|s| - (n + 1)..] == s'[|s'| - n..] + [s[|s| - 1]];
      assert n < |s'| ==> s[|s| - (n + 1) - 1] == s'[|s'| - n - 1];
    }
  }

  /** Drops the leading white space. */
  function TrimStart(s: string): string {
    s[LeadingSpace(s)..]
  }

  /** Drops the trailing white space. */
  function TrimEnd(s: string): string {
    s[..|s| - TrailingSpace(s)]
  }

  /** `s.trim()`. */
  function Trim(s: string): string {
    TrimEnd(TrimStart(s))
  }

  /** The trimmed text is the infix of `s` that starts after its leading
      white space. */
  lemma TrimIsInfix(s: string)
    ensures LeadingSpace(s) + |Trim(s)| <= |s|
    ensures Trim(s) == s[LeadingSpace(s)..LeadingSpace(s) + |Trim(s)|]
  {
    var lead := LeadingSpace(s);
    var t := s[lead..];
    assert Trim(s) == t[..|t| - TrailingSpace(t)];
  }

  /** What trimming removes on either side is all white space. */
  lemma TrimRemovesSpace(s: string)
    ensures LeadingSpace(s) + |Trim(s)| <= |s|
    ensures AllSpace(s[..LeadingSpace(s)])
    ensures AllSpace(s[LeadingSpace(s) + |Trim(s)|..])
  {
    var lead := LeadingSpace(s);
    var t := s[lead..];
    var r := t[..|t| - TrailingSpace(t)];
    assert Trim(s) == r;
    LeadingSpaceRun(s);
    TrailingSpaceRun(t);
    assert t[|r|..] == s[lead + |r|..];
  }

  /** The trimmed text neither starts nor ends with white space. */
  lemma TrimEndsNonSpace(s: string)
    ensures Trim(s) == [] || (!IsSpace(Trim(s)[0]) && !IsSpace(Trim(s)[|Trim(s)| - 1]))
  {
    var lead := LeadingSpace(s);
    var t := s[lead..];
    var r := t[..|t| - TrailingSpace(t)];
    assert Trim(s) == r;
    if r != [] {
      LeadingSpaceRun(s);
      TrailingSpaceRun(t);
      assert r[0] == s[lead];
      assert r[|r| - 1] == t[|t| - TrailingSpace(t) - 1];
    }
  }

  /** White space followed by a string that does not start with white space
      has exactly that white space as its leading run. */
  lemma {:induction false} LeadingSpaceOf(a: string, u: string)
    requires AllSpace(a)
    requires u == [] || !IsSpace(u[0])
    ensures LeadingSpace(a + u) == |a|
  {
    if |a| > 0 {
      assert (a + u)[0] == a[0];
      assert (a + u)[1..] == a[1..] + u;
      LeadingSpaceOf(a[1..], u);
    } else {
      assert a + u == u;
    }
  }

  /** A string that does not end with white space followed by white space has
      exactly that white space as its trailing run. */
  lemma {:induction false} TrailingSpaceOf(u: string, b: string)
    requires AllSpace(b)
    requires u == [] || !IsSpace(u[|u| - 1])
    ensures TrailingSpace(u + b) == |b|
  {
    if |b| > 0 {
      assert (u + b)[|u + b| - 1] == b[|b| - 1];
      assert (u + b)[..|u + b| - 1] == u + b[..|b| - 1];
      TrailingSpaceOf(u, b[..|b| - 1]);
    } else {
      assert u + b == u;
    }
  }

  /** Conversely: padding a string that has no white space at its ends with
      white space on either side trims back to it. */
  lemma TrimPadded(a: string, t: string, b: string)
    requires AllSpace(a) && AllSpace(b)
    requires t == [] || (!IsSpace(t[0]) && !IsSpace(t[|t| - 1]))
    ensures Trim(a + t + b) == t
  {
    if t == [] {
      assert a + t + b == (a + b) + [];
      LeadingSpaceOf(a + b, []);
    } else {
      assert a + t + b == a + (t + b);
      LeadingSpaceOf(a, t + b);
      assert TrimStart(a + t + b) == t + b;
      TrailingSpaceOf(t, b);
    }
  }

  /** `s.split(c)` for a one-character separator: the pieces between
      separators, empty pieces included; the empty string splits into `[""]`. */
  function Split(s: string, c: char): (r: seq<string>)
    ensures |r| >= 1
    ensures forall k :: 0 <= k < |r| ==> c !in r[k]
  {
    if |s| == 0 then [""]
    else
      var rest := Split(s[1..], c);
      if s[0] == c then [""] + rest
      else [[s[0]] + rest[0]] + rest[1..]
  }

  /** `parts.join(c)`. */
  function Join(parts: seq<string>, c: char): string {
    if |parts| == 0 then ""
    else if |parts| == 1 then parts[0]
    else parts[0] + [c] + Join(parts[1..], c)
  }

  /** Joining the pieces of a split gives back the string. */
  lemma {:induction false} JoinSplit(s: string, c: char)
    ensures Join(Split(s, c), c) == s
  {
    if |s| > 0 {
      var rest := Split(s[1..], c);
      JoinSplit(s[1..], c);
      if s[0] != c && |rest| > 1 {
        assert rest == [rest[0]] + rest[1..];
        assert Join(rest, c) == rest[0] + [c] + Join(rest[1..], c);
      }
    }
  }

  /** A prefix free of the separator becomes the first piece. */
  lemma {:induction false} SplitPrefix(p: string, c: char, t: string)
    requires c !in p
    ensures Split(p + [c] + t, c) == [p] + Split(t, c)
  {
    if |p| > 0 {
      assert (p + [c] + t)[1..] == p[1..] + [c] + t;
      assert p[0] != c && (p + [c] + t)[0] == p[0];
      SplitPrefix(p[1..], c, t);
      assert [p[0]] + p[1..] == p;
    } else {
      assert p + [c] + t == [c] + t;
    }
  }

  /** A string free of the separator is a single piece. */
  lemma {:induction false} SplitWhole(p: string, c: char)
    requires c !in p
    ensures Split(p, c) == [p]
  {
    if |p| > 0 {
      assert p[0] != c;
      SplitWhole(p[1..], c);
      assert [p[0]] + p[1..] == p;
    }
  }

  /** Splitting a join of separator-free pieces gives back the pieces. */
  lemma {:induction false} SplitJoin(parts: seq<string>, c: char)
    requires |parts| >= 1
    requires forall k :: 0 <= k < |parts| ==> c !in parts[k]
    ensures Split(Join(parts, c), c) == parts
  {
    if |parts| == 1 {
      SplitWhole(parts[0], c);
    } else {
      SplitJoin(parts[1..], c);
      SplitPrefix(parts[0], c, Join(parts[1..], c));
    }
  }

  /** `s.split(' ').slice(1).join(' ')`: everything after the first space,
      or the empty string when `s` has no space. */
  function DropFirstToken(s: string): (r: string)
    ensures ' ' !in s ==> r == ""
    ensures ' ' in s ==>
      && |r| < |s|
      && r == s[|s| - |r|..]
      && s[|s| - |r| - 1] == ' '
      && ' ' !in s[..|s| - |r| - 1]
  {
    var parts := Split(s, ' ');
    var r := Join(parts[1..], ' ');
    match FirstIndex(s, ch => ch == ' ')
    case None =>
      SplitWhole(s, ' ');
      r
    case Some(i) =>
      assert s == s[..i] + [' '] + s[i + 1..];
      SplitPrefix(s[..i], ' ', s[i + 1..]);
      JoinSplit(s[i + 1..], ' ');
      r
  }
}
