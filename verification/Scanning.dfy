/**
 Pointer-advancing scans over C strings. A C string is the sequence of its characters
 before the terminator; a cursor at the end of the sequence reads the terminator.
 */
module Scanning {

  /** The length of the longest prefix whose characters all satisfy f. */
  function Span(s: string, f: char -> bool): (n: nat)
    ensures n <= |s|
    ensures forall i :: 0 <= i < n ==> f(s[i])
    ensures n < |s| ==> !f(s[n])
  {
    if |s| > 0 && f(s[0]) then 1 + Span(s[1..], f) else 0
  }

  lemma {:induction false} SpanIs(s: string, f: char -> bool, n: nat)
    requires n <= |s| && (forall i :: 0 <= i < n ==> f(s[i])) && (n < |s| ==> !f(s[n]))
    ensures Span(s, f) == n
  {
    if n > 0 {
      SpanIs(s[1..], f, n - 1);
    }
  }

  /** `s` without its longest prefix of characters that satisfy f. */
  function Drop(s: string, f: char -> bool): (r: string)
    ensures |r| <= |s|
  {
    s[Span(s, f)..]
  }

  /** The loop `while (f(*p)) ++p`. */
  method SkipWhile(s: string, start: nat, f: char -> bool) returns (p: nat)
    requires start <= |s|
    ensures start <= p <= |s| && p == start + Span(s[start..], f)
    ensures s[p..] == Drop(s[start..], f) && s[start..p] == s[start..][..Span(s[start..], f)]
    ensures forall i :: start <= i < p ==> f(s[i])
    ensures p < |s| ==> !f(s[p])
  {
    p := start;
    while p < |s| && f(s[p])
      invariant start <= p <= |s|
      invariant forall i :: start <= i < p ==> f(s[i])
    {
      p := p + 1;
    }
    SpanIs(s[start..], f, p - start);
    assert s[start..][p - start..] == s[p..] && s[start..][..p - start] == s[start..p];
  }

  /** The position of the first occurrence of c, or the length. */
  function Until(s: string, c: char): (n: nat)
    ensures n <= |s| && (n < |s| ==> s[n] == c)
    ensures forall i :: 0 <= i < n ==> s[i] != c
  {
    if |s| == 0 || s[0] == c then 0 else 1 + Until(s[1..], c)
  }

  lemma UntilIs(s: string, c: char, n: nat)
    requires n <= |s| && (n < |s| ==> s[n] == c)
    requires forall i :: 0 <= i < n ==> s[i] != c
    ensures Until(s, c) == n
  {
    var m := Until(s, c);
    assert m < |s| ==> s[m] == c;
  }

  /** Text followed by its first delimiter. */
  lemma UntilDelimiter(a: string, c: char, rest: string)
    requires forall i :: 0 <= i < |a| ==> a[i] != c
    ensures var s := a + [c] + rest; Until(s, c) == |a| && s[..|a|] == a && s[|a| + 1..] == rest
  {
    var s := a + [c] + rest;
    assert s[|a|] == c;
    assert forall i :: 0 <= i < |a| ==> s[i] == a[i];
    UntilIs(s, c, |a|);
  }

  /** strchr: the first occurrence at or after start, or the end. */
  method FindChar(s: string, start: nat, c: char) returns (p: nat)
    requires start <= |s|
    ensures start <= p <= |s| && p == start + Until(s[start..], c)
    ensures s[start..p] == s[start..][..Until(s[start..], c)]
    ensures p < |s| ==> s[p] == c && s[p + 1..] == s[start..][Until(s[start..], c) + 1..]
  {
    p := start;
    while p < |s| && s[p] != c
      invariant start <= p <= |s|
      invariant forall i :: start <= i < p ==> s[i] != c
    {
      p := p + 1;
    }
    assert s[start..][..p - start] == s[start..p];
    UntilIs(s[start..], c, p - start);
    if p < |s| { assert s[start..][p - start + 1..] == s[p + 1..]; }
  }

  lemma CutAt(s: string, n: nat)
    requires n < |s|
    ensures s == s[..n] + ([s[n]] + s[n + 1..])
  {
  }

  lemma SliceOfSlice(s: string, a: nat, b: nat, i: nat)
    requires a <= b <= |s| && a + i <= b
    ensures s[a..b][..i] == s[a..a + i] && s[a..b][i..] == s[a + i..b]
  {
  }

  lemma Regroup(a: string, b: string, c: string, d: string)
    ensures a + b + c + d == a + (b + (c + d))
  {
    assert b + c + d == b + (c + d);
    assert a + b + c + d == a + (b + c + d);
  }

  // ---------------------------------------------------------------- quoted text

  /** The distance to the first bare quote, or to the end; a backslash shields the next character. */
  function QuotedSpan(s: string): (n: nat)
    ensures n <= |s|
    ensures n < |s| ==> s[n] == '"'
  {
    if |s| == 0 || s[0] == '"' then 0
    else if s[0] == '\\' && |s| > 1 then 2 + QuotedSpan(s[2..])
    else 1 + QuotedSpan(s[1..])
  }

  /** Text without a bare quote that does not end in the middle of an escape. */
  predicate SelfDelimiting(t: string) {
    if |t| == 0 then true
    else if t[0] == '\\' then |t| > 1 && SelfDelimiting(t[2..])
    else t[0] != '"' && SelfDelimiting(t[1..])
  }

  /** Self-delimiting text is exactly what a scan reads up to a closing quote. */
  lemma {:induction false} ScanText(t: string, rest: string)
    ensures QuotedSpan(t + "\"" + rest) == |t| <==> SelfDelimiting(t)
    decreases |t|
  {
    var s := t + "\"" + rest;
    if |t| == 0 {
    } else if t[0] == '\\' {
      if |t| > 1 {
        assert s[2..] == t[2..] + "\"" + rest;
        ScanText(t[2..], rest);
      } else {
        assert s[1] == '"';
      }
    } else if t[0] != '"' {
      assert s[1..] == t[1..] + "\"" + rest;
      ScanText(t[1..], rest);
    }
  }

  /** What a scan has read up to a closing quote is self-delimiting. */
  lemma {:induction false} ScannedIsSelfDelimiting(s: string)
    requires QuotedSpan(s) < |s|
    ensures SelfDelimiting(s[..QuotedSpan(s)])
    decreases |s|
  {
    var n := QuotedSpan(s);
    assert s == s[..n] + "\"" + s[n + 1..];
    ScanText(s[..n], s[n + 1..]);
  }

  lemma QuotedSpanEnd(s: string, p: nat)
    requires p <= |s| && (p < |s| ==> s[p] == '"')
    ensures QuotedSpan(s[p..]) == 0
  {
  }

  lemma QuotedSpanStep(s: string, p: nat)
    requires p < |s| && s[p] != '"'
    ensures QuotedSpan(s[p..]) == if s[p] == '\\' && p + 1 < |s| then 2 + QuotedSpan(s[p + 2..])
                                  else 1 + QuotedSpan(s[p + 1..])
  {
    if s[p] == '\\' && p + 1 < |s| {
      assert s[p..][2..] == s[p + 2..];
    } else {
      assert s[p..][1..] == s[p + 1..];
    }
  }

  /** The loop over the inside of a quoted string. */
  method SkipQuoted(s: string, start: nat) returns (p: nat)
    requires start <= |s|
    ensures start <= p <= |s| && p == start + QuotedSpan(s[start..])
    ensures s[start..p] == s[start..][..QuotedSpan(s[start..])]
    ensures p < |s| ==> s[p] == '"' && s[p + 1..] == s[start..][QuotedSpan(s[start..]) + 1..]
  {
    hide QuotedSpan;
    p := start;
    while p < |s| && s[p] != '"'
      invariant start <= p <= |s|
      invariant QuotedSpan(s[start..]) == p - start + QuotedSpan(s[p..])
      decreases |s| - p
    {
      QuotedSpanStep(s, p);
      if s[p] == '\\' && p + 1 < |s| {
        p := p + 2;
      } else {
        p := p + 1;
      }
    }
    assert QuotedSpan(s[p..]) == 0 by { QuotedSpanEnd(s, p); }
    assert s[start..][..p - start] == s[start..p];
    if p < |s| { assert s[start..][p - start + 1..] == s[p + 1..]; }
  }
}
