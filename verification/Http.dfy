/** The text routines of src/wrapper/http.c: the quote stripper and the cookie scanner. */
module Http {
  import opened Wrappers
  import opened Scanning
  import opened Header

  // ---------------------------------------------------------------- strip_quotes

  function StripQuotes(s: string): string {
    if |s| >= 2 && s[0] == '"' && s[|s| - 1] == '"' then s[1..|s| - 1] else s
  }

  method StripQuotesCopy(s: string, allocOk: bool) returns (out: array?<char>)
    ensures out == null <==> !allocOk
    ensures out != null ==> fresh(out) && Holds(out, StripQuotes(s))
  {
    if !allocOk {
      return null;
    }
    var len := |s|;
    if len >= 2 && s[0] == '"' && s[len - 1] == '"' {
      out := new char[len - 1];
      forall i | 0 <= i < len - 2 { out[i] := s[i + 1]; }
      out[len - 2] := '\0';
    } else {
      out := new char[len + 1];
      forall i | 0 <= i < len { out[i] := s[i]; }
      out[len] := '\0';
    }
  }

  /** On a value the header parser accepts, the two agree exactly when it has no outer whitespace. */
  lemma StripAgrees(v: string, t: string)
    requires Unquote(v) == Some(t)
    ensures StripQuotes(v) == t <==> v[0] == '"' == v[|v| - 1]
  {
    UnquoteIff(v, t);
    var a, b :| v == a + Quoted(t) + b && AllSpace(a) && AllSpace(b) && SelfDelimiting(t);
    assert v[0] == if |a| > 0 then a[0] else '"';
    assert v[|v| - 1] == if |b| > 0 then b[|b| - 1] else '"';
    if v[0] == '"' == v[|v| - 1] {
      assert a == "" && b == "";
      assert v == Quoted(t);
    }
  }

  // ---------------------------------------------------------------- get_cookie

  /** The pieces between occurrences of a character. */
  function SplitOn(s: string, c: char): (r: seq<string>)
    ensures |r| > 0
    decreases |s|
  {
    var n := Until(s, c);
    if n == |s| then [s] else [s[..n]] + SplitOn(s[n + 1..], c)
  }

  predicate IsBlank(c: char) {
    c == ' ' || c == '\t'
  }

  /** The value of the first segment named `name`; a segment without '=' ends the search. */
  function Lookup(segments: seq<string>, name: string): Option<string> {
    if |segments| == 0 then None
    else
      var seg := Drop(segments[0], IsBlank);
      var n := Until(seg, '=');
      if n == |seg| then None
      else if seg[..n] == name then Some(seg[n + 1..])
      else Lookup(segments[1..], name)
  }

  /** The segment that starts at a cursor, and the cursor after it. */
  lemma SegmentAt(s: string, p: nat, stop: nat)
    requires p <= stop <= |s| && (forall i :: p <= i < stop ==> s[i] != ';') && (stop < |s| ==> s[stop] == ';')
    ensures SplitOn(s[p..], ';') == [s[p..stop]] + (if stop == |s| then [] else SplitOn(s[stop + 1..], ';'))
  {
    assert s[p..][..stop - p] == s[p..stop];
    UntilIs(s[p..], ';', stop - p);
    if stop < |s| {
      assert s[p..][stop - p + 1..] == s[stop + 1..];
    } else {
      assert s[p..] == s[p..stop];
    }
  }

  /** The loop over a cookie name. */
  method SkipKey(s: string, start: nat) returns (p: nat)
    requires start <= |s|
    ensures start <= p <= |s| && (p < |s| ==> s[p] == '=' || s[p] == ';')
    ensures forall i :: start <= i < p ==> s[i] != '=' && s[i] != ';'
  {
    p := start;
    while p < |s| && s[p] != '=' && s[p] != ';'
      invariant start <= p <= |s|
      invariant forall i :: start <= i < p ==> s[i] != '=' && s[i] != ';'
    {
      p := p + 1;
    }
  }

  /** The loop over a cookie value. */
  method SkipValue(s: string, start: nat) returns (p: nat)
    requires start <= |s|
    ensures start <= p <= |s| && (p < |s| ==> s[p] == ';')
    ensures forall i :: start <= i < p ==> s[i] != ';'
  {
    p := start;
    while p < |s| && s[p] != ';'
      invariant start <= p <= |s|
      invariant forall i :: start <= i < p ==> s[i] != ';'
    {
      p := p + 1;
    }
  }

  /** One turn of the outer loop: either the search ends here, or it goes on at `next`. */
  method ReadSegment(s: string, from: nat, name: string) returns (done: bool, found: Option<string>, next: nat)
    requires from < |s|
    ensures done ==> found == Lookup(SplitOn(s[from..], ';'), name)
    ensures !done ==> from < next <= |s| && Lookup(SplitOn(s[from..], ';'), name) == Lookup(SplitOn(s[next..], ';'), name)
  {
    hide SplitOn, Lookup, Span, Drop;
    next := |s|;
    var start := SkipWhile(s, from, IsBlank);
    if start >= |s| {
      BlankSegment(s, from, name);
      return true, None, next;
    }
    var keyEnd := SkipKey(s, start);
    if keyEnd >= |s| || s[keyEnd] != '=' {
      NoEquals(s, from, start, keyEnd, name);
      return true, None, next;
    }
    var stop := SkipValue(s, keyEnd + 1);
    KeyValue(s, from, start, keyEnd, stop, name);
    if s[start..keyEnd] == name {
      return true, Some(s[keyEnd + 1..stop]), next;
    }
    if stop < |s| {
      next := stop + 1;
    } else {
      BlankSegment(s, |s|, name);
    }
    done, found := false, None;
  }

  /**
   The cursor loops of opendbsc_http_get_cookie compute the lookup on the ';'-separated
   segments.
   */
  method GetCookie(cookie: Option<string>, name: Option<string>, allocOk: bool) returns (r: Option<string>)
    ensures r == if cookie.None? || name.None? || !allocOk then None
                 else Lookup(SplitOn(cookie.value, ';'), name.value)
  {
    hide SplitOn, Lookup;
    if cookie.None? || name.None? {
      return None;
    }
    var s := cookie.value;
    var p := 0;
    assert s[0..] == s;
    while p < |s|
      invariant 0 <= p <= |s|
      invariant Lookup(SplitOn(s, ';'), name.value) == Lookup(SplitOn(s[p..], ';'), name.value)
      decreases |s| - p
    {
      var done, found, next := ReadSegment(s, p, name.value);
      if done {
        return if allocOk then found else None;
      }
      p := next;
    }
    BlankSegment(s, p, name.value);
    r := None;
  }

  /** Nothing but blanks is left. */
  lemma BlankSegment(s: string, p: nat, name: string)
    requires p <= |s| && forall i :: p <= i < |s| ==> IsBlank(s[i])
    ensures Lookup(SplitOn(s[p..], ';'), name) == None
  {
    SegmentAt(s, p, |s|);
    SpanIs(s[p..], IsBlank, |s| - p);
    assert Drop(s[p..], IsBlank) == "";
  }

  /** The segment at `from`, without its leading blanks. */
  lemma Trimmed(s: string, from: nat, start: nat, stop: nat)
    requires from <= start <= stop <= |s| && (forall i :: from <= i < start ==> IsBlank(s[i]))
    requires start < stop ==> !IsBlank(s[start])
    ensures Drop(s[from..stop], IsBlank) == s[start..stop]
  {
    SpanIs(s[from..stop], IsBlank, start - from);
    assert s[from..stop][start - from..] == s[start..stop];
  }

  /** A segment without an equals sign. */
  lemma NoEquals(s: string, from: nat, start: nat, stop: nat, name: string)
    requires from <= start <= stop <= |s| && start < |s|
    requires (forall i :: from <= i < start ==> IsBlank(s[i])) && !IsBlank(s[start])
    requires (forall i :: start <= i < stop ==> s[i] != '=' && s[i] != ';') && (stop < |s| ==> s[stop] == ';')
    ensures Lookup(SplitOn(s[from..], ';'), name) == None
  {
    SegmentAt(s, from, stop);
    Trimmed(s, from, start, stop);
    UntilIs(s[start..stop], '=', stop - start);
  }

  /** A segment with an equals sign at `eq`. */
  lemma KeyValue(s: string, from: nat, start: nat, eq: nat, stop: nat, name: string)
    requires from <= start <= eq < stop <= |s|
    requires (forall i :: from <= i < start ==> IsBlank(s[i])) && !IsBlank(s[start])
    requires (forall i :: start <= i < eq ==> s[i] != '=' && s[i] != ';') && s[eq] == '='
    requires (forall i :: eq < i < stop ==> s[i] != ';') && (stop < |s| ==> s[stop] == ';')
    ensures s[start..eq] == name ==> Lookup(SplitOn(s[from..], ';'), name) == Some(s[eq + 1..stop])
    ensures s[start..eq] != name ==>
              Lookup(SplitOn(s[from..], ';'), name) ==
              (if stop == |s| then None else Lookup(SplitOn(s[stop + 1..], ';'), name))
  {
    hide Until, Drop, SplitOn, Lookup;
    SegmentAt(s, from, stop);
    SegmentParts(s, from, start, eq, stop);
    LookupFirst(s[from..stop], if stop == |s| then [] else SplitOn(s[stop + 1..], ';'), eq - start, name);
    LookupNone(name);
  }

  /** Name and value inside one segment. */
  lemma SegmentParts(s: string, from: nat, start: nat, eq: nat, stop: nat)
    requires from <= start <= eq < stop <= |s|
    requires (forall i :: from <= i < start ==> IsBlank(s[i])) && !IsBlank(s[start])
    requires (forall i :: start <= i < eq ==> s[i] != '=') && s[eq] == '='
    ensures var seg := Drop(s[from..stop], IsBlank);
            Until(seg, '=') == eq - start < |seg| && seg[..eq - start] == s[start..eq]
            && seg[eq - start + 1..] == s[eq + 1..stop]
  {
    Trimmed(s, from, start, stop);
    hide Drop, Until;
    UntilIs(s[start..stop], '=', eq - start);
    SliceOfSlice(s, start, stop, eq - start);
    SliceOfSlice(s, start, stop, eq - start + 1);
  }

  lemma LookupFirst(first: string, rest: seq<string>, n: nat, name: string)
    requires var seg := Drop(first, IsBlank); n < |seg| && Until(seg, '=') == n
    ensures var seg := Drop(first, IsBlank);
            Lookup([first] + rest, name) == if seg[..n] == name then Some(seg[n + 1..]) else Lookup(rest, name)
  {
    hide Until, Drop;
    assert ([first] + rest)[1..] == rest;
  }

  lemma LookupNone(name: string)
    ensures Lookup([], name) == None
  {
  }
}
