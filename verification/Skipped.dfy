/**
 The Secure-Session-Skipped header of src/protocol/header.c: its serializer, its
 parser, and the round trip between them.
 */
module Skipped {
  import opened Wrappers
  import opened Scanning
  import opened Header

  /** An entry to serialize; either field may be null. */
  datatype Entry = Entry(reason: Option<string>, sessionId: Option<string>)

  /** An entry that was parsed; both fields are set. */
  datatype Skip = Skip(reason: string, sessionId: string)

  const SID: string := "session_identifier"

  function OrEmpty(v: Option<string>): string {
    if v.Some? then v.value else ""
  }

  // ---------------------------------------------------------------- serializer

  function EntryText(e: Entry): string {
    OrEmpty(e.reason) + OptParam(SID, e.sessionId)
  }

  function SkippedText(es: seq<Entry>): string {
    if |es| == 0 then ""
    else if |es| == 1 then EntryText(es[0])
    else EntryText(es[0]) + (", " + SkippedText(es[1..]))
  }

  /** What either pass of the serializer has covered before turn i. */
  function Covered(es: seq<Entry>, i: nat): string
    requires i <= |es|
  {
    if i == 0 then "" else Covered(es, i - 1) + EntryText(es[i - 1]) + (if i < |es| then ", " else "")
  }

  lemma {:induction false} CoveredRest(es: seq<Entry>, i: nat)
    requires i < |es|
    ensures Covered(es, i) + SkippedText(es[i..]) == SkippedText(es)
    decreases i
  {
    hide EntryText;
    if i == 0 {
      assert es[0..] == es;
    } else {
      CoveredRest(es, i - 1);
      assert es[i - 1..][1..] == es[i..];
      var e, rest := EntryText(es[i - 1]), SkippedText(es[i..]);
      Regroup(Covered(es, i - 1), e, ", ", rest);
    }
  }

  lemma CoveredAll(es: seq<Entry>)
    ensures Covered(es, |es|) == SkippedText(es)
  {
    if |es| > 0 {
      CoveredRest(es, |es| - 1);
      assert es[|es| - 1..] == [es[|es| - 1]];
    }
  }

  lemma {:induction false} CoveredMonotone(es: seq<Entry>, i: nat)
    requires i <= |es|
    ensures |Covered(es, i)| <= |Covered(es, |es|)|
    decreases |es| - i
  {
    if i < |es| {
      CoveredMonotone(es, i + 1);
    }
  }

  lemma CoveredStep(es: seq<Entry>, i: nat)
    requires i < |es|
    ensures Covered(es, i + 1) == Covered(es, i) + EntryText(es[i]) + (if i + 1 < |es| then ", " else "")
    ensures |Covered(es, i + 1)| <= |Covered(es, |es|)|
  {
    CoveredMonotone(es, i + 1);
  }

  method MeasureSkipped(es: seq<Entry>) returns (n: nat)
    ensures n == |SkippedText(es)|
  {
    n := 0;
    for i := 0 to |es|
      invariant n == |Covered(es, i)|
    {
      n := n + |OrEmpty(es[i].reason)|;
      n := Measure(n, SID, es[i].sessionId);
      if i + 1 < |es| {
        n := n + 2;
      }
    }
    CoveredAll(es);
  }

  /**
   Measures, allocates and writes. The terminator comes from the last sprintf, so it is
   written exactly when there is an entry; with none, the one byte of the buffer keeps
   whatever the allocator left there.
   */
  method SerializeSkipped(es: seq<Entry>, allocOk: bool, garbage: char) returns (out: array?<char>)
    ensures out == null <==> !allocOk
    ensures out != null ==> fresh(out) && out.Length == |SkippedText(es)| + 1
    ensures out != null ==> out[..|SkippedText(es)|] == SkippedText(es)
    ensures out != null ==> out[|SkippedText(es)|] == if |es| == 0 then garbage else '\0'
  {
    var n := MeasureSkipped(es);
    if !allocOk {
      return null;
    }
    out := new char[n + 1](_ => garbage);
    WriteSkipped(es, out);
  }

  /** The writing pass. */
  method WriteSkipped(es: seq<Entry>, out: array<char>)
    requires out.Length == |SkippedText(es)| + 1
    modifies out
    ensures out[..|SkippedText(es)|] == SkippedText(es)
    ensures out[|SkippedText(es)|] == if |es| == 0 then old(out[0]) else '\0'
  {
    CoveredAll(es);
    hide EntryText, SkippedText;
    ghost var n, c := |SkippedText(es)|, out[0];
    var w: nat := 0;
    for i := 0 to |es|
      invariant w <= n && out[..w] == Covered(es, i)
      invariant if i == 0 then w == 0 && out[w] == c else out[w] == '\0'
    {
      CoveredStep(es, i);
      w := EmitEntry(out, w, es[i], i + 1 < |es|);
    }
  }

  /** One turn of the writing loop. */
  method EmitEntry(out: array<char>, w: nat, e: Entry, more: bool) returns (w': nat)
    requires w + |EntryText(e)| + (if more then 2 else 0) < out.Length
    modifies out
    ensures w' == w + |EntryText(e)| + (if more then 2 else 0)
    ensures out[..w'] == old(out[..w]) + EntryText(e) + (if more then ", " else "") && out[w'] == '\0'
  {
    hide OptParam;
    w' := Emit(out, w, OrEmpty(e.reason));
    w' := EmitParam(out, w', SID, e.sessionId);
    assert out[..w'] == old(out[..w]) + EntryText(e);
    if more {
      w' := Emit(out, w', ", ");
    }
  }

  // ---------------------------------------------------------------- parser

  predicate IsSeparator(c: char) {
    IsSpace(c) || c == ','
  }

  predicate Recognised(reason: string) {
    reason == "unreachable" || reason == "server_error" || reason == "quota_exceeded"
  }

  datatype Parsed = Parsed(rest: string, key: string, value: string)

  /** A parameter name up to and including its equals sign: what follows, and the name. */
  function ParseKey(s: string): (r: Option<(string, string)>)
    ensures r.Some? ==> |r.value.0| < |s|
  {
    var atKey := Drop(s, IsSpace);
    var atEquals := Drop(Drop(atKey, IsTokenChar), IsSpace);
    if |atEquals| == 0 || atEquals[0] != '=' then None
    else Some((atEquals[1..], atKey[..Span(atKey, IsTokenChar)]))
  }

  /** A quoted value: what follows the closing quote, and the raw text inside. */
  function ParseValue(s: string): (r: Option<(string, string)>)
    ensures r.Some? ==> |r.value.0| < |s| && SelfDelimiting(r.value.1)
  {
    var atQuote := Drop(s, IsSpace);
    if |atQuote| == 0 || atQuote[0] != '"' then None
    else
      var inside := atQuote[1..];
      var n := QuotedSpan(inside);
      if n == |inside| then None
      else ScannedIsSelfDelimiting(inside); Some((inside[n + 1..], inside[..n]))
  }

  /** One `;key="value"`. */
  function ParseParam(s: string): (r: Option<Parsed>)
    requires |s| > 0
    ensures r.Some? ==> |r.value.rest| < |s| && SelfDelimiting(r.value.value)
  {
    var k := ParseKey(s[1..]);
    if k.None? then None
    else
      var v := ParseValue(k.value.0);
      if v.None? then None else Some(Parsed(v.value.0, k.value.1, v.value.1))
  }

  /** All parameters of one item; the last session_identifier wins. */
  function ParseParams(s: string, sid: Option<string>): (r: Option<(string, Option<string>)>)
    requires sid.Some? ==> SelfDelimiting(sid.value)
    ensures r.Some? ==> |r.value.0| <= |s| && (r.value.1.Some? ==> SelfDelimiting(r.value.1.value))
    decreases |s|
  {
    if |s| == 0 || s[0] != ';' then Some((s, sid))
    else
      var p := ParseParam(s);
      if p.None? then None
      else ParseParams(p.value.rest, if p.value.key == SID then Some(p.value.value) else sid)
  }

  function Item(reason: string, sid: Option<string>): seq<Skip> {
    if Recognised(reason) && sid.Some? then [Skip(reason, sid.value)] else []
  }

  function Prepend(found: seq<Skip>, rest: Option<seq<Skip>>): Option<seq<Skip>> {
    if rest.None? then None else Some(found + rest.value)
  }

  /** One item, after its separators: what follows, and what is kept of it. */
  function ParseItem(t: string): (r: Option<(string, seq<Skip>)>)
    requires |t| > 0
    ensures r.Some? ==> |r.value.0| < |t|
  {
    var n := Span(t, IsTokenChar);
    if n == 0 then None
    else
      var params := ParseParams(t[n..], None);
      if params.None? then None else Some((params.value.0, Item(t[..n], params.value.1)))
  }

  /** The whole list: unknown reasons and items without identifier are dropped. */
  function ParseItems(s: string): Option<seq<Skip>>
    decreases |s|
  {
    var t := Drop(s, IsSeparator);
    if |t| == 0 then Some([])
    else
      var i := ParseItem(t);
      if i.None? then None else Prepend(i.value.1, ParseItems(i.value.0))
  }

  // ---------------------------------------------------------------- requests for memory

  /** Copies of identifiers that the parameters of one item ask for: each later one replaces the one before. */
  function ParamTurns(s: string): nat
    decreases |s|
  {
    if |s| == 0 || s[0] != ';' then 0
    else
      var p := ParseParam(s);
      if p.None? then 0 else (if p.value.key == SID then 1 else 0) + ParamTurns(p.value.rest)
  }

  function ItemTurns(t: string): nat {
    ParamTurns(t[Span(t, IsTokenChar)..])
  }

  /** All requests: those copies, and for each item that is kept its slot and reason. */
  function Turns(s: string): nat
    decreases |s|
  {
    var t := Drop(s, IsSeparator);
    if |t| == 0 then 0
    else
      var i := ParseItem(t);
      if i.None? then 0 else ItemTurns(t) + |i.value.1| + Turns(i.value.0)
  }

  /** The next n requests are granted. */
  predicate Granted(alloc: nat -> bool, turn: nat, n: nat) {
    forall k: nat :: turn <= k < turn + n ==> alloc(k)
  }

  // ---------------------------------------------------------------- parsing loops

  method ReadKey(v: string, start: nat) returns (ok: bool, p: nat, key: string)
    requires start <= |v|
    ensures ok == ParseKey(v[start..]).Some?
    ensures ok ==> start < p <= |v| && ParseKey(v[start..]) == Some((v[p..], key))
  {
    hide Span;
    key := "";
    p := SkipWhile(v, start, IsSpace);
    var keyStart := p;
    p := SkipWhile(v, p, IsTokenChar);
    key := v[keyStart..p];
    p := SkipWhile(v, p, IsSpace);
    if p == |v| || v[p] != '=' {
      return false, p, key;
    }
    assert v[p..][1..] == v[p + 1..];
    ok, p := true, p + 1;
  }

  method ReadValue(v: string, start: nat) returns (ok: bool, p: nat, value: string)
    requires start <= |v|
    ensures ok == ParseValue(v[start..]).Some?
    ensures ok ==> start < p <= |v| && ParseValue(v[start..]) == Some((v[p..], value))
  {
    hide Span, QuotedSpan, SelfDelimiting;
    value := "";
    p := SkipWhile(v, start, IsSpace);
    if p == |v| || v[p] != '"' {
      return false, p, value;
    }
    assert v[p..][1..] == v[p + 1..];
    var valStart := p + 1;
    p := SkipQuoted(v, valStart);
    if p == |v| {
      return false, p, value;
    }
    value := v[valStart..p];
    ok, p := true, p + 1;
  }

  method ReadParam(v: string, start: nat) returns (ok: bool, p: nat, key: string, value: string)
    requires start < |v| && v[start] == ';'
    ensures ok == ParseParam(v[start..]).Some?
    ensures ok ==> start < p <= |v| && ParseParam(v[start..]) == Some(Parsed(v[p..], key, value))
  {
    hide ParseKey, ParseValue, SelfDelimiting;
    assert v[start..][1..] == v[start + 1..];
    value := "";
    ok, p, key := ReadKey(v, start + 1);
    if ok {
      ok, p, value := ReadValue(v, p);
    }
  }

  method ReadParams(v: string, start: nat, alloc: nat -> bool, turn: nat)
      returns (ok: bool, p: nat, sid: Option<string>, turn': nat)
    requires start <= |v|
    ensures ok <==> ParseParams(v[start..], None).Some? && Granted(alloc, turn, ParamTurns(v[start..]))
    ensures ok ==> start <= p <= |v| && ParseParams(v[start..], None) == Some((v[p..], sid))
    ensures ok ==> turn' == turn + ParamTurns(v[start..])
  {
    hide ParseParam, SelfDelimiting;
    p, sid, turn' := start, None, turn;
    while p < |v| && v[p] == ';'
      invariant start <= p <= |v| && (sid.Some? ==> SelfDelimiting(sid.value))
      invariant ParseParams(v[start..], None) == ParseParams(v[p..], sid)
      invariant turn <= turn' && turn + ParamTurns(v[start..]) == turn' + ParamTurns(v[p..])
      invariant forall k: nat :: turn <= k < turn' ==> alloc(k)
      decreases |v| - p
    {
      var good, next, key, value := ReadParam(v, p);
      if !good {
        return false, p, sid, turn';
      }
      if key == SID {
        if !alloc(turn') {
          return false, p, sid, turn';
        }
        sid := Some(value);
        turn' := turn' + 1;
      }
      p := next;
    }
    ok := true;
  }

  method ReadItem(v: string, start: nat, alloc: nat -> bool, turn: nat)
      returns (ok: bool, p: nat, reason: string, sid: Option<string>, turn': nat)
    requires start < |v|
    ensures var t := v[start..];
            ok <==> ParseItem(t).Some? && Granted(alloc, turn, ItemTurns(t))
    ensures ok ==> start < p <= |v| && ParseItem(v[start..]) == Some((v[p..], Item(reason, sid)))
    ensures ok ==> turn' == turn + ItemTurns(v[start..])
  {
    hide ParseParams, Item, Span, ParamTurns, Granted;
    reason, sid, turn' := "", None, turn;
    p := SkipWhile(v, start, IsTokenChar);
    if p == start {
      return false, p, reason, sid, turn;
    }
    reason := v[start..p];
    assert v[start..][p - start..] == v[p..];
    ok, p, sid, turn' := ReadParams(v, p, alloc, turn);
  }

  /** Appends to the result array, which doubles when it is full. */
  method Push(entries: array?<Skip>, n: nat, x: Skip, ghost found: seq<Skip>, allocOk: bool)
      returns (ok: bool, entries': array?<Skip>)
    requires Listed(entries, n, found)
    modifies entries
    ensures ok == allocOk
    ensures ok ==> Listed(entries', n + 1, found + [x]) && (entries' == entries || fresh(entries'))
  {
    entries' := entries;
    if !allocOk {
      return false, entries;
    }
    if entries == null || n == entries.Length {
      entries' := Enlarge(entries, n);
    }
    entries'[n] := x;
    ok := true;
  }

  /** The array holds exactly the items found so far; it exists only once there is one. */
  ghost predicate Listed(entries: array?<Skip>, n: nat, found: seq<Skip>)
    reads entries
  {
    && n == |found|
    && (entries == null <==> n == 0)
    && (entries != null ==> n <= entries.Length && entries[..n] == found)
  }

  /** What the loop knows: the items found so far, the rest of the text, and requests all granted so far. */
  ghost predicate Progress(v: string, p: nat, found: seq<Skip>, alloc: nat -> bool, turn: nat)
    requires p <= |v|
  {
    && ParseItems(v) == Prepend(found, ParseItems(v[p..]))
    && Turns(v) == turn + Turns(v[p..])
    && Granted(alloc, 0, turn)
  }

  lemma NoProgress(v: string, alloc: nat -> bool)
    ensures Progress(v, 0, [], alloc, 0)
  {
    PrependNothing(v);
  }

  lemma ItemParsed(v: string, from: nat, p: nat, next: nat, found: seq<Skip>, item: seq<Skip>, alloc: nat -> bool, turn: nat)
    requires from <= p < |v| && next <= |v| && Progress(v, from, found, alloc, turn) && v[p..] == Drop(v[from..], IsSeparator)
    requires ParseItem(v[p..]) == Some((v[next..], item)) && Granted(alloc, turn, ItemTurns(v[p..]) + |item|)
    ensures Progress(v, next, found + item, alloc, turn + ItemTurns(v[p..]) + |item|)
  {
    hide ParseItem, Span, ParamTurns;
    PrependTwice(found, item, ParseItems(v[next..]));
  }

  /** An item that cannot be parsed, or a request of it that is refused. */
  lemma ItemFails(v: string, from: nat, p: nat, found: seq<Skip>, alloc: nat -> bool, turn: nat)
    requires from <= p < |v| && Progress(v, from, found, alloc, turn) && v[p..] == Drop(v[from..], IsSeparator)
    requires var i := ParseItem(v[p..]); i.None? || !Granted(alloc, turn, ItemTurns(v[p..]) + |i.value.1|)
    ensures !(ParseItems(v).Some? && Granted(alloc, 0, Turns(v)))
  {
    hide ParseItem, Span, ParamTurns;
  }

  /** Nothing but separators is left. */
  lemma Exhausted(v: string, from: nat, found: seq<Skip>, alloc: nat -> bool, turn: nat)
    requires from <= |v| && Progress(v, from, found, alloc, turn) && Drop(v[from..], IsSeparator) == ""
    ensures ParseItems(v) == Some(found) && Turns(v) == turn && Granted(alloc, 0, Turns(v))
    ensures Progress(v, |v|, found, alloc, turn)
  {
    EmptyRest(v[from..]);
    assert Drop(v[|v|..], IsSeparator) == "";
    EmptyRest(v[|v|..]);
    hide ParseItems, Turns, Drop, Span;
    assert found + [] == found;
  }

  lemma EmptyRest(s: string)
    requires Drop(s, IsSeparator) == ""
    ensures ParseItems(s) == Some([]) && Turns(s) == 0
  {
  }

  lemma GrantedSplit(alloc: nat -> bool, turn: nat, n: nat, m: nat)
    ensures Granted(alloc, turn, n + m) <==> Granted(alloc, turn, n) && Granted(alloc, turn + n, m)
  {
  }

  /** One item: scanned, and kept if it has a recognised reason and an identifier. */
  method TakeItem(v: string, ghost from: nat, p: nat, entries: array?<Skip>, n: nat, ghost found: seq<Skip>,
                  alloc: nat -> bool, turn: nat)
      returns (ok: bool, next: nat, entries': array?<Skip>, n': nat, ghost found': seq<Skip>, turn': nat)
    requires from <= p < |v| && v[p..] == Drop(v[from..], IsSeparator)
    requires Progress(v, from, found, alloc, turn) && Listed(entries, n, found)
    modifies entries
    ensures !ok ==> !(ParseItems(v).Some? && Granted(alloc, 0, Turns(v)))
    ensures ok ==> p < next <= |v| && Progress(v, next, found', alloc, turn')
    ensures ok ==> Listed(entries', n', found') && (entries' == entries || fresh(entries'))
  {
    hide ParseItem, ParseItems, Turns, Span, Drop, ItemTurns, Progress, Granted;
    entries', n', found' := entries, n, found;
    var reason, sid;
    ok, next, reason, sid, turn' := ReadItem(v, p, alloc, turn);
    ghost var item, k := Item(reason, sid), ItemTurns(v[p..]);
    GrantedSplit(alloc, turn, k, if ParseItem(v[p..]).Some? then |ParseItem(v[p..]).value.1| else 0);
    if !ok {
      ItemFails(v, from, p, found, alloc, turn);
      return;
    }
    OneRequest(alloc, turn');
    if Recognised(reason) && sid.Some? {
      ok, entries' := Push(entries, n, Skip(reason, sid.value), found, alloc(turn'));
      if !ok {
        ItemFails(v, from, p, found, alloc, turn);
        return;
      }
      n', turn' := n + 1, turn' + 1;
    }
    ItemParsed(v, from, p, next, found, item, alloc, turn);
    found' := found + item;
  }

  /**
   The parser. `alloc(k)` tells whether the k-th request for memory is granted; any
   refusal gives up the whole result.
   */
  method ParseSkipped(v: string, alloc: nat -> bool) returns (rc: int, out: array?<Skip>, count: nat)
    ensures rc == 0 <==> ParseItems(v).Some? && Granted(alloc, 0, Turns(v))
    ensures rc == 0 ==> Listed(out, count, ParseItems(v).value)
    ensures rc != 0 ==> rc == -1 && out == null && count == 0
  {
    out, count := null, 0;
    var entries: array?<Skip> := null;
    var n, turn, p := 0, 0, 0;
    ghost var found: seq<Skip> := [];
    NoProgress(v, alloc);
    hide ParseItems, Turns, Span, Progress, Granted;
    while p < |v|
      invariant 0 <= p <= |v|
      invariant Listed(entries, n, found) && (entries != null ==> fresh(entries))
      invariant Progress(v, p, found, alloc, turn)
      decreases |v| - p
    {
      ghost var from := p;
      p := SkipWhile(v, p, IsSeparator);
      if p == |v| {
        Exhausted(v, from, found, alloc, turn);
        break;
      }
      var ok;
      ok, p, entries, n, found, turn := TakeItem(v, from, p, entries, n, found, alloc, turn);
      if !ok {
        return -1, null, 0;
      }
    }
    Exhausted(v, p, found, alloc, turn);
    rc, out, count := 0, entries, n;
  }

  lemma OneRequest(alloc: nat -> bool, turn: nat)
    ensures Granted(alloc, turn, 0) && (Granted(alloc, turn, 1) <==> alloc(turn))
  {
  }

  lemma PrependNothing(v: string)
    ensures v[0..] == v && ParseItems(v) == Prepend([], ParseItems(v[0..]))
  {
    if ParseItems(v).Some? { assert [] + ParseItems(v).value == ParseItems(v).value; }
  }

  lemma PrependTwice(a: seq<Skip>, b: seq<Skip>, rest: Option<seq<Skip>>)
    ensures Prepend(a, Prepend(b, rest)) == Prepend(a + b, rest)
  {
    if rest.Some? {
      assert a + (b + rest.value) == a + b + rest.value;
    }
  }

  /** realloc to four entries, or to twice as many. */
  method Enlarge(entries: array?<Skip>, n: nat) returns (bigger: array<Skip>)
    requires if n == 0 then entries == null else entries != null && entries.Length == n
    ensures fresh(bigger) && bigger.Length == (if n == 0 then 4 else 2 * n)
    ensures n > 0 ==> bigger[..n] == entries[..n]
  {
    var capacity := if n == 0 then 4 else n * 2;
    bigger := new Skip[capacity](_ => Skip("", ""));
    if entries != null {
      forall i | 0 <= i < n { bigger[i] := entries[i]; }
    }
  }
}
