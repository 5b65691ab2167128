/**
 The language that the parser of the Secure-Session-Skipped list accepts, as a grammar:
 items with their parameters, whitespace and separators in the places where they may stand.
 */
module SkippedGrammar {
  import opened Wrappers
  import opened Scanning
  import opened Header
  import opened Skipped

  /** `;`, a key, `=` and a quoted value, with whitespace before each of the last three. */
  datatype ParamForm = ParamForm(w1: string, key: string, w2: string, w3: string, value: string)

  /** A reason, its parameters, and the separators after it. */
  datatype ItemForm = ItemForm(reason: string, params: seq<ParamForm>, sep: string)

  predicate AllToken(s: string) {
    forall i :: 0 <= i < |s| ==> IsTokenChar(s[i])
  }

  predicate AllSep(s: string) {
    forall i :: 0 <= i < |s| ==> IsSeparator(s[i])
  }

  /** The key may be empty, and then all whitespace counts as before it; the value has no bare quote. */
  predicate GoodParam(p: ParamForm) {
    && AllSpace(p.w1) && AllToken(p.key) && AllSpace(p.w2) && AllSpace(p.w3) && SelfDelimiting(p.value)
    && (p.key == "" ==> p.w2 == "")
  }

  predicate GoodItem(x: ItemForm) {
    IsToken(x.reason) && (forall i :: 0 <= i < |x.params| ==> GoodParam(x.params[i])) && AllSep(x.sep)
  }

  /** Two reasons need something between them; after a parameter that is its closing quote. */
  predicate GoodItems(xs: seq<ItemForm>) {
    && (forall i :: 0 <= i < |xs| ==> GoodItem(xs[i]))
    && (forall i :: 0 <= i < |xs| - 1 ==> xs[i].params != [] || xs[i].sep != "")
  }

  function ParamText(p: ParamForm): string {
    [';'] + (p.w1 + (p.key + (p.w2 + (['='] + (p.w3 + (['"'] + (p.value + ['"'])))))))
  }

  function ParamsText(ps: seq<ParamForm>): string {
    if |ps| == 0 then "" else ParamText(ps[0]) + ParamsText(ps[1..])
  }

  function ItemText(x: ItemForm): string {
    x.reason + (ParamsText(x.params) + x.sep)
  }

  function ItemsText(xs: seq<ItemForm>): string {
    if |xs| == 0 then "" else ItemText(xs[0]) + ItemsText(xs[1..])
  }

  // ---------------------------------------------------------------- what it means

  /** The value of the last session_identifier. */
  function LastSid(ps: seq<ParamForm>, sid: Option<string>): Option<string> {
    if |ps| == 0 then sid else LastSid(ps[1..], if ps[0].key == SID then Some(ps[0].value) else sid)
  }

  function SidCount(ps: seq<ParamForm>): nat {
    if |ps| == 0 then 0 else (if ps[0].key == SID then 1 else 0) + SidCount(ps[1..])
  }

  /** The items with a recognised reason and an identifier. */
  function KeptOf(xs: seq<ItemForm>): seq<Skip> {
    if |xs| == 0 then [] else Item(xs[0].reason, LastSid(xs[0].params, None)) + KeptOf(xs[1..])
  }

  function IdentifierCount(xs: seq<ItemForm>): nat {
    if |xs| == 0 then 0 else SidCount(xs[0].params) + IdentifierCount(xs[1..])
  }

  // ---------------------------------------------------------------- scanning over known text

  lemma DropAll(a: string, rest: string, f: char -> bool)
    requires (forall i :: 0 <= i < |a| ==> f(a[i])) && (rest == "" || !f(rest[0]))
    ensures Span(a + rest, f) == |a| && Drop(a + rest, f) == rest
  {
    SpanIs(a + rest, f, |a|);
  }

  lemma SpanPrefix(s: string, f: char -> bool)
    ensures s == s[..Span(s, f)] + Drop(s, f)
    ensures forall i :: 0 <= i < |s[..Span(s, f)]| ==> f(s[..Span(s, f)][i])
    ensures Drop(s, f) == "" || !f(Drop(s, f)[0])
  {
  }

  /** Whatever separators stand in front, the same items follow. */
  lemma LeadDropped(lead: string, s: string)
    requires AllSep(lead)
    ensures Drop(lead + s, IsSeparator) == Drop(s, IsSeparator)
    ensures ParseItems(lead + s) == ParseItems(s) && Turns(lead + s) == Turns(s)
  {
    hide ParseItem, ItemTurns;
    var n := Span(s, IsSeparator);
    SpanIs(lead + s, IsSeparator, |lead| + n);
    assert (lead + s)[|lead| + n..] == s[n..];
  }

  lemma CharacterClasses(c: char)
    ensures IsTokenChar(c) ==> !IsSpace(c) && !IsSeparator(c) && c !in {'=', '"', ';'}
    ensures IsSpace(c) ==> IsSeparator(c) && c !in {'=', '"', ';'}
  {
  }

  // ---------------------------------------------------------------- one parameter

  lemma KeyForm(p: ParamForm, rest: string)
    requires GoodParam(p)
    ensures ParseKey(p.w1 + (p.key + (p.w2 + (['='] + rest)))) == Some((rest, p.key))
  {
    hide SelfDelimiting, IsTokenChar, IsSpace, IsSeparator, Span, Drop;
    var afterEq := ['='] + rest;
    var afterKey := p.w2 + afterEq;
    var atKey := p.key + afterKey;
    CharacterClasses(atKey[0]);
    CharacterClasses(afterKey[0]);
    CharacterClasses('=');
    assert afterKey[0] == if |p.w2| > 0 then p.w2[0] else '=';
    assert atKey[0] == if |p.key| > 0 then p.key[0] else '=';
    DropAll(p.w1, atKey, IsSpace);
    DropAll(p.key, afterKey, IsTokenChar);
    DropAll(p.w2, afterEq, IsSpace);
    assert atKey[..|p.key|] == p.key && afterEq[1..] == rest;
  }

  lemma ValueForm(p: ParamForm, rest: string)
    requires GoodParam(p)
    ensures ParseValue(p.w3 + (['"'] + (p.value + ['"'] + rest))) == Some((rest, p.value))
  {
    hide SelfDelimiting, QuotedSpan, IsSpace, IsTokenChar, Span, Drop;
    var inside := p.value + ['"'] + rest;
    var atQuote := ['"'] + inside;
    CharacterClasses('"');
    DropAll(p.w3, atQuote, IsSpace);
    assert atQuote[1..] == inside;
    assert inside == p.value + "\"" + rest;
    ScanText(p.value, rest);
    assert inside[..|p.value|] == p.value && inside[|p.value| + 1..] == rest;
  }

  lemma ParamForms(p: ParamForm, rest: string)
    requires GoodParam(p)
    ensures ParamText(p) + rest != "" && (ParamText(p) + rest)[0] == ';'
    ensures ParseParam(ParamText(p) + rest) == Some(Parsed(rest, p.key, p.value))
  {
    hide GoodParam, ParseKey, ParseValue, SelfDelimiting;
    var value := p.w3 + (['"'] + (p.value + ['"'] + rest));
    KeyForm(p, value);
    ValueForm(p, rest);
    ParamTail(p, rest);
  }

  /** Regrouping. */
  lemma ParamTail(p: ParamForm, rest: string)
    ensures (ParamText(p) + rest)[1..] == p.w1 + (p.key + (p.w2 + (['='] + (p.w3 + (['"'] + (p.value + ['"'] + rest))))))
    ensures (ParamText(p) + rest)[0] == ';'
  {
    var e := p.value + ['"'];
    var d := ['"'] + e;
    var c := p.w3 + d;
    var b := ['='] + c;
    var a := p.w2 + b;
    assert d + rest == ['"'] + (e + rest);
    assert c + rest == p.w3 + (d + rest);
    assert b + rest == ['='] + (c + rest);
    assert a + rest == p.w2 + (b + rest);
    assert p.key + a + rest == p.key + (a + rest);
    assert p.w1 + (p.key + a) + rest == p.w1 + (p.key + (a + rest));
  }

  lemma {:induction false} ParamsForms(ps: seq<ParamForm>, rest: string, sid: Option<string>)
    requires (forall i :: 0 <= i < |ps| ==> GoodParam(ps[i])) && (rest == "" || rest[0] != ';')
    requires sid.Some? ==> SelfDelimiting(sid.value)
    ensures ParseParams(ParamsText(ps) + rest, sid) == Some((rest, LastSid(ps, sid)))
    ensures ParamTurns(ParamsText(ps) + rest) == SidCount(ps)
    decreases |ps|
  {
    hide ParseParam, SelfDelimiting, ParamText;
    if |ps| == 0 {
      assert ParamsText(ps) + rest == rest;
    } else {
      var tail := ParamsText(ps[1..]) + rest;
      assert ParamsText(ps) + rest == ParamText(ps[0]) + tail;
      ParamForms(ps[0], tail);
      assert SelfDelimiting(ps[0].value);
      ParamsForms(ps[1..], rest, if ps[0].key == SID then Some(ps[0].value) else sid);
    }
  }

  // ---------------------------------------------------------------- items

  lemma ParamsStart(ps: seq<ParamForm>)
    ensures if ps == [] then ParamsText(ps) == "" else ParamsText(ps) != "" && ParamsText(ps)[0] == ';'
  {
    if ps != [] {
      ParamTail(ps[0], "");
      assert ParamText(ps[0]) + "" == ParamText(ps[0]);
    }
  }

  /** An item in front of text that can follow it. */
  lemma ItemForms(x: ItemForm, rest: string)
    requires GoodItem(x) && (rest == "" || rest[0] != ';')
    requires x.params == [] ==> rest == "" || !IsTokenChar(rest[0])
    ensures var t := x.reason + (ParamsText(x.params) + rest);
            && t != "" && Drop(t, IsSeparator) == t
            && ParseItem(t) == Some((rest, Item(x.reason, LastSid(x.params, None))))
            && ItemTurns(t) == SidCount(x.params)
  {
    hide GoodParam, ParseParams, ParamTurns, IsTokenChar, IsSeparator, ParamsText, Item, Span;
    var after := ParamsText(x.params) + rest;
    var t := x.reason + after;
    ParamsStart(x.params);
    CharacterClasses(';');
    CharacterClasses(x.reason[0]);
    assert t[0] == x.reason[0];
    assert "" + t == t;
    DropAll("", t, IsSeparator);
    assert after != "" ==> after[0] == if x.params == [] then rest[0] else ';';
    DropAll(x.reason, after, IsTokenChar);
    assert t[..|x.reason|] == x.reason;
    ParamsForms(x.params, rest, None);
  }

  lemma ItemsTextStep(xs: seq<ItemForm>)
    requires |xs| > 0
    ensures ItemsText(xs) == xs[0].reason + (ParamsText(xs[0].params) + (xs[0].sep + ItemsText(xs[1..])))
  {
    Associate(xs[0].reason, ParamsText(xs[0].params), xs[0].sep, ItemsText(xs[1..]));
  }

  lemma Associate(a: string, b: string, c: string, d: string)
    ensures a + (b + c) + d == a + (b + (c + d))
  {
    assert b + c + d == b + (c + d);
    assert a + (b + c) + d == a + (b + c + d);
  }

  /** The first item of a list is parsed, and then the rest. */
  lemma FirstForm(xs: seq<ItemForm>)
    requires |xs| > 0 && GoodItems(xs)
    ensures var item := Item(xs[0].reason, LastSid(xs[0].params, None));
            && ParseItems(ItemsText(xs)) == Prepend(item, ParseItems(ItemsText(xs[1..])))
            && Turns(ItemsText(xs)) == SidCount(xs[0].params) + |item| + Turns(ItemsText(xs[1..]))
  {
    var x, tail := xs[0], ItemsText(xs[1..]);
    assert GoodItem(x) && AllSep(x.sep);
    NextStart(xs);
    ItemsTextStep(xs);
    hide ParseItem, ItemTurns, ParamsText, GoodItem, GoodItems, IsTokenChar, ItemsText, ParseItems, Turns, Drop, Item, AllSep;
    ItemForms(x, x.sep + tail);
    LeadDropped(x.sep, tail);
    OneItem(ItemsText(xs), x.sep + tail);
  }

  /** What a list of items parses to. */
  lemma {:induction false} ItemsForms(xs: seq<ItemForm>)
    requires GoodItems(xs)
    ensures ParseItems(ItemsText(xs)) == Some(KeptOf(xs))
    ensures Turns(ItemsText(xs)) == IdentifierCount(xs) + |KeptOf(xs)|
    decreases |xs|
  {
    hide ParseItems, Turns, GoodItem, Item, Prepend;
    if |xs| == 0 {
      NoForms();
    } else {
      NextStart(xs);
      FirstForm(xs);
      ItemsForms(xs[1..]);
      Prepended(Item(xs[0].reason, LastSid(xs[0].params, None)), KeptOf(xs[1..]));
    }
  }

  lemma NoForms()
    ensures ParseItems("") == Some([]) && Turns("") == 0
  {
    SpanIs("", IsSeparator, 0);
  }

  lemma Prepended(a: seq<Skip>, b: seq<Skip>)
    ensures Prepend(a, Some(b)) == Some(a + b)
  {
  }

  lemma OneItem(t: string, rest: string)
    requires t != "" && Drop(t, IsSeparator) == t && ParseItem(t).Some? && ParseItem(t).value.0 == rest
    ensures ParseItems(t) == Prepend(ParseItem(t).value.1, ParseItems(rest))
    ensures Turns(t) == ItemTurns(t) + |ParseItem(t).value.1| + Turns(rest)
  {
    hide ParseItem, ItemTurns, Drop, Prepend;
  }

  lemma SepIsSep(x: ItemForm)
    requires GoodItem(x)
    ensures AllSep(x.sep)
  {
  }

  /** What follows an item starts with a separator or a reason; after a bare reason, with a separator. */
  lemma NextStart(xs: seq<ItemForm>)
    requires |xs| > 0 && GoodItems(xs)
    ensures GoodItems(xs[1..])
    ensures var rest := xs[0].sep + ItemsText(xs[1..]);
            && (rest != "" ==> rest[0] != ';')
            && (xs[0].params == [] && rest != "" ==> !IsTokenChar(rest[0]))
  {
    hide GoodParam, ParamsText;
    var x, rest := xs[0], xs[0].sep + ItemsText(xs[1..]);
    if x.sep != "" {
      assert rest[0] == x.sep[0] && IsSeparator(x.sep[0]);
      CharacterClasses(rest[0]);
    } else if |xs| > 1 {
      assert IsToken(xs[1].reason) && xs[1..][0] == xs[1];
      assert rest[0] == xs[1].reason[0];
      CharacterClasses(rest[0]);
    }
  }

  // ---------------------------------------------------------------- from the parser back to the forms

  lemma KeyBack(s: string) returns (w1: string, key: string, w2: string)
    requires ParseKey(s).Some?
    ensures AllSpace(w1) && AllToken(key) && AllSpace(w2) && (key == "" ==> w2 == "")
    ensures key == ParseKey(s).value.1
    ensures s == w1 + (key + (w2 + (['='] + ParseKey(s).value.0)))
  {
    var atKey := Drop(s, IsSpace);
    var afterKey := Drop(atKey, IsTokenChar);
    var afterEq := Drop(afterKey, IsSpace);
    SpanPrefix(s, IsSpace);
    SpanPrefix(atKey, IsTokenChar);
    SpanPrefix(afterKey, IsSpace);
    w1, key, w2 := s[..Span(s, IsSpace)], atKey[..Span(atKey, IsTokenChar)], afterKey[..Span(afterKey, IsSpace)];
    assert ParseKey(s) == Some((afterEq[1..], key)) && afterEq[0] == '=';
    hide Span, Drop, IsSpace, IsTokenChar, ParseKey;
    assert afterEq == ['='] + afterEq[1..];
    if key == "" {
      assert afterKey == atKey;
      assert w2 == "";
    }
  }

  lemma ValueBack(s: string) returns (w3: string)
    requires ParseValue(s).Some?
    ensures AllSpace(w3) && SelfDelimiting(ParseValue(s).value.1)
    ensures s == w3 + (['"'] + (ParseValue(s).value.1 + ['"'] + ParseValue(s).value.0))
  {
    var atQuote := Drop(s, IsSpace);
    SpanPrefix(s, IsSpace);
    w3 := s[..Span(s, IsSpace)];
    hide Span, IsSpace, SelfDelimiting;
    var inside := atQuote[1..];
    var n := QuotedSpan(inside);
    hide QuotedSpan;
    assert atQuote == ['"'] + inside;
    assert inside == inside[..n] + ['"'] + inside[n + 1..];
  }

  lemma ParamBack(s: string) returns (p: ParamForm)
    requires |s| > 0 && s[0] == ';' && ParseParam(s).Some?
    ensures GoodParam(p) && p.key == ParseParam(s).value.key && p.value == ParseParam(s).value.value
    ensures s == ParamText(p) + ParseParam(s).value.rest
  {
    hide ParseKey, ParseValue, SelfDelimiting;
    var k := ParseKey(s[1..]).value;
    var v := ParseValue(k.0).value;
    var w1, key, w2 := KeyBack(s[1..]);
    var w3 := ValueBack(k.0);
    p := ParamForm(w1, key, w2, w3, v.1);
    ParamTail(p, v.0);
    assert s == [';'] + s[1..];
    assert ParamText(p) + v.0 == [';'] + (ParamText(p) + v.0)[1..];
  }

  lemma {:induction false} ParamsBack(s: string, sid: Option<string>) returns (ps: seq<ParamForm>)
    requires (sid.Some? ==> SelfDelimiting(sid.value)) && ParseParams(s, sid).Some?
    ensures forall i :: 0 <= i < |ps| ==> GoodParam(ps[i])
    ensures var rest := ParseParams(s, sid).value.0; s == ParamsText(ps) + rest && (rest == "" || rest[0] != ';')
    ensures LastSid(ps, sid) == ParseParams(s, sid).value.1
    decreases |s|
  {
    hide ParseParam, SelfDelimiting, ParamText, GoodParam;
    if |s| == 0 || s[0] != ';' {
      ps := [];
    } else {
      var p := ParamBack(s);
      var r := ParseParam(s).value;
      var more := ParamsBack(r.rest, if r.key == SID then Some(r.value) else sid);
      ps := [p] + more;
      assert ps[1..] == more;
      assert ParamText(p) + (ParamsText(more) + ParseParams(s, sid).value.0) == ParamsText(ps) + ParseParams(s, sid).value.0;
    }
  }

  lemma ItemBack(t: string) returns (reason: string, ps: seq<ParamForm>)
    requires |t| > 0 && ParseItem(t).Some?
    ensures IsToken(reason) && (forall i :: 0 <= i < |ps| ==> GoodParam(ps[i]))
    ensures var (rest, item) := ParseItem(t).value;
            && t == reason + (ParamsText(ps) + rest) && item == Item(reason, LastSid(ps, None))
            && (ps == [] && rest != "" ==> !IsTokenChar(rest[0]))
  {
    hide ParseParams, ParamsText, GoodParam, IsTokenChar, Item;
    var n := Span(t, IsTokenChar);
    SpanPrefix(t, IsTokenChar);
    reason := t[..n];
    ps := ParamsBack(t[n..], None);
    ParamsStart(ps);
    assert ps == [] ==> ParamsText(ps) + ParseItem(t).value.0 == ParseItem(t).value.0;
  }

  lemma {:induction false} ItemsBack(s: string) returns (lead: string, xs: seq<ItemForm>)
    requires ParseItems(s).Some?
    ensures AllSep(lead) && GoodItems(xs) && s == lead + ItemsText(xs) && KeptOf(xs) == ParseItems(s).value
    decreases |s|
  {
    hide ParseItem, ParamsText, GoodParam;
    SpanPrefix(s, IsSeparator);
    lead := s[..Span(s, IsSeparator)];
    var t := Drop(s, IsSeparator);
    if |t| == 0 {
      xs := [];
    } else {
      var (rest, item) := ParseItem(t).value;
      var reason, ps := ItemBack(t);
      var sep, more := ItemsBack(rest);
      var x := ItemForm(reason, ps, sep);
      xs := [x] + more;
      hide Span, IsSeparator, IsTokenChar, ParseItems;
      FormsJoin(x, more, rest);
    }
  }

  /** One more item in front. */
  lemma FormsJoin(x: ItemForm, more: seq<ItemForm>, rest: string)
    requires GoodItem(x) && GoodItems(more) && rest == x.sep + ItemsText(more)
    requires x.params == [] && rest != "" ==> !IsTokenChar(rest[0])
    ensures GoodItems([x] + more) && KeptOf([x] + more) == Item(x.reason, LastSid(x.params, None)) + KeptOf(more)
    ensures ItemsText([x] + more) == x.reason + (ParamsText(x.params) + rest)
  {
    hide GoodParam, ParamsText, IsTokenChar;
    var xs := [x] + more;
    assert xs[1..] == more;
    assert x.reason + (ParamsText(x.params) + x.sep) + ItemsText(more) == x.reason + (ParamsText(x.params) + rest);
    if |more| > 0 {
      assert IsToken(more[0].reason);
      assert ItemsText(more)[0] == more[0].reason[0];
      assert x.sep == "" ==> rest == ItemsText(more);
    }
    assert forall i :: 1 <= i < |xs| ==> xs[i] == more[i - 1];
  }

  // ---------------------------------------------------------------- the language

  /** A header of that form, and what it says. */
  ghost predicate Forms(s: string, lead: string, xs: seq<ItemForm>) {
    AllSep(lead) && GoodItems(xs) && s == lead + ItemsText(xs)
  }

  /**
   The parser yields a list exactly for the headers of the grammar, and then the items of
   its forms that have a recognised reason and an identifier, the last one counting.
   */
  lemma ParseIff(s: string, found: seq<Skip>)
    ensures ParseItems(s) == Some(found) <==> exists lead, xs :: Forms(s, lead, xs) && KeptOf(xs) == found
  {
    if ParseItems(s) == Some(found) {
      var lead, xs := ItemsBack(s);
      assert Forms(s, lead, xs);
    }
    hide ParseItems, Forms, KeptOf;
    forall lead, xs | Forms(s, lead, xs) && KeptOf(xs) == found ensures ParseItems(s) == Some(found) {
      FormsParse(s, lead, xs);
    }
  }

  /** For every way of reading a header by the grammar: what is found, and how often memory is asked for. */
  lemma FormsParse(s: string, lead: string, xs: seq<ItemForm>)
    requires Forms(s, lead, xs)
    ensures ParseItems(s) == Some(KeptOf(xs)) && Turns(s) == IdentifierCount(xs) + |KeptOf(xs)|
  {
    ItemsForms(xs);
    LeadDropped(lead, ItemsText(xs));
  }

  /** A header that the parser refuses, because no item starts with '='. */
  lemma Refused()
    ensures ParseItems("=").None?
    ensures !exists lead, xs :: Forms("=", lead, xs)
  {
    SpanIs("=", IsSeparator, 0);
    SpanIs("=", IsTokenChar, 0);
    assert ParseItems("=").None?;
    forall lead, xs | Forms("=", lead, xs) ensures false {
      hide ParseItems;
      FormsParse("=", lead, xs);
    }
  }
}
