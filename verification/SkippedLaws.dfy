/** Parsing what was serialized, and serializing what was parsed. */
module SkippedLaws {
  import opened Wrappers
  import opened Scanning
  import opened Header
  import opened Skipped
  import opened SkippedGrammar

  /** An entry survives if it has a recognised reason and a non-empty identifier. */
  function KeptEntry(e: Entry): seq<Skip> {
    if Recognised(OrEmpty(e.reason)) && Present(e.sessionId) then [Skip(OrEmpty(e.reason), e.sessionId.value)] else []
  }

  function Kept(es: seq<Entry>): seq<Skip> {
    if |es| == 0 then [] else KeptEntry(es[0]) + Kept(es[1..])
  }

  predicate Writable(e: Entry) {
    IsToken(OrEmpty(e.reason)) && SelfDelimiting(OrEmpty(e.sessionId))
  }

  // ---------------------------------------------------------------- round trips

  /** The serialization as a form of the grammar. */
  function FormOf(e: Entry, last: bool): ItemForm {
    ItemForm(OrEmpty(e.reason),
             if Present(e.sessionId) then [ParamForm("", SID, "", "", e.sessionId.value)] else [],
             if last then "" else ", ")
  }

  function FormsOf(es: seq<Entry>): (xs: seq<ItemForm>)
    ensures |xs| == |es|
  {
    if |es| == 0 then [] else [FormOf(es[0], |es| == 1)] + FormsOf(es[1..])
  }

  lemma FormText(e: Entry, last: bool)
    ensures ItemText(FormOf(e, last)) == EntryText(e) + (if last then "" else ", ")
  {
    var x := FormOf(e, last);
    if Present(e.sessionId) {
      var v := e.sessionId.value;
      assert ParamsText(x.params) == ParamText(x.params[0]) + "";
      assert ParamText(x.params[0]) == [';'] + (SID + (['='] + (['"'] + (v + ['"'])))) by { EmptyText(SID, v); }
      assert Param(SID, v) == [';'] + (SID + (['='] + (['"'] + (v + ['"']))));
    }
    assert x.reason + (ParamsText(x.params) + x.sep) == x.reason + ParamsText(x.params) + x.sep;
  }

  lemma EmptyText(key: string, v: string)
    ensures ParamText(ParamForm("", key, "", "", v)) == [';'] + (key + (['='] + (['"'] + (v + ['"']))))
  {
    var d := ['"'] + (v + ['"']);
    assert "" + d == d && "" + (['='] + d) == ['='] + d && "" + (key + (['='] + d)) == key + (['='] + d);
  }

  lemma FormGood(e: Entry, last: bool)
    requires Writable(e)
    ensures GoodItem(FormOf(e, last)) && (FormOf(e, last).params == [] ==> last || FormOf(e, last).sep != "")
  {
    assert AllToken(SID) && |SID| == 18;
  }

  lemma FormKept(e: Entry, last: bool)
    ensures Item(FormOf(e, last).reason, LastSid(FormOf(e, last).params, None)) == KeptEntry(e)
  {
    if Present(e.sessionId) {
      assert FormOf(e, last).params[1..] == [];
    }
  }

  lemma {:induction false} FormsAreGood(es: seq<Entry>)
    requires forall i :: 0 <= i < |es| ==> Writable(es[i])
    ensures GoodItems(FormsOf(es))
  {
    if |es| > 0 {
      FormsAreGood(es[1..]);
      FormGood(es[0], |es| == 1);
      hide Writable, GoodItem, FormOf;
      var xs, rest := FormsOf(es), FormsOf(es[1..]);
      assert forall i :: 1 <= i < |xs| ==> xs[i] == rest[i - 1];
    }
  }

  lemma {:induction false} FormsSpell(es: seq<Entry>)
    ensures ItemsText(FormsOf(es)) == SkippedText(es)
  {
    hide ItemText, EntryText, FormOf;
    if |es| > 0 {
      FormsSpell(es[1..]);
      FormText(es[0], |es| == 1);
      assert FormsOf(es)[1..] == FormsOf(es[1..]);
      Separated(EntryText(es[0]), SkippedText(es[1..]));
    }
  }

  lemma Separated(a: string, b: string)
    ensures a + ", " + b == a + (", " + b) && a + "" + "" == a
  {
  }

  lemma {:induction false} FormsKeep(es: seq<Entry>)
    ensures KeptOf(FormsOf(es)) == Kept(es)
  {
    hide FormOf, Item, KeptEntry;
    if |es| > 0 {
      FormsKeep(es[1..]);
      FormKept(es[0], |es| == 1);
      assert FormsOf(es)[1..] == FormsOf(es[1..]);
    }
  }

  /** Parsing the serialization yields, in order, exactly the entries worth keeping. */
  lemma RoundTrip(es: seq<Entry>)
    requires forall i :: 0 <= i < |es| ==> Writable(es[i])
    ensures ParseItems(SkippedText(es)) == Some(Kept(es))
  {
    FormsAreGood(es);
    FormsSpell(es);
    FormsKeep(es);
    hide ParseItems, SkippedText, FormsOf;
    ItemsForms(FormsOf(es));
  }

  /** On every string, the parser returns only recognised reasons and readable identifiers. */
  lemma {:induction false} ParsedAreSound(s: string)
    requires ParseItems(s).Some?
    ensures forall i :: 0 <= i < |ParseItems(s).value| ==>
              Recognised(ParseItems(s).value[i].reason) && SelfDelimiting(ParseItems(s).value[i].sessionId)
    decreases |s|
  {
    var t := Drop(s, IsSeparator);
    if |t| > 0 {
      var i := ParseItem(t).value;
      hide SelfDelimiting, Recognised;
      ParsedAreSound(i.0);
      ItemIsSound(t);
    }
  }

  lemma ItemIsSound(t: string)
    requires |t| > 0 && ParseItem(t).Some?
    ensures forall i :: 0 <= i < |ParseItem(t).value.1| ==>
              Recognised(ParseItem(t).value.1[i].reason) && SelfDelimiting(ParseItem(t).value.1[i].sessionId)
  {
  }

  function AsEntries(found: seq<Skip>): (es: seq<Entry>)
    ensures |es| == |found|
  {
    seq(|found|, i requires 0 <= i < |found| => Entry(Some(found[i].reason), Some(found[i].sessionId)))
  }

  function NonEmpty(found: seq<Skip>): seq<Skip> {
    if |found| == 0 then []
    else (if found[0].sessionId != "" then [found[0]] else []) + NonEmpty(found[1..])
  }

  lemma {:induction false} KeptOfParsed(found: seq<Skip>)
    requires forall i :: 0 <= i < |found| ==> Recognised(found[i].reason)
    ensures Kept(AsEntries(found)) == NonEmpty(found)
  {
    if |found| > 0 {
      assert AsEntries(found)[1..] == AsEntries(found[1..]);
      KeptOfParsed(found[1..]);
    }
  }

  lemma RecognisedAreTokens(reason: string)
    requires Recognised(reason)
    ensures IsToken(reason)
  {
  }

  /** Whatever header was parsed, writing the result and parsing again loses only empty identifiers. */
  lemma Reparse(s: string)
    requires ParseItems(s).Some?
    ensures ParseItems(SkippedText(AsEntries(ParseItems(s).value))) == Some(NonEmpty(ParseItems(s).value))
  {
    var found := ParseItems(s).value;
    ParsedAreSound(s);
    hide ParseItems, SelfDelimiting, IsToken;
    forall i | 0 <= i < |found| ensures Writable(AsEntries(found)[i]) {
      RecognisedAreTokens(found[i].reason);
    }
    RoundTrip(AsEntries(found));
    KeptOfParsed(found);
  }
}
