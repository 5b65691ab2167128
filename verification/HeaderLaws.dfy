/** The registration header determines every field it was written from. */
module HeaderLaws {
  import opened Wrappers
  import opened Header
  import opened Scanning

  datatype Named = Named(name: string, value: Option<string>)

  /** The parameters in order, absent and empty ones left out. */
  function Params(ps: seq<Named>): string {
    if |ps| == 0 then "" else OptParam(ps[0].name, ps[0].value) + Params(ps[1..])
  }

  /** Null and the empty string are written alike. */
  predicate SameValue(v: Option<string>, w: Option<string>) {
    v == w || (!Present(v) && !Present(w))
  }

  predicate QuoteFree(v: Option<string>) {
    v.Some? ==> '"' !in v.value
  }

  predicate Scannable(v: Option<string>) {
    v.Some? ==> SelfDelimiting(v.value)
  }

  /** Two values of one parameter whose ends are found by the same rule: the first quote, or the first bare quote. */
  predicate Comparable(v: Option<string>, w: Option<string>) {
    (QuoteFree(v) && QuoteFree(w)) || (Scannable(v) && Scannable(w))
  }

  // ---------------------------------------------------------------- delimiters

  /** Text up to the first delimiter is determined by the whole. */
  lemma FirstDelimiter(a: string, b: string, c: char, x: string, y: string)
    requires c !in a && c !in b
    requires a + [c] + x == b + [c] + y
    ensures a == b && x == y
  {
    var s := a + [c] + x;
    assert s == b + [c] + y;
    assert s[|a|] == c && s[|b|] == c;
    assert forall i :: 0 <= i < |a| ==> s[i] == a[i] && s[i] != c;
    assert forall i :: 0 <= i < |b| ==> s[i] == b[i] && s[i] != c;
    assert |a| == |b|;
    assert a == s[..|a|] && b == s[..|b|];
    assert x == s[|a| + 1..] && y == s[|b| + 1..];
  }

  lemma SameTail(head: string, x: string, y: string)
    requires head + x == head + y
    ensures x == y
  {
    assert x == (head + x)[|head|..];
    assert y == (head + y)[|head|..];
  }

  // ---------------------------------------------------------------- parameters

  /** A parameter name and what follows its equals sign. */
  function Assigned(name: string, rest: string): string {
    [';'] + (name + ['='] + rest)
  }

  lemma AssignedInjective(n: string, x: string, m: string, y: string)
    requires '=' !in n && '=' !in m
    requires Assigned(n, x) == Assigned(m, y)
    ensures n == m && x == y
  {
    SameTail([';'], n + ['='] + x, m + ['='] + y);
    FirstDelimiter(n, m, '=', x, y);
  }

  lemma ParamsOfPresent(ps: seq<Named>)
    requires |ps| > 0 && Present(ps[0].value)
    ensures Params(ps) == Assigned(ps[0].name, ['"'] + (ps[0].value.value + ['"'] + Params(ps[1..])))
  {
    Regroup(";", ps[0].name, "=", "\"", ps[0].value.value, Params(ps[1..]));
  }

  lemma Regroup(a: string, n: string, e: string, q: string, v: string, rest: string)
    ensures a + n + e + (q + v + q) + rest == a + (n + e + (q + (v + q + rest)))
  {
    assert q + v + q + rest == q + (v + q + rest);
    assert a + n + e + (q + v + q) + rest == a + n + e + (q + v + q + rest);
    assert a + n + e + (q + (v + q + rest)) == a + (n + e + (q + (v + q + rest)));
  }

  lemma ParamsOfAbsent(ps: seq<Named>)
    requires |ps| > 0 && !Present(ps[0].value)
    ensures Params(ps) == Params(ps[1..])
  {
  }

  /** A non-empty parameter list starts with one of its own names. */
  lemma {:induction false} ParamsStart(ps: seq<Named>) returns (i: nat, rest: string)
    requires Params(ps) != ""
    ensures i < |ps| && Params(ps) == Assigned(ps[i].name, rest)
  {
    hide Assigned;
    if Present(ps[0].value) {
      ParamsOfPresent(ps);
      i, rest := 0, ['"'] + (ps[0].value.value + ['"'] + Params(ps[1..]));
    } else {
      ParamsOfAbsent(ps);
      i, rest := ParamsStart(ps[1..]);
      i := i + 1;
    }
  }

  /** Names are distinct and contain no equals sign. */
  ghost predicate GoodNames(ps: seq<Named>) {
    && (forall i :: 0 <= i < |ps| ==> '=' !in ps[i].name)
    && (forall i, j :: 0 <= i < j < |ps| ==> ps[i].name != ps[j].name)
  }

  lemma PresentFirst(ps: seq<Named>, qs: seq<Named>)
    requires |ps| == |qs| > 0 && GoodNames(ps)
    requires forall i :: 0 <= i < |ps| ==> ps[i].name == qs[i].name
    requires Params(ps) == Params(qs) && Present(ps[0].value)
    ensures Present(qs[0].value)
  {
    ParamsOfPresent(ps);
    if !Present(qs[0].value) {
      ParamsOfAbsent(qs);
      assert Params(ps) != "";
      var i, rest := ParamsStart(qs[1..]);
      assert qs[1..][i].name == ps[i + 1].name;
      hide Params, Assigned;
      AssignedInjective(ps[0].name, ['"'] + (ps[0].value.value + ['"'] + Params(ps[1..])), ps[i + 1].name, rest);
      assert false;
    }
  }

  lemma {:induction false} ParamsInjective(ps: seq<Named>, qs: seq<Named>)
    requires |ps| == |qs| && GoodNames(ps)
    requires forall i :: 0 <= i < |ps| ==> ps[i].name == qs[i].name && Comparable(ps[i].value, qs[i].value)
    requires Params(ps) == Params(qs)
    ensures forall i :: 0 <= i < |ps| ==> SameValue(ps[i].value, qs[i].value)
    decreases |ps|
  {
    if |ps| > 0 {
      if Present(ps[0].value) {
        PresentFirst(ps, qs);
        FirstParam(ps, qs);
      } else if Present(qs[0].value) {
        assert GoodNames(qs);
        PresentFirst(qs, ps);
        FirstParam(ps, qs);
      } else {
        ParamsOfAbsent(ps);
        ParamsOfAbsent(qs);
      }
      ParamsInjective(ps[1..], qs[1..]);
      forall i | 0 <= i < |ps| ensures SameValue(ps[i].value, qs[i].value) {
        if i > 0 { assert ps[i] == ps[1..][i - 1] && qs[i] == qs[1..][i - 1]; }
      }
    }
  }

  lemma FirstParam(ps: seq<Named>, qs: seq<Named>)
    requires |ps| == |qs| > 0 && ps[0].name == qs[0].name && '=' !in ps[0].name
    requires Present(ps[0].value) && Present(qs[0].value) && Comparable(ps[0].value, qs[0].value)
    requires Params(ps) == Params(qs)
    ensures ps[0].value == qs[0].value && Params(ps[1..]) == Params(qs[1..])
  {
    ParamsOfPresent(ps);
    ParamsOfPresent(qs);
    var v, w, x, y := ps[0].value.value, qs[0].value.value, Params(ps[1..]), Params(qs[1..]);
    hide Params, Assigned;
    AssignedInjective(ps[0].name, ['"'] + (v + ['"'] + x), qs[0].name, ['"'] + (w + ['"'] + y));
    SameTail(['"'], v + ['"'] + x, w + ['"'] + y);
    if QuoteFree(ps[0].value) && QuoteFree(qs[0].value) {
      FirstDelimiter(v, w, '"', x, y);
    } else {
      FirstBareQuote(v, w, x, y);
    }
  }

  /** Self-delimiting text up to the quote after it is determined by the whole. */
  lemma FirstBareQuote(v: string, w: string, x: string, y: string)
    requires SelfDelimiting(v) && SelfDelimiting(w)
    requires v + ['"'] + x == w + ['"'] + y
    ensures v == w && x == y
  {
    var s := v + "\"" + x;
    assert s == w + "\"" + y;
    ScanText(v, x);
    ScanText(w, y);
    assert v == s[..|v|] && w == s[..|w|] && x == s[|v| + 1..] && y == s[|w| + 1..];
  }

  // ---------------------------------------------------------------- the algorithm list

  lemma TokenHasNo(t: string, c: char)
    requires IsToken(t) && !IsTokenChar(c)
    ensures c !in t
  {
  }

  lemma {:induction false} JoinHasNo(arr: seq<string>, c: char)
    requires forall i :: 0 <= i < |arr| ==> IsToken(arr[i])
    requires !IsTokenChar(c) && c != ' '
    ensures c !in Join(arr, ' ')
  {
    if |arr| > 0 {
      TokenHasNo(arr[0], c);
      JoinHasNo(arr[1..], c);
    }
  }

  lemma {:induction false} JoinInjective(a: seq<string>, b: seq<string>)
    requires forall i :: 0 <= i < |a| ==> IsToken(a[i])
    requires forall i :: 0 <= i < |b| ==> IsToken(b[i])
    requires Join(a, ' ') == Join(b, ' ')
    ensures a == b
    decreases |a|
  {
    JoinHasSpace(a);
    JoinHasSpace(b);
    if |a| > 1 {
      TokenHasNo(a[0], ' ');
      TokenHasNo(b[0], ' ');
      FirstDelimiter(a[0], b[0], ' ', Join(a[1..], ' '), Join(b[1..], ' '));
      JoinInjective(a[1..], b[1..]);
      assert a == [a[0]] + a[1..] && b == [b[0]] + b[1..];
    } else if |a| == 1 {
      assert a == [a[0]] && b == [b[0]];
    }
  }

  lemma JoinHasSpace(arr: seq<string>)
    requires forall i :: 0 <= i < |arr| ==> IsToken(arr[i])
    ensures ' ' in Join(arr, ' ') <==> |arr| > 1
    ensures Join(arr, ' ') == "" <==> |arr| == 0
  {
    if |arr| > 1 {
      var rest := Join(arr[1..], ' ');
      assert Join(arr, ' ') == arr[0] + [' '] + rest;
      assert (arr[0] + [' '] + rest)[|arr[0]|] == ' ';
    } else if |arr| == 1 {
      TokenHasNo(arr[0], ' ');
    }
  }

  // ---------------------------------------------------------------- the header

  function RegistrationParams(r: Registration): seq<Named> {
    [Named("path", r.path), Named("challenge", r.challenge), Named("authorization", r.authorization),
     Named("provider_key", r.providerKey), Named("provider_session_id", r.providerSessionId),
     Named("provider_url", r.providerUrl)]
  }

  lemma RegistrationParts(r: Registration)
    ensures RegistrationText(r) == "(" + (Join(r.algorithms, ' ') + [')'] + Params(RegistrationParams(r)))
  {
    hide OptParam, Join;
    var ps := RegistrationParams(r);
    var o0, o1, o2 := OptParam("path", r.path), OptParam("challenge", r.challenge), OptParam("authorization", r.authorization);
    var o3, o4, o5 := OptParam("provider_key", r.providerKey), OptParam("provider_session_id", r.providerSessionId),
                      OptParam("provider_url", r.providerUrl);
    assert ps[5..][1..] == [] && Params(ps[5..]) == o5;
    assert ps[4..][1..] == ps[5..] && Params(ps[4..]) == o4 + o5;
    assert ps[3..][1..] == ps[4..] && Params(ps[3..]) == o3 + (o4 + o5);
    assert ps[2..][1..] == ps[3..] && Params(ps[2..]) == o2 + (o3 + (o4 + o5));
    assert ps[1..][1..] == ps[2..] && Params(ps[1..]) == o1 + (o2 + (o3 + (o4 + o5)));
    assert Params(ps) == o0 + (o1 + (o2 + (o3 + (o4 + o5))));
    assert o0 + o1 + o2 + o3 + o4 + o5 == o0 + (o1 + (o2 + (o3 + (o4 + o5))));
    assert "(" + Join(r.algorithms, ' ') + ")" + o0 + o1 + o2 + o3 + o4 + o5
        == "(" + (Join(r.algorithms, ' ') + [')'] + (o0 + o1 + o2 + o3 + o4 + o5));
  }

  lemma NamesAreGood(r: Registration)
    ensures GoodNames(RegistrationParams(r))
  {
    var ps := RegistrationParams(r);
    assert '=' !in "path" && '=' !in "challenge" && '=' !in "authorization";
    assert '=' !in "provider_key" && '=' !in "provider_session_id" && '=' !in "provider_url";
    var a, b := "provider_key", "provider_url";
    assert a[9] == 'k' && b[9] == 'u';
    assert ps[3].name != ps[5].name;
    assert |ps[0].name| == 4 && |ps[1].name| == 9 && |ps[2].name| == 13 && |ps[3].name| == 12;
    assert |ps[4].name| == 19 && |ps[5].name| == 12;
  }

  predicate TokenAlgorithms(r: Registration) {
    forall i :: 0 <= i < |r.algorithms| ==> IsToken(r.algorithms[i])
  }

  /** Injective up to null = empty, for token algorithms and values that are both quote-free or both self-delimiting. */
  lemma RegistrationInjective(r: Registration, q: Registration)
    requires TokenAlgorithms(r) && TokenAlgorithms(q)
    requires Comparable(r.path, q.path) && Comparable(r.challenge, q.challenge)
    requires Comparable(r.authorization, q.authorization) && Comparable(r.providerKey, q.providerKey)
    requires Comparable(r.providerSessionId, q.providerSessionId) && Comparable(r.providerUrl, q.providerUrl)
    requires RegistrationText(r) == RegistrationText(q)
    ensures r.algorithms == q.algorithms
    ensures SameValue(r.path, q.path) && SameValue(r.challenge, q.challenge)
    ensures SameValue(r.authorization, q.authorization) && SameValue(r.providerKey, q.providerKey)
    ensures SameValue(r.providerSessionId, q.providerSessionId) && SameValue(r.providerUrl, q.providerUrl)
  {
    RegistrationParts(r);
    RegistrationParts(q);
    var ps, qs := RegistrationParams(r), RegistrationParams(q);
    var j, k := Join(r.algorithms, ' '), Join(q.algorithms, ' ');
    SameTail("(", j + [')'] + Params(ps), k + [')'] + Params(qs));
    JoinHasNo(r.algorithms, ')');
    JoinHasNo(q.algorithms, ')');
    FirstDelimiter(j, k, ')', Params(ps), Params(qs));
    JoinInjective(r.algorithms, q.algorithms);
    NamesAreGood(r);
    hide Params, Join, SameValue, Comparable, GoodNames, RegistrationText;
    ParamsInjective(ps, qs);
    assert SameValue(ps[0].value, qs[0].value) && SameValue(ps[1].value, qs[1].value);
    assert SameValue(ps[2].value, qs[2].value) && SameValue(ps[3].value, qs[3].value);
    assert SameValue(ps[4].value, qs[4].value) && SameValue(ps[5].value, qs[5].value);
  }
}
