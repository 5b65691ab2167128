/** What the written headers say when they are read back, and the small tables behind them, written out. */
module HeaderReading {
  import opened Wrappers
  import opened Scanning
  import opened Header
  import opened HeaderLaws
  import opened Http
  import opened Skipped
  import opened SkippedGrammar

  // ---------------------------------------------------------------- parameters

  /** All parameters of a header, with the parser of the skipped list. */
  function ReadAll(s: string): Option<seq<(string, string)>>
    decreases |s|
  {
    if |s| == 0 then Some([])
    else if s[0] != ';' then None
    else
      var p := ParseParam(s);
      if p.None? then None
      else
        var rest := ReadAll(p.value.rest);
        if rest.None? then None else Some([(p.value.key, p.value.value)] + rest.value)
  }

  /** The names and values of what is present and not empty. */
  function Shown(ps: seq<Named>): seq<(string, string)> {
    if |ps| == 0 then []
    else (if Present(ps[0].value) then [(ps[0].name, ps[0].value.value)] else []) + Shown(ps[1..])
  }

  lemma ParamIsForm(name: string, v: string)
    ensures Param(name, v) == ParamText(ParamForm("", name, "", "", v))
  {
    var q := ['"'] + (v + ['"']);
    var form := ParamForm("", name, "", "", v);
    assert "" + q == q && "" + (['='] + q) == ['='] + q && "" + (name + (['='] + q)) == name + (['='] + q);
    assert ParamText(form) == [';'] + (name + (['='] + q));
    assert Param(name, v) == [';'] + (name + (['='] + q));
  }

  /** One parameter in front, or none. */
  lemma OneRead(p: Named, rest: string)
    requires IsToken(p.name) && Scannable(p.value) && ReadAll(rest).Some?
    ensures ReadAll(OptParam(p.name, p.value) + rest)
         == Some((if Present(p.value) then [(p.name, p.value.value)] else []) + ReadAll(rest).value)
  {
    hide IsTokenChar, SelfDelimiting, ParseParam, ParamText;
    if Present(p.value) {
      var form := ParamForm("", p.name, "", "", p.value.value);
      ParamIsForm(p.name, p.value.value);
      assert GoodParam(form);
      ParamForms(form, rest);
      hide Param;
      assert ReadAll(ParamText(form) + rest) == Some([(p.name, p.value.value)] + ReadAll(rest).value);
    } else {
      assert "" + rest == rest && [] + ReadAll(rest).value == ReadAll(rest).value;
    }
  }

  lemma {:induction false} ParamsRead(ps: seq<Named>)
    requires forall i :: 0 <= i < |ps| ==> IsToken(ps[i].name) && Scannable(ps[i].value)
    ensures ReadAll(Params(ps)) == Some(Shown(ps))
  {
    hide IsToken, Scannable, OptParam;
    if |ps| > 0 {
      ParamsRead(ps[1..]);
      OneRead(ps[0], Params(ps[1..]));
      hide ReadAll;
    }
  }

  // ---------------------------------------------------------------- registration and challenge

  /** The strings between spaces. */
  lemma {:induction false} JoinSplits(arr: seq<string>)
    requires |arr| > 0 && forall i :: 0 <= i < |arr| ==> ' ' !in arr[i]
    ensures SplitOn(Join(arr, ' '), ' ') == arr
  {
    if |arr| == 1 {
      UntilIs(arr[0], ' ', |arr[0]|);
    } else {
      hide Until;
      assert forall i :: 0 <= i < |arr[1..]| ==> arr[1..][i] == arr[i + 1];
      JoinSplits(arr[1..]);
      UntilDelimiter(arr[0], ' ', Join(arr[1..], ' '));
    }
  }

  lemma NamesAreTokens()
    ensures IsToken("path") && IsToken("challenge") && IsToken("authorization") && IsToken("provider_key")
    ensures IsToken("provider_session_id") && IsToken("provider_url") && IsToken("id")
  {
  }

  predicate AllScannable(r: Registration) {
    Scannable(r.path) && Scannable(r.challenge) && Scannable(r.authorization) && Scannable(r.providerKey)
    && Scannable(r.providerSessionId) && Scannable(r.providerUrl)
  }

  /**
   The registration header reads back as the algorithms, between parentheses and spaces,
   and the six fields under their names, in order, without those that are null or empty.
   */
  lemma RegistrationReads(r: Registration)
    requires |r.algorithms| > 0 && TokenAlgorithms(r) && AllScannable(r)
    ensures var s := RegistrationText(r);
            var n := Until(s, ')');
            && n < |s| && s[0] == '(' && 0 < n && SplitOn(s[1..n], ' ') == r.algorithms
            && ReadAll(s[n + 1..])
               == Some(Shown([Named("path", r.path), Named("challenge", r.challenge), Named("authorization", r.authorization),
                              Named("provider_key", r.providerKey), Named("provider_session_id", r.providerSessionId),
                              Named("provider_url", r.providerUrl)]))
  {
    var ps := RegistrationParams(r);
    var algs, params := Join(r.algorithms, ' '), Params(ps);
    RegistrationParts(r);
    NamesAreTokens();
    hide IsToken, Params, Join, Scannable, RegistrationText, ReadAll, Shown;
    forall i | 0 <= i < |ps| ensures IsToken(ps[i].name) && Scannable(ps[i].value) {
    }
    ParamsRead(ps);
    JoinHasNo(r.algorithms, ')');
    forall i | 0 <= i < |r.algorithms| ensures ' ' !in r.algorithms[i] {
      TokenHasNo(r.algorithms[i], ' ');
    }
    JoinSplits(r.algorithms);
    ParenthesesSplit(algs, params);
  }

  lemma ParenthesesSplit(algs: string, params: string)
    requires ')' !in algs
    ensures var s := "(" + (algs + [')'] + params);
            Until(s, ')') == |algs| + 1 && s[1..|algs| + 1] == algs && s[|algs| + 2..] == params
  {
    var s := "(" + (algs + [')'] + params);
    assert s[|algs| + 1] == ')' && forall i :: 1 <= i < |algs| + 1 ==> s[i] == algs[i - 1];
    UntilIs(s, ')', |algs| + 1);
  }

  /** The challenge header reads back as the quoted challenge and, if there is one, the identifier under "id". */
  lemma ChallengeReads(value: string, sessionId: Option<string>)
    requires SelfDelimiting(value) && Scannable(sessionId)
    ensures var r := ParseValue(ChallengeText(value, sessionId));
            && r.Some? && r.value.1 == value
            && ReadAll(r.value.0) == Some(if sessionId.Some? && sessionId.value != "" then [("id", sessionId.value)] else [])
  {
    QuotedFirst(value, OptParam("id", sessionId));
    IdReads(sessionId);
    hide SelfDelimiting, ParseValue, OptParam, ReadAll, Scannable;
  }

  lemma NothingToRead()
    ensures ReadAll("") == Some([])
  {
  }

  lemma IdReads(sessionId: Option<string>)
    requires Scannable(sessionId)
    ensures ReadAll(OptParam("id", sessionId))
         == Some(if sessionId.Some? && sessionId.value != "" then [("id", sessionId.value)] else [])
  {
    hide IsToken, Scannable, OptParam, ReadAll;
    NamesAreTokens();
    NothingToRead();
    OneRead(Named("id", sessionId), "");
    assert OptParam("id", sessionId) + "" == OptParam("id", sessionId);
    var shown: seq<(string, string)> := if Present(sessionId) then [("id", sessionId.value)] else [];
    assert shown + [] == shown;
  }

  lemma QuotedFirst(value: string, rest: string)
    requires SelfDelimiting(value)
    ensures ParseValue(Quoted(value) + rest) == Some((rest, value))
  {
    hide SelfDelimiting, ParseValue;
    ValueForm(ParamForm("", "", "", "", value), rest);
    assert "" + (['"'] + (value + ['"'] + rest)) == Quoted(value) + rest;
  }

  /** The one-string headers read back as that string. */
  lemma QuotedReads(value: string)
    requires SelfDelimiting(value)
    ensures Unquote(Quoted(value)) == Some(value) && ParseValue(Quoted(value)) == Some(("", value))
  {
    hide SelfDelimiting, ParseValue, Unquote;
    UnquoteQuoted(value);
    QuotedFirst(value, "");
    assert Quoted(value) + "" == Quoted(value);
  }

  // ---------------------------------------------------------------- reasons

  /** Each of the three reasons is kept with its identifier; any other token is parsed and dropped. */
  lemma ThreeReasons(reason: string, sid: string)
    requires IsToken(reason) && SelfDelimiting(sid)
    ensures ParseItems(reason + ";session_identifier=\"" + sid + "\"")
         == Some(if reason == "unreachable" || reason == "server_error" || reason == "quota_exceeded"
                 then [Skip(reason, sid)] else [])
  {
    var x := ItemForm(reason, [ParamForm("", "session_identifier", "", "", sid)], "");
    IdentifierItem(reason, sid);
    ItemsForms([x]);
    KeptAlone(x, sid);
    hide ParseItems, IsToken, SelfDelimiting, ItemsText, GoodItems, KeptOf;
  }

  lemma KeptAlone(x: ItemForm, sid: string)
    requires x.params == [ParamForm("", "session_identifier", "", "", sid)]
    ensures KeptOf([x]) == if x.reason == "unreachable" || x.reason == "server_error" || x.reason == "quota_exceeded"
                           then [Skip(x.reason, sid)] else []
  {
    assert [x][1..] == [] && x.params[1..] == [];
    assert LastSid(x.params, None) == Some(sid);
    assert Item(x.reason, Some(sid)) + [] == Item(x.reason, Some(sid));
  }

  lemma IdentifierItem(reason: string, sid: string)
    requires IsToken(reason) && SelfDelimiting(sid)
    ensures var x := ItemForm(reason, [ParamForm("", "session_identifier", "", "", sid)], "");
            GoodItems([x]) && ItemsText([x]) == reason + ";session_identifier=\"" + sid + "\""
  {
    var form := ParamForm("", "session_identifier", "", "", sid);
    var x := ItemForm(reason, [form], "");
    SessionIdentifierIsToken();
    hide SelfDelimiting, IsToken, IsTokenChar;
    assert GoodParam(form);
    ParamIsForm("session_identifier", sid);
    assert [x][1..] == [] && [form][1..] == [];
    var t := ParamText(form);
    hide ParamText;
    assert ParamsText([form]) == t + "" && t + "" == t;
    assert ItemText(x) == reason + t by { assert t + "" == t; }
    assert ItemsText([x]) == reason + t + "";
    assert reason + ";session_identifier=\"" + sid + "\"" == reason + Param("session_identifier", sid);
  }

  lemma SessionIdentifierIsToken()
    ensures AllToken("session_identifier") && |"session_identifier"| == 18
  {
  }

  // ---------------------------------------------------------------- characters

  /** The token characters of section 3.3.4 of RFC 9651: those of section 5.6.2 of RFC 9110, ':' and '/'. */
  lemma TokenCharacters(c: char)
    ensures IsTokenChar(c) <==>
            'a' <= c <= 'z' || 'A' <= c <= 'Z' || '0' <= c <= '9'
            || c in ['!', '#', '$', '%', '&', '\'', '*', '+', '-', '.', '^', '_', '`', '|', '~', ':', '/']
  {
  }

  /** Whitespace is space, tab, line feed, vertical tab, form feed and carriage return. */
  lemma SpaceCharacters(c: char)
    ensures IsSpace(c) <==> c == ' ' || 9 <= c as int <= 13
    ensures IsSeparator(c) <==> IsSpace(c) || c == ','
    ensures IsBlank(c) <==> c as int == 32 || c as int == 9
  {
  }

  // ---------------------------------------------------------------- self-delimiting text

  /** One character that is neither a quote nor a backslash, or a backslash with any character after it. */
  predicate IsPiece(p: string) {
    (|p| == 1 && p[0] != '"' && p[0] != '\\') || (|p| == 2 && p[0] == '\\')
  }

  function Flat(ps: seq<string>): string {
    if |ps| == 0 then "" else ps[0] + Flat(ps[1..])
  }

  lemma {:induction false} PiecesDelimit(ps: seq<string>)
    requires forall i :: 0 <= i < |ps| ==> IsPiece(ps[i])
    ensures SelfDelimiting(Flat(ps))
  {
    if |ps| > 0 {
      var p, rest := ps[0], Flat(ps[1..]);
      assert IsPiece(p);
      PiecesDelimit(ps[1..]);
      assert (p + rest)[|p|..] == rest;
    }
  }

  lemma {:induction false} DelimitedPieces(t: string) returns (ps: seq<string>)
    requires SelfDelimiting(t)
    ensures (forall i :: 0 <= i < |ps| ==> IsPiece(ps[i])) && t == Flat(ps)
    decreases |t|
  {
    if |t| == 0 {
      ps := [];
    } else {
      var n := if t[0] == '\\' then 2 else 1;
      var rest := DelimitedPieces(t[n..]);
      ps := [t[..n]] + rest;
      assert ps[1..] == rest && t == t[..n] + t[n..];
    }
  }

  ghost predicate InPieces(t: string, ps: seq<string>) {
    (forall i :: 0 <= i < |ps| ==> IsPiece(ps[i])) && t == Flat(ps)
  }

  /** Self-delimiting text is made of such pieces. */
  lemma SelfDelimitingIff(t: string)
    ensures SelfDelimiting(t) <==> exists ps :: InPieces(t, ps)
  {
    if SelfDelimiting(t) {
      var ps := DelimitedPieces(t);
      assert InPieces(t, ps);
    }
    forall ps | InPieces(t, ps) ensures SelfDelimiting(t) {
      PiecesDelimit(ps);
    }
  }

  // ---------------------------------------------------------------- quotes

  /** The quote stripper takes off one pair of outer quotes and leaves every other text as it is. */
  lemma StripQuotesIs(t: string)
    ensures StripQuotes(Quoted(t)) == t
    ensures (|t| < 2 || t[0] != '"' || t[|t| - 1] != '"') ==> StripQuotes(t) == t
    ensures |t| >= 2 && t[0] == t[|t| - 1] == '"' ==> Quoted(StripQuotes(t)) == t
  {
    if |t| >= 2 && t[0] == t[|t| - 1] == '"' {
      assert t == [t[0]] + t[1..|t| - 1] + [t[|t| - 1]];
    }
  }
}
