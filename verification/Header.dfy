/**
 The structured headers of src/protocol/header.c: serializers that measure and then
 write, and the quoted-string reader.
 */
module Header {
  import opened Wrappers
  import opened Scanning

  predicate IsSpace(c: char) {
    c == ' ' || c == '\t' || c == '\r' || c == '\n' || c == 12 as char || c == 11 as char
  }

  /** A character of a structured-header token. */
  predicate IsTokenChar(c: char) {
    'A' <= c <= 'Z' || 'a' <= c <= 'z' || '0' <= c <= '9' || c == '!' || c == '#' || c == '$' || c == '%' || c == '&'
    || c == '\'' || c == '*' || c == '+' || c == '-' || c == '.' || c == '^' || c == '_' || c == '`' || c == '|'
    || c == '~' || c == ':' || c == '/'
  }

  predicate IsToken(t: string) {
    |t| > 0 && forall i :: 0 <= i < |t| ==> IsTokenChar(t[i])
  }

  predicate AllSpace(s: string) {
    forall i :: 0 <= i < |s| ==> IsSpace(s[i])
  }

  function Quoted(t: string): string {
    "\"" + t + "\""
  }

  // ---------------------------------------------------------------- the quoted-string reader

  /** Optional whitespace, a quoted string, optional whitespace. */
  function Unquote(v: string): Option<string> {
    var a := Span(v, IsSpace);
    if a == |v| || v[a] != '"' then None
    else
      var inside := v[a + 1..];
      var n := QuotedSpan(inside);
      if n == |inside| || Span(inside[n + 1..], IsSpace) != |inside| - n - 1 then None
      else Some(inside[..n])
  }

  method ReadQuoted(value: Option<string>, allocOk: bool) returns (r: Option<string>)
    ensures r == if value.None? || !allocOk then None else Unquote(value.value)
  {
    hide QuotedSpan, Span;
    if value.None? {
      return None;
    }
    var v := value.value;
    var a := SkipWhile(v, 0, IsSpace);
    assert v[0..] == v;
    if a == |v| || v[a] != '"' {
      return None;
    }
    var start := a + 1;
    var p := SkipQuoted(v, start);
    if p == |v| {
      return None;
    }
    var tail := SkipWhile(v, p + 1, IsSpace);
    if tail != |v| || !allocOk {
      return None;
    }
    r := Some(v[start..p]);
  }

  /** The reader accepts exactly the padded quotations of self-delimiting text. */
  lemma UnquoteIff(v: string, t: string)
    ensures Unquote(v) == Some(t) <==>
            exists a, b :: v == a + Quoted(t) + b && AllSpace(a) && AllSpace(b) && SelfDelimiting(t)
  {
    if Unquote(v) == Some(t) {
      UnquoteOnly(v, t);
    }
    forall a, b | v == a + Quoted(t) + b && AllSpace(a) && AllSpace(b) && SelfDelimiting(t)
      ensures Unquote(v) == Some(t)
    {
      UnquotePadded(a, t, b);
    }
  }

  lemma Recombine(v: string, n: nat, k: nat)
    requires n + 1 + k < |v| && v[n] == '"' && v[n + 1 + k] == '"'
    ensures v == v[..n] + Quoted(v[n + 1..][..k]) + v[n + 1..][k + 1..]
  {
    var inside := v[n + 1..];
    assert inside == inside[..k] + "\"" + inside[k + 1..];
    assert v == v[..n] + ("\"" + inside);
  }

  lemma UnquoteOnly(v: string, t: string)
    requires Unquote(v) == Some(t)
    ensures exists a, b :: v == a + Quoted(t) + b && AllSpace(a) && AllSpace(b) && SelfDelimiting(t)
  {
    hide SelfDelimiting, QuotedSpan, Span, Quoted;
    var n := Span(v, IsSpace);
    var inside := v[n + 1..];
    ScannedIsSelfDelimiting(inside);
    Recombine(v, n, |t|);
    var a, b := v[..n], inside[|t| + 1..];
    assert AllSpace(a);
    assert AllSpace(b);
  }

  lemma UnquotePadded(a: string, t: string, b: string)
    requires AllSpace(a) && AllSpace(b) && SelfDelimiting(t)
    ensures Unquote(a + Quoted(t) + b) == Some(t)
  {
    hide SelfDelimiting, QuotedSpan, Span;
    var v := a + Quoted(t) + b;
    var inside := t + "\"" + b;
    assert v == a + ("\"" + inside);
    assert v[|a|] == '"' && v[|a| + 1..] == inside;
    assert Span(v, IsSpace) == |a| by {
      assert forall i :: 0 <= i < |a| ==> v[i] == a[i];
      SpanIs(v, IsSpace, |a|);
    }
    assert QuotedSpan(inside) == |t| by { ScanText(t, b); }
    assert inside[|t| + 1..] == b && inside[..|t|] == t;
    SpanIs(b, IsSpace, |b|);
  }

  /** Reading inverts quoting exactly on self-delimiting text. */
  lemma UnquoteQuoted(t: string)
    ensures Unquote(Quoted(t)) == Some(t) <==> SelfDelimiting(t)
  {
    assert Quoted(t) == "" + Quoted(t) + "";
    if SelfDelimiting(t) {
      UnquotePadded("", t, "");
    }
    if Unquote(Quoted(t)) == Some(t) {
      var v := Quoted(t);
      SpanIs(v, IsSpace, 0);
      ScannedIsSelfDelimiting(v[1..]);
    }
  }

  // ---------------------------------------------------------------- output buffers

  /** sprintf of known text at a cursor: the text, then the terminator. */
  method Emit(out: array<char>, w: nat, text: string) returns (w': nat)
    requires w + |text| < out.Length
    modifies out
    ensures w' == w + |text|
    ensures out[..w'] == old(out[..w]) + text && out[w'] == '\0'
  {
    forall i | 0 <= i < |text| { out[w + i] := text[i]; }
    w' := w + |text|;
    out[w'] := '\0';
  }

  /** A buffer that holds exactly one C string: the text, its terminator, and no more. */
  ghost predicate Holds(out: array<char>, text: string)
    reads out
  {
    out.Length == |text| + 1 && out[..|text|] == text && out[|text|] == '\0'
  }

  function Join(arr: seq<string>, sep: char): string {
    if |arr| == 0 then "" else if |arr| == 1 then arr[0] else arr[0] + [sep] + Join(arr[1..], sep)
  }

  lemma {:induction false} JoinNext(arr: seq<string>, i: nat, sep: char)
    requires 0 < i < |arr|
    ensures Join(arr[..i + 1], sep) == Join(arr[..i], sep) + [sep] + arr[i]
    decreases i
  {
    if i == 1 {
      assert arr[..2][1..] == [arr[1]];
    } else {
      assert arr[..i + 1][1..] == arr[1..][..i] && arr[..i][1..] == arr[1..][..i - 1];
      JoinNext(arr[1..], i - 1, sep);
      assert arr[0] + [sep] + (Join(arr[1..][..i - 1], sep) + [sep] + arr[i])
          == (arr[0] + [sep] + Join(arr[1..][..i - 1], sep)) + [sep] + arr[i];
    }
  }

  /** The lengths of the strings, without separators. */
  function TotalLength(arr: seq<string>): nat {
    if |arr| == 0 then 0 else |arr[|arr| - 1]| + TotalLength(arr[..|arr| - 1])
  }

  lemma {:induction false} JoinLength(arr: seq<string>, i: nat, sep: char)
    requires 0 < i <= |arr|
    ensures |Join(arr[..i], sep)| == TotalLength(arr[..i]) + i - 1
    ensures i < |arr| ==> TotalLength(arr[..i + 1]) == TotalLength(arr[..i]) + |arr[i]|
    decreases i
  {
    if i < |arr| { assert arr[..i + 1][..i] == arr[..i]; }
    if i > 1 {
      JoinNext(arr, i - 1, sep);
      JoinLength(arr, i - 1, sep);
    } else {
      assert arr[..1] == [arr[0]] && arr[..1][..0] == [];
    }
  }

  lemma {:induction false} TotalLengthMonotone(arr: seq<string>, i: nat)
    requires i <= |arr|
    ensures TotalLength(arr[..i]) <= TotalLength(arr)
    decreases |arr| - i
  {
    if i < |arr| {
      assert arr[..i + 1][..i] == arr[..i];
      TotalLengthMonotone(arr, i + 1);
    } else {
      assert arr[..i] == arr;
    }
  }

  /** What the copying loop has written before turn i. */
  ghost function Written(arr: seq<string>, i: nat, sep: char): string
    requires i <= |arr|
  {
    Join(arr[..i], sep) + (if 0 < i < |arr| then [sep] else "")
  }

  lemma WrittenStep(arr: seq<string>, i: nat, sep: char)
    requires i < |arr|
    ensures Written(arr, i + 1, sep) == Written(arr, i, sep) + arr[i] + (if i + 1 < |arr| then [sep] else "")
    ensures |Written(arr, i + 1, sep)| <= TotalLength(arr) + |arr| - 1
    ensures Written(arr, |arr|, sep) == Join(arr, sep) && |Join(arr, sep)| == TotalLength(arr) + |arr| - 1
  {
    if i > 0 {
      JoinNext(arr, i, sep);
    } else {
      assert arr[..1] == [arr[0]];
    }
    JoinLength(arr, i + 1, sep);
    TotalLengthMonotone(arr, i + 1);
    JoinLength(arr, |arr|, sep);
    assert arr[..|arr|] == arr;
  }

  method JoinedLength(arr: seq<string>) returns (total: nat)
    ensures total == TotalLength(arr)
  {
    total := 0;
    for i := 0 to |arr|
      invariant total == TotalLength(arr[..i])
    {
      assert arr[..i + 1][..i] == arr[..i];
      total := total + |arr[i]|;
    }
    assert arr[..|arr|] == arr;
  }

  /** memcpy of a string at a cursor. */
  method CopyAt(out: array<char>, pos: nat, text: string) returns (pos': nat)
    requires pos + |text| <= out.Length
    modifies out
    ensures pos' == pos + |text| && out[..pos'] == old(out[..pos]) + text
  {
    forall k | 0 <= k < |text| { out[pos + k] := text[k]; }
    pos' := pos + |text|;
  }

  /** Adds up the lengths, then copies string by string with a separator in between. */
  method JoinStrings(arr: seq<string>, sep: char, allocOk: bool) returns (out: array?<char>)
    ensures out == null <==> !allocOk
    ensures out != null ==> fresh(out) && Holds(out, Join(arr, sep))
  {
    if !allocOk {
      return null;
    }
    if |arr| == 0 {
      out := new char[1](_ => '\0');
      return;
    }
    var total := JoinedLength(arr);
    total := total + (|arr| - 1);
    out := new char[total + 1];
    var pos: nat := 0;
    WrittenStep(arr, 0, sep);
    hide Join;
    for i := 0 to |arr|
      invariant pos <= total && out[..pos] == Written(arr, i, sep)
      invariant i == 0 ==> pos == 0
    {
      WrittenStep(arr, i, sep);
      pos := CopyAt(out, pos, arr[i]);
      if i + 1 < |arr| {
        ghost var before := out[..pos];
        out[pos] := sep;
        assert out[..pos + 1] == before + [sep];
        pos := pos + 1;
      }
    }
    out[pos] := '\0';
  }

  // ---------------------------------------------------------------- serializers

  predicate Present(v: Option<string>) {
    v.Some? && v.value != ""
  }

  function Param(name: string, v: string): string {
    ";" + name + "=" + Quoted(v)
  }

  function OptParam(name: string, v: Option<string>): string {
    if Present(v) then Param(name, v.value) else ""
  }

  datatype Registration = Registration(
    algorithms: seq<string>,
    path: Option<string>,
    challenge: Option<string>,
    authorization: Option<string>,
    providerKey: Option<string>,
    providerSessionId: Option<string>,
    providerUrl: Option<string>)

  function RegistrationText(r: Registration): string {
    "(" + Join(r.algorithms, ' ') + ")"
    + OptParam("path", r.path) + OptParam("challenge", r.challenge) + OptParam("authorization", r.authorization)
    + OptParam("provider_key", r.providerKey) + OptParam("provider_session_id", r.providerSessionId)
    + OptParam("provider_url", r.providerUrl)
  }

  /** One optional parameter of the measuring pass. */
  method Measure(n: nat, name: string, v: Option<string>) returns (n': nat)
    ensures n' == n + |OptParam(name, v)|
  {
    n' := n;
    if Present(v) {
      n' := n + |Param(name, v.value)|;
    }
  }

  /** One optional parameter of the writing pass. */
  method EmitParam(out: array<char>, w: nat, name: string, v: Option<string>) returns (w': nat)
    requires w + |OptParam(name, v)| < out.Length
    modifies out
    ensures w' == w + |OptParam(name, v)|
    ensures out[..w'] == old(out[..w]) + OptParam(name, v)
    ensures out[w'] == if Present(v) then '\0' else old(out[w])
  {
    w' := w;
    if Present(v) {
      w' := Emit(out, w, Param(name, v.value));
    }
  }

  /** Three optional parameters in a row. */
  method EmitThree(out: array<char>, w: nat, n1: string, v1: Option<string>, n2: string, v2: Option<string>,
                   n3: string, v3: Option<string>) returns (w': nat)
    requires w + |OptParam(n1, v1)| + |OptParam(n2, v2)| + |OptParam(n3, v3)| < out.Length
    modifies out
    ensures w' == w + |OptParam(n1, v1)| + |OptParam(n2, v2)| + |OptParam(n3, v3)|
    ensures out[..w'] == old(out[..w]) + OptParam(n1, v1) + OptParam(n2, v2) + OptParam(n3, v3)
    ensures old(out[w]) == '\0' ==> out[w'] == '\0'
  {
    hide OptParam;
    w' := EmitParam(out, w, n1, v1);
    w' := EmitParam(out, w', n2, v2);
    w' := EmitParam(out, w', n3, v3);
  }

  method MeasureRegistration(r: Registration, algs: string) returns (n: nat)
    requires algs == Join(r.algorithms, ' ')
    ensures n == |RegistrationText(r)|
  {
    hide OptParam, Join;
    n := |"(" + algs + ")"|;
    n := Measure(n, "path", r.path);
    n := Measure(n, "challenge", r.challenge);
    n := Measure(n, "authorization", r.authorization);
    n := Measure(n, "provider_key", r.providerKey);
    n := Measure(n, "provider_session_id", r.providerSessionId);
    n := Measure(n, "provider_url", r.providerUrl);
  }

  method WriteRegistration(r: Registration, algs: string, out: array<char>)
    requires algs == Join(r.algorithms, ' ') && out.Length == |RegistrationText(r)| + 1
    modifies out
    ensures Holds(out, RegistrationText(r))
  {
    hide OptParam, Join;
    var w := Emit(out, 0, "(" + algs + ")");
    w := EmitThree(out, w, "path", r.path, "challenge", r.challenge, "authorization", r.authorization);
    w := EmitThree(out, w, "provider_key", r.providerKey, "provider_session_id", r.providerSessionId,
                   "provider_url", r.providerUrl);
  }

  method SerializeRegistration(r: Registration, joinAlloc: bool, outAlloc: bool) returns (out: array?<char>)
    ensures out == null <==> !(joinAlloc && outAlloc)
    ensures out != null ==> fresh(out) && Holds(out, RegistrationText(r))
  {
    var joined := JoinStrings(r.algorithms, ' ', joinAlloc);
    if joined == null {
      return null;
    }
    var algs := joined[..joined.Length - 1];
    var n := MeasureRegistration(r, algs);
    if !outAlloc {
      return null;
    }
    out := new char[n + 1];
    WriteRegistration(r, algs, out);
  }

  function ChallengeText(value: string, sessionId: Option<string>): string {
    Quoted(value) + OptParam("id", sessionId)
  }

  method SerializeChallenge(value: Option<string>, sessionId: Option<string>, allocOk: bool) returns (out: array?<char>)
    ensures out == null <==> value.None? || !allocOk
    ensures out != null ==> fresh(out) && Holds(out, ChallengeText(value.value, sessionId))
  {
    if value.None? {
      return null;
    }
    var n := |Quoted(value.value)|;
    n := Measure(n, "id", sessionId);
    if !allocOk {
      return null;
    }
    out := new char[n + 1];
    var w := Emit(out, 0, Quoted(value.value));
    w := EmitParam(out, w, "id", sessionId);
  }

  /** Secure-Session-Response and Sec-Secure-Session-Id are one quoted string. */
  method SerializeQuoted(value: Option<string>, allocOk: bool) returns (out: array?<char>)
    ensures out == null <==> value.None? || !allocOk
    ensures out != null ==> fresh(out) && Holds(out, Quoted(value.value))
  {
    if value.None? || !allocOk {
      return null;
    }
    var n := |Quoted(value.value)|;
    out := new char[n + 1];
    var w := Emit(out, 0, Quoted(value.value));
  }
}
