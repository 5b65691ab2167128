/** The Set-Cookie writer of src/manager/manager.c and the way back through get_cookie. */
module SetCookie {
  import opened Wrappers
  import opened Scanning
  import opened Header
  import opened Http

  datatype CookieConfig = CookieConfig(name: string, path: string, domain: Option<string>, sameSite: Option<string>,
                                       secure: bool)

  /** What "%d" prints. */
  function Decimal(n: int): string
    decreases if n < 0 then 1 - n else n
  {
    if n < 0 then "-" + Decimal(-n)
    else if n < 10 then [(n + '0' as int) as char]
    else Decimal(n / 10) + [(n % 10 + '0' as int) as char]
  }

  function Flag(text: string, on: bool): string {
    if on then text else ""
  }

  function Attribute(text: string, v: Option<string>): string {
    if Present(v) then text + v.value else ""
  }

  function CookieHead(c: CookieConfig, value: string, maxAge: int): string {
    c.name + "=" + value + "; Path=" + c.path + "; Max-Age=" + Decimal(maxAge) + "; HttpOnly" + Flag("; Secure", c.secure)
  }

  function SetCookieText(c: CookieConfig, value: string, maxAge: int): string {
    CookieHead(c, value, maxAge) + Attribute("; Domain=", c.domain) + Attribute("; SameSite=", c.sameSite)
  }

  method EmitAttribute(out: array<char>, w: nat, text: string, v: Option<string>) returns (w': nat)
    requires w + |Attribute(text, v)| < out.Length
    modifies out
    ensures w' == w + |Attribute(text, v)|
    ensures out[..w'] == old(out[..w]) + Attribute(text, v)
    ensures old(out[w]) == '\0' ==> out[w'] == '\0'
  {
    w' := w;
    if Present(v) {
      w' := Emit(out, w, text + v.value);
    }
  }

  /** The lengths of the two optional attributes. */
  lemma AttributeLengths(c: CookieConfig)
    ensures |Attribute("; Domain=", c.domain)| == if Present(c.domain) then |"; Domain=" + c.domain.value| else 0
    ensures |Attribute("; SameSite=", c.sameSite)|
            == |Flag("; SameSite=", Present(c.sameSite))| + (if Present(c.sameSite) then |c.sameSite.value| else 0)
  {
  }

  /** Counts the SameSite label with the head, its value apart, and the domain last. */
  method MeasureSetCookie(c: CookieConfig, value: string, maxAge: int) returns (n: nat)
    ensures n == |SetCookieText(c, value, maxAge)|
  {
    AttributeLengths(c);
    hide CookieHead, Attribute;
    n := |CookieHead(c, value, maxAge) + Flag("; SameSite=", Present(c.sameSite))|;
    if Present(c.sameSite) {
      n := n + |c.sameSite.value|;
    }
    if Present(c.domain) {
      n := n + |"; Domain=" + c.domain.value|;
    }
  }

  /** The writing pass puts the domain before SameSite; it fills exactly the measured buffer. */
  method BuildSetCookie(c: CookieConfig, value: string, maxAge: int, allocOk: bool) returns (out: array?<char>)
    ensures out == null <==> !allocOk
    ensures out != null ==> fresh(out) && Holds(out, SetCookieText(c, value, maxAge))
  {
    hide CookieHead, Attribute;
    var n := MeasureSetCookie(c, value, maxAge);
    if !allocOk {
      return null;
    }
    out := new char[n + 1];
    var w := Emit(out, 0, CookieHead(c, value, maxAge));
    w := EmitAttribute(out, w, "; Domain=", c.domain);
    w := EmitAttribute(out, w, "; SameSite=", c.sameSite);
  }

  // ---------------------------------------------------------------- the way back

  /** What stands between two ';' of a Cookie header: a pair, or text without '='. */
  datatype Cookie = Pair(name: string, value: string) | Bare(text: string)

  /** Text without a ';', whose name has no '=' and no leading blank. */
  predicate Sendable(c: Cookie) {
    match c
    case Pair(name, value) =>
      && (forall i :: 0 <= i < |name| ==> name[i] != '=' && name[i] != ';')
      && (|name| > 0 ==> !IsBlank(name[0]))
      && (forall i :: 0 <= i < |value| ==> value[i] != ';')
    case Bare(text) =>
      (|text| > 0 ==> !IsBlank(text[0])) && forall i :: 0 <= i < |text| ==> text[i] != '=' && text[i] != ';'
  }

  function CookieText(c: Cookie): string {
    match c
    case Pair(name, value) => name + "=" + value
    case Bare(text) => text
  }

  /** A cookie with the blanks in front of it. */
  datatype Sent = Sent(lead: string, cookie: Cookie)

  predicate GoodSent(x: Sent) {
    Sendable(x.cookie) && forall i :: 0 <= i < |x.lead| ==> IsBlank(x.lead[i])
  }

  /** A Cookie header: its cookies, each after any number of blanks, separated by ';'. */
  function CookieHeader(xs: seq<Sent>): string {
    if |xs| == 0 then ""
    else if |xs| == 1 then xs[0].lead + CookieText(xs[0].cookie)
    else xs[0].lead + CookieText(xs[0].cookie) + ([';'] + CookieHeader(xs[1..]))
  }

  /** The value of the first pair with the name, if no bare cookie comes before it. */
  function FirstNamed(xs: seq<Sent>, name: string): Option<string> {
    if |xs| == 0 || xs[0].cookie.Bare? then None
    else if xs[0].cookie.name == name then Some(xs[0].cookie.value)
    else FirstNamed(xs[1..], name)
  }

  /** One cookie at the front of a header, with any blanks before it. */
  lemma CookieAtFront(blank: string, c: Cookie, rest: string, name: string)
    requires Sendable(c) && (forall i :: 0 <= i < |blank| ==> IsBlank(blank[i]))
    requires rest == "" || rest[0] == ';'
    ensures Lookup(SplitOn(blank + CookieText(c) + rest, ';'), name)
         == if c.Bare? then None
            else if c.name == name then Some(c.value)
            else if rest == "" then None else Lookup(SplitOn(rest[1..], ';'), name)
  {
    hide Lookup, SplitOn;
    match c
    case Pair(n, v) => PairAtFront(blank, n, v, rest, name);
    case Bare(text) => BareAtFront(blank, text, rest, name);
  }

  lemma PairAtFront(blank: string, n: string, v: string, rest: string, name: string)
    requires Sendable(Pair(n, v)) && (forall i :: 0 <= i < |blank| ==> IsBlank(blank[i]))
    requires rest == "" || rest[0] == ';'
    ensures Lookup(SplitOn(blank + CookieText(Pair(n, v)) + rest, ';'), name)
         == if n == name then Some(v) else if rest == "" then None else Lookup(SplitOn(rest[1..], ';'), name)
  {
    hide Lookup, SplitOn;
    var s, start := blank + CookieText(Pair(n, v)) + rest, |blank|;
    var eq := start + |n|;
    PairCharacters(blank, n, v, rest);
    assert s[0..] == s;
    KeyValue(s, 0, start, eq, eq + 1 + |v|, name);
  }

  lemma BareAtFront(blank: string, text: string, rest: string, name: string)
    requires Sendable(Bare(text)) && (forall i :: 0 <= i < |blank| ==> IsBlank(blank[i]))
    requires rest == "" || rest[0] == ';'
    ensures Lookup(SplitOn(blank + text + rest, ';'), name) == None
  {
    hide Lookup, SplitOn;
    var s, start, stop := blank + text + rest, |blank|, |blank| + |text|;
    assert forall i :: 0 <= i < start ==> s[i] == blank[i];
    assert forall i :: start <= i < stop ==> s[i] == text[i - start];
    assert stop < |s| ==> s[stop] == rest[0];
    assert s[0..] == s;
    if start < |s| {
      NoEquals(s, 0, start, stop, name);
    } else {
      BlankSegment(s, 0, name);
    }
  }

  lemma PairCharacters(blank: string, name: string, value: string, rest: string)
    ensures var s, start := blank + CookieText(Pair(name, value)) + rest, |blank|;
            var eq := start + |name|;
            var stop := eq + 1 + |value|;
            && |s| == stop + |rest| && s[eq] == '='
            && (forall i :: 0 <= i < start ==> s[i] == blank[i])
            && (forall i :: start <= i < eq ==> s[i] == name[i - start])
            && (forall i :: eq < i < stop ==> s[i] == value[i - eq - 1])
            && s[start..eq] == name && s[eq + 1..stop] == value
            && (stop < |s| ==> s[stop] == rest[0] && s[stop + 1..] == rest[1..])
  {
  }

  /**
   Among any cookies, with any blanks before each, the first pair with the wanted name is
   the one returned, provided no cookie without '=' comes before it: there the search ends.
   */
  lemma {:induction false} CookieRoundTrip(xs: seq<Sent>, name: string)
    requires |xs| > 0 && forall i :: 0 <= i < |xs| ==> GoodSent(xs[i])
    ensures Lookup(SplitOn(CookieHeader(xs), ';'), name) == FirstNamed(xs, name)
    decreases |xs|
  {
    hide Lookup, SplitOn, Sendable, CookieText;
    var x := xs[0];
    assert GoodSent(x);
    if |xs| == 1 {
      assert CookieHeader(xs) == x.lead + CookieText(x.cookie) + "";
      CookieAtFront(x.lead, x.cookie, "", name);
    } else {
      var tail := CookieHeader(xs[1..]);
      assert ([';'] + tail)[1..] == tail;
      CookieAtFront(x.lead, x.cookie, [';'] + tail, name);
      assert forall i :: 0 <= i < |xs[1..]| ==> xs[1..][i] == xs[i + 1];
      CookieRoundTrip(xs[1..], name);
    }
  }

  /** The piece up to the first ';' as a cookie with its blanks. */
  lemma PieceIsSent(piece: string) returns (x: Sent)
    requires ';' !in piece
    ensures GoodSent(x) && piece == x.lead + CookieText(x.cookie)
  {
    var n := Span(piece, IsBlank);
    var text := piece[n..];
    var eq := Until(text, '=');
    x := Sent(piece[..n], if eq == |text| then Bare(text) else Pair(text[..eq], text[eq + 1..]));
    hide Span, Until;
    if eq < |text| {
      assert text == text[..eq] + "=" + text[eq + 1..];
    }
  }

  /** Every header is of that form, so the round trip says what the search returns on any text. */
  lemma {:induction false} EveryHeaderIsSent(s: string) returns (xs: seq<Sent>)
    ensures |xs| > 0 && (forall i :: 0 <= i < |xs| ==> GoodSent(xs[i])) && s == CookieHeader(xs)
    decreases |s|
  {
    hide Sendable, CookieText;
    var n := Until(s, ';');
    var x := PieceIsSent(s[..n]);
    if n == |s| {
      xs := [x];
      assert s[..n] == s;
    } else {
      var rest := EveryHeaderIsSent(s[n + 1..]);
      xs := [x] + rest;
      assert xs[1..] == rest;
      assert s == s[..n] + ([';'] + s[n + 1..]);
    }
  }

  /** A cookie without '=' hides every cookie after it. */
  lemma BareCookieHides(text: string, xs: seq<Sent>, name: string)
    requires Sendable(Bare(text)) && forall i :: 0 <= i < |xs| ==> GoodSent(xs[i])
    ensures Lookup(SplitOn(CookieHeader([Sent("", Bare(text))] + xs), ';'), name) == None
  {
    hide Lookup, SplitOn, CookieHeader;
    var all := [Sent("", Bare(text))] + xs;
    assert forall i :: 1 <= i < |all| ==> all[i] == xs[i - 1];
    CookieRoundTrip(all, name);
  }
}
