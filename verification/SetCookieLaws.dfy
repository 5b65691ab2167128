/** What the Set-Cookie text says, read back attribute by attribute. */
module SetCookieLaws {
  import opened Wrappers
  import opened Scanning
  import opened Header
  import opened Http
  import opened SetCookie

  // ---------------------------------------------------------------- numbers

  predicate AllDigits(s: string) {
    forall i :: 0 <= i < |s| ==> '0' <= s[i] <= '9'
  }

  /** The number that a string of decimal digits denotes. */
  function NatValue(s: string): int {
    if |s| == 0 then 0 else NatValue(s[..|s| - 1]) * 10 + (s[|s| - 1] as int - '0' as int)
  }

  function Value(s: string): int {
    if |s| > 0 && s[0] == '-' then -NatValue(s[1..]) else NatValue(s)
  }

  /** A number is written in digits, without a leading zero, and reads back as itself. */
  lemma {:induction false} NaturalReads(n: nat)
    ensures var s := Decimal(n);
            |s| > 0 && AllDigits(s) && NatValue(s) == n && (|s| > 1 ==> s[0] != '0') && (s[0] == '0' ==> n == 0)
    decreases n
  {
    var s := Decimal(n);
    if n < 10 {
      assert s[..0] == "" && NatValue("") == 0;
    } else {
      NaturalReads(n / 10);
      assert s[..|s| - 1] == Decimal(n / 10);
    }
  }

  /** Digits without a leading zero, after a minus sign if there is one. */
  predicate IsNumeral(s: string) {
    var d := if |s| > 0 && s[0] == '-' then s[1..] else s;
    |d| > 0 && AllDigits(d) && (|d| > 1 ==> d[0] != '0')
  }

  lemma DecimalReads(n: int)
    ensures Value(Decimal(n)) == n && IsNumeral(Decimal(n))
    ensures ';' !in Decimal(n)
  {
    var s := Decimal(n);
    if n < 0 {
      NaturalReads(-n);
      assert s[1..] == Decimal(-n);
    } else {
      NaturalReads(n);
    }
  }

  // ---------------------------------------------------------------- segments

  /** Pieces with a ';' between each two. */
  function Joined(parts: seq<string>): string {
    if |parts| == 0 then "" else if |parts| == 1 then parts[0] else parts[0] + [';'] + Joined(parts[1..])
  }

  lemma {:induction false} JoinedSplits(parts: seq<string>)
    requires |parts| > 0 && forall i :: 0 <= i < |parts| ==> ';' !in parts[i]
    ensures SplitOn(Joined(parts), ';') == parts
  {
    if |parts| == 1 {
      UntilIs(parts[0], ';', |parts[0]|);
    } else {
      assert forall i :: 0 <= i < |parts[1..]| ==> parts[1..][i] == parts[i + 1];
      JoinedSplits(parts[1..]);
      UntilDelimiter(parts[0], ';', Joined(parts[1..]));
    }
  }

  lemma {:induction false} JoinedMore(parts: seq<string>, x: string)
    requires |parts| > 0
    ensures Joined(parts + [x]) == Joined(parts) + [';'] + x
  {
    if |parts| == 1 {
      assert (parts + [x])[1..] == [x];
    } else {
      assert (parts + [x])[1..] == parts[1..] + [x];
      JoinedMore(parts[1..], x);
      assert parts[0] + [';'] + (Joined(parts[1..]) + [';'] + x) == parts[0] + [';'] + Joined(parts[1..]) + [';'] + x;
    }
  }

  predicate NoSemicolon(v: Option<string>) {
    v.Some? ==> ';' !in v.value
  }

  /** The segments of the cookie, in order. */
  function Segments(c: CookieConfig, value: string, maxAge: int): seq<string> {
    [c.name + "=" + value, " Path=" + c.path, " Max-Age=" + Decimal(maxAge), " HttpOnly"]
    + (if c.secure then [" Secure"] else [])
    + (if c.domain.Some? && c.domain.value != "" then [" Domain=" + c.domain.value] else [])
    + (if c.sameSite.Some? && c.sameSite.value != "" then [" SameSite=" + c.sameSite.value] else [])
  }

  lemma HeadJoined(c: CookieConfig, value: string, maxAge: int)
    ensures CookieHead(c, value, maxAge)
         == Joined([c.name + "=" + value, " Path=" + c.path, " Max-Age=" + Decimal(maxAge), " HttpOnly"]
                   + (if c.secure then [" Secure"] else []))
  {
    hide Decimal;
    var a, b, d, h := c.name + "=" + value, " Path=" + c.path, " Max-Age=" + Decimal(maxAge), " HttpOnly";
    Four(a, b, d, h);
    assert "; Path=" == [';'] + " Path=" && "; Max-Age=" == [';'] + " Max-Age=" && "; HttpOnly" == [';'] + " HttpOnly";
    assert a + "; Path=" + c.path == a + [';'] + b;
    assert a + [';'] + b + "; Max-Age=" + Decimal(maxAge) == a + [';'] + b + [';'] + d;
    if c.secure {
      JoinedMore([a, b, d, h], " Secure");
      assert "; Secure" == [';'] + " Secure";
    } else {
      assert [a, b, d, h] + [] == [a, b, d, h];
    }
  }

  lemma Four(a: string, b: string, d: string, h: string)
    ensures Joined([a, b, d, h]) == a + [';'] + b + [';'] + d + [';'] + h
  {
    assert [a][0] == a && Joined([a]) == a;
    JoinedMore([a], b);
    JoinedMore([a, b], d);
    JoinedMore([a, b, d], h);
    assert [a] + [b] == [a, b] && [a, b] + [d] == [a, b, d] && [a, b, d] + [h] == [a, b, d, h];
  }

  lemma AttributeJoined(parts: seq<string>, prefix: string, v: Option<string>)
    requires |parts| > 0
    ensures Joined(parts) + Attribute([';'] + prefix, v)
         == Joined(parts + (if v.Some? && v.value != "" then [prefix + v.value] else []))
  {
    var j := Joined(parts);
    if v.Some? && v.value != "" {
      JoinedMore(parts, prefix + v.value);
      Associate(j, prefix, v.value);
    } else {
      assert parts + [] == parts && j + "" == j;
    }
  }

  lemma Associate(a: string, b: string, c: string)
    ensures a + ([';'] + b + c) == a + [';'] + (b + c)
  {
    assert [';'] + b + c == [';'] + (b + c);
  }

  lemma TextJoined(c: CookieConfig, value: string, maxAge: int)
    ensures SetCookieText(c, value, maxAge) == Joined(Segments(c, value, maxAge))
  {
    var head := [c.name + "=" + value, " Path=" + c.path, " Max-Age=" + Decimal(maxAge), " HttpOnly"]
                + (if c.secure then [" Secure"] else []);
    HeadJoined(c, value, maxAge);
    hide CookieHead, Decimal, Joined, Attribute;
    AttributeJoined(head, " Domain=", c.domain);
    var more := head + (if c.domain.Some? && c.domain.value != "" then [" Domain=" + c.domain.value] else []);
    AttributeJoined(more, " SameSite=", c.sameSite);
    assert "; Domain=" == [';'] + " Domain=" && "; SameSite=" == [';'] + " SameSite=";
  }

  /**
   Read back at its semicolons, the cookie has its name and value first, then Path, a
   Max-Age that denotes the lifetime, HttpOnly, Secure if configured, and Domain and
   SameSite if they are set and not empty.
   */
  lemma SetCookieReads(c: CookieConfig, value: string, maxAge: int)
    requires ';' !in c.name && ';' !in value && ';' !in c.path && NoSemicolon(c.domain) && NoSemicolon(c.sameSite)
    ensures exists age: string :: Value(age) == maxAge && IsNumeral(age)
              && SplitOn(SetCookieText(c, value, maxAge), ';')
                 == [c.name + "=" + value, " Path=" + c.path, " Max-Age=" + age, " HttpOnly"]
                    + (if c.secure then [" Secure"] else [])
                    + (if c.domain.Some? && c.domain.value != "" then [" Domain=" + c.domain.value] else [])
                    + (if c.sameSite.Some? && c.sameSite.value != "" then [" SameSite=" + c.sameSite.value] else [])
  {
    DecimalReads(maxAge);
    hide Decimal, SetCookieText;
    var parts := Segments(c, value, maxAge);
    forall i | 0 <= i < |parts| ensures ';' !in parts[i] {
    }
    TextJoined(c, value, maxAge);
    JoinedSplits(parts);
  }
}
