/**
 The base64url codec of src/protocol/jwt.c (section 5 of RFC 4648): the two
 buffer-filling loops, the functions they compute, and the laws relating them.

 Bytes and digits are integers, and the functions use multiplication, division and
 remainder by powers of two. The loops shift and mask machine words, as the C code does;
 Base64Bits relates the two.
 */
module Base64Url {
  import opened Wrappers
  import Base64Bits

  type byte = i: int | 0 <= i < 256

  const UPPER: string := "ABCDEFGHIJKLMNOPQRSTUVWXYZ"
  const LOWER: string := "abcdefghijklmnopqrstuvwxyz"
  const DIGITS: string := "0123456789"
  const TABLE: string := UPPER + LOWER + DIGITS + "-_"

  // ---------------------------------------------------------------- digits

  /** The value of one digit, or -1 for a character outside both alphabets. */
  function Digit(c: char): int {
    if 'A' <= c <= 'Z' then c as int - 'A' as int
    else if 'a' <= c <= 'z' then c as int - 'a' as int + 26
    else if '0' <= c <= '9' then c as int - '0' as int + 52
    else if c == '-' || c == '+' then 62
    else if c == '_' || c == '/' then 63
    else -1
  }

  /** The URL and filename safe alphabet of section 5 of RFC 4648. */
  predicate IsUrlChar(c: char) {
    'A' <= c <= 'Z' || 'a' <= c <= 'z' || '0' <= c <= '9' || c == '-' || c == '_'
  }

  predicate IsUrlText(s: string) {
    forall i :: 0 <= i < |s| ==> IsUrlChar(s[i])
  }

  lemma LettersAt(i: nat)
    requires i < 26
    ensures UPPER[i] == ('A' as int + i) as char
    ensures LOWER[i] == ('a' as int + i) as char
  {
  }

  /** `Digit` and `TABLE` are inverse to each other on the url alphabet. */
  lemma DigitOfTable(d: int)
    requires 0 <= d < 64
    ensures |TABLE| == 64 && IsUrlChar(TABLE[d]) && Digit(TABLE[d]) == d
  {
    if d < 26 {
      LettersAt(d);
    } else if d < 52 {
      LettersAt(d - 26);
    }
  }

  lemma TableOfDigit(c: char)
    requires IsUrlChar(c)
    ensures 0 <= Digit(c) < 64 == |TABLE| && TABLE[Digit(c)] == c
  {
    var d := Digit(c);
    if d < 26 {
      LettersAt(d);
    } else if d < 52 {
      LettersAt(d - 26);
    }
  }

  /** The text of up to four digits. */
  function Text(ds: seq<int>): (s: string)
    requires forall i :: 0 <= i < |ds| ==> 0 <= ds[i] < 64
    ensures |s| == |ds|
  {
    seq(|ds|, i requires 0 <= i < |ds| => assert |TABLE| == 64; TABLE[ds[i]])
  }

  // ---------------------------------------------------------------- encoding

  /** The digits of one group of one, two or three bytes. */
  function GroupDigits(g: seq<byte>): (ds: seq<int>)
    requires 1 <= |g| <= 3
    ensures |ds| == |g| + 1
    ensures forall i :: 0 <= i < |ds| ==> 0 <= ds[i] < 64
  {
    if |g| == 1 then [g[0] / 4, g[0] % 4 * 16]
    else if |g| == 2 then [g[0] / 4, g[0] % 4 * 16 + g[1] / 16, g[1] % 16 * 4]
    else [g[0] / 4, g[0] % 4 * 16 + g[1] / 16, g[1] % 16 * 4 + g[2] / 64, g[2] % 64]
  }

  /** Groups of three bytes become four digits; a short last group is not padded. */
  function Encode(bytes: seq<byte>): string
    decreases |bytes|
  {
    if |bytes| == 0 then ""
    else if |bytes| <= 3 then Text(GroupDigits(bytes))
    else Text(GroupDigits(bytes[..3])) + Encode(bytes[3..])
  }

  lemma {:induction false} EncodeAppend(a: seq<byte>, b: seq<byte>)
    requires |a| % 3 == 0
    ensures Encode(a + b) == Encode(a) + Encode(b)
    decreases |a|
  {
    if |a| == 0 {
      assert a + b == b;
    } else if |b| == 0 {
      assert a + b == a;
    } else {
      assert (a + b)[..3] == a[..3] && (a + b)[3..] == a[3..] + b;
      EncodeAppend(a[3..], b);
      if |a| == 3 {
        assert a[..3] == a && a[3..] == [];
      }
      assert Encode(a) == Text(GroupDigits(a[..3])) + Encode(a[3..]);
    }
  }

  /** The encoded length is the ceiling of 4n/3, over the url alphabet only. */
  lemma {:induction false} EncodeShape(bytes: seq<byte>)
    ensures |Encode(bytes)| == (4 * |bytes| + 2) / 3
    ensures IsUrlText(Encode(bytes))
    decreases |bytes|
  {
    if |bytes| > 0 {
      var g := if |bytes| <= 3 then bytes else bytes[..3];
      var ds := GroupDigits(g);
      forall i | 0 <= i < |ds| ensures IsUrlChar(Text(ds)[i]) {
        DigitOfTable(ds[i]);
      }
      if |bytes| > 3 {
        EncodeShape(bytes[3..]);
      }
    }
  }

  // ---------------------------------------------------------------- decoding

  function Repeat(c: char, n: nat): (s: string)
    ensures |s| == n && forall i :: 0 <= i < n ==> s[i] == c
  {
    seq(n, _ => c)
  }

  /** The input followed by the padding the C code adds before decoding. */
  function Padded(s: string): (p: string)
    ensures |p| % 4 == 0
  {
    s + Repeat('=', (4 - |s| % 4) % 4)
  }

  /** One block of four characters; None where the C loop gives up. */
  function DecodeBlock(c0: char, c1: char, c2: char, c3: char): (r: Option<seq<byte>>)
    ensures r.Some? ==> 1 <= |r.value| <= 3
  {
    var d0, d1 := Digit(c0), Digit(c1);
    var d2 := if c2 == '=' then 0 else Digit(c2);
    var d3 := if c3 == '=' then 0 else Digit(c3);
    if d0 < 0 || d1 < 0 || (c2 != '=' && d2 < 0) || (c3 != '=' && d3 < 0) then None
    else Some([d0 * 4 + d1 / 16]
              + (if c2 != '=' then [d1 % 16 * 16 + d2 / 4] else [])
              + (if c3 != '=' then [d2 % 4 * 64 + d3] else []))
  }

  function DecodeBlocks(p: string): Option<seq<byte>>
    requires |p| % 4 == 0
    decreases |p|
  {
    if |p| == 0 then Some([])
    else
      var first := DecodeBlock(p[0], p[1], p[2], p[3]);
      var rest := DecodeBlocks(p[4..]);
      if first.None? || rest.None? then None else Some(first.value + rest.value)
  }

  /** The bytes of a text, or None where the C function returns -1. */
  function Decode(s: string): Option<seq<byte>> {
    if |s| == 0 then None else DecodeBlocks(Padded(s))
  }

  lemma {:induction false} DecodeBlocksAppend(a: string, b: string)
    requires |a| % 4 == 0 && |b| % 4 == 0
    ensures |a + b| % 4 == 0
    ensures DecodeBlocks(a + b) ==
            if DecodeBlocks(a).None? || DecodeBlocks(b).None? then None
            else Some(DecodeBlocks(a).value + DecodeBlocks(b).value)
    decreases |a|
  {
    hide DecodeBlock;
    if |a| == 0 {
      assert a + b == b;
      if DecodeBlocks(b).Some? { assert [] + DecodeBlocks(b).value == DecodeBlocks(b).value; }
    } else {
      assert (a + b)[4..] == a[4..] + b;
      DecodeBlocksAppend(a[4..], b);
      var first, rest := DecodeBlock(a[0], a[1], a[2], a[3]), DecodeBlocks(a[4..]);
      if first.Some? && rest.Some? && DecodeBlocks(b).Some? {
        assert first.value + (rest.value + DecodeBlocks(b).value) == first.value + rest.value + DecodeBlocks(b).value;
      }
    }
  }

  /** Padding is added to the last block only. */
  lemma DecodeStep(s: string)
    requires |s| > 4
    ensures Decode(s) ==
            (var first, rest := DecodeBlock(s[0], s[1], s[2], s[3]), Decode(s[4..]);
             if first.None? || rest.None? then None else Some(first.value + rest.value))
  {
    assert Padded(s)[4..] == Padded(s[4..]);
  }

  // ---------------------------------------------------------------- laws

  /** The bytes that two, three or four digits stand for. */
  function FromDigits(ds: seq<int>): (g: seq<byte>)
    requires 2 <= |ds| <= 4 && forall i :: 0 <= i < |ds| ==> 0 <= ds[i] < 64
    ensures |g| == |ds| - 1
  {
    if |ds| == 2 then [ds[0] * 4 + ds[1] / 16]
    else if |ds| == 3 then [ds[0] * 4 + ds[1] / 16, ds[1] % 16 * 16 + ds[2] / 4]
    else [ds[0] * 4 + ds[1] / 16, ds[1] % 16 * 16 + ds[2] / 4, ds[2] % 4 * 64 + ds[3]]
  }

  lemma FromGroupDigits(g: seq<byte>)
    requires 1 <= |g| <= 3
    ensures FromDigits(GroupDigits(g)) == g
  {
    var r := FromDigits(GroupDigits(g));
    assert r[0] == g[0];
    assert |g| >= 2 ==> r[1] == g[1];
    assert |g| >= 3 ==> r[2] == g[2];
  }

  lemma GroupDigitsOf(ds: seq<int>)
    requires 2 <= |ds| <= 4 && forall i :: 0 <= i < |ds| ==> 0 <= ds[i] < 64
    ensures GroupDigits(FromDigits(ds)) == ds <==>
            (|ds| == 2 ==> ds[1] % 16 == 0) && (|ds| == 3 ==> ds[2] % 4 == 0)
  {
    var r := GroupDigits(FromDigits(ds));
    assert r[0] == ds[0];
    if |ds| == 2 {
      assert r[1] == ds[1] / 16 * 16;
    } else if |ds| == 3 {
      assert r[1] == ds[1];
      assert r[2] == ds[2] / 4 * 4;
    } else {
      assert r[1] == ds[1] && r[2] == ds[2] && r[3] == ds[3];
    }
  }

  function DigitsOf(s: string): (ds: seq<int>)
    requires IsUrlText(s)
    ensures |ds| == |s| && forall i :: 0 <= i < |s| ==> 0 <= ds[i] < 64 && ds[i] == Digit(s[i])
  {
    seq(|s|, i requires 0 <= i < |s| => TableOfDigit(s[i]); Digit(s[i]))
  }

  lemma TextInverse(s: string, ds: seq<int>)
    requires IsUrlText(s) && forall i :: 0 <= i < |ds| ==> 0 <= ds[i] < 64
    ensures Text(ds) == s <==> ds == DigitsOf(s)
    ensures IsUrlText(Text(ds)) && DigitsOf(Text(ds)) == ds
  {
    forall i | 0 <= i < |ds| ensures IsUrlChar(Text(ds)[i]) && Digit(Text(ds)[i]) == ds[i] {
      DigitOfTable(ds[i]);
    }
    forall i | 0 <= i < |s| ensures Text(DigitsOf(s))[i] == s[i] {
      TableOfDigit(s[i]);
    }
    assert Text(DigitsOf(s)) == s;
    assert DigitsOf(Text(ds)) == ds;
  }

  /** Decoding one padded block of two to four url digits. */
  lemma DecodeLastBlock(s: string)
    requires 2 <= |s| <= 4 && IsUrlText(s)
    ensures Padded(s) == s + Repeat('=', 4 - |s|)
    ensures Decode(s) == Some(FromDigits(DigitsOf(s)))
  {
    var p := Padded(s);
    assert |p| == 4 && p[4..] == [];
    var r, ds := DecodeBlock(p[0], p[1], p[2], p[3]), DigitsOf(s);
    assert forall i :: 0 <= i < |s| ==> p[i] == s[i] && p[i] != '=';
    assert forall i :: |s| <= i < 4 ==> p[i] == '=';
    assert Digit(p[0]) == ds[0] && Digit(p[1]) == ds[1];
    if |s| == 2 {
      assert r.value == [ds[0] * 4 + ds[1] / 16];
    } else if |s| == 3 {
      assert Digit(p[2]) == ds[2];
      assert r.value == [ds[0] * 4 + ds[1] / 16] + [ds[1] % 16 * 16 + ds[2] / 4];
    } else {
      assert Digit(p[2]) == ds[2] && Digit(p[3]) == ds[3];
      assert r.value == [ds[0] * 4 + ds[1] / 16] + [ds[1] % 16 * 16 + ds[2] / 4] + [ds[2] % 4 * 64 + ds[3]];
    }
    assert r.value == FromDigits(ds);
    assert DecodeBlocks(p[4..]) == Some([]);
    assert r.value + [] == r.value;
  }

  /** A full block of url digits decodes on its own. */
  lemma DecodeFirstBlock(s: string)
    requires |s| > 4 && IsUrlText(s)
    ensures Decode(s) == if Decode(s[4..]).None? then None
                         else Some(FromDigits(DigitsOf(s[..4])) + Decode(s[4..]).value)
  {
    DecodeStep(s);
    var head := s[..4];
    DecodeLastBlock(head);
    assert Padded(head) == head;
    assert head[4..] == [];
    var first := DecodeBlock(head[0], head[1], head[2], head[3]);
    assert Decode(head) == DecodeBlocks(head);
    assert first.Some? && first.value + [] == first.value;
  }

  lemma DecodeGroup(g: seq<byte>)
    requires 1 <= |g| <= 3
    ensures |Encode(g)| == |g| + 1 && IsUrlText(Encode(g))
    ensures FromDigits(DigitsOf(Encode(g))) == g
  {
    FromGroupDigits(g);
    TextInverse("", GroupDigits(g));
  }

  lemma EncodeSplit(bytes: seq<byte>)
    requires |bytes| > 3
    ensures |Encode(bytes)| > 4 && IsUrlText(Encode(bytes))
    ensures Encode(bytes)[..4] == Encode(bytes[..3])
    ensures Encode(bytes)[4..] == Encode(bytes[3..])
  {
    EncodeShape(bytes);
    var head := Text(GroupDigits(bytes[..3]));
    assert Encode(bytes) == head + Encode(bytes[3..]);
    assert |head| == 4;
  }

  /** Decoding the encoding of any non-empty byte sequence gives it back. */
  lemma {:induction false} RoundTrip(bytes: seq<byte>)
    requires |bytes| > 0
    ensures Decode(Encode(bytes)) == Some(bytes)
    decreases |bytes|
  {
    if |bytes| <= 3 {
      DecodeGroup(bytes);
      DecodeLastBlock(Encode(bytes));
    } else {
      EncodeSplit(bytes);
      DecodeGroup(bytes[..3]);
      RoundTrip(bytes[3..]);
      DecodeFirstBlock(Encode(bytes));
      assert bytes[..3] + bytes[3..] == bytes;
    }
  }

  /** The bits of the last digit that no byte uses are zero (section 3.5 of RFC 4648). */
  predicate TrailingBitsZero(s: string) {
    && (|s| % 4 == 2 ==> Digit(s[|s| - 1]) % 16 == 0)
    && (|s| % 4 == 3 ==> Digit(s[|s| - 1]) % 4 == 0)
  }

  lemma BlockCanonicity(s: string)
    requires 2 <= |s| <= 4 && IsUrlText(s)
    ensures Encode(FromDigits(DigitsOf(s))) == s <==> TrailingBitsZero(s)
  {
    GroupDigitsOf(DigitsOf(s));
    TextInverse(s, GroupDigits(FromDigits(DigitsOf(s))));
  }

  /**
   Lengths of the form 4k+1 are rejected, every other length yields floor(3n/4)
   bytes, and re-encoding restores the text exactly when its trailing bits are zero.
   */
  predicate Canonical(s: string)
    requires |s| > 0
  {
    && (Decode(s).Some? <==> |s| % 4 != 1)
    && (Decode(s).Some? ==> |Decode(s).value| == 3 * |s| / 4)
    && (Decode(s).Some? ==> (Encode(Decode(s).value) == s <==> TrailingBitsZero(s)))
  }

  lemma OneDigit(s: string)
    requires |s| == 1
    ensures Decode(s).None?
  {
    var p := Padded(s);
    assert |p| == 4 && p[1] == '=' && Digit(p[1]) == -1;
  }

  /** Every non-empty unpadded text over the url alphabet behaves canonically. */
  lemma {:induction false} Canonicity(s: string)
    requires |s| > 0 && IsUrlText(s)
    ensures Canonical(s)
    decreases |s|
  {
    hide Decode, Encode, FromDigits, GroupDigits;
    if |s| == 1 {
      OneDigit(s);
    } else if |s| <= 4 {
      DecodeLastBlock(s);
      BlockCanonicity(s);
    } else {
      hide Canonical;
      Canonicity(s[4..]);
      CanonicityStep(s);
    }
  }

  lemma CanonicityStep(s: string)
    requires |s| > 4 && IsUrlText(s) && Canonical(s[4..])
    ensures Canonical(s)
  {
    hide Decode, Encode, FromDigits;
    DecodeFirstBlock(s);
    assert |s[4..]| % 4 == |s| % 4 && TrailingBitsZero(s) == TrailingBitsZero(s[4..]);
    if Decode(s).Some? {
      FirstBlockCanonicity(s, Decode(s[4..]).value);
    }
  }

  lemma FirstBlockCanonicity(s: string, rest: seq<byte>)
    requires |s| > 4 && IsUrlText(s)
    ensures Encode(FromDigits(DigitsOf(s[..4])) + rest) == s <==> Encode(rest) == s[4..]
  {
    var head, tail := s[..4], s[4..];
    var g := FromDigits(DigitsOf(head));
    BlockCanonicity(head);
    EncodeAppend(g, rest);
    assert Encode(g) == head && s == head + tail;
    SamePrefix(head, Encode(rest), tail);
  }

  lemma SamePrefix(head: string, a: string, b: string)
    ensures head + a == head + b <==> a == b
  {
    assert (head + a)[|head|..] == a && (head + b)[|head|..] == b;
  }

  // ---------------------------------------------------------------- the buffers

  lemma EncodeNextGroup(bytes: seq<byte>, i: nat, k: nat)
    requires i % 3 == 0 && i < k <= |bytes| && k <= i + 3 && (k == i + 3 || k == |bytes|)
    ensures Encode(bytes[..k]) == Encode(bytes[..i]) + Text(GroupDigits(bytes[i..k]))
    ensures |Encode(bytes[..i])| == i / 3 * 4
  {
    var g := bytes[i..k];
    EncodeShape(bytes[..i]);
    EncodeAppend(bytes[..i], g);
    assert bytes[..k] == bytes[..i] + g;
    assert Encode(g) == Text(GroupDigits(g));
  }

  /** The four characters of one group, NUL where a short group has no digit. */
  function GroupText(g: seq<byte>): (s: string)
    requires 1 <= |g| <= 3
    ensures |s| == 4
  {
    Text(GroupDigits(g)) + Repeat('\0', 3 - |g|)
  }

  /** What one turn appends, in the invariant of the encoding loop. */
  lemma EncodeTurn(bytes: seq<byte>, i: nat, k: nat)
    requires i % 3 == 0 && i < k <= |bytes| && k <= i + 3 && (k == i + 3 || k == |bytes|)
    ensures Encode(bytes[..i]) + Repeat('\0', 0) + GroupText(bytes[i..k]) == Encode(bytes[..k]) + Repeat('\0', 3 - (k - i))
  {
    hide Encode, GroupDigits, Text;
    EncodeNextGroup(bytes, i, k);
    var e, t, r := Encode(bytes[..i]), Text(GroupDigits(bytes[i..k])), Repeat('\0', 3 - (k - i));
    assert e + Repeat('\0', 0) == e;
    assert e + (t + r) == e + t + r;
  }

  lemma DigitsOfGroup(g: seq<byte>)
    requires 1 <= |g| <= 3
    ensures GroupDigits(g)[0] == g[0] / 4
    ensures GroupDigits(g)[1] == g[0] % 4 * 16 + (if |g| > 1 then g[1] / 16 else 0)
    ensures |g| > 1 ==> GroupDigits(g)[2] == g[1] % 16 * 4 + (if |g| > 2 then g[2] / 64 else 0)
    ensures |g| > 2 ==> GroupDigits(g)[3] == g[2] % 64
  {
  }

  /** The four characters of the group that starts at input[i], with a NUL for each that is missing. */
  method GroupChars(input: array<byte>, i: nat) returns (c0: char, c1: char, c2: char, c3: char)
    requires i < input.Length
    ensures [c0, c1, c2, c3] == GroupText(input[i..if i + 3 <= input.Length then i + 3 else input.Length])
  {
    var n := input.Length;
    var y := if i + 1 < n then input[i + 1] else 0;
    var z := if i + 2 < n then input[i + 2] else 0;
    ghost var g := input[i..if i + 3 <= n then i + 3 else n];
    var d0, d1, d2, d3 := Base64Bits.EncoderBits(input[i], y, z);
    DigitsOfGroup(g);
    assert d0 == GroupDigits(g)[0] && d1 == GroupDigits(g)[1];
    assert (|g| > 1 ==> d2 == GroupDigits(g)[2]) && (|g| > 2 ==> d3 == GroupDigits(g)[3]);
    hide GroupDigits;
    assert |TABLE| == 64;
    c0, c1 := TABLE[d0], TABLE[d1];
    c2 := if i + 1 < n then TABLE[d2] else '\0';
    c3 := if i + 2 < n then TABLE[d3] else '\0';
  }

  /** One turn of the encoding loop: the group that starts at input[i] goes to out[j..j + 4]. */
  method PutGroup(input: array<byte>, i: nat, out: array<char>, j: nat)
    requires i < input.Length && j + 4 <= out.Length
    modifies out
    ensures out[..j] == old(out[..j])
    ensures out[j..j + 4] == GroupText(input[i..if i + 3 <= input.Length then i + 3 else input.Length])
  {
    hide GroupText;
    var c0, c1, c2, c3 := GroupChars(input, i);
    out[j] := c0;
    out[j + 1] := c1;
    out[j + 2] := c2;
    out[j + 3] := c3;
    assert out[j..j + 4] == [c0, c1, c2, c3];
  }

  /** The trimming loop: drops the NULs that follow the text. */
  method TrimPadding(out: array<char>, end: nat, ghost text: string, ghost extra: nat) returns (j: nat)
    requires end < out.Length && IsUrlText(text)
    requires out[..end] == text + Repeat('\0', extra)
    ensures j == |text| && out[..j] == text
  {
    j := end;
    assert forall k :: 0 <= k < |text| ==> out[..end][k] == text[k];
    assert forall k :: |text| <= k < end ==> out[..end][k] == '\0';
    assert |text| > 0 ==> IsUrlChar(text[|text| - 1]);
    while j > 0 && out[j - 1] == '\0'
      invariant |text| <= j <= end
    {
      j := j - 1;
    }
  }

  /** The encoding loop: the text, followed by a NUL for each missing byte of the last group. */
  method EncodeGroups(input: array<byte>, out: array<char>) returns (j: nat, ghost extra: nat)
    requires input.Length > 0 && out.Length == (input.Length + 2) / 3 * 4 + 1
    modifies out
    ensures j == (input.Length + 2) / 3 * 4
    ensures out[..j] == Encode(input[..]) + Repeat('\0', extra)
  {
    hide Encode, GroupDigits, Text, GroupText, Repeat;
    j, extra := 0, 0;
    var n := input.Length;
    ghost var bytes := input[..];
    var i := 0;
    NothingEncoded(bytes);
    while i < n
      invariant i % 3 == 0 && i <= n + 2 && j == i / 3 * 4
      invariant i < n ==> extra == 0
      invariant out[..j] == Encode(bytes[..if i <= n then i else n]) + Repeat('\0', extra)
    {
      ghost var k := if i + 3 <= n then i + 3 else n;
      ghost var g := bytes[i..k];
      assert input[i..k] == g;
      EncodeTurn(bytes, i, k);
      PutGroup(input, i, out, j);
      assert out[..j + 4] == out[..j] + out[j..j + 4];
      extra := 3 - |g|;
      i, j := i + 3, j + 4;
    }
    assert bytes[..n] == bytes;
  }

  lemma NothingEncoded(bytes: seq<byte>)
    ensures Encode(bytes[..0]) + Repeat('\0', 0) == []
  {
    EncodeShape(bytes[..0]);
  }

  /**
   Writes four characters per group, NUL where a short last group has no digit, and
   then trims those NULs. No byte outside the allocated buffer is touched.
   */
  method EncodeBuffer(input: array<byte>, allocOk: bool) returns (out: array?<char>, j: nat)
    ensures out == null <==> input.Length == 0 || !allocOk
    ensures out != null ==> fresh(out) && out.Length == (input.Length + 2) / 3 * 4 + 1
    ensures out != null ==> j < out.Length && out[..j] == Encode(input[..]) && out[j] == '\0'
  {
    hide Encode, Repeat;
    j := 0;
    if input.Length == 0 || !allocOk {
      return null, 0;
    }
    var outLen := (input.Length + 2) / 3 * 4;
    out := new char[outLen + 1];
    ghost var extra;
    j, extra := EncodeGroups(input, out);
    EncodeShape(input[..]);
    out[j] := '\0';
    j := TrimPadding(out, j, Encode(input[..]), extra);
    out[j] := '\0';
  }

  /** The classic alphabet has '+' and '/' where the url alphabet has '-' and '_'. */
  function ClassicChar(c: char): char {
    if c == '-' then '+' else if c == '_' then '/' else c
  }

  function Classic(p: string): (q: string)
    ensures |q| == |p|
  {
    seq(|p|, i requires 0 <= i < |p| => ClassicChar(p[i]))
  }

  lemma ClassicDigit(c: char)
    ensures Digit(ClassicChar(c)) == Digit(c) && (ClassicChar(c) == '=' <==> c == '=')
  {
  }

  lemma {:induction false} DecodeBlocksClassic(p: string)
    requires |p| % 4 == 0
    ensures DecodeBlocks(Classic(p)) == DecodeBlocks(p)
    decreases |p|
  {
    hide Digit, ClassicChar;
    if |p| > 0 {
      assert Classic(p)[4..] == Classic(p[4..]);
      ClassicDigit(p[0]);
      ClassicDigit(p[1]);
      ClassicDigit(p[2]);
      ClassicDigit(p[3]);
      DecodeBlocksClassic(p[4..]);
    }
  }

  lemma DecodeOneBlock(b: string)
    requires |b| == 4
    ensures DecodeBlocks(b) == DecodeBlock(b[0], b[1], b[2], b[3])
  {
    hide DecodeBlock;
    assert b[4..] == [] && DecodeBlocks(b[4..]) == Some([]);
    var block := DecodeBlock(b[0], b[1], b[2], b[3]);
    if block.Some? { assert block.value + [] == block.value; }
  }

  lemma DecodeNextBlock(q: string, i: nat)
    requires |q| % 4 == 0 && i % 4 == 0 && i < |q| && DecodeBlocks(q[..i]).Some?
    ensures var block := DecodeBlock(q[i], q[i + 1], q[i + 2], q[i + 3]);
            && (block.None? ==> DecodeBlocks(q).None?)
            && (block.Some? ==> DecodeBlocks(q[..i + 4]) == Some(DecodeBlocks(q[..i]).value + block.value))
  {
    hide DecodeBlock, DecodeBlocks;
    var b := q[i..i + 4];
    assert q[..i + 4] == q[..i] + b && q == q[..i + 4] + q[i + 4..];
    DecodeBlocksAppend(q[..i], b);
    DecodeBlocksAppend(q[..i + 4], q[i + 4..]);
    DecodeOneBlock(b);
  }

  /** Copies the text into a fresh buffer, pads it and converts its alphabet in place. */
  method PadAndConvert(text: string) returns (padded: array<char>)
    ensures fresh(padded) && padded.Length == |Padded(text)| + 1
    ensures padded[..|Padded(text)|] == Classic(Padded(text))
  {
    var len := |text|;
    var pad := (4 - len % 4) % 4;
    var paddedLen := len + pad;
    padded := new char[paddedLen + 1];
    forall i | 0 <= i < len { padded[i] := text[i]; }
    for i := 0 to pad
      invariant forall k :: 0 <= k < len ==> padded[k] == text[k]
      invariant forall k :: len <= k < len + i ==> padded[k] == '='
    {
      padded[len + i] := '=';
    }
    padded[paddedLen] := '\0';
    ghost var p := Padded(text);
    for i := 0 to len
      invariant forall k :: 0 <= k < i ==> padded[k] == ClassicChar(p[k])
      invariant forall k :: i <= k < paddedLen ==> padded[k] == p[k]
    {
      if padded[i] == '-' { padded[i] := '+'; }
      else if padded[i] == '_' { padded[i] := '/'; }
    }
  }

  lemma DigitIsSmall(c: char)
    ensures Digit(c) < 64
  {
  }

  /** One turn of the decoding loop: up to three bytes for the block that starts at padded[i]. */
  method PutBlock(padded: array<char>, i: nat, decoded: array<byte>, len: nat) returns (ok: bool, len': nat)
    requires i + 4 <= padded.Length && len + 3 <= decoded.Length
    modifies decoded
    ensures ok == DecodeBlock(padded[i], padded[i + 1], padded[i + 2], padded[i + 3]).Some?
    ensures ok ==> len <= len' <= len + 3
                   && decoded[..len'] == old(decoded[..len])
                                         + DecodeBlock(padded[i], padded[i + 1], padded[i + 2], padded[i + 3]).value
  {
    var d0 := Digit(padded[i]);
    var d1 := Digit(padded[i + 1]);
    var d2 := if padded[i + 2] == '=' then 0 else Digit(padded[i + 2]);
    var d3 := if padded[i + 3] == '=' then 0 else Digit(padded[i + 3]);
    if d0 < 0 || d1 < 0 || (padded[i + 2] != '=' && d2 < 0) || (padded[i + 3] != '=' && d3 < 0) {
      return false, len;
    }
    DigitIsSmall(padded[i]);
    DigitIsSmall(padded[i + 1]);
    DigitIsSmall(padded[i + 2]);
    DigitIsSmall(padded[i + 3]);
    var b0, b1, b2 := Base64Bits.DecoderBits(d0, d1, d2, d3);
    len' := len;
    decoded[len'] := b0;
    len' := len' + 1;
    if padded[i + 2] != '=' {
      decoded[len'] := b1;
      len' := len' + 1;
    }
    if padded[i + 3] != '=' {
      decoded[len'] := b2;
      len' := len' + 1;
    }
    ok := true;
  }

  /**
   Pads a copy of the text, converts it to the classic alphabet and decodes it block
   by block, giving up on the first bad digit. Every write stays inside the buffer
   allocated for three bytes per block.
   */
  method DecodeBuffer(text: string, padAlloc: bool, outAlloc: bool)
      returns (rc: int, decoded: array?<byte>, decodedLen: nat)
    ensures rc == 0 <==> padAlloc && outAlloc && Decode(text).Some?
    ensures rc != 0 ==> rc == -1 && decoded == null && decodedLen == 0
    ensures rc == 0 ==> decoded != null && fresh(decoded) && decodedLen <= decoded.Length
                        && decoded[..decodedLen] == Decode(text).value
  {
    hide DecodeBlock, Padded, Classic;
    if |text| == 0 || !padAlloc {
      return -1, null, 0;
    }
    var padded := PadAndConvert(text);
    if !outAlloc {
      return -1, null, 0;
    }
    var paddedLen := padded.Length - 1;
    ghost var q := Classic(Padded(text));
    DecodeBlocksClassic(Padded(text));
    decoded := new byte[paddedLen / 4 * 3];
    decodedLen := 0;
    var i := 0;
    assert DecodeBlocks(q[..0]) == Some(decoded[..0]);
    while i < paddedLen
      invariant i % 4 == 0 && i <= paddedLen
      invariant decodedLen <= i / 4 * 3
      invariant padded[..paddedLen] == q
      invariant DecodeBlocks(q[..i]) == Some(decoded[..decodedLen])
    {
      DecodeNextBlock(q, i);
      assert forall k :: 0 <= k < paddedLen ==> padded[..paddedLen][k] == q[k];
      var ok, len := PutBlock(padded, i, decoded, decodedLen);
      if !ok {
        return -1, null, 0;
      }
      decodedLen := len;
      i := i + 4;
    }
    assert q[..i] == q;
    rc := 0;
  }
}
