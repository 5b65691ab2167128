/**
 What base64url text is and what it denotes, without the codec's own tables: which texts
 are accepted, which value each character has, and which number a group stands for.
 */
module Base64Laws {
  import opened Wrappers
  import opened Base64Url

  /** The characters of both base64 alphabets. */
  predicate IsBase64Char(c: char) {
    'A' <= c <= 'Z' || 'a' <= c <= 'z' || '0' <= c <= '9' || c in {'-', '_', '+', '/'}
  }

  /** Table 2 of RFC 4648, by position, for the decoder and for the encoder; '+' and '/' are those of its table 1. */
  lemma Alphabet(k: nat)
    ensures k < 26 ==> Digit(('A' as int + k) as char) == k && TABLE[k] == ('A' as int + k) as char
    ensures k < 26 ==> Digit(('a' as int + k) as char) == 26 + k && TABLE[26 + k] == ('a' as int + k) as char
    ensures k < 10 ==> Digit(('0' as int + k) as char) == 52 + k && TABLE[52 + k] == ('0' as int + k) as char
    ensures Digit('-') == Digit('+') == 62 && TABLE[62] == '-'
    ensures Digit('_') == Digit('/') == 63 && TABLE[63] == '_'
    ensures |TABLE| == 64
  {
    hide Digit;
    DigitPositions(k);
    TablePositions(k);
  }

  lemma DigitPositions(k: nat)
    ensures k < 26 ==> Digit(('A' as int + k) as char) == k && Digit(('a' as int + k) as char) == 26 + k
    ensures k < 10 ==> Digit(('0' as int + k) as char) == 52 + k
    ensures Digit('-') == Digit('+') == 62 && Digit('_') == Digit('/') == 63
  {
  }

  lemma TablePositions(k: nat)
    ensures k < 26 ==> TABLE[k] == ('A' as int + k) as char && TABLE[26 + k] == ('a' as int + k) as char
    ensures k < 10 ==> TABLE[52 + k] == ('0' as int + k) as char
    ensures |TABLE| == 64 && TABLE[62] == '-' && TABLE[63] == '_'
  {
    if k < 26 {
      LettersAt(k);
    }
    if k < 10 {
      NumeralsAt(k);
    }
  }

  lemma NumeralsAt(k: nat)
    requires k < 10
    ensures DIGITS[k] == ('0' as int + k) as char
  {
  }

  lemma DigitIff(c: char)
    ensures Digit(c) >= 0 <==> IsBase64Char(c)
    ensures Digit(c) < 64
  {
  }

  // ---------------------------------------------------------------- acceptance

  /** Of every four characters the first two are digits and the others are digits or '='. */
  predicate Wellformed(p: string) {
    forall i :: 0 <= i < |p| ==> IsBase64Char(p[i]) || (i % 4 >= 2 && p[i] == '=')
  }

  lemma {:induction false} BlocksIff(p: string)
    requires |p| % 4 == 0
    ensures DecodeBlocks(p).Some? <==> Wellformed(p)
    decreases |p|
  {
    if |p| > 0 {
      BlocksIff(p[4..]);
      BlockIff(p[0], p[1], p[2], p[3]);
      hide DecodeBlock, IsBase64Char;
      assert forall i :: 4 <= i < |p| ==> p[i] == p[4..][i - 4] && i % 4 == (i - 4) % 4;
      assert forall i :: 0 <= i < |p| - 4 ==> p[4..][i] == p[i + 4];
      if Wellformed(p) {
        assert IsBase64Char(p[0]) && IsBase64Char(p[1]);
      }
    }
  }

  lemma BlockIff(c0: char, c1: char, c2: char, c3: char)
    ensures DecodeBlock(c0, c1, c2, c3).Some? <==>
            IsBase64Char(c0) && IsBase64Char(c1) && (IsBase64Char(c2) || c2 == '=') && (IsBase64Char(c3) || c3 == '=')
  {
    DigitIff(c0);
    DigitIff(c1);
    DigitIff(c2);
    DigitIff(c3);
  }

  /** The padding: up to three '=', to a multiple of four. */
  lemma PaddingIs(s: string, n: nat)
    requires n < 4 && (|s| + n) % 4 == 0
    ensures Padded(s) == s + seq(n, _ => '=')
  {
    assert n == (4 - |s| % 4) % 4;
  }

  /**
   Which texts decode: non-empty ones that, filled up with '=' to a multiple of four, have
   digits in the first two places of each four and digits or '=' in the others.
   */
  lemma DecodeIff(s: string, n: nat)
    requires n < 4 && (|s| + n) % 4 == 0
    ensures Decode(s).Some? <==> s != "" && Wellformed(s + seq(n, _ => '='))
  {
    hide DecodeBlocks, Wellformed;
    PaddingIs(s, n);
    BlocksIff(Padded(s));
  }

  /** A text with another character in it is refused. */
  lemma JunkIsRefused(s: string, i: nat)
    requires i < |s| && !IsBase64Char(s[i]) && s[i] != '='
    ensures Decode(s).None?
  {
    var n := (4 - |s| % 4) % 4;
    DecodeIff(s, n);
    assert (s + seq(n, _ => '='))[i] == s[i];
  }

  // ---------------------------------------------------------------- meaning

  /** The bytes of a group and its digits are one number in base 256 and in base 64, filled up with zero bits. */
  lemma GroupNumber(g: seq<byte>)
    requires 1 <= |g| <= 3
    ensures var d := GroupDigits(g);
            match |g|
            case 1 => g[0] as int * 16 == d[0] * 64 + d[1]
            case 2 => (g[0] as int * 256 + g[1] as int) * 4 == (d[0] * 64 + d[1]) * 64 + d[2]
            case 3 => (g[0] as int * 256 + g[1] as int) * 256 + g[2] as int == ((d[0] * 64 + d[1]) * 64 + d[2]) * 64 + d[3]
            case _ => true
  {
  }

  /** Four digits stand for three bytes that are the same number. */
  lemma BlockNumber(c0: char, c1: char, c2: char, c3: char)
    requires IsBase64Char(c0) && IsBase64Char(c1) && IsBase64Char(c2) && IsBase64Char(c3)
    ensures var r := DecodeBlock(c0, c1, c2, c3);
            && r.Some? && |r.value| == 3
            && (r.value[0] as int * 256 + r.value[1] as int) * 256 + r.value[2] as int
               == ((Digit(c0) * 64 + Digit(c1)) * 64 + Digit(c2)) * 64 + Digit(c3)
  {
    DigitIff(c0);
    DigitIff(c1);
    DigitIff(c2);
    DigitIff(c3);
    hide Digit;
  }

  /** Wherever it stands, '=' reads as the digit zero and drops the byte that its place ends. */
  lemma PaddingDrops(c0: char, c1: char, c2: char, c3: char)
    requires IsBase64Char(c0) && IsBase64Char(c1) && (IsBase64Char(c2) || c2 == '=') && (IsBase64Char(c3) || c3 == '=')
    ensures var r := DecodeBlock(c0, c1, c2, c3);
            var full := DecodeBlock(c0, c1, if c2 == '=' then 'A' else c2, if c3 == '=' then 'A' else c3);
            && r.Some? && full.Some? && |full.value| == 3
            && r.value == [full.value[0]] + (if c2 == '=' then [] else [full.value[1]]) + (if c3 == '=' then [] else [full.value[2]])
  {
    DigitIff(c0);
    DigitIff(c1);
    DigitIff(c2);
    DigitIff(c3);
    assert Digit('A') == 0;
    hide Digit;
  }
}
