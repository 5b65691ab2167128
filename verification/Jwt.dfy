/**
 Proof tokens of src/protocol/jwt.c: splitting, decoding, and the rules a proof must
 meet at registration and at refresh. JSON parsing and the signature primitive are
 arbitrary functions.
 */
module Jwt {
  import opened Wrappers
  import opened Scanning
  import opened Base64Url

  // ---------------------------------------------------------------- splitting

  datatype Parts = Parts(header: string, payload: string, signature: string)

  /** The three parts of a token with exactly two dots. */
  function Split(token: string): Option<Parts> {
    var first := Until(token, '.');
    if first == |token| then None
    else
      var tail := token[first + 1..];
      var second := Until(tail, '.');
      if second == |tail| then None
      else
        var last := tail[second + 1..];
        if Until(last, '.') != |last| then None else Some(Parts(token[..first], tail[..second], last))
  }

  /** What the signature covers: everything before the second dot (section 7.1 of RFC 7515). */
  function Signed(p: Parts): string {
    p.header + "." + p.payload
  }

  function Rejoined(p: Parts): string {
    p.header + "." + p.payload + "." + p.signature
  }

  predicate DotFree(s: string) {
    forall i :: 0 <= i < |s| ==> s[i] != '.'
  }

  function Dots(s: string): nat {
    if |s| == 0 then 0 else (if s[0] == '.' then 1 else 0) + Dots(s[1..])
  }

  lemma {:induction false} DotsOfConcat(a: string, b: string)
    ensures Dots(a + b) == Dots(a) + Dots(b)
    decreases |a|
  {
    if |a| == 0 {
      assert a + b == b;
    } else {
      assert (a + b)[1..] == a[1..] + b;
      DotsOfConcat(a[1..], b);
    }
  }

  lemma {:induction false} NoDots(s: string)
    ensures Dots(s) == 0 <==> DotFree(s)
  {
    if |s| > 0 {
      NoDots(s[1..]);
      assert forall i :: 1 <= i < |s| ==> s[i] == s[1..][i - 1];
    }
  }

  /** The split is the only way to cut the token at two dots into dot-free parts. */
  lemma SplitIff(token: string, p: Parts)
    ensures Split(token) == Some(p) <==>
            token == Rejoined(p) && DotFree(p.header) && DotFree(p.payload) && DotFree(p.signature)
  {
    if token == Rejoined(p) && DotFree(p.header) && DotFree(p.payload) && DotFree(p.signature) {
      SplitRejoined(p);
    }
    if Split(token) == Some(p) {
      RejoinSplit(token);
    }
  }

  lemma RejoinedParts(p: Parts)
    ensures Rejoined(p) == p.header + ['.'] + (p.payload + ['.'] + p.signature)
    ensures Rejoined(p)[..|Signed(p)|] == Signed(p)
  {
    assert Rejoined(p) == Signed(p) + ("." + p.signature);
    assert p.header + ['.'] + (p.payload + ['.'] + p.signature) == p.header + "." + p.payload + "." + p.signature;
  }

  lemma SplitRejoined(p: Parts)
    requires DotFree(p.header) && DotFree(p.payload) && DotFree(p.signature)
    ensures Split(Rejoined(p)) == Some(p)
  {
    hide Until, Rejoined;
    var tail := p.payload + ['.'] + p.signature;
    RejoinedParts(p);
    UntilDelimiter(p.header, '.', tail);
    UntilDelimiter(p.payload, '.', p.signature);
    UntilIs(p.signature, '.', |p.signature|);
  }

  lemma RejoinSplit(token: string)
    requires Split(token).Some?
    ensures var p := Split(token).value;
            token == Rejoined(p) && DotFree(p.header) && DotFree(p.payload) && DotFree(p.signature)
  {
    hide Until, Rejoined;
    var p := Split(token).value;
    var tail := token[|p.header| + 1..];
    assert token == p.header + ['.'] + tail;
    assert tail == p.payload + ['.'] + p.signature;
    RejoinedParts(p);
  }

  /** A token is accepted exactly when it has two dots. */
  lemma SplitAccepts(token: string)
    ensures Split(token).Some? <==> Dots(token) == 2
  {
    hide Until, Dots;
    DotsAfter(token);
    var first := Until(token, '.');
    if first < |token| {
      LastDot(token[first + 1..]);
    }
  }

  lemma LastDot(tail: string)
    ensures Dots(tail) == 1 <==> var n := Until(tail, '.'); n < |tail| && Until(tail[n + 1..], '.') == |tail[n + 1..]|
  {
    hide Until, Dots;
    DotsAfter(tail);
    var n := Until(tail, '.');
    if n < |tail| {
      DotsAfter(tail[n + 1..]);
    }
  }

  lemma OneDot(rest: string)
    ensures Dots(['.'] + rest) == 1 + Dots(rest)
  {
    assert (['.'] + rest)[1..] == rest;
  }

  /** Counting dots one strchr at a time. */
  lemma DotsAfter(s: string)
    ensures Dots(s) == var n := Until(s, '.'); if n == |s| then 0 else 1 + Dots(s[n + 1..])
  {
    hide Until, Dots;
    var n := Until(s, '.');
    NoDots(s[..n]);
    assert DotFree(s[..n]);
    if n == |s| {
      assert s[..n] == s;
    } else {
      var rest := s[n + 1..];
      CutAt(s, n);
      DotsOfConcat(s[..n], ['.'] + rest);
      OneDot(rest);
    }
  }

  /** The three strchr calls of split_jwt, as offsets into the token. */
  method SplitToken(token: string) returns (ok: bool, payload: nat, signature: nat)
    ensures ok == Split(token).Some?
    ensures ok ==> 0 < payload < signature <= |token|
                   && Split(token).value == Parts(token[..payload - 1], token[payload..signature - 1], token[signature..])
    ensures ok ==> token[..signature - 1] == Signed(Split(token).value)
  {
    hide Until;
    payload, signature := 0, 0;
    assert token[0..] == token;
    var first := FindChar(token, 0, '.');
    if first == |token| {
      return false, 0, 0;
    }
    var second := FindChar(token, first + 1, '.');
    if second == |token| {
      return false, 0, 0;
    }
    var third := FindChar(token, second + 1, '.');
    if third != |token| {
      return false, 0, 0;
    }
    ok, payload, signature := true, first + 1, second + 1;
    assert token[0..first] == token[..first];
    assert token[..second] == token[..first] + "." + token[payload..second];
  }

  // ---------------------------------------------------------------- decoding

  /** The claims of interest; each is None unless it is present with the right JSON type. */
  datatype Claims = Claims(alg: Option<string>, typ: Option<string>, jwk: Option<string>,
                           jti: Option<string>, authorization: Option<string>)

  datatype Proof = Proof(algorithm: string, typ: Option<string>, jwk: Option<string>,
                         challenge: string, authorization: Option<string>, signature: string)

  /**
   The foreign code: reading the claims of a header and a payload, and checking a
   signature given algorithm, key, signed text and signature bytes.
   */
  datatype Foreign = Foreign(parse: (seq<byte>, seq<byte>) -> Option<Claims>,
                             verify: (string, string, string, seq<byte>) -> bool)

  /** alg and jti are mandatory. */
  function ProofOf(c: Claims, signature: string): Option<Proof> {
    if c.alg.None? || c.jti.None? then None
    else Some(Proof(c.alg.value, c.typ, c.jwk, c.jti.value, c.authorization, signature))
  }

  function DecodeToken(f: Foreign, token: string): Option<Proof> {
    var parts := Split(token);
    if parts.None? then None
    else
      var header, payload := Decode(parts.value.header), Decode(parts.value.payload);
      if header.None? || payload.None? then None
      else
        var claims := f.parse(header.value, payload.value);
        if claims.None? then None else ProofOf(claims.value, parts.value.signature)
  }

  /** Which allocations succeed: the copies of the three parts, and the two buffers of each base64url decoding. */
  datatype JwtAlloc = JwtAlloc(parts: bool, headerPad: bool, headerOut: bool, payloadPad: bool, payloadOut: bool,
                               sigPad: bool, sigOut: bool)

  const ENOUGH := JwtAlloc(true, true, true, true, true, true, true)

  predicate CanDecode(a: JwtAlloc) {
    a.parts && a.headerPad && a.headerOut && a.payloadPad && a.payloadOut
  }

  method ReadToken(f: Foreign, token: string, a: JwtAlloc) returns (proof: Option<Proof>)
    ensures proof == if CanDecode(a) then DecodeToken(f, token) else None
  {
    var ok, payload, signature := SplitToken(token);
    if !ok || !a.parts {
      return None;
    }
    var rc, header, headerLen := DecodeBuffer(token[..payload - 1], a.headerPad, a.headerOut);
    if rc != 0 {
      return None;
    }
    var rc', body, bodyLen := DecodeBuffer(token[payload..signature - 1], a.payloadPad, a.payloadOut);
    if rc' != 0 {
      return None;
    }
    var claims := f.parse(header[..headerLen], body[..bodyLen]);
    if claims.None? {
      return None;
    }
    proof := ProofOf(claims.value, token[signature..]);
  }

  // ---------------------------------------------------------------- rules

  const NONE: string := "none"
  const ES256: string := "ES256"
  const RS256: string := "RS256"
  const PROOF_TYPE: string := "dbsc+jwt"

  /** verify_signature_with_jwk: "none" always passes, anything but ES256 and RS256 never does. */
  predicate SignatureOk(f: Foreign, token: string, p: Proof, jwk: Option<string>) {
    if p.algorithm == NONE then true
    else if (p.algorithm != ES256 && p.algorithm != RS256) || jwk.None? then false
    else
      var parts, sig := Split(token), Decode(p.signature);
      parts.Some? && sig.Some? && (p.algorithm == ES256 ==> |sig.value| == 64)
      && f.verify(p.algorithm, jwk.value, Signed(parts.value), sig.value)
  }

  /** An unsigned proof needs no memory here. */
  predicate CanCheck(a: JwtAlloc, p: Proof) {
    p.algorithm == NONE || (a.sigPad && a.sigOut)
  }

  method CheckSignature(f: Foreign, token: string, p: Proof, jwk: Option<string>, a: JwtAlloc) returns (ok: bool)
    ensures ok == (CanCheck(a, p) && SignatureOk(f, token, p, jwk))
  {
    if p.algorithm == NONE {
      return true;
    }
    if p.algorithm != ES256 && p.algorithm != RS256 {
      return false;
    }
    if jwk.None? {
      return false;
    }
    var split, payload, signature := SplitToken(token);
    if !split {
      return false;
    }
    var rc, sig, sigLen := DecodeBuffer(p.signature, a.sigPad, a.sigOut);
    if rc != 0 {
      return false;
    }
    if p.algorithm == ES256 && sigLen != 64 {
      return false;
    }
    ok := f.verify(p.algorithm, jwk.value, token[..signature - 1], sig[..sigLen]);
  }

  predicate TypeOk(p: Proof) {
    p.typ == Some(PROOF_TYPE)
  }

  /** A registration proof carries its key, unless it is unsigned; then it must not. */
  predicate RegistrationKeyOk(p: Proof) {
    if p.algorithm == NONE then p.jwk.None? else p.jwk.Some?
  }

  /** opendbsc_jwt_decode_and_verify. */
  function RegistrationProof(f: Foreign, token: string): Option<Proof> {
    var p := DecodeToken(f, token);
    if p.Some? && TypeOk(p.value) && RegistrationKeyOk(p.value) && SignatureOk(f, token, p.value, p.value.jwk)
    then p else None
  }

  /** opendbsc_jwt_verify_with_jwk. */
  function RefreshProof(f: Foreign, token: string, jwk: string): Option<Proof> {
    var p := DecodeToken(f, token);
    if p.Some? && p.value.jwk.None? && TypeOk(p.value) && p.value.algorithm != NONE
       && SignatureOk(f, token, p.value, Some(jwk))
    then p else None
  }

  /** A proof for whose handling there is memory. */
  function Affordable(a: JwtAlloc, p: Option<Proof>): Option<Proof> {
    if p.Some? && CanDecode(a) && CanCheck(a, p.value) then p else None
  }

  method DecodeAndVerify(f: Foreign, token: string, a: JwtAlloc) returns (proof: Option<Proof>)
    ensures proof == Affordable(a, RegistrationProof(f, token))
  {
    proof := ReadToken(f, token, a);
    if proof.None? {
      return None;
    }
    if !TypeOk(proof.value) || !RegistrationKeyOk(proof.value) {
      return None;
    }
    var ok := CheckSignature(f, token, proof.value, proof.value.jwk, a);
    if !ok {
      return None;
    }
  }

  method VerifyWithJwk(f: Foreign, token: string, jwk: string, a: JwtAlloc) returns (proof: Option<Proof>)
    ensures proof == Affordable(a, RefreshProof(f, token, jwk))
  {
    proof := ReadToken(f, token, a);
    if proof.None? {
      return None;
    }
    if proof.value.jwk.Some? || !TypeOk(proof.value) || proof.value.algorithm == NONE {
      return None;
    }
    var ok := CheckSignature(f, token, proof.value, Some(jwk), a);
    if !ok {
      return None;
    }
  }

  /** A token that is three dot-free parts, the first two signed by a key with one of the two algorithms. */
  ghost predicate SignedBy(f: Foreign, token: string, alg: string, jwk: string) {
    exists parts: Parts :: Delimited(token, parts) && SignsParts(f, alg, jwk, parts)
  }

  ghost predicate Delimited(token: string, p: Parts) {
    token == Rejoined(p) && DotFree(p.header) && DotFree(p.payload) && DotFree(p.signature)
  }

  predicate SignsParts(f: Foreign, alg: string, jwk: string, p: Parts) {
    var sig := Decode(p.signature);
    && (alg == "ES256" || alg == "RS256")
    && sig.Some? && (alg == "ES256" ==> |sig.value| == 64)
    && f.verify(alg, jwk, p.header + "." + p.payload, sig.value)
  }

  lemma SignatureIs(f: Foreign, token: string, p: Proof, jwk: string)
    requires DecodeToken(f, token) == Some(p) && p.algorithm != NONE
    ensures SignatureOk(f, token, p, Some(jwk)) <==> SignedBy(f, token, p.algorithm, jwk)
  {
    hide Split, Decode, Rejoined;
    var parts := Split(token).value;
    SplitIff(token, parts);
    assert p.signature == parts.signature;
    assert SignatureOk(f, token, p, Some(jwk)) <==> SignsParts(f, p.algorithm, jwk, parts);
    if SignedBy(f, token, p.algorithm, jwk) {
      var other :| Delimited(token, other) && SignsParts(f, p.algorithm, jwk, other);
      SplitIff(token, other);
    }
  }

  /** What a token says: three dot-free parts, of which two decode to a header and a payload with these claims. */
  ghost predicate Says(f: Foreign, token: string, p: Proof) {
    exists parts: Parts, h: seq<byte>, b: seq<byte>, c: Claims :: SaysBy(f, token, p, parts, h, b, c)
  }

  /** An algorithm and a jti are there; type, key and authorization are what they are, or absent. */
  ghost predicate SaysBy(f: Foreign, token: string, p: Proof, parts: Parts, h: seq<byte>, b: seq<byte>, c: Claims) {
    && Delimited(token, parts)
    && Decode(parts.header) == Some(h) && Decode(parts.payload) == Some(b) && f.parse(h, b) == Some(c)
    && c.alg == Some(p.algorithm) && c.jti == Some(p.challenge)
    && p.typ == c.typ && p.jwk == c.jwk && p.authorization == c.authorization && p.signature == parts.signature
  }

  /** Decoding yields exactly what the token says. */
  lemma DecodeTokenIff(f: Foreign, token: string, p: Proof)
    ensures DecodeToken(f, token) == Some(p) <==> Says(f, token, p)
  {
    hide Split, Decode, Rejoined, DotFree;
    if DecodeToken(f, token) == Some(p) {
      var parts := Split(token).value;
      SplitDelimits(token, parts);
      var h, b := Decode(parts.header).value, Decode(parts.payload).value;
      assert SaysBy(f, token, p, parts, h, b, f.parse(h, b).value);
    }
    forall parts, h, b, c | SaysBy(f, token, p, parts, h, b, c) ensures DecodeToken(f, token) == Some(p) {
      SplitDelimits(token, parts);
    }
  }

  lemma SplitDelimits(token: string, parts: Parts)
    ensures Split(token) == Some(parts) <==> Delimited(token, parts)
  {
    SplitIff(token, parts);
  }

  /** A token without an algorithm or without a jti is not decoded. */
  lemma MissingClaim(f: Foreign, token: string, parts: Parts, h: seq<byte>, b: seq<byte>, c: Claims)
    requires Delimited(token, parts) && Decode(parts.header) == Some(h) && Decode(parts.payload) == Some(b)
    requires f.parse(h, b) == Some(c) && (c.alg.None? || c.jti.None?)
    ensures DecodeToken(f, token).None?
  {
    hide Split, Decode, Rejoined, DotFree;
    SplitDelimits(token, parts);
  }

  /** Which registration proofs are accepted: unsigned without a key, or signed by the key they carry. */
  lemma RegistrationProofIff(f: Foreign, token: string, p: Proof)
    ensures RegistrationProof(f, token) == Some(p) <==>
            && Says(f, token, p) && p.typ == Some("dbsc+jwt")
            && ((p.algorithm == "none" && p.jwk == None)
                || (p.jwk.Some? && SignedBy(f, token, p.algorithm, p.jwk.value)))
  {
    DecodeTokenIff(f, token, p);
    hide DecodeToken, Says;
    if DecodeToken(f, token) == Some(p) && p.algorithm != NONE && p.jwk.Some? {
      SignatureIs(f, token, p, p.jwk.value);
    }
  }

  /** Which refresh proofs are accepted: signed by the pinned key, carrying no key of their own. */
  lemma RefreshProofIff(f: Foreign, token: string, jwk: string, p: Proof)
    ensures RefreshProof(f, token, jwk) == Some(p) <==>
            && Says(f, token, p) && p.typ == Some("dbsc+jwt") && p.jwk == None
            && SignedBy(f, token, p.algorithm, jwk)
  {
    DecodeTokenIff(f, token, p);
    hide DecodeToken, Says;
    if DecodeToken(f, token) == Some(p) && p.algorithm != NONE {
      SignatureIs(f, token, p, jwk);
    }
  }
}
