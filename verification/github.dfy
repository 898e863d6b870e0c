/**
  GitHub-specific request handling: the `X-Hub-Signature-256` value and its
  comparison with a computed digest, and the classification of the
  `X-Hub-Signature-256`, `X-GitHub-Event` and `User-Agent` headers that the
  request guards perform. A header is `None` when the request lacks it and
  `Some(v)` with its first value otherwise.
*/
module GitHub {
  import opened Wrappers
  import opened Http

  const HexDigits: string := "0123456789abcdef"
  const SignaturePrefix: string := "sha256="
  const HookshotPrefix: string := "GitHub-Hookshot/"

  // ---------------------------------------------------------------------
  // Lower-case hex (`hex::encode`).
  // ---------------------------------------------------------------------

  function HexDigit(n: bv8): (c: char)
    requires n < 16
    ensures c in HexDigits
  {
    HexDigits[n as int]
  }

  /** The value of a lower-case hex digit; the inverse of HexDigit. */
  function HexValue(c: char): (n: bv8)
    ensures n < 16
  {
    if '0' <= c <= '9' then (c as int - '0' as int) as bv8
    else if 'a' <= c <= 'f' then (c as int - 'a' as int + 10) as bv8
    else 0
  }

  /** Two lower-case hex digits per byte, high nibble first. */
  function Hex(d: seq<bv8>): (h: string)
    ensures |h| == 2 * |d|
  {
    if d == [] then [] else [HexDigit(d[0] >> 4), HexDigit(d[0] & 0xF)] + Hex(d[1..])
  }

  lemma HexValueOfDigit(n: bv8)
    requires n < 16
    ensures HexValue(HexDigit(n)) == n
  {
    if n < 8 {
      if n < 4 {
        if n < 2 { assert n == 0 || n == 1; } else { assert n == 2 || n == 3; }
      } else {
        if n < 6 { assert n == 4 || n == 5; } else { assert n == 6 || n == 7; }
      }
    } else {
      if n < 12 {
        if n < 10 { assert n == 8 || n == 9; } else { assert n == 10 || n == 11; }
      } else {
        if n < 14 { assert n == 12 || n == 13; } else { assert n == 14 || n == 15; }
      }
    }
  }

  /** Every character of an encoding is a lower-case hex digit. */
  lemma {:induction false} HexIsLowercase(d: seq<bv8>)
    ensures forall i :: 0 <= i < |Hex(d)| ==> Hex(d)[i] in HexDigits
  {
    if d != [] {
      HexIsLowercase(d[1..]);
      var h := Hex(d);
      assert forall i :: 2 <= i < |h| ==> h[i] == Hex(d[1..])[i - 2];
    }
  }

  /** Hex encoding is injective: distinct digests have distinct encodings. */
  lemma {:induction false} HexInjective(a: seq<bv8>, b: seq<bv8>)
    requires Hex(a) == Hex(b)
    ensures a == b
  {
    if a != [] {
      assert |b| == |a|;
      var ha, hb := Hex(a), Hex(b);
      assert ha[0] == hb[0] && ha[1] == hb[1];
      HexValueOfDigit(a[0] >> 4); HexValueOfDigit(b[0] >> 4);
      HexValueOfDigit(a[0] & 0xF); HexValueOfDigit(b[0] & 0xF);
      assert a[0] >> 4 == b[0] >> 4 && a[0] & 0xF == b[0] & 0xF;
      assert a[0] == b[0];
      assert Hex(a[1..]) == ha[2..] == hb[2..] == Hex(b[1..]);
      HexInjective(a[1..], b[1..]);
    }
  }

  // ---------------------------------------------------------------------
  // The signature header and its comparison with a digest.
  // ---------------------------------------------------------------------

  /** The `X-Hub-Signature-256` header value, kept verbatim. */
  datatype Signature = Signature(header: string)

  /** `Signature == Vec<u8>`: the header equals "sha256=" followed by the digest's hex. */
  predicate SignatureEqDigest(sig: Signature, digest: seq<bv8>)
  {
    sig.header == SignaturePrefix + Hex(digest)
  }

  /** `Vec<u8> == Signature`, the direction the handler uses. */
  predicate DigestEqSignature(digest: seq<bv8>, sig: Signature)
  {
    SignaturePrefix + Hex(digest) == sig.header
  }

  /** The two comparison directions agree. */
  lemma ComparisonSymmetric(sig: Signature, digest: seq<bv8>)
    ensures SignatureEqDigest(sig, digest) <==> DigestEqSignature(digest, sig)
  {
  }

  /** A matching header is "sha256=" followed by exactly 2n lower-case hex digits. */
  lemma MatchingHeaderShape(sig: Signature, digest: seq<bv8>)
    requires SignatureEqDigest(sig, digest)
    ensures |sig.header| == |SignaturePrefix| + 2 * |digest|
    ensures sig.header[..|SignaturePrefix|] == SignaturePrefix
    ensures forall i :: |SignaturePrefix| <= i < |sig.header| ==> sig.header[i] in HexDigits
  {
    HexIsLowercase(digest);
    assert forall i :: |SignaturePrefix| <= i < |sig.header| ==>
      sig.header[i] == Hex(digest)[i - |SignaturePrefix|];
  }

  /** A header with another prefix (such as "SHA256=") or any character after the prefix that is not a lower-case hex digit (such as upper-case hex) never matches. */
  lemma MalformedHeaderNeverMatches(sig: Signature, digest: seq<bv8>)
    requires || (|sig.header| >= |SignaturePrefix| && sig.header[..|SignaturePrefix|] != SignaturePrefix)
             || (exists i :: |SignaturePrefix| <= i < |sig.header| && sig.header[i] !in HexDigits)
    ensures !SignatureEqDigest(sig, digest)
  {
    if SignatureEqDigest(sig, digest) {
      MatchingHeaderShape(sig, digest);
      assert false;
    }
  }

  /** A header matches at most one digest. */
  lemma HeaderDeterminesDigest(sig: Signature, a: seq<bv8>, b: seq<bv8>)
    requires SignatureEqDigest(sig, a) && SignatureEqDigest(sig, b)
    ensures a == b
  {
    assert Hex(a) == sig.header[|SignaturePrefix|..] == Hex(b);
    HexInjective(a, b);
  }

  // ---------------------------------------------------------------------
  // Request guards.
  // ---------------------------------------------------------------------

  datatype SignatureError = SignatureMissing

  /** The signature guard: a present `X-Hub-Signature-256` value is kept verbatim. */
  function SignatureFromRequest(header: Option<string>): (o: Outcome<Signature, SignatureError>)
    ensures o.Success? <==> header.Some?
    ensures o.Success? ==> o.value.header == header.value
    ensures o.Failure? ==> o.status == NotFound && o.error == SignatureMissing
  {
    match header
    case Some(sig) => Success(Signature(sig))
    case None => Failure(NotFound, SignatureMissing)
  }

  /** The events a GitHub hook can announce; only `Push` is ever recognised. */
  datatype Event = Push | Issue

  datatype EventError = EventMissing | EventInvalid

  /** The event guard over `X-GitHub-Event`. */
  function EventFromRequest(header: Option<string>): (o: Outcome<Event, EventError>)
    ensures o.Success? <==> header == Some("push")
    ensures o.Success? ==> o.value == Push
    ensures o.Failure? ==> o.status == NotFound
    ensures o.Failure? ==> (o.error == EventMissing <==> header.None?)
  {
    match header
    case Some(e) => if e == "push" then Success(Push) else Failure(NotFound, EventInvalid)
    case None => Failure(NotFound, EventMissing)
  }

  /** The service a request comes from (the `Github` guard). */
  datatype Service = Github

  datatype ServiceError = ServiceMissing | ServiceInvalid

  predicate StartsWith(s: string, prefix: string)
  {
    |prefix| <= |s| && s[..|prefix|] == prefix
  }

  /** The `User-Agent` guard. */
  function GithubFromRequest(userAgent: Option<string>): (o: Outcome<Service, ServiceError>)
    ensures o.Success? <==> userAgent.Some? && StartsWith(userAgent.value, HookshotPrefix)
    ensures o.Failure? ==> o.status == NotFound
    ensures o.Failure? ==> (o.error == ServiceMissing <==> userAgent.None?)
  {
    match userAgent
    case Some(ua) =>
      if StartsWith(ua, HookshotPrefix) then Success(Github) else Failure(NotFound, ServiceInvalid)
    case None => Failure(NotFound, ServiceMissing)
  }

  /** Any User-Agent made of the Hookshot prefix and some version is accepted, and only those are. */
  lemma {:induction false} HookshotAgentsAccepted(userAgent: string)
    ensures GithubFromRequest(Some(userAgent)).Success? <==>
            exists version :: userAgent == HookshotPrefix + version
  {
    if GithubFromRequest(Some(userAgent)).Success? {
      var version := userAgent[|HookshotPrefix|..];
      assert userAgent == HookshotPrefix + version;
    }
  }

  // ---------------------------------------------------------------------
  // The payload fields the handler reads (parsing itself is external).
  // ---------------------------------------------------------------------

  datatype PayloadRepositoryOwner = PayloadRepositoryOwner(login: string, id: nat)

  datatype PayloadRepository = PayloadRepository(
    id: nat, name: string, fullName: string, isPrivate: bool,
    owner: PayloadRepositoryOwner, htmlUrl: string, sshUrl: string)

  datatype Payload = Payload(repository: PayloadRepository)
}
