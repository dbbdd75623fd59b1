/** `check_iframe_compatibility`: one HEAD probe of a URL, and a header rule
    that decides whether the page is likely to render inside an iframe. */
module Iframe {
  import opened Text
  import opened Http

  /** The probe's outcome: the response headers, or a failure. */
  type Probe = Fetch<Headers>

  const XFrameOptions := "X-Frame-Options"
  const ContentSecurityPolicy := "Content-Security-Policy"
  const FrameAncestors := "frame-ancestors"
  const FrameAncestorsNone := "frame-ancestors 'none'"
  const FrameAncestorsSrc := "frame-ancestors 'src'"

  /** The lower-cased X-Frame-Options value forbids framing. */
  predicate XfoForbids(h: Headers)
    ensures XfoForbids(h) ==> ValuesOf(h, XFrameOptions) != []
  {
    var xfo := ToLower(HeaderGet(h, XFrameOptions, ""));
    xfo == "deny" || xfo == "sameorigin"
  }

  /** The Content-Security-Policy value has a `frame-ancestors` check that
      the source treats as forbidding framing. */
  predicate CspForbids(h: Headers)
    ensures CspForbids(h) ==> ValuesOf(h, ContentSecurityPolicy) != []
  {
    var csp := HeaderGet(h, ContentSecurityPolicy, "");
    Contains(csp, FrameAncestors)
    && (Contains(csp, FrameAncestorsNone) || Contains(csp, FrameAncestorsSrc))
  }

  /** True when the page is likely to render in an iframe. Any HTTP status
      error, transport error or other exception yields false: the rule
      fails closed. */
  function CheckIframeCompatibility(probe: Probe): (r: bool)
    ensures r ==> probe.Response? && IsSuccess(probe.status)
    ensures probe.Response? && IsSuccess(probe.status) && XfoForbids(probe.payload) ==> !r
  {
    match probe
    case Response(status, h) =>
      if !IsSuccess(status) then false
      else if XfoForbids(h) then false
      else if CspForbids(h) then false
      else true
    case TransportFailure => false
    case OtherFailure => false
  }

  /** The header rule stated on its own: neither header value (a missing
      header reading as the empty string) is blocking, where a CSP blocks
      when one of the two literal `frame-ancestors` phrases occurs anywhere
      in it. The source's outer `'frame-ancestors' in csp` guard adds
      nothing. */
  lemma {:induction false} HeaderRule(h: Headers, status: int)
    requires IsSuccess(status)
    ensures CheckIframeCompatibility(Response(status, h)) <==>
      var xfo := ToLower(HeaderGet(h, XFrameOptions, ""));
      var csp := HeaderGet(h, ContentSecurityPolicy, "");
      xfo != "deny" && xfo != "sameorigin"
      && !(exists i :: InfixAt(csp, FrameAncestorsNone, i))
      && !(exists i :: InfixAt(csp, FrameAncestorsSrc, i))
  {
    var csp := HeaderGet(h, ContentSecurityPolicy, "");
    ContainsIffOccurs(csp, FrameAncestorsNone);
    ContainsIffOccurs(csp, FrameAncestorsSrc);
    if Contains(csp, FrameAncestorsNone) {
      assert FrameAncestorsNone[..|FrameAncestors|] == FrameAncestors;
      ContainsPrefix(csp, FrameAncestorsNone, FrameAncestors);
    }
    if Contains(csp, FrameAncestorsSrc) {
      assert FrameAncestorsSrc[..|FrameAncestors|] == FrameAncestors;
      ContainsPrefix(csp, FrameAncestorsSrc, FrameAncestors);
    }
  }

  /** Whatever contains `p` contains every prefix of `p`. */
  lemma ContainsPrefix(s: string, p: string, q: string)
    requires |q| <= |p| && p[..|q|] == q
    requires Contains(s, p)
    ensures Contains(s, q)
  {
    ContainsIffOccurs(s, p);
    var i :| InfixAt(s, p, i);
    assert s[i..i + |q|] == p[..|q|];
    assert InfixAt(s, q, i);
    ContainsIffOccurs(s, q);
  }

  /** A successful probe without either header is judged embeddable. */
  lemma NoHeadersIsEmbeddable(status: int)
    requires IsSuccess(status)
    ensures CheckIframeCompatibility(Response(status, []))
  {
    assert !Contains("", FrameAncestors);
  }

  /** The X-Frame-Options value decides before any CSP is looked at: a
      single `SAMEORIGIN` (in any letter case) blocks whatever else the
      response carries. */
  lemma SameOriginBlocksRegardlessOfCsp(status: int, name: string, rest: Headers)
    requires IsSuccess(status)
    requires ToLower(name) == ToLower(XFrameOptions)
    requires ValuesOf(rest, XFrameOptions) == []
    ensures !CheckIframeCompatibility(Response(status, [(name, "SAMEORIGIN")] + rest))
  {
    var h := [(name, "SAMEORIGIN")] + rest;
    assert h[1..] == rest;
    assert ValuesOf(h, XFrameOptions) == ["SAMEORIGIN"];
  }

  /** httpx joins a repeated header into one value, so two `DENY` headers
      read as `deny, deny`, which the rule does not recognise: the page is
      judged embeddable. */
  lemma RepeatedDenyIsNotRecognised(status: int)
    requires IsSuccess(status)
    ensures CheckIframeCompatibility(Response(status, [(XFrameOptions, "DENY"), (XFrameOptions, "DENY")]))
  {
    var h := [(XFrameOptions, "DENY"), (XFrameOptions, "DENY")];
    assert h[1..][1..] == [];
    assert ValuesOf(h, XFrameOptions) == ["DENY", "DENY"];
    assert HeaderGet(h, XFrameOptions, "") == "DENY, DENY";
    assert ToLower("DENY, DENY") == "deny, deny";
    assert ValuesOf(h, ContentSecurityPolicy) == [];
    assert !Contains("", FrameAncestors);
  }
}
