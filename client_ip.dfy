/**
 * The visitor's address as the login and logout log lines record it: the first
 * entry of the X-Forwarded-For header when a proxy set it, else the address of
 * the connection.
 */
module ClientIp {
  import opened Wrappers

  /** The request headers the rule reads; an absent header is `None`. */
  datatype RequestMeta = RequestMeta(forwardedFor: Option<string>, remoteAddr: Option<string>)

  /** The text before the first comma, or all of `s` when it has none. */
  function FirstField(s: string): (r: string)
    ensures r <= s
    ensures ',' !in r
    ensures |r| < |s| ==> s[|r|] == ','
  {
    if s == [] || s[0] == ',' then []
    else [s[0]] + FirstField(s[1..])
  }

  /** The client's address: the first comma-separated field of a non-empty
      X-Forwarded-For header, kept as it is (spaces included); otherwise the
      connection's remote address, which may itself be absent. */
  function GetClientIp(meta: RequestMeta): (r: Option<string>)
    ensures meta.forwardedFor.Some? && meta.forwardedFor.value != [] ==>
      && r.Some?
      && r.value <= meta.forwardedFor.value
      && ',' !in r.value
      && (|r.value| < |meta.forwardedFor.value| ==> meta.forwardedFor.value[|r.value|] == ',')
    ensures (meta.forwardedFor.None? || meta.forwardedFor.value == []) ==> r == meta.remoteAddr
  {
    match meta.forwardedFor
    case Some(header) =>
      if header != [] then Some(FirstField(header)) else meta.remoteAddr
    case None => meta.remoteAddr
  }

  /** The three properties of `FirstField` determine it: any prefix without a
      comma that stops at a comma or at the end is the first field. */
  lemma {:induction false} FirstFieldUnique(s: string, r: string)
    requires r <= s && ',' !in r
    requires |r| < |s| ==> s[|r|] == ','
    ensures r == FirstField(s)
  {
    if s != [] && s[0] != ',' {
      assert r != [];
      assert r[0] == s[0];
      FirstFieldUnique(s[1..], r[1..]);
    }
  }

  /** The first field of `a,b` is `a` when `a` has no comma. */
  lemma {:induction false} FirstFieldOfJoin(a: string, b: string)
    requires ',' !in a
    ensures FirstField(a + [','] + b) == a
  {
    FirstFieldUnique(a + [','] + b, a);
  }

  /** A proxy chain header yields its first hop; a missing or empty header falls
      back to the remote address. */
  lemma ClientIpExamples()
    ensures GetClientIp(RequestMeta(Some("203.0.113.7,10.0.0.1"), Some("10.0.0.2"))) == Some("203.0.113.7")
    ensures GetClientIp(RequestMeta(Some(""), Some("10.0.0.2"))) == Some("10.0.0.2")
    ensures GetClientIp(RequestMeta(None, None)) == None
  {
    FirstFieldOfJoin("203.0.113.7", "10.0.0.1");
    assert "203.0.113.7" + [','] + "10.0.0.1" == "203.0.113.7,10.0.0.1";
  }
}
