/** The Siemens Miniweb default-login check: the request description it hands to
    the brute-force engine, and its two callbacks, `build_post_request` (primes a
    session cookie and writes the credential into the form) and `validator`
    (carries the session cookie into a confirmation GET and looks for the
    logged-in marker in its body). */
module MiniwebLogin {
  import opened Wrappers
  import opened IgnoreCase
  import opened SessionCookie

  /** An HTTP response as the callbacks read it: the text of its `Set-Cookie`
      header (None when the header is absent) and its decoded body. */
  datatype Response = Response(setCookie: Option<string>, body: string)

  /** A GET issued through the transport: its URL (None where the source passes
      nil) and its headers (None when the call passes none). */
  datatype GetRequest = GetRequest(url: Option<string>, headers: Option<map<string, string>>)

  /** The transport: what a GET returns. */
  type Transport = GetRequest -> Response

  /** A user name and password to try. */
  datatype Credential = Credential(user: string, password: string)

  /** The Cookie header `validator` falls back to when it finds no session. */
  const DefaultCookie: string := "siemens_ad_secure_session=; siemens_ad_session=;"

  /** The empty secure-session pair at the head of every Cookie `validator` writes. */
  const SecureSessionPair: string := "siemens_ad_secure_session=; "

  /** The phrase whose presence in the confirmation page means success. */
  const LoggedInMarker: string := "You are logged in."

  /** A hash lookup: the value, or None where Ruby returns nil. */
  function Lookup(m: map<string, string>, key: string): Option<string> {
    if key in m then Some(m[key]) else None
  }

  /** The session value a callback reads from a response's `Set-Cookie` header:
      none when the header is absent, else the group of the cookie pattern. */
  function SessionValue(setCookie: Option<string>): (r: Option<string>)
    ensures setCookie.None? ==> r.None?
    ensures setCookie.Some? ==> (r.None? <==> forall i: nat :: !MatchesAt(setCookie.value, i))
    ensures setCookie.Some? ==> forall v :: r == Some(v) <==> LeftmostCapture(setCookie.value, v)
    ensures r.Some? ==> ';' !in r.value && '\n' !in r.value
  {
    match setCookie
    case None => None
    case Some(text) =>
      ExtractSessionNone(text);
      ExtractSessionSpecAll(text);
      ExtractSession(text)
  }

  /** The name-value pair `siemens_ad_session=<v>;`. */
  function SessionPair(v: string): string {
    Name + v + ";"
  }

  /** A session pair read back through the cookie pattern yields its value. */
  lemma SessionPairRoundTrip(v: string)
    requires ';' !in v && '\n' !in v
    ensures ExtractSession(SessionPair(v)) == Some(v)
  {
    assert [] + Name + v + ";" + [] == SessionPair(v);
    SessionOnFreshLine([], Name, v, []);
  }

  /** The Cookie header `validator` writes for the login response's `Set-Cookie`. */
  function ValidatorCookie(setCookie: Option<string>): (r: string)
    ensures setCookie.None? ==> r == DefaultCookie
    ensures setCookie.Some? && (forall i: nat :: !MatchesAt(setCookie.value, i)) ==> r == DefaultCookie
    ensures forall v :: setCookie.Some? && LeftmostCapture(setCookie.value, v) ==>
                          r == SecureSessionPair + "siemens_ad_session=" + v + ";"
  {
    match SessionValue(setCookie)
    case None => DefaultCookie
    case Some(v) => SecureSessionPair + SessionPair(v)
  }

  /** The header `validator` writes is the default exactly when there is no
      session value or the captured value is empty. */
  lemma ValidatorCookieIsDefault(setCookie: Option<string>)
    ensures ValidatorCookie(setCookie) == DefaultCookie <==>
              SessionValue(setCookie).None? || SessionValue(setCookie) == Some("")
  {
    assert SessionPair("") == Name + ";";
    assert DefaultCookie == SecureSessionPair + (Name + ";");
    match SessionValue(setCookie)
    case None =>
    case Some(v) =>
      var c := SecureSessionPair + SessionPair(v);
      assert ValidatorCookie(setCookie) == c;
      assert |c| == |DefaultCookie| + |v|;
  }

  /** Only the leftmost match counts: when the `Set-Cookie` text starts with a
      session pair, whatever follows it, later session pairs included (even an
      empty one), does not change the Cookie. */
  lemma LeftmostSessionWins(v: string, q: string)
    requires ';' !in v && '\n' !in v
    ensures ValidatorCookie(Some(SessionPair(v) + q)) == SecureSessionPair + SessionPair(v)
  {
    assert [] + Name + v + ";" + q == SessionPair(v) + q;
    SessionOnFreshLine([], Name, v, q);
  }

  /** After the empty secure-session pair, the header `validator` writes holds
      one session pair, and reading it back through the cookie pattern yields
      the session value of the response, or the empty value when it had none. */
  lemma ValidatorCookieCarriesSession(setCookie: Option<string>)
    ensures |SecureSessionPair| <= |ValidatorCookie(setCookie)|
    ensures ValidatorCookie(setCookie)[..|SecureSessionPair|] == SecureSessionPair
    ensures ExtractSession(ValidatorCookie(setCookie)[|SecureSessionPair|..]) ==
              Some(SessionValue(setCookie).GetOr(""))
  {
    var v := SessionValue(setCookie).GetOr("");
    assert SessionPair("") == Name + ";";
    assert DefaultCookie == SecureSessionPair + (Name + ";");
    assert ValidatorCookie(setCookie) == SecureSessionPair + SessionPair(v);
    assert ValidatorCookie(setCookie)[|SecureSessionPair|..] == SessionPair(v);
    SessionPairRoundTrip(v);
  }

  /** The headers `build_post_request` leaves behind for the priming response's
      `Set-Cookie`. */
  function PrimedHeaders(headers: map<string, string>, setCookie: Option<string>): (r: map<string, string>)
    ensures setCookie.None? ==> r == headers
    ensures setCookie.Some? && (forall i: nat :: !MatchesAt(setCookie.value, i)) ==> r == headers
    ensures forall v :: setCookie.Some? && LeftmostCapture(setCookie.value, v) ==>
                          r == headers["Cookie" := "siemens_ad_session=" + v + ";"]
    ensures forall k :: k != "Cookie" ==> Lookup(r, k) == Lookup(headers, k)
  {
    match SessionValue(setCookie)
    case None => headers
    case Some(v) => headers["Cookie" := SessionPair(v)]
  }

  /** When the priming response sets a session, the Cookie header left behind
      reads back through the cookie pattern to that same session value. */
  lemma PrimedCookieCarriesSession(headers: map<string, string>, setCookie: Option<string>)
    requires SessionValue(setCookie).Some?
    ensures "Cookie" in PrimedHeaders(headers, setCookie)
    ensures ExtractSession(PrimedHeaders(headers, setCookie)["Cookie"]) == SessionValue(setCookie)
  {
    SessionPairRoundTrip(SessionValue(setCookie).value);
  }

  /** The form fields after the credential is written into them. */
  function WithCredential(data: map<string, string>, credential: Credential): (r: map<string, string>)
    ensures Lookup(r, "Login") == Some(credential.user)
    ensures Lookup(r, "Password") == Some(credential.password)
    ensures r.Keys == data.Keys + {"Login", "Password"}
    ensures forall k :: k != "Login" && k != "Password" ==> Lookup(r, k) == Lookup(data, k)
  {
    data["Login" := credential.user]["Password" := credential.password]
  }

  /** Whether a confirmation page shows the marker, ignoring case: the truth
      value of `body.match(/You are logged in\./i)`. */
  function LoggedIn(body: string): (r: bool)
    ensures r <==> exists i: nat :: OccursAt(body, i, LoggedInMarker)
  {
    ContainsIgnoringCase(body, LoggedInMarker)
  }

  /** The marker is found in any letter case, anywhere in the body. */
  lemma LoggedInAnyCase(p: string, m: string, q: string)
    requires |m| == |LoggedInMarker| && OccursAt(m, 0, LoggedInMarker)
    ensures LoggedIn(p + m + q)
  {
    var body := p + m + q;
    forall k | 0 <= k < |LoggedInMarker|
      ensures Fold(body[|p| + k]) == Fold(LoggedInMarker[k])
    {
      assert body[|p| + k] == m[0 + k];
    }
    assert OccursAt(body, |p|, LoggedInMarker);
  }

  /** The escaped period of the marker is a literal dot, not a wildcard: a page
      without a `.` never counts as logged in. */
  lemma LoggedInNeedsDot(body: string)
    requires '.' !in body
    ensures !LoggedIn(body)
  {
    forall i: nat ensures !OccursAt(body, i, LoggedInMarker) {
      if i + |LoggedInMarker| <= |body| {
        var dot := |LoggedInMarker| - 1;
        assert body[i + dot] in body;
        assert Fold(body[i + dot]) != Fold(LoggedInMarker[dot]);
      }
    }
  }

  /** `scheme://host:port`, built from the parts of the target's URI. */
  function BaseUri(scheme: string, host: string, port: string): string {
    scheme + "://" + host + ":" + port
  }

  /** The request description (`task_information`) shared by the sweep and
      both callbacks; the callbacks update its two maps in place. */
  class TaskInformation {
    const httpMethod: string
    const uri: string
    var headers: map<string, string>
    var data: map<string, string>
    const followRedirects: bool
    const timeout: nat
    const threadCount: int

    /** The description the check builds for a target before the sweep. */
    constructor ForTarget(scheme: string, host: string, port: string, threads: int)
      ensures httpMethod == "post" && uri == BaseUri(scheme, host, port) + "/FormLogin"
      ensures headers == map[
                "Content-Type" := "application/x-www-form-urlencoded",
                "Origin" := BaseUri(scheme, host, port),
                "Referer" := BaseUri(scheme, host, port) + "/start.html"]
      ensures data == map[
                "Token" := "%=Token",
                "Redirection" := BaseUri(scheme, host, port) + "/start.html"]
      ensures followRedirects && timeout == 10 && threadCount == threads
    {
      var base := BaseUri(scheme, host, port);
      httpMethod := "post";
      uri := base + "/FormLogin";
      headers := map[
        "Content-Type" := "application/x-www-form-urlencoded",
        "Origin" := base,
        "Referer" := base + "/start.html"];
      data := map["Token" := "%=Token", "Redirection" := base + "/start.html"];
      followRedirects := true;
      timeout := 10;
      threadCount := threads;
    }

    /** `build_post_request`: fetches the login URI with a plain GET, keeps the
        session cookie it sets (as `Cookie: siemens_ad_session=<v>;`) when the
        pattern finds one, writes the credential into the form and reports
        success whatever happened. */
    method BuildPostRequest(credential: Credential, get: Transport) returns (primed: bool)
      modifies this
      ensures primed
      ensures headers == PrimedHeaders(old(headers), get(GetRequest(Some(uri), None)).setCookie)
      ensures data == WithCredential(old(data), credential)
    {
      var response := get(GetRequest(Some(uri), None));
      if response.setCookie.Some? {
        var session := ExtractSession(response.setCookie.value);
        if session.Some? {
          headers := headers["Cookie" := SessionPair(session.value)];
        }
      }
      data := data["Login" := credential.user];
      data := data["Password" := credential.password];
      primed := true;
    }

    /** `validator`: sets the Cookie header from the login response's
        `Set-Cookie` (the default when there is none or it holds no session),
        fetches the `Redirection` page with the updated headers, and succeeds
        exactly when that page shows the marker. */
    method Validator(response: Response, get: Transport) returns (loggedIn: bool)
      modifies this
      ensures data == old(data)
      ensures headers == old(headers)["Cookie" := ValidatorCookie(response.setCookie)]
      ensures loggedIn == LoggedIn(get(GetRequest(Lookup(data, "Redirection"), Some(headers))).body)
    {
      if response.setCookie.None? {
        headers := headers["Cookie" := DefaultCookie];
      } else {
        var session := ExtractSession(response.setCookie.value);
        if session.None? {
          headers := headers["Cookie" := DefaultCookie];
        } else {
          headers := headers["Cookie" := SecureSessionPair + SessionPair(session.value)];
        }
      }
      var confirmation := get(GetRequest(Lookup(data, "Redirection"), Some(headers)));
      loggedIn := LoggedIn(confirmation.body);
    }
  }
}
