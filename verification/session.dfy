/** The route guard wrapped around every page after login: it reads the
    stored token, decodes it, and either lets the page render inside the
    layout or clears the stored session and sends the user to the login route. */
module Session {

  import opened Basics
  import opened Store

  /** What the token decoder yields: it throws on a malformed token, and
      otherwise returns the payload, whose `exp` claim may be missing. */
  datatype Decoded = Malformed | Payload(exp: Option<int>)

  /** The decoder is a foreign library; the guard receives it as a parameter. */
  type Decoder = string -> Decoded

  /** The outcome of one run of the guard's check. */
  datatype Check = Check(authorized: bool, storage: Storage)

  /** The stored token, when there is one and it is not the empty string. */
  predicate HasToken(st: Storage)
  {
    SessionKey in st && st[SessionKey] != ""
  }

  /** `decoded.exp && decoded.exp > now`: a present, non-zero expiry
      strictly later than the current time (whole seconds). */
  predicate Unexpired(d: Decoded, now: int)
  {
    d.Payload? && d.exp.Some? && d.exp.value != 0 && d.exp.value > now
  }

  /** The guard's check: authorised iff a non-empty token is stored,
      decodes, and is unexpired; every other outcome removes both session
      keys and nothing else. */
  function Guard(st: Storage, decode: Decoder, now: int): (r: Check)
    ensures r.authorized <==> HasToken(st) && Unexpired(decode(st[SessionKey]), now)
    ensures r.authorized ==> r.storage == st
    ensures !r.authorized ==> Get(r.storage, SessionKey).None? && Get(r.storage, IndexKey).None?
    ensures !r.authorized ==> forall k :: k in st && k != SessionKey && k != IndexKey ==> k in r.storage && r.storage[k] == st[k]
  {
    if SessionKey in st && st[SessionKey] != "" then
      match decode(st[SessionKey])
      case Malformed => Check(false, ClearSession(st))
      case Payload(exp) =>
        if exp.Some? && exp.value != 0 && exp.value > now then Check(true, st)
        else Check(false, ClearSession(st))
    else
      Check(false, ClearSession(st))
  }

  /** A token that does not decode is handled exactly like one that has
      expired. */
  lemma MalformedIsLikeExpired(st: Storage, broken: Decoder, expired: Decoder, now: int)
    requires HasToken(st)
    requires broken(st[SessionKey]) == Malformed
    requires expired(st[SessionKey]).Payload? && expired(st[SessionKey]).exp.Some?
    requires expired(st[SessionKey]).exp.value <= now
    ensures Guard(st, broken, now) == Guard(st, expired, now)
  {
  }

  /** A refused session leaves storage exactly as the logout button does. */
  lemma RefusalIsLogout(st: Storage, decode: Decoder, now: int)
    ensures !Guard(st, decode, now).authorized ==> Guard(st, decode, now).storage == LogOut(st).storage
  {
  }

  /** Running the check again on what it left behind changes nothing: a
      refusal has removed the token, so the next run refuses too. */
  lemma GuardIdempotent(st: Storage, decode: Decoder, now: int)
    ensures var first := Guard(st, decode, now);
            Guard(first.storage, decode, now) == first
  {
  }

  /** Expiry is a strict bound: a token is refused at its `exp` second and
      accepted the second before. */
  lemma ExpiryBoundary(st: Storage, decode: Decoder, exp: int)
    requires HasToken(st) && decode(st[SessionKey]) == Payload(Some(exp)) && exp != 0
    ensures !Guard(st, decode, exp).authorized
    ensures Guard(st, decode, exp - 1).authorized
  {
  }

  /** Time only takes authorisation away: a session accepted at `later`
      was accepted at every earlier time, and one refused at `earlier` is
      refused from then on. */
  lemma GuardMonotoneInTime(st: Storage, decode: Decoder, earlier: int, later: int)
    requires earlier <= later
    ensures Guard(st, decode, later).authorized ==> Guard(st, decode, earlier).authorized
    ensures !Guard(st, decode, earlier).authorized ==> !Guard(st, decode, later).authorized
  {
  }

  /** What the guarded route shows. */
  datatype Screen = LayoutWithPage | RedirectTo(path: string)

  /** The state starts authorised, before the check has run. */
  const InitiallyAuthorized: bool := true

  /** The guard's render: the layout wrapping the requested page before the
      check has run (`None`) and after an accepting check; a redirect to
      the login route after a refusing one. */
  function Render(check: Option<Check>): (s: Screen)
    ensures check.None? ==> s == LayoutWithPage
    ensures check.Some? ==> (s == LayoutWithPage <==> check.value.authorized)
    ensures s != LayoutWithPage ==> s == RedirectTo("/")
  {
    var authorized := if check.Some? then check.value.authorized else InitiallyAuthorized;
    if authorized then LayoutWithPage else RedirectTo("/")
  }

  /** A stored token that is absent, empty, undecodable or expired ends on
      the login route with no session keys left. */
  lemma RefusedSessionsRedirect(st: Storage, decode: Decoder, now: int)
    requires !HasToken(st) || !Unexpired(decode(st[SessionKey]), now)
    ensures Render(Some(Guard(st, decode, now))) == RedirectTo("/")
    ensures SessionKey !in Guard(st, decode, now).storage && IndexKey !in Guard(st, decode, now).storage
  {
  }
}
