/** The sign-in state of auth.js: the signed-in user (`googleUser`), the callbacks
    registered for sign-in and sign-out (`authCallbacks`), and the alphabet change
    that turns the payload segment of an ID token from base64url into base64. */
module Auth {
  import opened Strings

  /** The user record stored after sign-in. */
  datatype User = User(id: string, name: string, email: string, picture: string, token: string)

  /** The claims of an ID token's payload that the handler reads. */
  datatype Payload = Payload(sub: string, name: string, email: string, picture: string)

  /** A registered callback, identified by its registration. What it does is not part
      of this model; whether calling it throws is given by a parameter. */
  datatype Callback = Callback(handle: nat)

  /** One call made by the notifier: the callback, the user it was given, and whether
      it threw (the notifier catches and goes on). */
  datatype Call = Call(callback: Callback, user: Option<User>, threw: bool)

  /** What a sign-in attempt did. */
  datatype SignInOutcome =
    | NoCredential                 // `response.credential` missing or empty: nothing happens
    | DecodeFailed                 // `decodeJwtPayload` threw: the error leaves the handler
    | SignedIn(calls: seq<Call>)   // the user was set and the sign-in callbacks were called

  /** `event === 'signIn' ? onSignIn : onSignOut`. */
  function Selected(event: string, onSignIn: seq<Callback>, onSignOut: seq<Callback>): seq<Callback> {
    if event == "signIn" then onSignIn else onSignOut
  }

  /** Every callback of `callbacks`, in order, called with `user`. */
  predicate CalledInOrder(calls: seq<Call>, callbacks: seq<Callback>, user: Option<User>,
                          throws: (Callback, Option<User>) -> bool) {
    |calls| == |callbacks| &&
    forall i :: 0 <= i < |calls| ==> calls[i] == Call(callbacks[i], user, throws(callbacks[i], user))
  }

  class AuthState {
    var googleUser: Option<User>
    var onSignIn: seq<Callback>
    var onSignOut: seq<Callback>

    constructor ()
      ensures googleUser == None && onSignIn == [] && onSignOut == []
    {
      googleUser := None;
      onSignIn := [];
      onSignOut := [];
    }

    /** `isSignedIn()`. */
    function IsSignedIn(): bool
      reads this
    {
      googleUser != None
    }

    /** `getUserId()`: the user's id, or null when nobody is signed in. */
    function GetUserId(): (r: Option<string>)
      reads this
      ensures r.Some? <==> IsSignedIn()
      ensures r.Some? ==> r.value == googleUser.value.id
    {
      if googleUser.Some? then Some(googleUser.value.id) else None
    }

    /** `onAuthStateChange(event, callback)`. */
    method OnAuthStateChange(event: string, callback: Callback)
      modifies this
      ensures googleUser == old(googleUser)
      ensures onSignIn == old(onSignIn) + (if event == "signIn" then [callback] else [])
      ensures onSignOut == old(onSignOut) + (if event == "signOut" then [callback] else [])
    {
      if event == "signIn" {
        onSignIn := onSignIn + [callback];
      } else if event == "signOut" {
        onSignOut := onSignOut + [callback];
      }
    }

    /** `notifyAuthChange(event)`: each callback of the chosen list is called with the
        current user; one that throws does not stop the rest. */
    method NotifyAuthChange(event: string, throws: (Callback, Option<User>) -> bool) returns (calls: seq<Call>)
      ensures CalledInOrder(calls, Selected(event, onSignIn, onSignOut), googleUser, throws)
    {
      var callbacks := if event == "signIn" then onSignIn else onSignOut;
      calls := [];
      for i := 0 to |callbacks|
        invariant CalledInOrder(calls, callbacks[..i], googleUser, throws)
      {
        var threw := throws(callbacks[i], googleUser);
        calls := calls + [Call(callbacks[i], googleUser, threw)];
      }
      assert callbacks[..|callbacks|] == callbacks;
    }

    /** `signOutGoogle()`. */
    method SignOutGoogle(throws: (Callback, Option<User>) -> bool) returns (calls: seq<Call>)
      modifies this
      ensures googleUser == None && !IsSignedIn() && GetUserId() == None
      ensures onSignIn == old(onSignIn) && onSignOut == old(onSignOut)
      ensures CalledInOrder(calls, onSignOut, None, throws)
    {
      googleUser := None;
      calls := NotifyAuthChange("signOut", throws);
    }

    /** `handleCredentialResponse(response)`, with `parse` standing for the base64
        and JSON decoding of the payload, which fails on malformed input. */
    method HandleCredentialResponse(credential: string, parse: string -> Option<Payload>,
                                    throws: (Callback, Option<User>) -> bool)
      returns (outcome: SignInOutcome)
      modifies this
      ensures onSignIn == old(onSignIn) && onSignOut == old(onSignOut)
      ensures credential == "" ==> outcome == NoCredential && googleUser == old(googleUser)
      ensures credential != "" && DecodePayload(credential, parse).None? ==>
        outcome == DecodeFailed && googleUser == old(googleUser)
      ensures credential != "" && DecodePayload(credential, parse).Some? ==>
        var p := DecodePayload(credential, parse).value;
        googleUser == Some(User(p.sub, p.name, p.email, p.picture, credential)) &&
        outcome.SignedIn? && CalledInOrder(outcome.calls, onSignIn, googleUser, throws)
    {
      if credential == "" {
        return NoCredential;
      }
      var payload := DecodePayload(credential, parse);
      if payload.None? {
        return DecodeFailed;
      }
      var p := payload.value;
      googleUser := Some(User(p.sub, p.name, p.email, p.picture, credential));
      var calls := NotifyAuthChange("signIn", throws);
      outcome := SignedIn(calls);
    }
  }

  // ---------------------------------------------------------------------------
  // The payload segment

  /** `token.split('.')[1]`, absent when the token has no `.`. */
  function PayloadSegment(token: string): (r: Option<string>)
    ensures r.Some? <==> '.' in token
    ensures r.Some? ==> '.' !in r.value
  {
    var parts := Split(token, '.');
    if |parts| >= 2 then Some(parts[1]) else None
  }

  /** In `header.payload.signature` the segment is the payload, whatever the
      signature holds. */
  lemma PayloadOfThreeParts(header: string, payload: string, signature: string)
    requires '.' !in header && '.' !in payload
    ensures PayloadSegment(header + "." + payload + "." + signature) == Some(payload)
  {
    var token := header + "." + payload + "." + signature;
    assert token == header + ['.'] + (payload + ['.'] + signature);
    SplitCons(header, '.', payload + ['.'] + signature);
    SplitCons(payload, '.', signature);
  }

  /** With a single `.`, the segment is everything after it. */
  lemma PayloadOfTwoParts(header: string, payload: string)
    requires '.' !in header && '.' !in payload
    ensures PayloadSegment(header + "." + payload) == Some(payload)
  {
    var token := header + "." + payload;
    assert token == header + ['.'] + payload;
    SplitCons(header, '.', payload);
  }

  /** `decodeJwtPayload(token)`: the segment, moved to the base64 alphabet, then
      decoded by `parse`. */
  function DecodePayload(token: string, parse: string -> Option<Payload>): Option<Payload> {
    match PayloadSegment(token)
    case None => None
    case Some(segment) => parse(ToBase64Alphabet(segment))
  }

  /** `base64Url.replace(/-/g, '+').replace(/_/g, '/')`: from the alphabet of section 5
      of RFC 4648 to the one of section 4. */
  function ToBase64Alphabet(s: string): string {
    ReplaceAll(ReplaceAll(s, "-", "+"), "_", "/")
  }

  function UrlCharToBase64(c: char): char {
    if c == '-' then '+' else if c == '_' then '/' else c
  }

  function Base64CharToUrl(c: char): char {
    if c == '+' then '-' else if c == '/' then '_' else c
  }

  /** The reverse change, from section 4 back to section 5. */
  function ToBase64UrlAlphabet(s: string): (r: string)
    ensures |r| == |s|
    ensures forall i :: 0 <= i < |s| ==> r[i] == Base64CharToUrl(s[i])
  {
    seq(|s|, i requires 0 <= i < |s| => Base64CharToUrl(s[i]))
  }

  lemma {:induction false} ReplaceCharIsMap(s: string, c: char, d: char)
    ensures |ReplaceChar(s, c, [d])| == |s|
    ensures forall i :: 0 <= i < |s| ==> ReplaceChar(s, c, [d])[i] == (if s[i] == c then d else s[i])
    decreases |s|
  {
    if s != [] {
      ReplaceCharIsMap(s[1..], c, d);
    }
  }

  /** The change maps each character on its own: `-` to `+`, `_` to `/`, every other
      character to itself; the length is kept and no `-` or `_` is left. */
  lemma ToBase64Each(s: string)
    ensures |ToBase64Alphabet(s)| == |s|
    ensures forall i :: 0 <= i < |s| ==> ToBase64Alphabet(s)[i] == UrlCharToBase64(s[i])
    ensures '-' !in ToBase64Alphabet(s) && '_' !in ToBase64Alphabet(s)
  {
    var s1 := ReplaceAll(s, "-", "+");
    ReplaceAllOneChar(s, '-', "+");
    ReplaceCharIsMap(s, '-', '+');
    ReplaceAllOneChar(s1, '_', "/");
    ReplaceCharIsMap(s1, '_', '/');
  }

  /** A base64url text (which never holds `+` or `/`) comes back unchanged from the
      change and its reverse. */
  lemma AlphabetRoundTrip(s: string)
    requires '+' !in s && '/' !in s
    ensures ToBase64UrlAlphabet(ToBase64Alphabet(s)) == s
  {
    ToBase64Each(s);
  }
}
