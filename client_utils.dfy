/**
 * The front end's request helpers: the bearer header it sends, the image
 * URLs it builds, and the early return of its token check.
 */
module ClientUtils {
  import opened Common
  import opened Helpers

  /** The headers object `{ Authorization: "Bearer " + token }`. */
  datatype JwtHeader = JwtHeader(authorization: string)

  function GetJwtHeader(token: string): (r: JwtHeader)
    ensures |r.authorization| == |token| + 7
    ensures r.authorization[..7] == "Bearer " && r.authorization[7..] == token
  {
    JwtHeader("Bearer " + token)
  }

  /** A header built by the client is accepted by the server iff the token has no space, and then yields exactly that token. */
  lemma HeaderRoundTrip(token: string)
    ensures ' ' !in token ==> CheckIfTokenExists(Some(GetJwtHeader(token).authorization)) == Proceed(token)
    ensures ' ' in token ==> CheckIfTokenExists(Some(GetJwtHeader(token).authorization)).Unauthorized?
  {
    var h := GetJwtHeader(token).authorization;
    if ' ' !in token {
      assert ' ' !in "Bearer";
      assert "Bearer" + " " + token == h;
      AnySchemeProceeds("Bearer", token);
    } else {
      CountOfConcat("Bearer ", token, ' ');
      assert CountOf("Bearer ", ' ') == 1;
      CountPositive(token, ' ');
    }
  }

  lemma {:induction false} CountPositive(s: string, ch: char)
    requires ch in s
    ensures CountOf(s, ch) >= 1
  {
    if s[0] != ch {
      CountPositive(s[1..], ch);
    }
  }

  /** What `jwt.verify` yields for a token it accepts: the payload's name and email. */
  datatype Claims = Claims(name: string, email: string)

  /** The triple `[isValid, name, email]`; absent entries are the source's `null`. */
  datatype TokenState = TokenState(valid: bool, name: Option<string>, email: Option<string>)

  /** JavaScript falsiness of a cookie value: missing or the empty string. */
  predicate Falsy(token: Option<string>) {
    token.None? || token.value == ""
  }

  /**
   * `isJWTValid`. Signature checking is a foreign call, so it is the
   * parameter `verify` (None stands for a thrown error).
   */
  function IsJwtValid(token: Option<string>, verify: string -> Option<Claims>): (r: TokenState)
    ensures Falsy(token) ==> r == TokenState(false, None, None)
    ensures !Falsy(token) ==> r.valid == verify(token.value).Some?
    ensures r.valid ==> r.name == Some(verify(token.value).value.name) && r.email == Some(verify(token.value).value.email)
    ensures !r.valid ==> r.name.None? && r.email.None?
  {
    if Falsy(token) then TokenState(false, None, None)
    else match verify(token.value)
      case Some(c) => TokenState(true, Some(c.name), Some(c.email))
      case None => TokenState(false, None, None)
  }

  /** A falsy token is answered without consulting the verifier at all. */
  lemma FalsyTokenSkipsVerification(token: Option<string>, v1: string -> Option<Claims>, v2: string -> Option<Claims>)
    requires Falsy(token)
    ensures IsJwtValid(token, v1) == IsJwtValid(token, v2) == TokenState(false, None, None)
  {
  }

  const DefaultImagePath := "uploads/all/splitwise-logo.png"
  const DefaultProfileImagePath := "uploads/all/profile_placeholder.jpg"

  /** `backendUrl + "/" + path`, where a missing path argument takes the default. */
  function ResourceUrl(backendUrl: string, path: Option<string>, default: string): (r: string)
    ensures var p := if path.Some? then path.value else default;
            |r| == |backendUrl| + 1 + |p| && r[..|backendUrl|] == backendUrl &&
            r[|backendUrl|] == '/' && r[|backendUrl| + 1..] == p
  {
    backendUrl + "/" + (if path.Some? then path.value else default)
  }

  /** `getImageUrl`; `backendUrl` is the front end's configured BACKEND_URL. */
  function GetImageUrl(backendUrl: string, path: Option<string>): (r: string)
    ensures path.None? ==> r == backendUrl + "/" + DefaultImagePath
    ensures path.Some? ==> r == backendUrl + "/" + path.value
  {
    ResourceUrl(backendUrl, path, DefaultImagePath)
  }

  /** `getProfileImageUrl`: the same shape with the placeholder picture as default. */
  function GetProfileImageUrl(backendUrl: string, path: Option<string>): (r: string)
    ensures path.None? ==> r == backendUrl + "/" + DefaultProfileImagePath
    ensures path.Some? ==> r == GetImageUrl(backendUrl, path)
  {
    ResourceUrl(backendUrl, path, DefaultProfileImagePath)
  }
}
