/** The shapes the endpoints return, and the HTTP error they raise. */
module Schemas {
  import Security

  /** An `HTTPException`: status code and detail text. */
  datatype HttpError = HttpError(status: int, detail: string)

  /** The body returned by register and login. */
  datatype TokenResponse = TokenResponse(accessToken: Security.AccessToken, tokenType: string)

  /** A bearer token whose subject is `username`. */
  function Bearer(username: string): (t: TokenResponse)
    ensures t.accessToken.sub == username && t.tokenType == "bearer"
  {
    TokenResponse(Security.CreateAccessToken(username), "bearer")
  }

  datatype ShareLinkResponse = ShareLinkResponse(shareLink: string, expiresAt: int, maxViews: int)

  /** What anyone holding a link may learn about it. */
  datatype ShareMetaData = ShareMetaData(title: string, isPasswordProtected: bool, expiresAt: int, isLocked: bool)

  datatype VaultContentResponse = VaultContentResponse(content: string, message: string)

  datatype AccessLogResponse = AccessLogResponse(id: int, shareLinkToken: string, accessTime: int, outcome: string, ipAddress: string)
}
