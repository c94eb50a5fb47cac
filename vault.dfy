/** The endpoints of backend/routers/vault.py: vault items, share links,
    public redemption of a link, and the audit log of an item. */
module Vault {
  import opened Wrappers
  import opened Query
  import opened Models
  import opened Schemas
  import Security

  const ItemNotFound := HttpError(404, "Vault item not found")
  const LinkInvalid := HttpError(404, "Link invalid or expired")
  const LinkNotFound := HttpError(404, "Link not found")
  const LinkExpired := HttpError(410, "This link has expired.")
  const ViewLimitReached := HttpError(410, "View limit reached.")
  const IncorrectPassword := HttpError(401, "Incorrect password.")
  const LogsForbidden := HttpError(403, "Not authorized to view these logs")

  // ---------------------------------------------------------------------------
  // Items

  /** POST /vault/items: inserts an item owned by the caller, stamped `now`. */
  method CreateVaultItem(db: Database, ownerId: int, title: string, content: string, now: int)
    returns (item: VaultItem)
    requires db.Valid()
    requires 1 <= ownerId <= |db.users|
    modifies db
    ensures db.Valid()
    ensures db.users == old(db.users) && db.links == old(db.links) && db.logs == old(db.logs)
    ensures item == VaultItem(|old(db.items)| + 1, title, content, ownerId, now)
    ensures db.items == old(db.items) + [item]
  {
    item := VaultItem(|db.items| + 1, title, content, ownerId, now);
    db.items := db.items + [item];
  }

  function OwnedBy(items: seq<VaultItem>, ownerId: int): seq<VaultItem>
  {
    Where(items, (it: VaultItem) => it.ownerId == ownerId)
  }

  /** GET /vault/items: one page of the caller's items; without paging
      parameters, the first 100. */
  function ReadVaultItems(db: Database, ownerId: int, skip: nat := 0, limit: nat := 100): (r: seq<VaultItem>)
    reads db
    ensures forall it :: it in r ==> it in db.items && it.ownerId == ownerId
    ensures |r| <= limit
    ensures |r| == if skip >= |OwnedBy(db.items, ownerId)| then 0 else Min(limit, |OwnedBy(db.items, ownerId)| - skip)
    ensures forall k :: 0 <= k < |r| ==> r[k] == OwnedBy(db.items, ownerId)[skip + k]
  {
    var owned := OwnedBy(db.items, ownerId);
    var r := Page(owned, skip, limit);
    assert forall it :: it in r ==> it in owned;
    r
  }

  /** A call without paging parameters returns at most 100 items, the
      caller's first ones. */
  lemma DefaultPageIsFirstHundred(db: Database, ownerId: int)
    ensures |ReadVaultItems(db, ownerId)| == Min(100, |OwnedBy(db.items, ownerId)|)
    ensures ReadVaultItems(db, ownerId) <= OwnedBy(db.items, ownerId)
  {
    var r := ReadVaultItems(db, ownerId);
    var owned := OwnedBy(db.items, ownerId);
    assert r == owned[..|r|];
  }

  /** A page starting at the first item and as long as the table holds
      every item of the caller. */
  lemma FirstPageHoldsAllOwned(db: Database, ownerId: int, limit: nat)
    requires limit >= |db.items|
    ensures forall it :: it in db.items && it.ownerId == ownerId ==> it in ReadVaultItems(db, ownerId, 0, limit)
  {
  }

  // ---------------------------------------------------------------------------
  // Creating a share link

  /** Whether item `itemId` exists and belongs to user `userId`. */
  predicate OwnsItem(items: seq<VaultItem>, userId: int, itemId: int)
  {
    match ItemIndex(items, itemId)
    case None => false
    case Some(i) => items[i].ownerId == userId
  }

  /** The stored hash of a link: an empty or missing password leaves the link unprotected. */
  function LinkPasswordHash(password: Option<string>): (h: Option<string>)
    ensures h.Some? <==> password.Some? && password.value != ""
    ensures h.Some? ==> h.value != "" && Security.Verify(password.value, h.value)
  {
    if password.Some? && password.value != "" then Some(Security.Hash(password.value)) else None
  }

  /** Stand-in for `secrets.token_urlsafe`: a token no existing link holds. */
  method FreshToken(links: seq<ShareLink>) returns (token: string)
    ensures token != ""
    ensures forall i :: 0 <= i < |links| ==> links[i].token != token
  {
    var longest := 0;
    var i := 0;
    while i < |links|
      invariant 0 <= i <= |links| && 0 <= longest
      invariant forall j :: 0 <= j < i ==> |links[j].token| <= longest
    {
      if |links[i].token| > longest {
        longest := |links[i].token|;
      }
      i := i + 1;
    }
    token := seq(longest + 1, _ => 'A');
  }

  /** The link handed to the owner; the token is recovered from its tail. */
  function ShareUrl(token: string): (url: string)
    ensures |token| <= |url| && url[|url| - |token|..] == token
  {
    "safga/access/" + token
  }

  /** POST /vault/share: refuses an item that is missing or not the caller's;
      otherwise inserts a fresh link with the column defaults. */
  method CreateShareLink(db: Database, userId: int, vaultItemId: int, expiresAt: int, maxViews: int,
                         password: Option<string>)
    returns (r: Result<ShareLinkResponse, HttpError>)
    requires db.Valid()
    modifies db
    ensures db.Valid()
    ensures db.users == old(db.users) && db.items == old(db.items) && db.logs == old(db.logs)
    ensures !OwnsItem(old(db.items), userId, vaultItemId) ==> r == Err(ItemNotFound) && db.links == old(db.links)
    ensures OwnsItem(old(db.items), userId, vaultItemId) ==>
              && r.Ok?
              && |db.links| == |old(db.links)| + 1
              && db.links[..|old(db.links)|] == old(db.links)
              && var link := db.links[|old(db.links)|];
                 && link == NewShareLink(|old(db.links)| + 1, vaultItemId, link.token, LinkPasswordHash(password),
                                         expiresAt, maxViews)
                 && (forall i :: 0 <= i < |old(db.links)| ==> old(db.links)[i].token != link.token)
                 && r.value == ShareLinkResponse(ShareUrl(link.token), expiresAt, maxViews)
  {
    if !OwnsItem(db.items, userId, vaultItemId) {
      return Err(ItemNotFound);
    }
    ItemIndexIsPosition(db.items, |db.users|, vaultItemId);
    var token := FreshToken(db.links);
    var hashed := LinkPasswordHash(password);
    var link := NewShareLink(|db.links| + 1, vaultItemId, token, hashed, expiresAt, maxViews);
    CountAllowedUnreferenced(db.logs, link.id);
    db.links := db.links + [link];
    r := Ok(ShareLinkResponse(ShareUrl(token), expiresAt, maxViews));
  }

  // ---------------------------------------------------------------------------
  // Redeeming a share link

  predicate IsExpired(link: ShareLink, now: int)
  {
    link.expiresAt < now
  }

  predicate IsExhausted(link: ShareLink)
  {
    link.currentViews >= link.maxViews
  }

  /** The `is_locked` flag of the public metadata. */
  predicate IsLocked(link: ShareLink, now: int)
  {
    IsExpired(link, now) || IsExhausted(link)
  }

  /** The password gate: a link with a (non-empty) stored hash lets through
      only a non-empty password that verifies against it. */
  predicate PasswordAccepted(link: ShareLink, password: Option<string>)
  {
    match link.passwordHash
    case None => true
    case Some(h) =>
      h == "" || (password.Some? && password.value != "" && Security.Verify(password.value, h))
  }

  datatype Decision = DeniedExpired | DeniedViewLimit | DeniedBadPassword | Allowed

  /** The checks of a redemption attempt, in the order the endpoint runs them. */
  function Decide(link: ShareLink, password: Option<string>, now: int): Decision
  {
    if IsExpired(link, now) then DeniedExpired
    else if IsExhausted(link) then DeniedViewLimit
    else if !PasswordAccepted(link, password) then DeniedBadPassword
    else Allowed
  }

  /** The outcome string the attempt is logged with. */
  function OutcomeText(d: Decision): (text: string)
    ensures text == AllowedOutcome <==> d == Allowed
  {
    match d
    case DeniedExpired => "denied_expired"
    case DeniedViewLimit => "denied_view_limit"
    case DeniedBadPassword => "denied_bad_password"
    case Allowed => AllowedOutcome
  }

  /** The error a refused attempt is answered with. */
  function Refusal(d: Decision): HttpError
    requires d != Allowed
  {
    match d
    case DeniedExpired => LinkExpired
    case DeniedViewLimit => ViewLimitReached
    case DeniedBadPassword => IncorrectPassword
  }

  /** The link after an attempt: one more view when let through, unchanged otherwise. */
  function AfterAttempt(link: ShareLink, password: Option<string>, now: int): ShareLink
  {
    if Decide(link, password, now) == Allowed then link.(currentViews := link.currentViews + 1) else link
  }

  function ClientHost(client: Option<string>): string
  {
    match client
    case Some(host) => host
    case None => "unknown"
  }

  /** Appends one access-log row, stamped `now`. */
  method LogAttempt(db: Database, shareId: int, outcome: string, ip: string, now: int)
    modifies db
    ensures db.logs == old(db.logs) + [AccessLog(|old(db.logs)| + 1, shareId, now, outcome, ip)]
    ensures db.users == old(db.users) && db.items == old(db.items) && db.links == old(db.links)
  {
    db.logs := db.logs + [AccessLog(|db.logs| + 1, shareId, now, outcome, ip)];
  }

  /** POST /vault/shared/{token}/access: an unknown token is refused with
      nothing logged; otherwise exactly one row is logged, carrying the
      link's id and the outcome of the checks, and a view is consumed only
      when the attempt is let through. */
  method AccessSharedContent(db: Database, token: string, password: Option<string>, client: Option<string>, now: int)
    returns (r: Result<VaultContentResponse, HttpError>)
    requires db.Valid()
    modifies db
    ensures db.Valid()
    ensures db.users == old(db.users) && db.items == old(db.items)
    ensures LinkIndex(old(db.links), token).None? ==>
              r == Err(LinkNotFound) && db.links == old(db.links) && db.logs == old(db.logs)
    ensures LinkIndex(old(db.links), token).Some? ==>
              var i := LinkIndex(old(db.links), token).value;
              var link := old(db.links)[i];
              var d := Decide(link, password, now);
              && db.logs == old(db.logs) + [AccessLog(|old(db.logs)| + 1, link.id, now, OutcomeText(d), ClientHost(client))]
              && db.links == old(db.links)[i := AfterAttempt(link, password, now)]
              && (d != Allowed ==> r == Err(Refusal(d)))
              && (d == Allowed ==> r == Ok(VaultContentResponse(db.items[link.vaultItemId - 1].content, "Access granted.")))
  {
    var found := LinkIndex(db.links, token);
    if found.None? {
      return Err(LinkNotFound);
    }
    var i := found.value;
    var share := db.links[i];
    ghost var oldLinks, oldLogs := db.links, db.logs;
    var ip := ClientHost(client);

    if share.expiresAt < now {
      assert Decide(share, password, now) == DeniedExpired;
      LogAttempt(db, share.id, "denied_expired", ip, now);
      AttemptKeepsValid(db.items, oldLinks, oldLogs, i, password, now, ip, db.links, db.logs);
      return Err(LinkExpired);
    }
    if share.currentViews >= share.maxViews {
      assert Decide(share, password, now) == DeniedViewLimit;
      LogAttempt(db, share.id, "denied_view_limit", ip, now);
      AttemptKeepsValid(db.items, oldLinks, oldLogs, i, password, now, ip, db.links, db.logs);
      return Err(ViewLimitReached);
    }
    if share.passwordHash.Some? && share.passwordHash.value != "" {
      if password.None? || password.value == "" || !Security.Verify(password.value, share.passwordHash.value) {
        assert Decide(share, password, now) == DeniedBadPassword;
        LogAttempt(db, share.id, "denied_bad_password", ip, now);
        AttemptKeepsValid(db.items, oldLinks, oldLogs, i, password, now, ip, db.links, db.logs);
        return Err(IncorrectPassword);
      }
    }

    assert Decide(share, password, now) == Allowed;
    db.links := db.links[i := share.(currentViews := share.currentViews + 1)];
    LogAttempt(db, share.id, AllowedOutcome, ip, now);
    AttemptKeepsValid(db.items, oldLinks, oldLogs, i, password, now, ip, db.links, db.logs);
    var item := db.items[share.vaultItemId - 1];
    r := Ok(VaultContentResponse(item.content, "Access granted."));
  }

  /** One logged attempt on link `i` keeps every table invariant. */
  lemma AttemptKeepsValid(items: seq<VaultItem>, links: seq<ShareLink>, logs: seq<AccessLog>, i: nat,
                          password: Option<string>, now: int, ip: string,
                          links': seq<ShareLink>, logs': seq<AccessLog>)
    requires LinksValid(links, |items|) && LogsValid(logs, links)
    requires i < |links|
    requires links' == links[i := AfterAttempt(links[i], password, now)]
    requires logs' == logs + [AccessLog(|logs| + 1, links[i].id, now, OutcomeText(Decide(links[i], password, now)), ip)]
    ensures LinksValid(links', |items|) && LogsValid(logs', links')
  {
    var e := logs'[|logs|];
    assert logs' == logs + [e];
    forall j | 0 <= j < |links'|
      ensures links'[j].currentViews == CountAllowed(logs', links'[j].id)
    {
      CountAllowedAppend(logs, e, links'[j].id);
    }
    assert ViewsWithinLimit(links'[i]);
  }

  // ---------------------------------------------------------------------------
  // Properties of the redemption checks

  /** The checks run in a fixed order: an expired link is reported as expired
      whatever its views and the password, and a link out of views as such
      whatever the password. */
  lemma ChecksRunInOrder(link: ShareLink, password: Option<string>, now: int)
    ensures IsExpired(link, now) ==> Decide(link, password, now) == DeniedExpired
    ensures !IsExpired(link, now) && IsExhausted(link) ==> Decide(link, password, now) == DeniedViewLimit
    ensures Decide(link, password, now) == DeniedBadPassword ==> !IsLocked(link, now) && !PasswordAccepted(link, password)
    ensures Decide(link, password, now) == Allowed <==> !IsLocked(link, now) && PasswordAccepted(link, password)
  {
  }

  /** A locked link turns every attempt away with 410, and only a locked one does. */
  lemma LockedIffGone(link: ShareLink, password: Option<string>, now: int)
    ensures IsLocked(link, now) <==> Decide(link, password, now) in {DeniedExpired, DeniedViewLimit}
    ensures IsLocked(link, now) ==> Refusal(Decide(link, password, now)).status == 410
    ensures !IsLocked(link, now) && Decide(link, password, now) != Allowed ==> Refusal(Decide(link, password, now)).status == 401
  {
  }

  /** An attempt consumes at most one view, only when let through, and keeps
      the views within the limit. */
  lemma AttemptViewAccounting(link: ShareLink, password: Option<string>, now: int)
    ensures var after := AfterAttempt(link, password, now);
            && after == link.(currentViews := after.currentViews)
            && after.currentViews == link.currentViews + (if Decide(link, password, now) == Allowed then 1 else 0)
            && (ViewsWithinLimit(link) ==> ViewsWithinLimit(after))
            && (Decide(link, password, now) == Allowed ==> after.currentViews <= link.maxViews)
  {
  }

  /** On a link created with password `created`, an attempt on an unlocked
      link gets through exactly when the link is unprotected or a non-empty
      password agreeing with `created` on its significant part is presented;
      for passwords within bcrypt's length, exactly the same password. */
  lemma LinkPasswordRoundTrip(link: ShareLink, created: Option<string>, password: Option<string>, now: int)
    requires link.passwordHash == LinkPasswordHash(created)
    requires !IsLocked(link, now)
    ensures Decide(link, password, now) == Allowed
        <==> || LinkPasswordHash(created).None?
             || (password.Some? && password.value != ""
                 && Security.Significant(password.value) == Security.Significant(created.value))
    ensures (created.Some? ==> |created.value| <= Security.MaxPasswordLength)
            && (password.Some? ==> |password.value| <= Security.MaxPasswordLength) ==>
              (Decide(link, password, now) == Allowed <==> LinkPasswordHash(created).None? || password == created)
  {
    if LinkPasswordHash(created).Some? && password.Some? {
      Security.VerifyExactlyHashed(created.value, password.value);
    }
  }

  /** `is_active` and `is_deleted` are not consulted by the checks. */
  lemma RevocationFlagsNotConsulted(link: ShareLink, password: Option<string>, now: int, active: bool, deleted: bool)
    ensures Decide(link.(isActive := active, isDeleted := deleted), password, now) == Decide(link, password, now)
  {
  }

  /** The number of attempts ever let through on a link never exceeds its
      `max_views` (nor zero, for a limit below zero). */
  lemma AllowedAttemptsBounded(db: Database, i: nat)
    requires db.Valid()
    requires i < |db.links|
    ensures CountAllowed(db.logs, db.links[i].id) <= if db.links[i].maxViews < 0 then 0 else db.links[i].maxViews
  {
  }

  // ---------------------------------------------------------------------------
  // Public metadata of a link

  function ItemTitle(items: seq<VaultItem>, itemId: int): string
  {
    match ItemIndex(items, itemId)
    case None => "Unknown Item"
    case Some(k) => items[k].title
  }

  /** GET /vault/shared/{token}: what anyone holding the token may learn. */
  function GetShareMetadata(db: Database, token: string, now: int): (r: Result<ShareMetaData, HttpError>)
    reads db
    ensures LinkIndex(db.links, token).None? <==> r == Err(LinkInvalid)
    ensures r.Ok? ==>
              var link := db.links[LinkIndex(db.links, token).value];
              && r.value.isLocked == IsLocked(link, now)
              && r.value.isPasswordProtected == link.passwordHash.Some?
              && r.value.expiresAt == link.expiresAt
              && r.value.title == ItemTitle(db.items, link.vaultItemId)
  {
    match LinkIndex(db.links, token)
    case None => Err(LinkInvalid)
    case Some(i) =>
      var share := db.links[i];
      var isExpired := share.expiresAt < now;
      var isExhausted := share.currentViews >= share.maxViews;
      Ok(ShareMetaData(ItemTitle(db.items, share.vaultItemId), share.passwordHash.Some?, share.expiresAt,
                       isExpired || isExhausted))
  }

  /** The metadata predicts the outcome of an attempt made at the same time:
      a locked link refuses every password with 410, an unlocked unprotected
      link lets every attempt through, and an unlocked protected link lets
      through exactly a password that verifies against its hash. */
  lemma MetadataPredictsAccess(db: Database, token: string, password: Option<string>, now: int)
    requires db.Valid()
    requires GetShareMetadata(db, token, now).Ok?
    ensures var meta := GetShareMetadata(db, token, now).value;
            var link := db.links[LinkIndex(db.links, token).value];
            && (meta.isLocked <==> Decide(link, password, now) in {DeniedExpired, DeniedViewLimit})
            && (!meta.isLocked && !meta.isPasswordProtected ==> Decide(link, password, now) == Allowed)
            && (!meta.isLocked && meta.isPasswordProtected ==>
                  (Decide(link, password, now) == Allowed
                   <==> password.Some? && password.value != "" && Security.Verify(password.value, link.passwordHash.value)))
  {
  }

  // ---------------------------------------------------------------------------
  // Audit log of an item

  /** A row of the joined query: a log entry and the token of its link. */
  datatype LogRow = LogRow(log: AccessLog, token: string)

  function AccessTime(row: LogRow): int
  {
    row.log.accessTime
  }

  /** Whether `log` was written for a link of item `itemId`. */
  predicate LogOfItem(links: seq<ShareLink>, itemId: int, log: AccessLog)
  {
    match LinkIndexById(links, log.shareLinkId)
    case None => false
    case Some(j) => links[j].vaultItemId == itemId
  }

  function TokenOfLink(links: seq<ShareLink>, linkId: int): string
  {
    match LinkIndexById(links, linkId)
    case None => ""
    case Some(j) => links[j].token
  }

  function ItemLogs(logs: seq<AccessLog>, links: seq<ShareLink>, itemId: int): seq<AccessLog>
  {
    Where(logs, (log: AccessLog) => LogOfItem(links, itemId, log))
  }

  function WithTokens(logs: seq<AccessLog>, links: seq<ShareLink>): seq<LogRow>
  {
    seq(|logs|, k requires 0 <= k < |logs| => LogRow(logs[k], TokenOfLink(links, logs[k].shareLinkId)))
  }

  /** The query: logs joined with their link, kept for the item's links,
      newest first. */
  function ItemLogRows(logs: seq<AccessLog>, links: seq<ShareLink>, itemId: int): seq<LogRow>
  {
    SortDescending(WithTokens(ItemLogs(logs, links, itemId), links), AccessTime)
  }

  /** `log` was written for a link of item `itemId`, on a table whose ids are positions. */
  ghost predicate LogOfItemAt(links: seq<ShareLink>, itemId: int, log: AccessLog)
  {
    1 <= log.shareLinkId <= |links| && links[log.shareLinkId - 1].vaultItemId == itemId
  }

  /** `row` pairs a log of `logs` written for a link of item `itemId` with that link's token. */
  ghost predicate RowOfItem(logs: seq<AccessLog>, links: seq<ShareLink>, itemId: int, row: LogRow)
  {
    row.log in logs && LogOfItemAt(links, itemId, row.log) && row.token == links[row.log.shareLinkId - 1].token
  }

  /** On a valid links table, the primary-key lookup of `LogOfItem` and the
      positional reading of `LogOfItemAt` agree. */
  lemma LogOfItemIsAt(links: seq<ShareLink>, itemCount: nat, itemId: int, log: AccessLog)
    requires LinksValid(links, itemCount)
    ensures LogOfItem(links, itemId, log) <==> LogOfItemAt(links, itemId, log)
  {
    LinkIndexByIdIsPosition(links, itemCount, log.shareLinkId);
  }

  lemma JoinedRowOfItem(logs: seq<AccessLog>, links: seq<ShareLink>, itemCount: nat, itemId: int, k: nat)
    requires LinksValid(links, itemCount)
    requires k < |ItemLogs(logs, links, itemId)|
    ensures RowOfItem(logs, links, itemId, WithTokens(ItemLogs(logs, links, itemId), links)[k])
  {
  }

  lemma LogOfItemJoined(logs: seq<AccessLog>, links: seq<ShareLink>, itemCount: nat, itemId: int, log: AccessLog)
    requires LinksValid(links, itemCount)
    requires log in logs && LogOfItemAt(links, itemId, log)
    ensures LogRow(log, links[log.shareLinkId - 1].token) in WithTokens(ItemLogs(logs, links, itemId), links)
  {
    var kept := ItemLogs(logs, links, itemId);
    LogOfItemIsAt(links, itemCount, itemId, log);
    assert log in kept;
    var k :| 0 <= k < |kept| && kept[k] == log;
    assert WithTokens(kept, links)[k] == LogRow(log, links[log.shareLinkId - 1].token);
  }

  /** The query returns the logs of the item's links and no others, each
      with its link's token, newest first. */
  lemma ItemLogRowsAreTheItemsLogs(logs: seq<AccessLog>, links: seq<ShareLink>, itemCount: nat, itemId: int)
    requires LinksValid(links, itemCount)
    ensures Descending(ItemLogRows(logs, links, itemId), AccessTime)
    ensures multiset(ItemLogRows(logs, links, itemId)) == multiset(WithTokens(ItemLogs(logs, links, itemId), links))
    ensures forall row :: row in ItemLogRows(logs, links, itemId) ==> RowOfItem(logs, links, itemId, row)
    ensures forall log :: log in logs && LogOfItemAt(links, itemId, log) ==>
              LogRow(log, links[log.shareLinkId - 1].token) in ItemLogRows(logs, links, itemId)
  {
    var joined := WithTokens(ItemLogs(logs, links, itemId), links);
    var rows := ItemLogRows(logs, links, itemId);
    assert multiset(rows) == multiset(joined);
    forall row | row in rows
      ensures RowOfItem(logs, links, itemId, row)
    {
      assert row in multiset(joined);
      var k :| 0 <= k < |joined| && joined[k] == row;
      JoinedRowOfItem(logs, links, itemCount, itemId, k);
    }
    forall log | log in logs && LogOfItemAt(links, itemId, log)
      ensures LogRow(log, links[log.shareLinkId - 1].token) in rows
    {
      LogOfItemJoined(logs, links, itemCount, itemId, log);
      assert LogRow(log, links[log.shareLinkId - 1].token) in multiset(rows);
    }
  }

  function LogResponse(row: LogRow): AccessLogResponse
  {
    AccessLogResponse(row.log.id, row.token, row.log.accessTime, row.log.outcome, row.log.ipAddress)
  }

  /** The response body: one response per query row, in the query's order. */
  method LogResponses(rows: seq<LogRow>) returns (logs: seq<AccessLogResponse>)
    ensures |logs| == |rows|
    ensures forall k :: 0 <= k < |rows| ==> logs[k] == LogResponse(rows[k])
  {
    logs := [];
    var k := 0;
    while k < |rows|
      invariant 0 <= k <= |rows|
      invariant |logs| == k
      invariant forall j :: 0 <= j < k ==> logs[j] == LogResponse(rows[j])
    {
      logs := logs + [LogResponse(rows[k])];
      k := k + 1;
    }
  }

  /** GET /vault/items/{item_id}/logs: 404 for a missing item, 403 for an
      item of someone else, otherwise the item's audit log, newest first. */
  method ReadItemLogs(db: Database, userId: int, itemId: int) returns (r: Result<seq<AccessLogResponse>, HttpError>)
    requires LinksValid(db.links, |db.items|)
    ensures ItemIndex(db.items, itemId).None? ==> r == Err(ItemNotFound)
    ensures ItemIndex(db.items, itemId).Some? && !OwnsItem(db.items, userId, itemId) ==> r == Err(LogsForbidden)
    ensures OwnsItem(db.items, userId, itemId) ==>
              var rows := ItemLogRows(db.logs, db.links, itemId);
              && r.Ok?
              && |r.value| == |rows|
              && (forall k :: 0 <= k < |rows| ==> r.value[k] == LogResponse(rows[k]))
              && (forall k :: 0 <= k < |rows| - 1 ==> r.value[k].accessTime >= r.value[k + 1].accessTime)
              && (forall k :: 0 <= k < |rows| ==> RowOfItem(db.logs, db.links, itemId, rows[k]))
              && (forall log :: log in db.logs && LogOfItemAt(db.links, itemId, log) ==>
                    LogRow(log, db.links[log.shareLinkId - 1].token) in rows)
  {
    var found := ItemIndex(db.items, itemId);
    if found.None? {
      return Err(ItemNotFound);
    }
    if db.items[found.value].ownerId != userId {
      return Err(LogsForbidden);
    }
    var rows := ItemLogRows(db.logs, db.links, itemId);
    assert Descending(rows, AccessTime);
    var logs := LogResponses(rows);
    assert && (forall j :: 0 <= j < |rows| ==> RowOfItem(db.logs, db.links, itemId, rows[j]))
           && (forall log :: log in db.logs && LogOfItemAt(db.links, itemId, log) ==>
                 LogRow(log, db.links[log.shareLinkId - 1].token) in rows) by {
      ItemLogRowsAreTheItemsLogs(db.logs, db.links, |db.items|, itemId);
    }
    r := Ok(logs);
  }
}
