/** The four tables of the backend and the invariants the handlers keep on them. */
module Models {
  import opened Wrappers
  import opened Query

  datatype User = User(id: int, username: string, passwordHash: string)

  datatype VaultItem = VaultItem(id: int, title: string, content: string, ownerId: int, createdAt: int)

  /** A share link; `passwordHash` is absent on an unprotected link. */
  datatype ShareLink = ShareLink(
    id: int,
    vaultItemId: int,
    token: string,
    passwordHash: Option<string>,
    expiresAt: int,
    maxViews: int,
    currentViews: int,
    isActive: bool,
    isDeleted: bool)

  datatype AccessLog = AccessLog(id: int, shareLinkId: int, accessTime: int, outcome: string, ipAddress: string)

  /** The outcome recorded for an attempt that was let through. */
  const AllowedOutcome := "allowed"

  /** A share link as inserted, with the column defaults filled in. */
  function NewShareLink(id: int, vaultItemId: int, token: string, passwordHash: Option<string>,
                        expiresAt: int, maxViews: int): (l: ShareLink)
    ensures l.currentViews == 0 && l.isActive && !l.isDeleted
    ensures l.id == id && l.vaultItemId == vaultItemId && l.token == token
    ensures l.passwordHash == passwordHash && l.expiresAt == expiresAt && l.maxViews == maxViews
  {
    ShareLink(id, vaultItemId, token, passwordHash, expiresAt, maxViews, 0, true, false)
  }

  // ---------------------------------------------------------------------------
  // Lookups

  function UserIndex(users: seq<User>, username: string): Option<nat>
  {
    FirstIndex(users, (u: User) => u.username == username)
  }

  function ItemIndex(items: seq<VaultItem>, id: int): Option<nat>
  {
    FirstIndex(items, (it: VaultItem) => it.id == id)
  }

  function LinkIndex(links: seq<ShareLink>, token: string): Option<nat>
  {
    FirstIndex(links, (l: ShareLink) => l.token == token)
  }

  function LinkIndexById(links: seq<ShareLink>, id: int): Option<nat>
  {
    FirstIndex(links, (l: ShareLink) => l.id == id)
  }

  // ---------------------------------------------------------------------------
  // Table invariants

  ghost predicate UniqueUsernames(users: seq<User>)
  {
    forall i, j :: 0 <= i < j < |users| ==> users[i].username != users[j].username
  }

  ghost predicate UniqueTokens(links: seq<ShareLink>)
  {
    forall i, j :: 0 <= i < j < |links| ==> links[i].token != links[j].token
  }

  /** Views never pass the limit, except that a fresh link starts at zero
      even when its limit is below zero. */
  predicate ViewsWithinLimit(l: ShareLink)
  {
    l.currentViews == 0 || 0 < l.currentViews <= l.maxViews
  }

  /** A stored link hash, when present, is a real (non-empty) hash. */
  predicate HashPresentIsNonEmpty(l: ShareLink)
  {
    l.passwordHash.Some? ==> l.passwordHash.value != ""
  }

  /** Number of "allowed" entries logged for link `linkId`. */
  function CountAllowed(logs: seq<AccessLog>, linkId: int): nat
  {
    if logs == [] then 0
    else
      var last := logs[|logs| - 1];
      CountAllowed(logs[..|logs| - 1], linkId) + (if last.shareLinkId == linkId && last.outcome == AllowedOutcome then 1 else 0)
  }

  lemma CountAllowedAppend(logs: seq<AccessLog>, e: AccessLog, linkId: int)
    ensures CountAllowed(logs + [e], linkId)
         == CountAllowed(logs, linkId) + (if e.shareLinkId == linkId && e.outcome == AllowedOutcome then 1 else 0)
  {
  }

  /** A link that no log refers to has no allowed attempts. */
  lemma {:induction false} CountAllowedUnreferenced(logs: seq<AccessLog>, linkId: int)
    requires forall i :: 0 <= i < |logs| ==> logs[i].shareLinkId != linkId
    ensures CountAllowed(logs, linkId) == 0
  {
    if logs != [] {
      CountAllowedUnreferenced(logs[..|logs| - 1], linkId);
    }
  }

  ghost predicate UsersValid(users: seq<User>)
  {
    && (forall i :: 0 <= i < |users| ==> users[i].id == i + 1 && users[i].passwordHash != "")
    && UniqueUsernames(users)
  }

  ghost predicate ItemsValid(items: seq<VaultItem>, userCount: nat)
  {
    forall i :: 0 <= i < |items| ==> items[i].id == i + 1 && 1 <= items[i].ownerId <= userCount
  }

  ghost predicate LinksValid(links: seq<ShareLink>, itemCount: nat)
  {
    && (forall i :: 0 <= i < |links| ==>
          && links[i].id == i + 1
          && 1 <= links[i].vaultItemId <= itemCount
          && ViewsWithinLimit(links[i])
          && HashPresentIsNonEmpty(links[i]))
    && UniqueTokens(links)
  }

  /** Every log refers to a link, and each link's view count is the number
      of attempts on it that were let through. */
  ghost predicate LogsValid(logs: seq<AccessLog>, links: seq<ShareLink>)
  {
    && (forall i :: 0 <= i < |logs| ==> logs[i].id == i + 1 && 1 <= logs[i].shareLinkId <= |links|)
    && (forall i :: 0 <= i < |links| ==> links[i].currentViews == CountAllowed(logs, links[i].id))
  }

  /** The database: one sequence of rows per table; a row's id is its
      position plus one, as an auto-increment key with no deletions gives. */
  class Database {
    var users: seq<User>
    var items: seq<VaultItem>
    var links: seq<ShareLink>
    var logs: seq<AccessLog>

    ghost predicate Valid()
      reads this
    {
      && UsersValid(users)
      && ItemsValid(items, |users|)
      && LinksValid(links, |items|)
      && LogsValid(logs, links)
    }

    constructor ()
      ensures Valid()
      ensures users == [] && items == [] && links == [] && logs == []
    {
      users, items, links, logs := [], [], [], [];
    }
  }

  /** What a valid database guarantees about its rows: unique usernames and
      tokens, a password hash on every user, and every log, link and item
      referring to an existing link, item and user. */
  lemma ValidDatabaseRows(db: Database)
    requires db.Valid()
    ensures UniqueUsernames(db.users) && UniqueTokens(db.links)
    ensures forall u :: u in db.users ==> u.passwordHash != ""
    ensures forall it :: it in db.items ==> exists u :: u in db.users && u.id == it.ownerId
    ensures forall l :: l in db.links ==> exists it :: it in db.items && it.id == l.vaultItemId
    ensures forall e :: e in db.logs ==> exists l :: l in db.links && l.id == e.shareLinkId
  {
    forall it | it in db.items
      ensures exists u :: u in db.users && u.id == it.ownerId
    {
      assert db.users[it.ownerId - 1] in db.users;
    }
    forall l | l in db.links
      ensures exists it :: it in db.items && it.id == l.vaultItemId
    {
      assert db.items[l.vaultItemId - 1] in db.items;
    }
    forall e | e in db.logs
      ensures exists l :: l in db.links && l.id == e.shareLinkId
    {
      assert db.links[e.shareLinkId - 1] in db.links;
    }
  }

  // ---------------------------------------------------------------------------
  // Lookups by primary key on valid tables

  lemma ItemIndexIsPosition(items: seq<VaultItem>, userCount: nat, id: int)
    requires ItemsValid(items, userCount)
    ensures ItemIndex(items, id) == if 1 <= id <= |items| then Some(id - 1) else None
  {
    var r := ItemIndex(items, id);
    if 1 <= id <= |items| {
      assert ((it: VaultItem) => it.id == id)(items[id - 1]);
      assert r.Some?;
    }
  }

  lemma LinkIndexByIdIsPosition(links: seq<ShareLink>, itemCount: nat, id: int)
    requires LinksValid(links, itemCount)
    ensures LinkIndexById(links, id) == if 1 <= id <= |links| then Some(id - 1) else None
  {
    var r := LinkIndexById(links, id);
    if 1 <= id <= |links| {
      assert ((l: ShareLink) => l.id == id)(links[id - 1]);
      assert r.Some?;
    }
  }

  /** With unique usernames, the first match is the only match. */
  lemma UserIndexUnique(users: seq<User>, username: string, i: nat)
    requires UsersValid(users)
    requires i < |users| && users[i].username == username
    ensures UserIndex(users, username) == Some(i)
  {
  }

  /** With unique tokens, the first match is the only match. */
  lemma LinkIndexUnique(links: seq<ShareLink>, itemCount: nat, token: string, i: nat)
    requires LinksValid(links, itemCount)
    requires i < |links| && links[i].token == token
    ensures LinkIndex(links, token) == Some(i)
  {
  }
}
