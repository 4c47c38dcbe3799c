/**
  The server's user sessions (`plugins/session.py`): the in-memory map of live
  sessions keyed by cookie, its expiry and refresh policy over integer
  timestamps, and the session and account documents, which stand for the
  database's `session` and `account` indices as plain maps.
 */
module Session {
  import opened Common

  /** `86400 * 7`: at most one week between visits before a session is void. */
  const MaxSessionAge := 604800
  /** A live session's timestamp is written back at most once an hour. */
  const SaveSessionInterval := 3600

  // ---------------------------------------------------------------------------
  // Credentials
  // ---------------------------------------------------------------------------

  /** A credentials dictionary: every key may be missing. */
  datatype CredentialsDoc = CredentialsDoc(
    uid: Option<string>,
    name: Option<string>,
    email: Option<string>,
    oauthProvider: Option<string>,
    authoritative: Option<bool>,
    admin: Option<bool>,
    oauthData: Option<map<string, string>>)

  const EmptyDoc := CredentialsDoc(None, None, None, None, None, None, None)

  datatype SessionCredentials = SessionCredentials(
    uid: string,
    name: string,
    email: string,
    oauthProvider: string,
    authoritative: bool,
    admin: bool,
    oauthData: map<string, string>)

  /**
    `SessionCredentials(doc)`: each field is read from the document, and a
    key the document lacks falls back to its own default; no document at all
    gives the defaults.
   */
  function CredentialsOf(doc: Option<CredentialsDoc>): (r: SessionCredentials)
    ensures doc.Some? && doc.value.uid.Some? ==> r.uid == doc.value.uid.value
    ensures doc.Some? && doc.value.name.Some? ==> r.name == doc.value.name.value
    ensures doc.Some? && doc.value.email.Some? ==> r.email == doc.value.email.value
    ensures doc.Some? && doc.value.oauthProvider.Some? ==> r.oauthProvider == doc.value.oauthProvider.value
    ensures doc.Some? && doc.value.authoritative.Some? ==> r.authoritative == doc.value.authoritative.value
    ensures doc.Some? && doc.value.admin.Some? ==> r.admin == doc.value.admin.value
    ensures doc.Some? && doc.value.oauthData.Some? ==> r.oauthData == doc.value.oauthData.value
    ensures (doc.None? || doc.value.uid.None?) ==> r.uid == ""
    ensures (doc.None? || doc.value.name.None?) ==> r.name == ""
    ensures (doc.None? || doc.value.email.None?) ==> r.email == ""
    ensures (doc.None? || doc.value.oauthProvider.None?) ==> r.oauthProvider == "generic"
    ensures (doc.None? || doc.value.authoritative.None?) ==> !r.authoritative
    ensures (doc.None? || doc.value.admin.None?) ==> !r.admin
    ensures (doc.None? || doc.value.oauthData.None?) ==> r.oauthData == map[]
  {
    if doc.Some? then
      var d := doc.value;
      SessionCredentials(d.uid.GetOr(""), d.name.GetOr(""), d.email.GetOr(""), d.oauthProvider.GetOr("generic"),
                         d.authoritative.GetOr(false), d.admin.GetOr(false), d.oauthData.GetOr(map[]))
    else
      SessionCredentials("", "", "", "generic", false, false, map[])
  }

  /**
    The defaults: empty identity, provider `generic`, neither authoritative nor
    admin, no OAuth data; an empty document (which Python treats as false)
    gives the same.
   */
  lemma CredentialsDefaults()
    ensures CredentialsOf(None).uid == "" && CredentialsOf(None).name == "" && CredentialsOf(None).email == ""
    ensures CredentialsOf(None).oauthProvider == "generic"
    ensures !CredentialsOf(None).authoritative && !CredentialsOf(None).admin
    ensures CredentialsOf(None).oauthData == map[]
    ensures CredentialsOf(Some(EmptyDoc)) == CredentialsOf(None)
  {
  }

  // ---------------------------------------------------------------------------
  // Stored documents
  // ---------------------------------------------------------------------------

  /** A document of the `session` index: the cookie, the account id and when the session was last saved. */
  datatype SessionDoc = SessionDoc(cookie: string, cid: Option<string>, updated: int)

  datatype InternalDoc = InternalDoc(oauthProvider: Option<string>, oauthData: Option<map<string, string>>)

  /** A document of the `account` index. */
  datatype AccountDoc = AccountDoc(cid: Option<string>, credentials: CredentialsDoc, internal: InternalDoc)

  /**
    `save_credentials`: the account document keeps the identity under
    `credentials` and the provider and its data under `internal`.
   */
  function SavedAccount(cid: Option<string>, c: SessionCredentials): (r: AccountDoc)
    ensures r.credentials.uid == Some(c.uid) && r.credentials.name == Some(c.name) && r.credentials.email == Some(c.email)
    ensures r.credentials.admin.None? && r.credentials.authoritative.None?
    ensures r.internal.oauthProvider == Some(c.oauthProvider) && r.internal.oauthData == Some(c.oauthData)
  {
    AccountDoc(cid, CredentialsDoc(Some(c.uid), Some(c.name), Some(c.email), None, None, None, None),
               InternalDoc(Some(c.oauthProvider), Some(c.oauthData)))
  }

  /**
    The credentials `get_session` builds from an account document: the stored
    ones, with `authoritative` set by whether the account's provider is one of
    the configured authoritative domains, and the provider and its data taken
    from `internal`.
   */
  function LoadedCredentials(account: AccountDoc, domains: set<string>): (r: SessionCredentials)
    ensures r.authoritative <==> account.internal.oauthProvider.Some? && account.internal.oauthProvider.value in domains
    ensures r.oauthProvider == account.internal.oauthProvider.GetOr("generic")
    ensures r.oauthData == account.internal.oauthData.GetOr(map[])
    ensures r.admin == account.credentials.admin.GetOr(false)
  {
    var p := account.internal.oauthProvider;
    CredentialsOf(Some(account.credentials.(
      authoritative := Some(p.Some? && p.value in domains),
      oauthProvider := Some(p.GetOr("generic")),
      oauthData := Some(account.internal.oauthData.GetOr(map[])))))
  }

  /**
    Saving and reloading an account keeps the identity, the provider and its
    data; administrator rights are not saved, and `authoritative` is decided
    afresh from the provider.
   */
  lemma ReloadAfterSave(cid: Option<string>, c: SessionCredentials, domains: set<string>)
    ensures LoadedCredentials(SavedAccount(cid, c), domains) == c.(admin := false, authoritative := c.oauthProvider in domains)
  {
  }

  // ---------------------------------------------------------------------------
  // Session objects
  // ---------------------------------------------------------------------------

  class SessionObject {
    var cid: Option<string>
    var cookie: string
    /** Missing when the object was built from keyword arguments. */
    var created: Option<int>
    var lastAccessed: int
    var credentials: Option<SessionCredentials>

    /** `SessionObject(server)`: a new anonymous session with a fresh cookie, created now. */
    constructor Fresh(now: int, uuid: string)
      ensures cid == None && cookie == uuid && created == Some(now)
      ensures lastAccessed == now && credentials == None
    {
      created := Some(now);
      lastAccessed := now;
      credentials := None;
      cookie := uuid;
      cid := None;
    }

    /** `SessionObject(server, **kwargs)`: the given fields, credentials built from the `credentials` argument. */
    constructor FromFields(lastAccessed: int, credentials: Option<CredentialsDoc>, cookie: string, cid: Option<string>)
      ensures this.lastAccessed == lastAccessed && this.credentials == Some(CredentialsOf(credentials))
      ensures this.cookie == cookie && this.cid == cid && created == None
    {
      this.lastAccessed := lastAccessed;
      this.credentials := Some(CredentialsOf(credentials));
      this.cookie := cookie;
      this.cid := cid;
      created := None;
    }

    /** `copy.copy`: a new object with the same fields. */
    method Copy() returns (s: SessionObject)
      ensures fresh(s)
      ensures s.cid == cid && s.cookie == cookie && s.created == created
      ensures s.lastAccessed == lastAccessed && s.credentials == credentials
    {
      s := new SessionObject.Fresh(lastAccessed, cookie);
      s.cid := cid;
      s.created := created;
      s.credentials := credentials;
    }
  }

  // ---------------------------------------------------------------------------
  // Expiry and refresh of a cached session
  // ---------------------------------------------------------------------------

  /**
    A visit at `now` to a cached session last accessed at `last`: `None` when
    the session has expired and is dropped, otherwise its new `last_accessed`,
    which moves to `now` once the hour since the last save is up.
   */
  function Visit(last: int, now: int): (r: Option<int>)
    ensures r.None? <==> now - last > MaxSessionAge
    ensures r.Some? ==> last <= r.value && now - r.value <= SaveSessionInterval
  {
    if now - last > MaxSessionAge then None
    else if now - last > SaveSessionInterval then Some(now)
    else Some(last)
  }

  /** Whether that visit writes the session back to the store. */
  predicate Refreshes(last: int, now: int) {
    SaveSessionInterval < now - last <= MaxSessionAge
  }

  /** A run of visits to one cached session: its final `last_accessed`, or `None` once it has expired. */
  function Replay(last: int, visits: seq<int>): Option<int>
    decreases |visits|
  {
    if visits == [] then Some(last)
    else match Visit(last, visits[0])
      case None => None
      case Some(l) => Replay(l, visits[1..])
  }

  /** The times at which a run of visits writes the session back. */
  function Saves(last: int, visits: seq<int>): seq<int>
    decreases |visits|
  {
    if visits == [] || Visit(last, visits[0]).None? then []
    else (if Refreshes(last, visits[0]) then [visits[0]] else []) + Saves(Visit(last, visits[0]).value, visits[1..])
  }

  /** Visits in time order, each at most `gap` seconds after the one before (the first after `prev`). */
  predicate Spaced(prev: int, visits: seq<int>, gap: int) {
    (|visits| > 0 ==> 0 <= visits[0] - prev <= gap)
    && forall i :: 0 < i < |visits| ==> 0 <= visits[i] - visits[i - 1] <= gap
  }

  /**
    A session visited at least every `604800 - 3600` seconds never expires:
    its timestamp lags the latest visit by at most the save interval.
   */
  lemma {:induction false} ReplayKeepsAlive(last: int, prev: int, visits: seq<int>)
    requires last <= prev && prev - last <= SaveSessionInterval
    requires Spaced(prev, visits, MaxSessionAge - SaveSessionInterval)
    ensures Replay(last, visits).Some?
    decreases |visits|
  {
    if visits != [] {
      var l := Visit(last, visits[0]);
      assert l.Some?;
      assert Spaced(visits[0], visits[1..], MaxSessionAge - SaveSessionInterval) by {
        forall i | 0 < i < |visits[1..]|
          ensures 0 <= visits[1..][i] - visits[1..][i - 1] <= MaxSessionAge - SaveSessionInterval
        {
          assert visits[1..][i] == visits[i + 1] && visits[1..][i - 1] == visits[i];
        }
      }
      ReplayKeepsAlive(l.value, visits[0], visits[1..]);
    }
  }

  /** A session whose visits are in time order expires at the first gap longer than a week. */
  lemma {:induction false} ReplayExpires(last: int, prev: int, visits: seq<int>, k: nat)
    requires last <= prev
    requires k < |visits|
    requires forall i :: 0 < i < |visits| ==> visits[i - 1] <= visits[i]
    requires |visits| > 0 ==> prev <= visits[0]
    requires visits[k] - (if k == 0 then prev else visits[k - 1]) > MaxSessionAge
    ensures Replay(last, visits).None?
    decreases k
  {
    var l := Visit(last, visits[0]);
    if l.Some? {
      assert k > 0;
      var rest := visits[1..];
      assert forall i :: 0 < i < |rest| ==> rest[i - 1] <= rest[i] by {
        forall i | 0 < i < |rest| ensures rest[i - 1] <= rest[i] {
          assert rest[i] == visits[i + 1] && rest[i - 1] == visits[i];
        }
      }
      assert rest[k - 1] == visits[k];
      assert k - 1 > 0 ==> rest[k - 2] == visits[k - 1];
      ReplayExpires(l.value, visits[0], rest, k - 1);
    }
  }

  /** The writes-back of a cached session are more than an hour apart, and the first more than an hour after `last`. */
  lemma {:induction false} SavesSpaced(last: int, visits: seq<int>)
    ensures forall i :: 0 < i < |Saves(last, visits)| ==> Saves(last, visits)[i] - Saves(last, visits)[i - 1] > SaveSessionInterval
    ensures |Saves(last, visits)| > 0 ==> Saves(last, visits)[0] - last > SaveSessionInterval
    decreases |visits|
  {
    if visits != [] && Visit(last, visits[0]).Some? {
      var l := Visit(last, visits[0]).value;
      var head := if Refreshes(last, visits[0]) then [visits[0]] else [];
      var tail := Saves(l, visits[1..]);
      SavesSpaced(l, visits[1..]);
      var s := Saves(last, visits);
      assert s == head + tail;
      forall i | 0 < i < |s|
        ensures s[i] - s[i - 1] > SaveSessionInterval
      {
        if head == [] {
          assert s[i] == tail[i] && s[i - 1] == tail[i - 1];
        } else if i == 1 {
          assert s[0] == visits[0] == l && s[1] == tail[0];
        } else {
          assert s[i] == tail[i - 1] && s[i - 1] == tail[i - 2];
        }
      }
      if head == [] && |tail| > 0 {
        assert s[0] == tail[0];
      }
    }
  }

  // ---------------------------------------------------------------------------
  // Looking a session up in the store
  // ---------------------------------------------------------------------------

  /**
    What the store yields for a cookie that is not live in memory: the fields
    of the session returned, whether it is kept in memory, and whether the
    stored document was found stale.
   */
  datatype Lookup = Lookup(cookie: string, cid: Option<string>, lastAccessed: int,
                           credentials: Option<SessionCredentials>, keep: bool, stale: bool)

  /**
    The database half of `get_session`.  Without a cookie, or when the session
    document is missing (the lookup raises and the error is swallowed), the
    session is a fresh anonymous one.  A found document lends its cookie; a
    stale one gives an anonymous session that is not kept.  A document with an
    account whose account document exists gives that account's session, which
    is kept in memory.
   */
  function StoreLookup(sid: Option<string>, now: int, freshCookie: string, docs: map<string, SessionDoc>,
                       accounts: map<string, AccountDoc>, domains: set<string>): (r: Lookup)
    ensures r.keep <==> Truthy(sid) && sid.value in docs && now - docs[sid.value].updated <= MaxSessionAge
                        && Truthy(docs[sid.value].cid) && docs[sid.value].cid.value in accounts
    ensures r.stale <==> Truthy(sid) && sid.value in docs && now - docs[sid.value].updated > MaxSessionAge
    ensures r.cookie == if Truthy(sid) && sid.value in docs then sid.value else freshCookie
    ensures !r.keep ==> r.cid.None? && r.credentials.None? && r.lastAccessed == now
    ensures r.keep ==> r.cid == docs[sid.value].cid && r.lastAccessed == docs[sid.value].updated
                       && r.credentials == Some(LoadedCredentials(accounts[docs[sid.value].cid.value], domains))
  {
    if !Truthy(sid) || sid.value !in docs then Lookup(freshCookie, None, now, None, false, false)
    else
      var doc := docs[sid.value];
      if now - doc.updated > MaxSessionAge then Lookup(sid.value, None, now, None, false, true)
      else if !Truthy(doc.cid) || doc.cid.value !in accounts then Lookup(sid.value, None, now, None, false, false)
      else Lookup(sid.value, doc.cid, doc.updated, Some(LoadedCredentials(accounts[doc.cid.value], domains)), true, false)
  }

  /** The session documents after a lookup as written: the delete of a stale document is never awaited, so nothing changes. */
  function DocsAfterAsWritten(docs: map<string, SessionDoc>, sid: Option<string>, l: Lookup): map<string, SessionDoc> {
    docs
  }

  /** The session documents after a lookup: a stale document is deleted, as `remove_session` does. */
  function DocsAfter(docs: map<string, SessionDoc>, sid: Option<string>, l: Lookup): (r: map<string, SessionDoc>)
    ensures l.stale && sid.Some? ==> sid.value !in r
    ensures forall k :: k in docs && (sid.None? || k != sid.value) ==> k in r && r[k] == docs[k]
    ensures forall k :: k in r ==> k in docs && r[k] == docs[k]
  {
    if l.stale && sid.Some? then docs - {sid.value} else docs
  }

  /** As written, a stale document outlives the lookup that found it stale, so every later visit reads it again. */
  lemma StaleDocumentKeptAsWritten()
    ensures var docs := map["c0ffee" := SessionDoc("c0ffee", Some("alice"), 0)];
            var l := StoreLookup(Some("c0ffee"), MaxSessionAge + 1, "fresh", docs, map[], {});
            l.stale && "c0ffee" in DocsAfterAsWritten(docs, Some("c0ffee"), l)
  {
  }

  /** With the delete carried out, a stale document is gone after the lookup. */
  lemma StaleDocumentRemoved(sid: Option<string>, now: int, freshCookie: string, docs: map<string, SessionDoc>,
                             accounts: map<string, AccountDoc>, domains: set<string>)
    ensures var l := StoreLookup(sid, now, freshCookie, docs, accounts, domains);
            l.stale ==> sid.Some? && sid.value in docs && sid.value !in DocsAfter(docs, sid, l)
  {
  }

  /**
    A session registered by `set_session` survives a restart of the server
    within a week: the store alone gives back its account, with the identity
    and provider that were saved and without administrator rights.
   */
  lemma SessionSurvivesInStore(sid: string, cid: string, fields: CredentialsDoc, saved: int, now: int,
                               docs: map<string, SessionDoc>, accounts: map<string, AccountDoc>,
                               freshCookie: string, domains: set<string>)
    requires sid != "" && cid != "" && now - saved <= MaxSessionAge
    ensures var c := CredentialsOf(Some(fields));
            var l := StoreLookup(Some(sid), now, freshCookie, docs[sid := SessionDoc(sid, Some(cid), saved)],
                                 accounts[cid := SavedAccount(Some(cid), c)], domains);
            l.keep && l.cookie == sid && l.cid == Some(cid) && l.lastAccessed == saved
            && l.credentials == Some(c.(admin := false, authoritative := c.oauthProvider in domains))
  {
    ReloadAfterSave(Some(cid), CredentialsOf(Some(fields)), domains);
  }

  /** `m` without the entry of the cookie, if there is one. */
  function Without(m: map<string, SessionObject>, sid: Option<string>): (r: map<string, SessionObject>)
    ensures forall k :: k in r <==> k in m && (sid.None? || k != sid.value)
  {
    if sid.Some? then m - {sid.value} else m
  }

  // ---------------------------------------------------------------------------
  // The server's session state
  // ---------------------------------------------------------------------------

  class SessionStore {
    /** `server.data.sessions`: the live sessions by cookie. */
    var sessions: map<string, SessionObject>
    /** The `session` index. */
    var sessionDocs: map<string, SessionDoc>
    /** The `account` index. */
    var accountDocs: map<string, AccountDoc>

    /** Every live session is filed under its own cookie, so different cookies hold different objects. */
    ghost predicate Valid()
      reads this, sessions.Values
    {
      forall k :: k in sessions ==> sessions[k].cookie == k
    }

    constructor(sessionDocs: map<string, SessionDoc>, accountDocs: map<string, AccountDoc>)
      ensures Valid()
      ensures sessions == map[] && this.sessionDocs == sessionDocs && this.accountDocs == accountDocs
    {
      sessions := map[];
      this.sessionDocs := sessionDocs;
      this.accountDocs := accountDocs;
    }

    /** `save_session`: the session document under the cookie records the account and the last access. */
    method SaveSession(s: SessionObject)
      modifies this
      ensures sessionDocs == old(sessionDocs)[s.cookie := SessionDoc(s.cookie, s.cid, s.lastAccessed)]
      ensures sessions == old(sessions) && accountDocs == old(accountDocs)
    {
      sessionDocs := sessionDocs[s.cookie := SessionDoc(s.cookie, s.cid, s.lastAccessed)];
    }

    /** `remove_session`: the session document under the cookie is deleted. */
    method RemoveSession(s: SessionObject)
      modifies this
      ensures sessionDocs == old(sessionDocs) - {s.cookie}
      ensures sessions == old(sessions) && accountDocs == old(accountDocs)
    {
      sessionDocs := sessionDocs - {s.cookie};
    }

    /** `save_credentials`: the account document under the session's account id. */
    method SaveCredentials(s: SessionObject)
      requires s.credentials.Some?
      modifies this
      ensures accountDocs == if s.cid.Some? then old(accountDocs)[s.cid.value := SavedAccount(s.cid, s.credentials.value)]
                             else old(accountDocs)
      ensures sessions == old(sessions) && sessionDocs == old(sessionDocs)
    {
      if s.cid.Some? {
        accountDocs := accountDocs[s.cid.value := SavedAccount(s.cid, s.credentials.value)];
      }
    }

    /**
      `get_session` for the cookie `sid` at time `now`.  A live session in
      memory is expired, refreshed or left as it is, and a copy of it is
      returned; otherwise the store is consulted as `StoreLookup` says.
     */
    method GetSession(sid: Option<string>, now: int, freshCookie: string, domains: set<string>) returns (s: SessionObject)
      requires Valid()
      modifies this, sessions.Values
      ensures Valid() && fresh(s) && accountDocs == old(accountDocs)
      ensures old(Hit(sid, now)) ==>
        var last := old(sessions[sid.value].lastAccessed);
        && sessions == old(sessions)
        && sessions[sid.value].lastAccessed == Visit(last, now).value
        && s.cookie == sid.value && s.cid == old(sessions[sid.value].cid) && s.created == old(sessions[sid.value].created)
        && s.credentials == old(sessions[sid.value].credentials) && s.lastAccessed == Visit(last, now).value
        && sessionDocs == if Refreshes(last, now) then old(sessionDocs)[sid.value := SessionDoc(sid.value, s.cid, now)]
                          else old(sessionDocs)
      ensures !old(Hit(sid, now)) ==>
        var l := StoreLookup(sid, now, freshCookie, old(sessionDocs), old(accountDocs), domains);
        && s.cookie == l.cookie && s.cid == l.cid && s.lastAccessed == l.lastAccessed
        && s.credentials == l.credentials && s.created == Some(now)
        && sessions == (if l.keep then old(sessions)[sid.value := s] else Without(old(sessions), sid))
        && sessionDocs == DocsAfter(old(sessionDocs), sid, l)
      ensures forall k :: k in old(sessions) && (!old(Hit(sid, now)) || k != sid.value) ==> unchanged(old(sessions[k]))
    {
      if sid.Some? && sid.value in sessions {
        var x := sessions[sid.value];
        if now - x.lastAccessed > MaxSessionAge {
          sessions := sessions - {sid.value};
        } else {
          if now - x.lastAccessed > SaveSessionInterval {
            x.lastAccessed := now;
            SaveSession(x);
          }
          s := x.Copy();
          return;
        }
      }
      s := FromStore(sid, now, freshCookie, domains);
    }

    /** The cookie names a session that is live in memory and not yet expired. */
    ghost predicate Hit(sid: Option<string>, now: int)
      reads this, sessions.Values
    {
      sid.Some? && sid.value in sessions && Visit(sessions[sid.value].lastAccessed, now).Some?
    }

    /** The database half of `get_session`, with the stale document deleted. */
    method FromStore(sid: Option<string>, now: int, freshCookie: string, domains: set<string>) returns (s: SessionObject)
      requires Valid()
      modifies this
      ensures Valid() && fresh(s) && accountDocs == old(accountDocs)
      ensures var l := StoreLookup(sid, now, freshCookie, old(sessionDocs), old(accountDocs), domains);
        && s.cookie == l.cookie && s.cid == l.cid && s.lastAccessed == l.lastAccessed
        && s.credentials == l.credentials && s.created == Some(now)
        && sessions == (if l.keep then old(sessions)[sid.value := s] else old(sessions))
        && sessionDocs == DocsAfter(old(sessionDocs), sid, l)
    {
      s := new SessionObject.Fresh(now, freshCookie);
      if Truthy(sid) && sid.value in sessionDocs {
        var doc := sessionDocs[sid.value];
        s.cookie := sid.value;
        if now - doc.updated > MaxSessionAge {
          sessionDocs := sessionDocs - {sid.value};
          return;
        }
        if Truthy(doc.cid) && doc.cid.value in accountDocs {
          var account := accountDocs[doc.cid.value];
          s.cid := doc.cid;
          s.lastAccessed := doc.updated;
          var p := account.internal.oauthProvider;
          var creds := account.credentials;
          creds := creds.(authoritative := Some(p.Some? && p.value in domains));
          creds := creds.(oauthProvider := Some(p.GetOr("generic")));
          creds := creds.(oauthData := Some(account.internal.oauthData.GetOr(map[])));
          s.credentials := Some(CredentialsOf(Some(creds)));
          sessions := sessions[sid.value := s];
        }
      }
    }

    /**
      `set_session`: a new session for the account `cid` under the fresh id
      `sessionId`, live in memory and saved with its account; the result is
      the cookie to set.
     */
    method SetSession(cid: Option<string>, fields: CredentialsDoc, now: int, sessionId: string) returns (cookieHeader: string)
      requires Valid()
      modifies this
      ensures Valid()
      ensures sessionId in sessions && fresh(sessions[sessionId])
      ensures sessions == old(sessions)[sessionId := sessions[sessionId]]
      ensures sessions[sessionId].cookie == sessionId && sessions[sessionId].cid == cid
      ensures sessions[sessionId].lastAccessed == now && sessions[sessionId].created == None
      ensures sessions[sessionId].credentials == Some(CredentialsOf(Some(fields)))
      ensures sessionDocs == old(sessionDocs)[sessionId := SessionDoc(sessionId, cid, now)]
      ensures accountDocs == if cid.Some? then old(accountDocs)[cid.value := SavedAccount(cid, CredentialsOf(Some(fields)))]
                             else old(accountDocs)
      ensures cookieHeader == "ponymail=" + sessionId
    {
      var s := new SessionObject.FromFields(now, None, sessionId, cid);
      s.credentials := Some(CredentialsOf(Some(fields)));
      sessions := sessions[sessionId := s];
      SaveSession(s);
      SaveCredentials(s);
      cookieHeader := "ponymail=" + sessionId;
    }
  }
}
