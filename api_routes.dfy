/**
 * The end-user routes under `/api`: the map data, login with its upsert by
 * phone, the affiliation request upload, and the two profile reads. Each
 * route is one method over the shared `Db`; the request is already past
 * the access-token middleware, whose claims supply `userId`.
 */
module ApiRoutes {
  import opened Js
  import opened Models
  import opened Database
  import opened MapService
  import opened AuthMiddleware
  import Http

  // ---------------------------------------------------------------------
  // GET /map
  // ---------------------------------------------------------------------

  /** Partnership `psid` joins a partner in `pids`, its store and its partner (no coordinate test). */
  predicate AnyJoin(pids: seq<Id>, psid: Id, stores: map<Id, StoreRow>, partners: map<Id, Partner>,
                    partnerships: map<Id, Partnership>)
  {
    && psid in partnerships
    && partnerships[psid].partner_id in pids
    && partnerships[psid].store_id in stores
    && partnerships[psid].partner_id in partners
  }

  /**
   * `WHERE ps.partner_id = ANY($1)`: one pass over the partnerships in the
   * engine's order, keeping those whose partner is listed. A pass without
   * repeats yields each partnership at most once, however often its partner
   * is listed.
   */
  function AnyRows(pids: seq<Id>, scan: seq<Id>, stores: map<Id, StoreRow>,
                   partners: map<Id, Partner>, partnerships: map<Id, Partnership>): (rows: seq<Row>)
    requires Distinct(scan) && PartnershipsKeyed(partnerships)
    ensures |rows| <= |scan|
    ensures forall j :: 0 <= j < |rows| ==>
      && AnyJoin(pids, rows[j].partnership_id, stores, partners, partnerships)
      && IsJoinOf(rows[j], stores, partners, partnerships)
    ensures forall j :: 0 <= j < |rows| ==>
      && rows[j].partnership_id in scan
      && rows[j].partner_id in pids && rows[j].partner_id in partners && rows[j].store_id in stores
    ensures forall i, j :: 0 <= i < j < |rows| ==> rows[i].partnership_id != rows[j].partnership_id
    decreases |scan|
  {
    if scan == [] then []
    else
      var psid := scan[0];
      var tail := AnyRows(pids, scan[1..], stores, partners, partnerships);
      assert psid !in scan[1..];
      if AnyJoin(pids, psid, stores, partners, partnerships)
      then [JoinedRow(stores[partnerships[psid].store_id], partners[partnerships[psid].partner_id],
                      partnerships[psid])] + tail
      else tail
  }

  lemma {:induction false} AnyRowsReaches(pids: seq<Id>, psid: Id, scan: seq<Id>, stores: map<Id, StoreRow>,
                                          partners: map<Id, Partner>, partnerships: map<Id, Partnership>)
    requires Distinct(scan) && PartnershipsKeyed(partnerships)
    requires psid in scan && AnyJoin(pids, psid, stores, partners, partnerships)
    ensures JoinOf(psid, stores, partners, partnerships) in AnyRows(pids, scan, stores, partners, partnerships)
    decreases |scan|
  {
    if scan[0] != psid {
      AnyRowsReaches(pids, psid, scan[1..], stores, partners, partnerships);
    }
  }

  /**
   * Over a pass of the whole partnerships table, every partnership whose
   * partner is listed and whose store and partner exist yields its row.
   */
  lemma AnyRowsComplete(pids: seq<Id>, psid: Id, scan: seq<Id>, stores: map<Id, StoreRow>,
                        partners: map<Id, Partner>, partnerships: map<Id, Partnership>)
    requires ScanOf(scan, partnerships) && PartnershipsKeyed(partnerships)
    requires AnyJoin(pids, psid, stores, partners, partnerships)
    ensures JoinOf(psid, stores, partners, partnerships) in AnyRows(pids, scan, stores, partners, partnerships)
  {
    AnyRowsReaches(pids, psid, scan, stores, partners, partnerships);
  }

  /**
   * Unlike the map service, the route keeps a store without coordinates: a
   * listed partnership whose store has no `lat` still gives a row.
   */
  lemma AnyRowsKeepsUnlocated(pid: Id, s: StoreRow, p: Partner, ps: Partnership)
    requires s.store.lat.None? && ps.partner_id == pid && ps.store_id == s.store.id && p.id == pid
    ensures var rows := AnyRows([pid], [ps.id], map[s.store.id := s], map[pid := p], map[ps.id := ps]);
      |rows| == 1 && rows[0].lat.None?
  {
  }

  /**
   * `GET /map` up to the HTML it renders: the user's partner ids, the
   * joined rows, and the same per-store fold as the map service (the
   * route's object is keyed by UUID strings, which an object enumerates in
   * insertion order, like the service's Map).
   */
  method MapStores(db: Db, userId: Id, scan: seq<Id>) returns (stores: seq<StoreEntry>)
    requires db.Valid() && ScanOf(scan, db.partnerships)
    ensures stores == Grouped(AnyRows(PartnerIdsOf(db.users, userId), scan, db.stores, db.partners, db.partnerships))
    ensures userId !in db.users ==> stores == []
    ensures TotalDeals(stores) <= |db.partnerships|
  {
    var pids := PartnerIdsOf(db.users, userId);
    var rows := AnyRows(pids, scan, db.stores, db.partners, db.partnerships);
    stores := GroupRows(rows);
    GroupedCount(rows);
    ScanLength(scan, db.partnerships);
  }

  // ---------------------------------------------------------------------
  // POST /login
  // ---------------------------------------------------------------------

  /** The user row holding `phone`; unique because phones are. */
  ghost function PhoneOwner(users: map<Id, User>, phone: string): (k: Id)
    requires PhoneTaken(users, phone)
    ensures k in users && users[k].phone == phone
  {
    var k :| k in users && users[k].phone == phone; k
  }

  /** The outcome of the upsert: a key clash, or the new table with the row's id and `is_new`. */
  datatype Upsert = IdTaken | Upserted(users: map<Id, User>, id: Id, isNew: bool)

  /**
   * `INSERT ... ON CONFLICT (phone) DO UPDATE SET name, image`: an existing
   * phone keeps its row and id and takes the new name and image; a new
   * phone inserts a default user under the generated id, which fails if
   * that id is already in use.
   */
  ghost function UpsertByPhone(users: map<Id, User>, name: string, image: string, phone: string,
                               freshId: Id): (u: Upsert)
    requires UsersKeyed(users) && PhonesUnique(users)
    ensures u.IdTaken? <==> !PhoneTaken(users, phone) && freshId in users
    ensures u.Upserted? ==> (u.isNew <==> !PhoneTaken(users, phone))
    ensures u.Upserted? ==> (u.isNew <==> u.id !in users)
    ensures u.Upserted? ==> UsersKeyed(u.users) && PhonesUnique(u.users)
    ensures u.Upserted? ==> u.users.Keys == users.Keys + {u.id}
    ensures u.Upserted? ==> forall k :: k in users && k != u.id ==> u.users[k] == users[k]
    ensures u.Upserted? ==> u.users[u.id].phone == phone && u.users[u.id].name == name && u.users[u.id].image == image
  {
    if PhoneTaken(users, phone) then
      var k := PhoneOwner(users, phone);
      Upserted(users[k := users[k].(name := name, image := image)], k, false)
    else if freshId in users then IdTaken
    else Upserted(users[freshId := NewUser(freshId, None, name, image, phone, Absent, Absent, None)], freshId, true)
  }

  /** An existing phone keeps its id and every other column of its row. */
  lemma UpsertKeepsExisting(users: map<Id, User>, name: string, image: string, phone: string,
                            freshId: Id, k: Id)
    requires UsersKeyed(users) && PhonesUnique(users)
    requires k in users && users[k].phone == phone
    ensures var u := UpsertByPhone(users, name, image, phone, freshId);
      u.Upserted? && u.id == k && !u.isNew && u.users[k] == users[k].(name := name, image := image)
  {
  }

  /** A new phone gets a default user: unverified, no colleges, no refresh token. */
  lemma UpsertInsertsDefault(users: map<Id, User>, name: string, image: string, phone: string, freshId: Id)
    requires UsersKeyed(users) && PhonesUnique(users)
    requires !PhoneTaken(users, phone) && freshId !in users
    ensures var u := UpsertByPhone(users, name, image, phone, freshId);
      && u.Upserted? && u.id == freshId && u.isNew
      && u.users[freshId].refresh_token.None? && !u.users[freshId].is_verified
      && u.users[freshId].college_auth == Some([])
  {
  }

  /** The login answer: a 500, or both tokens and `isRegister`. */
  datatype LoginReply = LoginFailed(status: int) | LoggedIn(accessToken: string, refreshToken: string, isRegister: bool)

  /** A token the callback accepts: present and not empty. */
  predicate Issued(token: Option<string>) {
    token.Some? && token.value != ""
  }

  /**
   * The whole of `POST /login` on the users table: the upsert, then the
   * access token, then the refresh token (each sign failure answers 500 and
   * leaves the upsert in place), then the refresh token is stored.
   */
  ghost function LoginSpec(users: map<Id, User>, name: string, image: string, phone: string, freshId: Id,
                           secrets: Secrets, sign: (Claims, string) -> Option<string>): (res: (map<Id, User>, LoginReply))
    requires UsersKeyed(users) && PhonesUnique(users)
    ensures res.1.LoginFailed? ==> res.1.status == Http.ServerError
    ensures UsersKeyed(res.0) && PhonesUnique(res.0)
  {
    match UpsertByPhone(users, name, image, phone, freshId)
    case IdTaken => (users, LoginFailed(Http.ServerError))
    case Upserted(users', id, isNew) =>
      var access := sign(UserClaims(id, phone), secrets.access);
      var refresh := sign(UserClaims(id, phone), secrets.refresh);
      if !Issued(access) || !Issued(refresh) then (users', LoginFailed(Http.ServerError))
      else (users'[id := users'[id].(refresh_token := refresh)], LoggedIn(access.value, refresh.value, isNew))
  }

  /**
   * A successful login registers exactly when the phone was new, stores the
   * refresh token it hands out on that phone's row (replacing any earlier
   * one), and leaves every other row alone.
   */
  lemma LoginSucceeds(users: map<Id, User>, name: string, image: string, phone: string, freshId: Id,
                      secrets: Secrets, sign: (Claims, string) -> Option<string>)
    requires UsersKeyed(users) && PhonesUnique(users)
    requires LoginSpec(users, name, image, phone, freshId, secrets, sign).1.LoggedIn?
    ensures var (users', reply) := LoginSpec(users, name, image, phone, freshId, secrets, sign);
      && (reply.isRegister <==> !PhoneTaken(users, phone))
      && PhoneTaken(users', phone)
      && var k := PhoneOwner(users', phone);
      && users'[k].refresh_token == Some(reply.refreshToken)
      && users'[k].name == name && users'[k].image == image
      && (PhoneTaken(users, phone) ==> k == PhoneOwner(users, phone))
      && (forall j :: j in users && j != k ==> j in users' && users'[j] == users[j])
  {
    var u := UpsertByPhone(users, name, image, phone, freshId);
    var users' := LoginSpec(users, name, image, phone, freshId, secrets, sign).0;
    assert users'[u.id].phone == phone;
  }

  /**
   * Logging in again with the same phone adds no row and is not a
   * registration; the phone's row takes the second name and image.
   */
  lemma LoginTwice(users: map<Id, User>, name1: string, image1: string, name2: string, image2: string,
                   phone: string, freshId1: Id, freshId2: Id,
                   secrets: Secrets, sign: (Claims, string) -> Option<string>)
    requires UsersKeyed(users) && PhonesUnique(users)
    requires UpsertByPhone(users, name1, image1, phone, freshId1).Upserted?
    ensures var users1 := LoginSpec(users, name1, image1, phone, freshId1, secrets, sign).0;
      var (users2, reply2) := LoginSpec(users1, name2, image2, phone, freshId2, secrets, sign);
      && PhoneTaken(users1, phone)
      && users2.Keys == users1.Keys
      && (reply2.LoggedIn? ==> !reply2.isRegister)
      && var k := PhoneOwner(users1, phone);
      && users2[k].name == name2 && users2[k].image == image2
  {
    var u := UpsertByPhone(users, name1, image1, phone, freshId1);
    var users1 := LoginSpec(users, name1, image1, phone, freshId1, secrets, sign).0;
    assert u.id in users1 && users1[u.id].phone == phone;
    assert PhoneTaken(users1, phone);
  }

  /** Both tokens carry the row's id and the phone, each under its own secret. */
  lemma LoginTokens(users: map<Id, User>, name: string, image: string, phone: string, freshId: Id,
                    secrets: Secrets, sign: (Claims, string) -> Option<string>)
    requires UsersKeyed(users) && PhonesUnique(users)
    requires LoginSpec(users, name, image, phone, freshId, secrets, sign).1.LoggedIn?
    ensures var (users', reply) := LoginSpec(users, name, image, phone, freshId, secrets, sign);
      var id := UpsertByPhone(users, name, image, phone, freshId).id;
      && sign(UserClaims(id, phone), secrets.access) == Some(reply.accessToken)
      && sign(UserClaims(id, phone), secrets.refresh) == Some(reply.refreshToken)
  {
  }

  /** A sign failure answers 500 but keeps the upserted row, with no token stored. */
  lemma LoginSignFailure(users: map<Id, User>, name: string, image: string, phone: string, freshId: Id,
                         secrets: Secrets, sign: (Claims, string) -> Option<string>)
    requires UsersKeyed(users) && PhonesUnique(users)
    requires UpsertByPhone(users, name, image, phone, freshId).Upserted?
    requires var id := UpsertByPhone(users, name, image, phone, freshId).id;
      !Issued(sign(UserClaims(id, phone), secrets.access)) || !Issued(sign(UserClaims(id, phone), secrets.refresh))
    ensures LoginSpec(users, name, image, phone, freshId, secrets, sign)
         == (UpsertByPhone(users, name, image, phone, freshId).users, LoginFailed(Http.ServerError))
  {
  }

  /**
   * `POST /login`. `freshId` is the id the database would generate and
   * `sign` stands for `jwt.sign`; only the users table changes.
   */
  method Login(db: Db, name: string, image: string, phone: string, freshId: Id,
               secrets: Secrets, sign: (Claims, string) -> Option<string>) returns (reply: LoginReply)
    requires db.Valid()
    modifies db`users
    ensures db.Valid()
    ensures (db.users, reply) == LoginSpec(old(db.users), name, image, phone, freshId, secrets, sign)
  {
    var id: Id;
    var isNew: bool;
    if PhoneTaken(db.users, phone) {
      var k :| k in db.users && db.users[k].phone == phone;
      db.users := db.users[k := db.users[k].(name := name, image := image)];
      id, isNew := k, false;
    } else if freshId in db.users {
      return LoginFailed(Http.ServerError);
    } else {
      db.users := db.users[freshId := NewUser(freshId, None, name, image, phone, Absent, Absent, None)];
      id, isNew := freshId, true;
    }
    var access := sign(UserClaims(id, phone), secrets.access);
    if !Issued(access) {
      return LoginFailed(Http.ServerError);
    }
    var refresh := sign(UserClaims(id, phone), secrets.refresh);
    if !Issued(refresh) {
      return LoginFailed(Http.ServerError);
    }
    db.users := db.users[id := db.users[id].(refresh_token := refresh)];
    reply := LoggedIn(access.value, refresh.value, isNew);
  }

  // ---------------------------------------------------------------------
  // POST /college-auth/request
  // ---------------------------------------------------------------------

  /**
   * An upload with no file answers 400 and inserts nothing; otherwise one
   * pending request is inserted with the public path of the upload, or a
   * clash of the generated id answers 500 with no insert.
   */
  method RequestCollegeAuth(db: Db, userId: Id, file: Option<string>, serverUrl: string, freshId: Id)
    returns (status: int)
    requires db.Valid()
    modifies db`collegeAuths
    ensures db.Valid()
    ensures file.None? ==> status == Http.BadRequest && db.collegeAuths == old(db.collegeAuths)
    ensures file.Some? && freshId in old(db.collegeAuths) ==>
      status == Http.ServerError && db.collegeAuths == old(db.collegeAuths)
    ensures file.Some? && freshId !in old(db.collegeAuths) ==>
      && status == Http.Ok
      && db.collegeAuths == old(db.collegeAuths)[freshId :=
           CollegeAuth(freshId, userId, UploadUrl(serverUrl, "users", file.value), None, None)]
  {
    if file.None? {
      return Http.BadRequest;
    }
    var imagePath := UploadUrl(serverUrl, "users", file.value);
    if freshId in db.collegeAuths {
      return Http.ServerError;
    }
    db.collegeAuths := db.collegeAuths[freshId := CollegeAuth(freshId, userId, imagePath, None, None)];
    status := Http.Ok;
  }

  /** The image path of an uploaded file is never empty, so an upload is never refused. */
  lemma UploadPathTruthy(serverUrl: string, filename: string)
    ensures Truthy(Str(UploadUrl(serverUrl, "users", filename)))
  {
  }

  // ---------------------------------------------------------------------
  // GET /getUserCollege and GET /me
  // ---------------------------------------------------------------------

  /** `$1,$2,…,$n`: one numbered placeholder per id. */
  function Placeholder(i: nat): (p: string)
    ensures |p| >= 2 && p[0] == '$' && ',' !in p
  {
    "$" + NatToString(i + 1)
  }

  /** The `$1,…,$n` text put inside `IN (...)`; SelectedPartners models the query it builds. */
  function Placeholders(n: nat): string {
    Join(seq(n, i requires 0 <= i < n => Placeholder(i)), ",")
  }

  /** No ids, no placeholders. */
  lemma PlaceholdersEmpty()
    ensures Placeholders(0) == ""
  {
  }

  /**
   * For `n >= 1` the list splits on commas into exactly `n` placeholders,
   * the `i`-th being `$` followed by the number `i + 1`.
   */
  lemma PlaceholdersNumbered(n: nat)
    requires n >= 1
    ensures var fields := Split(Placeholders(n), ',');
      && |fields| == n
      && forall i :: 0 <= i < n ==>
           && |fields[i]| >= 2 && fields[i][0] == '$'
           && (forall c :: 0 <= c < |fields[i]| - 1 ==> '0' <= fields[i][1..][c] <= '9')
           && ParseNat(fields[i][1..]) == i + 1
  {
    var parts := seq(n, i requires 0 <= i < n => Placeholder(i));
    SplitJoin(parts, ',');
    forall i | 0 <= i < n
      ensures (forall c :: 0 <= c < |parts[i]| - 1 ==> '0' <= parts[i][1..][c] <= '9')
           && ParseNat(parts[i][1..]) == i + 1
    {
      assert parts[i][1..] == NatToString(i + 1);
      ParseNatToString(i + 1);
    }
  }

  /**
   * `SELECT ... FROM partners WHERE id IN (...)`: the partner ids, in the
   * engine's order over the partners table, that are listed and exist.
   */
  function SelectedPartners(ids: seq<Id>, scan: seq<Id>, partners: map<Id, Partner>): (sel: seq<Id>)
    requires Distinct(scan)
    ensures |sel| <= |scan|
    ensures forall j :: 0 <= j < |sel| ==> sel[j] in ids && sel[j] in partners && sel[j] in scan
    ensures Distinct(sel)
    decreases |scan|
  {
    if scan == [] then []
    else
      var tail := SelectedPartners(ids, scan[1..], partners);
      assert scan[0] !in scan[1..];
      if scan[0] in ids && scan[0] in partners then [scan[0]] + tail else tail
  }

  lemma {:induction false} SelectedPartnersReach(ids: seq<Id>, scan: seq<Id>, partners: map<Id, Partner>, k: Id)
    requires Distinct(scan)
    requires k in ids && k in partners && k in scan
    ensures k in SelectedPartners(ids, scan, partners)
    decreases |scan|
  {
    if scan[0] != k {
      SelectedPartnersReach(ids, scan[1..], partners, k);
    }
  }

  /**
   * Over a pass of the whole partners table, a partner is selected exactly
   * when it is listed and exists.
   */
  lemma SelectedPartnersComplete(ids: seq<Id>, scan: seq<Id>, partners: map<Id, Partner>, k: Id)
    requires ScanOf(scan, partners)
    ensures k in SelectedPartners(ids, scan, partners) <==> k in ids && k in partners
  {
    if k in ids && k in partners {
      SelectedPartnersReach(ids, scan, partners, k);
    }
  }

  /** No ids select nothing (used by GetUserCollege for the skipped query). */
  lemma {:induction false} SelectedPartnersNone(scan: seq<Id>, partners: map<Id, Partner>)
    requires Distinct(scan)
    ensures SelectedPartners([], scan, partners) == []
    decreases |scan|
  {
    if scan != [] {
      SelectedPartnersNone(scan[1..], partners);
    }
  }

  /** The names of the selected partners, in the same order. */
  function NamesOf(sel: seq<Id>, partners: map<Id, Partner>): (names: seq<string>)
    requires forall j :: 0 <= j < |sel| ==> sel[j] in partners
    ensures |names| == |sel|
    ensures forall j :: 0 <= j < |sel| ==> names[j] == partners[sel[j]].name
  {
    seq(|sel|, j requires 0 <= j < |sel| => partners[sel[j]].name)
  }

  /**
   * `GET /getUserCollege`: the names of the user's partners joined with
   * `", "`; no user, a NULL list or an empty list answer the empty string.
   */
  method GetUserCollege(db: Db, userId: Id, scan: seq<Id>) returns (collegeAuth: string)
    requires ScanOf(scan, db.partners)
    ensures PartnerIdsOf(db.users, userId) == [] ==> collegeAuth == ""
    ensures var sel := SelectedPartners(PartnerIdsOf(db.users, userId), scan, db.partners);
      collegeAuth == Join(NamesOf(sel, db.partners), ", ")
  {
    var ids := PartnerIdsOf(db.users, userId);
    var details: seq<string> := [];
    if |ids| > 0 {
      var sel := SelectedPartners(ids, scan, db.partners);
      details := NamesOf(sel, db.partners);
    } else {
      SelectedPartnersNone(scan, db.partners);
    }
    collegeAuth := Join(details, ", ");
  }

  /** The `user` object of the `/me` answer. */
  datatype Profile = Profile(
    name: string, is_verified: bool, phone: string, image: string,
    college_auth: seq<PartnerRef>, is_authenticating: bool)

  /**
   * `GET /me`: 404 when the user row is missing; otherwise its columns, the
   * details of its partners and whether a request of the user is pending.
   */
  method Me(db: Db, userId: Id, scan: seq<Id>) returns (status: int, profile: Option<Profile>)
    requires ScanOf(scan, db.partners)
    ensures status == Http.NotFound <==> userId !in db.users
    ensures status == Http.NotFound ==> profile.None?
    ensures status != Http.NotFound ==> status == Http.Ok && profile.Some?
    ensures profile.Some? ==>
      && userId in db.users
      && var u := db.users[userId];
      && profile.value.name == u.name && profile.value.is_verified == u.is_verified
      && profile.value.phone == u.phone && profile.value.image == u.image
      && (profile.value.is_authenticating <==> HasPendingRequest(db.collegeAuths, userId))
      && var sel := SelectedPartners(PartnerIdsOf(db.users, userId), scan, db.partners);
      && |profile.value.college_auth| == |sel|
      && forall j :: 0 <= j < |sel| ==>
           profile.value.college_auth[j] == PartnerRef(sel[j], db.partners[sel[j]].name, db.partners[sel[j]].image)
  {
    if userId !in db.users {
      return Http.NotFound, None;
    }
    var u := db.users[userId];
    var ids := PartnerIdsOf(db.users, userId);
    var sel := SelectedPartners(ids, scan, db.partners);
    var partners := db.partners;
    var details := seq(|sel|, j requires 0 <= j < |sel| => PartnerRef(sel[j], partners[sel[j]].name, partners[sel[j]].image));
    var pending := exists k :: k in db.collegeAuths && db.collegeAuths[k].user_id == userId;
    status, profile := Http.Ok, Some(Profile(u.name, u.is_verified, u.phone, u.image, details, pending));
  }
}
