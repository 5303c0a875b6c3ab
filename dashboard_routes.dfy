/**
 * The admin dashboard routes under `/dashboard`: admin login, the decision
 * on a pending affiliation request, and create/update/delete for stores,
 * partners and partnerships. Request body fields are `Option`s (`None` for
 * a missing or null field) whose JavaScript truthiness the handlers test;
 * a route parameter is a string, empty when missing.
 */
module DashboardRoutes {
  import opened Js
  import opened Models
  import opened Database
  import opened AuthMiddleware
  import Http

  // ---------------------------------------------------------------------
  // POST /login
  // ---------------------------------------------------------------------

  /** The index of the first admin with this name, or `|admins|` when there is none. */
  function FirstNamed(admins: seq<Admin>, name: string): (i: nat)
    ensures i <= |admins|
    ensures i < |admins| ==> admins[i].name == name
    ensures forall j :: 0 <= j < i ==> admins[j].name != name
    decreases |admins|
  {
    if admins == [] then 0
    else if admins[0].name == name then 0
    else 1 + FirstNamed(admins[1..], name)
  }

  /** The answer to an admin login: a status and, on success, the access token. */
  datatype AdminReply = AdminReply(status: int, accessToken: Option<string>)

  /**
   * `POST /dashboard/login`: 400 when the name or the password is missing
   * or empty, before any lookup; 401 when no admin has the name or the
   * password does not match the first one that has it; otherwise a token
   * for that admin's id and name, or 500 when signing fails. `compare`
   * stands for `bcrypt.compare` and `sign` for `jwt.sign`.
   */
  method AdminLogin(db: Db, name: Option<string>, password: Option<string>, secret: string,
                    compare: (string, string) -> bool, sign: (Claims, string) -> Option<string>)
    returns (reply: AdminReply)
    ensures reply.status == Http.BadRequest <==> !Truthy(OfText(name)) || !Truthy(OfText(password))
    ensures reply.status == Http.BadRequest ==> name.None? || name.value == "" || password.None? || password.value == ""
    ensures reply.status != Http.BadRequest ==>
      var i := FirstNamed(db.admins, name.value);
      && (i == |db.admins| ==> reply == AdminReply(Http.Unauthorized, None))
      && (i < |db.admins| && !compare(password.value, db.admins[i].password) ==>
            reply == AdminReply(Http.Unauthorized, None))
      && (i < |db.admins| && compare(password.value, db.admins[i].password) ==>
            var token := sign(AdminClaims(db.admins[i].id, db.admins[i].name), secret);
            reply == if token.Some? then AdminReply(Http.Ok, token) else AdminReply(Http.ServerError, None))
    ensures reply.status == Http.Ok ==> reply.accessToken.Some?
  {
    TextTruthy(name);
    TextTruthy(password);
    if !Truthy(OfText(name)) || !Truthy(OfText(password)) {
      return AdminReply(Http.BadRequest, None);
    }
    var i := FirstNamed(db.admins, name.value);
    if i == |db.admins| {
      return AdminReply(Http.Unauthorized, None);
    }
    var admin := db.admins[i];
    if !compare(password.value, admin.password) {
      return AdminReply(Http.Unauthorized, None);
    }
    var token := sign(AdminClaims(admin.id, admin.name), secret);
    if token.None? {
      return AdminReply(Http.ServerError, None);
    }
    reply := AdminReply(Http.Ok, token);
  }

  /** An admin with the name is found, and it is the first one in table order. */
  lemma {:induction false} FirstNamedFinds(admins: seq<Admin>, name: string, k: nat)
    requires k < |admins| && admins[k].name == name
    ensures FirstNamed(admins, name) <= k
    decreases k
  {
    if k > 0 && admins[0].name != name {
      FirstNamedFinds(admins[1..], name, k - 1);
    }
  }

  // ---------------------------------------------------------------------
  // PATCH /college_auths/:user_id
  // ---------------------------------------------------------------------

  /** `status === 'accepted'`. */
  predicate Accepts(status: Option<string>) {
    status == Some("accepted")
  }

  /** `!colleges || !colleges.length`: no list, or an empty one. */
  predicate NoColleges(colleges: Option<seq<Id>>) {
    colleges.None? || |colleges.value| == 0
  }

  /**
   * The checks before any write: an empty user id, or an acceptance
   * without colleges, is a bad request.
   */
  function DecisionError(userId: Id, status: Option<string>, colleges: Option<seq<Id>>): (bad: bool)
    ensures bad <==> userId == "" || (status == Some("accepted") && (colleges.None? || colleges.value == []))
  {
    userId == "" || (Accepts(status) && NoColleges(colleges))
  }

  /** Acceptance: the user's colleges become exactly `colleges` and the user is verified. */
  function VerifyUser(users: map<Id, User>, userId: Id, colleges: seq<Id>): (users': map<Id, User>)
    ensures users'.Keys == users.Keys
    ensures forall k :: k in users && k != userId ==> users'[k] == users[k]
    ensures userId in users ==>
      && users'[userId].is_verified && users'[userId].college_auth == Some(colleges)
      && users'[userId] == users[userId].(college_auth := Some(colleges), is_verified := true)
  {
    if userId in users then users[userId := users[userId].(college_auth := Some(colleges), is_verified := true)]
    else users
  }

  /** `DELETE FROM college_auths WHERE user_id = $1`. */
  function RemoveRequestsOf(auths: map<Id, CollegeAuth>, userId: Id): (auths': map<Id, CollegeAuth>)
    ensures forall k :: k in auths' <==> k in auths && auths[k].user_id != userId
    ensures forall k :: k in auths' ==> auths'[k] == auths[k]
  {
    map k | k in auths && auths[k].user_id != userId :: auths[k]
  }

  /**
   * After the delete the user has no pending request, and every other
   * user's requests are as they were.
   */
  lemma RemoveRequestsClearsPending(auths: map<Id, CollegeAuth>, userId: Id, other: Id)
    requires other != userId
    ensures !HasPendingRequest(RemoveRequestsOf(auths, userId), userId)
    ensures HasPendingRequest(RemoveRequestsOf(auths, userId), other) <==> HasPendingRequest(auths, other)
  {
    var auths' := RemoveRequestsOf(auths, userId);
    if HasPendingRequest(auths, other) {
      var k :| k in auths && auths[k].user_id == other;
      assert k in auths';
    }
  }

  /** Acceptance replaces the colleges, it does not merge them. */
  lemma AcceptReplacesColleges(users: map<Id, User>, userId: Id, colleges: seq<Id>)
    requires userId in users
    ensures PartnerIdsOf(VerifyUser(users, userId, colleges), userId) == colleges
  {
  }

  /**
   * The writes of a decision that passed the checks: on acceptance the
   * user update, and in every case the removal of the user's requests.
   */
  method ApplyDecision(db: Db, userId: Id, status: Option<string>, colleges: Option<seq<Id>>)
    requires db.Valid() && !DecisionError(userId, status, colleges)
    modifies db`users, db`collegeAuths
    ensures db.Valid()
    ensures db.users == if Accepts(status) then VerifyUser(old(db.users), userId, colleges.value) else old(db.users)
    ensures db.collegeAuths == RemoveRequestsOf(old(db.collegeAuths), userId)
  {
    if Accepts(status) {
      db.users := VerifyUser(db.users, userId, colleges.value);
    }
    db.collegeAuths := RemoveRequestsOf(db.collegeAuths, userId);
  }

  /**
   * The status of the handler as written: after the writes, the file
   * cleanup reads `r.info21_image` from a variable `r` that is never
   * declared, so a request that passed the checks always ends in the catch
   * block's 500.
   */
  function DecisionStatus(userId: Id, status: Option<string>, colleges: Option<seq<Id>>): (code: int)
    ensures code == Http.BadRequest <==> DecisionError(userId, status, colleges)
    ensures code != Http.BadRequest ==> code == Http.ServerError
  {
    if DecisionError(userId, status, colleges) then Http.BadRequest else Http.ServerError
  }

  /** The status the handler is evidently meant to answer: 200 once the writes are done. */
  function DecisionStatusIntended(userId: Id, status: Option<string>, colleges: Option<seq<Id>>): (code: int)
    ensures code == Http.BadRequest <==> DecisionError(userId, status, colleges)
    ensures code == Http.Ok <==> !DecisionError(userId, status, colleges)
  {
    if DecisionError(userId, status, colleges) then Http.BadRequest else Http.Ok
  }

  /**
   * The discrepancy: as written the decision never answers 200, although
   * a well-formed acceptance or rejection is carried out; the intended
   * handler answers 200 for exactly those requests.
   */
  lemma DecisionNeverSucceeds(userId: Id, status: Option<string>, colleges: Option<seq<Id>>)
    ensures DecisionStatus(userId, status, colleges) != Http.Ok
    ensures !DecisionError(userId, status, colleges) ==>
      DecisionStatus(userId, status, colleges) == Http.ServerError
      && DecisionStatusIntended(userId, status, colleges) == Http.Ok
  {
  }

  /** A concrete acceptance that shows it: `{status: 'accepted', colleges: ['p1']}` for user `u1`. */
  lemma AcceptanceAnswers500()
    ensures DecisionStatus("u1", Some("accepted"), Some(["p1"])) == Http.ServerError
    ensures DecisionStatusIntended("u1", Some("accepted"), Some(["p1"])) == Http.Ok
  {
  }

  /**
   * `PATCH /dashboard/college_auths/:user_id` as written: a bad request
   * answers 400 with no write; otherwise the writes happen and the answer
   * is 500.
   */
  method DecideCollegeAuth(db: Db, userId: Id, status: Option<string>, colleges: Option<seq<Id>>)
    returns (code: int)
    requires db.Valid()
    modifies db`users, db`collegeAuths
    ensures db.Valid()
    ensures code == DecisionStatus(userId, status, colleges)
    ensures DecisionError(userId, status, colleges) ==>
      db.users == old(db.users) && db.collegeAuths == old(db.collegeAuths)
    ensures !DecisionError(userId, status, colleges) ==>
      && db.users == (if Accepts(status) then VerifyUser(old(db.users), userId, colleges.value) else old(db.users))
      && db.collegeAuths == RemoveRequestsOf(old(db.collegeAuths), userId)
  {
    if DecisionError(userId, status, colleges) {
      return Http.BadRequest;
    }
    ApplyDecision(db, userId, status, colleges);
    code := Http.ServerError;
  }

  /** The same route with the cleanup fixed: the writes, then 200. */
  method DecideCollegeAuthIntended(db: Db, userId: Id, status: Option<string>, colleges: Option<seq<Id>>)
    returns (code: int)
    requires db.Valid()
    modifies db`users, db`collegeAuths
    ensures db.Valid()
    ensures code == DecisionStatusIntended(userId, status, colleges)
    ensures DecisionError(userId, status, colleges) ==>
      db.users == old(db.users) && db.collegeAuths == old(db.collegeAuths)
    ensures !DecisionError(userId, status, colleges) ==>
      && db.users == (if Accepts(status) then VerifyUser(old(db.users), userId, colleges.value) else old(db.users))
      && db.collegeAuths == RemoveRequestsOf(old(db.collegeAuths), userId)
  {
    if DecisionError(userId, status, colleges) {
      return Http.BadRequest;
    }
    ApplyDecision(db, userId, status, colleges);
    code := Http.Ok;
  }

  // ---------------------------------------------------------------------
  // Stores
  // ---------------------------------------------------------------------

  /** `name && category && lat && lon && url`. */
  predicate StoreFieldsPresent(name: Option<string>, category: Option<string>, lat: Option<real>,
                               lon: Option<real>, url: Option<string>)
  {
    Truthy(OfText(name)) && Truthy(OfText(category)) && Truthy(OfNumber(lat))
    && Truthy(OfNumber(lon)) && Truthy(OfText(url))
  }

  /** The store check in plain terms: every text present and non-empty, every coordinate present and non-zero. */
  lemma StoreFieldsMeaning(name: Option<string>, category: Option<string>, lat: Option<real>,
                           lon: Option<real>, url: Option<string>)
    ensures StoreFieldsPresent(name, category, lat, lon, url) <==>
      && name.Some? && name.value != "" && category.Some? && category.value != ""
      && lat.Some? && lat.value != 0.0 && lon.Some? && lon.value != 0.0
      && url.Some? && url.value != ""
  {
    TextTruthy(name);
    TextTruthy(category);
    NumberTruthy(lat);
    NumberTruthy(lon);
    TextTruthy(url);
  }

  /** A store on the equator or the prime meridian is refused. */
  lemma ZeroCoordinateRejected(name: string, category: string, lat: real, lon: real, url: string)
    requires lat == 0.0 || lon == 0.0
    ensures !StoreFieldsPresent(Some(name), Some(category), Some(lat), Some(lon), Some(url))
  {
  }

  /**
   * `POST /dashboard/stores`: 400 with no write when a field is missing;
   * otherwise the new row under the generated id (no image), or 500 with
   * no write when that id is taken.
   */
  method CreateStore(db: Db, name: Option<string>, category: Option<string>, lat: Option<real>,
                     lon: Option<real>, url: Option<string>, freshId: Id) returns (code: int)
    requires db.Valid()
    modifies db`stores
    ensures db.Valid()
    ensures !StoreFieldsPresent(name, category, lat, lon, url) ==>
      code == Http.BadRequest && db.stores == old(db.stores)
    ensures StoreFieldsPresent(name, category, lat, lon, url) && freshId in old(db.stores) ==>
      code == Http.ServerError && db.stores == old(db.stores)
    ensures StoreFieldsPresent(name, category, lat, lon, url) && freshId !in old(db.stores) ==>
      && code == Http.Ok
      && db.stores == old(db.stores)[freshId := StoreRow(
           NewStore(freshId, name.value, Absent, category.value, Given(lat), Given(lon), None), url.value)]
      && db.stores[freshId].store.image.None?
  {
    if !StoreFieldsPresent(name, category, lat, lon, url) {
      return Http.BadRequest;
    }
    if freshId in db.stores {
      return Http.ServerError;
    }
    var store := NewStore(freshId, name.value, Absent, category.value, Given(lat), Given(lon), None);
    db.stores := db.stores[freshId := StoreRow(store, url.value)];
    code := Http.Ok;
  }

  /**
   * `PUT /dashboard/stores/:id`: 400 for an empty id or a missing field,
   * 404 for an unknown id, each with no write; otherwise the five columns
   * are replaced and the rest of the row is kept.
   */
  method UpdateStore(db: Db, id: Id, name: Option<string>, category: Option<string>, lat: Option<real>,
                     lon: Option<real>, url: Option<string>) returns (code: int)
    requires db.Valid()
    modifies db`stores
    ensures db.Valid()
    ensures code == Http.BadRequest <==> id == "" || !StoreFieldsPresent(name, category, lat, lon, url)
    ensures code == Http.NotFound <==>
      id != "" && StoreFieldsPresent(name, category, lat, lon, url) && id !in old(db.stores)
    ensures code != Http.Ok ==> db.stores == old(db.stores)
    ensures code == Http.Ok ==>
      && id in old(db.stores)
      && var s := old(db.stores)[id];
      && db.stores == old(db.stores)[id := StoreRow(
           s.store.(name := name.value, category := category.value, lat := lat, lon := lon), url.value)]
    ensures code in {Http.BadRequest, Http.NotFound, Http.Ok}
  {
    if id == "" || !StoreFieldsPresent(name, category, lat, lon, url) {
      return Http.BadRequest;
    }
    if id !in db.stores {
      return Http.NotFound;
    }
    var s := db.stores[id];
    db.stores := db.stores[id := StoreRow(
      s.store.(name := name.value, category := category.value, lat := lat, lon := lon), url.value)];
    code := Http.Ok;
  }

  /** `DELETE /dashboard/stores/:id`: 400 for an empty id, else 200 whether or not the row existed. */
  method DeleteStore(db: Db, id: Id) returns (code: int)
    requires db.Valid()
    modifies db`stores
    ensures db.Valid()
    ensures id == "" ==> code == Http.BadRequest && db.stores == old(db.stores)
    ensures id != "" ==> code == Http.Ok && db.stores == old(db.stores) - {id}
  {
    if id == "" {
      return Http.BadRequest;
    }
    db.stores := db.stores - {id};
    code := Http.Ok;
  }

  // ---------------------------------------------------------------------
  // Partners
  // ---------------------------------------------------------------------

  /**
   * `POST /dashboard/partners`: 400 with no write without a name or an
   * uploaded image; otherwise the new partner with the upload's public
   * path, or 500 with no write when the generated id is taken.
   */
  method CreatePartner(db: Db, name: Option<string>, file: Option<string>, serverUrl: string, freshId: Id)
    returns (code: int)
    requires db.Valid()
    modifies db`partners
    ensures db.Valid()
    ensures (!Truthy(OfText(name)) || file.None?) ==> code == Http.BadRequest && db.partners == old(db.partners)
    ensures Truthy(OfText(name)) && file.Some? && freshId in old(db.partners) ==>
      code == Http.ServerError && db.partners == old(db.partners)
    ensures Truthy(OfText(name)) && file.Some? && freshId !in old(db.partners) ==>
      && code == Http.Ok
      && db.partners == old(db.partners)[freshId :=
           Partner(freshId, name.value, UploadUrl(serverUrl, "partners", file.value), None)]
  {
    if !Truthy(OfText(name)) || file.None? {
      return Http.BadRequest;
    }
    var imagePath := UploadUrl(serverUrl, "partners", file.value);
    if freshId in db.partners {
      return Http.ServerError;
    }
    db.partners := db.partners[freshId := Partner(freshId, name.value, imagePath, None)];
    code := Http.Ok;
  }

  /** The image a partner update stores: the new upload, or else the one it had. */
  function UpdatedImage(existing: Partner, file: Option<string>, serverUrl: string): (image: string)
    ensures file.None? ==> image == existing.image
    ensures file.Some? ==> image == UploadUrl(serverUrl, "partners", file.value)
  {
    match file
    case None => existing.image
    case Some(f) => UploadUrl(serverUrl, "partners", f)
  }

  /**
   * `PUT /dashboard/partners/:id`: 400 for an empty id or name, 404 for an
   * unknown id, each with no write; otherwise the name is replaced and the
   * image too when a file was uploaded.
   */
  method UpdatePartner(db: Db, id: Id, name: Option<string>, file: Option<string>, serverUrl: string)
    returns (code: int)
    requires db.Valid()
    modifies db`partners
    ensures db.Valid()
    ensures code == Http.BadRequest <==> id == "" || !Truthy(OfText(name))
    ensures code == Http.NotFound <==> id != "" && Truthy(OfText(name)) && id !in old(db.partners)
    ensures code != Http.Ok ==> db.partners == old(db.partners)
    ensures code == Http.Ok ==>
      && id in old(db.partners)
      && db.partners == old(db.partners)[id := old(db.partners)[id].(
           name := name.value, image := UpdatedImage(old(db.partners)[id], file, serverUrl))]
    ensures code in {Http.BadRequest, Http.NotFound, Http.Ok}
  {
    if id == "" || !Truthy(OfText(name)) {
      return Http.BadRequest;
    }
    if id !in db.partners {
      return Http.NotFound;
    }
    var existing := db.partners[id];
    var imagePath := if file.Some? then UploadUrl(serverUrl, "partners", file.value) else existing.image;
    db.partners := db.partners[id := existing.(name := name.value, image := imagePath)];
    code := Http.Ok;
  }

  /** `DELETE /dashboard/partners/:id`: 400 for an empty id, else 200 whether or not the row existed. */
  method DeletePartner(db: Db, id: Id) returns (code: int)
    requires db.Valid()
    modifies db`partners
    ensures db.Valid()
    ensures id == "" ==> code == Http.BadRequest && db.partners == old(db.partners)
    ensures id != "" ==> code == Http.Ok && db.partners == old(db.partners) - {id}
  {
    if id == "" {
      return Http.BadRequest;
    }
    db.partners := db.partners - {id};
    code := Http.Ok;
  }

  // ---------------------------------------------------------------------
  // Partnerships
  // ---------------------------------------------------------------------

  /** `store_id && partner_id && short_description && long_description`. */
  predicate PartnershipFieldsPresent(storeId: Option<string>, partnerId: Option<string>,
                                     short: Option<string>, long: Option<string>)
  {
    Truthy(OfText(storeId)) && Truthy(OfText(partnerId)) && Truthy(OfText(short)) && Truthy(OfText(long))
  }

  /** The partnership check in plain terms: all four texts present and non-empty. */
  lemma PartnershipFieldsMeaning(storeId: Option<string>, partnerId: Option<string>,
                                 short: Option<string>, long: Option<string>)
    ensures PartnershipFieldsPresent(storeId, partnerId, short, long) <==>
      && storeId.Some? && storeId.value != "" && partnerId.Some? && partnerId.value != ""
      && short.Some? && short.value != "" && long.Some? && long.value != ""
  {
    TextTruthy(storeId);
    TextTruthy(partnerId);
    TextTruthy(short);
    TextTruthy(long);
  }

  /**
   * `POST /dashboard/partnerships`: 400 with no write when a field is
   * missing; otherwise the new link, or 500 with no write when the
   * generated id is taken.
   */
  method CreatePartnership(db: Db, storeId: Option<string>, partnerId: Option<string>,
                           short: Option<string>, long: Option<string>, freshId: Id) returns (code: int)
    requires db.Valid()
    modifies db`partnerships
    ensures db.Valid()
    ensures !PartnershipFieldsPresent(storeId, partnerId, short, long) ==>
      code == Http.BadRequest && db.partnerships == old(db.partnerships)
    ensures PartnershipFieldsPresent(storeId, partnerId, short, long) && freshId in old(db.partnerships) ==>
      code == Http.ServerError && db.partnerships == old(db.partnerships)
    ensures PartnershipFieldsPresent(storeId, partnerId, short, long) && freshId !in old(db.partnerships) ==>
      && code == Http.Ok
      && db.partnerships == old(db.partnerships)[freshId :=
           Partnership(freshId, storeId.value, partnerId.value, short.value, long.value, None, None)]
  {
    if !PartnershipFieldsPresent(storeId, partnerId, short, long) {
      return Http.BadRequest;
    }
    if freshId in db.partnerships {
      return Http.ServerError;
    }
    db.partnerships := db.partnerships[freshId :=
      Partnership(freshId, storeId.value, partnerId.value, short.value, long.value, None, None)];
    code := Http.Ok;
  }

  /**
   * `PUT /dashboard/partnerships/:id`: 400 for an empty id or a missing
   * field, 404 for an unknown id, each with no write; otherwise the four
   * columns are replaced and `updated_at` becomes `now`, the time of the
   * statement.
   */
  method UpdatePartnership(db: Db, id: Id, storeId: Option<string>, partnerId: Option<string>,
                           short: Option<string>, long: Option<string>, now: Timestamp) returns (code: int)
    requires db.Valid()
    modifies db`partnerships
    ensures db.Valid()
    ensures code == Http.BadRequest <==> id == "" || !PartnershipFieldsPresent(storeId, partnerId, short, long)
    ensures code == Http.NotFound <==>
      id != "" && PartnershipFieldsPresent(storeId, partnerId, short, long) && id !in old(db.partnerships)
    ensures code != Http.Ok ==> db.partnerships == old(db.partnerships)
    ensures code == Http.Ok ==>
      && id in old(db.partnerships)
      && db.partnerships == old(db.partnerships)[id := old(db.partnerships)[id].(
           store_id := storeId.value, partner_id := partnerId.value,
           short_description := short.value, long_description := long.value, updated_at := Some(now))]
    ensures code in {Http.BadRequest, Http.NotFound, Http.Ok}
  {
    if id == "" || !PartnershipFieldsPresent(storeId, partnerId, short, long) {
      return Http.BadRequest;
    }
    if id !in db.partnerships {
      return Http.NotFound;
    }
    var ps := db.partnerships[id];
    db.partnerships := db.partnerships[id := ps.(
      store_id := storeId.value, partner_id := partnerId.value,
      short_description := short.value, long_description := long.value, updated_at := Some(now))];
    code := Http.Ok;
  }

  /** `DELETE /dashboard/partnerships/:id`: 400 for an empty id, else 200 whether or not the row existed. */
  method DeletePartnership(db: Db, id: Id) returns (code: int)
    requires db.Valid()
    modifies db`partnerships
    ensures db.Valid()
    ensures id == "" ==> code == Http.BadRequest && db.partnerships == old(db.partnerships)
    ensures id != "" ==> code == Http.Ok && db.partnerships == old(db.partnerships) - {id}
  {
    if id == "" {
      return Http.BadRequest;
    }
    db.partnerships := db.partnerships - {id};
    code := Http.Ok;
  }
}
