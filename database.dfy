/**
 * The relational store the handlers share: one map per table from primary
 * key to row, and the dashboard's admin accounts in scan order. Each SQL
 * statement of a handler becomes one update of these fields.
 */
module Database {
  import opened Js
  import opened Models

  /** A row of `stores`: the Store record plus the `url` column it lacks. */
  datatype StoreRow = StoreRow(store: Store, url: string)

  /** A row of `dashboard_users`; `password` holds the stored bcrypt hash. */
  datatype Admin = Admin(id: Id, name: string, password: string)

  /** Every user row is stored under its own id. */
  ghost predicate UsersKeyed(users: map<Id, User>) {
    forall k :: k in users ==> users[k].id == k
  }

  /** `users.phone` is unique. */
  ghost predicate PhonesUnique(users: map<Id, User>) {
    forall a, b :: a in users && b in users && users[a].phone == users[b].phone ==> a == b
  }

  /** Every partnership row is stored under its own id. */
  predicate PartnershipsKeyed(partnerships: map<Id, Partnership>) {
    forall k :: k in partnerships ==> partnerships[k].id == k
  }

  /** No id occurs twice in `s`. */
  predicate Distinct(s: seq<Id>) {
    forall i, j :: 0 <= i < j < |s| ==> s[i] != s[j]
  }

  /**
   * `scan` is one pass of the engine over the table `m`: it lists every key
   * of `m` exactly once, in the order the engine reads the rows.
   */
  ghost predicate ScanOf<V>(scan: seq<Id>, m: map<Id, V>) {
    && Distinct(scan)
    && (forall k :: k in m <==> k in scan)
  }

  /** A duplicate-free sequence has as many elements as it has positions. */
  lemma {:induction false} DistinctCard(s: seq<Id>)
    requires Distinct(s)
    ensures |set k | k in s| == |s|
    decreases |s|
  {
    if s != [] {
      DistinctCard(s[1..]);
      assert (set k | k in s) == {s[0]} + (set k | k in s[1..]);
      assert s[0] !in s[1..];
    }
  }

  /** A pass over a table reads as many rows as the table has. */
  lemma ScanLength<V>(scan: seq<Id>, m: map<Id, V>)
    requires ScanOf(scan, m)
    ensures |scan| == |m|
  {
    DistinctCard(scan);
    assert m.Keys == set k | k in scan;
  }

  /** Whether some user row has this phone. */
  predicate PhoneTaken(users: map<Id, User>, phone: string) {
    exists k :: k in users && users[k].phone == phone
  }

  /** Whether any pending affiliation request belongs to the user. */
  predicate HasPendingRequest(auths: map<Id, CollegeAuth>, userId: Id) {
    exists k :: k in auths && auths[k].user_id == userId
  }

  class Db {
    var users: map<Id, User>
    var collegeAuths: map<Id, CollegeAuth>
    var stores: map<Id, StoreRow>
    var partners: map<Id, Partner>
    var partnerships: map<Id, Partnership>
    var admins: seq<Admin>

    /** The primary-key and unique constraints the engine enforces. */
    ghost predicate Valid()
      reads this
    {
      && UsersKeyed(users)
      && PhonesUnique(users)
      && (forall k :: k in collegeAuths ==> collegeAuths[k].id == k)
      && (forall k :: k in stores ==> stores[k].store.id == k)
      && (forall k :: k in partners ==> partners[k].id == k)
      && PartnershipsKeyed(partnerships)
    }

    constructor ()
      ensures Valid()
      ensures users == map[] && collegeAuths == map[] && stores == map[]
      ensures partners == map[] && partnerships == map[] && admins == []
    {
      users := map[];
      collegeAuths := map[];
      stores := map[];
      partners := map[];
      partnerships := map[];
      admins := [];
    }
  }

  /** `row?.college_auth || []`: no row, or a NULL column, reads as no colleges. */
  function PartnerIdsOf(users: map<Id, User>, userId: Id): (ids: seq<Id>)
    ensures userId !in users ==> ids == []
    ensures userId in users && users[userId].college_auth.None? ==> ids == []
    ensures userId in users && users[userId].college_auth.Some? ==> ids == users[userId].college_auth.value
  {
    if userId in users && users[userId].college_auth.Some? then users[userId].college_auth.value else []
  }

  /** `${SERVER_URL}/uploads/<dir>/<filename>`: the public path of an upload. */
  function UploadUrl(serverUrl: string, dir: string, filename: string): (url: string)
    ensures |url| > |serverUrl| + |dir| + |filename|
    ensures url[..|serverUrl|] == serverUrl && url[|url| - |filename|..] == filename
  {
    serverUrl + "/uploads/" + dir + "/" + filename
  }
}
