/**
 * The five record classes of the data model. Each JavaScript class takes one
 * destructured object; a parameter with a default takes it only when the
 * property is `undefined`, which `Arg.Absent` stands for (an explicit `null`
 * is a given value and is kept).
 */
module Models {
  import opened Js

  /** Row identifiers are UUID strings. */
  type Id = string

  /** Creation and update times, as an opaque count. */
  type Timestamp = int

  /** A destructured constructor parameter: left undefined, or passed. */
  datatype Arg<T> = Absent | Given(value: T)

  /** `undefined` takes the default; anything passed is kept as it is. */
  function OrDefault<T>(a: Arg<T>, default: T): T {
    match a
    case Absent => default
    case Given(v) => v
  }

  /** A row of `users`. `college_auth` may be SQL NULL, hence the option. */
  datatype User = User(
    id: Id,
    refresh_token: Option<string>,
    name: string,
    image: string,
    phone: string,
    is_verified: bool,
    college_auth: Option<seq<Id>>,
    created_at: Option<Timestamp>)

  /** A pending affiliation request: a row of `college_auths`. */
  datatype CollegeAuth = CollegeAuth(
    id: Id,
    user_id: Id,
    info21_image: string,
    created_at: Option<Timestamp>,
    updated_at: Option<Timestamp>)

  /** The Store class. It has no `url`, although the `stores` table does. */
  datatype Store = Store(
    id: Id,
    name: string,
    image: Option<string>,
    category: string,
    lat: Option<real>,
    lon: Option<real>,
    created_at: Option<Timestamp>)

  /** A partner (a college): a row of `partners`. */
  datatype Partner = Partner(
    id: Id,
    name: string,
    image: string,
    created_at: Option<Timestamp>)

  /** The discount link between one store and one partner. */
  datatype Partnership = Partnership(
    id: Id,
    store_id: Id,
    partner_id: Id,
    short_description: string,
    long_description: string,
    created_at: Option<Timestamp>,
    updated_at: Option<Timestamp>)

  /** `new User({...})`: `is_verified` defaults to false, `college_auth` to []. */
  function NewUser(
    id: Id, refresh_token: Option<string>, name: string, image: string, phone: string,
    is_verified: Arg<bool>, college_auth: Arg<Option<seq<Id>>>, created_at: Option<Timestamp>): User
  {
    User(id, refresh_token, name, image, phone,
         OrDefault(is_verified, false), OrDefault(college_auth, Some([])), created_at)
  }

  /** `new Store({...})`: `image`, `lat` and `lon` default to null. */
  function NewStore(
    id: Id, name: string, image: Arg<Option<string>>, category: string,
    lat: Arg<Option<real>>, lon: Arg<Option<real>>, created_at: Option<Timestamp>): Store
  {
    Store(id, name, OrDefault(image, None), category,
          OrDefault(lat, None), OrDefault(lon, None), created_at)
  }

  /** A user built without `is_verified` or `college_auth` is unverified with no colleges. */
  lemma UserDefaults(id: Id, refresh_token: Option<string>, name: string, image: string,
                     phone: string, created_at: Option<Timestamp>)
    ensures var u := NewUser(id, refresh_token, name, image, phone, Absent, Absent, created_at);
      !u.is_verified && u.college_auth == Some([])
  {
  }

  /**
   * The User constructor copies every field it is given: rebuilding a user
   * from its own fields gives the same user, and two constructions agree
   * exactly when their arguments agree once defaults are applied.
   */
  lemma UserCopiesFields(u: User,
    id: Id, refresh_token: Option<string>, name: string, image: string, phone: string,
    is_verified: Arg<bool>, college_auth: Arg<Option<seq<Id>>>, created_at: Option<Timestamp>)
    ensures NewUser(u.id, u.refresh_token, u.name, u.image, u.phone,
                    Given(u.is_verified), Given(u.college_auth), u.created_at) == u
    ensures NewUser(id, refresh_token, name, image, phone, is_verified, college_auth, created_at) == u
        <==> (u.id == id && u.refresh_token == refresh_token && u.name == name
              && u.image == image && u.phone == phone
              && u.is_verified == OrDefault(is_verified, false)
              && u.college_auth == OrDefault(college_auth, Some([]))
              && u.created_at == created_at)
  {
  }

  /** A store built without `image`, `lat` or `lon` has each of them null. */
  lemma StoreDefaults(id: Id, name: string, category: string, created_at: Option<Timestamp>)
    ensures var s := NewStore(id, name, Absent, category, Absent, Absent, created_at);
      s.image.None? && s.lat.None? && s.lon.None?
  {
  }

  /** The Store constructor copies every field it is given, and nothing else. */
  lemma StoreCopiesFields(s: Store,
    id: Id, name: string, image: Arg<Option<string>>, category: string,
    lat: Arg<Option<real>>, lon: Arg<Option<real>>, created_at: Option<Timestamp>)
    ensures NewStore(s.id, s.name, Given(s.image), s.category,
                     Given(s.lat), Given(s.lon), s.created_at) == s
    ensures NewStore(id, name, image, category, lat, lon, created_at) == s
        <==> (s.id == id && s.name == name && s.image == OrDefault(image, None)
              && s.category == category && s.lat == OrDefault(lat, None)
              && s.lon == OrDefault(lon, None) && s.created_at == created_at)
  {
  }
}
