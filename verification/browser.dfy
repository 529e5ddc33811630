/** What the two pages share from the browser: `localStorage` as a map from
    keys to strings, the three client routes, and `JSON.stringify` /
    `JSON.parse` of the cached user record, passed in as a codec because
    the model does not define JSON. */
module Browser {
  import opened Wrappers

  type Storage = map<string, string>

  const TokenKey: string := "token"
  const UserKey: string := "user"

  /** The client routes that the pages navigate to. */
  datatype Route = Home | AuthPage | Dashboard {
    function Path(): string
    {
      match this
      case Home => "/"
      case AuthPage => "/auth"
      case Dashboard => "/dashboard"
    }
  }

  /** `localStorage.getItem(key)`: `null` (here `None`) when the key is absent. */
  function GetItem(st: Storage, key: string): (v: Option<string>)
    ensures v.Some? <==> key in st
    ensures v.Some? ==> v.value == st[key]
  {
    if key in st then Some(st[key]) else None
  }

  /** JavaScript truthiness of a `getItem` result: neither `null` nor `""`. */
  predicate Truthy(v: Option<string>)
  {
    v.Some? && v.value != ""
  }

  /** `localStorage.removeItem(key)`: only that key goes. */
  function RemoveItem(st: Storage, key: string): (st': Storage)
    ensures key !in st'
    ensures forall k :: k != key ==> (k in st' <==> k in st)
    ensures forall k :: k in st' ==> st'[k] == st[k]
  {
    st - {key}
  }

  /** The user record the sign-in page caches and the dashboard reads back. */
  datatype UserInfo = UserInfo(id: int, name: string, email: string, role: string)

  /** `JSON.stringify` of a user record and `JSON.parse` of a stored string
      (`None` where `JSON.parse` throws). */
  datatype JsonCodec = JsonCodec(stringify: UserInfo -> string, parse: string -> Option<UserInfo>)

  /** What the model assumes of JSON: parsing gives back what was
      serialised, and the empty string does not parse. */
  ghost predicate RoundTrips(codec: JsonCodec)
  {
    && (forall u :: codec.parse(codec.stringify(u)) == Some(u))
    && codec.parse("") == None
  }
}
