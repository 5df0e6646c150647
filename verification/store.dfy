/** The browser's `localStorage` as the dashboard uses it: a map from key
    to string, holding the session token and the last active nav index. */
module Store {

  import opened Basics

  type Storage = map<string, string>

  const SessionKey: string := "session"
  const IndexKey: string := "index"

  /** `localStorage.getItem(key)`: the stored string, or `null`. */
  function Get(st: Storage, key: string): (r: Option<string>)
    ensures r.Some? <==> key in st
    ensures r.Some? ==> r.value == st[key]
  {
    if key in st then Some(st[key]) else None
  }

  /** `removeItem("session")` followed by `removeItem("index")`: both keys
      gone, every other key untouched. */
  function ClearSession(st: Storage): (r: Storage)
    ensures SessionKey !in r && IndexKey !in r
    ensures forall k :: k in st && k != SessionKey && k != IndexKey ==> k in r && r[k] == st[k]
    ensures forall k :: k in r ==> k in st
  {
    st - {SessionKey, IndexKey}
  }

  /** The Settings page's logout button: clear the session keys, then go to
      the login route. */
  datatype Logout = Logout(storage: Storage, target: string)

  function LogOut(st: Storage): (r: Logout)
    ensures Get(r.storage, SessionKey).None? && Get(r.storage, IndexKey).None?
    ensures r.storage == ClearSession(st)
    ensures r.target == "/"
  {
    Logout(ClearSession(st), "/")
  }
}
