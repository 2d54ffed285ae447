/** The frontend's session store: the logged-in user and its token kept in the
    browser's `localStorage`. */
module AuthSession {
  import opened Wrappers
  import opened Json
  import Decimal

  const UserKey := "user"
  const TokenKey := "token"

  /** The browser's `localStorage`: a string-to-string map shared by the whole page. */
  class LocalStorage {
    var items: map<string, string>

    constructor ()
      ensures items == map[]
    {
      items := map[];
    }

    /** `setItem(key, value)`. */
    method SetItem(key: string, value: string)
      modifies this
      ensures items == old(items)[key := value]
    {
      items := items[key := value];
    }

    /** `getItem(key)`: `None` is `null`, the answer for a key that was never set. */
    method GetItem(key: string) returns (r: Option<string>)
      ensures r == ItemOf(items, key)
    {
      if key in items {
        r := Some(items[key]);
      } else {
        r := None;
      }
    }

    /** `removeItem(key)`. */
    method RemoveItem(key: string)
      modifies this
      ensures items == old(items) - {key}
    {
      items := items - {key};
    }
  }

  /** The value stored under `key`, or `None` when there is none. */
  function ItemOf(items: map<string, string>, key: string): (r: Option<string>)
    ensures r.Some? <==> key in items
    ensures r.Some? ==> r.value == items[key]
  {
    if key in items then Some(items[key]) else None
  }

  /** The string `setItem` stores for a property value: JavaScript's `String(v)`, with
      `None` (the property is missing) becoming "undefined". */
  function StringOf(v: Option<Value>): (s: string)
    ensures v.Some? && v.value.Str? ==> s == v.value.s
    ensures v.None? ==> s == "undefined"
  {
    match v
    case None => "undefined"
    case Some(Null) => "null"
    case Some(Bool(b)) => if b then "true" else "false"
    case Some(Number(n)) => Decimal.IntToString(n)
    case Some(Str(s)) => s
  }

  /** The store after `setCurrentUser(user)`: the serialised user under 'user', then
      its token property under 'token'. */
  function AfterSetCurrentUser(items: map<string, string>, user: Document): map<string, string> {
    items[UserKey := Stringify(user)][TokenKey := StringOf(Property(user, "token"))]
  }

  /** The store after `logout()`. */
  function AfterLogout(items: map<string, string>): map<string, string> {
    items - {TokenKey} - {UserKey}
  }

  /** What `getCurrentUser()` returns: `null` (a `Null` scalar) when 'user' is missing or
      empty, otherwise the parsed text; `None` is the `SyntaxError` that `JSON.parse`
      throws for text that is not a document. */
  function CurrentUserOf(items: map<string, string>): (r: Option<Document>)
    ensures UserKey !in items ==> r == Some(Scalar(Null))
    ensures UserKey in items && items[UserKey] != "" ==> r == Parse(items[UserKey])
  {
    match ItemOf(items, UserKey)
    case None => Some(Scalar(Null))
    case Some(text) => if text == "" then Some(Scalar(Null)) else Parse(text)
  }

  /** `authService`, with the store it writes to. */
  class AuthService {
    const storage: LocalStorage

    constructor (storage: LocalStorage)
      ensures this.storage == storage
    {
      this.storage := storage;
    }

    method SetCurrentUser(user: Document)
      modifies storage
      ensures storage.items == AfterSetCurrentUser(old(storage.items), user)
    {
      storage.SetItem(UserKey, Stringify(user));
      storage.SetItem(TokenKey, StringOf(Property(user, "token")));
    }

    method GetCurrentUser() returns (r: Option<Document>)
      ensures r == CurrentUserOf(storage.items)
    {
      var text := storage.GetItem(UserKey);
      if text.None? || text.value == "" {
        r := Some(Scalar(Null));
      } else {
        r := Parse(text.value);
      }
    }

    method Logout()
      modifies storage
      ensures storage.items == AfterLogout(old(storage.items))
    {
      storage.RemoveItem(TokenKey);
      storage.RemoveItem(UserKey);
    }
  }

  // ---------------------------------------------------------------------------
  // Lemmas

  /** Reading the user back after storing it gives the same user. */
  lemma CurrentUserAfterSet(items: map<string, string>, user: Document)
    ensures CurrentUserOf(AfterSetCurrentUser(items, user)) == Some(user)
  {
    var after := AfterSetCurrentUser(items, user);
    assert after[UserKey] == Stringify(user);
    assert Stringify(user) != "" by {
      if user.Scalar? {
        assert Stringify(user) == StringifyValue(user.value);
      }
    }
    ParseStringify(user);
  }

  /** The token stored is the user's token when it is a string. */
  lemma TokenAfterSet(items: map<string, string>, user: Document, token: string)
    requires Property(user, "token") == Some(Str(token))
    ensures ItemOf(AfterSetCurrentUser(items, user), TokenKey) == Some(token)
  {
  }

  /** After logout neither key is present and there is no current user. */
  lemma CurrentUserAfterLogout(items: map<string, string>)
    ensures ItemOf(AfterLogout(items), UserKey).None?
    ensures ItemOf(AfterLogout(items), TokenKey).None?
    ensures CurrentUserOf(AfterLogout(items)) == Some(Scalar(Null))
    ensures !Truthy(CurrentUserOf(AfterLogout(items)).value)
  {
  }

  /** Storing a user and logging out touch only the two session keys. */
  lemma OtherKeysKept(items: map<string, string>, user: Document, key: string)
    requires key != UserKey && key != TokenKey
    ensures ItemOf(AfterSetCurrentUser(items, user), key) == ItemOf(items, key)
    ensures ItemOf(AfterLogout(items), key) == ItemOf(items, key)
  {
  }
}
