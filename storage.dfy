/**
 * `chrome.storage.sync` as the extension uses it: a map from key to JSON
 * value. A write either applies all of its keys or, when the host reports
 * `chrome.runtime.lastError`, none of them; the `ok` flag of `Set` says which.
 */
module Storage {
  import opened Common

  /** One stored bookmark: the title in clear, the url as base64 ciphertext with its base64 IV. */
  datatype Bookmark = Bookmark(title: string, url: string, iv: string)

  /** The JSON values the extension stores. */
  datatype Value = Null | Bool(b: bool) | Text(s: string) | List(items: seq<Bookmark>)

  const BookmarksKey: string := "bookmarks"
  const EncryptionKeyKey: string := "encryptionKey"
  const HashKey: string := "hash"
  const SessionActiveKey: string := "sessionActive"

  /** `get(key)`: the stored value, `None` when the key is absent (`undefined` in the result). */
  function Get(items: map<string, Value>, key: string): (r: Option<Value>)
    ensures r.Some? <==> key in items
    ensures r.Some? ==> r.value == items[key]
  {
    if key in items then Some(items[key]) else None
  }

  /** `get({key: default})`: the stored value, or `default` when the key is absent. */
  function GetOr(items: map<string, Value>, key: string, default: Value): (v: Value)
    ensures key !in items ==> v == default
    ensures key in items ==> v == items[key]
  {
    if key in items then items[key] else default
  }

  /** JavaScript's ToBoolean on a stored value; an absent key reads as `undefined`, which is false. */
  predicate Truthy(v: Option<Value>)
    ensures Truthy(v) <==> v.Some? && v.value !in {Null, Bool(false), Text("")}
  {
    match v
    case None => false
    case Some(Null) => false
    case Some(Bool(b)) => b
    case Some(Text(s)) => s != ""
    case Some(List(_)) => true
  }

  /** `value || []` followed by use as an array: a falsy value is the empty list, a list is itself,
    * and anything else makes the handler throw (`push` or iteration on a non-array). */
  function ListOr(v: Option<Value>): (r: Option<seq<Bookmark>>)
    ensures !Truthy(v) ==> r == Some([])
    ensures v.Some? && v.value.List? ==> r == Some(v.value.items)
    ensures Truthy(v) && !v.value.List? ==> r.None?
  {
    match v
    case Some(List(rs)) => Some(rs)
    case _ => if Truthy(v) then None else Some([])
  }

  class Store {
    var items: map<string, Value>

    constructor (initial: map<string, Value>)
      ensures items == initial
    {
      items := initial;
    }

    /** `chrome.storage.sync.set(update)`: every key of `update` is overwritten when the write succeeds. */
    method Set(update: map<string, Value>, ok: bool)
      modifies this
      ensures ok ==> items == old(items) + update
      ensures !ok ==> items == old(items)
      ensures ok ==> forall k :: k in update ==> items[k] == update[k]
      ensures forall k :: k in old(items) && k !in update ==> k in items && items[k] == old(items)[k]
    {
      if ok {
        items := items + update;
      }
    }
  }
}
