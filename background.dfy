/**
 * The background script of src/background/background.js: the install hook,
 * the message handlers that store and list bookmarks and overwrite the
 * stored hash and session flag, and the context-menu entry that adds the
 * current page. Its base64 and encryption helpers are verbatim copies of
 * those in src/utils.js and are modelled once, in `Utils`.
 */
module Background {
  import opened Common
  import opened Storage
  import Base64
  import Utils

  /** The id of the context-menu entry the install hook creates. */
  const MenuItemId: string := "addBookmark"

  /** `importKey(value)` on a value read from storage: only text can parse as a JWK. */
  function ImportKey(c: Utils.Crypto, v: Option<Value>): (k: Option<Utils.Key>)
    ensures k.Some? ==> v.Some? && v.value.Text? && k == c.importKey(v.value.s)
    ensures v.Some? && v.value.Text? ==> k == c.importKey(v.value.s)
  {
    match v
    case Some(Text(jwk)) => c.importKey(jwk)
    case _ => None
  }

  /** `onInstalled`: the stored state starts with no bookmarks, no password hash, an inactive
    * session and the freshly exported key. Generating and exporting the key are not modelled;
    * `exportedKey` is their result. */
  method OnInstalled(store: Store, exportedKey: string, ok: bool)
    modifies store
    ensures ok ==> (store.items ==
      old(store.items) + map[BookmarksKey := List([]), EncryptionKeyKey := Text(exportedKey), HashKey := Null, SessionActiveKey := Bool(false)])
    ensures ok ==> (Get(store.items, BookmarksKey) == Some(List([])) && Get(store.items, HashKey) == Some(Null)
      && Get(store.items, SessionActiveKey) == Some(Bool(false)))
    ensures !ok ==> store.items == old(store.items)
  {
    store.Set(map[BookmarksKey := List([]), EncryptionKeyKey := Text(exportedKey), HashKey := Null, SessionActiveKey := Bool(false)], ok);
  }

  /** The list after `bookmarks.push({title, url: encrypted, iv})`. */
  function AppendBookmark(bookmarks: seq<Bookmark>, title: string, url: string, c: Utils.Crypto, key: Utils.Key, iv: Utils.Iv)
    : (r: seq<Bookmark>)
    ensures |r| == |bookmarks| + 1 && r[..|bookmarks|] == bookmarks
    ensures r[|bookmarks|].title == title
    ensures Base64.Decode(r[|bookmarks|].iv) == Some(iv[..])
    ensures Base64.Decode(r[|bookmarks|].url) == Some(c.encrypt(key, iv, c.utf8Encode(url)))
  {
    var e := Utils.EncryptData(c, url, key, iv);
    bookmarks + [Bookmark(title, e.encrypted, e.iv)]
  }

  /** The appended record's url decrypts, under the same key, to the url that was saved. */
  lemma AppendedUrlDecrypts(bookmarks: seq<Bookmark>, title: string, url: string, c: Utils.Crypto, key: Utils.Key, iv: Utils.Iv)
    requires Utils.Sound(c)
    ensures var r := AppendBookmark(bookmarks, title, url, c, key, iv);
      Utils.DecryptData(c, r[|bookmarks|].url, r[|bookmarks|].iv, key) == Some(url)
  {
    Utils.DecryptEncrypt(c, url, key, iv);
  }

  /** `bookmark.url = await decryptData(bookmark.url, bookmark.iv, key)` on one record;
    * `None` where `decryptData` rejects. */
  function DecryptRecord(c: Utils.Crypto, b: Bookmark, key: Utils.Key): (r: Option<Bookmark>)
    ensures r.Some? <==> Utils.DecryptData(c, b.url, b.iv, key).Some?
    ensures r.Some? ==> r.value == b.(url := Utils.DecryptData(c, b.url, b.iv, key).value)
  {
    match Utils.DecryptData(c, b.url, b.iv, key)
    case None => None
    case Some(plain) => Some(b.(url := plain))
  }

  /** Every record with its url decrypted, in stored order; `None` if some url does not decrypt. */
  function DecryptAll(c: Utils.Crypto, bookmarks: seq<Bookmark>, key: Utils.Key): (r: Option<seq<Bookmark>>)
    ensures r.Some? <==> forall i :: 0 <= i < |bookmarks| ==> DecryptRecord(c, bookmarks[i], key).Some?
    ensures r.Some? ==> |r.value| == |bookmarks|
    ensures r.Some? ==> forall i :: 0 <= i < |bookmarks| ==> r.value[i] == DecryptRecord(c, bookmarks[i], key).value
  {
    if bookmarks == [] then Some([])
    else
      match DecryptRecord(c, bookmarks[0], key)
      case None => None
      case Some(first) =>
        match DecryptAll(c, bookmarks[1..], key)
        case None => None
        case Some(rest) => Some([first] + rest)
  }

  /** What a handler replies through `sendResponse`. */
  datatype Response =
    | Success                           // {status: "success"}
    | BookmarkList(bookmarks: seq<Bookmark>)
    | StoredHash(hash: Option<Value>)   // the stored hash, `undefined` when absent
    | NoResponse                        // the handler threw, or the message type is unknown

  /** `saveBookmark`: appends the encrypted record to the stored list (a missing list being empty)
    * and replies success without waiting for the write. Throws, writing nothing, when the key
    * does not import or the stored list is not an array. */
  method OnSaveBookmark(store: Store, c: Utils.Crypto, title: string, url: string, iv: Utils.Iv, ok: bool)
    returns (response: Response)
    modifies store
    ensures var list := ListOr(Get(old(store.items), BookmarksKey));
      var key := ImportKey(c, Get(old(store.items), EncryptionKeyKey));
      if list.Some? && key.Some? then
        response == Success
        && store.items == (if ok then old(store.items) + map[BookmarksKey := List(AppendBookmark(list.value, title, url, c, key.value, iv))]
                           else old(store.items))
      else
        response == NoResponse && store.items == old(store.items)
  {
    var bookmarks := ListOr(Get(store.items, BookmarksKey));
    var key := ImportKey(c, Get(store.items, EncryptionKeyKey));
    if key.None? || bookmarks.None? {
      return NoResponse;
    }
    var updated := AppendBookmark(bookmarks.value, title, url, c, key.value, iv);
    store.Set(map[BookmarksKey := List(updated)], ok);
    return Success;
  }

  /** The loop of `getBookmarks`: overwrites each record's url with its decryption, in place and
    * in order, and stops at the first url that does not decrypt. */
  method DecryptInPlace(list: array<Bookmark>, c: Utils.Crypto, key: Utils.Key) returns (ok: bool)
    modifies list
    ensures ok <==> DecryptAll(c, old(list[..]), key).Some?
    ensures ok ==> list[..] == DecryptAll(c, old(list[..]), key).value
  {
    ghost var stored := list[..];
    ghost var done: seq<Bookmark> := [];
    assert stored[..0] == [];
    for i := 0 to list.Length
      invariant DecryptAll(c, stored[..i], key) == Some(done)
      invariant list[..i] == done
      invariant forall j :: i <= j < list.Length ==> list[j] == stored[j]
    {
      var decrypted := DecryptRecord(c, list[i], key);
      if decrypted.None? {
        return false;
      }
      DecryptPrefixStep(c, stored, i, key);
      list[i] := decrypted.value;
      done := done + [decrypted.value];
      assert list[..i + 1] == list[..i] + [list[i]];
    }
    assert stored[..list.Length] == stored && list[..list.Length] == list[..];
    return true;
  }

  /** One more step of the loop: a decrypted prefix grows by the next record's decryption. */
  lemma DecryptPrefixStep(c: Utils.Crypto, bookmarks: seq<Bookmark>, i: nat, key: Utils.Key)
    requires i < |bookmarks|
    ensures var before, next := DecryptAll(c, bookmarks[..i], key), DecryptRecord(c, bookmarks[i], key);
      before.Some? && next.Some? ==> DecryptAll(c, bookmarks[..i + 1], key) == Some(before.value + [next.value])
  {
    assert bookmarks[..i + 1] == bookmarks[..i] + [bookmarks[i]];
    DecryptAllSnoc(c, bookmarks[..i], bookmarks[i], key);
  }

  /** `getBookmarks`: reads the list (a missing list being empty) and replies with every record's
    * url decrypted, in order. A key that does not import, a stored list that is not an array or a
    * url that does not decrypt makes the handler throw, and nothing is replied. */
  method OnGetBookmarks(store: Store, c: Utils.Crypto) returns (response: Response)
    ensures var list := ListOr(Get(store.items, BookmarksKey));
      var key := ImportKey(c, Get(store.items, EncryptionKeyKey));
      if list.Some? && key.Some? && DecryptAll(c, list.value, key.value).Some? then
        response == BookmarkList(DecryptAll(c, list.value, key.value).value)
      else
        response == NoResponse
  {
    var bookmarks := ListOr(Get(store.items, BookmarksKey));
    var key := ImportKey(c, Get(store.items, EncryptionKeyKey));
    if bookmarks.None? || key.None? {
      return NoResponse;
    }
    var list := new Bookmark[|bookmarks.value|](i requires 0 <= i < |bookmarks.value| => bookmarks.value[i]);
    assert list[..] == bookmarks.value;
    var ok := DecryptInPlace(list, c, key.value);
    response := if ok then BookmarkList(list[..]) else NoResponse;
  }

  /** `setPassword`: overwrites the stored hash with whatever the message carries. */
  method OnSetPassword(store: Store, hash: Value, ok: bool) returns (response: Response)
    modifies store
    ensures response == Success
    ensures ok ==> store.items == old(store.items) + map[HashKey := hash]
    ensures !ok ==> store.items == old(store.items)
  {
    store.Set(map[HashKey := hash], ok);
    return Success;
  }

  /** `setSessionActive`: overwrites the stored session flag with whatever the message carries. */
  method OnSetSessionActive(store: Store, active: Value, ok: bool) returns (response: Response)
    modifies store
    ensures response == Success
    ensures ok ==> store.items == old(store.items) + map[SessionActiveKey := active]
    ensures !ok ==> store.items == old(store.items)
  {
    store.Set(map[SessionActiveKey := active], ok);
    return Success;
  }

  /** The messages the listener understands, by their `type`. */
  datatype Message =
    | SaveBookmark(title: string, url: string)
    | GetBookmarks
    | SetPassword(hash: Value)
    | GetPassword
    | SetSessionActive(active: Value)
    | Unknown

  /** The `runtime.onMessage` listener: dispatches on the message type. `iv` is what
    * `getRandomValues` yields if the message needs one and `ok` whether a write succeeds. */
  method OnMessage(store: Store, c: Utils.Crypto, message: Message, iv: Utils.Iv, ok: bool) returns (response: Response)
    modifies store
    ensures message.GetBookmarks? || message.GetPassword? || message.Unknown? ==> store.items == old(store.items)
    ensures message.GetPassword? ==> response == StoredHash(Get(store.items, HashKey))
    ensures message.Unknown? ==> response == NoResponse
    ensures message.SaveBookmark? ==>
      var list := ListOr(Get(old(store.items), BookmarksKey));
      var key := ImportKey(c, Get(old(store.items), EncryptionKeyKey));
      if list.Some? && key.Some? then
        response == Success
        && store.items == (if ok then old(store.items) + map[BookmarksKey := List(AppendBookmark(list.value, message.title, message.url, c, key.value, iv))]
                           else old(store.items))
      else
        response == NoResponse && store.items == old(store.items)
    ensures message.GetBookmarks? ==>
      var list := ListOr(Get(store.items, BookmarksKey));
      var key := ImportKey(c, Get(store.items, EncryptionKeyKey));
      if list.Some? && key.Some? && DecryptAll(c, list.value, key.value).Some? then
        response == BookmarkList(DecryptAll(c, list.value, key.value).value)
      else
        response == NoResponse
    ensures message.SetPassword? ==> (response == Success
      && store.items == if ok then old(store.items) + map[HashKey := message.hash] else old(store.items))
    ensures message.SetSessionActive? ==> (response == Success
      && store.items == if ok then old(store.items) + map[SessionActiveKey := message.active] else old(store.items))
  {
    match message
    case SaveBookmark(title, url) =>
      response := OnSaveBookmark(store, c, title, url, iv, ok);
    case GetBookmarks =>
      response := OnGetBookmarks(store, c);
    case SetPassword(hash) =>
      response := OnSetPassword(store, hash, ok);
    case GetPassword =>
      response := StoredHash(Get(store.items, HashKey));
    case SetSessionActive(active) =>
      response := OnSetSessionActive(store, active, ok);
    case Unknown =>
      response := NoResponse;
  }

  /** The page the context menu was opened on. */
  datatype Tab = Tab(title: string, url: string)

  /** How a context-menu click ends. */
  datatype MenuOutcome =
    | Ignored         // another menu item
    | UnlockRequired  // the session is inactive: an "Unlock Required" notification is shown
    | Failed          // the key does not import or the stored list is not an array
    | WriteFailed     // the write reported `chrome.runtime.lastError`
    | Added

  /** `contextMenus.onClicked`: reads the session flag (absent meaning `false`), the list (absent
    * meaning empty) and the key (absent meaning `""`). Only a flag that is exactly `false` blocks
    * the add; otherwise the page is appended, its url encrypted, to the end of the list. */
  method OnContextMenuClicked(store: Store, c: Utils.Crypto, menuItemId: string, tab: Tab, iv: Utils.Iv, ok: bool)
    returns (outcome: MenuOutcome)
    modifies store
    ensures outcome != Added ==> store.items == old(store.items)
    ensures menuItemId != MenuItemId ==> outcome == Ignored
    ensures menuItemId == MenuItemId ==>
      (outcome == UnlockRequired <==> GetOr(old(store.items), SessionActiveKey, Bool(false)) == Bool(false))
    ensures var list := ListOr(Some(GetOr(old(store.items), BookmarksKey, List([]))));
      var key := ImportKey(c, Some(GetOr(old(store.items), EncryptionKeyKey, Text(""))));
      menuItemId == MenuItemId && GetOr(old(store.items), SessionActiveKey, Bool(false)) != Bool(false) ==>
        if list.Some? && key.Some? then
          outcome == (if ok then Added else WriteFailed)
          && (ok ==> store.items == old(store.items) + map[BookmarksKey := List(AppendBookmark(list.value, tab.title, tab.url, c, key.value, iv))])
        else
          outcome == Failed
    ensures (Utils.Sound(c) && menuItemId == MenuItemId && EncryptionKeyKey !in old(store.items)
      && GetOr(old(store.items), SessionActiveKey, Bool(false)) != Bool(false)) ==> outcome == Failed
  {
    if menuItemId != MenuItemId {
      return Ignored;
    }
    var active := GetOr(store.items, SessionActiveKey, Bool(false));
    if active == Bool(false) {
      return UnlockRequired;
    }
    var key := ImportKey(c, Some(GetOr(store.items, EncryptionKeyKey, Text(""))));
    var bookmarks := ListOr(Some(GetOr(store.items, BookmarksKey, List([]))));
    if key.None? || bookmarks.None? {
      return Failed;
    }
    var updated := AppendBookmark(bookmarks.value, tab.title, tab.url, c, key.value, iv);
    store.Set(map[BookmarksKey := List(updated)], ok);
    outcome := if ok then Added else WriteFailed;
  }

  /** Decrypting a list with one more record at its end decrypts the list, then that record. */
  lemma DecryptAllSnoc(c: Utils.Crypto, bookmarks: seq<Bookmark>, b: Bookmark, key: Utils.Key)
    ensures var after := DecryptAll(c, bookmarks + [b], key);
      var before := DecryptAll(c, bookmarks, key);
      var last := DecryptRecord(c, b, key);
      (after.Some? <==> before.Some? && last.Some?)
      && (after.Some? ==> after.value == before.value + [last.value])
  {
    var s := bookmarks + [b];
    var n := |bookmarks|;
    assert s[n] == b;
    assert forall i :: 0 <= i < n ==> s[i] == bookmarks[i];
    var after := DecryptAll(c, s, key);
    if after.Some? {
      var before := DecryptAll(c, bookmarks, key);
      assert before.Some? by {
        forall i | 0 <= i < n
          ensures DecryptRecord(c, bookmarks[i], key).Some?
        {
          assert s[i] == bookmarks[i];
        }
      }
    }
  }

  /** Listing after a save: the stored records come back decrypted and unchanged in order, followed
    * by the saved title and url. */
  lemma ListAfterSave(c: Utils.Crypto, bookmarks: seq<Bookmark>, title: string, url: string, key: Utils.Key, iv: Utils.Iv)
    requires Utils.Sound(c)
    ensures var saved := AppendBookmark(bookmarks, title, url, c, key, iv);
      var before := DecryptAll(c, bookmarks, key);
      var after := DecryptAll(c, saved, key);
      (after.Some? <==> before.Some?)
      && (after.Some? ==> after.value == before.value + [Bookmark(title, url, saved[|bookmarks|].iv)])
  {
    var saved := AppendBookmark(bookmarks, title, url, c, key, iv);
    var last := saved[|bookmarks|];
    assert saved == bookmarks + [last];
    AppendedUrlDecrypts(bookmarks, title, url, c, key, iv);
    DecryptAllSnoc(c, bookmarks, last, key);
  }
}
