# SimplePrivateBookmark: a Dafny model of the vault core

SimplePrivateBookmark is a browser extension that keeps a private list of bookmarks. Each
bookmark's url is stored encrypted with AES-GCM. The list is hidden behind a password whose
SHA-256 hash is kept in `chrome.storage.sync`. This project models the three files that make
up that core, and proves what they promise:

- `src/utils.js` (module `Utils`, with `Hex`, `Base64` and `Text` beside it):
  - password hashing, where the digest is written as lower-case hex two digits per byte;
  - the byte-loop converters between an `ArrayBuffer` and base64;
  - `encryptData` / `decryptData`.

  `btoa` is modelled as the base64 encoding of section 4 of RFC 4648. `atob` is modelled as
  the "forgiving-base64 decode" algorithm of the WHATWG Infra standard:
  - ASCII white space is dropped;
  - one or two trailing `=` are dropped when the length is a multiple of four;
  - a remaining length of 4k+1 is an error, and so is any character outside the alphabet;
  - bits left over at the end are discarded.

  Both `arrayBufferToBase64` and `base64ToArrayBuffer` keep their loops, as methods.
- `src/auth.js` (module `Auth`): the class `Auth` as a state machine. It holds the session flag,
  the lock-timer handle, the timers still pending and the first login's deferred activation.
  Its invariant `Valid` says that only the timer named by `lockTimer` can be pending.
  So, whatever sequence of logins, checks and locks runs, at most one lock timer is
  pending (`AtMostOnePending`).
- `src/background/background.js` (module `Background`):
  - the install hook;
  - the `saveBookmark`, `getBookmarks`, `setPassword`, `getPassword` and `setSessionActive`
    message handlers;
  - the context-menu entry that adds the current page.

  The helpers at `src/background/background.js:51-102` are copies of
  those in `src/utils.js`, so they are modelled once, in `Utils`.

`chrome.storage.sync` is the class `Storage.Store`. It is a map from key to JSON value. A
write applies all of its keys, or none of them when the host reports
`chrome.runtime.lastError`; the `ok` parameter says which.

The host functions are fields of a `Utils.Crypto` value that the operations take as a parameter:
`TextEncoder`, `TextDecoder`, SHA-256, JWK key import, and AES-GCM encrypt and decrypt. The
predicate `Utils.Sound` states the properties of them that the round trips rely on:
- decryption with the same key and IV undoes encryption;
- UTF-8 decoding undoes encoding;
- a digest is 32 bytes long;
- the empty string is not a JWK, because `JSON.parse("")` throws.

The twelve random IV bytes are a parameter of type `Utils.Iv`. So are the exported key of the
install hook and the success of each storage write.

JavaScript semantics that the model keeps:
- `x || false` and `x || []` use ToBoolean (`Storage.Truthy`, `Storage.ListOr`).
  A stored non-array that is truthy makes the handler throw, which is modelled as no reply and no write.
- First login happens only when the stored hash is exactly `null` (`=== null`). This is the
  state the install hook leaves behind.
- The context menu is blocked only when the session flag is exactly `false` (`=== false`).
- `trim` removes the ECMAScript WhiteSpace and LineTerminator characters.
- A `Uint8Array` element stores its value modulo 256.

Some behaviour of the code, which the model keeps as written:
- Only the context-menu path checks that the session is active. The `saveBookmark` and
  `getBookmarks` messages are served whatever the session flag says.
- A successful login with an existing password does not write `sessionActive: true` to storage.
  It only sets the field of the `Auth` object.
- After a first login the session opens in a deferred step, five seconds after the write
  (`Auth.Auth.FireActivation`), not at once.
- When the `hash` key is absent rather than `null`, `loginHandler` takes the comparison branch.
  It can only answer "Incorrect password!", because a hash string never equals `undefined`.
  `Auth.Auth.LoginHandler`'s contract shows this.

## Model

| member | source | states |
|---|---|---|
| Hex.ByteToHex | src/utils.js:34 | `toString(16).padStart(2, "0")` gives exactly two lower-case hex digits; bytes below 16 get a leading `0`; the two digits read back as the byte |
| Hex.HexEncode | src/utils.js:33-34 | the joined digest string is twice as long as the digest, all hex, and characters 2i and 2i+1 are the two-digit form of byte i |
| Hex.HexDecodeEncode | src/utils.js:33-34 | reading the digest string back in pairs gives the digest: no information is lost by the formatting |
| Hex.HexEncodeInjective | src/utils.js:33-34 | two digests give the same hex string if and only if they are equal |
| Utils.HashPassword | src/utils.js:28-34 | the hash is lower-case hex, two characters per digest byte, and 64 characters for a 32-byte SHA-256 digest |
| Utils.HashPasswordEqual | src/utils.js:28-34 | two passwords have equal hash strings if and only if their SHA-256 digests of the UTF-8 bytes are equal |
| Base64.Encode | src/utils.js:64 | `btoa` output has length 4·⌈n/3⌉ and uses only the base64 alphabet and `=` |
| Base64.DecodeEncode | src/utils.js:64-69 | forgiving-base64 decoding of the RFC 4648 encoding of any bytes gives back those bytes |
| Base64.Btoa | src/utils.js:64 | `btoa` succeeds exactly when every code of the string is below 256, and throws otherwise |
| Base64.Decode | src/utils.js:69 | forgiving-base64 decoding: a character outside the alphabet, white space and `=` makes it fail, and so does a length of the form 4k+1 once white space is removed |
| Base64.RemoveWhitespaceKeeps | src/utils.js:69 | every character that is not white space is still present after `atob` drops white space |
| Base64.AtobBtoa | src/utils.js:57-77 | on a binary string (codes below 256) `btoa` does not throw, and `atob(btoa(s)) == s` |
| Base64.RemoveWhitespace | src/utils.js:69 | the white space `atob` drops is gone from the result; a string without white space is unchanged; a single white-space character becomes empty and any other single character is kept |
| Base64.RemoveWhitespaceAppend | src/utils.js:69 | removing white space from a concatenation is removing it from each part; with the one-character cases this keeps every other character, in order |
| Base64.Atob | src/utils.js:69 | what `atob` returns is a binary string |
| Utils.ArrayBufferToBase64 | src/utils.js:57-65 | the loop builds the binary string of the buffer, `btoa` accepts it, and the result is the RFC 4648 encoding of the buffer's bytes, of length 4·⌈n/3⌉ |
| Utils.Base64ToArrayBuffer | src/utils.js:68-77 | a buffer comes back exactly when `atob` accepts the input; the buffer is fresh, as long as the binary string, byte i is the code of character i, and the whole buffer is the decoded bytes |
| Utils.BufferRoundTrip | src/utils.js:57-77 | `base64ToArrayBuffer(arrayBufferToBase64(b))` gives back the bytes of `b` |
| Utils.EncryptData | src/utils.js:80-93 | the returned `iv` is 16 base64 characters that decode to the 12 IV bytes, and `encrypted` decodes to the AES-GCM ciphertext of the UTF-8 bytes of the data |
| Utils.DecryptData | src/utils.js:96-107 | malformed base64 in either argument makes decryption reject |
| Utils.DecryptEncrypt | src/utils.js:80-107 | decrypting what `encryptData` returned, under the same key, gives back the original string |
| Text.SkipSpace | src/auth.js:68 | the front of the string `trim` drops is white space, and the character after it is not |
| Text.SkipSpaceBack | src/auth.js:68 | the back of the string `trim` drops is white space, and the character before it is not |
| Text.Trim | src/auth.js:68 | the trimmed password is a contiguous slice of the input that neither starts nor ends with white space, and every character dropped before or after it is white space |
| Text.TrimEmptyIffAllSpace | src/auth.js:68-73 | the password is rejected as empty if and only if every character of the input is white space |
| Storage.Truthy | src/auth.js:41 | ToBoolean as `x || default` uses it: a stored value counts exactly when it is present and is not `null`, `false` or the empty string |
| Storage.Get | src/background/background.js:107-108 | `get` reports a key as present exactly when it is stored, with its stored value |
| Storage.GetOr | src/background/background.js:151 | `get({key: default})` gives the default for an absent key and the stored value otherwise |
| Storage.ListOr | src/background/background.js:108 | `bookmarks \|\| []` is the empty list for a falsy value and the stored list for a list; a truthy value that is not an array is an error, because `push` and `for…of` throw on it |
| Storage.Store.Set | src/background/background.js:116 | a successful `set` overwrites exactly the keys written and keeps every other key; a failed one changes nothing |
| Auth.Handles | src/auth.js:127 | `clearTimeout` on the `lockTimer` field cancels at most one timer |
| Auth.AtMostOnePending | src/auth.js:144-149 | under the class invariant at most one lock timer is pending, and it is the one `lockTimer` names |
| Auth.Auth.constructor | src/auth.js:25-27 | a new manager has an inactive session and no lock timer, and satisfies the invariant |
| Auth.Auth.StartLockTimer | src/auth.js:144-149 | the previous lock timer is cancelled and a new one with a fresh handle becomes the only pending timer; the session is unchanged |
| Auth.Auth.LockExtension | src/auth.js:126-138 | the timer is cancelled, and `sessionActive: false` is stored; only when the write succeeds does the session become inactive; a failed write leaves storage and the session as they were |
| Auth.Auth.FireLockTimer | src/auth.js:146-148 | only the timer `lockTimer` names can fire, and firing locks as `lockExtension` does |
| Auth.Auth.CheckSession | src/auth.js:38-57 | the session is active exactly when the stored flag is truthy, and then the lock timer is restarted; otherwise the timers are untouched |
| Auth.Auth.LoginHandler | src/auth.js:67-120 | an all-white-space password is rejected with nothing changed; with a `null` stored hash, the hash of the trimmed password is stored with `sessionActive: true` and an activation is scheduled, or a storage error is reported; otherwise the session opens and the lock timer restarts if and only if the stored hash equals the password's hash, and nothing is written |
| Auth.Auth.FireActivation | src/auth.js:92-97 | the deferred step of a first login opens the session and starts the lock timer |
| Background.ImportKey | src/background/background.js:39-49 | a stored string is passed to `importKey` and its outcome is the result; anything else, including a missing key, imports as nothing |
| Background.OnInstalled | src/background/background.js:2-11 | after install, storage holds an empty list, a `null` hash, an inactive session and the exported key |
| Background.AppendBookmark | src/background/background.js:110-115 | the pushed list keeps every earlier record in order and ends with one record holding the title, the base64 IV and the base64 ciphertext of the url |
| Background.AppendedUrlDecrypts | src/background/background.js:110-115 | the appended record's url decrypts to the url that was saved |
| Background.DecryptRecord | src/background/background.js:126 | a record decrypts exactly when its url does, and only its url changes |
| Background.DecryptAll | src/background/background.js:125-127 | the list decrypts exactly when every record does, with the same length and record i the decryption of stored record i |
| Background.DecryptAllSnoc | src/background/background.js:125-127 | decrypting a list with one more record at the end is decrypting the list, then that record |
| Background.DecryptPrefixStep | src/background/background.js:125-127 | one more turn of the loop extends the decrypted prefix by the next record's decryption |
| Background.DecryptInPlace | src/background/background.js:125-127 | the loop succeeds exactly when every record decrypts, and then the array holds the decrypted records in stored order |
| Background.OnSaveBookmark | src/background/background.js:106-119 | with an importable key and an array (or falsy) list, the record is appended and the list written, and success is replied whether or not the write succeeds; otherwise the handler throws, writing nothing |
| Background.OnGetBookmarks | src/background/background.js:120-131 | the reply is the decrypted list in stored order; a bad key, a non-array list or a url that does not decrypt leaves no reply |
| Background.OnSetPassword | src/background/background.js:132-135 | the stored hash is overwritten with the message's value, and success is replied |
| Background.OnSetSessionActive | src/background/background.js:141-144 | the stored session flag is overwritten with the message's value, and success is replied |
| Background.OnMessage | src/background/background.js:105-146 | `getBookmarks` and `getPassword` change nothing; `getPassword` replies with the stored hash; `getBookmarks` replies as `OnGetBookmarks` does; `saveBookmark` appends and replies as `OnSaveBookmark` does, or throws, writing nothing; `setPassword` and `setSessionActive` overwrite exactly their key and reply success; an unknown type gets no reply and changes nothing |
| Background.OnContextMenuClicked | src/background/background.js:149-190 | other menu items are ignored; the add is refused exactly when the stored flag (defaulting to `false`) is `false`; otherwise the page is appended with its url encrypted, or the click fails with nothing written; with no stored key the default `""` never imports, so the add fails |
| Background.ListAfterSave | src/background/background.js:106-131 | listing after a save gives the earlier records, decrypted and in order, followed by the saved title and url |

## Left out

- The popup's DOM is not modelled: showing and hiding containers, button titles, `showMessage`, the password field, and `console` output. `LoginOutcome` and `MenuOutcome` name the message that would be shown.
- `chrome.notifications`, and the five-second clearing of the "Unlock Required" notification, are not modelled.
- `chrome.contextMenus.create` in the install hook is not modelled. Its id is the constant `Background.MenuItemId`.
- The `updateBookmarks` message sent after a context-menu add is not modelled.
- `bookmark.loadBookmarks()`, which `checkSession` and `loginHandler` call, is not modelled. `src/bookmark.js` is not part of this model.
- Real time is not modelled. A timer is a handle that an explicit event fires (`FireLockTimer`, `FireActivation`), with no clock. The one-hour delay of the lock timer is not represented.
- Promise and callback interleaving is not modelled. Each handler runs to completion on the storage state it read.
- The cryptographic primitives are uninterpreted fields of `Utils.Crypto`: SHA-256, AES-GCM, JWK parsing and import, and UTF-8 encoding and decoding.
- `generateKey` and `exportKey` in the install hook are replaced by the parameter `exportedKey`.
- `crypto.getRandomValues` is replaced by the `iv` parameter.
- Auth.Auth.CheckSession: the field holds the ToBoolean of `data.sessionActive || false` rather than the raw stored value. Every later use of the field is a truth test, so the two agree.
- Storage.Store.Set: one `ok` flag stands for `chrome.runtime.lastError`. Writes without a callback (`saveBookmark`, `setPassword`, `setSessionActive`) silently ignore a failure, and so does the model.
- Background.OnSaveBookmark, Background.OnGetBookmarks: a `sendResponse` that never comes because the handler threw is the reply `NoResponse`. The rejected promise itself is not modelled.
- Background.DecryptRecord: a stored record is assumed to have string `url` and `iv` fields. Records of another shape cannot be stored by this code.
- Utils.DecryptEncrypt, Background.AppendedUrlDecrypts, Background.ListAfterSave: these round trips hold for strings of Unicode scalar values only. A JavaScript string may hold a lone surrogate, which `TextEncoder` replaces with U+FFFD. For such a string `decryptData(encryptData(s))` is not `s`, and two different passwords can hash alike (Utils.HashPasswordEqual compares digests, not passwords). A Dafny `string` cannot hold a lone surrogate, so the model does not cover these strings.
- Utils.DecryptData: the contract only states the base64 failure cases. The success case is stated through `Utils.DecryptEncrypt` under `Utils.Sound`, since AES-GCM is not modelled.
