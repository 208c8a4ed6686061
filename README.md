# git-credential-kwallet, modelled in Dafny

git-credential-kwallet is a git credential helper that keeps passwords in
KDE Wallet. Git hands it a request as `key=value` lines (protocol, host,
username, password) and asks it to `get`, `store` or `erase` a credential.
The helper turns the request into wallet keys. The full key is
`protocol://username@host/`. The discovery key is `protocol://host/`: its
entry records which username belongs to that protocol and host, so a
request without a username can still be answered.

This project models `src/Credential.cpp` in five modules:

- `Credentials` (credential.dfy): the credential record, the wallet
  settings, and the table of the four protocol field names.
- `KeyNames` (keys.dfy): the two key composers. A decoder reads a full key
  back into its parts, which proves that keys do not collide when the fields
  contain no separator.
- `LineProtocol` (line_protocol.dfy): `read` is a method with a loop over
  the request lines. It is proved against a reference definition: a field
  takes the value of the last line that starts with its name and `=`.
  `write` is a function returning the printed text. A round-trip lemma shows
  that, when neither value holds a newline or ends with a carriage return,
  reading what `write` prints gives back the username and password.
- `Wallet` (wallet.dfy): an abstract KWallet. `Backend` is the wallet
  service. It holds every folder of every wallet as a map from key to
  secret, and a `Faults` record naming which calls fail: opening a wallet,
  selecting or creating a folder, and reading, writing or removing an entry.
  Faults are per entry, so the model can tell whether the second write or
  removal is still attempted when the first one fails. `Handle` is an
  opened wallet with its current folder.
- `Operations` (operations.dfy): `getPassword`, `get`, `store` and `erase`
  as methods that step through the wallet calls with the same early returns
  as the source. Each method is proved equal to a function of the folders
  it starts from (`Lookup`, `Got`, `Stored`, `Erased`). The promised
  properties are stated on those functions and in lemmas that combine
  operations: store then get, erase then get, and idempotence.

The model keeps the order of the code's checks. `store` opens the wallet,
creates a missing folder and selects it before it checks the username and
password. So a request without a password writes no entry but can still
leave a new empty folder behind, and `Stored` says exactly that.

## Model

| member | source | states |
|---|---|---|
| `Credentials.Credential.WithField` | src/Credential.cpp:124-125 | setting a field through the table changes that field to the value and leaves the other three alone |
| `Credentials.FieldName` | src/Credential.cpp:18-37 | each field's protocol name is in the field table and maps back to that field; a name is non-empty and holds no `=` |
| `Credentials.FieldMappingInverse` | src/Credential.cpp:32-37 | the table holds only the four names: each key is the name of the field it maps to |
| `KeyNames.ComposeKeyName` | src/Credential.cpp:51-66 | the full key is empty exactly when protocol, username and host are all empty |
| `KeyNames.ComposeKeyNameNoUsername` | src/Credential.cpp:68-79 | the discovery key is the full key of the same credential with the username removed, so it never depends on the username and equals the full key when the username is empty |
| `KeyNames.KeyNameParts` | src/Credential.cpp:51-66 | the full key is the protocol segment `p://`, then `u@`, then `h/`, in that order, each present only for a non-empty field |
| `KeyNames.FullKeyLength` | src/Credential.cpp:185-193 | a non-empty username makes the full key longer by the username and its `@`, so the two keys `store` writes differ exactly when the username is non-empty |
| `KeyNames.KeysIgnorePassword` | src/Credential.cpp:51-79 | neither key depends on the password |
| `KeyNames.ExampleKeys` | src/Credential.cpp:51-79 | https, alice and example.com give `https://alice@example.com/` and `https://example.com/`; the all-empty credential gives empty keys |
| `KeyNames.SplitComposeKeyName` | src/Credential.cpp:51-66 | reading a full key back gives the protocol, username and host it was built from, when no field holds `/` and the host holds no `@` |
| `KeyNames.KeyNameInjective` | src/Credential.cpp:51-66 | two such credentials with the same full key have the same protocol, username and host |
| `KeyNames.FullKeyIsNoDiscoveryKey` | src/Credential.cpp:51-79 | for such credentials, a full key with a username is never the discovery key of any credential |
| `KeyNames.KeyNameCollision` | src/Credential.cpp:51-66 | without that restriction keys can collide: protocol `x` alone and host `x:/` alone both give `x://` |
| `LineProtocol.IndexOf` | src/Credential.cpp:115-116 | the result is -1 exactly when the character is absent, and otherwise the position of its first occurrence |
| `LineProtocol.SplitAtFirstEquals` | src/Credential.cpp:115-125 | splitting at the first `=` and looking up the name selects a field exactly when the line starts with that field's name and `=`; the value is everything after that first `=`, which may itself contain `=` |
| `LineProtocol.LastValueUnassigned` | src/Credential.cpp:112-126 | a field that no line assigns stays empty |
| `LineProtocol.LastValueIsLastAssignment` | src/Credential.cpp:114-126 | when a field is assigned several times, the last line that assigns it gives its value |
| `LineProtocol.Read` | src/Credential.cpp:110-128 | each field of the parsed credential is the value of the last line assigning it, or empty; lines without `=` and lines with unknown names are skipped |
| `LineProtocol.ValueKeepsEquals` | src/Credential.cpp:119-125 | `password=a=b` sets the password to `a=b`; for the username, a later line wins over an earlier one, and unknown names and lines without `=` are skipped |
| `LineProtocol.PrintField` | src/Credential.cpp:43-49 | the output is empty exactly when the field is; otherwise it is the field's name, `=`, the value and one closing newline |
| `LineProtocol.PrintFieldAssigns` | src/Credential.cpp:43-49 | a printed field ends with a newline, and the line before it is one that `read` takes as assigning that value to that field |
| `LineProtocol.Write` | src/Credential.cpp:130-134 | `write` prints nothing exactly when both username and password are empty |
| `LineProtocol.SplitLinesFirst` | src/Credential.cpp:114 | a line with no newline and no trailing carriage return, followed by a newline, is read back as that one line |
| `LineProtocol.WriteThenRead` | src/Credential.cpp:110-134 | for a username and password that contain no newline and do not end with a carriage return, the lines `write` prints (username, then password, empty ones omitted), read back, give the same username and password, and empty protocol and host: `write` never prints them |
| `Operations.Lookup` | src/Credential.cpp:81-106 | `getPassword` yields either the empty string or the value stored under the key; it yields the stored value when the key exists and the wallet opens, the folder can be selected and the entry can be read; it yields the empty string when the key is absent, the wallet does not open, the folder cannot be selected or the read fails |
| `Operations.GetPassword` | src/Credential.cpp:81-106 | the method returns `Lookup` of the wallet's folders; it has no modifies clause, so it never changes the wallet |
| `Operations.ResolvedUsername` | src/Credential.cpp:142-150 | the username is the given one, or when none is given, the value found under the discovery key; the full composer applied to a credential without a username gives that key |
| `Operations.Got` | src/Credential.cpp:136-156 | the answer is all empty exactly when the folder is missing or no username is known; otherwise protocol and host are those of the request, the username is the resolved one, and the password is the lookup under the full key of the answer |
| `Operations.Get` | src/Credential.cpp:136-156 | the method returns `Got` of the wallet's folders; it has no modifies clause, so it never changes the wallet |
| `Operations.Stored` | src/Credential.cpp:158-194 | other folders are untouched; when the wallet does not open, or a missing folder cannot be created, nothing changes at all; a missing folder is created when the wallet opens and creation succeeds; no entry changes unless the wallet opens, the folder is ready and both username and password are non-empty; when they are, discovery key to username and full key to password are each written unless that entry refuses the write, whatever happened to the other, and an entry that refuses the write keeps its old value; every other entry stays as it was |
| `Operations.Store` | src/Credential.cpp:158-194 | the folders after the method are `Stored` of those before it |
| `Operations.Erased` | src/Credential.cpp:196-233 | no folder appears or disappears and other folders are untouched; nothing changes when the folder is missing, no username is known, the full key is absent, the wallet does not open or the folder cannot be selected; otherwise only the full key and the discovery key can disappear, each unless that entry refuses removal, whatever happened to the other, and an entry that refuses removal stays; nothing is added or changed |
| `Operations.Erase` | src/Credential.cpp:196-233 | the folders after the method are `Erased` of those before it |
| `Operations.StoreThenGet` | src/Credential.cpp:136-194 | in a cooperative wallet, after `store` the request with only protocol and host resolves the stored username and password, and the request with the username gets the stored password |
| `Operations.EraseThenGet` | src/Credential.cpp:196-232 | in a cooperative wallet, after an `erase` that gets as far as deleting (the folder exists, a username is given or found under the discovery key, and its full key is stored), a request without a username gets the all-empty answer, and one with that username gets an empty password |
| `Operations.StoreIdempotent` | src/Credential.cpp:158-194 | running `store` twice leaves the same folders as running it once, so a retry is harmless |
| `Operations.EraseIdempotent` | src/Credential.cpp:196-233 | running `erase` twice leaves the same folders as running it once |
| `Operations.EraseDropsOtherUsersDiscoveryEntry` | src/Credential.cpp:212-232 | in a cooperative wallet, `erase` with a given username whose full key is stored removes the discovery entry even when that entry names another user |
| `Operations.GetExample` | src/Credential.cpp:136-156 | with `https://example.com/` to alice and `https://alice@example.com/` to secret, `get` for https and example.com answers alice and secret |

## Left out

- Standard input and output. `Read` takes the sequence of lines and `Write` returns the text. `SplitLines` models how QTextStream::readLineInto cuts text into lines (at `\n`, dropping a `\r` before it or at the end of the stream), and is used only for the round trip.
- KDE Wallet itself. Its authentication, locking, blocking password prompts and D-Bus transport are replaced by the `Wallet` module's maps and fault sets. Wallet::keyDoesNotExist and Wallet::folderDoesNotExist are modelled as exact queries that never fail. Nothing else changes the wallet between two calls of one operation.
- The buffer `readPassword` fills on a failed read. `getPassword` discards it and returns a new empty string, so the model gives back an empty string.
- The debugStream() diagnostics. They only log and do not affect any result.
- The template reflection (src/Credential.cpp:14-37). It is replaced by the `FieldId` datatype and the `FieldMapping` table.
- Ownership and release of the wallet handle (`unique_ptr`). A `Handle` is a fresh object per `openWallet` call (`get` and a username-less `erase` can make two) and is never closed.
- The header files that declare `Credential` and `WalletSettings` are not part of this model. Their fields are inferred from how the code uses them.
