/** The helper's three operations against the wallet: `get` answers a
    request with the stored username and password, `store` saves them, and
    `erase` deletes them. Each method is proved equal to a function of the
    folders it starts from (Got, Stored, Erased); the properties of the
    operations are stated on those functions and in the lemmas after them. */
module Operations {
  import opened Credentials
  import opened KeyNames
  import opened Wallet

  // What the operations compute

  /** What `getPassword(key)` yields: the secret stored under `key`, or the
      empty string when the key is missing or the wallet cannot be opened,
      the folder selected or the entry read. */
  function Lookup(st: Folders, faults: Faults, s: WalletSettings, key: string): (value: string)
    ensures value != [] ==> s in st && key in st[s] && value == st[s][key]
    ensures (s in st && key in st[s] && s.wallet !in faults.locked && s !in faults.unselectable
             && Entry(s, key) !in faults.unreadable) ==> value == st[s][key]
    ensures (key !in EntriesOf(st, s) || s.wallet in faults.locked || s in faults.unselectable
             || Entry(s, key) in faults.unreadable) ==> value == []
  {
    if key !in EntriesOf(st, s) then []
    else if s.wallet in faults.locked then []
    else if s in faults.unselectable then []
    else if Entry(s, key) in faults.unreadable then []
    else st[s][key]
  }

  /** The username `get` and `erase` work with: the one given, or else the
      one stored under the discovery key. */
  function ResolvedUsername(st: Folders, faults: Faults, c: Credential, s: WalletSettings): (username: string)
    ensures c.username != [] ==> username == c.username
    ensures c.username == [] ==> username == Lookup(st, faults, s, ComposeKeyNameNoUsername(c))
  {
    if c.username != [] then c.username else Lookup(st, faults, s, ComposeKeyName(c))
  }

  /** The answer of `get`: all empty when the folder is missing or no username
      can be found; otherwise the request with the username resolved and the
      password stored under the full key (empty when that lookup fails). */
  function Got(st: Folders, faults: Faults, c: Credential, s: WalletSettings): (r: Credential)
    ensures r == Empty <==> s !in st || ResolvedUsername(st, faults, c, s) == []
    ensures r != Empty ==> r.protocol == c.protocol && r.host == c.host
                           && r.username == ResolvedUsername(st, faults, c, s)
                           && r.password == Lookup(st, faults, s, ComposeKeyName(r))
  {
    var username := ResolvedUsername(st, faults, c, s);
    if s !in st || username == [] then Empty
    else
      var named := c.(username := username);
      KeysIgnorePassword(named, Lookup(st, faults, s, ComposeKeyName(named)));
      named.(password := Lookup(st, faults, s, ComposeKeyName(named)))
  }

  /** `store` gets as far as writing: the wallet opens, the folder exists or
      can be created, it can be selected, and username and password are given. */
  predicate StoreProceeds(st: Folders, faults: Faults, c: Credential, s: WalletSettings) {
    s.wallet !in faults.locked && (s in st || s !in faults.uncreatable) && s !in faults.unselectable
    && c.username != [] && c.password != []
  }

  /** The folders `store` leaves. */
  function Stored(st: Folders, faults: Faults, c: Credential, s: WalletSettings): (st': Folders)
    // no other folder is touched
    ensures forall at :: at != s ==> (at in st' <==> at in st) && (at in st ==> st'[at] == st[at])
    // a missing folder is created whenever the wallet opens and creation succeeds
    ensures s.wallet !in faults.locked && s !in faults.uncreatable ==> s in st'
    ensures s in st ==> s in st'
    // a wallet that does not open, or a missing folder that cannot be created, leaves everything as it was
    ensures s.wallet in faults.locked || (s !in st && s in faults.uncreatable) ==> st' == st
    // no entry is written unless both username and password are given
    ensures !StoreProceeds(st, faults, c, s) ==> EntriesOf(st', s) == EntriesOf(st, s)
    // each of the two writes happens unless that entry refuses it
    ensures StoreProceeds(st, faults, c, s) && Entry(s, ComposeKeyNameNoUsername(c)) !in faults.unwritable ==>
              ComposeKeyNameNoUsername(c) in st'[s] && st'[s][ComposeKeyNameNoUsername(c)] == c.username
    ensures StoreProceeds(st, faults, c, s) && Entry(s, ComposeKeyName(c)) !in faults.unwritable ==>
              ComposeKeyName(c) in st'[s] && st'[s][ComposeKeyName(c)] == c.password
    // an entry that refuses the write keeps what it held
    ensures forall k :: Entry(s, k) in faults.unwritable ==>
              (k in EntriesOf(st', s) <==> k in EntriesOf(st, s))
              && (k in EntriesOf(st, s) ==> EntriesOf(st', s)[k] == EntriesOf(st, s)[k])
    // every other entry of the folder stays as it was
    ensures forall k :: k != ComposeKeyName(c) && k != ComposeKeyNameNoUsername(c) ==>
              (k in EntriesOf(st', s) <==> k in EntriesOf(st, s))
              && (k in EntriesOf(st, s) ==> EntriesOf(st', s)[k] == EntriesOf(st, s)[k])
  {
    FullKeyLength(c);
    if s.wallet in faults.locked then st
    else if s !in st && s in faults.uncreatable then st
    else
      var created := st[s := EntriesOf(st, s)];
      if s in faults.unselectable || c.username == [] || c.password == [] then created
      else
        var withUsername := Written(created, faults, s, ComposeKeyNameNoUsername(c), c.username);
        Written(withUsername, faults, s, ComposeKeyName(c), c.password)
  }

  /** The full key `erase` deletes: that of the request with its username resolved. */
  function EraseKey(st: Folders, faults: Faults, c: Credential, s: WalletSettings): string {
    ComposeKeyName(c.(username := ResolvedUsername(st, faults, c, s)))
  }

  /** `erase` gets as far as deleting: the folder exists, a username is
      known, the full key exists, the wallet opens and the folder is selected. */
  predicate EraseProceeds(st: Folders, faults: Faults, c: Credential, s: WalletSettings) {
    s in st && ResolvedUsername(st, faults, c, s) != [] && EraseKey(st, faults, c, s) in st[s]
    && s.wallet !in faults.locked && s !in faults.unselectable
  }

  /** The folders `erase` leaves. */
  function Erased(st: Folders, faults: Faults, c: Credential, s: WalletSettings): (st': Folders)
    // no folder appears or disappears, and other folders are untouched
    ensures st'.Keys == st.Keys
    ensures forall at :: at in st && at != s ==> st'[at] == st[at]
    // nothing happens unless every check passes
    ensures !EraseProceeds(st, faults, c, s) ==> st' == st
    // only the full key and the discovery key can go, and nothing is added or changed
    ensures forall k :: k in EntriesOf(st', s) ==> k in EntriesOf(st, s) && EntriesOf(st', s)[k] == EntriesOf(st, s)[k]
    ensures forall k :: k in EntriesOf(st, s) && k !in EntriesOf(st', s) ==>
              k == EraseKey(st, faults, c, s) || k == ComposeKeyNameNoUsername(c)
    // each of the two deletions happens unless that entry refuses it
    ensures EraseProceeds(st, faults, c, s) && Entry(s, EraseKey(st, faults, c, s)) !in faults.unremovable ==>
              EraseKey(st, faults, c, s) !in st'[s]
    ensures EraseProceeds(st, faults, c, s) && Entry(s, ComposeKeyNameNoUsername(c)) !in faults.unremovable ==>
              ComposeKeyNameNoUsername(c) !in st'[s]
    // an entry that refuses removal stays
    ensures forall k :: Entry(s, k) in faults.unremovable ==> (k in EntriesOf(st', s) <==> k in EntriesOf(st, s))
  {
    if s !in st then st
    else
      var username := ResolvedUsername(st, faults, c, s);
      if username == [] then st
      else
        var named := c.(username := username);
        if ComposeKeyName(named) !in st[s] || s.wallet in faults.locked || s in faults.unselectable then st
        else Removed(Removed(st, faults, s, ComposeKeyName(named)), faults, s, ComposeKeyNameNoUsername(named))
  }

  // How the operations combine

  /** The wallet refuses nothing in the folder `s`. */
  predicate Cooperative(faults: Faults, s: WalletSettings) {
    s.wallet !in faults.locked && s !in faults.unselectable && s !in faults.uncreatable
    && (forall e :: e in faults.unreadable ==> e.at != s)
    && (forall e :: e in faults.unwritable ==> e.at != s)
    && (forall e :: e in faults.unremovable ==> e.at != s)
  }

  /** After `store`, `get` answers the protocol and host alone with the stored
      username and password, and answers them with the username with the
      stored password. */
  lemma StoreThenGet(st: Folders, faults: Faults, c: Credential, s: WalletSettings)
    requires Cooperative(faults, s) && c.username != [] && c.password != []
    ensures Got(Stored(st, faults, c, s), faults, c.(username := [], password := []), s) == c
    ensures Got(Stored(st, faults, c, s), faults, c.(password := []), s) == c
  {
    var st' := Stored(st, faults, c, s);
    var disc := ComposeKeyNameNoUsername(c);
    var full := ComposeKeyName(c);
    assert Entry(s, disc) !in faults.unwritable && Entry(s, full) !in faults.unwritable;
    assert Entry(s, disc) !in faults.unreadable && Entry(s, full) !in faults.unreadable;
    assert Lookup(st', faults, s, disc) == c.username;
    assert Lookup(st', faults, s, full) == c.password;
    var asked := c.(username := [], password := []);
    assert ComposeKeyNameNoUsername(asked) == disc;
    KeysIgnorePassword(c, []);
  }

  /** After an `erase` that gets as far as deleting, whether its request
      named the user or left it to the discovery key, `get` finds neither the
      username for the protocol and host nor the password under the full key. */
  lemma EraseThenGet(st: Folders, faults: Faults, c: Credential, s: WalletSettings)
    requires Cooperative(faults, s) && EraseProceeds(st, faults, c, s)
    ensures Got(Erased(st, faults, c, s), faults, c.(username := [], password := []), s) == Empty
    ensures var username := ResolvedUsername(st, faults, c, s);
      Got(Erased(st, faults, c, s), faults, c.(username := username), s) == c.(username := username, password := [])
  {
    var st' := Erased(st, faults, c, s);
    var username := ResolvedUsername(st, faults, c, s);
    var named := c.(username := username);
    var disc := ComposeKeyNameNoUsername(c);
    var full := EraseKey(st, faults, c, s);
    assert ComposeKeyNameNoUsername(named) == disc;
    assert Entry(s, disc) !in faults.unremovable && Entry(s, full) !in faults.unremovable;
    assert disc !in st'[s] && full !in st'[s];
    var asked := c.(username := [], password := []);
    assert ComposeKeyNameNoUsername(asked) == disc;
    assert ResolvedUsername(st', faults, asked, s) == [];
    KeysIgnorePassword(named, []);
  }

  /** Running `store` twice leaves what running it once does, so a retry is harmless. */
  lemma StoreIdempotent(st: Folders, faults: Faults, c: Credential, s: WalletSettings)
    ensures Stored(Stored(st, faults, c, s), faults, c, s) == Stored(st, faults, c, s)
  {
    var once := Stored(st, faults, c, s);
    if s in once {
      assert once[s := EntriesOf(once, s)] == once;
    }
    if StoreProceeds(st, faults, c, s) {
      assert StoreProceeds(once, faults, c, s);
      FullKeyLength(c);
      WriteUnchanged(once, faults, s, ComposeKeyNameNoUsername(c), c.username);
      WriteUnchanged(once, faults, s, ComposeKeyName(c), c.password);
    }
  }

  /** Writing the value an entry already holds, or one the entry refuses,
      changes nothing. */
  lemma WriteUnchanged(st: Folders, faults: Faults, s: WalletSettings, key: string, value: string)
    requires s in st
    requires Entry(s, key) !in faults.unwritable ==> key in st[s] && st[s][key] == value
    ensures Written(st, faults, s, key, value) == st
  {
    if Entry(s, key) !in faults.unwritable {
      assert st[s][key := value] == st[s];
    }
  }

  /** Running `erase` twice leaves what running it once does. */
  lemma EraseIdempotent(st: Folders, faults: Faults, c: Credential, s: WalletSettings)
    ensures Erased(Erased(st, faults, c, s), faults, c, s) == Erased(st, faults, c, s)
  {
    var once := Erased(st, faults, c, s);
    var twice := Erased(once, faults, c, s);
    if EraseProceeds(st, faults, c, s) {
      assert twice[s] == once[s];
    }
  }

  /** `erase` deletes the discovery entry even when it names another user
      than the one given: nothing compares the two. */
  lemma EraseDropsOtherUsersDiscoveryEntry(st: Folders, faults: Faults, c: Credential, s: WalletSettings)
    requires Cooperative(faults, s) && s in st && c.username != [] && ComposeKeyName(c) in st[s]
    requires ComposeKeyNameNoUsername(c) in st[s] && st[s][ComposeKeyNameNoUsername(c)] != c.username
    ensures ComposeKeyNameNoUsername(c) !in Erased(st, faults, c, s)[s]
  {
    assert EraseProceeds(st, faults, c, s);
  }

  /** A worked example: with the discovery entry naming alice
      and her password stored, `get` for https and example.com answers both. */
  lemma GetExample(faults: Faults)
    requires Cooperative(faults, WalletSettings("kdewallet", "Passwords"))
    ensures var s := WalletSettings("kdewallet", "Passwords");
      var st := map[s := map["https://example.com/" := "alice", "https://alice@example.com/" := "secret"]];
      Got(st, faults, Credential("https", "example.com", "", ""), s) == Credential("https", "example.com", "alice", "secret")
  {
    ExampleKeys();
  }

  // The operations

  /** getPassword: looks `key` up in the settings' folder; never changes the wallet. */
  method GetPassword(key: string, settings: WalletSettings, backend: Backend) returns (value: string)
    ensures value == Lookup(backend.folders, backend.faults, settings, key)
  {
    if backend.KeyDoesNotExist(settings.wallet, settings.folder, key) {
      return [];
    }
    var wallet := backend.OpenWallet(settings.wallet);
    if wallet == null {
      return [];
    }
    var selected := wallet.SetFolder(settings.folder);
    if !selected {
      return [];
    }
    var rc, buffer := wallet.ReadPassword(key);
    if rc != 0 {
      return [];
    }
    return buffer;
  }

  /** get: resolves the username through the discovery key when it is not
      given, then looks the password up under the full key. */
  method Get(credential: Credential, settings: WalletSettings, backend: Backend) returns (result: Credential)
    ensures result == Got(backend.folders, backend.faults, credential, settings)
  {
    if backend.FolderDoesNotExist(settings.wallet, settings.folder) {
      return Empty;
    }
    var cred := credential;
    if cred.username == [] {
      var key := ComposeKeyName(cred);
      var username := GetPassword(key, settings, backend);
      if username == [] {
        return Empty;
      }
      cred := cred.(username := username);
    }
    var key := ComposeKeyName(cred);
    var password := GetPassword(key, settings, backend);
    cred := cred.(password := password);
    return cred;
  }

  /** store: opens the wallet, creates the folder if needed, selects it, and
      with both username and password given writes discovery key -> username
      and full key -> password, the second whatever became of the first. */
  method Store(credential: Credential, settings: WalletSettings, backend: Backend)
    modifies backend
    ensures backend.folders == Stored(old(backend.folders), backend.faults, credential, settings)
  {
    var wallet := backend.OpenWallet(settings.wallet);
    if wallet == null {
      return;
    }
    var hasFolder := wallet.HasFolder(settings.folder);
    if !hasFolder {
      var created := wallet.CreateFolder(settings.folder);
      if !created {
        return;
      }
    }
    var selected := wallet.SetFolder(settings.folder);
    if !selected {
      return;
    }
    if credential.username == [] {
      return;
    }
    if credential.password == [] {
      return;
    }
    var key := ComposeKeyNameNoUsername(credential);
    var rc := wallet.WritePassword(key, credential.username);
    var keyName := ComposeKeyName(credential);
    rc := wallet.WritePassword(keyName, credential.password);
  }

  /** erase: with the folder present, the username known and the full key
      stored, deletes the full key and then the discovery key, the second
      whatever became of the first. */
  method Erase(credential: Credential, settings: WalletSettings, backend: Backend)
    modifies backend
    ensures backend.folders == Erased(old(backend.folders), backend.faults, credential, settings)
  {
    if backend.FolderDoesNotExist(settings.wallet, settings.folder) {
      return;
    }
    var cred := credential;
    if cred.username == [] {
      var key := ComposeKeyName(cred);
      var username := GetPassword(key, settings, backend);
      if username == [] {
        return;
      }
      cred := cred.(username := username);
    }
    var keyName := ComposeKeyName(cred);
    if backend.KeyDoesNotExist(settings.wallet, settings.folder, keyName) {
      return;
    }
    var wallet := backend.OpenWallet(settings.wallet);
    if wallet == null {
      return;
    }
    var selected := wallet.SetFolder(settings.folder);
    if !selected {
      return;
    }
    var rc := wallet.RemoveEntry(keyName);
    var key := ComposeKeyNameNoUsername(cred);
    rc := wallet.RemoveEntry(key);
  }
}
