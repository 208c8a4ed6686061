/** An abstract stand-in for the KWallet service the helper talks to: named
    wallets holding folders of key/secret entries, and a record of which of
    its calls fail. `Backend` is the service with its static queries and
    `openWallet`; `Handle` is an opened wallet with a current folder. */
module Wallet {
  import opened Credentials

  datatype Option<T> = None | Some(value: T)

  /** Where a secret lives: a key in the folder of a wallet. */
  datatype Entry = Entry(at: WalletSettings, key: string)

  /** Every existing folder, named by wallet and folder, with its entries. */
  type Folders = map<WalletSettings, map<string, string>>

  /** The calls the service refuses: opening these wallets, selecting or
      creating these folders, reading, writing or removing these entries. */
  datatype Faults = Faults(
    locked: set<string>,
    unselectable: set<WalletSettings>,
    uncreatable: set<WalletSettings>,
    unreadable: set<Entry>,
    unwritable: set<Entry>,
    unremovable: set<Entry>)

  /** The entries of a folder, none when it does not exist. */
  function EntriesOf(st: Folders, at: WalletSettings): map<string, string> {
    if at in st then st[at] else map[]
  }

  /** The folders after `writePassword(key, value)` in folder `at`: the entry
      is set when the folder exists and the entry accepts writes. */
  function Written(st: Folders, faults: Faults, at: WalletSettings, key: string, value: string): Folders {
    if at in st && Entry(at, key) !in faults.unwritable then st[at := st[at][key := value]] else st
  }

  /** The folders after `removeEntry(key)` in folder `at`: the entry is gone
      unless it refuses removal (removing a missing key changes nothing). */
  function Removed(st: Folders, faults: Faults, at: WalletSettings, key: string): Folders {
    if at in st && Entry(at, key) !in faults.unremovable then st[at := st[at] - {key}] else st
  }

  class Backend {
    var folders: Folders
    const faults: Faults

    constructor (folders: Folders, faults: Faults)
      ensures this.folders == folders && this.faults == faults
    {
      this.folders := folders;
      this.faults := faults;
    }

    /** Wallet::folderDoesNotExist. */
    predicate FolderDoesNotExist(wallet: string, folder: string)
      reads this
    {
      WalletSettings(wallet, folder) !in folders
    }

    /** Wallet::keyDoesNotExist. */
    predicate KeyDoesNotExist(wallet: string, folder: string, key: string)
      reads this
    {
      key !in EntriesOf(folders, WalletSettings(wallet, folder))
    }

    /** Wallet::openWallet: a fresh handle on the wallet, with no folder
        selected, or null when the wallet cannot be opened. */
    method OpenWallet(name: string) returns (wallet: Handle?)
      ensures wallet == null <==> name in faults.locked
      ensures wallet != null ==> fresh(wallet) && wallet.backend == this && wallet.name == name && wallet.current == None
    {
      if name in faults.locked {
        wallet := null;
      } else {
        wallet := new Handle(this, name);
      }
    }
  }

  class Handle {
    const backend: Backend
    const name: string
    var current: Option<string>

    constructor (backend: Backend, name: string)
      ensures this.backend == backend && this.name == name && current == None
    {
      this.backend := backend;
      this.name := name;
      current := None;
    }

    /** The folder `folder` of this wallet. */
    function At(folder: string): WalletSettings {
      WalletSettings(name, folder)
    }

    /** hasFolder. */
    method HasFolder(folder: string) returns (b: bool)
      ensures b <==> At(folder) in backend.folders
    {
      b := At(folder) in backend.folders;
    }

    /** createFolder: succeeds at once for an existing folder, otherwise adds
        an empty one unless the folder refuses creation. */
    method CreateFolder(folder: string) returns (ok: bool)
      modifies backend
      ensures ok <==> At(folder) in old(backend.folders) || At(folder) !in backend.faults.uncreatable
      ensures backend.folders ==
        if At(folder) in old(backend.folders) || !ok then old(backend.folders)
        else old(backend.folders)[At(folder) := map[]]
    {
      if At(folder) in backend.folders {
        ok := true;
      } else if At(folder) in backend.faults.uncreatable {
        ok := false;
      } else {
        backend.folders := backend.folders[At(folder) := map[]];
        ok := true;
      }
    }

    /** setFolder: selects an existing folder unless it refuses selection. */
    method SetFolder(folder: string) returns (ok: bool)
      modifies this
      ensures ok <==> At(folder) in backend.folders && At(folder) !in backend.faults.unselectable
      ensures current == if ok then Some(folder) else old(current)
    {
      ok := At(folder) in backend.folders && At(folder) !in backend.faults.unselectable;
      if ok {
        current := Some(folder);
      }
    }

    /** readPassword: 0 and the secret of `key` in the current folder, or a
        non-zero code when no folder is selected or the entry is missing or
        unreadable. */
    method ReadPassword(key: string) returns (rc: int, value: string)
      ensures rc == 0 <==> (current.Some? && key in EntriesOf(backend.folders, At(current.value))
              && Entry(At(current.value), key) !in backend.faults.unreadable)
      ensures rc == 0 ==> value == EntriesOf(backend.folders, At(current.value))[key]
    {
      if current.Some? && key in EntriesOf(backend.folders, At(current.value))
         && Entry(At(current.value), key) !in backend.faults.unreadable {
        rc, value := 0, EntriesOf(backend.folders, At(current.value))[key];
      } else {
        rc, value := -1, [];
      }
    }

    /** writePassword: stores `value` under `key` in the current folder. */
    method WritePassword(key: string, value: string) returns (rc: int)
      modifies backend
      ensures rc == 0 <==> (current.Some? && At(current.value) in old(backend.folders)
              && Entry(At(current.value), key) !in backend.faults.unwritable)
      ensures backend.folders ==
        if current.Some? then Written(old(backend.folders), backend.faults, At(current.value), key, value)
        else old(backend.folders)
    {
      if current.Some? && At(current.value) in backend.folders
         && Entry(At(current.value), key) !in backend.faults.unwritable {
        backend.folders := Written(backend.folders, backend.faults, At(current.value), key, value);
        rc := 0;
      } else {
        rc := -1;
      }
    }

    /** removeEntry: deletes `key` from the current folder. */
    method RemoveEntry(key: string) returns (rc: int)
      modifies backend
      ensures rc == 0 <==> (current.Some? && At(current.value) in old(backend.folders)
              && Entry(At(current.value), key) !in backend.faults.unremovable)
      ensures backend.folders ==
        if current.Some? then Removed(old(backend.folders), backend.faults, At(current.value), key)
        else old(backend.folders)
    {
      if current.Some? && At(current.value) in backend.folders
         && Entry(At(current.value), key) !in backend.faults.unremovable {
        backend.folders := Removed(backend.folders, backend.faults, At(current.value), key);
        rc := 0;
      } else {
        rc := -1;
      }
    }
  }
}
