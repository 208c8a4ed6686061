/** The credential record exchanged with git, its field table, and the settings
    that name the wallet folder the helper works in. */
module Credentials {

  /** The four fields git sends and reads back. An empty string means the
      field was not given (or is not yet resolved). */
  datatype Credential = Credential(protocol: string, host: string, username: string, password: string)
  {
    /** The field that `f` names. */
    function Field(f: FieldId): string {
      match f
      case Protocol => protocol
      case Host => host
      case Username => username
      case Password => password
    }

    /** This credential with the field `f` set to `value` (the assignment through
        the member pointer found in the field table). */
    function WithField(f: FieldId, value: string): (c: Credential)
      ensures c.Field(f) == value
      ensures forall g :: g != f ==> c.Field(g) == Field(g)
    {
      match f
      case Protocol => this.(protocol := value)
      case Host => this.(host := value)
      case Username => this.(username := value)
      case Password => this.(password := value)
    }
  }

  /** The default-constructed credential: every field empty. */
  const Empty := Credential("", "", "", "")

  /** Which wallet to open and which folder inside it holds the entries. */
  datatype WalletSettings = WalletSettings(wallet: string, folder: string)

  /** The fields the line protocol knows by name. */
  datatype FieldId = Protocol | Host | Username | Password

  /** The field table: protocol name to field. */
  const FieldMapping: map<string, FieldId> :=
    map["protocol" := Protocol, "host" := Host, "username" := Username, "password" := Password]

  /** The protocol name of a field; the table maps it back to the field, and it
      holds no `=`, so a line `name=value` splits right after it. */
  function FieldName(f: FieldId): (name: string)
    ensures name in FieldMapping && FieldMapping[name] == f
    ensures name != [] && '=' !in name
  {
    match f
    case Protocol => "protocol"
    case Host => "host"
    case Username => "username"
    case Password => "password"
  }

  /** The table holds nothing but the four names: each key is its field's name. */
  lemma FieldMappingInverse(name: string)
    requires name in FieldMapping
    ensures FieldName(FieldMapping[name]) == name
  {
  }
}
