/**
 * A Bitwarden export item, as the importer receives it after the JSON
 * export has been decoded: a dictionary with `name`, an optional `login`,
 * optional `notes` and a list of custom `fields`.
 */
module Bitwarden {
  import opened Options

  /** One element of `login.uris`: a dictionary `{'uri': ...}`. */
  datatype LoginUri = LoginUri(uri: string)

  /** The `login` dictionary of an item. */
  datatype Login = Login(username: string, password: string, uris: seq<LoginUri>)

  /**
   * One element of `fields`. `kind` is the integer `type` key of the export;
   * a field without a `type` key has kind 0, and kind 1 marks a hidden field.
   */
  datatype Field = Field(name: string, value: string, kind: nat)

  /** A whole export item. `name` is the title the item is matched by. */
  datatype Item = Item(name: string, login: Option<Login>, notes: Option<string>, fields: seq<Field>)

  /** Bitwarden's field type 1 is "hidden"; it is stored as a protected property. */
  predicate IsHidden(f: Field) {
    f.kind == 1
  }
}
