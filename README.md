# bitwarden2keepass: reconciling one Bitwarden item into a KeePass group

This project models `update_or_create_entry(kp, group, item)` of
bitwarden2keepass, the step that copies one Bitwarden export item into a
KeePass group. The function looks up the entry whose title is `item.name`
in the group, taking the first match. If there is none, it creates a new
entry there. Otherwise it overwrites that entry in place. Either way the
entry ends up with the item's username, password, first URI, notes and
custom fields. A hidden field (`'type': 1`) is stored too, and its value
reads back like any other.

The implementation file `bitwarden2keepass/convert.py` is not part of this
model. The behaviour modelled is what its tests, `tests/test_convert.py`,
pin down. Where the tests are silent, the model makes the assumptions
listed below.

Modules:

- `Options` (`options.dfy`): `Option`, for Python's `None`.
- `Bitwarden` (`bitwarden.dfy`): the decoded export item (`Item`, `Login`,
  `LoginUri`, `Field`).
- `KeePass` (`keepass.dfy`): the part of a pykeepass database the
  conversion touches. An `Entry` value holds `title`, `username`,
  `password`, `url`, `notes` and a map of custom properties (value and
  protected flag). A `Group` class holds a mutable sequence of entries.
  The module also has the first-match lookup (`FindFirst`,
  `Group.FindEntry`), `Group.AddEntry` and `GetCustomProperty`.
- `Convert` (`convert.dfy`): the conversion itself. It has the attribute
  mapping, the custom-field loop (`ApplyFields`, specified by
  `FieldsApplied`), the specification of the whole step (`Reconciled`,
  `NewEntry`, `Reconcile`, `Reflects`), the method
  `UpdateOrCreateEntry(group, item)`, which changes `group`, and the
  lemmas about them.
- `ConvertTests` (`convert_tests.dfy`): the two tests as client methods.
  Their postconditions are the tests' assertions, proved from the
  contracts alone.

Assumptions, where the tests say nothing (these are modelling choices,
not properties the source is known to have):

- An item without a login gets an empty username, password and URL. An
  empty `uris` list gives an empty URL. Absent notes give empty notes.
- A field is stored with the protected flag set exactly when its `type`
  is 1. No property here claims the flag is checked. The tests only read
  the values back.
- Fields are applied in order, so a later field with a repeated name
  overwrites an earlier one. "Reads back its value" is therefore stated
  for the last field of each name. When the names are all distinct, as in
  the tests, it holds for every field.
- On the update path, the entry keeps its title and keeps the custom
  properties that the item does not name.
- A created entry is added after the group's existing entries.

## Model

| member | source | states |
|---|---|---|
| `KeePass.CustomPropertySetGet` | tests/test_convert.py:40-41 | after a property is set, `get_custom_property` on that key gives the value just stored, whether it was stored protected or not, and every other key reads back as before |
| `KeePass.FindFirst` | tests/test_convert.py:34 | the result is the LEAST position whose entry has exactly that title; None only when no entry has it |
| `KeePass.FindFirstAppend` | tests/test_convert.py:32-34 | appending an entry keeps any earlier first match; with no earlier match, the appended entry is found exactly when its title matches |
| `KeePass.FindFirstTitlesOnly` | tests/test_convert.py:59-62 | two entry lists with the same titles at every position give the same lookup answer, so rewriting an entry's other attributes cannot move the match |
| `KeePass.Group.constructor` | tests/test_convert.py:32 | `kp.add_group(...)` gives a group with the given name and no entries |
| `KeePass.Group.FindEntry` | tests/test_convert.py:34 | `find_entries(title, group, first=True)` returns the FIRST entry of the group with exactly that title (no earlier entry has it), and returns None exactly when no entry of the group has that title |
| `KeePass.Group.AddEntry` | tests/test_convert.py:59-60 | `kp.add_entry(...)` appends one entry with the given title, username, password and URL, no notes and no custom properties, and leaves the rest of the group as it was |
| `Convert.ApplyFields` | tests/test_convert.py:27-30 | setting the custom properties field by field, in source order, yields exactly the specified property map |
| `Convert.FieldsAppliedReadBack` | tests/test_convert.py:40-41 | after the fields are applied, the name of each field is present and reads back that field's value and flag, provided no later field reuses the name; this holds for hidden and plain fields alike |
| `Convert.FieldsAppliedUntouched` | tests/test_convert.py:43-69 | a custom property that no field names is exactly as it was after the fields are applied, whether present or absent |
| `Convert.FieldsAppliedKeys` | tests/test_convert.py:27-30 | applying fields never removes a property; the property names afterwards are the old ones plus the field names |
| `Convert.ReconciledReflects` | tests/test_convert.py:61-69 | whatever an entry held before, after the item is written into it the entry has the item's username, password, first URI and notes, and every field reads back its value; properties the item does not name are kept |
| `Convert.ReconcileCreates` | tests/test_convert.py:17-41 | in a group with no entry of that title: exactly one entry is added after the others, the first-match lookup finds it, it reflects the item, and its properties are exactly the field names |
| `Convert.ReconcileUpdates` | tests/test_convert.py:43-69 | when the first match is at position i, only entry i changes and the group keeps its size; the lookup still finds i; entry i reflects the item, so the old password is replaced by the item's; its other properties are kept |
| `Convert.ReconcileFinds` | tests/test_convert.py:33-35 | on both paths, a first-match lookup by the item's name afterwards finds an entry, and that entry reflects the item |
| `Convert.DistinctFieldsReadBack` | tests/test_convert.py:27-30 | when the field names are distinct, every field, hidden or plain, reads back by name as its own value |
| `Convert.UpdateOrCreateEntry` | tests/test_convert.py:33 | the group's entries become the specified reconciliation of the old ones with the item; the lookup by the item's name then returns the entry it produced, that entry reflects the item, and the group's name is unchanged |
| `ConvertTests.TestItemReadBack` | tests/test_convert.py:40-41 | for the tests' item, an entry that reflects it reads back "Custom Value 1" and "Custom Value 2" for the two field names |
| `ConvertTests.CreateNewEntryScenario` | tests/test_convert.py:17-41 | after reconciling into a new, empty group, the lookup finds an entry with the asserted username, password, URL, notes and both custom values |
| `ConvertTests.UpdateExistingEntryScenario` | tests/test_convert.py:43-69 | with "Test Entry" already present with password "oldpassword", after reconciling, the lookup finds it with password "testpassword" and the other asserted attributes |

## Left out

- Database creation, the master password, encryption and KDBX file handling (`create_database`, `kp.save()`): this is I/O inside pykeepass. The `kp` argument of `update_or_create_entry` is dropped, because the model needs only the group.
- The pytest fixture and the temporary directory: these are test plumbing.
- The error for an item with a missing or empty `name`, and the error for a group outside an open database: the tests never raise them and the implementation is not part of this model. `UpdateOrCreateEntry` accepts any name.
- URIs after the first: they are not mapped, and the model does not say whether they are kept anywhere else.
- Handling of a partially shaped `login`. The model's `Login` always has a username, a password and a list of URIs.
- Whether KeePass honours the protected flag: the flag is set from `type == 1` by assumption, and whether KeePass honours it is not claimed.
- Fields whose names are reserved KeePass keys (`Title`, `UserName`, `Password`, `URL`, `Notes`, `Tags`, `otp` and the like). pykeepass keeps custom properties among the same string keys as the standard attributes and refuses a reserved name. Here custom properties are a separate map, so such a field is not modelled as an error.
- Entries in subgroups. pykeepass's `find_entries` can also search subgroups. The tests' groups have none, and a `Group` here holds only entries.
- Entry identity and aliasing. An entry is a value in the group's sequence, and the update path replaces the matched element. A Python reference to the entry taken before the call is not modelled.
- Uniqueness of titles and idempotence of repeated calls: the tests only look up the first match, so nothing is claimed about a second entry of the same title.
- `KeePass.Group.AddEntry`: pykeepass refuses to add an entry whose title and username already exist in the group, unless creation is forced. This is not modelled. The tests call it only on an empty group.
