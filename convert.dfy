/**
 * `update_or_create_entry(kp, group, item)`: reconcile one Bitwarden item
 * into one KeePass group. The entry titled `item.name` is looked up in the
 * group (first match); if there is none a new entry is added, otherwise the
 * one found is overwritten in place. Either way it ends up with the item's
 * username, password, first URI, notes and custom fields.
 */
module Convert {
  import opened Options
  import opened Bitwarden
  import opened KeePass

  // ---------------------------------------------------------------------
  // The attribute mapping from an item to an entry
  // ---------------------------------------------------------------------

  /** `login.username`, or "" for an item without a login. */
  function UsernameOf(item: Item): string {
    if item.login.Some? then item.login.value.username else ""
  }

  /** `login.password`, or "" for an item without a login. */
  function PasswordOf(item: Item): string {
    if item.login.Some? then item.login.value.password else ""
  }

  /** `login.uris[0].uri`; the later URIs are not mapped. */
  function UrlOf(item: Item): string {
    if item.login.Some? && |item.login.value.uris| > 0 then item.login.value.uris[0].uri else ""
  }

  /** `notes`, or "" when the item has none. */
  function NotesOf(item: Item): string {
    if item.notes.Some? then item.notes.value else ""
  }

  /** What one field is stored as: its value, protected when it is hidden. */
  function StoredOf(f: Field): Stored {
    Stored(f.value, IsHidden(f))
  }

  // ---------------------------------------------------------------------
  // Custom fields
  // ---------------------------------------------------------------------

  /**
   * The custom properties after `set_custom_property` has been applied for
   * each field in order, starting from `custom`: a later field of the same
   * name overwrites an earlier one, other properties are left alone.
   */
  function FieldsApplied(custom: map<string, Stored>, fields: seq<Field>): map<string, Stored>
  {
    if |fields| == 0 then custom
    else
      var last := fields[|fields| - 1];
      FieldsApplied(custom, fields[..|fields| - 1])[last.name := StoredOf(last)]
  }

  /** No field after position `i` has the same name as field `i`. */
  predicate LastOfName(fields: seq<Field>, i: nat)
    requires i < |fields|
  {
    forall j :: i < j < |fields| ==> fields[j].name != fields[i].name
  }

  /** The names of the fields. */
  function FieldNames(fields: seq<Field>): set<string> {
    set i | 0 <= i < |fields| :: fields[i].name
  }

  /** The custom properties are set one field at a time, in source order. */
  method ApplyFields(custom: map<string, Stored>, fields: seq<Field>) returns (m: map<string, Stored>)
    ensures m == FieldsApplied(custom, fields)
  {
    m := custom;
    for i := 0 to |fields|
      invariant m == FieldsApplied(custom, fields[..i])
    {
      assert fields[..i + 1][..i] == fields[..i];
      m := m[fields[i].name := StoredOf(fields[i])];
    }
    assert fields[..|fields|] == fields;
  }

  /** Each field read back by its name gives the value of the last field of that name. */
  lemma {:induction false} FieldsAppliedReadBack(custom: map<string, Stored>, fields: seq<Field>, i: nat)
    requires i < |fields| && LastOfName(fields, i)
    ensures fields[i].name in FieldsApplied(custom, fields)
    ensures FieldsApplied(custom, fields)[fields[i].name] == StoredOf(fields[i])
  {
    if i < |fields| - 1 {
      var init := fields[..|fields| - 1];
      assert LastOfName(init, i) by {
        forall j | i < j < |init| ensures init[j].name != init[i].name {
          assert init[j] == fields[j];
        }
      }
      FieldsAppliedReadBack(custom, init, i);
      assert fields[|fields| - 1].name != fields[i].name;
    }
  }

  /** A property that no field names is exactly as it was, present or absent. */
  lemma {:induction false} FieldsAppliedUntouched(custom: map<string, Stored>, fields: seq<Field>, key: string)
    requires key !in FieldNames(fields)
    ensures key in FieldsApplied(custom, fields) <==> key in custom
    ensures key in custom ==> FieldsApplied(custom, fields)[key] == custom[key]
  {
    if |fields| > 0 {
      var init := fields[..|fields| - 1];
      assert FieldNames(init) <= FieldNames(fields) by {
        forall k | k in FieldNames(init) ensures k in FieldNames(fields) {
          var j :| 0 <= j < |init| && init[j].name == k;
          assert fields[j] == init[j];
        }
      }
      assert fields[|fields| - 1].name in FieldNames(fields);
      FieldsAppliedUntouched(custom, init, key);
    }
  }

  /** No property is ever removed; exactly the field names are added. */
  lemma {:induction false} FieldsAppliedKeys(custom: map<string, Stored>, fields: seq<Field>)
    ensures FieldsApplied(custom, fields).Keys == custom.Keys + FieldNames(fields)
  {
    if |fields| > 0 {
      var init := fields[..|fields| - 1];
      FieldsAppliedKeys(custom, init);
      assert FieldNames(fields) == FieldNames(init) + {fields[|fields| - 1].name} by {
        forall k | k in FieldNames(fields) ensures k in FieldNames(init) + {fields[|fields| - 1].name} {
          var j :| 0 <= j < |fields| && fields[j].name == k;
          if j < |init| { assert init[j] == fields[j]; }
        }
        forall k | k in FieldNames(init) ensures k in FieldNames(fields) {
          var j :| 0 <= j < |init| && init[j].name == k;
          assert fields[j] == init[j];
        }
      }
    }
  }

  // ---------------------------------------------------------------------
  // Reconciling one entry with one item
  // ---------------------------------------------------------------------

  /**
   * An entry reflects an item when it carries the item's title, username,
   * password, first URI and notes, and reading back the name of each field
   * (the last one, where a name repeats) gives that field's value.
   */
  ghost predicate Reflects(e: Entry, item: Item) {
    && e.title == item.name
    && e.username == UsernameOf(item)
    && e.password == PasswordOf(item)
    && e.url == UrlOf(item)
    && e.notes == NotesOf(item)
    && forall i :: 0 <= i < |item.fields| && LastOfName(item.fields, i) ==>
         GetCustomProperty(e, item.fields[i].name) == Some(item.fields[i].value)
  }

  /**
   * The entry `e` after the update path has written the item into it: the
   * title stays (it is the one that matched), the four standard attributes
   * are overwritten and the fields are set on top of the old properties.
   */
  function Reconciled(e: Entry, item: Item): Entry {
    e.(username := UsernameOf(item),
       password := PasswordOf(item),
       url := UrlOf(item),
       notes := NotesOf(item),
       custom := FieldsApplied(e.custom, item.fields))
  }

  /** The entry the create path adds: a fresh entry titled `item.name`, reconciled. */
  function NewEntry(item: Item): Entry {
    Reconciled(Entry(item.name, "", "", "", "", map[]), item)
  }

  /** The entries of a group after reconciling `item` into it. */
  function Reconcile(entries: seq<Entry>, item: Item): seq<Entry> {
    match FindFirst(entries, item.name)
    case None => entries + [NewEntry(item)]
    case Some(i) => entries[i := Reconciled(entries[i], item)]
  }

  /**
   * Whatever the entry held before, once the item is written into it, it
   * reflects the item; custom properties the item does not name are kept.
   */
  lemma ReconciledReflects(e: Entry, item: Item)
    requires e.title == item.name
    ensures Reflects(Reconciled(e, item), item)
    ensures forall key :: key in e.custom && key !in FieldNames(item.fields) ==>
              key in Reconciled(e, item).custom && Reconciled(e, item).custom[key] == e.custom[key]
  {
    forall i | 0 <= i < |item.fields| && LastOfName(item.fields, i)
      ensures GetCustomProperty(Reconciled(e, item), item.fields[i].name) == Some(item.fields[i].value)
    {
      FieldsAppliedReadBack(e.custom, item.fields, i);
    }
    forall key | key in e.custom && key !in FieldNames(item.fields)
      ensures key in Reconciled(e, item).custom && Reconciled(e, item).custom[key] == e.custom[key]
    {
      FieldsAppliedUntouched(e.custom, item.fields, key);
    }
  }

  /**
   * Create path: in a group with no entry titled `item.name`, reconciling
   * adds exactly one entry after the existing ones, and the first-match
   * lookup then finds it, reflecting the item.
   */
  lemma ReconcileCreates(entries: seq<Entry>, item: Item)
    requires FindFirst(entries, item.name).None?
    ensures |Reconcile(entries, item)| == |entries| + 1
    ensures Reconcile(entries, item)[..|entries|] == entries
    ensures FindFirst(Reconcile(entries, item), item.name) == Some(|entries|)
    ensures Reflects(Reconcile(entries, item)[|entries|], item)
    ensures Reconcile(entries, item)[|entries|].custom.Keys == FieldNames(item.fields)
  {
    FindFirstAppend(entries, NewEntry(item), item.name);
    ReconciledReflects(Entry(item.name, "", "", "", "", map[]), item);
    FieldsAppliedKeys(map[], item.fields);
    assert (entries + [NewEntry(item)])[..|entries|] == entries;
  }

  /**
   * Update path: when the first entry titled `item.name` is at position `i`,
   * reconciling rewrites that entry in place and no other: the group keeps
   * its size, the lookup still finds position `i`, the entry reflects the
   * item (so an old password is replaced), and properties it had that the
   * item does not name are kept.
   */
  lemma ReconcileUpdates(entries: seq<Entry>, item: Item, i: nat)
    requires FindFirst(entries, item.name) == Some(i)
    ensures |Reconcile(entries, item)| == |entries|
    ensures forall j :: 0 <= j < |entries| && j != i ==> Reconcile(entries, item)[j] == entries[j]
    ensures FindFirst(Reconcile(entries, item), item.name) == Some(i)
    ensures Reflects(Reconcile(entries, item)[i], item)
    ensures Reconcile(entries, item)[i].password == PasswordOf(item)
    ensures forall key :: key in entries[i].custom && key !in FieldNames(item.fields) ==>
              key in Reconcile(entries, item)[i].custom &&
              Reconcile(entries, item)[i].custom[key] == entries[i].custom[key]
  {
    var r := Reconcile(entries, item);
    FindFirstTitlesOnly(entries, r, item.name);
    ReconciledReflects(entries[i], item);
  }

  /**
   * Either way, afterwards the first-match lookup by `item.name` finds an
   * entry, and that entry reflects the item.
   */
  lemma ReconcileFinds(entries: seq<Entry>, item: Item)
    ensures FindFirst(Reconcile(entries, item), item.name).Some?
    ensures Reflects(Reconcile(entries, item)[FindFirst(Reconcile(entries, item), item.name).value], item)
  {
    match FindFirst(entries, item.name)
    case None => ReconcileCreates(entries, item);
    case Some(i) => ReconcileUpdates(entries, item, i);
  }

  /**
   * When the item's field names are distinct, every field reads back by
   * name as its own value, hidden or not.
   */
  lemma DistinctFieldsReadBack(e: Entry, item: Item)
    requires Reflects(e, item)
    requires forall i, j :: 0 <= i < j < |item.fields| ==> item.fields[i].name != item.fields[j].name
    ensures forall i :: 0 <= i < |item.fields| ==>
              GetCustomProperty(e, item.fields[i].name) == Some(item.fields[i].value)
  {
    forall i | 0 <= i < |item.fields|
      ensures GetCustomProperty(e, item.fields[i].name) == Some(item.fields[i].value)
    {
      assert LastOfName(item.fields, i);
    }
  }

  // ---------------------------------------------------------------------
  // The operation
  // ---------------------------------------------------------------------

  /**
   * `update_or_create_entry(kp, group, item)`. Returns the entry that was
   * created or updated, now in the group.
   */
  method UpdateOrCreateEntry(group: Group, item: Item) returns (entry: Entry)
    modifies group
    ensures group.name == old(group.name)
    ensures group.entries == Reconcile(old(group.entries), item)
    ensures group.FindEntry(item.name) == Some(entry)
    ensures Reflects(entry, item)
  {
    var found := FindFirst(group.entries, item.name);
    match found {
      case None =>
        var custom := ApplyFields(map[], item.fields);
        entry := Entry(item.name, UsernameOf(item), PasswordOf(item), UrlOf(item), NotesOf(item), custom);
        ReconcileCreates(group.entries, item);
        group.entries := group.entries + [entry];
      case Some(i) =>
        var old_entry := group.entries[i];
        var custom := ApplyFields(old_entry.custom, item.fields);
        entry := old_entry.(username := UsernameOf(item),
                            password := PasswordOf(item),
                            url := UrlOf(item),
                            notes := NotesOf(item),
                            custom := custom);
        ReconcileUpdates(group.entries, item, i);
        group.entries := group.entries[i := entry];
    }
  }
}
