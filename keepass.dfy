/**
 * The part of a KeePass database (as seen through pykeepass) that the
 * conversion touches: a group holding an ordered list of entries, each
 * entry with its standard string attributes and its custom properties.
 */
module KeePass {
  import opened Options

  /**
   * A custom property's stored value: the string and whether it is kept in
   * KeePass's protected (hidden) mode.
   */
  datatype Stored = Stored(value: string, protected: bool)

  /** One KeePass entry. An unset attribute is the empty string. */
  datatype Entry = Entry(
    title: string,
    username: string,
    password: string,
    url: string,
    notes: string,
    custom: map<string, Stored>)

  /**
   * `entry.get_custom_property(key)`: the property's value, whatever its
   * protection mode, or None when the entry has no such property.
   */
  function GetCustomProperty(e: Entry, key: string): Option<string> {
    if key in e.custom then Some(e.custom[key].value) else None
  }

  /**
   * Setting a property and reading it back: the key just set gives the value
   * just stored, whichever protection flag it was stored with, and every
   * other key reads back as before.
   */
  lemma CustomPropertySetGet(e: Entry, key: string, value: string, protected: bool, other: string)
    ensures GetCustomProperty(e.(custom := e.custom[key := Stored(value, protected)]), other) ==
      if other == key then Some(value) else GetCustomProperty(e, other)
  {
  }

  /**
   * The position of the first entry titled `title`: the lookup
   * `find_entries(title=..., group=..., first=True)` performs.
   */
  function FindFirst(entries: seq<Entry>, title: string): (r: Option<nat>)
    ensures r.Some? ==> r.value < |entries| && entries[r.value].title == title
    ensures r.Some? ==> forall j :: 0 <= j < r.value ==> entries[j].title != title
    ensures r.None? ==> forall j :: 0 <= j < |entries| ==> entries[j].title != title
  {
    if |entries| == 0 then None
    else if entries[0].title == title then Some(0)
    else match FindFirst(entries[1..], title)
      case None => None
      case Some(j) => Some(j + 1)
  }

  /** Appending an entry leaves every earlier match where it was. */
  lemma {:induction false} FindFirstAppend(entries: seq<Entry>, e: Entry, title: string)
    ensures FindFirst(entries + [e], title) ==
      match FindFirst(entries, title)
      case Some(i) => Some(i)
      case None => if e.title == title then Some(|entries|) else None
  {
    if |entries| > 0 && entries[0].title != title {
      assert (entries + [e])[1..] == entries[1..] + [e];
      FindFirstAppend(entries[1..], e, title);
    }
  }

  /**
   * The lookup looks at titles only: two entry lists of the same length with
   * the same title at every position give the same answer, so rewriting an
   * entry's other attributes cannot move a match.
   */
  lemma {:induction false} FindFirstTitlesOnly(a: seq<Entry>, b: seq<Entry>, title: string)
    requires |a| == |b|
    requires forall j :: 0 <= j < |a| ==> a[j].title == b[j].title
    ensures FindFirst(a, title) == FindFirst(b, title)
  {
    if |a| > 0 && a[0].title != title {
      FindFirstTitlesOnly(a[1..], b[1..], title);
    }
  }

  /** A KeePass group (`kp.add_group(...)`): a name and its entries in order. */
  class Group {
    var name: string
    var entries: seq<Entry>

    /** A new, empty group. */
    constructor (name: string)
      ensures this.name == name && entries == []
    {
      this.name := name;
      entries := [];
    }

    /**
     * `kp.find_entries(title=title, group=this, first=True)`: the first
     * entry of this group with exactly that title, or None.
     */
    function FindEntry(title: string): (r: Option<Entry>)
      reads this
      ensures r.Some? ==> r.value.title == title && r.value in entries
      ensures r.Some? ==>
        exists i :: 0 <= i < |entries| && entries[i] == r.value &&
          forall j :: 0 <= j < i ==> entries[j].title != title
      ensures r.None? <==> forall e :: e in entries ==> e.title != title
    {
      match FindFirst(entries, title)
      case None => None
      case Some(i) => Some(entries[i])
    }

    /**
     * `kp.add_entry(group, title=..., username=..., password=..., url=...)`:
     * a new entry with those attributes, no notes and no custom properties,
     * placed after the group's existing entries.
     */
    method AddEntry(title: string, username: string, password: string, url: string) returns (entry: Entry)
      modifies this
      ensures name == old(name)
      ensures entry == Entry(title, username, password, url, "", map[])
      ensures entries == old(entries) + [entry]
    {
      entry := Entry(title, username, password, url, "", map[]);
      entries := entries + [entry];
    }
  }
}
