/**
 * The two conversion tests, as client code of the model: what a caller can
 * conclude from the contracts of `UpdateOrCreateEntry` and the group alone.
 */
module ConvertTests {
  import opened Options
  import opened Bitwarden
  import opened KeePass
  import opened Convert

  /** The item both tests reconcile. */
  function TestItem(): Item {
    Item(
      "Test Entry",
      Some(Login("testuser", "testpassword", [LoginUri("https://example.com")])),
      Some("Test notes"),
      [Field("Custom Field 1", "Custom Value 1", 0),
       Field("Custom Field 2", "Custom Value 2", 1)])
  }

  /** What both tests assert of the entry found afterwards. */
  predicate AssertedByTests(found: Option<Entry>) {
    && found.Some?
    && found.value.username == "testuser"
    && found.value.password == "testpassword"
    && found.value.url == "https://example.com"
    && found.value.notes == "Test notes"
    && GetCustomProperty(found.value, "Custom Field 1") == Some("Custom Value 1")
    && GetCustomProperty(found.value, "Custom Field 2") == Some("Custom Value 2")
  }

  /** Both test assertions on custom properties follow from `Reflects`. */
  lemma TestItemReadBack(e: Entry)
    requires Reflects(e, TestItem())
    ensures GetCustomProperty(e, "Custom Field 1") == Some("Custom Value 1")
    ensures GetCustomProperty(e, "Custom Field 2") == Some("Custom Value 2")
  {
    var fields := TestItem().fields;
    assert LastOfName(fields, 0) && LastOfName(fields, 1);
  }

  /** `test_create_new_entry`: reconcile into a new, empty group. */
  method CreateNewEntryScenario() returns (found: Option<Entry>)
    ensures AssertedByTests(found)
  {
    var group := new Group("Test Group");
    var _ := UpdateOrCreateEntry(group, TestItem());
    found := group.FindEntry("Test Entry");
    TestItemReadBack(found.value);
  }

  /**
   * `test_update_existing_entry`: the group already holds "Test Entry" with
   * password "oldpassword"; afterwards the lookup finds it with the new one.
   */
  method UpdateExistingEntryScenario() returns (found: Option<Entry>)
    ensures AssertedByTests(found)
  {
    var group := new Group("Test Group");
    var _ := group.AddEntry("Test Entry", "testuser", "oldpassword", "https://example.com");
    var _ := UpdateOrCreateEntry(group, TestItem());
    found := group.FindEntry("Test Entry");
    TestItemReadBack(found.value);
  }
}
