/** Concrete runs of the status table on example reports. */
module Scenarios {
  import opened Wrappers
  import opened Monitor
  import SplitWhitespace
  import ParseUsize

  /**
   * From the empty table, "server 3" (Active) makes the server column three
   * long with only slot 3 active; then "server 2" (Active) keeps the length
   * and activates slot 2 as well.
   */
  lemma ServerScenario()
    ensures UpdateState(New(), InterfaceState("server 3", "server", "Active")).serverStates
      == [Inactive, Inactive, Active]
    ensures UpdateState(UpdateState(New(), InterfaceState("server 3", "server", "Active")),
                        InterfaceState("server 2", "server", "Active")).serverStates
      == [Inactive, Active, Active]
  {
    assert SplitWhitespace.BackOverWord("server 3", 8) == 7 by {
      assert "server 3"[6] == ' ';
    }
    assert "server 3"[7..8] == "3";
    assert SplitWhitespace.LastToken("server 3") == Some("3");
    assert SplitWhitespace.BackOverWord("server 2", 8) == 7 by {
      assert "server 2"[6] == ' ';
    }
    assert "server 2"[7..8] == "2";
    assert SplitWhitespace.LastToken("server 2") == Some("2");
    assert ParseUsize.Parse("3") == Some(3);
    assert ParseUsize.Parse("2") == Some(2);
    var a1 := UpdateState(New(), InterfaceState("server 3", "server", "Active"));
    assert a1.serverStates == [Inactive, Inactive, Active];
  }

  /** "publisher abc" has a non-numeric last token: the table stays empty. */
  lemma NonNumericScenario()
    ensures UpdateState(New(), InterfaceState("publisher abc", "publisher", "Active")) == New()
  {
    assert SplitWhitespace.BackOverWord("publisher abc", 13) == 10 by {
      assert "publisher abc"[9] == ' ';
    }
    assert "publisher abc"[10..13] == "abc";
    assert SplitWhitespace.LastToken("publisher abc") == Some("abc");
    assert ParseUsize.Parse("abc") == None;
  }

  /** A state string in another case is not `Active`. */
  lemma CaseVariantScenario()
    ensures UpdateState(New(), InterfaceState("subscriber 1", "subscriber", "active")).subscriberStates
      == [Inactive]
  {
    assert SplitWhitespace.BackOverWord("subscriber 1", 12) == 11 by {
      assert "subscriber 1"[10] == ' ';
    }
    assert "subscriber 1"[11..12] == "1";
    assert SplitWhitespace.LastToken("subscriber 1") == Some("1");
    assert ParseUsize.Parse("1") == Some(1);
  }
}
