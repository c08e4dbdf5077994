/** Concrete hashes, blocks and URLs with the results the router gives them. */
module Examples {
  import opened Wrappers
  import opened Strings
  import opened Options
  import opened Router
  import opened RoundTrip

  function ThreeOptions(): seq<Entry> {
    [("k1", Str("v1")), ("k2", True), ("k3", Str("v3"))]
  }

  lemma ThreeOptionsBlock()
    ensures Join(Renders(ThreeOptions()), ',') == "k1=v1,k2,k3=v3"
    ensures WellFormedEntries(ThreeOptions())
  {
    var entries := ThreeOptions();
    assert Render(entries[0]) == "k1=v1";
    assert Render(entries[1]) == "k2";
    assert Render(entries[2]) == "k3=v3";
    assert Renders(entries) == ["k1=v1", "k2", "k3=v3"];
    assert WellFormedEntry(entries[0]) && WellFormedEntry(entries[1]) && WellFormedEntry(entries[2]);
  }

  lemma ThreeOptionsTable()
    ensures MapOf(ThreeOptions()) == map["k1" := Str("v1"), "k2" := True, "k3" := Str("v3")]
  {
    var entries := ThreeOptions();
    MapOfAppend([], entries[0]);
    MapOfAppend([entries[0]], entries[1]);
    MapOfAppend([entries[0], entries[1]], entries[2]);
    assert [] + [entries[0]] == [entries[0]];
    assert [entries[0]] + [entries[1]] == [entries[0], entries[1]];
    assert [entries[0], entries[1]] + [entries[2]] == entries;
  }

  lemma ThreeOptionsParsed()
    ensures ParseOptions(Some("k1=v1,k2,k3=v3")) == map["k1" := Str("v1"), "k2" := True, "k3" := Str("v3")]
  {
    ThreeOptionsBlock();
    EntriesOfSerialized(ThreeOptions());
    ThreeOptionsTable();
  }

  /** Lookups in the block `k1=v1,k2,k3=v3`. */
  lemma OptionLookups()
    ensures var h := NewHashObject("", Some("k1=v1,k2,k3=v3"));
      && Get(h, "k1") == Some(Str("v1"))
      && Get(h, "k2") == Some(True) && Is(h, "k2")
      && Get(h, "missing") == None && !Is(h, "missing")
  {
    var h := NewHashObject("", Some("k1=v1,k2,k3=v3"));
    ThreeOptionsParsed();
    ThreeOptionsLookups(h);
  }

  lemma ThreeOptionsLookups(h: HashObject)
    requires h.opts == map["k1" := Str("v1"), "k2" := True, "k3" := Str("v3")]
    ensures Get(h, "k1") == Some(Str("v1"))
    ensures Get(h, "k2") == Some(True) && Is(h, "k2")
    ensures Get(h, "missing") == None && !Is(h, "missing")
  {
  }

  lemma SecondEqualsPieces()
    ensures Split("a=b=c", ',') == ["a=b=c"]
    ensures Split("a=b=c", '=') == ["a", "b", "c"]
  {
    var f := "a=b=c";
    SplitJoin([f], ',');
    SecondEqualsJoin();
    SplitJoin(["a", "b", "c"], '=');
  }

  lemma SecondEqualsJoin()
    ensures Join(["a", "b", "c"], '=') == "a=b=c"
  {
  }

  /** A second `=` cuts the value short. */
  lemma SecondEqualsDropsRest()
    ensures ParseOptions(Some("a=b=c")) == map["a" := Str("b")]
  {
    var f := "a=b=c";
    SecondEqualsPieces();
    var es := ParseEntries(f);
    assert es == [("a", Str("b"))];
    MapOfAppend([], es[0]);
    assert [] + [es[0]] == es;
  }

  function TwoOptions(): seq<Entry> {
    [("a", Str("1")), ("b", True)]
  }

  lemma TwoOptionsSerialized()
    ensures WellFormedEntries(TwoOptions())
    ensures Serialize(TwoOptions()) == "[a=1,b]"
  {
    var entries := TwoOptions();
    assert WellFormedEntry(entries[0]) && WellFormedEntry(entries[1]);
    assert Render(entries[0]) == "a=1";
    assert Render(entries[1]) == "b";
    assert Renders(entries) == ["a=1", "b"];
  }

  lemma TwoOptionsTable()
    ensures MapOf(TwoOptions()) == map["a" := Str("1"), "b" := True]
  {
    var entries := TwoOptions();
    MapOfAppend([], entries[0]);
    MapOfAppend([entries[0]], entries[1]);
    assert [] + [entries[0]] == [entries[0]];
    assert [entries[0]] + [entries[1]] == entries;
  }

  lemma ParseWithOptions()
    ensures Parse("#foo[a=1,b]") == HashObject("foo", map["a" := Str("1"), "b" := True])
  {
    var hash := "#foo[a=1,b]";
    TwoOptionsSerialized();
    assert "#" + "foo" + "[a=1,b]" == hash;
    ParseSerialize("foo", TwoOptions());
    TwoOptionsTable();
  }

  /** A slug with no block still carries the empty key set to `true`. */
  lemma ParseSlugOnly()
    ensures Parse("#foo") == HashObject("foo", map["" := True])
  {
    NavigateRoundTrip("", "foo", None);
  }

  lemma ParseGarbage()
    ensures Parse("garbage-no-hash-hash") == HashObject("", map["" := True])
  {
    ParseWithoutHash("garbage-no-hash-hash");
  }

  lemma SerializeMixed()
    ensures Serialize([("a", True), ("b", Str("2"))]) == "[a,b=2]"
  {
  }

  lemma NavigateWithData()
    ensures Navigate("http://x/", Some([("a", True)])) == "http://x/[a]"
    ensures Navigate("http://x/", None) == "http://x/"
  {
  }

  /** The options end at the last `]` before a line break: `.` does not
      cross line terminators. */
  lemma ParseStopsAtLineEnd()
    ensures Parse("#s[a]]\nb]") == HashObject("s", map["a]" := True])
  {
    var hash := "#s[a]]\nb]";
    LineEndCaptures();
    ParseIsMatch(hash, "s", Some("a]"));
    BareKeyBlock("a]");
  }

  lemma LineEndCaptures()
    ensures Match("#s[a]]\nb]", "s", Some("a]"))
  {
    var hash := "#s[a]]\nb]";
    var after := hash[2..];
    assert after[..4] == "[a]]";
    assert NoCloseOnLine(after[4..]) by {
      assert after[4..] == "\nb]";
      assert IsLineTerminator(after[4..][0]);
    }
    assert MatchAt(hash[1..], "s", Some("a]"));
  }
}
