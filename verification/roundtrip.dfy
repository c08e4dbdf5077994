/** How serialising and parsing undo each other. The wire format has no
    escaping, so the round trips hold for keys and values that avoid the
    delimiters `,` and `=` and line terminators. */
module RoundTrip {
  import opened Wrappers
  import opened Strings
  import opened Options
  import opened Router

  /** An entry whose key and string value avoid the block's delimiters. */
  predicate DelimiterFree(e: Entry) {
    && ',' !in e.0 && '=' !in e.0
    && (e.1.Str? ==> ',' !in e.1.text && '=' !in e.1.text)
  }

  predicate DelimiterFreeEntries(entries: seq<Entry>) {
    forall i :: 0 <= i < |entries| ==> DelimiterFree(entries[i])
  }

  /** An entry that the block format can carry unchanged, also inside the
      single line a hash's bracket group may span. */
  predicate WellFormedEntry(e: Entry) {
    && DelimiterFree(e)
    && NoLineTerminator(e.0)
    && (e.1.Str? ==> NoLineTerminator(e.1.text))
  }

  predicate WellFormedEntries(entries: seq<Entry>) {
    forall i :: 0 <= i < |entries| ==> WellFormedEntry(entries[i])
  }

  /** A fragment with at most one `=`: nothing is dropped when it is parsed. */
  predicate AtMostOneEquals(f: string) {
    forall i, j :: 0 <= i < j < |f| && f[i] == '=' ==> f[j] != '='
  }

  /** Parsing a rendered entry gives the entry back. */
  lemma RenderInverse(e: Entry)
    requires '=' !in e.0 && (e.1.Str? ==> '=' !in e.1.text)
    ensures FragmentEntry(Render(e)) == e
  {
    var f := Render(e);
    var p := FragmentEntry(f);
    if e.1.Str? {
      assert f[|e.0|] == '=';
      assert p.0 == e.0;
      assert f[|e.0| + 1..] == e.1.text;
      assert p.1.text == e.1.text by {
        assert p.0 + "=" + p.1.text <= f;
        assert |p.1.text| <= |e.1.text|;
        assert p.1.text == f[|e.0| + 1..|e.0| + 1 + |p.1.text|];
      }
    }
  }

  /** Rendering a parsed fragment gives the fragment back when it holds at
      most one `=`. */
  lemma FragmentInverse(f: string)
    requires AtMostOneEquals(f)
    ensures Render(FragmentEntry(f)) == f
  {
    var e := FragmentEntry(f);
    if e.1.Str? {
      assert f[|e.0|] == '=';
      assert f == e.0 + "=" + e.1.text;
    }
  }

  /** The entries of a serialised block read back in order. */
  lemma {:induction false} EntriesOfSerialized(entries: seq<Entry>)
    requires |entries| >= 1 && DelimiterFreeEntries(entries)
    ensures ParseEntries(Join(Renders(entries), ',')) == entries
  {
    var parts := Renders(entries);
    forall i | 0 <= i < |parts| ensures ',' !in parts[i] {
      assert parts[i] == Render(entries[i]);
    }
    SplitJoin(parts, ',');
    var es := ParseEntries(Join(parts, ','));
    assert |es| == |entries|;
    forall i | 0 <= i < |entries| ensures es[i] == entries[i] {
      RenderInverse(entries[i]);
    }
  }

  /** Serialising the parsed entries of a block restores the block, when no
      fragment holds a second `=`. */
  lemma {:induction false} BlockRoundTrip(raw: string)
    requires forall i :: 0 <= i < |Split(raw, ',')| ==> AtMostOneEquals(Split(raw, ',')[i])
    ensures Serialize(ParseEntries(raw)) == "[" + raw + "]"
  {
    var frags := Split(raw, ',');
    var rendered := Renders(ParseEntries(raw));
    forall i | 0 <= i < |frags| ensures rendered[i] == frags[i] {
      FragmentInverse(frags[i]);
    }
    assert rendered == frags;
  }

  /** The serialised entries form one line. */
  lemma SerializedIsOneLine(entries: seq<Entry>)
    requires WellFormedEntries(entries)
    ensures NoLineTerminator(Join(Renders(entries), ','))
  {
    var parts := Renders(entries);
    forall i | 0 <= i < |parts| ensures NoLineTerminator(parts[i]) {
      var e := entries[i];
      assert WellFormedEntry(e);
      if e.1.Str? {
        var p := parts[i];
        assert p == e.0 + "=" + e.1.text;
        forall k | 0 <= k < |p| ensures !IsLineTerminator(p[k]) {
          if k > |e.0| {
            assert p[k] == e.1.text[k - |e.0| - 1];
          }
        }
      }
    }
    JoinNoLineTerminator(parts, ',');
  }

  /** The captures after the first `#` are the captures of the whole hash. */
  lemma CapturesAfterFirstHash(base: string, rest: string, slug: string, block: Option<string>)
    requires '#' !in base && MatchAt(rest, slug, block)
    ensures Match(base + "#" + rest, slug, block)
  {
    var hash := base + "#" + rest;
    var i := |base|;
    assert hash[..i] == base;
    assert hash[i] == '#';
    assert hash[i + 1..] == rest;
  }

  /** A slug followed by a complete single-line bracket group is captured
      as that slug and that group. */
  lemma CapturesOfBracketGroup(slug: string, inner: string)
    requires '[' !in slug && NoLineTerminator(inner)
    ensures MatchAt(slug + "[" + inner + "]", slug, Some(inner))
  {
    var rest := slug + "[" + inner + "]";
    assert rest[|slug|..] == "[" + inner + "]";
  }

  /** A URL made of a base without `#`, then `#` and a slug without `[`,
      navigated to with well-formed data, parses back to that slug and to the
      data's options; with no data it parses to the slug and the options of
      an empty block. */
  lemma NavigateRoundTrip(base: string, slug: string, data: Option<seq<Entry>>)
    requires '#' !in base && '[' !in slug
    requires data.Some? ==> |data.value| >= 1 && WellFormedEntries(data.value)
    ensures Parse(Navigate(base + "#" + slug, data)) ==
      HashObject(slug, if data.Some? then MapOf(data.value) else map["" := True])
  {
    match data
    case None =>
      assert MatchAt(slug, slug, None);
      CapturesAfterFirstHash(base, slug, slug, None);
      ParseIsMatch(base + "#" + slug, slug, None);
      EmptyOptions();
    case Some(entries) =>
      NavigateWithEntries(base, slug, entries);
  }

  lemma NavigateWithEntries(base: string, slug: string, entries: seq<Entry>)
    requires '#' !in base && '[' !in slug
    requires |entries| >= 1 && WellFormedEntries(entries)
    ensures Parse(base + "#" + slug + Serialize(entries)) == HashObject(slug, MapOf(entries))
  {
    var inner := Join(Renders(entries), ',');
    SerializedAfterSlug(base, slug, entries);
    SerializedIsOneLine(entries);
    ParseOfBracketGroup(base, slug, inner);
    OptionsOfSerialized(entries);
  }

  /** A serialised block is its joined fragments in brackets. */
  lemma SerializedAfterSlug(base: string, slug: string, entries: seq<Entry>)
    ensures base + "#" + slug + Serialize(entries) == base + "#" + (slug + "[" + Join(Renders(entries), ',') + "]")
  {
  }

  /** The options of a serialised block are the entries' table. */
  lemma OptionsOfSerialized(entries: seq<Entry>)
    requires |entries| >= 1 && DelimiterFreeEntries(entries)
    ensures ParseOptions(Some(Join(Renders(entries), ','))) == MapOf(entries)
  {
    EntriesOfSerialized(entries);
  }

  /** A hash whose first `#` is followed by a slug and a single-line bracket
      group parses to that slug and the options of that group. */
  lemma ParseOfBracketGroup(base: string, slug: string, inner: string)
    requires '#' !in base && '[' !in slug && NoLineTerminator(inner)
    ensures Parse(base + "#" + (slug + "[" + inner + "]")) == NewHashObject(slug, Some(inner))
  {
    CapturesOfBracketGroup(slug, inner);
    CapturesAfterFirstHash(base, slug + "[" + inner + "]", slug, Some(inner));
    ParseIsMatch(base + "#" + (slug + "[" + inner + "]"), slug, Some(inner));
  }

  /** Parsing `#` + slug + serialised entries gives back the slug and the
      entries' table (later duplicates winning). */
  lemma ParseSerialize(slug: string, entries: seq<Entry>)
    requires '[' !in slug
    requires |entries| >= 1 && WellFormedEntries(entries)
    ensures Parse("#" + slug + Serialize(entries)) == HashObject(slug, MapOf(entries))
  {
    NavigateRoundTrip("", slug, Some(entries));
    assert "" + "#" + slug == "#" + slug;
  }

  /** With distinct keys, every serialised entry is found by its key. */
  lemma ParseSerializeLookup(slug: string, entries: seq<Entry>, i: nat)
    requires '[' !in slug
    requires |entries| >= 1 && WellFormedEntries(entries)
    requires i < |entries|
    requires forall a, b :: 0 <= a < b < |entries| ==> entries[a].0 != entries[b].0
    ensures Get(Parse("#" + slug + Serialize(entries)), entries[i].0) == Some(entries[i].1)
  {
    ParseSerialize(slug, entries);
    MapOfLastWins(entries, i);
  }
}
