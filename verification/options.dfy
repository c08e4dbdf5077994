/** The option block of a hash (`HashObject` in hush.js): a comma-separated
    list of `key` and `key=value` fragments, folded into a lookup table. */
module Options {
  import opened Wrappers
  import opened Strings

  /** An option's value: a bare key stands for boolean `true`. */
  datatype Value = True | Str(text: string)

  type Entry = (string, Value)

  /** JavaScript truthiness of a stored value (`!!v`). */
  predicate Truthy(v: Value) {
    v.True? || v.text != ""
  }

  /** One fragment split at `=`: the key is the text before the first `=`;
      with an `=` the value is the text between the first and the second `=`
      (the rest is dropped), without one it is `true`. */
  function FragmentEntry(f: string): (e: Entry)
    ensures '=' !in e.0
    ensures e.1.True? <==> '=' !in f
    ensures e.1.True? ==> e.0 == f
    ensures e.1.Str? ==> '=' !in e.1.text && e.0 + "=" + e.1.text <= f
    ensures e.1.Str? && |e.0| + 1 + |e.1.text| < |f| ==> f[|e.0| + 1 + |e.1.text|] == '='
  {
    var parts := Split(f, '=');
    if |parts| == 1 then
      (parts[0], True)
    else
      assert f == parts[0] + "=" + Join(parts[1..], '=');
      (parts[0], Str(parts[1]))
  }

  /** The fragments of a raw option block, in order, as key/value entries. */
  function ParseEntries(raw: string): (es: seq<Entry>)
    ensures |es| == |Split(raw, ',')| >= 1
  {
    var frags := Split(raw, ',');
    seq(|frags|, i requires 0 <= i < |frags| => FragmentEntry(frags[i]))
  }

  /** Entry `i` is the last one with its key. */
  ghost predicate IsLastKey(entries: seq<Entry>, i: nat)
    requires i < |entries|
  {
    forall j :: i < j < |entries| ==> entries[j].0 != entries[i].0
  }

  /** Entries stored one after another into an empty table, later ones
      overwriting earlier ones with the same key: every entry's key is
      present. */
  function MapOf(entries: seq<Entry>): (m: map<string, Value>)
    ensures forall i :: 0 <= i < |entries| ==> entries[i].0 in m
    decreases |entries|
  {
    if |entries| == 0 then map[]
    else
      var n := |entries| - 1;
      var m := MapOf(entries[..n]);
      assert forall i :: 0 <= i < n ==> entries[..n][i] == entries[i];
      m[entries[n].0 := entries[n].1]
  }

  /** Storing one more entry changes its own key and nothing else. */
  lemma MapOfAppend(entries: seq<Entry>, e: Entry)
    ensures MapOf(entries + [e]) == MapOf(entries)[e.0 := e.1]
  {
    assert (entries + [e])[..|entries|] == entries;
  }

  /** The last entry with a key decides its value. */
  lemma {:induction false} MapOfLastWins(entries: seq<Entry>, i: nat)
    requires i < |entries| && IsLastKey(entries, i)
    ensures MapOf(entries)[entries[i].0] == entries[i].1
    decreases |entries|
  {
    var n := |entries| - 1;
    if i < n {
      var prefix := entries[..n];
      assert prefix[i] == entries[i];
      assert IsLastKey(prefix, i);
      MapOfLastWins(prefix, i);
    }
  }

  /** Every key of the table, with its value, comes from one of the entries. */
  lemma {:induction false} MapOfFromEntries(entries: seq<Entry>, k: string)
    requires k in MapOf(entries)
    ensures (k, MapOf(entries)[k]) in entries
    decreases |entries|
  {
    var n := |entries| - 1;
    if k != entries[n].0 {
      MapOfFromEntries(entries[..n], k);
    }
    assert entries == entries[..n] + [entries[n]];
  }

  /** A fragment free of `,` yields a key and a value free of `,`. */
  lemma FragmentHasNoComma(f: string)
    requires ',' !in f
    ensures var e := FragmentEntry(f); ',' !in e.0 && (e.1.Str? ==> ',' !in e.1.text)
  {
    var e := FragmentEntry(f);
    if e.1.Str? {
      forall j | 0 <= j < |e.1.text| ensures e.1.text[j] != ',' {
        assert e.1.text[j] == f[|e.0| + 1 + j];
      }
    }
  }

  /** The option table built from a raw block; an absent block is read as the
      empty string. There is always at least one entry, keys never hold `,`
      or `=`, and string values never hold them either. */
  function ParseOptions(opts: Option<string>): (m: map<string, Value>)
    ensures |m| >= 1
    ensures forall k :: k in m ==> ',' !in k && '=' !in k
    ensures forall k :: k in m && m[k].Str? ==> ',' !in m[k].text && '=' !in m[k].text
  {
    var raw := opts.GetOr("");
    var es := ParseEntries(raw);
    var m := MapOf(es);
    assert es[0].0 in m;
    assert forall k :: k in m ==> ',' !in k && '=' !in k && (m[k].Str? ==> ',' !in m[k].text && '=' !in m[k].text) by {
      forall k | k in m
        ensures ',' !in k && '=' !in k && (m[k].Str? ==> ',' !in m[k].text && '=' !in m[k].text)
      {
        MapOfFromEntries(es, k);
        var frags := Split(raw, ',');
        var i :| 0 <= i < |es| && es[i] == (k, m[k]);
        FragmentHasNoComma(frags[i]);
      }
    }
    m
  }

  /** A parsed hash: its slug and its option table. */
  datatype HashObject = HashObject(key: string, opts: map<string, Value>)

  /** `new HashObject(key, opts)`: the slug is kept, the option block parsed. */
  function NewHashObject(key: string, opts: Option<string>): (h: HashObject)
    ensures h.key == key && |h.opts| >= 1
  {
    HashObject(key, ParseOptions(opts))
  }

  /** `HashObject.prototype.get`: the stored value, `None` for `undefined`. */
  function Get(h: HashObject, k: string): (r: Option<Value>)
    ensures r.Some? <==> k in h.opts
  {
    if k in h.opts then Some(h.opts[k]) else None
  }

  /** `HashObject.prototype.is`: the truthiness of the stored value. */
  function Is(h: HashObject, k: string): (b: bool)
    ensures b <==> k in h.opts && h.opts[k] != Str("")
  {
    match Get(h, k)
    case None => false
    case Some(v) => Truthy(v)
  }

  /** An absent or empty block still holds one fragment, the empty key set to `true`. */
  lemma EmptyOptions()
    ensures ParseOptions(None) == map["" := True]
    ensures ParseOptions(Some("")) == map["" := True]
  {
    var frags := Split("", ',');
    assert |frags| == 1;
    var m := ParseOptions(None);
    assert ParseEntries("") == [("", True)];
    assert m.Keys == {""};
  }

  /** A fragment ending in `=` stores the empty string. */
  lemma TrailingEquals(k: string)
    requires ',' !in k && '=' !in k
    ensures ParseOptions(Some(k + "=")) == map[k := Str("")]
  {
    var f := k + "=";
    var frags := Split(f, ',');
    assert |frags| == 1 && frags[0] == f;
    var e := FragmentEntry(f);
    assert f[|k|] == '=';
    assert e.0 == k;
    assert e == (k, Str(""));
    var es := ParseEntries(f);
    assert es == [(k, Str(""))];
    assert es[..0] == [];
    assert MapOf(es[..0]) == map[];
    assert ParseOptions(Some(f)) == MapOf(es);
  }

  /** A block made of one bare key. */
  lemma BareKeyBlock(k: string)
    requires ',' !in k && '=' !in k
    ensures ParseOptions(Some(k)) == map[k := True]
  {
    assert Split(k, ',') == [k];
    var es := ParseEntries(k);
    assert es == [(k, True)];
    MapOfAppend([], es[0]);
    assert [] + [es[0]] == es;
  }

  /** A further fragment overwrites exactly its own key and leaves every
      other lookup as it was. */
  lemma {:induction false} OptionsOverwrite(raw: string, f: string)
    requires ',' !in f
    ensures ParseOptions(Some(raw + "," + f)) == ParseOptions(Some(raw))[FragmentEntry(f).0 := FragmentEntry(f).1]
  {
    var frags := Split(raw, ',');
    JoinAppend(frags, ',', f);
    SplitJoin(frags + [f], ',');
    assert Split(raw + "," + f, ',') == frags + [f];
    var es := ParseEntries(raw + "," + f);
    assert es == ParseEntries(raw) + [FragmentEntry(f)];
    MapOfAppend(ParseEntries(raw), FragmentEntry(f));
  }

  /** A lookup finds exactly the keys of the fragments, and each with the
      value of the last fragment that names it. */
  lemma LookupLastFragment(slug: string, raw: string, i: nat)
    requires i < |Split(raw, ',')|
    requires forall j :: i < j < |Split(raw, ',')| ==>
      FragmentEntry(Split(raw, ',')[j]).0 != FragmentEntry(Split(raw, ',')[i]).0
    ensures var e := FragmentEntry(Split(raw, ',')[i]);
      Get(NewHashObject(slug, Some(raw)), e.0) == Some(e.1)
  {
    var es := ParseEntries(raw);
    assert IsLastKey(es, i);
    MapOfLastWins(es, i);
  }

  /** Some fragment of `raw` names key `k`. */
  ghost predicate NamedByFragment(raw: string, k: string) {
    exists i :: 0 <= i < |Split(raw, ',')| && FragmentEntry(Split(raw, ',')[i]).0 == k
  }

  lemma KeysOfFragments(raw: string, k: string)
    ensures k in MapOf(ParseEntries(raw)) <==> NamedByFragment(raw, k)
  {
    var frags := Split(raw, ',');
    var es := ParseEntries(raw);
    var m := MapOf(es);
    if k in m {
      MapOfFromEntries(es, k);
      var i :| 0 <= i < |es| && es[i] == (k, m[k]);
      assert FragmentEntry(frags[i]).0 == k;
    }
    forall i | 0 <= i < |frags| && FragmentEntry(frags[i]).0 == k
      ensures k in m
    {
      assert es[i] == FragmentEntry(frags[i]);
    }
  }

  /** A key is found exactly when some fragment names it. */
  lemma LookupPresent(slug: string, raw: string, k: string)
    ensures Get(NewHashObject(slug, Some(raw)), k).Some? <==> NamedByFragment(raw, k)
  {
    KeysOfFragments(raw, k);
  }
}
