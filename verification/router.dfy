/** The class-level helpers of `Hush`: serialising entries into an option
    block, building a navigation URL, and parsing a hash with the pattern
    /#([^\[]*)(\[(.*)\])?/ — written out here as a scanner. */
module Router {
  import opened Wrappers
  import opened Strings
  import opened Options

  /** One entry as it appears in a block: the bare key for `true`,
      `key=value` otherwise. */
  function Render(e: Entry): (r: string)
    ensures e.0 <= r
    ensures e.1.True? ==> r == e.0
    ensures e.1.Str? ==> |r| == |e.0| + 1 + |e.1.text| && r[|e.0|] == '='
    ensures e.1.Str? ==> r[|e.0| + 1..] == e.1.text
  {
    match e.1
    case True => e.0
    case Str(v) => e.0 + "=" + v
  }

  function Renders(entries: seq<Entry>): (r: seq<string>)
    ensures |r| == |entries|
  {
    seq(|entries|, i requires 0 <= i < |entries| => Render(entries[i]))
  }

  /** `Hush.serialize`: the rendered entries in order, joined by `,` and
      wrapped in brackets; no entries give `[]`. */
  function Serialize(entries: seq<Entry>): (r: string)
    ensures |r| >= 2 && r[0] == '[' && r[|r| - 1] == ']'
    ensures entries == [] ==> r == "[]"
  {
    "[" + Join(Renders(entries), ',') + "]"
  }

  /** `Hush.navigate` without the browser navigation: the URL, followed by
      the serialised data when there is any. */
  function Navigate(url: string, data: Option<seq<Entry>>): (r: string)
    ensures url <= r
    ensures data.None? ==> r == url
    ensures data.Some? ==> |r| >= |url| + 2 && r[|url|] == '['
  {
    match data
    case None => url
    case Some(entries) => url + Serialize(entries)
  }

  /** Every `]` in `t` comes after a line terminator: `.*\]` finds no match
      at the start of `t`. */
  ghost predicate NoCloseOnLine(t: string) {
    forall k :: 0 <= k < |t| && t[k] == ']' ==> exists m :: 0 <= m < k && IsLineTerminator(t[m])
  }

  /** The captures of ([^\[]*)(\[(.*)\])? matched at the start of `rest`,
      as the greedy quantifiers choose them: the longest run without `[`,
      then, when it can match at all, the bracket group whose `.*` reaches
      the last `]` before the end of the line. */
  ghost predicate MatchAt(rest: string, slug: string, block: Option<string>) {
    && slug <= rest
    && '[' !in slug
    && (|slug| < |rest| ==> rest[|slug|] == '[')
    && var after := rest[|slug|..];
       match block
       case Some(b) =>
         && |after| >= |b| + 2
         && after[..|b| + 2] == "[" + b + "]"
         && NoLineTerminator(b)
         && NoCloseOnLine(after[|b| + 2..])
       case None =>
         |after| == 0 || NoCloseOnLine(after[1..])
  }

  /** What `hash.match(/#([^\[]*)(\[(.*)\])?/) || ['','','','']` yields as
      captures 1 and 3: the leftmost match starts at the first `#`; with no
      `#` the fallback gives two empty strings. */
  ghost predicate Match(hash: string, slug: string, block: Option<string>) {
    if '#' !in hash then slug == "" && block == Some("")
    else exists i :: 0 <= i < |hash| && hash[i] == '#' && '#' !in hash[..i] && MatchAt(hash[i + 1..], slug, block)
  }

  /** The optional bracket group at the start of `after`. */
  function Block(after: string): (r: Option<string>)
    ensures r.Some? ==>
      && |after| >= |r.value| + 2
      && after[..|r.value| + 2] == "[" + r.value + "]"
      && NoLineTerminator(r.value)
      && NoCloseOnLine(after[|r.value| + 2..])
    ensures r.None? ==> |after| == 0 || after[0] != '[' || NoCloseOnLine(after[1..])
  {
    if |after| == 0 || after[0] != '[' then None
    else
      var t := after[1..];
      var e := LineEnd(t);
      var line := t[..e];
      match LastIndexOf(line, ']')
      case None =>
        assert forall q :: 0 <= q < e ==> t[q] != ']' by {
          assert forall q :: 0 <= q < e ==> t[q] == line[q];
        }
        assert NoCloseOnLine(t) by {
          forall k | 0 <= k < |t| && t[k] == ']'
            ensures exists m :: 0 <= m < k && IsLineTerminator(t[m])
          {
            assert IsLineTerminator(t[e]);
          }
        }
        None
      case Some(j) =>
        var b := line[..j];
        assert after[..|b| + 2] == "[" + b + "]";
        assert NoLineTerminator(b) by {
          assert forall k :: 0 <= k < |b| ==> b[k] == t[..e][k];
        }
        assert forall q :: j + 1 <= q < e ==> t[q] != ']' by {
          assert forall q :: j + 1 <= q < e ==> t[q] == line[j + 1..][q - j - 1];
        }
        assert NoCloseOnLine(after[|b| + 2..]) by {
          var u := after[|b| + 2..];
          forall k | 0 <= k < |u| && u[k] == ']'
            ensures exists m :: 0 <= m < k && IsLineTerminator(u[m])
          {
            assert u[k] == t[j + 1 + k];
            assert IsLineTerminator(u[e - j - 1]);
          }
        }
        Some(b)
  }

  /** The captures the pattern yields for `hash`. */
  function Scan(hash: string): (r: (string, Option<string>))
    ensures Match(hash, r.0, r.1)
  {
    match IndexOf(hash, '#')
    case None => ("", Some(""))
    case Some(i) =>
      var rest := hash[i + 1..];
      var slug := Before(rest, '[');
      var block := Block(rest[|slug|..]);
      assert MatchAt(rest, slug, block);
      (slug, block)
  }

  /** `Hush.parse`: the slug and options captured from the hash. */
  function Parse(hash: string): (h: HashObject)
    ensures |h.opts| >= 1
  {
    var (slug, block) := Scan(hash);
    NewHashObject(slug, block)
  }

  /** The greedy captures at a position are unique. */
  lemma MatchAtUnique(rest: string, s1: string, b1: Option<string>, s2: string, b2: Option<string>)
    requires MatchAt(rest, s1, b1) && MatchAt(rest, s2, b2)
    ensures s1 == s2 && b1 == b2
  {
    assert s1 == rest[..|s1|] == s2;
    var after := rest[|s1|..];
    if b1.Some? && b2.Some? {
      BlockUnique(after, b1.value, b2.value);
    } else if b1.Some? && b2.None? {
      BlockExcludesNone(after, b1.value);
    } else if b1.None? && b2.Some? {
      BlockExcludesNone(after, b2.value);
    }
  }

  /** Two complete bracket groups at the same place coincide. */
  lemma BlockUnique(after: string, x: string, y: string)
    requires |after| >= |x| + 2 && after[..|x| + 2] == "[" + x + "]"
    requires NoLineTerminator(x) && NoCloseOnLine(after[|x| + 2..])
    requires |after| >= |y| + 2 && after[..|y| + 2] == "[" + y + "]"
    requires NoLineTerminator(y) && NoCloseOnLine(after[|y| + 2..])
    ensures x == y
  {
    if |x| < |y| {
      ShorterGroupNotLast(after, x, y);
    } else if |y| < |x| {
      ShorterGroupNotLast(after, y, x);
    } else {
      assert x == after[1..|x| + 1] == y;
    }
  }

  /** A bracket group followed, on the same line, by another `]` is not the
      greedy one. */
  lemma ShorterGroupNotLast(after: string, x: string, y: string)
    requires |x| < |y| && |after| >= |y| + 2
    requires after[..|x| + 2] == "[" + x + "]"
    requires after[..|y| + 2] == "[" + y + "]" && NoLineTerminator(y)
    ensures !NoCloseOnLine(after[|x| + 2..])
  {
    var u := after[|x| + 2..];
    var k := |y| - |x| - 1;
    assert u[k] == after[|y| + 1] == ']';
    forall m | 0 <= m < k ensures !IsLineTerminator(u[m]) {
      assert u[m] == y[|x| + 1 + m];
    }
  }

  /** A complete bracket group rules out the reading without one. */
  lemma BlockExcludesNone(after: string, b: string)
    requires |after| >= |b| + 2 && after[..|b| + 2] == "[" + b + "]"
    requires NoLineTerminator(b)
    ensures !(|after| == 0 || NoCloseOnLine(after[1..]))
  {
    var t := after[1..];
    assert t[|b|] == ']';
    forall m | 0 <= m < |b| ensures !IsLineTerminator(t[m]) {
      assert t[m] == b[m];
    }
  }

  /** The pattern's captures are unique: whichever captures the regular
      expression yields, parsing returns exactly the hash object built from
      them. */
  lemma ParseIsMatch(hash: string, slug: string, block: Option<string>)
    requires Match(hash, slug, block)
    ensures Parse(hash) == NewHashObject(slug, block)
  {
    var (s, b) := Scan(hash);
    if '#' in hash {
      var i :| 0 <= i < |hash| && hash[i] == '#' && '#' !in hash[..i] && MatchAt(hash[i + 1..], slug, block);
      var i' :| 0 <= i' < |hash| && hash[i'] == '#' && '#' !in hash[..i'] && MatchAt(hash[i' + 1..], s, b);
      FirstIsUnique(hash, '#', i, i');
      MatchAtUnique(hash[i + 1..], slug, block, s, b);
    }
  }

  /** Only one position holds the first occurrence of a character. */
  lemma FirstIsUnique(s: string, c: char, i: nat, j: nat)
    requires i < |s| && s[i] == c && c !in s[..i]
    requires j < |s| && s[j] == c && c !in s[..j]
    ensures i == j
  {
  }

  /** A hash without `#` parses to the empty slug with the options of an
      empty block. */
  lemma ParseWithoutHash(hash: string)
    requires '#' !in hash
    ensures Parse(hash) == HashObject("", map["" := True])
  {
    EmptyOptions();
  }
}
