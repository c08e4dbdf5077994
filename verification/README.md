# hush — a Dafny model of a URL-hash router

hush reads a location hash of the form `#slug[k1,k2=v2]`, splits it into a
*slug* and an *options block*, and offers lookups on the options. A `Hush`
instance is a registry from slugs to caller-chosen values. Class-level helpers
serialise an ordered list of options back into a `[k1,k2=v2]` block, build a
navigation URL from it, and parse a hash with the regular expression
`/#([^\[]*)(\[(.*)\])?/`.

This project models all of `hush.js` except the browser wiring, as pure
functions over `string` (`seq<char>`):

- `wrappers.dfy` (`Wrappers`): `Option`, standing for JavaScript's `undefined`.
- `strings.dfy` (`Strings`): the JavaScript `split` and `join` with a
  one-character separator (hush.js:12, 17, 91), and the ECMAScript line
  terminators (LF, CR, U+2028, U+2029). The line terminators matter because
  a regular-expression `.` does not match them. `IndexOf`, `LastIndexOf`,
  `Before` and `LineEnd` are the model's own building blocks for `Split` and
  for the scanner that stands in for `match` (hush.js:100); the source does
  not call them.
- `options.dfy` (`Options`): `HashObject`. A block is split on `,`. Each
  fragment is split on `=`. The key is the text before the first `=`. The
  value is the text between the first and the second `=`, or `true` when the
  fragment has no `=`. Entries are stored in order, so a later key overwrites
  an earlier one. `Get` and `Is` look the table up.
- `registry.dfy` (`Registry`): the `Hush` instance: `new Hush`, `add` and
  `get` on a slug table.
- `router.dfy` (`Router`): `Hush.serialize`, `Hush.navigate` (the returned
  URL only) and `Hush.parse`. The regular expression is written out as a
  scanner (`Scan`). It is also written as a declarative statement of what
  the greedy, leftmost match captures (`Match`). The two are proved to agree
  (`Scan`, `ParseIsMatch`).
- `roundtrip.dfy` (`RoundTrip`): serialising and parsing undo each other.
- `examples.dfy` (`Examples`): concrete hashes, blocks and URLs with their
  results.

Where a tidier reading of the format would differ, the model follows the source:

- An absent or empty options block does not give an empty table. `''.split(',')`
  is `['']`, so the table is exactly `{"" ↦ true}`. This holds for `#foo`, for
  `#foo[]` and for a hash with no `#` at all.
- A fragment is not split only at its first `=`. Its value stops at the second
  `=`, and anything after that is dropped.
- The pattern requires a `#`. Without one, `match` fails and the fallback gives
  an empty slug and an empty block. The leftmost match begins at the first `#`.
- The options block runs to the last `]` on the line where it opens. If that
  line has no `]`, the bracket group does not match, and the options come from
  the empty block.

## Model

| member | source | states |
|---|---|---|
| Strings.Split | hush.js:12 | the pieces between separators: at least one piece, no piece holds the separator, and joining the pieces with the separator gives the input back |
| Strings.Join | hush.js:91 | a single piece joins to itself; otherwise the result begins with the first piece, followed by the separator when there is more than one piece |
| Strings.SplitJoin | hush.js:17 | splitting a join gives back the pieces, when there is at least one piece and no piece holds the separator |
| Options.FragmentEntry | hush.js:17-18 | the key is the text before the first `=` and holds no `=`; the value is `true` exactly when the fragment has no `=`, and then the key is the whole fragment; otherwise `key=value` begins the fragment, the value holds no `=`, and whatever follows it starts with a second `=` |
| Options.ParseEntries | hush.js:12-17 | exactly one entry per `,`-fragment of the block, so there is always at least one entry, even for an empty block. The contract gives the count; which entry each fragment gives is fixed by Options.LookupPresent, Options.LookupLastFragment and RoundTrip.EntriesOfSerialized |
| Options.MapOf | hush.js:15-19 | storing the entries one after another leaves every entry's key in the table |
| Options.MapOfLastWins | hush.js:18 | the last entry with a key decides the value stored for that key |
| Options.MapOfFromEntries | hush.js:18 | every key and value in the table come together from one of the entries |
| Options.ParseOptions | hush.js:12-19 | the table always has at least one key; no key holds `,` or `=`, and no string value holds them either |
| Options.EmptyOptions | hush.js:12 | an absent block and an empty block both give exactly `{"" ↦ true}` |
| Options.TrailingEquals | hush.js:17-18 | a block `k=` gives exactly `{k ↦ ""}` |
| Options.BareKeyBlock | hush.js:17-18 | a block that is one bare key gives exactly `{k ↦ true}` |
| Options.OptionsOverwrite | hush.js:15-19 | appending `,f` to a block sets the key of `f` to the value of `f` and changes no other key |
| Options.NewHashObject | hush.js:7-9 | the slug is kept as given and the option table is never empty |
| Options.LookupLastFragment | hush.js:27-29 | `get` on a fragment's key returns that fragment's value when no later fragment has the same key |
| Options.LookupPresent | hush.js:27-29 | `get` finds a key exactly when some fragment of the block names it |
| Options.Get | hush.js:27-29 | `get` returns a value exactly when the key is in the table. Its own contract gives only presence; the value returned for a parsed block is fixed by Options.LookupLastFragment |
| Options.Is | hush.js:36-38 | `is` holds exactly when the key is present and its value is not the empty string |
| Registry.Get | hush.js:63-65 | a slug is found exactly when it is in the table |
| Registry.New | hush.js:44-46 | without a table no slug is found; with a table, exactly its slugs are found, with its values |
| Registry.Add | hush.js:53-56 | afterwards the slug yields the new value, every other slug yields what it did before, and the slug set grows by that slug only; the updated registry is returned for chaining |
| Registry.AddOverwrites | hush.js:53-56 | adding a slug twice is the same as adding only the later value |
| Registry.AddCommutes | hush.js:53-56 | adds of two different slugs can be made in either order |
| Router.Render | hush.js:89 | the key begins the rendering; a `true` value renders as the bare key; a string value renders as the key, then `=`, then the value |
| Router.Renders | hush.js:88-90 | as many rendered strings as entries. The contents and order are fixed by RoundTrip.EntriesOfSerialized, which parses the joined renderings back to the entries in order, and by RoundTrip.RenderInverse |
| Router.Serialize | hush.js:86-92 | the block starts with `[` and ends with `]`; no entries give `[]` |
| Router.Navigate | hush.js:77-79 | the URL is a prefix of the result; without data the result is the URL, with data a `[` follows it |
| Router.MatchAt | hush.js:100 | states declaratively what `([^\[]*)(\[(.*)\])?` captures at one position: the longest slug without `[`, then the bracket group ending at the last `]` on its line, or no group when that line has no `]` |
| Router.Match | hush.js:100 | states declaratively what `hash.match(...)`, or its fallback `['','','','']`, captures: the match at the first `#`, or the empty slug and empty block when there is no `#` |
| Router.Block | hush.js:100 | a bracket group found: `[`, a text without line terminators, `]`, and no further `]` before the line ends; none found: there is no `[`, or every later `]` lies after a line terminator |
| Router.Scan | hush.js:100 | the slug and block it finds are the captures the pattern yields: the leftmost match at the first `#`, the longest slug without `[`, the greedy bracket group, and the `['','','','']` fallback when there is no `#` |
| Router.Parse | hush.js:99-102 | the parsed hash always carries at least one option |
| Router.MatchAtUnique | hush.js:100 | at a given position the greedy captures are unique |
| Router.ParseIsMatch | hush.js:99-102 | whatever captures satisfy the pattern's description, parsing returns the hash object built from them |
| Router.ParseWithoutHash | hush.js:100-101 | a hash without `#` parses to the empty slug with the options `{"" ↦ true}` |
| RoundTrip.RenderInverse | hush.js:89 | parsing a rendered entry gives the entry back when its key and value hold no `=` |
| RoundTrip.FragmentInverse | hush.js:17-18 | rendering a parsed fragment gives the fragment back when it holds at most one `=` |
| RoundTrip.EntriesOfSerialized | hush.js:86-92 | the fragments of a serialised block parse back to the entries, in order, when the entries are non-empty and no key or string value holds `,` or `=` |
| RoundTrip.BlockRoundTrip | hush.js:86-92 | serialising the parsed entries of a block gives `[` + block + `]` when no fragment holds a second `=` |
| RoundTrip.NavigateRoundTrip | hush.js:77-79 | parsing `base#slug` navigated with well-formed non-empty data gives the slug and the data's table; without data it gives the slug and `{"" ↦ true}` |
| RoundTrip.ParseSerialize | hush.js:86-102 | parsing `#` + slug + the serialised entries gives the slug and the entries' table, for a slug without `[` and non-empty entries free of `,`, `=` and line terminators |
| RoundTrip.ParseSerializeLookup | hush.js:86-102 | with distinct keys, every serialised entry is found again by its key after parsing |
| Examples.OptionLookups | hush.js:27-38 | in `k1=v1,k2,k3=v3`: `k1` is `"v1"`, `k2` is `true` and `is` holds, `missing` is absent and `is` fails |
| Examples.SecondEqualsDropsRest | hush.js:17-18 | the block `a=b=c` gives exactly `{a ↦ "b"}` |
| Examples.ParseWithOptions | hush.js:99-102 | `#foo[a=1,b]` parses to slug `foo` and `{a ↦ "1", b ↦ true}` |
| Examples.ParseSlugOnly | hush.js:99-102 | `#foo` parses to slug `foo` and `{"" ↦ true}` |
| Examples.ParseGarbage | hush.js:100 | `garbage-no-hash-hash` parses to the empty slug and `{"" ↦ true}` |
| Examples.SerializeMixed | hush.js:86-92 | `[(a, true), (b, "2")]` serialises to `[a,b=2]` |
| Examples.NavigateWithData | hush.js:77-79 | `http://x/` with `{a: true}` gives `http://x/[a]`, and without data gives `http://x/` |
| Examples.ParseStopsAtLineEnd | hush.js:100 | in `#s[a]]`, line feed, `b]`, the block ends at the last `]` before the line feed, giving `{"a]" ↦ true}` |

## Left out

- `Hush.start` and `window.onhashchange` (hush.js:108-113) are left out. They only attach a browser listener that calls `parse` on each hash change.
- The `location = …` assignment in `Hush.navigate` (hush.js:78) is left out. It is a browser navigation side effect; only the returned URL is modelled.
- JavaScript object quirks are left out: lookups through the prototype chain (`get("toString")`), the `__proto__` key, and `for…in` listing integer-like keys first. Option and slug tables are Dafny `map`s, and `serialize` takes an explicit ordered sequence of entries.
- `String()` coercion in `serialize` of numbers, `false`, `null` or objects is left out. Values are restricted to a string or `true`.
- Router.Navigate: the data argument is either absent (`None`) or a sequence of entries. The other falsy values (`0`, `""`, `null`) that would also suppress the block are not modelled.
- Registry.Add: `add` assigns into the registry's shared table and returns the same object (`return this`), so every holder of that object sees the change. The model returns the updated registry as a new value, and chaining is modelled by passing that value on.
- Registry.New: `new Hush(map)` keeps a reference to the caller's object, so the caller's later changes would be seen. The model copies the table by value.
- Strings: JavaScript strings are sequences of UTF-16 code units, while Dafny `char` is a Unicode scalar value. The delimiters involved are all ASCII, so the difference only shows up on unpaired surrogates, which are not modelled.
- The surrounding function wrapper and the `this.Hush = Hush` export (hush.js:1, 115-117) are left out.
- Router.Parse: its own contract only says that the result carries at least one option. What it computes is stated by Router.Scan (the captures match the pattern) and Router.ParseIsMatch (parsing is determined by those captures).
- Router.Serialize: its own contract covers the brackets and the empty case only. The content of the block is stated by RoundTrip.EntriesOfSerialized and RoundTrip.BlockRoundTrip.
- Router.Navigate: its own contract fixes the result completely when there is no data. With data, it only says that the URL is followed by `[`. RoundTrip.NavigateRoundTrip states what the appended block parses back to.
