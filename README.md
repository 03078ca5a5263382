# hold: the cache store, modelled in Dafny

`hold` runs a command and keeps its output in a cache directory. Each stored
output is an entry file named `<name>.<unix-seconds>`. Later runs serve the
still-fresh (hot) entry whose file name is greatest as a string, instead of
running the command again. This project models `HoldDir`, the part of `hold.go` that manages that
directory:

- the cache-name check;
- the enumeration of cache names;
- the listing of one name's entries, split into hot and cold;
- the write (`Stash`), the read (`Retrieve`) and the get-or-compute (`Load`).

The model has two modules:

- `Text` (text.dfy) holds the string tools the store uses:
  - splitting on `.` and its inverse;
  - Go's byte-wise string order;
  - rendering and parsing of decimal second counts (`strconv.Itoa`/`Atoi`);
  - a descending sort.
- `Hold` (hold.dfy) holds the store itself:
  - the class `HoldDir`, whose `files` field is the directory: a map from
    base name to content;
  - a `Producer` class standing for the `fill` callback; it counts how
    often it runs;
  - the predicates that say what an entry, a hot entry and the newest hot
    entry are;
  - the lemmas about them.

How the model stands in for the outside world:

- The clock and the expiry cutoff are parameters. `now` is in whole Unix
  seconds. `cutoff` is in Unix nanoseconds.
- An entry at second `ts` is hot exactly when `cutoff < ts * 10^9`. This is
  the code's `expiry.Before(time.Unix(ts, 0))`. A cutoff that equals the
  entry's second therefore makes the entry cold.
- `Caches`, `Files` and `Retrieve` have no `modifies` clause, so Dafny rules
  out any change to the directory by them.

The model follows the code as written. Four behaviours of the code are not
what one might assume:

- `Load` on a name with no entries at all returns the listing's "no cached
  files" error. It does not run the producer. A first-ever `Load` therefore
  fails (`Hold.HoldDir.Load`, second case).
- The name check is an unanchored `[[:alnum:]]+` match. A name is accepted
  when it contains any ASCII letter or digit, so `"has.dots"` is accepted.
  The dot-splits in `Files` and `Caches` then read the wrong fields:
  - the stored second is never read back (`Hold.DottedNameIsUnreadable`);
  - the cache is listed under its first field, `"has"` (`Hold.HasDotsExample`).
- Entries are ordered as strings, not as times. At seconds 99 and 100, the
  entry at 99 is the one served (`Hold.OlderEntryCanSortFirst`). Time order
  and string order agree only when the seconds have the same number of
  digits (`Hold.SameWidthKeysSortByTime`).
- Two writes in the same second go to the same file, and the second write
  replaces the first (`Hold.HoldDir.Stash`).

## Model

| member | source | states |
|---|---|---|
| Hold.ValidCacheNameIff | hold.go:28-34 | the name check accepts a name exactly when the name contains at least one ASCII letter or digit, anywhere |
| Hold.ValidCacheNameExamples | hold.go:28-34 | the empty name is refused; `"has.dots"` is accepted |
| Hold.HoldDir.Glob | hold.go:38 | the files whose base name starts with the given prefix, each listed once; `Caches` finds every file with it, `Files` finds those matching `name.*` |
| Hold.HoldDir.Caches | hold.go:36-56 | a string is returned exactly when it is the first dot-field of some file; the result is strictly descending, so it has no duplicates |
| Hold.HoldDir.Files | hold.go:58-88 | success exactly when the name has entries and every entry's second field parses; otherwise "no cached files" when nothing matches, or the parse error of the greatest unreadable entry; on success every entry lies in exactly one of hot (cutoff strictly before its second) and cold; both lists are descending |
| Hold.HoldDir.Retrieve | hold.go:104-118 | success exactly when the listing succeeds and some entry is hot; the result is the content and path of the string-greatest hot entry; a listing error is passed on; with entries but nothing hot it is an error, which the model names `NoHotFiles` to tell it apart from the listing's `NoCachedFiles` (the code's messages are "No cached files." and "no cached files") |
| Hold.HoldDir.Stash | hold.go:90-102 | the directory afterwards is the old one with just the entry `name.<now>` added or overwritten by `input`; returns `input` together with that entry's path |
| Hold.HoldDir.Load | hold.go:120-150 | an invalid name, or a listing error (a name with no entries included), returns the error without running the producer or changing the directory; when a hot entry exists, returns the newest hot entry, the directory is unchanged and the producer does not run; otherwise the producer runs once, and its error is passed on with the directory unchanged, or its output is stashed and returned with its path |
| Hold.Producer.Output | hold.go:140 | the producer's outcome, with one more recorded call |
| Hold.EntryKeyFields | hold.go:91-93 | the name Stash writes is an entry of the name and has the name's first dot-field; its second field is the one Stash appended (the rendered second, which reads back as `now`) only when the name has no dot; for a dotted name it is the name's own second field |
| Hold.NewestHotUnique | hold.go:104-112 | at most one entry is the newest hot one, so the entry served is determined |
| Hold.RoundTrip | hold.go:90-118 | after stashing `input` at second `now` into a readable cache with a dot-free name, the new entry is the newest hot one for any cutoff before `now` (when no hot entry sorts above it), and its content is `input` |
| Hold.MissThenHit | hold.go:139-147 | for a dot-free name whose entries all parse and none of which is hot, and a cutoff strictly before second `now`: after stashing at `now`, the name has entries, they all parse, one is hot, and the stashed entry is the one served next with the same cutoff |
| Hold.StashThenRetrieve | hold.go:90-118 | for a dot-free name whose entries all parse, a cutoff strictly before second `now`, and no hot entry sorting above the new name: Stash at `now` then Retrieve with that cutoff returns exactly what Stash returned, `input` included |
| Hold.LoadMissThenHit | hold.go:120-150 | for a valid dot-free name that has entries, all of which parse and none of which is hot, a cutoff strictly before second `now`, and a producer that succeeds: the first Load runs the producer once and returns its output, and the second Load at the same `now` and cutoff returns the same result without running the producer again |
| Hold.SameWidthKeysSortByTime | hold.go:68 | for entries whose seconds have the same number of digits, string order is time order |
| Hold.NewestOfTwo | hold.go:68 | of two hot entries of a dot-free name at seconds `a` and `b`, the one at `a` is served whenever the rendering of `b` is smaller as a string, whatever the seconds are as numbers |
| Hold.OlderEntryCanSortFirst | hold.go:68 | with entries at seconds 99 and 100, the newest hot entry is the one at 99 |
| Hold.DottedNameIsUnreadable | hold.go:74-79 | with a dotted name whose second field is not a number, the directory after a Stash has an unreadable entry of that name, so Files fails |
| Hold.HasDotsExample | hold.go:28-47 | `"has.dots"` passes the name check, its entries are unreadable, and its cache is enumerated as `"has"` |
| Hold.FirstMalformedAt | hold.go:72-79 | walking the entries in descending order, the first unreadable one is the greatest unreadable one, and it makes the listing fail with its field |
| Hold.PlaceHot | hold.go:81-82 | appending a hot entry, met in descending order, to the hot list keeps both lists descending and exactly the hot and cold entries seen so far |
| Hold.PlaceCold | hold.go:83-84 | appending a cold entry, met in descending order, to the cold list keeps both lists descending and exactly the hot and cold entries seen so far |
| Hold.FirstFieldsMembers | hold.go:44-48 | a string is among the counted first fields exactly when some listed file has it as its first dot-field |
| Hold.PartitionComplete | hold.go:72-87 | once every entry is placed, hot holds exactly the hot entries, cold exactly the cold ones, and each entry is in one of them |
| Text.SplitDots | hold.go:75 | there is at least one field, and two or more exactly when the string has a dot (so `toks[1]` exists for every entry) |
| Text.SplitDotsFieldsDotFree | hold.go:75 | no field contains a dot |
| Text.SplitDotsJoin | hold.go:75 | joining the fields with dots gives back the string; with dot-free fields this pins the fields down as those `strings.Split` returns |
| Text.SplitDotFree | hold.go:75 | a string without a dot splits into itself alone |
| Text.SplitAppendedField | hold.go:75 | splitting `prefix.suffix` with a dot-free suffix: the first field is the prefix's first field; the second is the prefix's second field when the prefix has a dot, and otherwise the suffix |
| Text.LexLessAsymmetric | hold.go:68 | the string order is asymmetric |
| Text.LexLessTransitive | hold.go:68 | the string order is transitive |
| Text.LexLessTotal | hold.go:68 | any two distinct strings are ordered one way or the other |
| Text.CommonPrefixKeepsOrder | hold.go:60-68 | a common prefix, such as the directory path, does not change the order of two strings |
| Text.SortDescending | hold.go:54 | the result is strictly descending, has the input's length and holds the same strings |
| Text.Decimal | hold.go:91 | the rendering of a second count is a non-empty string of digits without a leading zero, and so without a dot |
| Text.ParseDecimalOfDecimal | hold.go:76 | parsing the rendering of a second count gives that count back |
| Text.DecimalOrder | hold.go:68 | for renderings of equal width, string order is numeric order |
| Hold.ValidCacheName | hold.go:28-34 | defines the name check: some non-empty stretch of the name is all ASCII letters and digits (the unanchored `[[:alnum:]]+` match); `Hold.ValidCacheNameIff` characterises it |
| Hold.IsEntryOf | hold.go:60-61 | defines the glob `name.*` as a prefix test: the base name starts with the name and a dot |
| Hold.StampField | hold.go:74-75 | defines `toks[1]`: the second dot-field of a base name, empty when there is no dot |
| Hold.Stamp | hold.go:74-79 | defines the second an entry records: its second dot-field parsed as unsigned decimal digits, nothing when that fails |
| Text.ParseDecimal | hold.go:76 | defines the parse of a second field: a value exactly for non-empty digit strings, leading zeros included; `Text.ParseDecimalOfDecimal` and `Text.DecimalOfParseDecimal` tie it to the rendering |
| Text.DecimalOfParseDecimal | hold.go:76 | a digit string without a leading zero is the rendering of the value it parses to |
| Hold.HotEntry | hold.go:80-82 | defines a hot entry: an entry of the name whose second parses and whose start lies strictly after the cutoff |
| Hold.ColdEntry | hold.go:80-84 | defines a cold entry: an entry of the name whose second parses and whose start is at or before the cutoff |
| Hold.EntryKey | hold.go:91-93 | defines the base name Stash writes: the name, a dot, and the rendered second; `Hold.EntryKeyFields` says how it splits |
| Hold.HoldDir.PathOf | hold.go:92-93 | defines an entry's path: the directory, a slash and the base name |
| Text.LexLess | hold.go:68 | defines Go's `<` on strings: the first differing character decides, and a proper prefix is smaller; the lemmas above prove it a strict total order |
| Hold.BypassFindsNothingHot | hold.go:80-81 | with the cutoff at or after second `now` (the "do not load cached version" flag) and no entry written after `now`, no entry is hot; it says nothing about whether the name has entries, and without any Load fails before running the producer |
| Hold.BypassLoadRunsProducer | hold.go:120-150 | with the bypass cutoff, for a valid name whose entries exist, all parse and were written no later than `now`: Load runs the producer once and passes on its error unchanged, or stashes its output and returns it with its path |
| Hold.BypassStashedEntryIsCold | hold.go:80-84 | with the cutoff anywhere at or after the start of second `now`, the entry stashed at `now` for a dot-free name is cold and not hot |
| Hold.IsNewestHot | hold.go:112 | defines the entry served: a hot entry of the name above which no other hot entry sorts as a string, which is `hot[0]` of the descending hot list |
| Hold.IsFirstMalformed | hold.go:72-79 | defines the entry the listing fails on: an entry of the name whose second field does not parse, above which every entry parses |
| Hold.ListingError | hold.go:65-79 | defines the listing's errors: `NoCachedFiles` exactly when the name has no entry, otherwise the bad second field of the first unreadable entry |
| Hold.FirstFields | hold.go:43-48 | defines the keys of the counting map: the set of first dot-fields of the listed files |

## Left out

- Filesystem failures are not modelled. This covers `filepath.Glob` errors (hold.go:39-41, 62-64), `os.Create` and write errors in Stash (hold.go:95-101) and `ioutil.ReadFile` errors in Retrieve (hold.go:113-116). The directory is a map, which cannot fail.
- Glob patterns are modelled as a prefix test. Metacharacters in the directory path or in a name (`*`, `?`, `[`) get no special meaning.
- Names containing `/`, and the path cleaning `filepath.Join` performs, are not modelled. `PathOf` simply joins with `/`.
- The empty name is not modelled as the code treats it in Files and Retrieve. `filepath.Join(root, "")` is `root` itself, so the code globs `<root>.*` in the parent directory. The model instead lists the base names inside the directory that start with a dot. Load refuses the empty name before listing.
- File names are Dafny strings of Unicode characters. Go file names are arbitrary bytes, and names that are not valid UTF-8 have no counterpart in the model. The string order is modelled on characters, which agrees with Go's byte order for valid UTF-8.
- Subdirectories and other non-file directory entries are not modelled, although `Caches` would also count them.
- Hold.Stamp: accepts exactly the non-empty unsigned digit strings, leading zeros included. `strconv.Atoi` also accepts a leading sign and rejects values outside the 64-bit range, so a second field like `+5` is unreadable in the model but readable in the code.
- Hold.HoldDir.Stash: the clock is a natural number of seconds. Negative Unix times and the `int` width of `time.Now().Unix()` are not modelled.
- Timestamps are whole seconds and cutoffs whole nanoseconds. Time zones and monotonic clock readings are not modelled.
- Hold.HoldDir.Files: returns base names rather than the directory-joined paths. Joining adds a common prefix, which keeps the order (`Text.CommonPrefixKeepsOrder`). Retrieve and Load do return the joined path through `PathOf`.
- Hold.HoldDir.Caches: the per-name file counts it builds are internal and are not stated; only the returned names are.
- `NewHoldDir` (hold.go:22-26) only creates the directory and ignores the failure; the constructor takes the path and the current contents instead.
- `Cat.Output`, `GetHoldArgs` and `main` (hold.go:152-290) are the command-line layer: reading files, flags, environment, running the command, printing. The producer is an opaque `Producer` with a fixed outcome.
- Locking (the TODO at hold.go:94) and any concurrent access to the directory are not modelled; every operation is sequential.
