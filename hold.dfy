/**
 * The cache store of `hold`: one directory holding entry files named
 * `<name>.<unix-seconds>`. A name maps to every file whose base name starts
 * with `<name>.`; an entry is hot (fresh) when the expiry cutoff lies
 * strictly before its second, cold (stale) otherwise.
 *
 * The directory is a map from base name to content, the clock (`now`, in
 * Unix seconds) and the cutoff (in Unix nanoseconds) are parameters, and the
 * producer that fills a missing entry is a `Producer` object.
 */
module Hold {
  import opened Text

  newtype Byte = b: int | 0 <= b < 256
  type Bytes = seq<Byte>

  /** The files of the hold directory: base name to content. */
  type Dir = map<string, Bytes>

  datatype Error =
    | InvalidName                    // Load: the name failed validCacheName
    | NoCachedFiles                  // Files: nothing matches `name.*`
    | BadTimestamp(field: string)    // Files: the second dot-field is not a number
    | NoHotFiles                     // Retrieve: entries exist but none is hot
    | ProducerFailed(reason: string) // the producer's own error, passed on unchanged

  datatype Result<T> = Ok(value: T) | Err(error: Error)

  /** Content and path of an entry, as Stash, Retrieve and Load return them. */
  datatype Stashed = Stashed(content: Bytes, path: string)

  /** The hot and cold entries of one cache, by base name. */
  datatype Listing = Listing(hot: seq<string>, cold: seq<string>)

  const NanosPerSecond: nat := 1_000_000_000

  // ------------------------------------------------------------------
  // Name check
  // ------------------------------------------------------------------

  predicate AllAlnum(s: string) { forall i :: 0 <= i < |s| ==> IsAlnum(s[i]) }

  /**
   * The unanchored match of `[[:alnum:]]+`: some non-empty stretch of the
   * name is entirely alphanumeric. Nothing else is required of the name.
   */
  predicate ValidCacheName(name: string)
  {
    exists i, j | 0 <= i < j <= |name| :: AllAlnum(name[i..j])
  }

  /** A name is valid exactly when it contains one ASCII letter or digit. */
  lemma ValidCacheNameIff(name: string)
    ensures ValidCacheName(name) <==> exists i | 0 <= i < |name| :: IsAlnum(name[i])
  {
    if ValidCacheName(name) {
      var i, j :| 0 <= i < j <= |name| && AllAlnum(name[i..j]);
      assert name[i..j][0] == name[i];
    }
    if exists i | 0 <= i < |name| :: IsAlnum(name[i]) {
      var i :| 0 <= i < |name| && IsAlnum(name[i]);
      assert AllAlnum(name[i..i + 1]);
    }
  }

  /** The empty name is refused, while a name with dots is accepted. */
  lemma ValidCacheNameExamples()
    ensures !ValidCacheName("")
    ensures ValidCacheName("has.dots")
  {
    ValidCacheNameIff("has.dots");
    assert IsAlnum("has.dots"[0]);
  }

  // ------------------------------------------------------------------
  // Entry names
  // ------------------------------------------------------------------

  /** The glob `name.*`: the base name starts with the name and a dot. */
  predicate IsEntryOf(key: string, name: string)
  {
    StartsWith(key, name + ".")
  }

  /** The base name Stash writes: the name, a dot and the decimal second. */
  function EntryKey(name: string, now: nat): string
  {
    name + "." + Decimal(now)
  }

  /**
   * The second dot-field of a base name, read as a second count. Every
   * entry has a second field; a base name without a dot is never an entry.
   */
  function Stamp(key: string): Option<nat>
  {
    ParseDecimal(StampField(key))
  }

  /** The second dot-field; empty (which does not parse) when there is none. */
  function StampField(key: string): string
  {
    var fields := SplitDots(key);
    if |fields| < 2 then "" else fields[1]
  }

  /** An entry of `name` whose second lies strictly after the cutoff. */
  predicate HotEntry(dir: Dir, name: string, cutoff: int, key: string)
  {
    key in dir && IsEntryOf(key, name) && Stamp(key).Some?
    && cutoff < Stamp(key).value * NanosPerSecond
  }

  /** An entry of `name` whose second is at or before the cutoff. */
  predicate ColdEntry(dir: Dir, name: string, cutoff: int, key: string)
  {
    key in dir && IsEntryOf(key, name) && Stamp(key).Some?
    && !(cutoff < Stamp(key).value * NanosPerSecond)
  }

  ghost predicate HasEntries(dir: Dir, name: string)
  {
    exists key :: key in dir && IsEntryOf(key, name)
  }

  /** Every entry of `name` carries a readable second. */
  ghost predicate WellFormed(dir: Dir, name: string)
  {
    forall key :: key in dir && IsEntryOf(key, name) ==> Stamp(key).Some?
  }

  ghost predicate HasHot(dir: Dir, name: string, cutoff: int)
  {
    exists key :: HotEntry(dir, name, cutoff, key)
  }

  /** `key` is the hot entry of `name` with the greatest base name. */
  ghost predicate IsNewestHot(dir: Dir, name: string, cutoff: int, key: string)
  {
    HotEntry(dir, name, cutoff, key)
    && forall other :: HotEntry(dir, name, cutoff, other) && other != key ==> LexLess(other, key)
  }

  /** `key` is the unreadable entry met first when the entries are walked in descending order. */
  ghost predicate IsFirstMalformed(dir: Dir, name: string, key: string)
  {
    key in dir && IsEntryOf(key, name) && Stamp(key).None?
    && forall other :: other in dir && IsEntryOf(other, name) && LexLess(key, other) ==> Stamp(other).Some?
  }

  /** The error Files reports for a name without entries or with an unreadable one. */
  ghost predicate ListingError(dir: Dir, name: string, e: Error)
  {
    || (!HasEntries(dir, name) && e == NoCachedFiles)
    || (HasEntries(dir, name)
        && exists key :: IsFirstMalformed(dir, name, key) && e == BadTimestamp(StampField(key)))
  }

  /** An entry's base name has the dot after the name, hence a second field. */
  lemma EntryHasDot(key: string, name: string)
    requires IsEntryOf(key, name)
    ensures key[|name|] == '.' && |SplitDots(key)| >= 2
  {
    assert key[|name|] == (name + ".")[|name|];
  }

  /** Once every entry has been placed, hot and cold hold exactly the hot and the cold entries. */
  lemma PartitionComplete(dir: Dir, name: string, cutoff: int, sorted: seq<string>,
                          hot: seq<string>, cold: seq<string>)
    requires |sorted| > 0
    requires forall k :: k in sorted <==> k in dir && IsEntryOf(k, name)
    requires forall j :: 0 <= j < |sorted| ==> Stamp(sorted[j]).Some?
    requires forall k :: k in hot <==> k in sorted && HotEntry(dir, name, cutoff, k)
    requires forall k :: k in cold <==> k in sorted && ColdEntry(dir, name, cutoff, k)
    ensures HasEntries(dir, name) && WellFormed(dir, name)
    ensures forall k :: k in hot <==> HotEntry(dir, name, cutoff, k)
    ensures forall k :: k in cold <==> ColdEntry(dir, name, cutoff, k)
    ensures forall k :: k in dir && IsEntryOf(k, name) ==> (k in hot) != (k in cold)
  {
    assert sorted[0] in sorted;
    forall k | k in dir && IsEntryOf(k, name) ensures Stamp(k).Some? {
      var j :| 0 <= j < |sorted| && sorted[j] == k;
    }
  }

  /**
   * The first `i` entries of `sorted` have been placed: they are readable,
   * and hot and cold are descending and hold exactly the hot and the cold
   * ones among them.
   */
  ghost predicate Placed(dir: Dir, name: string, cutoff: int, sorted: seq<string>, i: nat,
                   hot: seq<string>, cold: seq<string>)
    requires i <= |sorted|
  {
    && (forall j :: 0 <= j < i ==> Stamp(sorted[j]).Some?)
    && Descending(hot) && Descending(cold)
    && (forall k :: k in hot <==> k in sorted[..i] && HotEntry(dir, name, cutoff, k))
    && (forall k :: k in cold <==> k in sorted[..i] && ColdEntry(dir, name, cutoff, k))
  }

  /** Placing the next readable entry on the hot side, when it is hot, keeps `Placed`. */
  lemma PlaceHot(dir: Dir, name: string, cutoff: int, sorted: seq<string>, i: nat,
                 hot: seq<string>, cold: seq<string>)
    requires i < |sorted| && Descending(sorted)
    requires forall k :: k in sorted <==> k in dir && IsEntryOf(k, name)
    requires Stamp(sorted[i]).Some? && cutoff < Stamp(sorted[i]).value * NanosPerSecond
    requires Placed(dir, name, cutoff, sorted, i, hot, cold)
    ensures Placed(dir, name, cutoff, sorted, i + 1, hot + [sorted[i]], cold)
  {
    var key := sorted[i];
    assert key in sorted;
    BelowEarlier(sorted, i);
    assert sorted[..i + 1] == sorted[..i] + [key];
    DescendingSnoc(hot, key);
  }

  /** Placing the next readable entry on the cold side, when it is cold, keeps `Placed`. */
  lemma PlaceCold(dir: Dir, name: string, cutoff: int, sorted: seq<string>, i: nat,
                  hot: seq<string>, cold: seq<string>)
    requires i < |sorted| && Descending(sorted)
    requires forall k :: k in sorted <==> k in dir && IsEntryOf(k, name)
    requires Stamp(sorted[i]).Some? && !(cutoff < Stamp(sorted[i]).value * NanosPerSecond)
    requires Placed(dir, name, cutoff, sorted, i, hot, cold)
    ensures Placed(dir, name, cutoff, sorted, i + 1, hot, cold + [sorted[i]])
  {
    var key := sorted[i];
    assert key in sorted;
    BelowEarlier(sorted, i);
    assert sorted[..i + 1] == sorted[..i] + [key];
    DescendingSnoc(cold, key);
  }

  /**
   * Walking the entries in descending order, the first unreadable one seen
   * is the greatest unreadable one.
   */
  lemma FirstMalformedAt(dir: Dir, name: string, sorted: seq<string>, i: nat)
    requires i < |sorted| && Descending(sorted)
    requires forall k :: k in sorted <==> k in dir && IsEntryOf(k, name)
    requires forall j :: 0 <= j < i ==> Stamp(sorted[j]).Some?
    requires Stamp(sorted[i]).None?
    ensures IsFirstMalformed(dir, name, sorted[i])
    ensures HasEntries(dir, name) && !WellFormed(dir, name)
    ensures ListingError(dir, name, BadTimestamp(StampField(sorted[i])))
  {
    assert sorted[i] in sorted;
    forall other | other in dir && IsEntryOf(other, name) && LexLess(sorted[i], other)
      ensures Stamp(other).Some?
    {
      var j :| 0 <= j < |sorted| && sorted[j] == other;
      if j == i {
        LexLessAsymmetric(other, other);
      } else if j > i {
        LexLessAsymmetric(sorted[j], sorted[i]);
      }
    }
  }

  /** The first dot-fields of a list of base names, as a set. */
  function FirstFields(found: seq<string>): set<string>
  {
    if |found| == 0 then {} else FirstFields(found[..|found| - 1]) + {SplitDots(found[|found| - 1])[0]}
  }

  /** A string is among the first fields exactly when some listed name has it as first field. */
  lemma {:induction false} FirstFieldsMembers(found: seq<string>, n: string)
    ensures n in FirstFields(found) <==> exists j :: 0 <= j < |found| && SplitDots(found[j])[0] == n
  {
    if |found| > 0 {
      var init, last := found[..|found| - 1], found[|found| - 1];
      assert FirstFields(found) == FirstFields(init) + {SplitDots(last)[0]};
      FirstFieldsMembers(init, n);
      if SplitDots(last)[0] == n {
        assert SplitDots(found[|found| - 1])[0] == n;
      } else if n in FirstFields(init) {
        var j :| 0 <= j < |init| && SplitDots(init[j])[0] == n;
        assert found[j] == init[j];
      } else {
        forall j | 0 <= j < |found| ensures SplitDots(found[j])[0] != n {
          if j < |init| {
            assert init[j] == found[j];
          }
        }
      }
    }
  }

  /** The first fields of the listed files are the first fields of all files. */
  lemma FirstFieldsOfAll(dir: Dir, found: seq<string>, keys: seq<string>)
    requires forall k :: k in found <==> k in dir && StartsWith(k, "")
    requires forall n :: n in keys <==> n in FirstFields(found)
    ensures forall n :: n in keys <==> exists k :: k in dir && SplitDots(k)[0] == n
  {
    forall n ensures n in keys <==> exists k :: k in dir && SplitDots(k)[0] == n {
      FirstFieldsMembers(found, n);
      if n in keys {
        var j :| 0 <= j < |found| && SplitDots(found[j])[0] == n;
        assert found[j] in found;
      }
      if exists k :: k in dir && SplitDots(k)[0] == n {
        var k :| k in dir && SplitDots(k)[0] == n;
        assert StartsWith(k, "");
        var j :| 0 <= j < |found| && found[j] == k;
      }
    }
  }

  // ------------------------------------------------------------------
  // Properties of entry names and listings
  // ------------------------------------------------------------------

  /**
   * What Stash writes for `name` at second `now`: an entry of `name` whose
   * first field is the name's own first field, and whose second field is
   * `now` only for a name without a dot. For a dotted name the second field
   * comes from the name, so the recorded second is never read back.
   */
  lemma EntryKeyFields(name: string, now: nat)
    ensures IsEntryOf(EntryKey(name, now), name)
    ensures SplitDots(EntryKey(name, now))[0] == SplitDots(name)[0]
    ensures Stamp(EntryKey(name, now))
         == if '.' in name then ParseDecimal(SplitDots(name)[1]) else Some(now)
  {
    var key := EntryKey(name, now);
    assert key[..|name + "."|] == name + ".";
    SplitAppendedField(name, Decimal(now));
    ParseDecimalOfDecimal(now);
  }

  /** At most one entry is the newest hot one. */
  lemma NewestHotUnique(dir: Dir, name: string, cutoff: int, k1: string, k2: string)
    requires IsNewestHot(dir, name, cutoff, k1) && IsNewestHot(dir, name, cutoff, k2)
    ensures k1 == k2
  {
    if k1 != k2 {
      LexLessAsymmetric(k1, k2);
    }
  }

  /**
   * Stash followed by Retrieve: after writing `input` at second `now`, the
   * new entry is the newest hot one for any cutoff before `now`, provided
   * the name has no dot, its older entries are readable and none of its hot
   * entries sorts above the new one.
   */
  lemma RoundTrip(dir: Dir, name: string, input: Bytes, now: nat, cutoff: int)
    requires '.' !in name
    requires cutoff < now * NanosPerSecond
    requires WellFormed(dir, name)
    requires forall k :: HotEntry(dir, name, cutoff, k) ==>
               k == EntryKey(name, now) || LexLess(k, EntryKey(name, now))
    ensures var d := dir[EntryKey(name, now) := input];
      && HasEntries(d, name) && WellFormed(d, name) && HasHot(d, name, cutoff)
      && IsNewestHot(d, name, cutoff, EntryKey(name, now)) && d[EntryKey(name, now)] == input
  {
    var key := EntryKey(name, now);
    var d := dir[key := input];
    EntryKeyFields(name, now);
    assert HotEntry(d, name, cutoff, key);
    forall k | k in d && IsEntryOf(k, name) ensures Stamp(k).Some? {
      if k != key {
        assert k in dir;
      }
    }
    forall other | HotEntry(d, name, cutoff, other) && other != key
      ensures LexLess(other, key)
    {
      assert HotEntry(dir, name, cutoff, other);
    }
  }

  /**
   * A miss followed by a hit: when no entry of a dot-free name is hot, the
   * entry stashed at second `now` is the one served next for the same cutoff.
   */
  lemma MissThenHit(dir: Dir, name: string, output: Bytes, now: nat, cutoff: int)
    requires '.' !in name
    requires cutoff < now * NanosPerSecond
    requires WellFormed(dir, name) && !HasHot(dir, name, cutoff)
    ensures var d := dir[EntryKey(name, now) := output];
      && HasEntries(d, name) && WellFormed(d, name) && HasHot(d, name, cutoff)
      && IsNewestHot(d, name, cutoff, EntryKey(name, now))
  {
    RoundTrip(dir, name, output, now, cutoff);
  }

  /**
   * A cutoff at or after the current second (the "do not load cached
   * version" flag) leaves no entry written up to that second hot. When the
   * name has entries that all parse, Load therefore runs the producer
   * (`BypassLoadRunsProducer`); without entries, Load fails before that.
   */
  lemma BypassFindsNothingHot(dir: Dir, name: string, now: nat, cutoff: int)
    requires now * NanosPerSecond <= cutoff
    requires forall k :: k in dir && IsEntryOf(k, name) && Stamp(k).Some? ==> Stamp(k).value <= now
    ensures !HasHot(dir, name, cutoff)
  {
  }

  /**
   * With the cutoff anywhere in the current second or later, the entry Stash
   * writes at that second is cold: a Retrieve with the same cutoff does not
   * serve what a bypassing Load stashed.
   */
  lemma BypassStashedEntryIsCold(dir: Dir, name: string, output: Bytes, now: nat, cutoff: int)
    requires '.' !in name
    requires now * NanosPerSecond <= cutoff
    ensures var d := dir[EntryKey(name, now) := output];
      && ColdEntry(d, name, cutoff, EntryKey(name, now))
      && !HotEntry(d, name, cutoff, EntryKey(name, now))
  {
    EntryKeyFields(name, now);
  }

  /** Entries whose seconds have the same number of digits sort in time order. */
  lemma SameWidthKeysSortByTime(name: string, m: nat, n: nat)
    requires |Decimal(m)| == |Decimal(n)|
    ensures LexLess(EntryKey(name, m), EntryKey(name, n)) <==> m < n
  {
    assert EntryKey(name, m) == (name + ".") + Decimal(m);
    assert EntryKey(name, n) == (name + ".") + Decimal(n);
    CommonPrefixKeepsOrder(name + ".", Decimal(m), Decimal(n));
    DecimalOrder(m, n);
  }

  /**
   * Of two hot entries of a dot-free name, the one whose rendered second is
   * greater as a string is served, whatever the seconds are as numbers.
   */
  lemma NewestOfTwo(name: string, a: nat, b: nat, atA: Bytes, atB: Bytes, cutoff: int)
    requires '.' !in name
    requires LexLess(Decimal(b), Decimal(a))
    requires cutoff < a * NanosPerSecond
    ensures IsNewestHot(map[EntryKey(name, a) := atA, EntryKey(name, b) := atB], name, cutoff, EntryKey(name, a))
  {
    var ka, kb := EntryKey(name, a), EntryKey(name, b);
    EntryKeyFields(name, a);
    CommonPrefixKeepsOrder(name + ".", Decimal(b), Decimal(a));
    assert ka == (name + ".") + Decimal(a) && kb == (name + ".") + Decimal(b);
    LexLessAsymmetric(Decimal(b), Decimal(a));
  }

  /**
   * Names are compared as strings, not as times: with entries at seconds 99
   * and 100, the one at 99 sorts first and is the one served.
   */
  lemma OlderEntryCanSortFirst(name: string, older: Bytes, newer: Bytes, cutoff: int)
    requires '.' !in name
    requires cutoff < 99 * NanosPerSecond
    ensures var d := map[EntryKey(name, 99) := older, EntryKey(name, 100) := newer];
      IsNewestHot(d, name, cutoff, EntryKey(name, 99))
  {
    var s99, s100 := Decimal(99), Decimal(100);
    assert s99[0] == '9' && s100[0] == '1';
    assert LexLess(s100, s99);
    NewestOfTwo(name, 99, 100, older, newer, cutoff);
  }

  /**
   * A name with a dot whose second field is not a number passes the name
   * check when it holds a letter or digit, yet once stashed its entry is
   * unreadable: the second field read back is the name's, not the second.
   */
  lemma DottedNameIsUnreadable(dir: Dir, name: string, input: Bytes, now: nat)
    requires '.' in name && Stamp(name).None?
    ensures !WellFormed(dir[EntryKey(name, now) := input], name)
  {
    EntryKeyFields(name, now);
    var d := dir[EntryKey(name, now) := input];
    assert EntryKey(name, now) in d;
  }

  /** "has.dots" is such a name; its cache is enumerated as "has". */
  lemma HasDotsExample(now: nat)
    ensures ValidCacheName("has.dots") && '.' in "has.dots" && Stamp("has.dots").None?
    ensures SplitDots(EntryKey("has.dots", now))[0] == "has"
  {
    ValidCacheNameExamples();
    var name := "has.dots";
    assert name[3] == '.';
    assert name == "has" + "." + "dots";
    SplitAfterDotFree("has", "dots");
    SplitDotFree("dots");
    assert !IsDigit("dots"[0]);
    FirstFieldOfAppended(name, Decimal(now));
  }

  // ------------------------------------------------------------------
  // The producer (`fill`)
  // ------------------------------------------------------------------

  /** A producer with a fixed outcome that counts how often it is run. */
  class Producer {
    const output: Result<Bytes>
    var calls: nat

    constructor (output: Result<Bytes>)
      ensures this.output == output && calls == 0
    {
      this.output := output;
      calls := 0;
    }

    method Output() returns (r: Result<Bytes>)
      modifies this
      ensures r == output && calls == old(calls) + 1
    {
      calls := calls + 1;
      r := output;
    }
  }

  // ------------------------------------------------------------------
  // The store
  // ------------------------------------------------------------------

  class HoldDir {
    const path: string
    var files: Dir

    /** A store over the directory `path` that already holds `files`. */
    constructor (path: string, files: Dir)
      ensures this.path == path && this.files == files
    {
      this.path := path;
      this.files := files;
    }

    /** filepath.Join(path, key), without path cleaning. */
    function PathOf(key: string): string
    {
      path + "/" + key
    }

    /** filepath.Glob(path + "/" + prefix + "*"): the base names starting with `prefix`, each once. */
    method Glob(prefix: string) returns (found: seq<string>)
      ensures Distinct(found)
      ensures forall k :: k in found <==> k in files && StartsWith(k, prefix)
    {
      found := [];
      var rest := files.Keys;
      while rest != {}
        invariant rest <= files.Keys
        invariant Distinct(found)
        invariant forall k :: k in found ==> k !in rest
        invariant forall k :: k in found <==> k in files && k !in rest && StartsWith(k, prefix)
        decreases |rest|
      {
        var k :| k in rest;
        if StartsWith(k, prefix) {
          found := found + [k];
        }
        rest := rest - {k};
      }
    }

    /** The cache names present: the distinct first dot-fields of all files, descending. */
    method Caches() returns (names: seq<string>)
      ensures Descending(names)
      ensures forall n :: n in names <==> exists k :: k in files && SplitDots(k)[0] == n
    {
      var found := Glob("");
      var counts: map<string, nat> := map[];
      for i := 0 to |found|
        invariant counts.Keys == FirstFields(found[..i])
      {
        var first := SplitDots(found[i])[0];
        counts := counts[first := (if first in counts then counts[first] else 0) + 1];
        assert found[..i + 1][..i] == found[..i];
      }
      assert found[..|found|] == found;
      var keys: seq<string> := [];
      var rest := counts.Keys;
      while rest != {}
        invariant rest <= counts.Keys
        invariant Distinct(keys)
        invariant forall n :: n in keys ==> n !in rest
        invariant forall n :: n in keys <==> n in counts && n !in rest
        decreases |rest|
      {
        var key :| key in rest;
        keys := keys + [key];
        rest := rest - {key};
      }
      FirstFieldsOfAll(files, found, keys);
      names := SortDescending(keys);
    }

    /**
     * The entries of `name`, newest name first, split into hot and cold by
     * `cutoff < second`; an error when there is none or one is unreadable.
     */
    method Files(name: string, cutoff: int) returns (r: Result<Listing>)
      ensures r.Ok? <==> HasEntries(files, name) && WellFormed(files, name)
      ensures r.Err? ==> ListingError(files, name, r.error)
      ensures r.Ok? ==> Descending(r.value.hot) && Descending(r.value.cold)
      ensures r.Ok? ==> forall k :: k in r.value.hot <==> HotEntry(files, name, cutoff, k)
      ensures r.Ok? ==> forall k :: k in r.value.cold <==> ColdEntry(files, name, cutoff, k)
      ensures r.Ok? ==> forall k :: k in files && IsEntryOf(k, name) ==> (k in r.value.hot) != (k in r.value.cold)
    {
      var found := Glob(name + ".");
      if |found| == 0 {
        return Err(NoCachedFiles);
      }
      var sorted := SortDescending(found);
      var hot: seq<string> := [];
      var cold: seq<string> := [];
      for i := 0 to |sorted|
        invariant Placed(files, name, cutoff, sorted, i, hot, cold)
      {
        var key := sorted[i];
        assert key in sorted;
        EntryHasDot(key, name);
        var toks := SplitDots(key);
        var ts := ParseDecimal(toks[1]);
        if ts.None? {
          FirstMalformedAt(files, name, sorted, i);
          return Err(BadTimestamp(toks[1]));
        }
        if cutoff < ts.value * NanosPerSecond {
          PlaceHot(files, name, cutoff, sorted, i, hot, cold);
          hot := hot + [key];
        } else {
          PlaceCold(files, name, cutoff, sorted, i, hot, cold);
          cold := cold + [key];
        }
      }
      assert sorted[..|sorted|] == sorted;
      PartitionComplete(files, name, cutoff, sorted, hot, cold);
      return Ok(Listing(hot, cold));
    }

    /** The content and path of the newest hot entry of `name`. */
    method Retrieve(name: string, cutoff: int) returns (r: Result<Stashed>)
      ensures r.Ok? <==> HasEntries(files, name) && WellFormed(files, name) && HasHot(files, name, cutoff)
      ensures !(HasEntries(files, name) && WellFormed(files, name)) ==> r.Err? && ListingError(files, name, r.error)
      ensures HasEntries(files, name) && WellFormed(files, name) && !HasHot(files, name, cutoff) ==> r == Err(NoHotFiles)
      ensures r.Ok? ==> exists k :: IsNewestHot(files, name, cutoff, k) && r.value == Stashed(files[k], PathOf(k))
    {
      var listing := Files(name, cutoff);
      if listing.Err? {
        return Err(listing.error);
      }
      var hot := listing.value.hot;
      if |hot| == 0 {
        return Err(NoHotFiles);
      }
      var key := hot[0];
      assert IsNewestHot(files, name, cutoff, key) by {
        forall other | HotEntry(files, name, cutoff, other) && other != key
          ensures LexLess(other, key)
        {
          var j :| 0 <= j < |hot| && hot[j] == other;
        }
      }
      return Ok(Stashed(files[key], PathOf(key)));
    }

    /** Writes `input` as the entry of `name` at second `now`, replacing one of that second. */
    method Stash(name: string, input: Bytes, now: nat) returns (s: Stashed)
      modifies this
      ensures files == old(files)[EntryKey(name, now) := input]
      ensures s == Stashed(input, PathOf(EntryKey(name, now)))
    {
      var stamp := Decimal(now);
      var stem := path + "/" + name;
      var entryPath := stem + "." + stamp;
      files := files[name + "." + stamp := input];
      assert entryPath == PathOf(EntryKey(name, now));
      s := Stashed(input, entryPath);
    }

    /**
     * Get-or-compute: the newest hot entry if there is one, otherwise the
     * producer's output, stashed. A name without any entry is an error.
     */
    method Load(name: string, cutoff: int, now: nat, fill: Producer) returns (r: Result<Stashed>)
      modifies this, fill
      ensures !ValidCacheName(name) ==>
        r == Err(InvalidName) && files == old(files) && fill.calls == old(fill.calls)
      ensures ValidCacheName(name) && !(HasEntries(old(files), name) && WellFormed(old(files), name)) ==>
        r.Err? && ListingError(old(files), name, r.error)
        && files == old(files) && fill.calls == old(fill.calls)
      ensures (&& ValidCacheName(name) && HasEntries(old(files), name) && WellFormed(old(files), name)
               && HasHot(old(files), name, cutoff)) ==>
        files == old(files) && fill.calls == old(fill.calls)
        && exists k :: IsNewestHot(files, name, cutoff, k) && r == Ok(Stashed(files[k], PathOf(k)))
      ensures (&& ValidCacheName(name) && HasEntries(old(files), name) && WellFormed(old(files), name)
               && !HasHot(old(files), name, cutoff)) ==>
        fill.calls == old(fill.calls) + 1
        && match fill.output
           case Err(e) => r == Err(e) && files == old(files)
           case Ok(out) => r == Ok(Stashed(out, PathOf(EntryKey(name, now))))
                           && files == old(files)[EntryKey(name, now) := out]
    {
      if !ValidCacheName(name) {
        return Err(InvalidName);
      }
      var listing := Files(name, cutoff);
      if listing.Err? {
        return Err(listing.error);
      }
      if |listing.value.hot| > 0 {
        assert listing.value.hot[0] in listing.value.hot;
        // A failed Retrieve is returned as it is, which is what the source's
        // early return amounts to; with the directory unchanged since Files it
        // cannot fail here.
        r := Retrieve(name, cutoff);
      } else {
        var result := fill.Output();
        if result.Err? {
          return Err(result.error);
        }
        var stashed := Stash(name, result.value, now);
        r := Ok(stashed);
      }
    }
  }

  // ------------------------------------------------------------------
  // Clients
  // ------------------------------------------------------------------

  /**
   * Stash followed by Retrieve with a cutoff before the write: the bytes
   * written come back, from the path Stash reported.
   */
  method StashThenRetrieve(h: HoldDir, name: string, input: Bytes, now: nat, cutoff: int)
      returns (stashed: Stashed, got: Result<Stashed>)
    requires '.' !in name
    requires cutoff < now * NanosPerSecond
    requires WellFormed(h.files, name)
    requires forall k :: HotEntry(h.files, name, cutoff, k) ==>
               k == EntryKey(name, now) || LexLess(k, EntryKey(name, now))
    modifies h
    ensures stashed.content == input
    ensures got == Ok(stashed)
  {
    ghost var before := h.files;
    stashed := h.Stash(name, input, now);
    RoundTrip(before, name, input, now, cutoff);
    got := h.Retrieve(name, cutoff);
    ghost var k :| IsNewestHot(h.files, name, cutoff, k) && got.value == Stashed(h.files[k], h.PathOf(k));
    NewestHotUnique(h.files, name, cutoff, k, EntryKey(name, now));
  }

  /**
   * Two Loads of a dot-free name whose entries are all stale: the first runs
   * the producer and stashes its output, the second serves that entry
   * without running the producer again.
   */
  method LoadMissThenHit(h: HoldDir, name: string, cutoff: int, now: nat, fill: Producer)
      returns (first: Result<Stashed>, second: Result<Stashed>)
    requires ValidCacheName(name) && '.' !in name
    requires cutoff < now * NanosPerSecond
    requires HasEntries(h.files, name) && WellFormed(h.files, name) && !HasHot(h.files, name, cutoff)
    requires fill.output.Ok?
    modifies h, fill
    ensures first.Ok? && first.value.content == fill.output.value
    ensures second == first
    ensures fill.calls == old(fill.calls) + 1
  {
    ghost var before := h.files;
    first := h.Load(name, cutoff, now, fill);
    MissThenHit(before, name, fill.output.value, now, cutoff);
    second := h.Load(name, cutoff, now, fill);
    ghost var k :| IsNewestHot(h.files, name, cutoff, k) && second == Ok(Stashed(h.files[k], h.PathOf(k)));
    NewestHotUnique(h.files, name, cutoff, k, EntryKey(name, now));
  }

  /**
   * Load with the bypass cutoff on a name whose entries exist, all parse and
   * were written no later than `now`: the producer runs once, and its
   * outcome is what Load gives back.
   */
  method BypassLoadRunsProducer(h: HoldDir, name: string, now: nat, cutoff: int, fill: Producer)
      returns (r: Result<Stashed>)
    requires ValidCacheName(name)
    requires HasEntries(h.files, name) && WellFormed(h.files, name)
    requires now * NanosPerSecond <= cutoff
    requires forall k :: k in h.files && IsEntryOf(k, name) && Stamp(k).Some? ==> Stamp(k).value <= now
    modifies h, fill
    ensures fill.calls == old(fill.calls) + 1
    ensures match fill.output
      case Err(e) => r == Err(e) && h.files == old(h.files)
      case Ok(out) => r == Ok(Stashed(out, h.PathOf(EntryKey(name, now))))
                      && h.files == old(h.files)[EntryKey(name, now) := out]
  {
    BypassFindsNothingHot(h.files, name, now, cutoff);
    r := h.Load(name, cutoff, now, fill);
  }
}
