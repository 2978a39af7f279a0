/** A Mintfile: how each `packages` entry becomes a package reference or a
    validation error, how a whole file is loaded, and how a package is looked
    up by (part of) its repo. */
module MintfileYAML {
  import opened Wrappers
  import opened Text
  import opened Ordering
  import opened PackageReference
  import opened MintError

  /** One `packages` entry of a Mintfile, key to value. */
  type Entry = map<string, string>

  /** The keys that say where a package lives. */
  const LocationKeys: seq<string> := ["github", "git", "local_git", "local_package"]

  /** The keys that say which revision to fetch. */
  const RevisionKeys: seq<string> := ["branch", "commit", "tag"]

  predicate Distinct(s: seq<string>) {
    forall i, j :: 0 <= i < j < |s| ==> s[i] != s[j]
  }

  /** The entry has one of `keys`. */
  predicate HasKey(entry: Entry, keys: seq<string>) {
    exists k :: k in keys && k in entry
  }

  /** The entry has two different ones of `keys`. */
  predicate HasTwoKeys(entry: Entry, keys: seq<string>) {
    exists k1, k2 :: k1 in keys && k2 in keys && k1 != k2 && k1 in entry && k2 in entry
  }

  /** The ones of `keys` the entry has, in the order of `keys`. */
  function Present(entry: Entry, keys: seq<string>): (r: seq<string>)
    ensures forall k :: k in r <==> k in keys && k in entry
    ensures Distinct(keys) ==> Distinct(r)
    decreases |keys|
  {
    if keys == [] then []
    else
      var rest := Present(entry, keys[1..]);
      assert forall k :: k in rest ==> k in keys[1..];
      if keys[0] in entry then [keys[0]] + rest else rest
  }

  /** More than one present key means two different keys are present, and
      the other way round. */
  lemma PresentCount(entry: Entry, keys: seq<string>)
    requires Distinct(keys)
    ensures |Present(entry, keys)| > 0 <==> HasKey(entry, keys)
    ensures |Present(entry, keys)| > 1 <==> HasTwoKeys(entry, keys)
  {
    var r := Present(entry, keys);
    if |r| > 0 {
      assert r[0] in r;
    }
    if |r| > 1 {
      assert r[0] in r && r[1] in r;
    }
    if HasTwoKeys(entry, keys) {
      var k1, k2 :| k1 in keys && k2 in keys && k1 != k2 && k1 in entry && k2 in entry;
      var i :| 0 <= i < |r| && r[i] == k1;
      var j :| 0 <= j < |r| && r[j] == k2;
      assert i != j;
    }
  }

  function LocationFor(key: string, value: string): Location
    requires key in LocationKeys
  {
    if key == "github" then GitHub(value)
    else if key == "git" then Git(value)
    else if key == "local_git" then LocalGit(value)
    else LocalPackage(value)
  }

  function RevisionFor(key: string, value: string): Revision
    requires key in RevisionKeys
  {
    if key == "branch" then Branch(value)
    else if key == "commit" then Commit(value)
    else Tag(value)
  }

  /** The revision part of `init(yamlEntry:)`, once the location is known:
      a local package takes no revision key at all, any other location at
      most one. The revision keys an error reports are sorted. */
  function WithRevision(entry: Entry, location: Location): (r: Result<Reference, Error>)
    ensures r.Failure? ==>
              (r.error.RevisionDuplicated? || r.error.LocalPackageNeverHaveRevisionSpecifier?) &&
              r.error.location == location &&
              Sorted(r.error.keys) && multiset(r.error.keys) == multiset(Present(entry, RevisionKeys)) &&
              forall k :: k in r.error.keys <==> k in RevisionKeys && k in entry
  {
    var revisions := Present(entry, RevisionKeys);
    SortKeepsElements(revisions);
    if location.LocalPackage? && |revisions| > 0 then
      Failure(LocalPackageNeverHaveRevisionSpecifier(location, Sort(revisions)))
    else if |revisions| > 1 then
      Failure(RevisionDuplicated(location, Sort(revisions)))
    else if |revisions| == 0 then
      Success(Reference(location, None))
    else
      Success(Reference(location, Some(RevisionFor(revisions[0], entry[revisions[0]]))))
  }

  /** `init(yamlEntry:)`: exactly one location key is required. */
  function FromEntry(entry: Entry): Result<Reference, Error> {
    var locations := Present(entry, LocationKeys);
    if |locations| == 0 then Failure(LocationSpecifierNotFound(entry))
    else if |locations| > 1 then Failure(LocationDuplicated(entry))
    else WithRevision(entry, LocationFor(locations[0], entry[locations[0]]))
  }

  lemma KeyListsDistinct()
    ensures Distinct(LocationKeys) && Distinct(RevisionKeys)
    ensures forall k :: k in LocationKeys ==> k !in RevisionKeys
  {
  }

  // ---------------------------------------------------------------------------
  // What an entry turns into

  /** An entry without a location key fails with `locationSpecifierNotFound`,
      and no other entry does. */
  lemma NoLocationFails(entry: Entry)
    ensures FromEntry(entry) == Failure(LocationSpecifierNotFound(entry)) <==> !HasKey(entry, LocationKeys)
  {
    KeyListsDistinct();
    PresentCount(entry, LocationKeys);
  }

  /** An entry with two location keys fails with `locationDuplicated`, and no
      other entry does. */
  lemma TwoLocationsFail(entry: Entry)
    ensures FromEntry(entry) == Failure(LocationDuplicated(entry)) <==> HasTwoKeys(entry, LocationKeys)
  {
    KeyListsDistinct();
    PresentCount(entry, LocationKeys);
  }

  /** With exactly one location key, that key and its value are the
      location, and the revision keys decide the rest. */
  lemma OneLocation(entry: Entry, key: string)
    requires key in LocationKeys && key in entry && !HasTwoKeys(entry, LocationKeys)
    ensures FromEntry(entry) == WithRevision(entry, LocationFor(key, entry[key]))
  {
    KeyListsDistinct();
    PresentCount(entry, LocationKeys);
    var locations := Present(entry, LocationKeys);
    assert key in locations;
  }

  /** A local package fails on any revision key, even a single one, and
      this takes precedence over `revisionDuplicated`. */
  lemma LocalPackageTakesNoRevision(entry: Entry, path: string)
    ensures var r := WithRevision(entry, LocalPackage(path));
            if HasKey(entry, RevisionKeys) then r.Failure? && r.error.LocalPackageNeverHaveRevisionSpecifier?
            else r == Success(Reference(LocalPackage(path), None))
  {
    KeyListsDistinct();
    PresentCount(entry, RevisionKeys);
  }

  /** Any other location takes at most one revision key: two or more fail
      with `revisionDuplicated`, none means no revision. */
  lemma RemoteTakesOneRevision(entry: Entry, location: Location)
    requires !location.LocalPackage?
    ensures var r := WithRevision(entry, location);
            (r.Failure? <==> HasTwoKeys(entry, RevisionKeys)) &&
            (r.Failure? ==> r.error.RevisionDuplicated?) &&
            (!HasKey(entry, RevisionKeys) ==> r == Success(Reference(location, None)))
  {
    KeyListsDistinct();
    PresentCount(entry, RevisionKeys);
  }

  /** A single revision key and its value are the revision. */
  lemma OneRevision(entry: Entry, location: Location, key: string)
    requires !location.LocalPackage?
    requires key in RevisionKeys && key in entry && !HasTwoKeys(entry, RevisionKeys)
    ensures WithRevision(entry, location) == Success(Reference(location, Some(RevisionFor(key, entry[key]))))
  {
    KeyListsDistinct();
    PresentCount(entry, RevisionKeys);
    var revisions := Present(entry, RevisionKeys);
    assert key in revisions;
  }

  lemma {:induction false} PresentIgnores(entry: Entry, keys: seq<string>, key: string, value: string)
    requires key !in keys
    ensures Present(entry[key := value], keys) == Present(entry, keys)
    decreases |keys|
  {
    if keys != [] {
      PresentIgnores(entry, keys[1..], key, value);
    }
  }

  /** Keys that are neither location nor revision keys, such as `otherkey`,
      change nothing but the entry a location error carries. */
  lemma OtherKeysIgnored(entry: Entry, key: string, value: string)
    requires key !in LocationKeys && key !in RevisionKeys
    ensures var before, after := FromEntry(entry), FromEntry(entry[key := value]);
            if before == Failure(LocationSpecifierNotFound(entry)) then
              after == Failure(LocationSpecifierNotFound(entry[key := value]))
            else if before == Failure(LocationDuplicated(entry)) then
              after == Failure(LocationDuplicated(entry[key := value]))
            else after == before
  {
    var extended := entry[key := value];
    PresentIgnores(entry, LocationKeys, key, value);
    PresentIgnores(entry, RevisionKeys, key, value);
    var locations := Present(entry, LocationKeys);
    if |locations| == 1 {
      assert extended[locations[0]] == entry[locations[0]];
      var revisions := Present(entry, RevisionKeys);
      if |revisions| == 1 {
        assert extended[revisions[0]] == entry[revisions[0]];
      }
    }
  }

  // ---------------------------------------------------------------------------
  // The entry that describes a reference

  function LocationKey(l: Location): (k: string)
    ensures k in LocationKeys
  {
    match l
    case GitHub(_) => "github"
    case Git(_) => "git"
    case LocalGit(_) => "local_git"
    case LocalPackage(_) => "local_package"
  }

  function RevisionKey(r: Revision): (k: string)
    requires !r.Semver?
    ensures k in RevisionKeys
  {
    match r
    case Branch(_) => "branch"
    case Commit(_) => "commit"
    case Tag(_) => "tag"
  }

  /** A reference a Mintfile entry can state: no numbered version, and no
      revision at all for a local package. */
  predicate Describable(r: Reference) {
    (r.revision.Some? ==> !r.revision.value.Semver? && !r.location.LocalPackage?)
  }

  /** The Mintfile entry that states a reference. */
  function ToEntry(r: Reference): Entry
    requires Describable(r)
  {
    var e := map[LocationKey(r.location) := LocationString(r.location)];
    if r.revision.Some? then e[RevisionKey(r.revision.value) := RevisionString(r.revision.value)] else e
  }

  lemma LocationForKey(l: Location)
    ensures LocationFor(LocationKey(l), LocationString(l)) == l
  {
  }

  lemma RevisionForKey(r: Revision)
    requires !r.Semver?
    ensures RevisionFor(RevisionKey(r), RevisionString(r)) == r
  {
  }

  /** Reading back the entry of a reference gives the reference. */
  lemma EntryRoundTrip(r: Reference)
    requires Describable(r)
    ensures FromEntry(ToEntry(r)) == Success(r)
  {
    var entry := ToEntry(r);
    var key := LocationKey(r.location);
    KeyListsDistinct();
    assert forall k :: k in LocationKeys && k in entry ==> k == key;
    OneLocation(entry, key);
    LocationForKey(r.location);
    if r.revision.None? {
      assert forall k :: k in RevisionKeys ==> k !in entry;
      if r.location.LocalPackage? {
        LocalPackageTakesNoRevision(entry, r.location.path);
      } else {
        RemoteTakesOneRevision(entry, r.location);
      }
    } else {
      var rev := r.revision.value;
      assert forall k :: k in RevisionKeys && k in entry ==> k == RevisionKey(rev);
      OneRevision(entry, r.location, RevisionKey(rev));
      RevisionForKey(rev);
    }
  }

  /** The known keys of an entry. */
  function Known(entry: Entry): Entry {
    map k | k in entry && (k in LocationKeys || k in RevisionKeys) :: entry[k]
  }

  lemma KeyOfLocationFor(key: string, value: string)
    requires key in LocationKeys
    ensures LocationKey(LocationFor(key, value)) == key && LocationString(LocationFor(key, value)) == value
  {
  }

  lemma KeyOfRevisionFor(key: string, value: string)
    requires key in RevisionKeys
    ensures !RevisionFor(key, value).Semver?
    ensures RevisionKey(RevisionFor(key, value)) == key && RevisionString(RevisionFor(key, value)) == value
  {
  }

  /** The location of a reading comes from the entry's one location key. */
  lemma ReadingLocation(entry: Entry)
    requires FromEntry(entry).Success?
    ensures var l := FromEntry(entry).value.location;
            LocationKey(l) in entry && entry[LocationKey(l)] == LocationString(l) &&
            forall k :: k in LocationKeys && k in entry ==> k == LocationKey(l)
  {
    KeyListsDistinct();
    PresentCount(entry, LocationKeys);
    var locations := Present(entry, LocationKeys);
    var key := locations[0];
    assert key in locations;
    OneLocation(entry, key);
    KeyOfLocationFor(key, entry[key]);
  }

  /** The revision of a reading comes from the entry's revision key, if it
      has one. */
  lemma ReadingRevision(entry: Entry)
    requires FromEntry(entry).Success?
    ensures var r := FromEntry(entry).value;
            Describable(r) &&
            (r.revision.None? ==> forall k :: k in RevisionKeys ==> k !in entry) &&
            (r.revision.Some? ==>
               var key := RevisionKey(r.revision.value);
               key in entry && entry[key] == RevisionString(r.revision.value) &&
               forall k :: k in RevisionKeys && k in entry ==> k == key)
  {
    var r := FromEntry(entry).value;
    ReadingLocation(entry);
    var l := r.location;
    OneLocation(entry, LocationKey(l));
    KeyListsDistinct();
    PresentCount(entry, RevisionKeys);
    if l.LocalPackage? {
      LocalPackageTakesNoRevision(entry, l.path);
    } else {
      RemoteTakesOneRevision(entry, l);
      var revisions := Present(entry, RevisionKeys);
      if |revisions| == 1 {
        assert revisions[0] in revisions;
        OneRevision(entry, l, revisions[0]);
        KeyOfRevisionFor(revisions[0], entry[revisions[0]]);
      }
    }
  }

  lemma SameEntries(a: Entry, b: Entry)
    requires b.Keys <= a.Keys && forall k :: k in a ==> k in b && a[k] == b[k]
    ensures a == b
  {
  }

  lemma KnownIsStated(entry: Entry)
    requires FromEntry(entry).Success?
    ensures Describable(FromEntry(entry).value)
    ensures var known, stated := Known(entry), ToEntry(FromEntry(entry).value);
            forall k :: k in known ==> k in stated && known[k] == stated[k]
  {
    var r := FromEntry(entry).value;
    ReadingLocation(entry);
    ReadingRevision(entry);
    KeyListsDistinct();
    var known, stated := Known(entry), ToEntry(r);
    forall k | k in known
      ensures k in stated && known[k] == stated[k]
    {
      if k in LocationKeys {
        assert k == LocationKey(r.location);
      } else {
        assert r.revision.Some? && k == RevisionKey(r.revision.value);
      }
    }
  }

  lemma StatedIsKnown(entry: Entry)
    requires FromEntry(entry).Success?
    ensures Describable(FromEntry(entry).value)
    ensures Known(entry).Keys >= ToEntry(FromEntry(entry).value).Keys
  {
    ReadingLocation(entry);
    ReadingRevision(entry);
  }

  /** An entry that reads as a reference states that reference and nothing
      else a reader looks at. */
  lemma EntryOfReading(entry: Entry)
    requires FromEntry(entry).Success?
    ensures Describable(FromEntry(entry).value)
    ensures Known(entry) == ToEntry(FromEntry(entry).value)
  {
    KnownIsStated(entry);
    StatedIsKnown(entry);
    SameEntries(Known(entry), ToEntry(FromEntry(entry).value));
  }

  // ---------------------------------------------------------------------------
  // Loading a Mintfile

  /** A loaded Mintfile: its package references. */
  datatype Mintfile = Mintfile(packages: seq<Reference>)

  /** `try xs.map(f)`: every element mapped in order, stopping at the
      first one that throws. */
  function TryMap<A, B(==), E(==)>(f: A -> Result<B, E>, xs: seq<A>): (r: Result<seq<B>, E>)
    ensures r.Success? <==> forall i :: 0 <= i < |xs| ==> f(xs[i]).Success?
    ensures r.Success? ==>
              |r.value| == |xs| &&
              forall i :: 0 <= i < |xs| ==> f(xs[i]) == Success(r.value[i])
    ensures r.Failure? ==>
              exists i :: 0 <= i < |xs| && f(xs[i]) == Failure(r.error) &&
                          forall j :: 0 <= j < i ==> f(xs[j]).Success?
    decreases |xs|
  {
    if xs == [] then Success([])
    else
      var first := f(xs[0]);
      if first.Failure? then Failure(first.error)
      else
        var rest := TryMap(f, xs[1..]);
        if rest.Failure? then
          var i :| 0 <= i < |xs[1..]| && f(xs[1..][i]) == Failure(rest.error) &&
                   forall j :: 0 <= j < i ==> f(xs[1..][j]).Success?;
          assert f(xs[i + 1]) == Failure(rest.error);
          Failure(rest.error)
        else
          assert forall i :: 1 <= i < |xs| ==> xs[i] == xs[1..][i - 1];
          Success([first.value] + rest.value)
  }

  /** `init(path:)`, with whether the file exists and the entries its
      `packages` list holds as inputs: a missing file fails before anything
      is read; otherwise there is one reference per entry, in entry order,
      unless an entry fails. */
  function Load(pathExists: bool, path: string, entries: seq<Entry>): (r: Result<Mintfile, Error>)
    ensures !pathExists ==> r == Failure(MintfileNotFound(path))
    ensures r.Success? <==> pathExists && forall i :: 0 <= i < |entries| ==> FromEntry(entries[i]).Success?
    ensures r.Success? ==>
              |r.value.packages| == |entries| &&
              forall i :: 0 <= i < |entries| ==> FromEntry(entries[i]) == Success(r.value.packages[i])
    ensures pathExists && r.Failure? ==>
              exists i :: 0 <= i < |entries| && FromEntry(entries[i]) == Failure(r.error) &&
                          forall j :: 0 <= j < i ==> FromEntry(entries[j]).Success?
  {
    if !pathExists then Failure(MintfileNotFound(path))
    else
      var packages := TryMap(FromEntry, entries);
      if packages.Failure? then Failure(packages.error) else Success(Mintfile(packages.value))
  }

  // ---------------------------------------------------------------------------
  // package(for:)

  /** The lookup rule: the lowercased repo contains the lowercased query. */
  predicate Matches(p: Reference, query: string) {
    Contains(Lower(Repo(p)), Lower(query))
  }

  /** `first { }` with the lookup rule. */
  function FirstMatch(packages: seq<Reference>, query: string): (r: Option<Reference>)
    ensures r.None? <==> forall i :: 0 <= i < |packages| ==> !Matches(packages[i], query)
    ensures r.Some? ==>
              exists i :: 0 <= i < |packages| && packages[i] == r.value && Matches(r.value, query) &&
                          forall j :: 0 <= j < i ==> !Matches(packages[j], query)
    decreases |packages|
  {
    if packages == [] then None
    else if Matches(packages[0], query) then Some(packages[0])
    else
      var r := FirstMatch(packages[1..], query);
      assert forall i :: 1 <= i < |packages| ==> packages[i] == packages[1..][i - 1];
      if r.Some? then
        var i :| 0 <= i < |packages[1..]| && packages[1..][i] == r.value && Matches(r.value, query) &&
                 forall j :: 0 <= j < i ==> !Matches(packages[1..][j], query);
        assert packages[i + 1] == r.value;
        r
      else r
  }

  /** `package(for:)`: the first package, in Mintfile order, whose repo
      contains the query, ignoring case. */
  function PackageFor(mintfile: Mintfile, repo: string): Option<Reference> {
    FirstMatch(mintfile.packages, repo)
  }

  /** Queries that differ only in case find the same package. */
  lemma {:induction false} LookupIgnoresCase(packages: seq<Reference>, query: string, recased: string)
    requires Lower(query) == Lower(recased)
    ensures FirstMatch(packages, query) == FirstMatch(packages, recased)
    decreases |packages|
  {
    if packages != [] {
      LookupIgnoresCase(packages[1..], query, recased);
    }
  }

  /** A query finds what its lowercase form finds. */
  lemma LookupOfLowercase(mintfile: Mintfile, repo: string)
    ensures PackageFor(mintfile, Lower(repo)) == PackageFor(mintfile, repo)
  {
    LowerIdempotent(repo);
    LookupIgnoresCase(mintfile.packages, Lower(repo), repo);
  }
}
