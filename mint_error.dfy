/** Mint's errors: the message each one carries, and Mint's rule that two
    errors are the same error exactly when their messages are the same. */
module MintError {
  import opened Wrappers
  import opened Text
  import opened Ordering
  import opened PackageReference

  /** The errors raised while reading a Mintfile and fetching a package. The
      last four are raised while reading the entries of a Mintfile; `entry`
      is such an entry, key to value. */
  datatype Error =
    | CloneError(reference: Reference)
    | MintfileNotFound(path: string)
    | LocationDuplicated(entry: map<string, string>)
    | RevisionDuplicated(location: Location, keys: seq<string>)
    | LocalPackageNeverHaveRevisionSpecifier(location: Location, keys: seq<string>)
    | LocationSpecifierNotFound(entry: map<string, string>)

  /** The errors about a malformed Mintfile entry. */
  predicate IsValidation(e: Error) {
    e.LocationDuplicated? || e.RevisionDuplicated? ||
    e.LocalPackageNeverHaveRevisionSpecifier? || e.LocationSpecifierNotFound?
  }

  /** `s.quoted`: `s` between double quotes. */
  function Quoted(s: string): string {
    "\"" + s + "\""
  }

  /** A location as a message prints it: the case name and its labelled,
      quoted value, e.g. `github(repo: "user/repo")`. */
  function LocationText(l: Location): string {
    match l
    case GitHub(repo) => "github(repo: " + Quoted(repo) + ")"
    case Git(url) => "git(location: " + Quoted(url) + ")"
    case LocalGit(path) => "localGit(absolutePath: " + Quoted(path) + ")"
    case LocalPackage(path) => "localPackage(absolutePath: " + Quoted(path) + ")"
  }

  /** The `"key": "value"` pairs of an entry, keys in increasing order. */
  function EntryPairs(entry: map<string, string>): (pairs: seq<string>)
    ensures |pairs| == |entry|
  {
    var keys := SortedElements(entry.Keys);
    seq(|keys|, i requires 0 <= i < |keys| => Quoted(keys[i]) + ": " + Quoted(entry[keys[i]]))
  }

  /** An entry as a message prints it: `[:]` when it is empty, otherwise its
      pairs separated by `, ` between brackets. */
  function EntryText(entry: map<string, string>): string {
    if entry == map[] then "[:]" else "[" + Join(EntryPairs(entry), ", ") + "]"
  }

  /** Revision keys as a message lists them: `sorted()`, joined by `, `. */
  function KeyList(keys: seq<string>): string {
    Join(Sort(keys), ", ")
  }

  /** The message of `cloneError`: the URL and the version that could not
      be cloned. */
  function CloneErrorText(r: Reference): string {
    "Couldn't clone " + GitPath(r) + " " + Version(r)
  }

  /** The message of `revisionDuplicated`. */
  function RevisionDuplicatedText(l: Location, list: string): string {
    LocationText(l) + " has more than one " + "revision specifier. (" + list + ")"
  }

  /** The message of `localPackageNeverHaveRevisionSpecifier`. */
  function LocalPackageText(l: Location, list: string): string {
    "Local package " + LocationText(l) + " cannot have " + "revision specifier. (" + list + ")"
  }

  /** The message of `locationSpecifierNotFound`. */
  function LocationNotFoundText(entry: map<string, string>): string {
    "No location specifier found. " + "package info: " + EntryText(entry)
  }

  /** The message of `locationDuplicated`. */
  function LocationDuplicatedText(entry: map<string, string>): string {
    "There is a package that has " + "more than one location specifier. " + "package info: " + EntryText(entry)
  }

  /** `description`. */
  function Description(e: Error): string {
    match e
    case CloneError(r) => CloneErrorText(r)
    case MintfileNotFound(path) => path + " not found"
    case RevisionDuplicated(l, keys) => RevisionDuplicatedText(l, KeyList(keys))
    case LocalPackageNeverHaveRevisionSpecifier(l, keys) => LocalPackageText(l, KeyList(keys))
    case LocationSpecifierNotFound(entry) => LocationNotFoundText(entry)
    case LocationDuplicated(entry) => LocationDuplicatedText(entry)
  }

  /** `==` on errors: equal descriptions. */
  predicate Equal(a: Error, b: Error) {
    Description(a) == Description(b)
  }

  // ---------------------------------------------------------------------------
  // What equality by description identifies and what it keeps apart

  lemma KeyListIgnoresOrder(a: seq<string>, b: seq<string>)
    requires multiset(a) == multiset(b)
    ensures KeyList(a) == KeyList(b)
  {
    SortIgnoresOrder(a, b);
  }

  /** The revision keys are listed sorted, so the order in which they were
      found does not change the message or the error's identity. */
  lemma KeyOrderIgnored(l: Location, a: seq<string>, b: seq<string>)
    requires multiset(a) == multiset(b)
    ensures Equal(RevisionDuplicated(l, a), RevisionDuplicated(l, b))
    ensures Equal(LocalPackageNeverHaveRevisionSpecifier(l, a), LocalPackageNeverHaveRevisionSpecifier(l, b))
  {
    KeyListIgnoresOrder(a, b);
  }

  /** Every pair of the entry is printed in the message. */
  lemma EntryTextListsPairs(entry: map<string, string>, key: string)
    requires key in entry
    ensures Contains(EntryText(entry), Quoted(key) + ": " + Quoted(entry[key]))
  {
    var keys := SortedElements(entry.Keys);
    var i :| 0 <= i < |keys| && keys[i] == key;
    var pairs := EntryPairs(entry);
    JoinContainsPart(pairs, ", ", i);
    ContainsInSuffix("[", Join(pairs, ", "), pairs[i]);
    ContainsInPrefix("[" + Join(pairs, ", "), "]", pairs[i]);
  }

  /** The character the message of a validation or clone error starts with:
      the location's case name for `revisionDuplicated`, a fixed capital
      letter for the others. */
  function LeadChar(e: Error): char
    requires !e.MintfileNotFound?
  {
    match e
    case RevisionDuplicated(l, _) => if l.GitHub? || l.Git? then 'g' else 'l'
    case LocalPackageNeverHaveRevisionSpecifier(_, _) => 'L'
    case LocationSpecifierNotFound(_) => 'N'
    case LocationDuplicated(_) => 'T'
    case CloneError(_) => 'C'
  }

  lemma LocationTextLead(l: Location)
    ensures LocationText(l) != [] && LocationText(l)[0] == (if l.GitHub? || l.Git? then 'g' else 'l')
  {
  }

  lemma RevisionDuplicatedLead(l: Location, list: string)
    ensures var d := RevisionDuplicatedText(l, list); d != [] && d[0] == LocationText(l)[0]
  {
    LocationTextLead(l);
  }

  lemma LocalPackageLead(l: Location, list: string)
    ensures var d := LocalPackageText(l, list); d != [] && d[0] == 'L'
  {
  }

  lemma LocationNotFoundLead(entry: map<string, string>)
    ensures var d := LocationNotFoundText(entry); d != [] && d[0] == 'N'
  {
  }

  lemma LocationDuplicatedLead(entry: map<string, string>)
    ensures var d := LocationDuplicatedText(entry); d != [] && d[0] == 'T'
  {
  }

  lemma CloneErrorLead(r: Reference)
    ensures var d := CloneErrorText(r); d != [] && d[0] == 'C'
  {
  }

  /** Each validation and clone message starts with its `LeadChar`. */
  lemma Lead(e: Error)
    requires !e.MintfileNotFound?
    ensures Description(e) != [] && Description(e)[0] == LeadChar(e)
  {
    match e
    case RevisionDuplicated(l, keys) =>
      RevisionDuplicatedLead(l, KeyList(keys));
      LocationTextLead(l);
    case LocalPackageNeverHaveRevisionSpecifier(l, keys) => LocalPackageLead(l, KeyList(keys));
    case LocationSpecifierNotFound(entry) => LocationNotFoundLead(entry);
    case LocationDuplicated(entry) => LocationDuplicatedLead(entry);
    case CloneError(r) => CloneErrorLead(r);
  }

  lemma EntryTextTrail(entry: map<string, string>)
    ensures var d := EntryText(entry); d != [] && d[|d| - 1] == ']'
  {
  }

  /** Validation messages end with a bracket; a missing Mintfile's message
      ends with `found`. */
  lemma Trail(e: Error)
    requires !e.CloneError?
    ensures var d := Description(e);
            d != [] &&
            d[|d| - 1] == (if e.MintfileNotFound? then 'd'
                           else if e.RevisionDuplicated? || e.LocalPackageNeverHaveRevisionSpecifier? then ')'
                           else ']')
  {
    match e
    case MintfileNotFound(path) =>
    case RevisionDuplicated(l, keys) =>
    case LocalPackageNeverHaveRevisionSpecifier(l, keys) =>
    case LocationSpecifierNotFound(entry) => EntryTextTrail(entry);
    case LocationDuplicated(entry) => EntryTextTrail(entry);
  }

  /** Comparing messages never confuses one kind of validation error with
      another one or with any other error. */
  lemma ValidationErrorsStandApart(a: Error, b: Error)
    requires IsValidation(a)
    ensures Equal(a, b) ==>
              IsValidation(b) &&
              a.RevisionDuplicated? == b.RevisionDuplicated? &&
              a.LocalPackageNeverHaveRevisionSpecifier? == b.LocalPackageNeverHaveRevisionSpecifier? &&
              a.LocationSpecifierNotFound? == b.LocationSpecifierNotFound? &&
              a.LocationDuplicated? == b.LocationDuplicated?
  {
    if Equal(a, b) {
      var d := Description(a);
      if b.MintfileNotFound? {
        Trail(a);
        Trail(b);
      } else {
        Lead(a);
        Lead(b);
        assert LeadChar(a) == d[0] == LeadChar(b);
      }
    }
  }

  /** The clone error of a GitHub shorthand names the GitHub URL and the
      version. */
  lemma CloneErrorOfShorthand(owner: string, name: string, revision: Revision)
    requires Plain(owner) && '@' !in name && ':' !in name && !Contains(name, "github.com")
    ensures var repo := owner + "/" + name; var url := "https://github.com/" + repo + ".git";
            Description(CloneError(Reference(GitHub(repo), Some(revision)))) ==
            "Couldn't clone " + url + " " + RevisionString(revision)
  {
    GitPathOfShorthand(owner, name);
  }

  /** Two equal references on remote locations give equal clone errors. */
  lemma SameRemoteSameCloneError(a: Reference, b: Reference)
    requires Same(a, b)
    requires (a.location.GitHub? || a.location.Git?) && (b.location.GitHub? || b.location.Git?)
    ensures Equal(CloneError(a), CloneError(b))
  {
  }

  /** Equality by description is coarser than the errors themselves: cloning
      a tag and cloning a branch of the same name are the same error. */
  lemma CloneErrorIgnoresRevisionKind(l: Location, name: string)
    ensures Equal(CloneError(Reference(l, Some(Tag(name)))), CloneError(Reference(l, Some(Branch(name)))))
    ensures CloneError(Reference(l, Some(Tag(name)))) != CloneError(Reference(l, Some(Branch(name))))
  {
  }
}
