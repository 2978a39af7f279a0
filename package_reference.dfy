/** Mint's package reference: where a package lives (its location) and which
    revision of it to fetch, the legacy `repo@version` parser, and the values
    derived from a reference: the clone URL (`gitPath`), the directory the
    package is checked out into (`repoPath`), the package name, the display
    string and the shell command that fetches the package. */
module PackageReference {
  import opened Wrappers
  import opened Text

  /** Where a package lives. */
  datatype Location =
    | GitHub(repo: string)       // `owner/name` on GitHub
    | Git(url: string)           // any git remote, URL or scp-style
    | LocalGit(path: string)     // an absolute path to a git repository on disk
    | LocalPackage(path: string) // an absolute path to a package without git

  /** Which state of the location to fetch; `Semver` is the source's
      `version(major:minor:patch:)`. */
  datatype Revision =
    | Tag(name: string)
    | Branch(name: string)
    | Commit(hash: string)
    | Semver(major: nat, minor: nat, patch: nat)

  /** A package reference; a missing revision means the default branch. */
  datatype Reference = Reference(location: Location, revision: Option<Revision>)

  /** The two strings two references are compared by. */
  datatype RepoVersion = RepoVersion(repo: string, version: string)

  /** `Location.string`. */
  function LocationString(l: Location): string {
    match l
    case GitHub(repo) => repo
    case Git(url) => url
    case LocalGit(path) => path
    case LocalPackage(path) => path
  }

  /** `Revision.string`. */
  function RevisionString(r: Revision): string {
    match r
    case Tag(name) => name
    case Branch(name) => name
    case Commit(hash) => hash
    case Semver(major, minor, patch) => Decimal(major) + "." + Decimal(minor) + "." + Decimal(patch)
  }

  /** A numbered version renders as three dot-separated decimal numbers that
      read back as the version's components. */
  lemma SemverStringRoundTrip(major: nat, minor: nat, patch: nat)
    ensures var parts := Split(RevisionString(Semver(major, minor, patch)), ".");
            |parts| == 3 && DecimalValue(parts[0]) == major &&
            DecimalValue(parts[1]) == minor && DecimalValue(parts[2]) == patch
  {
    var a, b, c := Decimal(major), Decimal(minor), Decimal(patch);
    DecimalHasNoDot(major);
    DecimalHasNoDot(minor);
    DecimalHasNoDot(patch);
    assert a + "." + b + "." + c == a + ['.'] + (b + ['.'] + c);
    SplitAtChar(a, '.', b + ['.'] + c);
    SplitAtChar(b, '.', c);
    ContainsChar(c, '.');
    SplitNoOccurrence(c, ".");
    DecimalRoundTrip(major);
    DecimalRoundTrip(minor);
    DecimalRoundTrip(patch);
  }

  /** `repo`: the location's string. */
  function Repo(r: Reference): string {
    LocationString(r.location)
  }

  /** `version`: the revision's string, empty without a revision. */
  function Version(r: Reference): string {
    if r.revision.Some? then RevisionString(r.revision.value) else ""
  }

  function Key(r: Reference): RepoVersion {
    RepoVersion(Repo(r), Version(r))
  }

  /** `==` on references: equal repo strings and equal version strings. */
  predicate Same(a: Reference, b: Reference) {
    Key(a) == Key(b)
  }

  /** Equality looks at the revision's string only, not at its kind: a tag
      and a branch of the same name on the same location are equal. */
  lemma TagEqualsBranch(l: Location, name: string)
    ensures Same(Reference(l, Some(Tag(name))), Reference(l, Some(Branch(name))))
    ensures Reference(l, Some(Tag(name))) != Reference(l, Some(Branch(name)))
  {
  }

  // ---------------------------------------------------------------------------
  // init(package:): the legacy `repo@version` specifier

  /** `init(package:)`, as the repo and version strings it settles on. The
      specifier is cut at every `@` and each part trimmed of blanks. */
  function ParsePackage(package: string): RepoVersion {
    var raw := Split(package, "@");
    if |raw| == 3 then
      RepoVersion(Trim(raw[0]) + "@" + Trim(raw[1]), Trim(raw[2]))
    else if |raw| == 2 then
      if Contains(Trim(raw[1]), ":") then RepoVersion(Trim(raw[0]) + "@" + Trim(raw[1]), "")
      else if Contains(Trim(raw[0]), "ssh://") then RepoVersion(Trim(raw[0]) + "@" + Trim(raw[1]), "")
      else RepoVersion(Trim(raw[0]), Trim(raw[1]))
    else
      RepoVersion(package, "")
  }

  lemma SplitOfTwo(a: string, b: string)
    requires '@' !in a && '@' !in b
    ensures Split(a + "@" + b, "@") == [a, b]
  {
    SplitAtChar(a, '@', b);
    ContainsChar(b, '@');
    SplitNoOccurrence(b, "@");
  }

  lemma SplitOfThree(a: string, b: string, c: string)
    requires '@' !in a && '@' !in b && '@' !in c
    ensures Split(a + "@" + b + "@" + c, "@") == [a, b, c]
  {
    assert a + "@" + b + "@" + c == a + ['@'] + (b + "@" + c);
    SplitAtChar(a, '@', b + "@" + c);
    SplitOfTwo(b, c);
  }

  /** The version never holds an `@` and never starts or ends with a blank. */
  lemma ParsedVersionClean(package: string)
    ensures '@' !in ParsePackage(package).version
    ensures Trim(ParsePackage(package).version) == ParsePackage(package).version
  {
    var raw := Split(package, "@");
    var v := ParsePackage(package).version;
    if |raw| == 2 || |raw| == 3 {
      var last := raw[|raw| - 1];
      assert v == "" || v == Trim(last);
      SplitPiecesFree(package, '@');
      if '@' in Trim(last) { TrimChars(last, '@'); }
      TrimIdempotent(last);
    }
  }

  /** A specifier without `@`, or with three or more, is all repo, as
      written and untrimmed, and has no version. */
  lemma ParseWithoutAt(package: string)
    requires '@' !in package || |Split(package, "@")| > 3
    ensures ParsePackage(package) == RepoVersion(package, "")
  {
    if '@' !in package {
      ContainsChar(package, '@');
      SplitNoOccurrence(package, "@");
    }
  }

  /** `owner/repo@version`: one `@`, nothing scp- or ssh-like before or after
      it, gives the trimmed repo and the trimmed version. */
  lemma ParseRepoAtVersion(a: string, b: string)
    requires '@' !in a && '@' !in b && ':' !in b && !Contains(a, "ssh://")
    ensures ParsePackage(a + "@" + b) == RepoVersion(Trim(a), Trim(b))
  {
    SplitOfTwo(a, b);
    if Contains(Trim(b), ":") {
      ContainsInTrim(b, ":");
      ContainsChar(b, ':');
    }
    if Contains(Trim(a), "ssh://") {
      ContainsInTrim(a, "ssh://");
    }
  }

  /** `user@host:path`: a colon after the single `@` makes the whole specifier
      an scp-style remote without a version. */
  lemma ParseScpRemote(a: string, b: string)
    requires '@' !in a && '@' !in b && ':' in Trim(b)
    ensures ParsePackage(a + "@" + b) == RepoVersion(Trim(a) + "@" + Trim(b), "")
  {
    SplitOfTwo(a, b);
    ContainsChar(Trim(b), ':');
  }

  /** `ssh://user@host/path`: `ssh://` before the single `@` makes the whole
      specifier a remote without a version. */
  lemma ParseSshRemote(a: string, b: string)
    requires '@' !in a && '@' !in b && Contains(Trim(a), "ssh://")
    ensures ParsePackage(a + "@" + b) == RepoVersion(Trim(a) + "@" + Trim(b), "")
  {
    SplitOfTwo(a, b);
    var raw := Split(a + "@" + b, "@");
    assert Trim(raw[0]) == Trim(a) && Trim(raw[1]) == Trim(b);
  }

  /** `user@host:path@version`: with two `@`, the first one belongs to the
      remote and the text after the second is the version. */
  lemma ParseRemoteAtVersion(a: string, b: string, c: string)
    requires '@' !in a && '@' !in b && '@' !in c
    ensures ParsePackage(a + "@" + b + "@" + c) == RepoVersion(Trim(a) + "@" + Trim(b), Trim(c))
  {
    SplitOfThree(a, b, c);
  }

  // ---------------------------------------------------------------------------
  // gitPath, name, namedVersion

  /** `gitPath` of a repo string: the first rule that applies wins. */
  function GitPathOf(repo: string): string {
    if HasScheme(repo) then repo
    else if '@' in repo then repo
    else if Contains(repo, "github.com") then "https://" + repo + ".git"
    else if '.' in Split(repo, "/")[0] then "https://" + repo
    else "https://github.com/" + repo + ".git"
  }

  /** `gitPath`: what is cloned. A local repository or package is cloned
      from its own path. */
  function GitPath(r: Reference): string {
    match r.location
    case GitHub(repo) => GitPathOf(repo)
    case Git(url) => GitPathOf(url)
    case LocalGit(path) => path
    case LocalPackage(path) => path
  }

  /** The clone URL is always a URL with a scheme or an scp-style remote. */
  lemma GitPathIsRemote(repo: string)
    ensures HasScheme(GitPathOf(repo)) || '@' in GitPathOf(repo)
  {
    if !HasScheme(repo) && '@' !in repo {
      if Contains(repo, "github.com") {
        HttpsHasScheme(repo + ".git");
        assert "https://" + repo + ".git" == "https://" + (repo + ".git");
      } else if '.' in Split(repo, "/")[0] {
        HttpsHasScheme(repo);
      } else {
        HttpsHasScheme("github.com/" + repo + ".git");
        assert "https://github.com/" + repo + ".git" == "https://" + ("github.com/" + repo + ".git");
      }
    }
  }

  /** Resolving a clone URL again leaves it as it is. */
  lemma GitPathIdempotent(repo: string)
    ensures GitPathOf(GitPathOf(repo)) == GitPathOf(repo)
  {
    GitPathIsRemote(repo);
  }

  /** The clone URL adds nothing but `https://`, `github.com/` and `.git`. */
  lemma GitPathChars(repo: string, c: char)
    requires c in GitPathOf(repo)
    ensures c in repo || c in "https://github.com/.git"
  {
  }

  /** A URL with a scheme and an scp-style remote are cloned as written. */
  lemma GitPathOfRemote(repo: string)
    requires HasScheme(repo) || '@' in repo
    ensures GitPathOf(repo) == repo
  {
  }

  /** A `github.com` path without a scheme gets `https://` and `.git`. */
  lemma GitPathOfGitHubHost(repo: string)
    requires !HasScheme(repo) && '@' !in repo && Contains(repo, "github.com")
    ensures GitPathOf(repo) == "https://" + repo + ".git"
  {
  }

  /** Any other host, one with a `.` in its first `/` part, gets only
      `https://`. */
  lemma GitPathOfCustomHost(repo: string)
    requires !HasScheme(repo) && '@' !in repo && !Contains(repo, "github.com")
    requires '.' in Split(repo, "/")[0]
    ensures GitPathOf(repo) == "https://" + repo
  {
  }

  /** A string that no earlier rule of the cascade claims is a GitHub
      shorthand. */
  predicate IsShorthand(repo: string) {
    !HasScheme(repo) && '@' !in repo && !Contains(repo, "github.com") && '.' !in Split(repo, "/")[0]
  }

  /** The cascade falls through to the GitHub shorthand exactly for the
      strings no earlier rule claims: every earlier rule gives a string of
      another length. */
  lemma GitPathOfFallback(repo: string)
    ensures GitPathOf(repo) == "https://github.com/" + repo + ".git" <==> IsShorthand(repo)
  {
    var fallback := "https://github.com/" + repo + ".git";
    if !IsShorthand(repo) {
      assert |GitPathOf(repo)| < |fallback|;
    }
  }

  lemma OwnerNameIsShorthand(owner: string, name: string)
    requires Plain(owner) && '@' !in name && ':' !in name && !Contains(name, "github.com")
    ensures IsShorthand(owner + "/" + name)
  {
    var repo := owner + "/" + name;
    assert repo == owner + ['/'] + name;
    if HasScheme(repo) {
      HasSchemeColon(repo);
    }
    MissingCharNotContained(owner, "github.com", 6);
    SeparatorBreaks(owner, '/', name, "github.com");
    SplitAtChar(owner, '/', name);
    assert Split(repo, "/")[0] == owner;
  }

  /** The GitHub shorthand `owner/name` expands to the GitHub clone URL;
      the name may hold dots, as in `mac-cain13/R.swift`. */
  lemma GitPathOfShorthand(owner: string, name: string)
    requires Plain(owner) && '@' !in name && ':' !in name && !Contains(name, "github.com")
    ensures var repo := owner + "/" + name; GitPathOf(repo) == "https://github.com/" + repo + ".git"
  {
    OwnerNameIsShorthand(owner, name);
    GitPathOfFallback(owner + "/" + name);
  }

  /** `name`: the last `/`-separated part, with `.git` removed. */
  function NameOf(repo: string): string {
    Replace(Last(Split(repo, "/")), ".git", "")
  }

  function Name(r: Reference): string {
    NameOf(Repo(r))
  }

  /** `namedVersion`: the name and the version, separated by a space. */
  function NamedVersion(r: Reference): string {
    Name(r) + " " + Version(r)
  }

  /** The display string reads back, at its space, as the name and the
      version, when neither holds a space. */
  lemma NamedVersionSplits(r: Reference)
    requires ' ' !in Name(r) && ' ' !in Version(r)
    ensures Split(NamedVersion(r), " ") == [Name(r), Version(r)]
  {
    SplitAtChar(Name(r), ' ', Version(r));
    ContainsChar(Version(r), ' ');
    SplitNoOccurrence(Version(r), " ");
  }

  /** The name never holds a `/`. */
  lemma NameHasNoSlash(repo: string)
    ensures '/' !in NameOf(repo)
  {
    var parts := Split(repo, "/");
    SplitPiecesFree(repo, '/');
    if '/' in NameOf(repo) {
      ReplaceChars(Last(parts), ".git", "", '/');
    }
  }

  /** The name is found in the last part alone. */
  lemma NameOfLastPart(prefix: string, last: string)
    ensures NameOf(prefix + "/" + last) == NameOf(last)
  {
    LastSplitAfter(prefix, '/', last);
  }

  lemma NameOfPrefixed(prefix: string, repo: string)
    ensures NameOf(prefix + "/" + repo + ".git") == NameOf(repo)
  {
    assert prefix + "/" + repo + ".git" == prefix + ['/'] + (repo + ".git");
    LastSplitAfter(prefix, '/', repo + ".git");
    LastSplitAppend(repo, '/', ".git");
    ReplaceAppendedTarget(Last(Split(repo, "/")), ".git", "");
  }

  /** Expanding a repo string into its clone URL keeps the package name:
      `yonaskolb/mint`, `github.com/yonaskolb/mint` and
      `https://github.com/yonaskolb/mint.git` all name `mint`. */
  lemma NameOfGitPath(repo: string)
    ensures NameOf(GitPathOf(repo)) == NameOf(repo)
  {
    if !HasScheme(repo) && '@' !in repo {
      if Contains(repo, "github.com") {
        assert "https://" + repo + ".git" == "https:/" + "/" + repo + ".git";
        NameOfPrefixed("https:/", repo);
      } else if '.' in Split(repo, "/")[0] {
        assert "https://" + repo == "https:/" + "/" + repo;
        NameOfLastPart("https:/", repo);
      } else {
        assert "https://github.com/" + repo + ".git" == "https://github.com" + "/" + repo + ".git";
        NameOfPrefixed("https://github.com", repo);
      }
    }
  }

  // ---------------------------------------------------------------------------
  // repoPath: the directory a package is checked out into

  /** The text after the last `://`. */
  function StripScheme(url: string): string {
    Last(Split(url, "://"))
  }

  /** The text after the last `@`: the remote without its user. */
  function StripUserInfo(s: string): string {
    Last(Split(s, "@"))
  }

  /** The chain of replacements that makes a remote a single directory name. */
  function Flatten(s: string): string {
    Replace(Replace(Replace(Replace(s, "/", "_"), ".git", ""), ":", "_"), "@", "_")
  }

  /** `repoPath` as the source computes it: the user of an scp-style or ssh
      remote stays in the name. */
  function RepoPathAsWritten(url: string): string {
    Flatten(StripScheme(url))
  }

  /** The directory name of a remote: scheme and user removed, then
      flattened. */
  function RemoteDirectory(url: string): string {
    Flatten(StripUserInfo(StripScheme(url)))
  }

  /** The directory name of a local repository or package. */
  function LocalDirectory(path: string): string {
    Replace(path, "/", "_")
  }

  /** `repoPath`: the directory the tests expect. A remote is flattened
      without its user (RemoteDirectory); the chain as the source writes it,
      which keeps the user, is RepoPathAsWritten. */
  function RepoPath(r: Reference): string {
    match r.location
    case GitHub(_) => RemoteDirectory(GitPath(r))
    case Git(_) => RemoteDirectory(GitPath(r))
    case LocalGit(path) => LocalDirectory(path)
    case LocalPackage(path) => LocalDirectory(path)
  }

  /** A flattened name is one path component: no `/`, `:` or `@`. */
  lemma FlattenSafe(s: string)
    ensures '/' !in Flatten(s) && ':' !in Flatten(s) && '@' !in Flatten(s)
  {
    var s1 := Replace(s, "/", "_");
    var s2 := Replace(s1, ".git", "");
    var s3 := Replace(s2, ":", "_");
    var s4 := Replace(s3, "@", "_");
    ReplaceRemovesChar(s, '/', "_");
    ReplaceRemovesChar(s2, ':', "_");
    ReplaceRemovesChar(s3, '@', "_");
    if '/' in s2 { ReplaceChars(s1, ".git", "", '/'); }
    if '/' in s3 { ReplaceChars(s2, ":", "_", '/'); }
    if '/' in s4 { ReplaceChars(s3, "@", "_", '/'); }
    if ':' in s4 { ReplaceChars(s3, "@", "_", ':'); }
  }

  /** Every directory name is a single path component. */
  lemma RepoPathSafe(r: Reference)
    ensures '/' !in RepoPath(r)
    ensures (r.location.GitHub? || r.location.Git?) ==> ':' !in RepoPath(r) && '@' !in RepoPath(r)
  {
    match r.location
    case GitHub(_) => FlattenSafe(StripUserInfo(StripScheme(GitPath(r))));
    case Git(_) => FlattenSafe(StripUserInfo(StripScheme(GitPath(r))));
    case LocalGit(path) => ReplaceRemovesChar(path, '/', "_");
    case LocalPackage(path) => ReplaceRemovesChar(path, '/', "_");
  }

  /** The user of a remote does not change its directory name:
      `git@github.com/yonaskolb/mint.git` is checked out where
      `github.com/yonaskolb/mint.git` is. */
  lemma RemoteDirectoryIgnoresUser(user: string, rest: string)
    requires !Contains(user + "@" + rest, "://")
    ensures RemoteDirectory(user + "@" + rest) == RemoteDirectory(rest)
  {
    SplitNoOccurrence(user + "@" + rest, "://");
    if Contains(rest, "://") {
      ContainsInSuffix(user + "@", rest, "://");
    }
    SplitNoOccurrence(rest, "://");
    LastSplitAfter(user, '@', rest);
  }

  /** A remote without `://`, `:` or `@` is its own directory name, flattened. */
  lemma RemoteDirectoryOfPath(path: string)
    requires ':' !in path && '@' !in path
    ensures RemoteDirectory(path) == Flatten(path)
  {
    MissingCharNotContained(path, "://", 0);
    SplitNoOccurrence(path, "://");
    ContainsChar(path, '@');
    SplitNoOccurrence(path, "@");
  }

  lemma SplitAtScheme(scheme: string, path: string)
    requires ':' !in scheme && !Contains(path, "://")
    ensures Split(scheme + "://" + path, "://") == [scheme, path]
  {
    assert scheme + "://"[..2] == scheme + [':'] + "/";
    OnlyPlaceMisses(scheme, ':', "/", "://");
    SplitAtFirst(scheme, "://", path);
    SplitNoOccurrence(path, "://");
  }

  /** The scheme of a URL does not enter its directory name; a `:` in the
      path, such as a port, is flattened like any other. */
  lemma RemoteDirectoryOfUrl(scheme: string, path: string)
    requires ':' !in scheme && !Contains(path, "://") && '@' !in path
    ensures RemoteDirectory(scheme + "://" + path) == Flatten(path)
  {
    SplitAtScheme(scheme, path);
    assert StripScheme(scheme + "://" + path) == path;
    ContainsChar(path, '@');
    SplitNoOccurrence(path, "@");
  }

  /** Neither the scheme nor the user of a URL enters its directory name:
      `ssh://git@server.com/user/project.git` is checked out where
      `server.com/user/project.git` is. */
  lemma RemoteDirectoryOfUrlWithUser(scheme: string, user: string, path: string)
    requires ':' !in scheme && !Contains(user + "@" + path, "://") && '@' !in path
    ensures RemoteDirectory(scheme + "://" + user + "@" + path) == Flatten(path)
  {
    var rest := user + "@" + path;
    assert scheme + "://" + user + "@" + path == scheme + "://" + rest;
    SplitAtScheme(scheme, rest);
    assert StripScheme(scheme + "://" + rest) == rest;
    LastSplitAfter(user, '@', path);
    ContainsChar(path, '@');
    SplitNoOccurrence(path, "@");
  }

  /** Flattening a remote with a user: the user stays, followed by `_`. */
  lemma FlattenWithUser(user: string, rest: string)
    requires Plain(user)
    ensures Flatten(user + "@" + rest) == user + "_" + Flatten(rest)
  {
    var u := user + "@";
    assert user + "@" + rest == u + rest;
    ReplaceCharConcat(u, '/', rest, "_");
    ReplaceAbsentChar(u, '/', "_");
    var r1 := Replace(rest, "/", "_");
    ReplaceSkipsPrefix(u, r1, ".git", "");
    var r2 := Replace(r1, ".git", "");
    ReplaceCharConcat(u, ':', r2, "_");
    ReplaceAbsentChar(u, ':', "_");
    var r3 := Replace(r2, ":", "_");
    assert u + r3 == user + ['@'] + r3;
    ReplaceCharSplit(user, '@', r3, "_");
  }

  /** The source's chain keeps the user of an scp-style remote in the
      directory name, ahead of the name the user-free chain gives; so the
      same repository reached with and without a user is checked out twice. */
  lemma RepoPathAsWrittenKeepsUser(user: string, rest: string)
    requires user != [] && Plain(user)
    requires '@' !in rest && !Contains(user + "@" + rest, "://")
    ensures RepoPathAsWritten(user + "@" + rest) == user + "_" + RemoteDirectory(user + "@" + rest)
    ensures RepoPathAsWritten(user + "@" + rest) != RemoteDirectory(user + "@" + rest)
  {
    SplitNoOccurrence(user + "@" + rest, "://");
    RemoteDirectoryIgnoresUser(user, rest);
    if Contains(rest, "://") {
      ContainsInSuffix(user + "@", rest, "://");
    }
    SplitNoOccurrence(rest, "://");
    ContainsChar(rest, '@');
    SplitNoOccurrence(rest, "@");
    FlattenWithUser(user, rest);
  }

  /** A string free of the characters `Flatten` rewrites. */
  predicate Plain(s: string) {
    '/' !in s && '.' !in s && ':' !in s && '@' !in s
  }

  lemma SlashesOfHostPath(h: string, owner: string, name: string)
    requires '/' !in h && Plain(owner) && Plain(name)
    ensures Replace(h + "/" + owner + "/" + name + ".git", "/", "_") == h + "_" + owner + "_" + name + ".git"
  {
    assert h + "/" + owner + "/" + name + ".git" == h + ['/'] + (owner + ['/'] + (name + ".git"));
    ReplaceCharSplit(h, '/', owner + ['/'] + (name + ".git"), "_");
    ReplaceCharSplit(owner, '/', name + ".git", "_");
    ReplaceAbsentChar(name + ".git", '/', "_");
  }

  /** A name that does not hold `.git` loses only its appended `.git`. */
  lemma StripGitSuffix(stem: string)
    requires !Contains(stem, ".git")
    ensures Replace(stem + ".git", ".git", "") == stem
  {
    assert ".git"[0] !in ".git"[1..];
    ReplaceAppendedTarget(stem, ".git", "");
    ReplaceNoOccurrence(stem, ".git", "");
    assert stem + "" == stem;
  }

  /** The only `.` of `host.tail` is not followed by `g`. */
  lemma DotTailHasNoGit(host: string, tail: string)
    requires '.' !in host && '.' !in tail && tail != [] && tail[0] != 'g'
    ensures !Contains(host + "." + tail, ".git")
  {
    assert !StartsWith(['.'] + tail, ".git") by {
      assert (['.'] + tail)[1] == tail[0];
    }
    OnlyPlaceMisses(host, '.', tail, ".git");
  }

  lemma SuffixOfHostPath(host: string, tail: string)
    requires Plain(host) && '.' !in tail && ':' !in tail && '@' !in tail
    requires tail != [] && tail[0] != 'g'
    ensures Replace(Replace(Replace(host + "." + tail + ".git", ".git", ""), ":", "_"), "@", "_") == host + "." + tail
  {
    var stem := host + "." + tail;
    DotTailHasNoGit(host, tail);
    StripGitSuffix(stem);
    assert ':' !in stem && '@' !in stem;
    ReplaceAbsentChar(stem, ':', "_");
    ReplaceAbsentChar(stem, '@', "_");
  }

  lemma RegroupHostPath(host: string, domain: string, owner: string, name: string)
    ensures host + "." + domain + "_" + owner + "_" + name + ".git" ==
            host + "." + (domain + "_" + owner + "_" + name) + ".git"
  {
  }

  /** `host.domain/owner/name.git` flattens to `host.domain_owner_name`. */
  lemma FlattenHostPath(host: string, domain: string, owner: string, name: string)
    requires Plain(host) && Plain(domain) && Plain(owner) && Plain(name)
    requires domain != [] && domain[0] != 'g'
    ensures Flatten(host + "." + domain + "/" + owner + "/" + name + ".git") ==
            host + "." + (domain + "_" + owner + "_" + name)
  {
    SlashesOfHostPath(host + "." + domain, owner, name);
    RegroupHostPath(host, domain, owner, name);
    SuffixOfHostPath(host, domain + "_" + owner + "_" + name);
  }

  // ---------------------------------------------------------------------------
  // preparePackageDictionaryCommand

  /** The revision a fetch uses: a missing one means the `master` branch. */
  function FetchRevision(r: Reference): Revision {
    if r.revision.Some? then r.revision.value else Branch("master")
  }

  /** The shell words that check out `hash` in `dir` and step back out. */
  function CheckoutWords(dir: string, hash: string): seq<string> {
    [";", "cd", dir, ";", "git", "checkout", hash, ";", "cd", "-"]
  }

  /** The words of the fetch command: the program, its options and operands,
      and `;` between the commands of a commit checkout. A branch or tag is
      cloned directly (a remote shallowly); a commit needs the full history
      and a checkout; a local package is copied. */
  function FetchWords(r: Reference): seq<string> {
    var rev := FetchRevision(r);
    var dir := RepoPath(r);
    var checkout := CheckoutWords(dir, RevisionString(rev));
    match r.location
    case LocalPackage(path) => ["cp", "-r", path, dir]
    case LocalGit(path) =>
      if rev.Commit? then ["git", "clone", "-l", path, dir] + checkout
      else ["git", "clone", "-b", RevisionString(rev), "-l", path, dir]
    case _ =>
      if rev.Commit? then ["git", "clone", GitPath(r), dir] + checkout
      else ["git", "clone", "--depth", "1", "-b", RevisionString(rev), GitPath(r), dir]
  }

  /** `preparePackageDictionaryCommand`: the words separated by single
      spaces. */
  function FetchCommand(r: Reference): string {
    Join(FetchWords(r), " ")
  }

  /** A reference whose strings hold no space. */
  predicate SpaceFree(r: Reference) {
    ' ' !in LocationString(r.location) && ' ' !in RevisionString(FetchRevision(r))
  }

  predicate WordsSpaceFree(words: seq<string>) {
    forall i :: 0 <= i < |words| ==> ' ' !in words[i]
  }

  /** Words without spaces, joined by spaces, split back into themselves. */
  lemma {:induction false} SplitWords(words: seq<string>)
    requires words != [] && WordsSpaceFree(words)
    ensures Split(Join(words, " "), " ") == words
    decreases |words|
  {
    if |words| == 1 {
      ContainsChar(words[0], ' ');
      SplitNoOccurrence(words[0], " ");
    } else {
      SplitWords(words[1..]);
      SplitAtChar(words[0], ' ', Join(words[1..], " "));
    }
  }

  /** A character of a part is a character of the joined text. */
  lemma {:induction false} JoinHasPart(parts: seq<string>, sep: string, i: nat, c: char)
    requires i < |parts| && c in parts[i]
    ensures c in Join(parts, sep)
    decreases |parts|
  {
    if i > 0 {
      JoinHasPart(parts[1..], sep, i - 1, c);
    }
  }

  /** A character of the last part of a split is a character of the text. */
  lemma LastPartChar(s: string, sep: string, c: char)
    requires sep != [] && c in Last(Split(s, sep))
    ensures c in s
  {
    var parts := Split(s, sep);
    SplitJoin(s, sep);
    JoinHasPart(parts, sep, |parts| - 1, c);
  }

  lemma FlattenSpaceFree(s: string)
    requires ' ' !in s
    ensures ' ' !in Flatten(s)
  {
    var s1 := Replace(s, "/", "_");
    var s2 := Replace(s1, ".git", "");
    var s3 := Replace(s2, ":", "_");
    if ' ' in s1 { ReplaceChars(s, "/", "_", ' '); }
    if ' ' in s2 { ReplaceChars(s1, ".git", "", ' '); }
    if ' ' in s3 { ReplaceChars(s2, ":", "_", ' '); }
    if ' ' in Replace(s3, "@", "_") { ReplaceChars(s3, "@", "_", ' '); }
  }

  lemma RemoteDirectorySpaceFree(url: string)
    requires ' ' !in url
    ensures ' ' !in RemoteDirectory(url)
  {
    var u := StripScheme(url);
    if ' ' in u { LastPartChar(url, "://", ' '); }
    var v := StripUserInfo(u);
    if ' ' in v { LastPartChar(u, "@", ' '); }
    FlattenSpaceFree(v);
  }

  lemma CheckoutSpaceFree(head: seq<string>, dir: string, hash: string)
    requires WordsSpaceFree(head) && ' ' !in dir && ' ' !in hash
    ensures WordsSpaceFree(head + CheckoutWords(dir, hash))
  {
    var ws := CheckoutWords(dir, hash);
    assert ' ' !in ";" && ' ' !in "cd" && ' ' !in "git" && ' ' !in "checkout" && ' ' !in "-";
    assert WordsSpaceFree(ws);
  }

  lemma LocalWordsSpaceFree(r: Reference)
    requires SpaceFree(r) && (r.location.LocalGit? || r.location.LocalPackage?)
    ensures WordsSpaceFree(FetchWords(r))
  {
    var rev := FetchRevision(r);
    var dir := RepoPath(r);
    var path := LocationString(r.location);
    if ' ' in dir { ReplaceChars(path, "/", "_", ' '); }
    assert ' ' !in "git" && ' ' !in "clone" && ' ' !in "-b" && ' ' !in "-l" && ' ' !in "cp" && ' ' !in "-r";
    if r.location.LocalGit? && rev.Commit? {
      CheckoutSpaceFree(["git", "clone", "-l", path, dir], dir, rev.hash);
    }
  }

  lemma RemoteWordsSpaceFree(r: Reference)
    requires SpaceFree(r) && (r.location.GitHub? || r.location.Git?)
    ensures WordsSpaceFree(FetchWords(r))
  {
    var rev := FetchRevision(r);
    var dir := RepoPath(r);
    var url := GitPath(r);
    if ' ' in url { GitPathChars(LocationString(r.location), ' '); }
    RemoteDirectorySpaceFree(url);
    assert ' ' !in "git" && ' ' !in "clone" && ' ' !in "-b" && ' ' !in "--depth" && ' ' !in "1";
    if rev.Commit? {
      CheckoutSpaceFree(["git", "clone", url, dir], dir, rev.hash);
    }
  }

  /** Read by the shell, the fetch command is exactly its words, so the
      clone source, the revision and the directory arrive as separate
      arguments. */
  lemma FetchCommandWords(r: Reference)
    requires SpaceFree(r)
    ensures Split(FetchCommand(r), " ") == FetchWords(r)
  {
    if r.location.LocalGit? || r.location.LocalPackage? {
      LocalWordsSpaceFree(r);
    } else {
      RemoteWordsSpaceFree(r);
    }
    SplitWords(FetchWords(r));
  }

  /** A branch or a tag of a remote is cloned shallowly, straight into the
      package's directory. */
  lemma RemoteFetchNamed(r: Reference, name: string)
    requires r.location.GitHub? || r.location.Git?
    requires FetchRevision(r) == Branch(name) || FetchRevision(r) == Tag(name)
    ensures FetchWords(r) == ["git", "clone", "--depth", "1", "-b", name, GitPath(r), RepoPath(r)]
  {
  }

  /** A commit of a remote needs the whole history and a checkout. */
  lemma RemoteFetchCommit(r: Reference, hash: string)
    requires r.location.GitHub? || r.location.Git?
    requires FetchRevision(r) == Commit(hash)
    ensures FetchWords(r) == ["git", "clone", GitPath(r), RepoPath(r)] + CheckoutWords(RepoPath(r), hash)
  {
  }

  /** A branch or a tag of a local repository is cloned with `-l`. */
  lemma LocalFetchNamed(r: Reference, path: string, name: string)
    requires r.location == LocalGit(path)
    requires FetchRevision(r) == Branch(name) || FetchRevision(r) == Tag(name)
    ensures FetchWords(r) == ["git", "clone", "-b", name, "-l", path, LocalDirectory(path)]
  {
  }

  lemma LocalFetchCommit(r: Reference, path: string, hash: string)
    requires r.location == LocalGit(path)
    requires FetchRevision(r) == Commit(hash)
    ensures FetchWords(r) == ["git", "clone", "-l", path, LocalDirectory(path)] + CheckoutWords(LocalDirectory(path), hash)
  {
  }

  /** Fetching without a revision is fetching the `master` branch. */
  lemma FetchDefaultsToMaster(l: Location)
    ensures FetchCommand(Reference(l, None)) == FetchCommand(Reference(l, Some(Branch("master"))))
  {
  }

  /** A tag and a branch of the same name are fetched by the same command. */
  lemma FetchTagAsBranch(l: Location, name: string)
    ensures FetchCommand(Reference(l, Some(Tag(name)))) == FetchCommand(Reference(l, Some(Branch(name))))
  {
  }

  /** A local package is copied whatever revision it names. */
  lemma FetchLocalPackageIgnoresRevision(path: string, revision: Option<Revision>)
    ensures FetchWords(Reference(LocalPackage(path), revision)) == ["cp", "-r", path, LocalDirectory(path)]
  {
  }
}
