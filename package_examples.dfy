/** The input/output tables of Mint's package and Mintfile tests, each one
    obtained from the general lemmas of the model. An example takes its
    input as a parameter fixed by its `requires`, so that its proof goes
    through those lemmas rather than by evaluating the definitions. */
module PackageExamples {
  import opened Wrappers
  import opened Text
  import opened Ordering
  import opened PackageReference
  import opened MintError
  import opened MintfileYAML

  // ---------------------------------------------------------------------------
  // gitPath, repoPath and name

  lemma MintParts(repo: string)
    requires repo == "yonaskolb/mint"
    ensures repo == "yonaskolb" + "/" + "mint"
    ensures "https://github.com/" + repo + ".git" == "https://github.com/yonaskolb/mint.git"
  {
  }

  lemma GitPathOfMint(repo: string)
    requires repo == "yonaskolb/mint"
    ensures GitPathOf(repo) == "https://github.com/yonaskolb/mint.git"
  {
    MintParts(repo);
    GitPathOfShorthand("yonaskolb", "mint");
  }

  lemma RSwiftParts(repo: string)
    requires repo == "mac-cain13/R.swift"
    ensures repo == "mac-cain13" + "/" + "R.swift"
    ensures "https://github.com/" + repo + ".git" == "https://github.com/mac-cain13/R.swift.git"
  {
  }

  lemma GitPathOfRSwift(repo: string)
    requires repo == "mac-cain13/R.swift"
    ensures GitPathOf(repo) == "https://github.com/mac-cain13/R.swift.git"
  {
    RSwiftParts(repo);
    MissingCharNotContained("R.swift", "github.com", 0);
    GitPathOfShorthand("mac-cain13", "R.swift");
  }

  /** A `github.com` path without a scheme gets `https://` and `.git`. */
  lemma GitPathOfGitHubPath(host: string, path: string)
    requires host == "github.com" && path == "/yonaskolb/mint"
    ensures GitPathOf(host + path) == "https://" + host + path + ".git"
  {
    var repo := host + path;
    ContainsOwnPrefix(host, path);
    assert forall k :: 0 <= k < |repo| ==> repo[k] != ':' && repo[k] != '@';
    if HasScheme(repo) {
      HasSchemeColon(repo);
    }
    GitPathOfGitHubHost(repo);
  }

  /** A host of its own, with or without `.git`, gets only `https://`. */
  lemma GitPathOfCustomDomain(name: string, repo: string)
    requires name == "package" || name == "package.git"
    requires repo == "mycustomdomain.com" + "/" + name
    ensures GitPathOf(repo) == "https://" + repo
  {
    var host := "mycustomdomain.com";
    assert forall k :: 0 <= k < |repo| ==> repo[k] != ':' && repo[k] != '@' && repo[k] != 'h';
    assert host[14] == '.' && '/' !in host;
    if HasScheme(repo) {
      HasSchemeColon(repo);
    }
    MissingCharNotContained(repo, "github.com", 3);
    SplitAtChar(host, '/', name);
    GitPathOfCustomHost(repo);
  }

  /** An scp-style remote is cloned as written. */
  lemma GitPathOfScpRemote(repo: string)
    requires repo == "git@github.com:yonaskolb/Mint.git"
    ensures GitPathOf(repo) == repo
  {
    assert repo[3] == '@';
    GitPathOfRemote(repo);
  }

  lemma MintPathParts(path: string)
    requires path == "github.com/yonaskolb/mint.git"
    ensures path == "github" + "." + "com" + "/" + "yonaskolb" + "/" + "mint" + ".git"
  {
  }

  lemma MintDirParts(dir: string)
    requires dir == "github.com_yonaskolb_mint"
    ensures dir == "github" + "." + ("com" + "_" + "yonaskolb" + "_" + "mint")
  {
  }

  lemma MintPathDirectory(path: string)
    requires path == "github.com/yonaskolb/mint.git"
    ensures Flatten(path) == "github.com_yonaskolb_mint"
  {
    MintPathParts(path);
    MintDirParts("github.com_yonaskolb_mint");
    FlattenHostPath("github", "com", "yonaskolb", "mint");
  }

  lemma MintUrlParts(url: string)
    requires url == "https://github.com/yonaskolb/mint.git"
    ensures url == "https" + "://" + "github.com/yonaskolb/mint.git"
  {
  }

  lemma MintUrlPrefix(url: string)
    requires url == "https://github.com/yonaskolb/mint.git"
    ensures url == "https://" + ("github.com/" + "yonaskolb/" + "mint.git")
  {
  }

  /** A URL with a scheme is cloned as it is. */
  lemma GitPathOfMintUrl(url: string)
    requires url == MintUrl
    ensures GitPathOf(url) == url
  {
    MintUrlPrefix(url);
    HttpsHasScheme("github.com/" + "yonaskolb/" + "mint.git");
  }

  lemma MintPathPlain(path: string)
    requires path == "github.com/yonaskolb/mint.git"
    ensures !Contains(path, "://") && '@' !in path
  {
    assert forall i :: 0 <= i < |path| ==> path[i] != ':' && path[i] != '@';
    MissingCharNotContained(path, "://", 0);
  }

  lemma MintDirectory(url: string)
    requires url == "https://github.com/yonaskolb/mint.git"
    ensures RemoteDirectory(url) == "github.com_yonaskolb_mint"
  {
    var path := "github.com/yonaskolb/mint.git";
    MintUrlParts(url);
    MintPathPlain(path);
    RemoteDirectoryOfUrl("https", path);
    MintPathDirectory(path);
  }

  lemma RepoPathOfMint(r: Reference)
    requires r.location == GitHub("yonaskolb/mint")
    ensures GitPath(r) == "https://github.com/yonaskolb/mint.git"
    ensures RepoPath(r) == "github.com_yonaskolb_mint"
  {
    GitPathOfMint(Repo(r));
    MintDirectory(GitPath(r));
  }

  lemma ScpMintParts(url: string)
    requires url == "git@github.com/yonaskolb/mint.git"
    ensures url == "git" + "@" + "github.com/yonaskolb/mint.git"
  {
  }

  lemma ScpMintNoColon(url: string)
    requires url == "git@github.com/yonaskolb/mint.git"
    ensures ':' !in url
  {
  }

  lemma UserPrefixed()
    ensures "git" + "_" + "github.com_yonaskolb_mint" == "git_github.com_yonaskolb_mint"
  {
  }

  /** The scp-style remote of the fetch tests: the source's chain keeps the
      user `git` in the directory name, where the tests expect the name
      without it. */
  lemma UserInDirectory(url: string)
    requires url == "git@github.com/yonaskolb/mint.git"
    ensures RepoPathAsWritten(url) == "git_github.com_yonaskolb_mint"
    ensures RemoteDirectory(url) == "github.com_yonaskolb_mint"
  {
    var rest := "github.com/yonaskolb/mint.git";
    ScpMintParts(url);
    ScpMintNoColon(url);
    UserPrefixed();
    MissingCharNotContained(url, "://", 0);
    RepoPathAsWrittenKeepsUser("git", rest);
    RemoteDirectoryIgnoresUser("git", rest);
    RemoteDirectoryOfPath(rest);
    MintPathDirectory(rest);
  }

  lemma MintUrlNameParts(url: string)
    requires url == "https://github.com/yonaskolb/mint.git"
    ensures url == ("https://" + "github.com/" + "yonaskolb") + "/" + "mint" + ".git"
  {
  }

  /** A name without `/` and without `.git` is its own package name. */
  lemma NameOfSimple(name: string)
    requires !Contains(name, "/") && !Contains(name, ".git")
    ensures NameOf(name) == name
  {
    SplitNoOccurrence(name, "/");
    ReplaceNoOccurrence(name, ".git", "");
  }

  lemma NameOfMint(name: string)
    requires name == "mint"
    ensures NameOf(name) == name
  {
    MissingCharNotContained(name, "/", 0);
    MissingCharNotContained(name, ".git", 0);
    NameOfSimple(name);
  }

  lemma NameOfMintUrl(url: string)
    requires url == "https://github.com/yonaskolb/mint.git"
    ensures NameOf(url) == "mint"
  {
    MintUrlNameParts(url);
    NameOfPrefixed("https://" + "github.com/" + "yonaskolb", "mint");
    NameOfMint("mint");
  }

  lemma RSwiftRemoteParts(url: string)
    requires url == "git@github.com:mac-cain13/R.swift.git"
    ensures url == "git@github.com:mac-cain13" + "/" + "R.swift" + ".git"
  {
  }

  /** `R.swift` keeps its `.swift`. */
  lemma NameOfRSwift(name: string)
    requires name == "R.swift"
    ensures NameOf(name) == name
  {
    MissingCharNotContained(name, "/", 0);
    MissingCharNotContained(name, ".git", 1);
    NameOfSimple(name);
  }

  lemma NameOfRSwiftRemote(url: string)
    requires url == "git@github.com:mac-cain13/R.swift.git"
    ensures NameOf(url) == "R.swift"
  {
    RSwiftRemoteParts(url);
    NameOfPrefixed("git@github.com:mac-cain13", "R.swift");
    NameOfRSwift("R.swift");
  }

  lemma NameOfGitHubPath(repo: string)
    requires repo == "github.com/yonaskolb/mint"
    ensures NameOf(repo) == "mint"
  {
    assert repo == "github.com/yonaskolb" + "/" + "mint";
    NameOfLastPart("github.com/yonaskolb", "mint");
    NameOfMint("mint");
  }

  lemma NameOfPackage(name: string)
    requires name == "package"
    ensures NameOf(name) == name
  {
    MissingCharNotContained(name, "/", 0);
    MissingCharNotContained(name, ".git", 0);
    NameOfSimple(name);
  }

  /** `mycustomdomain.com/package`, with or without `.git`, is named
      `package`. */
  lemma NameOfCustomDomain(host: string, name: string)
    requires host == "mycustomdomain.com" && name == "package"
    ensures NameOf(host + "/" + name) == name
    ensures NameOf(host + "/" + name + ".git") == name
  {
    NameOfPackage(name);
    NameOfLastPart(host, name);
    NameOfPrefixed(host, name);
  }

  // ---------------------------------------------------------------------------
  // preparePackageDictionaryCommand

  const MintUrl: string := "https://github.com/yonaskolb/mint.git"
  const MintDir: string := "github.com_yonaskolb_mint"
  const ScpMint: string := "git@github.com/yonaskolb/mint.git"
  const Hash: string := "e2da821bcfad1b4d42bf77cbd64591406ef62b90"

  /** The words of the fetch commands of a remote whose clone URL and
      directory are known, for the four revisions the tests use. */
  lemma RemoteFetch(r: Reference, url: string, dir: string)
    requires r.location.GitHub? || r.location.Git?
    requires GitPath(r) == url && RepoPath(r) == dir
    ensures r.revision == None ==>
              FetchWords(r) == ["git", "clone", "--depth", "1", "-b", "master", url, dir]
    ensures r.revision == Some(Branch("develop")) ==>
              FetchWords(r) == ["git", "clone", "--depth", "1", "-b", "develop", url, dir]
    ensures r.revision == Some(Tag("0.14.0")) ==>
              FetchWords(r) == ["git", "clone", "--depth", "1", "-b", "0.14.0", url, dir]
    ensures r.revision == Some(Commit(Hash)) ==>
              FetchWords(r) == ["git", "clone", url, dir] + CheckoutWords(dir, Hash)
  {
    match FetchRevision(r)
    case Commit(hash) => RemoteFetchCommit(r, hash);
    case Branch(name) => RemoteFetchNamed(r, name);
    case Tag(name) => RemoteFetchNamed(r, name);
    case Semver(_, _, _) =>
  }

  lemma FetchGitHubMint(r: Reference)
    requires r.location == GitHub("yonaskolb/mint")
    ensures r.revision == None ==>
              FetchWords(r) == ["git", "clone", "--depth", "1", "-b", "master", MintUrl, MintDir]
    ensures r.revision == Some(Commit(Hash)) ==>
              FetchWords(r) == ["git", "clone", MintUrl, MintDir] + CheckoutWords(MintDir, Hash)
  {
    RepoPathOfMint(r);
    RemoteFetch(r, MintUrl, MintDir);
  }

  lemma FetchGitMint(r: Reference)
    requires r.location == Git(MintUrl)
    ensures r.revision == Some(Tag("0.14.0")) ==>
              FetchWords(r) == ["git", "clone", "--depth", "1", "-b", "0.14.0", MintUrl, MintDir]
  {
    GitPathOfMintUrl(MintUrl);
    MintDirectory(MintUrl);
    RemoteFetch(r, MintUrl, MintDir);
  }

  /** The scp-style remote is cloned as written into the directory without
      the user. */
  lemma FetchScpMint(r: Reference)
    requires r.location == Git(ScpMint)
    ensures r.revision == Some(Branch("develop")) ==>
              FetchWords(r) == ["git", "clone", "--depth", "1", "-b", "develop", ScpMint, MintDir]
  {
    ScpMintParts(ScpMint);
    UserInDirectory(ScpMint);
    RemoteFetch(r, ScpMint, MintDir);
  }

  /** A leading component of a path ends at the first `_` of its directory
      name. */
  lemma LocalDirectoryStep(a: string, rest: string)
    requires '/' !in a
    ensures LocalDirectory(a + "/" + rest) == a + "_" + LocalDirectory(rest)
  {
    ReplaceCharSplit(a, '/', rest, "_");
  }

  /** An absolute path of three components becomes one directory name. */
  lemma LocalDirectoryOfThree(a: string, b: string, c: string)
    requires '/' !in a && '/' !in b && '/' !in c
    ensures LocalDirectory("/" + a + "/" + b + "/" + c) == "_" + a + "_" + b + "_" + c
  {
    assert "/" + a + "/" + b + "/" + c == [] + "/" + (a + "/" + (b + "/" + c));
    LocalDirectoryStep([], a + "/" + (b + "/" + c));
    LocalDirectoryStep(a, b + "/" + c);
    LocalDirectoryStep(b, c);
    ReplaceAbsentChar(c, '/', "_");
  }

  const Repository: string := "/path/to/repository"
  const RepositoryDir: string := "_path_to_repository"

  lemma RepositoryParts(path: string)
    requires path == Repository
    ensures path == "/" + "path" + "/" + "to" + "/" + "repository"
    ensures "_" + "path" + "_" + "to" + "_" + "repository" == RepositoryDir
  {
  }

  lemma RepositoryDirectory(path: string)
    requires path == Repository
    ensures LocalDirectory(path) == RepositoryDir
  {
    RepositoryParts(path);
    LocalDirectoryOfThree("path", "to", "repository");
  }

  lemma FetchLocalGit(r: Reference)
    requires r.location == LocalGit(Repository)
    ensures r.revision == None ==>
              FetchWords(r) == ["git", "clone", "-b", "master", "-l", Repository, RepositoryDir]
    ensures r.revision == Some(Commit(Hash)) ==>
              FetchWords(r) == ["git", "clone", "-l", Repository, RepositoryDir] + CheckoutWords(RepositoryDir, Hash)
  {
    RepositoryDirectory(Repository);
    match FetchRevision(r)
    case Commit(hash) => LocalFetchCommit(r, Repository, hash);
    case Branch(name) => LocalFetchNamed(r, Repository, name);
    case Tag(name) => LocalFetchNamed(r, Repository, name);
    case Semver(_, _, _) =>
  }

  const Package: string := "/path/to/package"
  const PackageDir: string := "_path_to_package"

  lemma PackageParts(path: string)
    requires path == Package
    ensures path == "/" + "path" + "/" + "to" + "/" + "package"
    ensures "_" + "path" + "_" + "to" + "_" + "package" == PackageDir
  {
  }

  lemma FetchLocalPackage(r: Reference)
    requires r.location == LocalPackage(Package)
    ensures FetchWords(r) == ["cp", "-r", Package, PackageDir]
  {
    PackageParts(Package);
    LocalDirectoryOfThree("path", "to", "package");
  }

  lemma JoinFour(a: string, b: string, c: string, d: string, sep: string)
    ensures Join([a, b, c, d], sep) == a + sep + (b + sep + (c + sep + d))
  {
    assert [c, d][1..] == [d];
    assert Join([c, d], sep) == c + sep + d;
    assert [b, c, d][1..] == [c, d];
    assert [a, b, c, d][1..] == [b, c, d];
  }

  lemma LocalPackageOperands(path: string, dir: string)
    requires path == "/path/to/package" && dir == "_path_to_package"
    ensures path + " " + dir == "/path/to/package _path_to_package"
  {
  }

  lemma LocalPackageCommandText(operands: string)
    requires operands == "/path/to/package _path_to_package"
    ensures "cp -r " + operands == "cp -r /path/to/package _path_to_package"
  {
  }

  /** The command string of PackageTests.swift:213, space by space. */
  lemma FetchLocalPackageCommand(r: Reference)
    requires r.location == LocalPackage(Package)
    ensures FetchCommand(r) == "cp -r /path/to/package _path_to_package"
  {
    var operands := Package + " " + PackageDir;
    FetchLocalPackage(r);
    JoinFour("cp", "-r", Package, PackageDir, " ");
    assert FetchCommand(r) == "cp -r " + operands;
    LocalPackageOperands(Package, PackageDir);
    LocalPackageCommandText(operands);
  }

  // ---------------------------------------------------------------------------
  // init(package:)

  /** A string the parser keeps as it is: no `@` and no blanks. */
  predicate Word(s: string) {
    forall k :: 0 <= k < |s| ==> s[k] != '@' && s[k] != ' ' && s[k] != '\t'
  }

  predicate ColonFree(s: string) {
    forall k :: 0 <= k < |s| ==> s[k] != ':'
  }

  lemma WordChars(s: string)
    requires Word(s)
    ensures '@' !in s && ' ' !in s && '\t' !in s
  {
  }

  lemma ColonFreeChars(s: string)
    requires ColonFree(s)
    ensures ':' !in s
  {
  }

  /** `owner/repo@version` with neither part scp- or ssh-like. */
  lemma ParseWordAtWord(repo: string, version: string)
    requires Word(repo) && Word(version) && ColonFree(repo) && ColonFree(version)
    ensures ParsePackage(repo + "@" + version) == RepoVersion(repo, version)
  {
    WordChars(repo);
    WordChars(version);
    ColonFreeChars(repo);
    ColonFreeChars(version);
    MissingCharNotContained(repo, "ssh://", 3);
    ParseRepoAtVersion(repo, version);
    TrimBlankFree(repo);
    TrimBlankFree(version);
  }

  lemma MintAtVersionParts(package: string)
    requires package == "yonaskolb/mint@0.0.1"
    ensures package == "yonaskolb/mint" + "@" + "0.0.1"
  {
  }

  lemma MintWords(repo: string, version: string)
    requires repo == "yonaskolb/mint" && version == "0.0.1"
    ensures Word(repo) && ColonFree(repo) && Word(version) && ColonFree(version)
  {
  }

  lemma ParseMintAtVersion(package: string)
    requires package == "yonaskolb/mint@0.0.1"
    ensures ParsePackage(package) == RepoVersion("yonaskolb/mint", "0.0.1")
  {
    MintAtVersionParts(package);
    MintWords("yonaskolb/mint", "0.0.1");
    ParseWordAtWord("yonaskolb/mint", "0.0.1");
  }

  lemma ParseMint(package: string)
    requires package == "yonaskolb/mint"
    ensures ParsePackage(package) == RepoVersion("yonaskolb/mint", "")
  {
    assert Word(package);
    WordChars(package);
    ParseWithoutAt(package);
  }

  /** `repo@version` where the repo may hold a `:`, but no `ssh://`, and
      the version holds none. */
  lemma ParseUrlAtVersion(repo: string, version: string)
    requires Word(repo) && Word(version) && ColonFree(version) && !Contains(repo, "ssh://")
    ensures ParsePackage(repo + "@" + version) == RepoVersion(repo, version)
  {
    WordChars(repo);
    WordChars(version);
    ColonFreeChars(version);
    TrimBlankFree(repo);
    TrimBlankFree(version);
    ParseRepoAtVersion(repo, version);
  }

  lemma ParseGitHubPathAtVersion(package: string)
    requires package == "github.com/yonaskolb/mint" + "@" + "0.0.1"
    ensures ParsePackage(package) == RepoVersion("github.com/yonaskolb/mint", "0.0.1")
  {
    var repo, version := "github.com/yonaskolb/mint", "0.0.1";
    assert Word(repo) && ColonFree(repo) && Word(version) && ColonFree(version);
    ParseWordAtWord(repo, version);
  }

  /** An `https` URL never holds `ssh://`: its only `:` follows `https`. */
  lemma HttpsIsNotSsh(rest: string)
    requires ':' !in rest
    ensures !Contains("https://" + rest, "ssh://")
  {
    var s := "https://" + rest;
    ContainsIffOccurs(s, "ssh://");
    forall i: nat ensures !OccursAt(s, "ssh://", i) {
      if i + 6 <= |s| {
        var w := s[i..i + 6];
        if i + 3 >= 8 {
          assert w[3] == rest[i - 5];
        } else if i == 2 {
          assert w[0] == 't';
        } else {
          assert w[3] == s[i + 3];
        }
      }
    }
  }

  /** The `:` of a scheme before the `@` does not make an scp-style remote. */
  lemma ParseHttpsAtVersion(path: string, version: string)
    requires path == "github.com/yonaskolb/mint.git" && version == "0.0.1"
    ensures ParsePackage("https://" + path + "@" + version) == RepoVersion("https://" + path, version)
  {
    assert Word(path) && ColonFree(path) && Word(version) && ColonFree(version);
    assert Word("https://" + path);
    ColonFreeChars(path);
    HttpsIsNotSsh(path);
    ParseUrlAtVersion("https://" + path, version);
  }

  const ScpRemote: string := "git@github.com:yonaskolb/Mint.git"

  lemma ScpRemoteParts(package: string)
    requires package == ScpRemote
    ensures package == "git" + "@" + ("github." + "com:" + "yonaskolb/" + "Mint.git")
  {
  }

  lemma ScpWords(user: string, rest: string)
    requires user == "git" && rest == "github." + "com:" + "yonaskolb/" + "Mint.git"
    ensures Word(user) && Word(rest) && ':' in rest
  {
    assert rest[10] == ':';
  }

  /** An scp-style remote is all repo. */
  lemma ParseScp(package: string)
    requires package == ScpRemote
    ensures ParsePackage(package) == RepoVersion(ScpRemote, "")
  {
    var user, rest := "git", "github." + "com:" + "yonaskolb/" + "Mint.git";
    ScpRemoteParts(package);
    ScpWords(user, rest);
    WordChars(user);
    WordChars(rest);
    TrimBlankFree(user);
    TrimBlankFree(rest);
    ParseScpRemote(user, rest);
  }

  lemma ScpAtVersionParts(package: string)
    requires package == "git@github.com:yonaskolb/Mint.git@0.0.1"
    ensures package == ScpRemote + "@" + "0.0.1"
  {
  }

  lemma VersionWord(version: string)
    requires version == "0.0.1"
    ensures Word(version)
  {
  }

  /** Three words joined by `@`: the first `@` belongs to the remote. */
  lemma ParseRemoteWords(user: string, rest: string, version: string)
    requires Word(user) && Word(rest) && Word(version)
    ensures ParsePackage(user + "@" + rest + "@" + version) == RepoVersion(user + "@" + rest, version)
  {
    WordChars(user);
    WordChars(rest);
    WordChars(version);
    TrimBlankFree(user);
    TrimBlankFree(rest);
    TrimBlankFree(version);
    ParseRemoteAtVersion(user, rest, version);
  }

  /** The second `@` of an scp-style remote starts the version. */
  lemma ParseScpAtVersion(package: string)
    requires package == "git@github.com:yonaskolb/Mint.git@0.0.1"
    ensures ParsePackage(package) == RepoVersion(ScpRemote, "0.0.1")
  {
    var user, rest := "git", "github." + "com:" + "yonaskolb/" + "Mint.git";
    ScpAtVersionParts(package);
    ScpRemoteParts(ScpRemote);
    ScpWords(user, rest);
    VersionWord("0.0.1");
    ParseRemoteWords(user, rest, "0.0.1");
  }

  const SshRemote: string := "ssh://git@server.com/user/project.git"

  lemma SshRemoteParts(package: string)
    requires package == SshRemote
    ensures package == "ssh://" + "git" + "@" + ("server." + "com/" + "user/" + "project.git")
  {
  }

  lemma SshWords(scheme: string, rest: string)
    requires scheme == "ssh://" + "git" && rest == "server." + "com/" + "user/" + "project.git"
    ensures Word(scheme) && Word(rest)
  {
  }

  /** An ssh URL with a user is all repo. */
  lemma ParseSsh(package: string)
    requires package == SshRemote
    ensures ParsePackage(package) == RepoVersion(SshRemote, "")
  {
    var scheme, rest := "ssh://" + "git", "server." + "com/" + "user/" + "project.git";
    SshRemoteParts(package);
    SshWords(scheme, rest);
    WordChars(scheme);
    WordChars(rest);
    TrimBlankFree(scheme);
    TrimBlankFree(rest);
    ContainsOwnPrefix("ssh://", "git");
    ParseSshRemote(scheme, rest);
  }

  // ---------------------------------------------------------------------------
  // init(yamlEntry:)

  lemma CommitOnly(entry: Entry)
    requires "branch" !in entry && "commit" in entry && "tag" !in entry
    ensures Present(entry, RevisionKeys) == ["commit"]
  {
  }

  lemma CommitAndTag(entry: Entry)
    requires "branch" !in entry && "commit" in entry && "tag" in entry
    ensures Present(entry, RevisionKeys) == ["commit", "tag"]
  {
  }

  lemma SortedCommitAndTag(keys: seq<string>)
    requires keys == ["commit", "tag"]
    ensures Sort(keys) == keys
  {
    assert Below(keys[0], keys[1]);
    SortedUnique(Sort(keys), keys);
  }

  lemma LocalPackageWithCommit(entry: Entry)
    requires entry == map["local_package" := Package, "commit" := "abcdefg"]
    ensures FromEntry(entry) == Failure(LocalPackageNeverHaveRevisionSpecifier(LocalPackage(Package), ["commit"]))
  {
    OneLocation(entry, "local_package");
    CommitOnly(entry);
  }

  lemma LocalPackageWithCommitAndTag(entry: Entry)
    requires entry == map["local_package" := Package, "commit" := "abcdefg", "tag" := "1.2.3"]
    ensures FromEntry(entry) ==
            Failure(LocalPackageNeverHaveRevisionSpecifier(LocalPackage(Package), ["commit", "tag"]))
  {
    OneLocation(entry, "local_package");
    CommitAndTag(entry);
    SortedCommitAndTag(["commit", "tag"]);
  }

  /** An entry whose only location key is `key`. */
  lemma SoleLocation(entry: Entry, key: string)
    requires key in LocationKeys && key in entry
    requires forall k :: k in LocationKeys && k != key ==> k !in entry
    ensures FromEntry(entry) == WithRevision(entry, LocationFor(key, entry[key]))
  {
    OneLocation(entry, key);
  }

  lemma RemoteEntryKeys(entry: Entry, key: string, value: string)
    requires key == "github" || key == "git"
    requires entry == map[key := value, "commit" := "abcdefg", "tag" := "1.2.3", "otherkey" := "othervalue"]
    ensures key in entry && entry[key] == value
    ensures forall k :: k in LocationKeys && k != key ==> k !in entry
    ensures "branch" !in entry && "commit" in entry && "tag" in entry
  {
  }

  lemma RemoteWithCommitAndTag(entry: Entry, key: string)
    requires key == "github" || key == "git"
    requires key in entry && forall k :: k in LocationKeys && k != key ==> k !in entry
    requires "branch" !in entry && "commit" in entry && "tag" in entry
    ensures FromEntry(entry) == Failure(RevisionDuplicated(LocationFor(key, entry[key]), ["commit", "tag"]))
  {
    SoleLocation(entry, key);
    CommitAndTag(entry);
    SortedCommitAndTag(["commit", "tag"]);
  }

  lemma GitHubWithCommitAndTag(entry: Entry)
    requires entry == map["github" := "user/repo", "commit" := "abcdefg", "tag" := "1.2.3",
                          "otherkey" := "othervalue"]
    ensures FromEntry(entry) == Failure(RevisionDuplicated(GitHub("user/repo"), ["commit", "tag"]))
  {
    RemoteEntryKeys(entry, "github", "user/repo");
    RemoteWithCommitAndTag(entry, "github");
  }

  lemma GitWithCommitAndTag(entry: Entry)
    requires entry == map["git" := "git@example.com:user/repo.git", "commit" := "abcdefg",
                          "tag" := "1.2.3", "otherkey" := "othervalue"]
    ensures FromEntry(entry) ==
            Failure(RevisionDuplicated(Git("git@example.com:user/repo.git"), ["commit", "tag"]))
  {
    RemoteEntryKeys(entry, "git", "git@example.com:user/repo.git");
    RemoteWithCommitAndTag(entry, "git");
  }

  lemma EmptyEntry(entry: Entry)
    requires entry == map[]
    ensures FromEntry(entry) == Failure(LocationSpecifierNotFound(map[]))
  {
    NoLocationFails(entry);
  }

  lemma GitHubAndGit(entry: Entry)
    requires entry == map["github" := "user/repo", "git" := "git@example.com:user/repotest1"]
    ensures FromEntry(entry) == Failure(LocationDuplicated(entry))
  {
    TwoLocationsFail(entry);
    assert "github" in LocationKeys && "git" in LocationKeys;
  }

  lemma TaggedMint(entry: Entry)
    requires entry == map["github" := "yonaskolb/mint", "tag" := "0.14.2"]
    ensures FromEntry(entry) == Success(Reference(GitHub("yonaskolb/mint"), Some(Tag("0.14.2"))))
  {
    var r := Reference(GitHub("yonaskolb/mint"), Some(Tag("0.14.2")));
    assert ToEntry(r) == entry;
    EntryRoundTrip(r);
  }

  lemma MintOnBranch(entry: Entry)
    requires entry == map["git" := ScpRemote, "branch" := "master"]
    ensures FromEntry(entry) == Success(Reference(Git(ScpRemote), Some(Branch("master"))))
  {
    var r := Reference(Git(ScpRemote), Some(Branch("master")));
    assert ToEntry(r) == entry;
    EntryRoundTrip(r);
  }

  // ---------------------------------------------------------------------------
  // MintError descriptions

  lemma CloneErrorOfMint(r: Reference)
    requires r == Reference(GitHub("yonaskolb/mint"), Some(Tag("1.2.0")))
    ensures Description(CloneError(r)) == "Couldn't clone " + MintUrl + " " + "1.2.0"
  {
    RepoPathOfMint(r);
  }

  lemma SortedTagAndCommit(keys: seq<string>)
    requires keys == ["tag", "commit"]
    ensures Sort(keys) == ["commit", "tag"]
  {
    SortIgnoresOrder(keys, ["commit", "tag"]);
    SortedCommitAndTag(["commit", "tag"]);
  }

  lemma UserRepoText(l: Location)
    requires l == GitHub("user/repo")
    ensures LocationText(l) == "github(repo: \"user/repo\")"
  {
  }

  lemma CommitTagList(keys: seq<string>)
    requires keys == ["commit", "tag"]
    ensures Join(keys, ", ") == "commit, tag"
  {
  }

  /** The revision keys are listed sorted, whatever order they come in. */
  lemma RevisionDuplicatedOfUserRepo(l: Location, keys: seq<string>)
    requires l == GitHub("user/repo") && keys == ["tag", "commit"]
    ensures Description(RevisionDuplicated(l, keys)) ==
            "github(repo: \"user/repo\")" + " has more than one " + "revision specifier. (" + "commit, tag" + ")"
  {
    UserRepoText(l);
    SortedTagAndCommit(keys);
    CommitTagList(["commit", "tag"]);
  }

  // ---------------------------------------------------------------------------
  // package(for:)

  /** A string without capital letters is its own lowercase form. */
  lemma LowerOfLowercase(s: string)
    requires forall k :: 0 <= k < |s| ==> !('A' <= s[k] <= 'Z')
    ensures Lower(s) == s
  {
  }

  lemma LookupParts(query: string, mint: string, swiftenv: string)
    requires query == "MINT" && mint == "yonaskolb/mint" && swiftenv == "kylef/swiftenv"
    ensures Lower(query) == "mint"
    ensures mint == "yonaskolb/" + "mint" && 'm' !in swiftenv
    ensures forall k :: 0 <= k < |mint| ==> !('A' <= mint[k] <= 'Z')
    ensures forall k :: 0 <= k < |swiftenv| ==> !('A' <= swiftenv[k] <= 'Z')
  {
  }

  /** The lookup ignores case and skips packages whose repo does not
      contain the query. */
  lemma LookupMint(m: Mintfile, query: string)
    requires m == Mintfile([Reference(GitHub("kylef/swiftenv"), None), Reference(GitHub("yonaskolb/mint"), None)])
    requires query == "MINT"
    ensures PackageFor(m, query) == Some(Reference(GitHub("yonaskolb/mint"), None))
  {
    var mint, swiftenv := "yonaskolb/mint", "kylef/swiftenv";
    LookupParts(query, mint, swiftenv);
    LowerOfLowercase(mint);
    LowerOfLowercase(swiftenv);
    ContainsOwnPrefix("mint", "");
    assert "mint" + "" == "mint";
    ContainsInSuffix("yonaskolb/", "mint", "mint");
    MissingCharNotContained(swiftenv, "mint", 0);
  }
}
