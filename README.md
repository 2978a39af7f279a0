# Mint package references in Dafny

A model of how Mint, the Swift package runner, turns a package specifier into a
reference and what it derives from that reference. It also proves what those
derivations promise.

A reference is a location plus an optional revision:
- Locations: a GitHub `owner/name`, any git remote, a local git repository or a local package.
- Revisions: a tag, a branch, a commit or a numbered version.

The model covers:
- `PackageReference` (`package_reference.dfy`):
  - the `repo` and `version` strings, and equality on them;
  - the legacy `repo@version` parser `init(package:)`;
  - the clone URL cascade `gitPath`;
  - the checkout directory `repoPath`;
  - `name` and `namedVersion`;
  - the shell command that fetches a package (`preparePackageDictionaryCommand`).
- `MintError` (`mint_error.dfy`): the messages of the clone error, the missing-Mintfile error and the four Mintfile-entry validation errors, and the rule that two errors are equal when their messages are equal.
- `MintfileYAML` (`mintfile_yaml.dfy`):
  - reading one `packages` entry into a reference or a validation error (`init(yamlEntry:)`);
  - loading a whole file, with whether the file exists as an input;
  - the case-insensitive lookup `package(for:)`.
- Foundation stand-ins (`text.dfy`, `ordering.dfy`): `components(separatedBy:)`, `joined(separator:)`, `replacingOccurrences`, trimming, `lowercased()` and `sorted()`.
- Test tables (`package_examples.dfy`): a selection of the expected input/output pairs from the package and Mintfile tests, covering every rule of `gitPath`, each branch of the parser and each error of entry reading. Each pair is proved as a lemma from the general lemmas.

At this revision `PackageReference.swift` is in the middle of a rewrite:
- It knows only the `github` and `git` locations.
- Most branches of `init(package:)` end in `fatalError()`.
- It has neither `preparePackageDictionaryCommand` nor `init(yamlEntry:)`.

The model therefore follows the tests where the source is silent:
- **Locations:** `localGit` and `localPackage` are modelled, and a local location is cloned from its own path into a directory named after that path with every `/` turned into `_`.
- **Revisions:** `commit` is modelled.
- **Fetch command:** these are its words (program, options, operands, and `;` between the commands of a commit checkout) separated by single spaces, as every expected command in the tests is.
- **Entry reading:** an entry needs exactly one of `github`, `git`, `local_git` and `local_package`. A local package takes no revision key at all. Any other location takes at most one of `branch`, `commit` and `tag`. Unknown keys are ignored. The keys an error reports are sorted.
- **Checkout directory:** `repoPath` is the directory the tests expect, which drops the user of an scp-style remote. The chain as the source writes it keeps that user and is modelled separately (see Findings).
- **Legacy parser:** the parser is modelled by the repo and version strings it settles on, because equality compares exactly those two strings (`PackageReference.swift:141-145`).

The tests decide the order of the checks. A local package with two revision keys fails with `localPackageNeverHaveRevisionSpecifier`, not with `revisionDuplicated` (`MintfileYAMLTests.swift:38-46`).

`MintfileYAML.swift:26` maps the entries without `try`. The tests call `init(yamlEntry:)` with `try` and expect it to throw. The model lets the first failing entry's error end the load.

## Model

| member | source | states |
|---|---|---|
| PackageReference.Repo | Sources/MintKit/PackageReference.swift:8-10 | `repo` is the location's string; its properties are those of TagEqualsBranch and the gitPath lemmas |
| PackageReference.Version | Sources/MintKit/PackageReference.swift:12-14 | `version` is the revision's string, or empty without one; SemverStringRoundTrip states how a numbered version reads |
| PackageReference.LocationString | Sources/MintKit/PackageReference.swift:23-30 | the string each location case carries; EntryRoundTrip shows it is what an entry's location key holds |
| PackageReference.RevisionString | Sources/MintKit/PackageReference.swift:39-48 | the string each revision case carries; SemverStringRoundTrip reads a numbered version back |
| PackageReference.Same | Sources/MintKit/PackageReference.swift:141-145 | `==` on repo and version; TagEqualsBranch shows it is coarser than equality of references |
| PackageReference.ParsePackage | Sources/MintKit/PackageReference.swift:64-105 | `init(package:)` as its repo and version; each branch has its lemma below, and ParsedVersionClean holds for every input |
| PackageReference.GitPathOf | Sources/MintKit/PackageReference.swift:115-129 | the clone URL cascade; one lemma per rule below, with GitPathIdempotent and GitPathIsRemote over all inputs |
| PackageReference.GitPath | Tests/MintTests/PackageTests.swift:179-214 | a remote's clone URL is GitPathOf its string; a local location is cloned from its own path |
| PackageReference.NameOf | Sources/MintKit/PackageReference.swift:111-113 | `name`; NameHasNoSlash, NameOfLastPart, NameOfPrefixed and NameOfGitPath state it |
| PackageReference.Name | Sources/MintKit/PackageReference.swift:111-113 | the name of a reference is NameOf its repo |
| PackageReference.NamedVersion | Sources/MintKit/PackageReference.swift:107-109 | `name version`; NamedVersionSplits reads it back |
| PackageReference.RepoPathAsWritten | Sources/MintKit/PackageReference.swift:131-138 | the source's chain; RepoPathAsWrittenKeepsUser states where it differs from RemoteDirectory |
| PackageReference.RemoteDirectory | Tests/MintTests/PackageTests.swift:150-177 | the directory of a remote without its user; RemoteDirectoryIgnoresUser, RemoteDirectoryOfUrl and FlattenSafe state it |
| PackageReference.LocalDirectory | Tests/MintTests/PackageTests.swift:179-214 | a local path with every `/` turned into `_`; RepoPathSafe states it is one path component |
| PackageReference.RepoPath | Sources/MintKit/PackageReference.swift:131-138 | `repoPath` as the tests expect it; RepoPathSafe holds for every reference |
| PackageReference.FetchWords | Tests/MintTests/PackageTests.swift:91-214 | the words of `preparePackageDictionaryCommand` per location and revision; FetchCommandWords ties them to the command |
| PackageReference.FetchCommand | Tests/MintTests/PackageTests.swift:91-214 | the words joined by single spaces; FetchCommandWords splits it back |
| MintError.Description | Sources/MintKit/MintError.swift:20-37 | the message of each modelled case; Lead, Trail and EntryTextListsPairs state its shape |
| MintError.Equal | Sources/MintKit/MintError.swift:39-41 | two errors are equal when their messages are; KeyOrderIgnored and ValidationErrorsStandApart state what that identifies |
| MintfileYAML.FromEntry | Tests/MintTests/MintfileYAMLTests.swift:26-83 | `init(yamlEntry:)`; NoLocationFails, TwoLocationsFail, OneLocation, EntryRoundTrip and EntryOfReading state it |
| MintfileYAML.Matches | Sources/MintKit/Yaml/MintfileYAML.swift:10 | a package matches when its lowercased repo contains the lowercased query |
| MintfileYAML.PackageFor | Sources/MintKit/Yaml/MintfileYAML.swift:8-12 | `package(for:)` is FirstMatch over the Mintfile's packages; LookupOfLowercase states it ignores case |
| PackageReference.SemverStringRoundTrip | Sources/MintKit/PackageReference.swift:39-48 | a `version(major:minor:patch:)` renders as three dot-separated decimals that read back as its three components |
| PackageReference.TagEqualsBranch | Sources/MintKit/PackageReference.swift:141-145 | `==` compares only the repo and version strings: a tag and a branch of the same name on one location are equal though the references differ |
| PackageReference.ParsedVersionClean | Sources/MintKit/PackageReference.swift:64-105 | the version parsed from any specifier holds no `@` and is already trimmed |
| PackageReference.ParseWithoutAt | Sources/MintKit/PackageReference.swift:97-103 | a specifier without `@`, or with three or more, is all repo, as written and untrimmed, with an empty version |
| PackageReference.ParseRepoAtVersion | Sources/MintKit/PackageReference.swift:90-96 | one `@`, no `:` after it and no `ssh://` before it: the trimmed parts are the repo and the version |
| PackageReference.ParseScpRemote | Sources/MintKit/PackageReference.swift:79-82 | one `@` with a `:` after it: the parts rejoined at `@` are the repo, and there is no version |
| PackageReference.ParseSshRemote | Sources/MintKit/PackageReference.swift:85-89 | `ssh://` before the single `@`: the parts rejoined at `@` are the repo, and there is no version |
| PackageReference.ParseRemoteAtVersion | Sources/MintKit/PackageReference.swift:72-74 | three `@`-parts: the first two rejoined at `@` are the repo and the third is the version |
| PackageReference.GitPathIsRemote | Sources/MintKit/PackageReference.swift:115-129 | every clone URL has a scheme or is an scp-style remote with `@` |
| PackageReference.GitPathIdempotent | Sources/MintKit/PackageReference.swift:115-129 | resolving a clone URL again leaves it unchanged |
| PackageReference.GitPathChars | Sources/MintKit/PackageReference.swift:115-129 | the cascade adds no character beyond those of `https://`, `github.com/` and `.git` |
| PackageReference.GitPathOfRemote | Sources/MintKit/PackageReference.swift:116-120 | a string with a scheme or an `@` is cloned as written |
| PackageReference.GitPathOfGitHubHost | Sources/MintKit/PackageReference.swift:121-122 | otherwise a string containing `github.com` gets `https://` before it and `.git` after it |
| PackageReference.GitPathOfCustomHost | Sources/MintKit/PackageReference.swift:123-124 | otherwise a string whose first `/` part holds a `.` gets only `https://` |
| PackageReference.GitPathOfFallback | Sources/MintKit/PackageReference.swift:116-127 | the result is `https://github.com/<repo>.git` if and only if no earlier rule claims the string |
| PackageReference.GitPathOfShorthand | Sources/MintKit/PackageReference.swift:116-127 | `owner/name` expands to the GitHub clone URL, even when the name holds dots |
| PackageReference.NamedVersionSplits | Sources/MintKit/PackageReference.swift:107-109 | `namedVersion` splits at its space into exactly the name and the version when neither holds a space |
| PackageReference.NameHasNoSlash | Sources/MintKit/PackageReference.swift:111-113 | a package name never holds `/` |
| PackageReference.NameOfLastPart | Sources/MintKit/PackageReference.swift:111-113 | the name depends only on the text after the last `/` |
| PackageReference.NameOfPrefixed | Sources/MintKit/PackageReference.swift:111-113 | a trailing `.git` after the last `/` is not part of the name |
| PackageReference.NameOfGitPath | Sources/MintKit/PackageReference.swift:111-129 | the name of the clone URL equals the name of the repo string it came from |
| PackageReference.FlattenSafe | Sources/MintKit/PackageReference.swift:134-137 | the replacement chain leaves no `/`, `:` or `@` |
| PackageReference.RepoPathSafe | Sources/MintKit/PackageReference.swift:131-138 | every checkout directory is one path component; a remote's also holds no `:` or `@` |
| PackageReference.RepoPathAsWrittenKeepsUser | Sources/MintKit/PackageReference.swift:131-138 | as written, `user@host/path` keeps `user_` at the head of its directory name |
| PackageReference.RemoteDirectoryIgnoresUser | Tests/MintTests/PackageTests.swift:150-155 | with the user stripped, `user@rest` is checked out where `rest` is |
| PackageReference.RemoteDirectoryOfUrl | Sources/MintKit/PackageReference.swift:132-133 | for a path with no further `://` and no `@`, only the text after `scheme://` is flattened; a `:` in the path, such as a port, is flattened like any other character |
| PackageReference.RemoteDirectoryOfUrlWithUser | Sources/MintKit/PackageReference.swift:132-133 | `scheme://user@path` is checked out where `path` is: the scheme and the user are both dropped, as for `ssh://git@server.com/user/project.git` (Tests/MintTests/PackageTests.swift:87) |
| PackageReference.RemoteDirectoryOfPath | Sources/MintKit/PackageReference.swift:132-133 | a remote with no `:` and no `@` is flattened whole |
| PackageReference.StripScheme | Sources/MintKit/PackageReference.swift:133 | `components(separatedBy: "://").last!`; RemoteDirectoryOfUrl states that it leaves exactly the path after `scheme://` |
| PackageReference.StripUserInfo | Tests/MintTests/PackageTests.swift:150-177 | the user-strip step the tests' directories need; RemoteDirectoryIgnoresUser and RemoteDirectoryOfUrlWithUser state that the user never reaches the directory |
| PackageReference.Flatten | Sources/MintKit/PackageReference.swift:134-137 | the four replacements in source order; FlattenSafe states the result is one path component without `:` or `@` |
| PackageReference.FlattenHostPath | Sources/MintKit/PackageReference.swift:134-137 | `host.domain/owner/name.git` becomes `host.domain_owner_name` |
| PackageReference.FetchCommandWords | Tests/MintTests/PackageTests.swift:91-214 | read by the shell, the fetch command is exactly its words when the reference's strings hold no space |
| PackageReference.RemoteFetchNamed | Tests/MintTests/PackageTests.swift:99-112 | a branch or tag of a remote is fetched by `git clone --depth 1 -b <name> <gitPath> <repoPath>` |
| PackageReference.RemoteFetchCommit | Tests/MintTests/PackageTests.swift:113-119 | a commit of a remote is a full clone followed by `; cd <dir> ; git checkout <hash> ; cd -` |
| PackageReference.LocalFetchNamed | Tests/MintTests/PackageTests.swift:179-199 | a branch or tag of a local repository is fetched by `git clone -b <name> -l <path> <dir>` |
| PackageReference.LocalFetchCommit | Tests/MintTests/PackageTests.swift:200-206 | a commit of a local repository is a local clone followed by the checkout words |
| PackageReference.FetchDefaultsToMaster | Tests/MintTests/PackageTests.swift:92-98 | fetching without a revision is fetching the branch `master` |
| PackageReference.FetchTagAsBranch | Tests/MintTests/PackageTests.swift:99-112 | a tag and a branch of the same name are fetched by the same command |
| PackageReference.FetchLocalPackageIgnoresRevision | Tests/MintTests/PackageTests.swift:208-214 | a local package is copied with `cp -r <path> <dir>`, whatever revision it names |
| MintError.KeyListIgnoresOrder | Sources/MintKit/MintError.swift:32-33 | the listed revision keys do not depend on the order in which they were found |
| MintError.KeyList | Sources/MintKit/MintError.swift:32-33 | `sorted().joined(separator: ", ")`; KeyListIgnoresOrder states it depends only on which keys are present |
| MintError.KeyOrderIgnored | Sources/MintKit/MintError.swift:32-41 | `revisionDuplicated` and `localPackageNeverHaveRevisionSpecifier` with the same keys in any order are equal errors |
| MintError.EntryTextListsPairs | Sources/MintKit/MintError.swift:34-35 | every key and value of the entry appears in a location error's message |
| MintError.Lead | Sources/MintKit/MintError.swift:24-35 | every validation and clone message starts with a character that tells its kind |
| MintError.Trail | Sources/MintKit/MintError.swift:25-35 | a missing-Mintfile message ends in `d`; revision errors end in `)`; location errors end in `]` |
| MintError.ValidationErrorsStandApart | Sources/MintKit/MintError.swift:15-41 | an error equal to a validation error is a validation error of the same kind |
| MintError.CloneErrorOfShorthand | Sources/MintKit/MintError.swift:24 | the clone error of `owner/name` names the GitHub URL and the version |
| MintError.SameRemoteSameCloneError | Sources/MintKit/MintError.swift:24-41 | equal remote references give equal clone errors |
| MintError.CloneErrorIgnoresRevisionKind | Sources/MintKit/MintError.swift:24-41 | cloning a tag and cloning a branch of the same name are equal errors, though different values |
| MintfileYAML.WithRevision | Tests/MintTests/MintfileYAMLTests.swift:26-73 | a revision failure is `revisionDuplicated` or `localPackageNeverHaveRevisionSpecifier` for that location; its sorted list has the same multiset as the entry's revision keys, each once |
| MintfileYAML.NoLocationFails | Tests/MintTests/MintfileYAMLTests.swift:75-78 | an entry fails with `locationSpecifierNotFound` if and only if it has no location key |
| MintfileYAML.TwoLocationsFail | Tests/MintTests/MintfileYAMLTests.swift:80-82 | an entry fails with `locationDuplicated` if and only if it has two location keys |
| MintfileYAML.OneLocation | Tests/MintTests/MintfileYAMLTests.swift:9-23 | with exactly one location key, its key and value give the location and the revision keys decide the rest |
| MintfileYAML.LocalPackageTakesNoRevision | Tests/MintTests/MintfileYAMLTests.swift:26-47 | a local package fails on any revision key, even one, ahead of `revisionDuplicated`; without one it has no revision |
| MintfileYAML.RemoteTakesOneRevision | Tests/MintTests/MintfileYAMLTests.swift:49-73 | other locations fail if and only if they have two revision keys, always with `revisionDuplicated` |
| MintfileYAML.OneRevision | Tests/MintTests/MintfileYAMLTests.swift:9-23 | a single revision key and its value are the revision |
| MintfileYAML.OtherKeysIgnored | Tests/MintTests/MintfileYAMLTests.swift:49-73 | adding a key that is neither a location nor a revision key changes nothing but the entry a location error carries |
| MintfileYAML.EntryRoundTrip | Tests/MintTests/MintfileYAMLTests.swift:9-23 | the entry that states a reference reads back as that reference |
| MintfileYAML.ReadingLocation | Tests/MintTests/MintfileYAMLTests.swift:9-23 | a read reference's location comes from the entry's only location key |
| MintfileYAML.ReadingRevision | Tests/MintTests/MintfileYAMLTests.swift:9-23 | a read reference's revision comes from the entry's only revision key, or there is none |
| MintfileYAML.EntryOfReading | Tests/MintTests/MintfileYAMLTests.swift:9-23 | the known keys of an entry that reads as a reference are exactly the entry of that reference |
| MintfileYAML.TryMap | Sources/MintKit/Yaml/MintfileYAML.swift:24-26 | mapping succeeds if and only if every element does: one result per element, in order; otherwise the first failure's error |
| MintfileYAML.Load | Sources/MintKit/Yaml/MintfileYAML.swift:14-29 | a missing file fails with `mintfileNotFound(path)`; otherwise one package per entry in entry order, or the first failing entry's error |
| MintfileYAML.FirstMatch | Sources/MintKit/Yaml/MintfileYAML.swift:8-12 | no result if and only if no repo contains the query ignoring case; otherwise the first package that does |
| MintfileYAML.LookupIgnoresCase | Sources/MintKit/Yaml/MintfileYAML.swift:10 | queries that differ only in case find the same package |
| MintfileYAML.LookupOfLowercase | Sources/MintKit/Yaml/MintfileYAML.swift:8-12 | a query finds what its lowercase form finds |
| Text.Lower | Sources/MintKit/Yaml/MintfileYAML.swift:10 | `lowercased()` keeps the length and lowercases each ASCII letter at its place |
| Text.TrimSlice | Sources/MintKit/PackageReference.swift:65-66 | trimming keeps a contiguous middle part and drops only blanks around it |
| Text.TrimIdempotent | Sources/MintKit/PackageReference.swift:65-66 | trimming a trimmed part changes nothing |
| Text.SplitJoin | Sources/MintKit/PackageReference.swift:65-73 | the parts of a split, joined with the separator, give back the text |
| Text.Split | Sources/MintKit/PackageReference.swift:65 | `components(separatedBy:)`: at least one piece; SplitJoin joins the pieces back into the text and SplitPiecesFree states no piece holds the separator character |
| Text.SplitPiecesFree | Sources/MintKit/PackageReference.swift:65 | no piece of a split on one character contains that character |
| Text.Replace | Sources/MintKit/PackageReference.swift:134-137 | `replacingOccurrences(of:with:)`; ReplaceIsSplitJoin states it equals splitting on the target and joining with the replacement |
| Text.ReplaceIsSplitJoin | Sources/MintKit/PackageReference.swift:134-137 | replacing is splitting on the target and joining with the replacement, for every text |
| Text.Contains | Sources/MintKit/Yaml/MintfileYAML.swift:10 | `contains`; ContainsIffOccurs states it holds exactly when the substring occurs at some index |
| Text.ContainsIffOccurs | Sources/MintKit/Yaml/MintfileYAML.swift:10 | the left-to-right scan finds a substring if and only if it occurs at some index |
| Text.Trim | Sources/MintKit/PackageReference.swift:66 | `trimmingCharacters(in: .whitespaces)`; TrimSlice and TrimIdempotent state it |
| Text.HasScheme | Sources/MintKit/PackageReference.swift:116 | stands in for `URL(string:)` having a scheme: a letter, then scheme characters up to a `:`; HttpsHasScheme and HasSchemeColon state it |
| Text.HasSchemeColon | Sources/MintKit/PackageReference.swift:116 | only a string holding a `:` has a scheme |
| Text.HttpsHasScheme | Sources/MintKit/PackageReference.swift:116 | every `https://` URL has a scheme |
| Ordering.Sort | Sources/MintKit/MintError.swift:32-33 | `sorted()` returns an ordered permutation of the keys |
| Ordering.SortIgnoresOrder | Sources/MintKit/MintError.swift:32-33 | the same keys in any order sort to the same list |
| Ordering.SortedElements | Sources/MintKit/MintError.swift:34-35 | the keys of an entry as a message lists them: each once, in increasing order |
| PackageExamples.GitPathOfMint | Tests/MintTests/PackageTests.swift:17 | `yonaskolb/mint` → `https://github.com/yonaskolb/mint.git` |
| PackageExamples.GitPathOfRSwift | Tests/MintTests/PackageTests.swift:36 | `mac-cain13/R.swift` → `https://github.com/mac-cain13/R.swift.git` |
| PackageExamples.GitPathOfGitHubPath | Tests/MintTests/PackageTests.swift:28 | `github.com/yonaskolb/mint` → `https://github.com/yonaskolb/mint.git` |
| PackageExamples.GitPathOfCustomDomain | Tests/MintTests/PackageTests.swift:31-32 | `mycustomdomain.com/package`, with or without `.git`, gets only `https://` |
| PackageExamples.GitPathOfScpRemote | Tests/MintTests/PackageTests.swift:35 | `git@github.com:yonaskolb/Mint.git` is its own clone URL |
| PackageExamples.GitPathOfMintUrl | Tests/MintTests/PackageTests.swift:30 | an `https` URL is its own clone URL |
| PackageExamples.RepoPathOfMint | Tests/MintTests/PackageTests.swift:17-18 | the GitHub reference `yonaskolb/mint` clones its URL into `github.com_yonaskolb_mint` |
| PackageExamples.MintDirectory | Tests/MintTests/PackageTests.swift:121-127 | the `https` URL of mint is checked out into `github.com_yonaskolb_mint` |
| PackageExamples.UserInDirectory | Tests/MintTests/PackageTests.swift:150-155 | for `git@github.com/yonaskolb/mint.git` the source's chain gives `git_github.com_yonaskolb_mint`, the test expects `github.com_yonaskolb_mint` |
| PackageExamples.NameOfMintUrl | Tests/MintTests/PackageTests.swift:50 | the name of `https://github.com/yonaskolb/mint.git` is `mint` |
| PackageExamples.NameOfRSwift | Tests/MintTests/PackageTests.swift:56 | `R.swift` keeps its `.swift` |
| PackageExamples.NameOfRSwiftRemote | Tests/MintTests/PackageTests.swift:59 | the name of `git@github.com:mac-cain13/R.swift.git` is `R.swift` |
| PackageExamples.NameOfGitHubPath | Tests/MintTests/PackageTests.swift:48 | the name of `github.com/yonaskolb/mint` is `mint` |
| PackageExamples.NameOfCustomDomain | Tests/MintTests/PackageTests.swift:51-52 | `mycustomdomain.com/package`, with or without `.git`, is named `package` |
| PackageExamples.RemoteFetch | Tests/MintTests/PackageTests.swift:92-177 | the fetch words of a remote for no revision, `develop`, `0.14.0` and the commit of the tests |
| PackageExamples.FetchGitHubMint | Tests/MintTests/PackageTests.swift:92-119 | the fetch words of the GitHub reference `yonaskolb/mint` |
| PackageExamples.FetchGitMint | Tests/MintTests/PackageTests.swift:135-141 | the fetch words of mint's `https` remote at tag `0.14.0` |
| PackageExamples.FetchScpMint | Tests/MintTests/PackageTests.swift:157-163 | the scp-style remote is cloned as written into the directory without the user |
| PackageExamples.FetchLocalGit | Tests/MintTests/PackageTests.swift:179-206 | the fetch words of `/path/to/repository` without a revision and at a commit |
| PackageExamples.FetchLocalPackage | Tests/MintTests/PackageTests.swift:208-214 | `/path/to/package` is copied into `_path_to_package` |
| PackageExamples.FetchLocalPackageCommand | Tests/MintTests/PackageTests.swift:208-214 | the command string is exactly `cp -r /path/to/package _path_to_package` |
| PackageExamples.ParseMint | Tests/MintTests/PackageTests.swift:69 | `yonaskolb/mint` parses to that repo with no version |
| PackageExamples.ParseMintAtVersion | Tests/MintTests/PackageTests.swift:70 | `yonaskolb/mint@0.0.1` parses to repo `yonaskolb/mint` and version `0.0.1` |
| PackageExamples.ParseGitHubPathAtVersion | Tests/MintTests/PackageTests.swift:72 | `github.com/yonaskolb/mint@0.0.1` parses to that repo and version `0.0.1` |
| PackageExamples.ParseUrlAtVersion | Sources/MintKit/PackageReference.swift:90-96 | a blank-free `repo@version` whose repo may hold `:` but not `ssh://`, and whose version holds no `:`, parses to repo and version |
| PackageExamples.ParseHttpsAtVersion | Tests/MintTests/PackageTests.swift:76 | `https://github.com/yonaskolb/mint.git@0.0.1`: the scheme's `:` does not make it scp-style |
| PackageExamples.ParseScp | Tests/MintTests/PackageTests.swift:85 | the scp-style remote parses to itself with no version |
| PackageExamples.ParseScpAtVersion | Tests/MintTests/PackageTests.swift:86 | the scp-style remote at `0.0.1` keeps its first `@` |
| PackageExamples.ParseSsh | Tests/MintTests/PackageTests.swift:87 | the ssh URL with a user parses to itself with no version |
| PackageExamples.LocalPackageWithCommit | Tests/MintTests/MintfileYAMLTests.swift:29-36 | a local package with `commit` fails, listing `commit` |
| PackageExamples.LocalPackageWithCommitAndTag | Tests/MintTests/MintfileYAMLTests.swift:38-46 | a local package with `commit` and `tag` fails with the local-package error, listing both keys sorted |
| PackageExamples.GitHubWithCommitAndTag | Tests/MintTests/MintfileYAMLTests.swift:50-60 | a GitHub entry with `commit`, `tag` and `otherkey` fails with `revisionDuplicated` |
| PackageExamples.GitWithCommitAndTag | Tests/MintTests/MintfileYAMLTests.swift:62-72 | the same for a git entry |
| PackageExamples.EmptyEntry | Tests/MintTests/MintfileYAMLTests.swift:76-78 | the empty entry fails with `locationSpecifierNotFound([:])` |
| PackageExamples.GitHubAndGit | Tests/MintTests/MintfileYAMLTests.swift:80-82 | an entry with `github` and `git` fails with `locationDuplicated` |
| PackageExamples.TaggedMint | Tests/MintTests/MintfileYAMLTests.swift:12 | `github: yonaskolb/mint, tag: 0.14.2` reads as that tagged reference |
| PackageExamples.MintOnBranch | Tests/MintTests/MintfileYAMLTests.swift:16 | the scp-style git entry on branch `master` reads as that reference |
| PackageExamples.CloneErrorOfMint | Sources/MintKit/MintError.swift:24 | cloning mint at `1.2.0` fails with `Couldn't clone https://github.com/yonaskolb/mint.git 1.2.0` |
| PackageExamples.SortedTagAndCommit | Tests/MintTests/MintfileYAMLTests.swift:51 | `["tag", "commit"]` sorts to `["commit", "tag"]` |
| PackageExamples.RevisionDuplicatedOfUserRepo | Sources/MintKit/MintError.swift:32 | the message of `revisionDuplicated(github("user/repo"), ["tag", "commit"])` lists `commit, tag` |
| PackageExamples.LookupMint | Sources/MintKit/Yaml/MintfileYAML.swift:8-12 | the query `MINT` skips `kylef/swiftenv` and finds `yonaskolb/mint` |

## Left out

- The other eight `MintError` cases (`packageNotFound`, `repoNotFound`, `missingExecutable`, `invalidExecutable`, `packageResolveError`, `packageBuildError`, `packageReadError`, `packageNotInstalled`): they belong to installing and running packages, not to references.
- `Location.unknown`, `Revision.unknown`, the unavailable `init(repo:version:)` and the `fatalError()` branches of `init(package:)`: the parser is modelled by the repo and version strings the tests compare it by.
- Foundation's `URL(string:)`: it is replaced by the scheme rule of section 3.1 of RFC 3986 (a letter, then letters, digits, `+`, `-` or `.`, then `:`). `absoluteString` is taken to be the string itself.
- Reading the Mintfile, YAML decoding, and the `fatalError()` on a document that is not a map. The entries are an input, each a map from string keys to string values. An entry value of any other YAML type is not modelled.
- Path normalisation, `~` expansion and making local paths absolute: local paths are taken as given.
- Whether the Mintfile exists is a boolean input to `Load`.
- Swift's printing of `Location` and `[String: Any]` inside messages is defined by the runtime:
  - A location is modelled as `case(label: "value")`.
  - An entry is modelled as `["key": "value", ...]` with its keys sorted, or `[:]` when empty.
  - The messages are therefore exact only up to this format. Dictionary order is not modelled.
- `String.quoted` is defined outside the modelled files. It is taken to mean the string between double quotes.
- `lowercased()` and trimming are ASCII-only. Only space and tab count as blanks. Unicode case folding is not modelled.
- The commit revision's string is its hash.
- PackageReference.LocalDirectory: replaces only `/`, as every local path in the tests needs. The remote chain would also drop `.git` and turn `:` and `@` into `_`; for a local path such as `/a/repo.git` the model keeps `_a_repo.git`.
- MintfileYAML.Matches: an empty query is contained in every repo, so it finds the first package. Swift's `String.contains("")` has answered false on some Foundation versions; that platform difference is not modelled.
- Running the fetch command, the install paths of `Mint`/`PackagePath`, SPM builds and all output.
- PackageReference.FetchCommandWords: proved only for references whose strings hold no space. With a space, the shell would split a path or a revision, and the source does not quote them.

## Findings

| source | as written | input that shows it | evidently intended | confidence | as-written member | corrected member |
|---|---|---|---|---|---|---|
| Sources/MintKit/PackageReference.swift:131-138 | `repoPath` keeps the text after the last `://`, then replaces `/`, `.git`, `:` and `@`, so the user of an scp-style remote stays in the directory name | `git@github.com/yonaskolb/mint.git` gives `git_github.com_yonaskolb_mint` | `github.com_yonaskolb_mint`, as Tests/MintTests/PackageTests.swift:150-155 expects: the user is dropped before flattening | not executed | PackageReference.RepoPathAsWrittenKeepsUser | PackageReference.RemoteDirectoryIgnoresUser |
