/** ASCII stand-ins for the Foundation string operations the package-reference
    code is built from: `contains`, `components(separatedBy:)`,
    `joined(separator:)`, `replacingOccurrences(of:with:)`,
    `trimmingCharacters(in: .whitespaces)` and `lowercased()`, plus the
    scheme test of a URL and decimal rendering of unsigned integers.
    Each operation is defined by a left-to-right scan, as Foundation performs
    it, and the lemmas relate the scans to each other and to plain
    index-based definitions. */
module Text {

  // ---------------------------------------------------------------------------
  // Substrings

  predicate StartsWith(s: string, prefix: string) {
    |prefix| <= |s| && s[..|prefix|] == prefix
  }

  /** `sub` occurs in `s` at index `i`. */
  predicate OccursAt(s: string, sub: string, i: nat) {
    i + |sub| <= |s| && s[i..i + |sub|] == sub
  }

  /** `s.contains(sub)`, by trying every start position from the left. */
  predicate Contains(s: string, sub: string)
    decreases |s|
  {
    StartsWith(s, sub) || (s != [] && Contains(s[1..], sub))
  }

  /** The scan agrees with the index-based definition of a substring. */
  lemma {:induction false} ContainsIffOccurs(s: string, sub: string)
    ensures Contains(s, sub) <==> exists i: nat :: OccursAt(s, sub, i)
    decreases |s|
  {
    if Contains(s, sub) {
      if StartsWith(s, sub) {
        assert OccursAt(s, sub, 0);
      } else {
        ContainsIffOccurs(s[1..], sub);
        var i: nat :| OccursAt(s[1..], sub, i);
        assert s[1..][i..i + |sub|] == s[i + 1..i + 1 + |sub|];
        assert OccursAt(s, sub, i + 1);
      }
    }
    if exists i: nat :: OccursAt(s, sub, i) {
      var i: nat :| OccursAt(s, sub, i);
      if i == 0 {
        assert StartsWith(s, sub);
      } else {
        assert s[1..][i - 1..i - 1 + |sub|] == s[i..i + |sub|];
        assert OccursAt(s[1..], sub, i - 1);
        ContainsIffOccurs(s[1..], sub);
      }
    }
  }

  /** For a one-character needle, `contains` is plain membership. */
  lemma {:induction false} ContainsChar(s: string, c: char)
    ensures Contains(s, [c]) <==> c in s
    decreases |s|
  {
    if s != [] {
      ContainsChar(s[1..], c);
      assert s == [s[0]] + s[1..];
    }
  }

  /** A needle can only start where its first character is: when that
      character occurs once in `s` and the needle does not start there, `s`
      does not contain the needle. */
  lemma OnlyPlaceMisses(a: string, c: char, b: string, sub: string)
    requires sub != [] && sub[0] == c && c !in a && c !in b && !StartsWith([c] + b, sub)
    ensures !Contains(a + [c] + b, sub)
  {
    var s := a + [c] + b;
    forall i: nat ensures !OccursAt(s, sub, i) {
      if i + |sub| <= |s| {
        assert s[i..i + |sub|][0] == s[i];
        if i < |a| {
          assert s[i] == a[i];
        } else if i > |a| {
          assert s[i] == b[i - |a| - 1];
        } else {
          assert s[i..i + |sub|] == ([c] + b)[..|sub|];
        }
      }
    }
    ContainsIffOccurs(s, sub);
  }

  /** A needle without the character `c` cannot straddle it: it is in
      `a + [c] + b` only when it is in `a` or in `b`. */
  lemma SeparatorBreaks(a: string, c: char, b: string, sub: string)
    requires c !in sub && !Contains(a, sub) && !Contains(b, sub)
    ensures !Contains(a + [c] + b, sub)
  {
    var s := a + [c] + b;
    ContainsIffOccurs(a, sub);
    ContainsIffOccurs(b, sub);
    forall i: nat ensures !OccursAt(s, sub, i) {
      if i + |sub| <= |s| {
        if i + |sub| <= |a| {
          assert s[i..i + |sub|] == a[i..i + |sub|];
          assert !OccursAt(a, sub, i);
        } else if i > |a| {
          assert s[i..i + |sub|] == b[i - |a| - 1..i - |a| - 1 + |sub|];
          assert !OccursAt(b, sub, i - |a| - 1);
        } else {
          assert s[i..i + |sub|][|a| - i] == c;
        }
      }
    }
    ContainsIffOccurs(s, sub);
  }

  /** Every character of a contained needle is a character of `s`. */
  lemma {:induction false} ContainsOnlyItsChars(s: string, sub: string, k: nat)
    requires Contains(s, sub) && k < |sub|
    ensures sub[k] in s
    decreases |s|
  {
    if StartsWith(s, sub) {
      assert s[k] == sub[k];
    } else {
      ContainsOnlyItsChars(s[1..], sub, k);
    }
  }

  lemma {:induction false} ContainsInSuffix(x: string, s: string, sub: string)
    requires Contains(s, sub)
    ensures Contains(x + s, sub)
    decreases |x|
  {
    if x != [] {
      assert (x + s)[1..] == x[1..] + s;
      ContainsInSuffix(x[1..], s, sub);
    } else {
      assert x + s == s;
    }
  }

  lemma {:induction false} ContainsInPrefix(s: string, y: string, sub: string)
    requires Contains(s, sub)
    ensures Contains(s + y, sub)
    decreases |s|
  {
    if StartsWith(s, sub) {
      assert (s + y)[..|sub|] == s[..|sub|];
    } else {
      assert (s + y)[1..] == s[1..] + y;
      ContainsInPrefix(s[1..], y, sub);
    }
  }

  // ---------------------------------------------------------------------------
  // components(separatedBy:) and joined(separator:)

  function Last(parts: seq<string>): string
    requires parts != []
  {
    parts[|parts| - 1]
  }

  /** `s.components(separatedBy: sep)`: the pieces between the occurrences of
      `sep` found scanning from the left; there is always at least one piece,
      and an empty `s` gives the single empty piece. */
  function Split(s: string, sep: string): (parts: seq<string>)
    requires sep != []
    ensures |parts| >= 1
  {
    SplitFrom(s, sep, [])
  }

  /** The scan behind `Split`: `piece` is the text gathered since the last
      separator. */
  function SplitFrom(s: string, sep: string, piece: string): (parts: seq<string>)
    requires sep != []
    ensures |parts| >= 1
    decreases |s|
  {
    if s == [] then [piece]
    else if StartsWith(s, sep) then [piece] + SplitFrom(s[|sep|..], sep, [])
    else SplitFrom(s[1..], sep, piece + [s[0]])
  }

  /** `parts.joined(separator: sep)`. */
  function Join(parts: seq<string>, sep: string): string
  {
    if parts == [] then []
    else if |parts| == 1 then parts[0]
    else parts[0] + sep + Join(parts[1..], sep)
  }

  /** Each part can be found in the joined string. */
  lemma {:induction false} JoinContainsPart(parts: seq<string>, sep: string, i: nat)
    requires i < |parts|
    ensures Contains(Join(parts, sep), parts[i])
    decreases |parts|
  {
    if |parts| == 1 {
      ContainsOwnPrefix(parts[0], []);
      assert parts[0] + [] == parts[0];
    } else if i == 0 {
      ContainsOwnPrefix(parts[0], sep + Join(parts[1..], sep));
      assert parts[0] + sep + Join(parts[1..], sep) == parts[0] + (sep + Join(parts[1..], sep));
    } else {
      JoinContainsPart(parts[1..], sep, i - 1);
      ContainsInSuffix(parts[0] + sep, Join(parts[1..], sep), parts[i]);
    }
  }

  lemma {:induction false} SplitFromJoin(s: string, sep: string, piece: string)
    requires sep != []
    ensures Join(SplitFrom(s, sep, piece), sep) == piece + s
    decreases |s|
  {
    if s == [] {
    } else if StartsWith(s, sep) {
      SplitFromJoin(s[|sep|..], sep, []);
      assert s == sep + s[|sep|..];
    } else {
      SplitFromJoin(s[1..], sep, piece + [s[0]]);
      assert s == [s[0]] + s[1..];
    }
  }

  /** Splitting loses nothing: joining the pieces with the separator gives
      back the original string. */
  lemma SplitJoin(s: string, sep: string)
    requires sep != []
    ensures Join(Split(s, sep), sep) == s
  {
    SplitFromJoin(s, sep, []);
  }

  lemma {:induction false} SplitFromFree(s: string, c: char, piece: string)
    requires c !in piece
    ensures forall i :: 0 <= i < |SplitFrom(s, [c], piece)| ==> c !in SplitFrom(s, [c], piece)[i]
    decreases |s|
  {
    if s == [] {
    } else if StartsWith(s, [c]) {
      SplitFromFree(s[1..], c, []);
    } else {
      assert s[0] != c;
      SplitFromFree(s[1..], c, piece + [s[0]]);
    }
  }

  /** No piece of a split on one character contains that character. */
  lemma SplitPiecesFree(s: string, c: char)
    ensures forall i :: 0 <= i < |Split(s, [c])| ==> c !in Split(s, [c])[i]
  {
    SplitFromFree(s, c, []);
  }

  lemma {:induction false} SplitFromNoOccurrence(s: string, sep: string, piece: string)
    requires sep != [] && !Contains(s, sep)
    ensures SplitFrom(s, sep, piece) == [piece + s]
    decreases |s|
  {
    if s != [] {
      SplitFromNoOccurrence(s[1..], sep, piece + [s[0]]);
      assert piece + [s[0]] + s[1..] == piece + s;
    } else {
      assert piece + s == piece;
    }
  }

  /** A string without the separator is its own single piece. */
  lemma SplitNoOccurrence(s: string, sep: string)
    requires sep != [] && !Contains(s, sep)
    ensures Split(s, sep) == [s]
  {
    SplitFromNoOccurrence(s, sep, []);
    assert [] + s == s;
  }

  lemma {:induction false} SplitFromAtFirst(a: string, sep: string, b: string, piece: string)
    requires sep != [] && !Contains(a + sep[..|sep| - 1], sep)
    ensures SplitFrom(a + sep + b, sep, piece) == [piece + a] + SplitFrom(b, sep, [])
    decreases |a|
  {
    var s := a + sep + b;
    if a == [] {
      assert s[..|sep|] == sep && s[|sep|..] == b;
      assert piece + a == piece;
    } else {
      var t := a + sep[..|sep| - 1];
      assert s[..|sep|] == t[..|sep|];
      assert !StartsWith(t, sep);
      assert s[1..] == a[1..] + sep + b;
      assert t[1..] == a[1..] + sep[..|sep| - 1];
      SplitFromAtFirst(a[1..], sep, b, piece + [a[0]]);
      assert piece + [a[0]] + a[1..] == piece + a;
    }
  }

  /** When no occurrence of `sep` starts inside `a`, the first piece of
      `a + sep + b` is exactly `a`. */
  lemma SplitAtFirst(a: string, sep: string, b: string)
    requires sep != [] && !Contains(a + sep[..|sep| - 1], sep)
    ensures Split(a + sep + b, sep) == [a] + Split(b, sep)
  {
    SplitFromAtFirst(a, sep, b, []);
    assert [] + a == a;
  }

  /** The one-character form of `SplitAtFirst`. */
  lemma SplitAtChar(a: string, c: char, b: string)
    requires c !in a
    ensures Split(a + [c] + b, [c]) == [a] + Split(b, [c])
  {
    assert [c][..0] == [] && a + [] == a;
    ContainsChar(a, c);
    SplitAtFirst(a, [c], b);
  }

  lemma {:induction false} LastSplitFromAfter(a: string, c: char, b: string, piece: string)
    ensures Last(SplitFrom(a + [c] + b, [c], piece)) == Last(SplitFrom(b, [c], []))
    decreases |a|
  {
    var s := a + [c] + b;
    if a == [] {
      assert s[1..] == b;
    } else {
      assert s[1..] == a[1..] + [c] + b;
      if a[0] == c {
        LastSplitFromAfter(a[1..], c, b, []);
      } else {
        LastSplitFromAfter(a[1..], c, b, piece + [a[0]]);
      }
    }
  }

  /** The last piece only depends on what follows the last separator. */
  lemma LastSplitAfter(a: string, c: char, b: string)
    ensures Last(Split(a + [c] + b, [c])) == Last(Split(b, [c]))
  {
    LastSplitFromAfter(a, c, b, []);
  }

  lemma {:induction false} LastSplitFromAppend(s: string, c: char, y: string, piece: string)
    requires c !in y
    ensures Last(SplitFrom(s + y, [c], piece)) == Last(SplitFrom(s, [c], piece)) + y
    decreases |s|
  {
    if s == [] {
      ContainsChar(y, c);
      SplitFromNoOccurrence(y, [c], piece);
      assert s + y == y;
    } else {
      assert (s + y)[1..] == s[1..] + y;
      if s[0] == c {
        LastSplitFromAppend(s[1..], c, y, []);
      } else {
        LastSplitFromAppend(s[1..], c, y, piece + [s[0]]);
      }
    }
  }

  /** Text without the separator appended to a string lengthens its last
      piece. */
  lemma LastSplitAppend(s: string, c: char, y: string)
    requires c !in y
    ensures Last(Split(s + y, [c])) == Last(Split(s, [c])) + y
  {
    LastSplitFromAppend(s, c, y, []);
  }

  // ---------------------------------------------------------------------------
  // replacingOccurrences(of:with:)

  /** `s.replacingOccurrences(of: target, with: replacement)`: every occurrence
      of `target` found scanning from the left is replaced; the scan resumes
      after the replaced occurrence. */
  function Replace(s: string, target: string, replacement: string): string
    requires target != []
    decreases |s|
  {
    if s == [] then []
    else if StartsWith(s, target) then replacement + Replace(s[|target|..], target, replacement)
    else [s[0]] + Replace(s[1..], target, replacement)
  }

  lemma {:induction false} SplitFromJoinReplace(s: string, target: string, replacement: string, piece: string)
    requires target != []
    ensures Join(SplitFrom(s, target, piece), replacement) == piece + Replace(s, target, replacement)
    decreases |s|
  {
    if s == [] {
    } else if StartsWith(s, target) {
      SplitFromJoinReplace(s[|target|..], target, replacement, []);
    } else {
      SplitFromJoinReplace(s[1..], target, replacement, piece + [s[0]]);
    }
  }

  /** Replacing is splitting on the target and joining with the replacement,
      the two Foundation operations agreeing on where the occurrences are. */
  lemma ReplaceIsSplitJoin(s: string, target: string, replacement: string)
    requires target != []
    ensures Replace(s, target, replacement) == Join(Split(s, target), replacement)
  {
    SplitFromJoinReplace(s, target, replacement, []);
  }

  /** Replacing brings in no character other than those of the replacement. */
  lemma {:induction false} ReplaceChars(s: string, target: string, replacement: string, c: char)
    requires target != []
    requires c in Replace(s, target, replacement)
    ensures c in s || c in replacement
    decreases |s|
  {
    if s == [] {
    } else if StartsWith(s, target) {
      if c !in replacement {
        ReplaceChars(s[|target|..], target, replacement, c);
      }
    } else if c != s[0] {
      ReplaceChars(s[1..], target, replacement, c);
    }
  }

  /** Replacing a character by text without it removes the character. */
  lemma {:induction false} ReplaceRemovesChar(s: string, c: char, replacement: string)
    requires c !in replacement
    ensures c !in Replace(s, [c], replacement)
    decreases |s|
  {
    if s != [] {
      ReplaceRemovesChar(s[1..], c, replacement);
    }
  }

  lemma {:induction false} ReplaceNoOccurrence(s: string, target: string, replacement: string)
    requires target != [] && !Contains(s, target)
    ensures Replace(s, target, replacement) == s
    decreases |s|
  {
    if s != [] {
      ReplaceNoOccurrence(s[1..], target, replacement);
      assert s == [s[0]] + s[1..];
    }
  }

  /** For a one-character target, replacing distributes over concatenation. */
  lemma {:induction false} ReplaceCharConcat(x: string, c: char, y: string, replacement: string)
    ensures Replace(x + y, [c], replacement) == Replace(x, [c], replacement) + Replace(y, [c], replacement)
    decreases |x|
  {
    if x != [] {
      assert (x + y)[1..] == x[1..] + y;
      ReplaceCharConcat(x[1..], c, y, replacement);
    } else {
      assert x + y == y;
    }
  }

  /** Text holding no first character of the target is copied as it is. */
  lemma {:induction false} ReplaceSkipsPrefix(a: string, b: string, target: string, replacement: string)
    requires target != [] && target[0] !in a
    ensures Replace(a + b, target, replacement) == a + Replace(b, target, replacement)
    decreases |a|
  {
    if a != [] {
      assert !StartsWith(a + b, target) by {
        if |target| <= |a + b| {
          assert (a + b)[..|target|][0] == a[0];
        }
      }
      assert (a + b)[1..] == a[1..] + b;
      ReplaceSkipsPrefix(a[1..], b, target, replacement);
      assert a == [a[0]] + a[1..];
    } else {
      assert a + b == b;
    }
  }

  /** A needle holding a character that `s` lacks is not contained. */
  lemma MissingCharNotContained(s: string, sub: string, k: nat)
    requires k < |sub| && sub[k] !in s
    ensures !Contains(s, sub)
  {
    if Contains(s, sub) {
      ContainsOnlyItsChars(s, sub, k);
    }
  }

  /** A string contains each of its prefixes. */
  lemma ContainsOwnPrefix(x: string, y: string)
    ensures Contains(x + y, x)
  {
    assert (x + y)[..|x|] == x;
  }

  /** Replacing a character that does not occur changes nothing. */
  lemma ReplaceAbsentChar(s: string, c: char, replacement: string)
    requires c !in s
    ensures Replace(s, [c], replacement) == s
  {
    ContainsChar(s, c);
    ReplaceNoOccurrence(s, [c], replacement);
  }

  /** Replacing a single character at its first occurrence. */
  lemma ReplaceCharSplit(a: string, c: char, b: string, replacement: string)
    requires c !in a
    ensures Replace(a + [c] + b, [c], replacement) == a + replacement + Replace(b, [c], replacement)
  {
    ReplaceCharConcat(a + [c], c, b, replacement);
    ReplaceCharConcat(a, c, [c], replacement);
    ReplaceAbsentChar(a, c, replacement);
    assert Replace([c], [c], replacement) == replacement + Replace([], [c], replacement);
  }

  /** A target whose first character does not reappear in it cannot start
      inside `a` and end inside a copy of itself appended to `a`, so an
      appended occurrence is replaced on its own. */
  lemma {:induction false} ReplaceAppendedTarget(a: string, target: string, replacement: string)
    requires target != [] && target[0] !in target[1..]
    ensures Replace(a + target, target, replacement) == Replace(a, target, replacement) + replacement
    decreases |a|
  {
    var s := a + target;
    if a == [] {
      assert s == target && s[|target|..] == [];
    } else if |a| >= |target| {
      assert s[..|target|] == a[..|target|];
      if StartsWith(a, target) {
        assert s[|target|..] == a[|target|..] + target;
        ReplaceAppendedTarget(a[|target|..], target, replacement);
      } else {
        assert s[1..] == a[1..] + target;
        ReplaceAppendedTarget(a[1..], target, replacement);
      }
    } else {
      assert !StartsWith(s, target) by {
        assert s[|a|] == target[0];
        assert target[1..][|a| - 1] == target[|a|];
      }
      assert s[1..] == a[1..] + target;
      ReplaceAppendedTarget(a[1..], target, replacement);
    }
  }

  // ---------------------------------------------------------------------------
  // trimmingCharacters(in: .whitespaces), ASCII space and tab only

  predicate IsBlank(c: char) {
    c == ' ' || c == '\t'
  }

  /** The longest suffix of `s` that does not start with a blank. */
  function TrimStart(s: string): (t: string)
    ensures |t| <= |s| && t == s[|s| - |t|..]
    ensures t == [] || !IsBlank(t[0])
    ensures forall k :: 0 <= k < |s| - |t| ==> IsBlank(s[k])
    decreases |s|
  {
    if s != [] && IsBlank(s[0]) then TrimStart(s[1..]) else s
  }

  /** The longest prefix of `s` that does not end with a blank. */
  function TrimEnd(s: string): (t: string)
    ensures |t| <= |s| && t == s[..|t|]
    ensures t == [] || !IsBlank(t[|t| - 1])
    ensures forall k :: |t| <= k < |s| ==> IsBlank(s[k])
    decreases |s|
  {
    if s != [] && IsBlank(s[|s| - 1]) then TrimEnd(s[..|s| - 1]) else s
  }

  /** `s.trimmingCharacters(in: .whitespaces)`. */
  function Trim(s: string): string {
    TrimEnd(TrimStart(s))
  }

  /** Every character of `s` before `i` and from `j` on is a blank. */
  predicate BlankOutside(s: string, i: nat, j: nat)
    requires i <= j <= |s|
  {
    (forall k :: 0 <= k < i ==> IsBlank(s[k])) && (forall k :: j <= k < |s| ==> IsBlank(s[k]))
  }

  /** Trimming keeps a contiguous middle slice of `s` and drops only blanks. */
  lemma TrimSlice(s: string) returns (i: nat, j: nat)
    ensures i <= j <= |s| && Trim(s) == s[i..j] && BlankOutside(s, i, j)
  {
    var u := TrimStart(s);
    var t := TrimEnd(u);
    i := |s| - |u|;
    j := i + |t|;
    assert t == s[i..j];
    forall k | j <= k < |s| ensures IsBlank(s[k]) {
      assert s[k] == u[k - i];
    }
  }

  lemma TrimChars(s: string, c: char)
    requires c in Trim(s)
    ensures c in s
  {
    var i, j := TrimSlice(s);
  }

  /** A substring of a slice is a substring of the whole. */
  lemma ContainsInSlice(s: string, i: nat, j: nat, sub: string)
    requires i <= j <= |s| && Contains(s[i..j], sub)
    ensures Contains(s, sub)
  {
    var mid := s[i..j];
    ContainsInPrefix(mid, s[j..], sub);
    assert s[i..] == mid + s[j..];
    ContainsInSuffix(s[..i], s[i..], sub);
    assert s == s[..i] + s[i..];
  }

  /** A substring of the trimmed text is a substring of the text. */
  lemma ContainsInTrim(s: string, sub: string)
    requires Contains(Trim(s), sub)
    ensures Contains(s, sub)
  {
    var i, j := TrimSlice(s);
    ContainsInSlice(s, i, j, sub);
  }

  /** A string without blanks is its own trim. */
  lemma TrimBlankFree(s: string)
    requires ' ' !in s && '\t' !in s
    ensures Trim(s) == s
  {
    assert TrimStart(s) == s;
  }

  /** Trimming again changes nothing. */
  lemma TrimIdempotent(s: string)
    ensures Trim(Trim(s)) == Trim(s)
  {
    var t := Trim(s);
    assert TrimStart(t) == t;
  }

  // ---------------------------------------------------------------------------
  // lowercased(), ASCII letters only

  function LowerChar(c: char): char {
    if 'A' <= c <= 'Z' then (c as int + 32) as char else c
  }

  /** `s.lowercased()`. */
  function Lower(s: string): (r: string)
    ensures |r| == |s| && forall k :: 0 <= k < |s| ==> r[k] == LowerChar(s[k])
    decreases |s|
  {
    if s == [] then [] else [LowerChar(s[0])] + Lower(s[1..])
  }

  /** Lowercasing twice is lowercasing once. */
  lemma LowerIdempotent(s: string)
    ensures Lower(Lower(s)) == Lower(s)
  {
  }

  // ---------------------------------------------------------------------------
  // URL scheme, section 3.1 of RFC 3986: ALPHA *( ALPHA / DIGIT / "+" / "-" / "." ) ":"

  predicate IsAlpha(c: char) {
    'a' <= c <= 'z' || 'A' <= c <= 'Z'
  }

  predicate IsSchemeChar(c: char) {
    IsAlpha(c) || '0' <= c <= '9' || c == '+' || c == '-' || c == '.'
  }

  /** `s` begins with a scheme name followed by `:`. */
  predicate HasScheme(s: string) {
    s != [] && IsAlpha(s[0]) && SchemeTail(s[1..])
  }

  predicate SchemeTail(s: string)
    decreases |s|
  {
    s != [] && (s[0] == ':' || (IsSchemeChar(s[0]) && SchemeTail(s[1..])))
  }

  lemma {:induction false} SchemeTailColon(s: string)
    requires SchemeTail(s)
    ensures ':' in s
    decreases |s|
  {
    if s[0] != ':' {
      SchemeTailColon(s[1..]);
    }
  }

  /** Only a string with a colon has a scheme. */
  lemma HasSchemeColon(s: string)
    requires HasScheme(s)
    ensures ':' in s
  {
    SchemeTailColon(s[1..]);
  }

  /** A scheme is made of scheme characters up to its colon, so a string whose
      first `@` comes before any colon has none. */
  lemma {:induction false} SchemeTailStopsAtAt(s: string)
    requires SchemeTail(s)
    ensures exists i :: 0 <= i < |s| && s[i] == ':' && '@' !in s[..i]
    decreases |s|
  {
    if s[0] == ':' {
      assert s[..0] == [];
    } else {
      SchemeTailStopsAtAt(s[1..]);
      var i :| 0 <= i < |s[1..]| && s[1..][i] == ':' && '@' !in s[1..][..i];
      assert s[..i + 1] == [s[0]] + s[1..][..i];
    }
  }

  /** Every `https://` URL has a scheme. */
  lemma HttpsHasScheme(rest: string)
    ensures HasScheme("https://" + rest)
  {
    var s := "https://" + rest;
    assert s[1..][1..][1..][1..][1..][0] == ':';
    assert SchemeTail(s[1..][1..][1..][1..][1..]);
    assert SchemeTail(s[1..][1..][1..][1..]);
    assert SchemeTail(s[1..][1..][1..]);
    assert SchemeTail(s[1..][1..]);
    assert SchemeTail(s[1..]);
  }

  // ---------------------------------------------------------------------------
  // Decimal rendering of an unsigned integer, as string interpolation prints it

  predicate IsDigit(c: char) {
    '0' <= c <= '9'
  }

  function DigitChar(d: nat): char
    requires d < 10
  {
    ('0' as int + d) as char
  }

  /** `"\(n)"` for an unsigned `n`: its decimal digits, most significant
      first, with no leading zero. */
  function Decimal(n: nat): (s: string)
    ensures s != [] && forall k :: 0 <= k < |s| ==> IsDigit(s[k])
    ensures s[0] == '0' ==> n == 0
    decreases n
  {
    if n < 10 then [DigitChar(n)] else Decimal(n / 10) + [DigitChar(n % 10)]
  }

  lemma DecimalHasNoDot(n: nat)
    ensures '.' !in Decimal(n)
  {
    var s := Decimal(n);
    forall k | 0 <= k < |s| ensures s[k] != '.' {
      assert IsDigit(s[k]);
    }
  }

  /** Reads a string of digits back as a number. */
  function DecimalValue(s: string): nat
    decreases |s|
  {
    if s == [] then 0
    else DecimalValue(s[..|s| - 1]) * 10 + (if IsDigit(s[|s| - 1]) then s[|s| - 1] as int - '0' as int else 0)
  }

  /** Rendering a number in decimal loses nothing. */
  lemma {:induction false} DecimalRoundTrip(n: nat)
    ensures DecimalValue(Decimal(n)) == n
    decreases n
  {
    if n >= 10 {
      var s := Decimal(n);
      assert s[..|s| - 1] == Decimal(n / 10);
      DecimalRoundTrip(n / 10);
    }
  }
}
