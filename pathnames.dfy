/**
 * The path normaliser of `mdxts/src/index.tsx`: `filePathToUrlPathname` as its chain of string
 * rewrites, `cleanFilename`, `isPascalCase`, and the title derived from a module key's file name.
 */
module Pathnames {
  import opened Wrappers
  import opened Strings
  import opened Environment

  /** Length of a leading `<digits>.` sort prefix (the regex `^\d+\.`), 0 when there is none. */
  function OrderPrefixLength(s: string): (n: nat)
    ensures n <= |s|
    ensures n > 0 ==> n >= 2 && s[n - 1] == '.' && forall i :: 0 <= i < n - 1 ==> IsDigit(s[i])
  {
    var d := DigitRun(s);
    if 0 < d < |s| && s[d] == '.' then d + 1 else 0
  }

  /** A `<digits>.` prefix that is present is matched in full. */
  lemma OrderPrefixMatched(s: string, k: nat)
    requires 0 < k < |s| && s[k] == '.'
    requires forall i :: 0 <= i < k ==> IsDigit(s[i])
    ensures OrderPrefixLength(s) == k + 1
  {
    assert !IsDigit(s[k]);
  }

  /** `s.replace(/^\d+\./, '')` */
  function StripOrderPrefix(s: string): string
  {
    s[OrderPrefixLength(s)..]
  }

  function StripEachOrderPrefix(parts: seq<string>): (r: seq<string>)
    ensures |r| == |parts|
    ensures forall i :: 0 <= i < |parts| ==> r[i] == StripOrderPrefix(parts[i])
  {
    if parts == [] then [] else [StripOrderPrefix(parts[0])] + StripEachOrderPrefix(parts[1..])
  }

  /** `s.replace(/^\.\//, '')` */
  function StripDotSlash(s: string): string
  {
    if |s| >= 2 && s[0] == '.' && s[1] == '/' then s[2..] else s
  }

  /** `s.replace(/\/\d+\./g, '/')`: a global regex scan from the left. A match is a `/`, a
      non-empty run of digits and a dot; it is replaced by `/` and the scan resumes after the dot. */
  function StripSortNumbers(s: string): string
    decreases |s|
  {
    if s == [] then []
    else if s[0] == '/' && OrderPrefixLength(s[1..]) > 0 then
      "/" + StripSortNumbers(s[1 + OrderPrefixLength(s[1..])..])
    else [s[0]] + StripSortNumbers(s[1..])
  }

  /** Removing `/<digits>.` everywhere is the same as removing a leading `<digits>.` from every
      segment after the first: the rewrite works segment by segment and never merges segments. */
  lemma {:induction false} StripSortNumbersBySegment(s: string)
    ensures var parts := Split(s, '/');
      StripSortNumbers(s) == Join([parts[0]] + StripEachOrderPrefix(parts[1..]), '/')
    decreases |s|
  {
    if s == [] {
    } else if s[0] == '/' {
      StripSortNumbersBySegment(StripOrderPrefix(s[1..]));
      AfterSeparator(s);
    } else {
      StripSortNumbersBySegment(s[1..]);
      var ps := Split(s[1..], '/');
      JoinConsChar(s[0], ps[0], StripEachOrderPrefix(ps[1..]));
    }
  }

  /** The inductive step of StripSortNumbersBySegment when `s` starts with a separator. */
  lemma {:induction false} AfterSeparator(s: string)
    requires s != [] && s[0] == '/'
    requires var u := StripOrderPrefix(s[1..]);
      var qs := Split(u, '/');
      StripSortNumbers(u) == Join([qs[0]] + StripEachOrderPrefix(qs[1..]), '/')
    ensures var parts := Split(s, '/');
      StripSortNumbers(s) == Join([parts[0]] + StripEachOrderPrefix(parts[1..]), '/')
  {
    var t := s[1..];
    var u := StripOrderPrefix(t);
    var parts, ps, qs := Split(s, '/'), Split(t, '/'), Split(u, '/');
    SortStepAtSeparator(s);
    SplitAtSeparator(s);
    StrippedFirstSegment(t);
    StripEachCons(ps, qs);
    SeparatorThenSegments(StripSortNumbers(s), StripSortNumbers(u), parts[0], StripEachOrderPrefix(ps));
  }

  lemma SeparatorThenSegments(whole: string, rest: string, first: string, segments: seq<string>)
    requires whole == "/" + rest && rest == Join(segments, '/')
    requires first == [] && |segments| >= 1
    ensures whole == Join([first] + segments, '/')
  {
    JoinCons(first, segments);
  }

  /** At a separator the rewrite emits `/` and resumes after the segment's sort prefix. */
  lemma SortStepAtSeparator(s: string)
    requires s != [] && s[0] == '/'
    ensures StripSortNumbers(s) == "/" + StripSortNumbers(StripOrderPrefix(s[1..]))
  {
  }

  lemma SplitAtSeparator(s: string)
    requires s != [] && s[0] == '/'
    ensures var parts := Split(s, '/');
      parts[0] == [] && parts[1..] == Split(s[1..], '/')
  {
    assert Split(s, '/') == [[]] + Split(s[1..], '/');
  }

  lemma StripEachCons(ps: seq<string>, qs: seq<string>)
    requires ps != [] && qs == [StripOrderPrefix(ps[0])] + ps[1..]
    ensures StripEachOrderPrefix(ps) == [qs[0]] + StripEachOrderPrefix(qs[1..])
  {
    assert qs[1..] == ps[1..];
  }

  /** Dropping the sort prefix of `t` splits like `t` with its first segment's prefix removed. */
  lemma {:induction false} StrippedFirstSegment(t: string)
    ensures var ps := Split(t, '/');
      Split(StripOrderPrefix(t), '/') == [StripOrderPrefix(ps[0])] + ps[1..]
  {
    var ps := Split(t, '/');
    var k := OrderPrefixLength(t);
    FirstPartIsPrefix(t, '/');
    PrefixKeepsOrderPrefix(t, ps[0]);
    if k > 0 {
      DropFromFirstPart(t, k, '/');
    } else {
      assert ps == [ps[0]] + ps[1..];
    }
  }

  lemma {:induction false} JoinCons(p: string, rest: seq<string>)
    requires |rest| >= 1
    ensures Join([p] + rest, '/') == p + "/" + Join(rest, '/')
  {
    assert ([p] + rest)[1..] == rest;
  }

  lemma {:induction false} JoinConsChar(c: char, p: string, rest: seq<string>)
    ensures Join([[c] + p] + rest, '/') == [c] + Join([p] + rest, '/')
  {
    if |rest| >= 1 {
      JoinCons([c] + p, rest);
      JoinCons(p, rest);
    }
  }

  /** The first part of a split is the text before the first separator. */
  lemma {:induction false} FirstPartIsPrefix(t: string, sep: char)
    ensures var p := Split(t, sep)[0];
      p == t[..|p|] && (|p| == |t| || t[|p|] == sep)
    decreases |t|
  {
    if t != [] && t[0] != sep {
      FirstPartIsPrefix(t[1..], sep);
    }
  }

  /** Dropping `k` characters of the first part of a split only shortens that part. */
  lemma {:induction false} DropFromFirstPart(t: string, k: nat, sep: char)
    requires k <= |Split(t, sep)[0]|
    ensures Split(t[k..], sep) == [Split(t, sep)[0][k..]] + Split(t, sep)[1..]
    decreases k
  {
    if k > 0 {
      FirstPartIsPrefix(t, sep);
      assert t[0] != sep;
      var q := Split(t[1..], sep);
      assert Split(t, sep) == [[t[0]] + q[0]] + q[1..];
      DropFromFirstPart(t[1..], k - 1, sep);
      assert t[1..][k - 1..] == t[k..];
      assert ([t[0]] + q[0])[k..] == q[0][k - 1..];
    }
  }

  lemma {:induction false} DigitRunOfPrefix(t: string, u: string)
    requires |u| <= |t| && u == t[..|u|]
    ensures DigitRun(u) == if DigitRun(t) < |u| then DigitRun(t) else |u|
    decreases |u|
  {
    if u != [] {
      assert u[1..] == t[1..][..|u| - 1];
      DigitRunOfPrefix(t[1..], u[1..]);
    }
  }

  /** The first segment of `t` carries the same sort prefix as `t` itself. */
  lemma {:induction false} PrefixKeepsOrderPrefix(t: string, u: string)
    requires |u| <= |t| && u == t[..|u|]
    requires |u| == |t| || t[|u|] == '/'
    ensures OrderPrefixLength(u) == OrderPrefixLength(t)
  {
    DigitRunOfPrefix(t, u);
    var d := DigitRun(t);
    if d < |u| {
      assert u[d] == t[d];
    } else if d < |t| {
      assert d == |u| && t[d] == '/';
    }
  }

  /** `c` may appear in a file extension: anything but `/` and `.`. */
  predicate IsExtensionChar(c: char)
  {
    c != '/' && c != '.'
  }

  /** What `[^/.]+` matches. */
  predicate IsExtension(e: string)
  {
    e != [] && forall i :: 0 <= i < |e| ==> IsExtensionChar(e[i])
  }

  /** Length of the run at the end of `s` of characters other than `/` and `.`. */
  function TrailingNameRun(s: string): (n: nat)
    ensures n <= |s|
    ensures forall i :: |s| - n <= i < |s| ==> IsExtensionChar(s[i])
    ensures n < |s| ==> !IsExtensionChar(s[|s| - n - 1])
  {
    if s != [] && IsExtensionChar(s[|s| - 1]) then 1 + TrailingNameRun(s[..|s| - 1]) else 0
  }

  /** `s.replace(/\.[^/.]+$/, '')` */
  function StripExtension(s: string): (r: string)
  {
    var n := TrailingNameRun(s);
    if 0 < n < |s| && s[|s| - n - 1] == '.' then s[..|s| - n - 1] else s
  }

  /** Only the final `.ext` goes: the result is a prefix of the input, and what it drops is a dot
      and a non-empty extension free of `/` and `.`. */
  lemma StripExtensionDropsExtension(s: string)
    ensures var r := StripExtension(s);
      && r == s[..|r|]
      && (r != s ==> s[|r|] == '.' && IsExtension(s[|r| + 1..]))
  {
    var n := TrailingNameRun(s);
    var r := StripExtension(s);
    if r != s {
      assert s[|r| + 1..] == s[|s| - n..];
    }
  }

  /** An extension is removed whenever there is one: when nothing is dropped, no dot of the input
      is followed by an extension that runs to the end. */
  lemma StripExtensionWhenPresent(s: string)
    ensures StripExtension(s) == s ==>
      forall i :: 0 <= i < |s| && s[i] == '.' ==> !IsExtension(s[i + 1..])
  {
    var n := TrailingNameRun(s);
    if StripExtension(s) == s {
      var m := |s| - n - 1;
      forall i | 0 <= i < |s| && s[i] == '.'
        ensures !IsExtension(s[i + 1..])
      {
        if i < m {
          assert s[i + 1..][m - (i + 1)] == s[m];
        } else {
          assert n == 0;
        }
      }
    }
  }

  /** `s.replace(/\/(readme|index)$/i, '')` */
  function StripDirectoryPage(s: string): (r: string)
    ensures |r| <= |s| && r == s[..|r|]
    ensures r != s <==> EndsWithIgnoreCase(s, "/readme") || EndsWithIgnoreCase(s, "/index")
    ensures EndsWithIgnoreCase(s, "/readme") ==> |r| == |s| - 7
    ensures !EndsWithIgnoreCase(s, "/readme") && EndsWithIgnoreCase(s, "/index") ==> |r| == |s| - 6
  {
    if EndsWithIgnoreCase(s, "/readme") then s[..|s| - 7]
    else if EndsWithIgnoreCase(s, "/index") then s[..|s| - 6]
    else s
  }

  /** A segment whose first character is an upper-case letter is kebab-cased; any other is kept. */
  function KebabIfCapitalised(segment: string, host: Host): string
  {
    if segment != [] && IsUpperAscii(segment[0]) then host.kebabCase(segment) else segment
  }

  function KebabEach(segments: seq<string>, host: Host): (r: seq<string>)
    ensures |r| == |segments|
    ensures forall i :: 0 <= i < |segments| ==> r[i] == KebabIfCapitalised(segments[i], host)
  {
    if segments == [] then [] else [KebabIfCapitalised(segments[0], host)] + KebabEach(segments[1..], host)
  }

  /** The string rewrites of `filePathToUrlPathname`, before the path is cut into segments. */
  function RewrittenPath(filePath: string, baseDirectory: string, host: Host): string
  {
    var noDotSlash := StripDotSlash(filePath);
    var noSortNumbers := StripSortNumbers(noDotSlash);
    var noWorkingDirectory := ReplaceFirst(noSortNumbers,
      if baseDirectory != [] then host.resolve(host.cwd, baseDirectory) + "/" else host.cwd, []);
    var noBaseDirectory := ReplaceFirst(noWorkingDirectory,
      if baseDirectory != [] then baseDirectory + "/" else [], []);
    var noExtension := StripExtension(noBaseDirectory);
    StripDirectoryPage(noExtension)
  }

  /** The last step of `filePathToUrlPathname`: cut at `/`, kebab-case the capitalised segments,
      drop the empty ones and join the rest with `/`. */
  function JoinedSegments(path: string, host: Host): string
  {
    Join(NonEmpty(KebabEach(Split(path, '/'), host)), '/')
  }

  /** `filePathToUrlPathname(filePath, baseDirectory)` */
  function FilePathToUrlPathname(filePath: string, baseDirectory: string, host: Host): string
  {
    JoinedSegments(RewrittenPath(filePath, baseDirectory, host), host)
  }

  /** kebabCase never produces a `/` from a segment without one (case-anything only emits the
      letters and digits of its input, lower-cased, and hyphens). */
  ghost predicate KebabKeepsSegments(host: Host)
  {
    forall s: string {:trigger host.kebabCase(s)} :: '/' !in s ==> '/' !in host.kebabCase(s)
  }

  /** The segments kept by `filePathToUrlPathname` are non-empty and free of `/`. */
  lemma {:induction false} KeptSegmentsAreClean(parts: seq<string>, host: Host)
    requires KebabKeepsSegments(host)
    requires forall i :: 0 <= i < |parts| ==> '/' !in parts[i]
    ensures var kept := NonEmpty(KebabEach(parts, host));
      forall i :: 0 <= i < |kept| ==> kept[i] != [] && '/' !in kept[i]
  {
    var segments := KebabEach(parts, host);
    assert forall j :: 0 <= j < |segments| ==> '/' !in segments[j];
    var kept := NonEmpty(segments);
    forall i | 0 <= i < |kept| ensures '/' !in kept[i] {
      var j :| 0 <= j < |segments| && segments[j] == kept[i];
    }
  }

  /** Joining the kept segments never leaves an empty segment, and splitting the result gives them
      back. */
  lemma {:induction false} JoinedSegmentsSpec(path: string, host: Host)
    requires KebabKeepsSegments(host)
    ensures HasNoEmptySegment(JoinedSegments(path, host), '/')
    ensures var kept := NonEmpty(KebabEach(Split(path, '/'), host));
      JoinedSegments(path, host) != [] ==> Split(JoinedSegments(path, host), '/') == kept
  {
    var kept := NonEmpty(KebabEach(Split(path, '/'), host));
    KeptSegmentsAreClean(Split(path, '/'), host);
    JoinHasNoEmptySegment(kept, '/');
    if kept != [] {
      SplitJoin(kept, '/');
    }
  }

  /** A normalised pathname never has an empty segment: no leading `/`, no trailing `/`, no `//`. */
  lemma {:induction false} PathnameHasNoEmptySegment(filePath: string, baseDirectory: string, host: Host)
    requires KebabKeepsSegments(host)
    ensures HasNoEmptySegment(FilePathToUrlPathname(filePath, baseDirectory, host), '/')
  {
    JoinedSegmentsSpec(RewrittenPath(filePath, baseDirectory, host), host);
  }

  /** The segments of a non-empty pathname are exactly the non-empty segments of the rewritten path,
      in order, each kebab-cased if and only if it starts with an upper-case letter. */
  lemma {:induction false} PathnameSegments(filePath: string, baseDirectory: string, host: Host)
    requires KebabKeepsSegments(host)
    ensures var r := FilePathToUrlPathname(filePath, baseDirectory, host);
      r != [] ==> Split(r, '/') == NonEmpty(KebabEach(Split(RewrittenPath(filePath, baseDirectory, host), '/'), host))
  {
    JoinedSegmentsSpec(RewrittenPath(filePath, baseDirectory, host), host);
  }

  /** `cleanFilename(filename)`: a leading `<digits>.` and the last extension are removed. */
  function CleanFilename(filename: string): string
  {
    StripExtension(StripOrderPrefix(filename))
  }

  /** `cleanFilename` removes nothing but a leading `<digits>.` and a final `.ext`: the name is the
      sort prefix, then the result, then a removed extension (a dot and a non-empty run free of `/`
      and `.`), and each of the two removed parts may be empty. */
  lemma CleanFilenameParts(filename: string)
    ensures var k := OrderPrefixLength(filename);
      var r := CleanFilename(filename);
      && k + |r| <= |filename|
      && filename == filename[..k] + r + filename[k + |r|..]
      && (k > 0 ==> filename[k - 1] == '.' && forall i :: 0 <= i < k - 1 ==> IsDigit(filename[i]))
      && (k + |r| < |filename| ==> filename[k + |r|] == '.' && IsExtension(filename[k + |r| + 1..]))
  {
    var k := OrderPrefixLength(filename);
    var rest := filename[k..];
    assert CleanFilename(filename) == StripExtension(rest);
    StripExtensionDropsExtension(rest);
    PrefixThenKept(filename, k, rest, StripExtension(rest));
  }

  /** Cutting `filename` after a prefix of length `k` and keeping a prefix `r` of the rest. */
  lemma PrefixThenKept(filename: string, k: nat, rest: string, r: string)
    requires k <= |filename| && rest == filename[k..] && |r| <= |rest| && r == rest[..|r|]
    requires r != rest ==> rest[|r|] == '.' && IsExtension(rest[|r| + 1..])
    ensures k + |r| <= |filename|
    ensures filename == filename[..k] + r + filename[k + |r|..]
    ensures k + |r| < |filename| ==> filename[k + |r|] == '.' && IsExtension(filename[k + |r| + 1..])
  {
    assert rest == r + rest[|r|..];
    assert filename == filename[..k] + rest;
    if k + |r| < |filename| {
      assert filename[k + |r|] == rest[|r|];
      assert filename[k + |r| + 1..] == rest[|r| + 1..];
    }
  }

  /** `isPascalCase(str)`: `/^[A-Z][a-zA-Z0-9]*$/` */
  predicate IsPascalCase(s: string)
  {
    s != [] && IsUpperAscii(s[0]) && forall i :: 1 <= i < |s| ==> IsAsciiAlphanumeric(s[i])
  }

  /** `/(readme|index)$/i.test(s)`: the name ends in `readme` or `index`, whatever the case. */
  predicate EndsInReadmeOrIndex(s: string)
  {
    EndsWithIgnoreCase(s, "readme") || EndsWithIgnoreCase(s, "index")
  }

  /** `split('/').slice(-2, -1).pop()`: the segment before the last, absent for a single segment. */
  function ParentSegment(moduleKey: string): Option<string>
  {
    var segments := Split(moduleKey, '/');
    if |segments| >= 2 then Some(segments[|segments| - 2]) else None
  }

  /** The title taken from a module key's file name (`filenameTitle`). */
  function FilenameTitle(moduleKey: string, host: Host): string
  {
    var filename := CleanFilename(LastPart(moduleKey, '/'));
    if EndsInReadmeOrIndex(filename) then host.parseTitle(ParentSegment(moduleKey).GetOr([]))
    else if IsPascalCase(filename) then filename
    else host.parseTitle(filename)
  }
}
