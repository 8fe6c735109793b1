/** The two string matchers: route path patterns and SNI host patterns. */
module Matching {
  import opened Wrappers
  import opened Bytes
  import opened Sni
  import opened Splitting
  import Ascii

  function StripSuffix<T(==)>(s: seq<T>, suffix: seq<T>): Option<seq<T>> {
    if |suffix| <= |s| && s[|s| - |suffix|..] == suffix then Some(s[..|s| - |suffix|]) else None
  }

  // ---- Route paths ----

  predicate MatchPath(pattern: string, path: string) {
    if pattern == path then true
    else
      match StripSuffix(pattern, "/*")
      case Some(prefix) => path == prefix || prefix + "/" <= path
      case None =>
        var patternParts, pathParts := Split(pattern, '/'), Split(path, '/');
        && |patternParts| == |pathParts|
        && forall i | 0 <= i < |patternParts| :: patternParts[i] == "*" || patternParts[i] == pathParts[i]
  }

  /** What a pattern means for the segments of a path: without a last segment that is a star, one segment each,
      a star for any; with it, the segments before it are literal and stand at the front. */
  predicate SegmentsMatch(pattern: string, path: string) {
    var p, s := Split(pattern, '/'), Split(path, '/');
    if |p| > 1 && p[|p| - 1] == "*" then p[..|p| - 1] <= s
    else |p| == |s| && forall i | 0 <= i < |p| :: p[i] == "*" || p[i] == s[i]
  }

  lemma EndsInStar(pattern: string, init: seq<string>)
    requires init != [] && Split(pattern, '/') == init + ["*"]
    ensures StripSuffix(pattern, "/*").Some?
  {
    JoinSplit(pattern, '/');
    JoinConcat(init, ["*"], '/');
    assert pattern == Join(init, '/') + "/*";
  }

  /** A pattern ends in a slash and a star iff its last segment, not its only one, is a star. */
  lemma TrailingStar(pattern: string)
    ensures var p := Split(pattern, '/');
            match StripSuffix(pattern, "/*")
            case Some(prefix) => |p| > 1 && p == Split(prefix, '/') + ["*"]
            case None => |p| == 1 || p[|p| - 1] != "*"
  {
    var p := Split(pattern, '/');
    match StripSuffix(pattern, "/*") {
      case Some(prefix) =>
        assert pattern == prefix + ['/'] + "*";
        SplitConcat(prefix, "*", '/');
        SplitWhole("*", '/');
      case None =>
        if |p| > 1 && p[|p| - 1] == "*" {
          EndsInStar(pattern, p[..|p| - 1]);
        }
    }
  }

  lemma BelowPrefix(prefix: string, rest: string)
    ensures Split(prefix, '/') <= Split(prefix + ['/'] + rest, '/')
  {
    SplitConcat(prefix, rest, '/');
  }

  lemma SegmentsInFront(a: seq<string>, b: seq<string>)
    requires a != [] && b != []
    ensures Join(a, '/') + "/" <= Join(a + b, '/')
  {
    JoinConcat(a, b, '/');
  }

  lemma FrontSegments(prefix: string, path: string)
    requires path == prefix || prefix + "/" <= path
    ensures Split(prefix, '/') <= Split(path, '/')
  {
    if path != prefix {
      var rest := path[|prefix| + 1..];
      assert path == prefix + ['/'] + rest;
      BelowPrefix(prefix, rest);
    }
  }

  lemma SegmentsFront(prefix: string, path: string)
    requires Split(prefix, '/') <= Split(path, '/')
    ensures path == prefix || prefix + "/" <= path
  {
    var a, s := Split(prefix, '/'), Split(path, '/');
    JoinSplit(prefix, '/');
    JoinSplit(path, '/');
    if a != s {
      var b := s[|a|..];
      assert s == a + b && b != [];
      SegmentsInFront(a, b);
    }
  }

  lemma PrefixBySegments(prefix: string, path: string)
    ensures (path == prefix || prefix + "/" <= path) <==> Split(prefix, '/') <= Split(path, '/')
  {
    if path == prefix || prefix + "/" <= path {
      FrontSegments(prefix, path);
    }
    if Split(prefix, '/') <= Split(path, '/') {
      SegmentsFront(prefix, path);
    }
  }

  /** The matcher decides exactly the segment-level meaning; in particular its equality shortcut is redundant. */
  lemma MatchPathIsSegmental(pattern: string, path: string)
    ensures MatchPath(pattern, path) <==> SegmentsMatch(pattern, path)
  {
    TrailingStar(pattern);
    match StripSuffix(pattern, "/*")
    case Some(prefix) =>
      var p := Split(pattern, '/');
      assert p[..|p| - 1] == Split(prefix, '/');
      PrefixBySegments(prefix, path);
      assert pattern == prefix + "/*" == (prefix + "/") + "*";
    case None =>
  }

  // ---- SNI host patterns ----

  const DOT: Byte := 0x2E
  const STAR_DOT: Str := [0x2A, 0x2E]

  datatype SniPattern = Exact(host: Str) | Wildcard(base: Str) {
    static function Parse(s: Str): SniPattern {
      var low := LowerAll(s);
      if STAR_DOT <= low then Wildcard(low[2..]) else Exact(low)
    }

    predicate Matches(host: Str) {
      var low := LowerAll(host);
      match this
      case Exact(e) => e == low
      case Wildcard(base) =>
        match StripSuffix(low, base)
        case None => false
        case Some(prefix) =>
          && prefix != [] && prefix[|prefix| - 1] == DOT
          && |prefix| > 1
          && DOT !in prefix[..|prefix| - 1]
    }
  }

  function Labels(s: Str): seq<Str> { Split(s, DOT) }

  /** A wildcard matches exactly the hosts whose labels are one non-empty label followed by the base's. */
  lemma WildcardIsOneLabel(base: Str, host: Str)
    ensures Wildcard(base).Matches(host) <==>
      exists first :: first != [] && Labels(LowerAll(host)) == [first] + Labels(base)
  {
    var low := LowerAll(host);
    if Wildcard(base).Matches(host) {
      var prefix := StripSuffix(low, base).value;
      var first := prefix[..|prefix| - 1];
      assert low == first + [DOT] + base;
      SplitConcat(first, base, DOT);
      SplitWhole(first, DOT);
    }
    if first :| first != [] && Labels(low) == [first] + Labels(base) {
      JoinSplit(low, DOT);
      JoinSplit(base, DOT);
      JoinConcat([first], Labels(base), DOT);
      SplitParts(low, DOT);
      assert first in Labels(low);
      assert low == first + [DOT] + base;
      assert StripSuffix(low, base) == Some(first + [DOT]);
      assert (first + [DOT])[..|first|] == first;
    }
  }

  // ---- The letter case, with the letters written out ----

  lemma SameLetterIffLower(a: Byte, b: Byte)
    ensures Ascii.SameLetter(a, b) <==> Lower(a) == Lower(b)
  {
    Ascii.SameLetterIff(a, b);
  }

  lemma SameButCaseIff(a: Str, b: Str)
    ensures Ascii.SameButCase(a, b) <==> LowerAll(a) == LowerAll(b)
  {
    assert |LowerAll(a)| == |a| && |LowerAll(b)| == |b|;
    if |a| == |b| {
      assert forall i | 0 <= i < |a| :: LowerAll(a)[i] == Lower(a[i]) && LowerAll(b)[i] == Lower(b[i]);
      forall i | 0 <= i < |a| ensures Ascii.SameLetter(a[i], b[i]) <==> Lower(a[i]) == Lower(b[i]) {
        SameLetterIffLower(a[i], b[i]);
      }
    }
  }

  /** Neither the case of a pattern's letters nor that of the host's matters. */
  lemma CaseDoesNotMatter(pattern: Str, pattern': Str, host: Str, host': Str)
    requires Ascii.SameButCase(pattern, pattern') && Ascii.SameButCase(host, host')
    ensures SniPattern.Parse(pattern).Matches(host) <==> SniPattern.Parse(pattern').Matches(host')
  {
    SameButCaseIff(pattern, pattern');
    SameButCaseIff(host, host');
  }

  /** A pattern that does not start with a star and a dot matches exactly the hosts equal to it but for case. */
  lemma ExactMatchesIff(pattern: Str, host: Str)
    requires !(|pattern| > 1 && pattern[0] == '*' as int && pattern[1] == '.' as int)
    ensures SniPattern.Parse(pattern).Matches(host) <==> Ascii.SameButCase(pattern, host)
  {
    SameButCaseIff(pattern, host);
    var low := LowerAll(pattern);
    assert |pattern| > 1 ==> low[0] == Lower(pattern[0]) && low[1] == Lower(pattern[1]);
  }

  lemma LowerParts(s: Str, k: nat)
    requires k < |s|
    ensures LowerAll(s)[..k] == LowerAll(s[..k]) && LowerAll(s)[k + 1..] == LowerAll(s[k + 1..])
    ensures LowerAll(s)[k] == DOT <==> s[k] == 0x2E
    ensures DOT in LowerAll(s[..k]) <==> 0x2E in s[..k]
  {
    var head := s[..k];
    if i :| 0 <= i < k && LowerAll(head)[i] == DOT {
      assert head[i] == 0x2E;
    }
    if i :| 0 <= i < k && head[i] == 0x2E {
      assert LowerAll(head)[i] == DOT;
    }
  }

  lemma WildcardAt(base: Str, low: Str)
    ensures (exists k :: 0 < k < |low| && low[k] == DOT && DOT !in low[..k] && low[k + 1..] == base)
            <==> match StripSuffix(low, base)
                 case None => false
                 case Some(prefix) =>
                   && prefix != [] && prefix[|prefix| - 1] == DOT
                   && |prefix| > 1
                   && DOT !in prefix[..|prefix| - 1]
  {
    if k :| 0 < k < |low| && low[k] == DOT && DOT !in low[..k] && low[k + 1..] == base {
      assert StripSuffix(low, base) == Some(low[..k + 1]);
      assert low[..k + 1][..k] == low[..k];
    }
    match StripSuffix(low, base)
    case None =>
    case Some(prefix) =>
      if |prefix| > 1 && prefix[|prefix| - 1] == DOT && DOT !in prefix[..|prefix| - 1] {
        var k := |prefix| - 1;
        assert prefix[..k] == low[..k] && low[k + 1..] == base;
      }
  }

  lemma StarDotParses(rest: Str)
    ensures SniPattern.Parse([0x2A, 0x2E] + rest) == Wildcard(LowerAll(rest))
  {
    var low := LowerAll([0x2A, 0x2E] + rest);
    assert low == STAR_DOT + LowerAll(rest);
    assert low[2..] == LowerAll(rest);
  }

  /** A star, a dot and `rest` match exactly the hosts that are a non-empty label without a dot, a dot, and `rest`
      in any case. */
  lemma WildcardMatchesIff(rest: Str, host: Str)
    ensures SniPattern.Parse([0x2A, 0x2E] + rest).Matches(host) <==>
              exists k :: 0 < k < |host| && host[k] == '.' as int && 0x2E !in host[..k]
                       && Ascii.SameButCase(rest, host[k + 1..])
  {
    StarDotParses(rest);
    var base, low := LowerAll(rest), LowerAll(host);
    WildcardAt(base, low);
    forall k | 0 < k < |host|
      ensures (low[k] == DOT && DOT !in low[..k] && low[k + 1..] == base) <==>
              (host[k] == 0x2E && 0x2E !in host[..k] && Ascii.SameButCase(rest, host[k + 1..]))
    {
      LowerParts(host, k);
      SameButCaseIff(rest, host[k + 1..]);
    }
  }

  /** `*.rest` covers `first.rest` for every non-empty dot-free label `first`, in any case, and never `rest` itself. */
  lemma WildcardCovers(rest: Str, rest': Str, first: Str)
    requires 0x2E !in first && first != [] && Ascii.SameButCase(rest, rest')
    ensures SniPattern.Parse([0x2A, 0x2E] + rest).Matches(first + [0x2E] + rest')
    ensures !SniPattern.Parse([0x2A, 0x2E] + rest).Matches(rest')
  {
    var host := first + [0x2E] + rest';
    assert host[..|first|] == first && host[|first|] == 0x2E && host[|first| + 1..] == rest';
    WildcardMatchesIff(rest, host);
    WildcardMatchesIff(rest, rest');
  }
}
