/** Case-insensitive names with `*` wildcards. */
module Glob {
  import opened Bytes

  function LowerAll(s: string): (r: string)
    ensures |r| == |s|
  {
    seq(|s|, i requires 0 <= i < |s| => Lower(s[i]))
  }

  /** Two characters count as the same exactly when they are, or are one letter of the alphabet in its
      two cases. */
  lemma SameLetter(c: char, d: char)
    ensures Lower(c) == Lower(d) <==>
      || c == d
      || ('A' <= c <= 'Z' && d as int == c as int + 32)
      || ('A' <= d <= 'Z' && c as int == d as int + 32)
  {
  }

  /** What a pattern means: `*` stands for any run of characters, everything else for itself in
      either case. */
  predicate Matches(p: string, n: string)
    decreases |p| + |n|
  {
    if p == [] then n == []
    else if p[0] == '*' then Matches(p[1..], n) || (n != [] && Matches(p, n[1..]))
    else n != [] && Lower(p[0]) == Lower(n[0]) && Matches(p[1..], n[1..])
  }

  /** A star stands for any run of characters, and any other character for itself. */
  lemma {:induction false} StarMeans(p: string, n: string)
    ensures Matches("*" + p, n) <==> exists k :: 0 <= k <= |n| && Matches(p, n[k..])
    decreases |n|
  {
    var star := "*" + p;
    assert star[1..] == p;
    if n == [] {
      assert n[0..] == n;
    } else {
      StarMeans(p, n[1..]);
      forall k | 0 <= k < |n| ensures n[1..][k..] == n[k + 1..] {
      }
      if Matches(star, n[1..]) {
        var k :| 0 <= k <= |n| - 1 && Matches(p, n[1..][k..]);
        assert Matches(p, n[k + 1..]);
      }
      if k :| 0 <= k <= |n| && Matches(p, n[k..]) {
        assert n[0..] == n;
        assert k > 0 ==> Matches(p, n[1..][k - 1..]);
      }
      assert n[0..] == n;
    }
  }

  lemma LetterMeans(c: char, p: string, n: string)
    requires c != '*'
    ensures Matches([c] + p, n) <==> n != [] && Lower(c) == Lower(n[0]) && Matches(p, n[1..])
    ensures Matches([], n) <==> n == []
  {
    assert ([c] + p)[1..] == p;
  }

  /** `str::split('*')`. */
  function Split(p: string): (parts: seq<string>)
    ensures |parts| >= 1
  {
    if p == [] then [""]
    else
      var rest := Split(p[1..]);
      if p[0] == '*' then [""] + rest else [[p[0]] + rest[0]] + rest[1..]
  }

  predicate StartsWith(s: string, t: string) {
    |t| <= |s| && s[..|t|] == t
  }

  predicate EndsWith(s: string, t: string) {
    |t| <= |s| && s[|s| - |t|..] == t
  }

  // ---------------------------------------------------------------------
  // Patterns as their literal parts
  // ---------------------------------------------------------------------

  /** The parts lie in `n` one after the other: the first at the front, the last at the end, and
      anything in between. */
  ghost predicate Fit(parts: seq<string>, n: string)
    requires parts != []
    decreases |parts|, 0
  {
    if |parts| == 1 then n == parts[0]
    else StartsWith(n, parts[0]) && Later(parts[1..], n[|parts[0]|..])
  }

  /** The parts fit from some place on. */
  ghost predicate Later(parts: seq<string>, s: string)
    requires parts != []
    decreases |parts|, 1
  {
    exists k :: 0 <= k <= |s| && Fit(parts, s[k..])
  }

  lemma LaterAt(parts: seq<string>, s: string, k: nat)
    requires parts != [] && k <= |s| && Later(parts, s[k..])
    ensures Later(parts, s)
  {
    hide Fit;
    var j :| 0 <= j <= |s[k..]| && Fit(parts, s[k..][j..]);
    assert s[k..][j..] == s[k + j..];
  }

  lemma LaterStep(parts: seq<string>, s: string)
    requires parts != []
    ensures Later(parts, s) <==> Fit(parts, s) || (s != [] && Later(parts, s[1..]))
  {
    hide Fit;
    assert s[0..] == s;
    if Later(parts, s) {
      var k :| 0 <= k <= |s| && Fit(parts, s[k..]);
      if k > 0 {
        assert s[1..][k - 1..] == s[k..];
      }
    }
    if s != [] && Later(parts, s[1..]) {
      LaterAt(parts, s, 1);
    }
  }

  /** The simple recursive matcher looks for exactly such a layout of the parts. */
  lemma {:induction false} MatchesIsFit(p: string, n: string)
    ensures Matches(p, n) <==> Fit(Split(LowerAll(p)), LowerAll(n))
    decreases |p| + |n|
  {
    if p != [] {
      var q := LowerAll(p);
      assert q[1..] == LowerAll(p[1..]);
      var rest := Split(q[1..]);
      if n != [] {
        assert LowerAll(n)[1..] == LowerAll(n[1..]);
      }
      if p[0] == '*' {
        StarIsLater(p, n);
      } else if n != [] {
        MatchesIsFit(p[1..], n[1..]);
        FitCons(q[0], rest, LowerAll(n));
      }
    }
  }

  lemma {:induction false} StarIsLater(p: string, n: string)
    requires p != [] && p[0] == '*'
    ensures Matches(p, n) <==> Fit(Split(LowerAll(p)), LowerAll(n))
    decreases |p| + |n|, 0
  {
    hide Fit, Later;
    var q, m := LowerAll(p), LowerAll(n);
    var rest := Split(q[1..]);
    assert q[1..] == LowerAll(p[1..]);
    assert Split(q) == [""] + rest;
    FitStar(rest, m);
    MatchesIsFit(p[1..], n);
    LaterStep(rest, m);
    if n != [] {
      StarIsLater(p, n[1..]);
      assert m[1..] == LowerAll(n[1..]);
      FitStar(rest, m[1..]);
    }
  }

  lemma FitStar(rest: seq<string>, s: string)
    requires rest != []
    ensures Fit([""] + rest, s) <==> Later(rest, s)
  {
    assert ([""] + rest)[1..] == rest;
    assert s[0..] == s;
  }

  lemma FitCons(c: char, rest: seq<string>, s: string)
    requires rest != [] && s != []
    ensures Fit([[c] + rest[0]] + rest[1..], s) <==> s[0] == c && Fit(rest, s[1..])
  {
    var parts := [[c] + rest[0]] + rest[1..];
    assert parts[1..] == rest[1..];
    var first := rest[0];
    assert s == [s[0]] + s[1..];
    if |first| < |s| {
      assert s[..|first| + 1] == [s[0]] + s[1..][..|first|];
      assert s[|first| + 1..] == s[1..][|first|..];
    }
    assert ([c] + first)[0] == c && ([c] + first)[1..] == first;
  }

  // ---------------------------------------------------------------------
  // Greedy search
  // ---------------------------------------------------------------------

  lemma LaterLast(last: string, s: string)
    ensures Later([last], s) <==> EndsWith(s, last)
  {
    if EndsWith(s, last) {
      assert Fit([last], s[|s| - |last|..]);
    }
    if Later([last], s) {
      var k :| 0 <= k <= |s| && Fit([last], s[k..]);
      assert k == |s| - |last|;
    }
  }

  /** Whatever fits later in `s` ends with the last part. */
  lemma {:induction false} LaterEnds(parts: seq<string>, s: string)
    requires parts != [] && Later(parts, s)
    ensures |parts[|parts| - 1]| <= |s|
    decreases |parts|
  {
    if |parts| > 1 {
      var k :| 0 <= k <= |s| && Fit(parts, s[k..]);
      LaterEnds(parts[1..], s[k..][|parts[0]|..]);
    }
  }

  /** `off` is the first place where `seg` occurs in `s`. */
  predicate FirstAt(s: string, seg: string, off: nat) {
    off <= |s| && StartsWith(s[off..], seg) && forall j :: 0 <= j < off ==> !StartsWith(s[j..], seg)
  }

  predicate Nowhere(s: string, seg: string) {
    forall j :: 0 <= j <= |s| ==> !StartsWith(s[j..], seg)
  }

  /** Taking the first occurrence of a middle part never loses a match. */
  lemma FirstIsEnough(seg: string, parts: seq<string>, s: string, off: nat)
    requires parts != [] && FirstAt(s, seg, off)
    ensures Later([seg] + parts, s) <==> Later(parts, s[off + |seg|..])
  {
    hide Later;
    var all := [seg] + parts;
    assert all[1..] == parts;
    assert s[off..][|seg|..] == s[off + |seg|..];
    if Later(parts, s[off + |seg|..]) {
      assert Fit(all, s[off..]);
      LaterIntro(all, s, off);
    }
    if Later(all, s) {
      var k := LaterWitness(all, s);
      assert k >= off;
      assert s[k..][|seg|..] == s[off + |seg|..][k - off..];
      LaterAt(parts, s[off + |seg|..], k - off);
    }
  }

  lemma LaterIntro(parts: seq<string>, s: string, k: nat)
    requires parts != [] && k <= |s| && Fit(parts, s[k..])
    ensures Later(parts, s)
  {
  }

  lemma LaterWitness(parts: seq<string>, s: string) returns (k: nat)
    requires parts != [] && Later(parts, s)
    ensures k <= |s| && Fit(parts, s[k..])
  {
    k :| 0 <= k <= |s| && Fit(parts, s[k..]);
  }

  lemma StartInFront(s: string, end: nat, k: nat, seg: string)
    requires k + |seg| <= end <= |s| && StartsWith(s[k..], seg)
    ensures StartsWith(s[..end][k..], seg)
  {
    assert s[..end][k..][..|seg|] == s[k..][..|seg|];
  }

  /** A middle part that does not occur before the last part's place means there is no match. */
  lemma NowhereIsNoMatch(seg: string, parts: seq<string>, s: string, end: nat)
    requires parts != [] && end + |parts[|parts| - 1]| == |s| && Nowhere(s[..end], seg)
    ensures !Later([seg] + parts, s)
  {
    hide Later;
    var all := [seg] + parts;
    if Later(all, s) {
      var k := LaterWitness(all, s);
      assert all[1..] == parts;
      var rest := s[k..][|seg|..];
      LaterEnds(parts, rest);
      StartInFront(s, end, k, seg);
      assert false;
    }
  }

  lemma EmptyPart(parts: seq<string>, s: string)
    requires parts != []
    ensures Later([""] + parts, s) <==> Later(parts, s)
  {
    assert s[0..] == s;
    FirstIsEnough("", parts, s, 0);
  }

  /** `str::find`. */
  method Find(s: string, seg: string) returns (off: Option<nat>)
    ensures off.Some? ==> FirstAt(s, seg, off.value)
    ensures off.None? ==> Nowhere(s, seg)
  {
    for j := 0 to |s| + 1
      invariant forall i :: 0 <= i < j ==> !StartsWith(s[i..], seg)
    {
      if StartsWith(s[j..], seg) {
        return Some(j);
      }
    }
    return None;
  }

  /** `glob_match_ci` accepts exactly what the pattern means. That every slice is within bounds
      (`idx <= middleEnd`) is part of the method being well formed. */
  method GlobMatchCi(pattern: string, name: string) returns (matched: bool)
    ensures matched <==> Matches(pattern, name)
  {
    hide Fit, Later, Matches, EndsWith, FirstAt, Nowhere, LowerAll, Split;
    var pl, nl := LowerAll(pattern), LowerAll(name);
    var parts := Split(pl);
    MatchesIsFit(pattern, name);
    if |parts| == 1 {
      SplitOne(pl);
      FitOne(parts, nl);
      return pl == nl;
    }
    FitSplit(parts, nl);
    var idx: nat := 0;
    if parts[0] != "" {
      if !StartsWith(nl, parts[0]) {
        return false;
      }
      idx := |parts[0]|;
    }
    var last := parts[|parts| - 1];
    LaterNeedsLast(parts[1..], nl[idx..]);
    if last != "" && !EndsWith(nl[idx..], last) {
      return false;
    }
    EndsWithNothing(nl[idx..]);
    EndsWithin(nl[idx..], last);
    var middleEnd := if |nl| < |last| then 0 else |nl| - |last|;
    for i := 1 to |parts| - 1
      invariant idx <= middleEnd <= |nl| && middleEnd + |last| == |nl|
      invariant EndsWith(nl[idx..], last)
      invariant Matches(pattern, name) <==> Later(parts[i..], nl[idx..])
    {
      var seg := parts[i];
      assert parts[i..] == [seg] + parts[i + 1..];
      if seg == "" {
        EmptyPart(parts[i + 1..], nl[idx..]);
        continue;
      }
      var off := Find(nl[idx..middleEnd], seg);
      if off.None? {
        NotFound(nl, idx, middleEnd, seg, parts[i + 1..]);
        return false;
      }
      Found(nl, idx, middleEnd, seg, parts[i + 1..], off.value);
      idx := idx + off.value + |seg|;
    }
    assert parts[|parts| - 1..] == [last];
    LaterLast(last, nl[idx..]);
    return true;
  }

  lemma EndsWithNothing(s: string)
    ensures EndsWith(s, "")
  {
  }

  lemma EndsWithin(s: string, t: string)
    requires EndsWith(s, t)
    ensures |t| <= |s|
  {
  }

  lemma NotFound(n: string, idx: nat, end: nat, seg: string, parts: seq<string>)
    requires idx <= end <= |n| && parts != [] && end + |parts[|parts| - 1]| == |n| && Nowhere(n[idx..end], seg)
    ensures !Later([seg] + parts, n[idx..])
  {
    hide Later, Nowhere;
    assert n[idx..end] == n[idx..][..end - idx];
    NowhereIsNoMatch(seg, parts, n[idx..], end - idx);
  }

  lemma Found(n: string, idx: nat, end: nat, seg: string, parts: seq<string>, off: nat)
    requires idx <= end <= |n| && parts != [] && FirstAt(n[idx..end], seg, off)
    requires end + |parts[|parts| - 1]| == |n| && EndsWith(n[idx..], parts[|parts| - 1])
    ensures var next := idx + off + |seg|;
      && next <= end
      && EndsWith(n[next..], parts[|parts| - 1])
      && (Later([seg] + parts, n[idx..]) <==> Later(parts, n[next..]))
  {
    hide Later, FirstAt;
    var next, last := idx + off + |seg|, parts[|parts| - 1];
    assert n[idx..end] == n[idx..][..end - idx];
    FirstInFront(n[idx..], end - idx, seg, off);
    FirstIsEnough(seg, parts, n[idx..], off);
    assert n[idx..][off + |seg|..] == n[next..];
    assert n[idx..][|n| - idx - |last|..] == n[next..][|n| - next - |last|..];
  }

  lemma {:induction false} SplitOne(p: string)
    requires |Split(p)| == 1
    ensures Split(p)[0] == p
  {
    if p != [] {
      SplitOne(p[1..]);
    }
  }

  lemma FitOne(parts: seq<string>, n: string)
    requires |parts| == 1
    ensures Fit(parts, n) <==> n == parts[0]
  {
  }

  lemma FitSplit(parts: seq<string>, n: string)
    requires |parts| > 1
    ensures Fit(parts, n) <==> StartsWith(n, parts[0]) && Later(parts[1..], n[|parts[0]|..])
  {
  }

  lemma {:induction false} LaterNeedsLast(parts: seq<string>, s: string)
    requires parts != []
    ensures Later(parts, s) ==> EndsWith(s, parts[|parts| - 1])
    decreases |parts|
  {
    hide Fit;
    if Later(parts, s) {
      var k := LaterWitness(parts, s);
      if |parts| == 1 {
        FitOne(parts, s[k..]);
      } else {
        FitSplit(parts, s[k..]);
        LaterNeedsLast(parts[1..], s[k..][|parts[0]|..]);
      }
    }
  }

  /** The first occurrence before `end` is the first occurrence. */
  lemma FirstInFront(s: string, end: nat, seg: string, off: nat)
    requires end <= |s| && FirstAt(s[..end], seg, off)
    ensures FirstAt(s, seg, off) && off + |seg| <= end
  {
    assert s[..end][off..][..|seg|] == s[off..][..|seg|];
    forall j | 0 <= j < off ensures !StartsWith(s[j..], seg) {
      if StartsWith(s[j..], seg) {
        StartInFront(s, end, j, seg);
        assert false;
      }
    }
  }
}
