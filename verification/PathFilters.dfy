/** Include/exclude path patterns: `*`-style globs inside a segment, `**` across segments. */
module PathFilters {
  import opened Text
  import opened Tree
  import opened Changes

  /** `glob(pattern, segment)` is the shell-style match of one segment; a malformed pattern matches nothing. */
  datatype PathFilter = PathFilter(includes: seq<string>, excludes: seq<string>, glob: (string, string) -> bool)

  predicate Empty(f: PathFilter) {
    f.includes == [] && f.excludes == []
  }

  // ---------------------------------------------------------------- segments

  function SegmentsOfPart(part: string): seq<string>
    decreases |part|
  {
    if part == "" then []
    else
      var open := IndexOf(part, '[');
      if open == |part| then [part]
      else
        var lead := if open > 0 then [part[..open]] else [];
        var close := CloseOf(part);
        if close == |part| then lead + [part[open..]]
        else lead + [part[open + 1..close]] + SegmentsOfPart(part[close + 1..])
  }

  function SegmentsOfParts(parts: seq<string>): seq<string> {
    if parts == [] then [] else SegmentsOfPart(parts[0]) + SegmentsOfParts(parts[1..])
  }

  /** The segments of a path or pattern; a bracketed index is a segment of its own. */
  function SegmentsOf(path: string): seq<string> {
    SegmentsOfParts(Split(path, '.'))
  }

  method PathSegments(s: string) returns (segments: seq<string>)
    ensures segments == SegmentsOf(s)
  {
    segments := [];
    var parts := Split(s, '.');
    for i := 0 to |parts|
      invariant segments + SegmentsOfParts(parts[i..]) == SegmentsOf(s)
    {
      assert parts[i..][1..] == parts[i + 1..];
      Associate(segments, SegmentsOfPart(parts[i]), SegmentsOfParts(parts[i + 1..]));
      segments := PartSegments(segments, parts[i]);
    }
  }

  /** The inner loop of PathSegments. */
  method PartSegments(segments: seq<string>, whole: string) returns (r: seq<string>)
    ensures r == segments + SegmentsOfPart(whole)
  {
    r := segments;
    var part := whole;
    while part != ""
      invariant r + SegmentsOfPart(part) == segments + SegmentsOfPart(whole)
      decreases |part|
    {
      var open := IndexOf(part, '[');
      if open == |part| {
        return r + [part];
      }
      var lead := if open > 0 then [part[..open]] else [];
      var close := CloseOf(part);
      if close == |part| {
        Associate(r, lead, [part[open..]]);
        return r + lead + [part[open..]];
      }
      Associate(r, lead + [part[open + 1..close]], SegmentsOfPart(part[close + 1..]));
      r := r + (lead + [part[open + 1..close]]);
      part := part[close + 1..];
    }
  }

  lemma {:induction false} SegmentsOfPartsAppend(ps: seq<string>, qs: seq<string>)
    ensures SegmentsOfParts(ps + qs) == SegmentsOfParts(ps) + SegmentsOfParts(qs)
  {
    if ps == [] {
      assert ps + qs == qs;
    } else {
      assert (ps + qs)[1..] == ps[1..] + qs;
      SegmentsOfPartsAppend(ps[1..], qs);
      Associate(SegmentsOfPart(ps[0]), SegmentsOfParts(ps[1..]), SegmentsOfParts(qs));
    }
  }

  lemma OnePartSegments(part: string)
    ensures SegmentsOfParts([part]) == SegmentsOfPart(part)
  {
  }

  /** The segments up to the first closed bracket of a part. */
  function Lead(part: string): seq<string>
    requires IndexOf(part, '[') < CloseOf(part) <= |part|
  {
    (if IndexOf(part, '[') > 0 then [part[..IndexOf(part, '[')]] else []) + [part[IndexOf(part, '[') + 1..CloseOf(part)]]
  }

  lemma LeadKept(part: string, t: string)
    requires IndexOf(part, '[') < CloseOf(part) < |part|
    ensures SegmentsOfPart(part) == Lead(part) + SegmentsOfPart(part[CloseOf(part) + 1..])
    ensures SegmentsOfPart(part + t) == Lead(part) + SegmentsOfPart(part[CloseOf(part) + 1..] + t)
  {
    BracketsKept(part, t);
    SegmentsByLead(part, part, part[CloseOf(part) + 1..]);
    SegmentsByLead(part + t, part, part[CloseOf(part) + 1..] + t);
  }

  lemma SegmentsByLead(s: string, part: string, rest: string)
    requires IndexOf(part, '[') < CloseOf(part) < |part| && CloseOf(part) < |s|
    requires IndexOf(s, '[') == IndexOf(part, '[') && CloseOf(s) == CloseOf(part)
    requires s[..IndexOf(part, '[')] == part[..IndexOf(part, '[')]
    requires s[IndexOf(part, '[') + 1..CloseOf(part)] == part[IndexOf(part, '[') + 1..CloseOf(part)]
    requires s[CloseOf(part) + 1..] == rest
    ensures SegmentsOfPart(s) == Lead(part) + SegmentsOfPart(rest)
  {
    hide IndexOf, CloseOf, SegmentsOfPart;
    SegmentsUnfold(s);
  }

  lemma SegmentsUnfold(s: string)
    requires IndexOf(s, '[') < CloseOf(s) < |s|
    ensures SegmentsOfPart(s) == Lead(s) + SegmentsOfPart(s[CloseOf(s) + 1..])
  {
    hide IndexOf, CloseOf;
  }

  lemma PlainPartSegments(part: string, t: string)
    requires IndexOf(part, '[') == |part| && Bracketed(t)
    ensures SegmentsOfPart(part + t) == SegmentsOfPart(part) + [t[1..|t| - 1]]
  {
    BracketAdded(part, t);
    assert SegmentsOfPart(part + t) == (if part == "" then [] else [part]) + [t[1..|t| - 1]] + SegmentsOfPart("");
  }

  lemma {:induction false} PartSegmentsIndexed(part: string, t: string)
    requires Closed(part) && Bracketed(t)
    ensures SegmentsOfPart(part + t) == SegmentsOfPart(part) + [t[1..|t| - 1]]
    decreases |part|
  {
    if IndexOf(part, '[') == |part| {
      PlainPartSegments(part, t);
    } else {
      BracketCloses(part);
      LeadKept(part, t);
      var rest := part[CloseOf(part) + 1..];
      PartSegmentsIndexed(rest, t);
      Associate(Lead(part), SegmentsOfPart(rest), [t[1..|t| - 1]]);
    }
  }

  /** A path extended by a field name has exactly that one segment more. */
  lemma SegmentsJoin(path: string, name: string)
    requires CleanName(name)
    ensures SegmentsOf(Join(path, name)) == SegmentsOf(path) + [name]
  {
    IndexOfAbsent(name, '.');
    IndexOfAbsent(name, '[');
    OnePartSegments(name);
    if path == "" {
      assert SegmentsOf("") == [];
    } else {
      SplitAtSeparator(path, '.', name);
      SegmentsOfPartsAppend(Split(path, '.'), [name]);
    }
  }

  /** A path extended by an index has exactly that one segment more. */
  lemma SegmentsAt(path: string, i: nat)
    requires Extensible(path)
    ensures SegmentsOf(At(path, i)) == SegmentsOf(path) + [Itoa(i)]
  {
    var t := "[" + Itoa(i) + "]";
    IndexText(i);
    var parts := Split(path, '.');
    SplitExtendsLast(path, '.', t);
    assert parts == Front(parts) + [Last(parts)];
    SegmentsOfPartsAppend(Front(parts), [Last(parts)]);
    SegmentsOfPartsAppend(Front(parts), [Last(parts) + t]);
    OnePartSegments(Last(parts));
    OnePartSegments(Last(parts) + t);
    PartSegmentsIndexed(Last(parts), t);
    Associate(SegmentsOfParts(Front(parts)), SegmentsOfPart(Last(parts)), [Itoa(i)]);
  }

  // ---------------------------------------------------------------- matching

  predicate MatchSegments(pattern: seq<string>, segments: seq<string>, glob: (string, string) -> bool)
    decreases |pattern|
  {
    if pattern == [] then true
    else if pattern[0] == "**" then
      exists i :: 0 <= i <= |segments| && MatchSegments(pattern[1..], segments[i..], glob)
    else segments != [] && glob(pattern[0], segments[0]) && MatchSegments(pattern[1..], segments[1..], glob)
  }

  /** Whole-path matching: `**` stands for any run of segments, every other pattern segment for one. */
  ghost predicate Exact(pattern: seq<string>, segments: seq<string>, glob: (string, string) -> bool)
    decreases |pattern|
  {
    if pattern == [] then segments == []
    else if pattern[0] == "**" then
      exists i :: 0 <= i <= |segments| && Exact(pattern[1..], segments[i..], glob)
    else segments != [] && glob(pattern[0], segments[0]) && Exact(pattern[1..], segments[1..], glob)
  }

  /** A pattern selects a path exactly when it matches the whole of some prefix of it. */
  lemma {:induction false} SelectsIffPrefixMatches(pattern: seq<string>, segments: seq<string>, glob: (string, string) -> bool)
    ensures MatchSegments(pattern, segments, glob) <==>
            exists k :: 0 <= k <= |segments| && Exact(pattern, segments[..k], glob)
  {
    if MatchSegments(pattern, segments, glob) {
      var k := PrefixOfSelected(pattern, segments, glob);
    }
    forall k | 0 <= k <= |segments| && Exact(pattern, segments[..k], glob)
      ensures MatchSegments(pattern, segments, glob)
    {
      ExactIsSelected(pattern, segments, glob, k);
    }
  }

  lemma {:induction false} PrefixOfSelected(pattern: seq<string>, segments: seq<string>, glob: (string, string) -> bool)
    returns (k: nat)
    requires MatchSegments(pattern, segments, glob)
    ensures k <= |segments| && Exact(pattern, segments[..k], glob)
    decreases |pattern|
  {
    if pattern == [] {
      k := 0;
    } else if pattern[0] == "**" {
      var i :| 0 <= i <= |segments| && MatchSegments(pattern[1..], segments[i..], glob);
      var k' := PrefixOfSelected(pattern[1..], segments[i..], glob);
      k := i + k';
      assert segments[..k][i..] == segments[i..][..k'];
    } else {
      var k' := PrefixOfSelected(pattern[1..], segments[1..], glob);
      k := 1 + k';
      assert segments[..k][1..] == segments[1..][..k'];
    }
  }

  lemma {:induction false} ExactIsSelected(pattern: seq<string>, segments: seq<string>, glob: (string, string) -> bool, k: nat)
    requires k <= |segments| && Exact(pattern, segments[..k], glob)
    ensures MatchSegments(pattern, segments, glob)
    decreases |pattern|
  {
    if pattern == [] {
    } else if pattern[0] == "**" {
      var i :| 0 <= i <= k && Exact(pattern[1..], segments[..k][i..], glob);
      assert segments[..k][i..] == segments[i..][..k - i];
      ExactIsSelected(pattern[1..], segments[i..], glob, k - i);
    } else {
      assert segments[..k][1..] == segments[1..][..k - 1];
      ExactIsSelected(pattern[1..], segments[1..], glob, k - 1);
    }
  }

  /** A pattern that selects a path selects everything beneath it. */
  lemma {:induction false} SelectionIsPrefixClosed(pattern: seq<string>, segments: seq<string>, more: seq<string>, glob: (string, string) -> bool)
    requires MatchSegments(pattern, segments, glob)
    ensures MatchSegments(pattern, segments + more, glob)
  {
    var k := PrefixOfSelected(pattern, segments, glob);
    assert (segments + more)[..k] == segments[..k];
    ExactIsSelected(pattern, segments + more, glob, k);
  }

  predicate AnyMatch(patterns: seq<string>, segments: seq<string>, glob: (string, string) -> bool) {
    exists i :: 0 <= i < |patterns| && MatchSegments(SegmentsOf(patterns[i]), segments, glob)
  }

  predicate MatchesSegments(f: PathFilter, segments: seq<string>) {
    (f.includes == [] || AnyMatch(f.includes, segments, f.glob)) && !AnyMatch(f.excludes, segments, f.glob)
  }

  predicate MatchesPath(f: PathFilter, path: string) {
    MatchesSegments(f, SegmentsOf(path))
  }

  /** Some pattern matches the whole of some prefix of the path. */
  ghost predicate Covered(patterns: seq<string>, segments: seq<string>, glob: (string, string) -> bool) {
    exists i, k :: 0 <= i < |patterns| && 0 <= k <= |segments| && Exact(SegmentsOf(patterns[i]), segments[..k], glob)
  }

  lemma CoveredIsMatched(patterns: seq<string>, segments: seq<string>, glob: (string, string) -> bool)
    ensures AnyMatch(patterns, segments, glob) <==> Covered(patterns, segments, glob)
  {
    hide SegmentsOf, MatchSegments, Exact;
    forall i | 0 <= i < |patterns|
      ensures MatchSegments(SegmentsOf(patterns[i]), segments, glob) <==>
              exists k :: 0 <= k <= |segments| && Exact(SegmentsOf(patterns[i]), segments[..k], glob)
    {
      SelectsIffPrefixMatches(SegmentsOf(patterns[i]), segments, glob);
    }
  }

  /** Without includes every path is included; an exclude takes a path and all beneath it out again, included or not. */
  lemma SelectedIff(f: PathFilter, path: string)
    ensures MatchesPath(f, path) <==>
            (|f.includes| > 0 ==> Covered(f.includes, SegmentsOf(path), f.glob)) && !Covered(f.excludes, SegmentsOf(path), f.glob)
  {
    hide SegmentsOf, AnyMatch, Covered;
    CoveredIsMatched(f.includes, SegmentsOf(path), f.glob);
    CoveredIsMatched(f.excludes, SegmentsOf(path), f.glob);
  }

  method Matches(f: PathFilter, changePath: string) returns (r: bool)
    ensures r == MatchesPath(f, changePath)
  {
    var segments := PathSegments(changePath);
    if |f.includes| > 0 {
      var selected := MatchesAny(f.includes, segments, f.glob);
      if !selected {
        return false;
      }
    }
    var excluded := MatchesAny(f.excludes, segments, f.glob);
    r := !excluded;
  }

  /** The loop over one list of patterns, stopping at the first that matches. */
  method MatchesAny(patterns: seq<string>, segments: seq<string>, glob: (string, string) -> bool) returns (r: bool)
    ensures r == AnyMatch(patterns, segments, glob)
  {
    for i := 0 to |patterns|
      invariant forall j :: 0 <= j < i ==> !MatchSegments(SegmentsOf(patterns[j]), segments, glob)
    {
      var pattern := PathSegments(patterns[i]);
      if MatchSegments(pattern, segments, glob) {
        return true;
      }
    }
    return false;
  }

  // ---------------------------------------------------------------- filtering

  function Kept(changes: seq<Change>, keep: Change -> bool): seq<Change> {
    if changes == [] then []
    else (if keep(changes[0]) then [changes[0]] else []) + Kept(changes[1..], keep)
  }

  lemma {:induction false} KeptAppend(xs: seq<Change>, ys: seq<Change>, keep: Change -> bool)
    ensures Kept(xs + ys, keep) == Kept(xs, keep) + Kept(ys, keep)
  {
    if xs == [] {
      assert xs + ys == ys;
    } else {
      DropConcat(xs, ys, 1);
      KeptAppend(xs[1..], ys, keep);
      Associate(if keep(xs[0]) then [xs[0]] else [], Kept(xs[1..], keep), Kept(ys, keep));
    }
  }

  lemma KeptNext(xs: seq<Change>, i: nat, keep: Change -> bool)
    requires i < |xs|
    ensures Kept(xs[..i + 1], keep) == Kept(xs[..i], keep) + if keep(xs[i]) then [xs[i]] else []
  {
    assert xs[..i + 1] == xs[..i] + [xs[i]];
    KeptAppend(xs[..i], [xs[i]], keep);
    assert [xs[i]][1..] == [];
  }

  /** The indices, in order, of the changes that pass the test. */
  ghost predicate Passing(xs: seq<Change>, keep: Change -> bool, indices: seq<nat>) {
    (forall k :: 0 <= k < |indices| ==> indices[k] < |xs| && keep(xs[indices[k]]))
    && (forall k, l :: 0 <= k < l < |indices| ==> indices[k] < indices[l])
    && forall i :: 0 <= i < |xs| && keep(xs[i]) ==> i in indices
  }

  /** What is kept are the changes that pass, each once, in their order. */
  lemma {:induction false} KeptArePassing(xs: seq<Change>, keep: Change -> bool) returns (indices: seq<nat>)
    ensures Passing(xs, keep, indices)
    ensures |Kept(xs, keep)| == |indices| && forall k :: 0 <= k < |indices| ==> Kept(xs, keep)[k] == xs[indices[k]]
    decreases |xs|
  {
    if xs == [] {
      indices := [];
    } else {
      var n := |xs| - 1;
      var front := KeptArePassing(xs[..n], keep);
      KeptNext(xs, n, keep);
      assert xs[..n + 1] == xs;
      indices := if keep(xs[n]) then front + [n] else front;
      OneMorePassing(xs, keep, front, indices);
    }
  }

  lemma OneMorePassing(xs: seq<Change>, keep: Change -> bool, front: seq<nat>, indices: seq<nat>)
    requires xs != [] && Passing(xs[..|xs| - 1], keep, front)
    requires indices == if keep(xs[|xs| - 1]) then front + [|xs| - 1] else front
    ensures Passing(xs, keep, indices)
  {
    forall i | 0 <= i < |xs| && keep(xs[i])
      ensures i in indices
    {
      if i < |xs| - 1 {
        assert xs[..|xs| - 1][i] == xs[i];
        assert i in front;
      }
    }
  }

  /** Keeping by two tests that agree on every change keeps the same changes. */
  lemma {:induction false} KeptAgree(xs: seq<Change>, keep: Change -> bool, other: Change -> bool)
    requires forall c :: c in xs ==> keep(c) == other(c)
    ensures Kept(xs, keep) == Kept(xs, other)
  {
    if xs != [] {
      KeptAgree(xs[1..], keep, other);
    }
  }

  /** The test a filter applies to a change. */
  function Selected(f: PathFilter): Change -> bool {
    (c: Change) => MatchesPath(f, c.path)
  }

  method FilterChanges(changes: seq<Change>, f: PathFilter) returns (out: seq<Change>)
    ensures out == if Empty(f) then changes else Kept(changes, Selected(f))
  {
    if Empty(f) {
      return changes;
    }
    ghost var keep := Selected(f);
    out := [];
    for i := 0 to |changes|
      invariant out == Kept(changes[..i], keep)
    {
      KeptNext(changes, i, keep);
      var selected := Matches(f, changes[i].path);
      if selected {
        out := out + [changes[i]];
      }
    }
    assert changes[..|changes|] == changes;
  }
}
