/** Fusing filters that differ only in their patterns. */
module Optimizer {
  import opened Prelude
  import opened Text
  import opened Network
  import opened Positions
  import opened RegexManagement
  import opened Matching

  predicate IsOptimizableByPatterns(f: NetworkFilter) {
    && f.optDomains.None? && f.optNotDomains.None?
    && IsHostnameAnchor !in f.mask && IsRedirect !in f.mask && IsCsp !in f.mask
  }

  // ----- fusion -----

  function FlatPatterns(filters: seq<NetworkFilter>): seq<string> {
    if filters == [] then []
    else FlatPatterns(filters[..|filters| - 1]) + Patterns(filters[|filters| - 1].part)
  }

  predicate AnyEmpty(filters: seq<NetworkFilter>) {
    exists i :: 0 <= i < |filters| && filters[i].part.Empty?
  }

  predicate AnyFlag(filters: seq<NetworkFilter>, flag: Flag) {
    exists i :: 0 <= i < |filters| && flag in filters[i].mask
  }

  function FusedPart(filters: seq<NetworkFilter>): FilterPart {
    if AnyEmpty(filters) then FilterPart.Empty
    else
      var patterns := FlatPatterns(filters);
      if patterns == [] then FilterPart.Empty
      else if |patterns| == 1 then Simple(patterns[0])
      else AnyOf(patterns)
  }

  /** The raw lines that are there, joined; None if there is none. */
  function JoinLines(filters: seq<NetworkFilter>): Option<string> {
    if filters == [] then None
    else
      var front, last := JoinLines(filters[..|filters| - 1]), filters[|filters| - 1].rawLine;
      if front.None? || last.None? then (if last.None? then front else last)
      else Some(front.value + " <+> " + last.value)
  }

  function FusedMask(filters: seq<NetworkFilter>): Mask
    requires filters != []
  {
    SetFlag(SetFlag(filters[0].mask, IsRegex, AnyFlag(filters, IsRegex)),
            IsCompleteRegex, AnyFlag(filters, IsCompleteRegex))
  }

  function Fused(filters: seq<NetworkFilter>): NetworkFilter
    requires filters != []
  {
    var base := filters[0];
    base.(part := FusedPart(filters), mask := FusedMask(filters),
          rawLine := if base.rawLine.Some? then JoinLines(filters) else None)
  }

  method Fusion(filters: seq<NetworkFilter>) returns (filter: NetworkFilter)
    requires filters != []
    ensures filter == Fused(filters)
  {
    filter := filters[0];
    if AnyEmpty(filters) {
      filter := filter.(part := FilterPart.Empty);
    } else {
      var flat: seq<string> := [];
      for i := 0 to |filters|
        invariant flat == FlatPatterns(filters[..i])
      {
        assert filters[..i + 1][..i] == filters[..i];
        match filters[i].part {
          case Empty =>
          case Simple(s) => flat := flat + [s];
          case AnyOf(ss) => flat := flat + ss;
        }
      }
      assert filters[..|filters|] == filters;
      if flat == [] {
        filter := filter.(part := FilterPart.Empty);
      } else if |flat| == 1 {
        filter := filter.(part := Simple(flat[0]));
      } else {
        filter := filter.(part := AnyOf(flat));
      }
    }
    filter := filter.(mask := SetFlag(filter.mask, IsRegex, AnyFlag(filters, IsRegex)));
    filter := filter.(mask := SetFlag(filter.mask, IsCompleteRegex, AnyFlag(filters, IsCompleteRegex)));
    if filters[0].rawLine.Some? {
      filter := filter.(rawLine := JoinLines(filters));
    }
  }

  // ----- the meaning of a fused filter -----

  /** Alternatives are only made by fusing, never empty. */
  ghost predicate Alternatives(filters: seq<NetworkFilter>) {
    forall i :: 0 <= i < |filters| && IsOptimizableByPatterns(filters[i]) && filters[i].part.AnyOf? ==>
                  filters[i].part.patterns != []
  }

  /** A group as `apply_optimisation` builds it: filters that are fused by their patterns, with one mask. */
  ghost predicate OneMask(filters: seq<NetworkFilter>) {
    && filters != [] && Alternatives(filters)
    && forall i :: 0 <= i < |filters| ==> IsOptimizableByPatterns(filters[i]) && filters[i].mask == filters[0].mask
  }

  predicate SomeMatches(lib: RegexLibrary, filters: seq<NetworkFilter>, r: Request)
    requires Sized(r)
  {
    exists i :: 0 <= i < |filters| && FilterMatches(lib, filters[i], r)
  }

  predicate AllCompile(lib: RegexLibrary, filters: seq<NetworkFilter>)
    requires filters != []
  {
    forall p :: p in FlatPatterns(filters) ==> lib.compiles(p, AnchorsOf(filters[0].mask))
  }

  /** One pattern of a filter without host anchor. */
  predicate OnePatternMatches(lib: RegexLibrary, mask: Mask, pattern: string, r: Request) {
    if UsesRegex(mask) then
      pattern == "" || lib.isMatch(pattern, AnchorsOf(mask), GetUrl(r, MatchCase in mask))
    else PlainPatternMatches(mask, "", pattern, r)
  }

  /** Without host anchor a list of patterns is a disjunction, and an empty list matches all. */
  lemma PatternsAreAlternatives(lib: RegexLibrary, mask: Mask, patterns: seq<string>, r: Request)
    requires Sized(r) && IsHostnameAnchor !in mask
    requires UsesRegex(mask) ==> forall p :: p in patterns ==> lib.compiles(p, AnchorsOf(mask))
    ensures CheckPattern(lib, mask, patterns, None, r)
            <==> patterns == [] || exists p :: p in patterns && OnePatternMatches(lib, mask, p, r)
  {
    forall i | 0 <= i < |patterns| ensures patterns[i] in patterns {
    }
    if UsesRegex(mask) && patterns != [] {
      if "" in patterns {
        assert OnePatternMatches(lib, mask, "", r);
      } else {
        assert MakeRegex(lib, mask, patterns) ==
          if |patterns| == 1 then Compiled(patterns[0], AnchorsOf(mask)) else CompiledSet(patterns, AnchorsOf(mask));
      }
    }
    var some := exists i :: 0 <= i < |patterns| && OnePatternMatches(lib, mask, patterns[i], r);
    if p :| p in patterns && OnePatternMatches(lib, mask, p, r) {
      var i :| 0 <= i < |patterns| && patterns[i] == p;
      assert some;
    }
    if some {
      var i :| 0 <= i < |patterns| && OnePatternMatches(lib, mask, patterns[i], r);
      assert patterns[i] in patterns;
    }
    assert CheckPattern(lib, mask, patterns, None, r) <==> patterns == [] || some;
  }

  lemma {:induction false} FlatPatternsAre(filters: seq<NetworkFilter>, p: string)
    ensures p in FlatPatterns(filters) <==> exists i :: 0 <= i < |filters| && p in Patterns(filters[i].part)
  {
    if filters != [] {
      var n := |filters| - 1;
      var front := filters[..n];
      assert forall i :: 0 <= i < n ==> front[i] == filters[i];
      FlatPatternsAre(front, p);
      if p in FlatPatterns(front) {
        var i :| 0 <= i < n && p in Patterns(front[i].part);
        assert p in Patterns(filters[i].part);
      }
    }
  }

  lemma FusedPatterns(filters: seq<NetworkFilter>)
    requires OneMask(filters)
    ensures var patterns := Patterns(FusedPart(filters));
            (patterns == [] <==> AnyEmpty(filters))
            && (patterns != [] ==> patterns == FlatPatterns(filters))
  {
    if !AnyEmpty(filters) {
      var p := Patterns(filters[0].part)[0];
      assert p in Patterns(filters[0].part);
      FlatPatternsAre(filters, p);
    }
  }

  lemma GroupMaskIsKept(filters: seq<NetworkFilter>)
    requires filters != [] && forall i :: 0 <= i < |filters| ==> filters[i].mask == filters[0].mask
    ensures FusedMask(filters) == filters[0].mask
  {
    var m := filters[0].mask;
    assert AnyFlag(filters, IsRegex) <==> IsRegex in m by { assert filters[0].mask == m; }
    assert AnyFlag(filters, IsCompleteRegex) <==> IsCompleteRegex in m by { assert filters[0].mask == m; }
  }

  lemma UnanchoredMatch(lib: RegexLibrary, f: NetworkFilter, r: Request)
    requires Sized(r) && IsOptimizableByPatterns(f)
    ensures FilterMatches(lib, f, r) <==>
              CheckOptions(f.mask, r) && CheckPattern(lib, f.mask, Patterns(f.part), None, r)
  {
  }

  /** The fused filter, by the options it shares with its group and by the patterns of the group. */
  lemma FusedMatches(lib: RegexLibrary, filters: seq<NetworkFilter>, r: Request)
    requires OneMask(filters) && Sized(r)
    ensures Fused(filters).mask == filters[0].mask && Fused(filters).tag == filters[0].tag
    ensures FilterMatches(lib, Fused(filters), r) <==>
              && CheckOptions(filters[0].mask, r)
              && CheckPattern(lib, filters[0].mask, if AnyEmpty(filters) then [] else FlatPatterns(filters), None, r)
  {
    GroupMaskIsKept(filters);
    FusedPatterns(filters);
    UnanchoredMatch(lib, Fused(filters), r);
  }

  /** A group with a pattern that does not compile, and with nothing in it that matches everything. */
  predicate Silenced(lib: RegexLibrary, filters: seq<NetworkFilter>)
    requires filters != []
  {
    UsesRegex(filters[0].mask) && !AnyEmpty(filters) && "" !in FlatPatterns(filters) && !AllCompile(lib, filters)
  }

  /** One pattern that does not compile silences a whole group: the fused filter matches nothing. */
  lemma SilencedMatchesNothing(lib: RegexLibrary, filters: seq<NetworkFilter>, r: Request)
    requires OneMask(filters) && Sized(r) && Silenced(lib, filters)
    ensures !FilterMatches(lib, Fused(filters), r)
  {
    FusedMatches(lib, filters, r);
    var ps := FlatPatterns(filters);
    var p :| p in ps && !lib.compiles(p, AnchorsOf(filters[0].mask));
    var i :| 0 <= i < |ps| && ps[i] == p;
    assert MakeRegex(lib, filters[0].mask, ps) == RegexParsingError;
  }

  /** A member that matches everything its options allow, and then so does the fused filter. */
  lemma EverythingMatches(lib: RegexLibrary, filters: seq<NetworkFilter>, r: Request)
    requires OneMask(filters) && Sized(r) && UsesRegex(filters[0].mask)
    requires AnyEmpty(filters) || "" in FlatPatterns(filters)
    ensures FilterMatches(lib, Fused(filters), r) <==> CheckOptions(filters[0].mask, r)
    ensures SomeMatches(lib, filters, r) <==> CheckOptions(filters[0].mask, r)
  {
    FusedMatches(lib, filters, r);
    FlatPatternsAre(filters, "");
    var i :| 0 <= i < |filters| && (filters[i].part.Empty? || "" in Patterns(filters[i].part));
    UnanchoredMatch(lib, filters[i], r);
  }

  /** If every pattern compiles, or none needs to, the fused filter matches when some member does. */
  lemma CompiledFusionMatches(lib: RegexLibrary, filters: seq<NetworkFilter>, r: Request)
    requires OneMask(filters) && Sized(r) && (UsesRegex(filters[0].mask) ==> AllCompile(lib, filters))
    ensures FilterMatches(lib, Fused(filters), r) <==> SomeMatches(lib, filters, r)
  {
    var mask, fused := filters[0].mask, Patterns(FusedPart(filters));
    FusedMatches(lib, filters, r);
    FusedPatterns(filters);
    PatternsAreAlternatives(lib, mask, fused, r);
    forall i | 0 <= i < |filters| ensures
      FilterMatches(lib, filters[i], r) <==>
        CheckOptions(mask, r) && (Patterns(filters[i].part) == []
          || exists p :: p in Patterns(filters[i].part) && OnePatternMatches(lib, mask, p, r))
    {
      MemberMatches(lib, filters, i, r);
    }
    if p :| p in fused && OnePatternMatches(lib, mask, p, r) {
      FlatPatternsAre(filters, p);
    }
    if i, p :| 0 <= i < |filters| && p in Patterns(filters[i].part) && OnePatternMatches(lib, mask, p, r) {
      FlatPatternsAre(filters, p);
    }
  }

  lemma MemberMatches(lib: RegexLibrary, filters: seq<NetworkFilter>, i: nat, r: Request)
    requires OneMask(filters) && Sized(r) && (UsesRegex(filters[0].mask) ==> AllCompile(lib, filters))
    requires i < |filters|
    ensures FilterMatches(lib, filters[i], r) <==>
              && CheckOptions(filters[0].mask, r)
              && (Patterns(filters[i].part) == []
                  || exists p :: p in Patterns(filters[i].part) && OnePatternMatches(lib, filters[0].mask, p, r))
  {
    var mask, ps := filters[0].mask, Patterns(filters[i].part);
    forall p | p in ps && UsesRegex(mask) ensures lib.compiles(p, AnchorsOf(mask)) {
      FlatPatternsAre(filters, p);
    }
    PatternsAreAlternatives(lib, mask, ps, r);
    UnanchoredMatch(lib, filters[i], r);
  }

  /** The fused filter of any group: what some member matches, unless the group is silenced. */
  lemma FusionMeans(lib: RegexLibrary, filters: seq<NetworkFilter>, r: Request)
    requires OneMask(filters) && Sized(r)
    ensures Fused(filters).mask == filters[0].mask && Fused(filters).tag == filters[0].tag
    ensures FilterMatches(lib, Fused(filters), r) <==> !Silenced(lib, filters) && SomeMatches(lib, filters, r)
  {
    FusedMatches(lib, filters, r);
    if Silenced(lib, filters) {
      SilencedMatchesNothing(lib, filters, r);
    } else if UsesRegex(filters[0].mask) && !AllCompile(lib, filters) {
      EverythingMatches(lib, filters, r);
    } else {
      CompiledFusionMatches(lib, filters, r);
    }
  }

  /**
   * Fusing a group is right for a request exactly when the group uses no regex, or holds an empty
   * filter or an empty pattern, or every pattern compiles, or no member matches anyway.
   */
  lemma FusionIsRightExactlyWhen(lib: RegexLibrary, filters: seq<NetworkFilter>, r: Request)
    requires OneMask(filters) && Sized(r)
    ensures (FilterMatches(lib, Fused(filters), r) <==> SomeMatches(lib, filters, r))
            <==>
            || !UsesRegex(filters[0].mask)
            || AnyEmpty(filters)
            || "" in FlatPatterns(filters)
            || (forall p :: p in FlatPatterns(filters) ==> lib.compiles(p, AnchorsOf(filters[0].mask)))
            || (forall i :: 0 <= i < |filters| ==> !FilterMatches(lib, filters[i], r))
  {
    FusionMeans(lib, filters, r);
  }

  // ----- groups that fusion does not change -----

  /** A filter that is fused by its patterns, all of which translate to regexes that compile. */
  ghost predicate Fusable(lib: RegexLibrary, f: NetworkFilter) {
    && IsOptimizableByPatterns(f)
    && (f.part.AnyOf? ==> f.part.patterns != [])
    && forall p :: p in Patterns(f.part) && UsesRegex(f.mask) ==> lib.compiles(p, AnchorsOf(f.mask))
  }

  ghost predicate IsGroup(lib: RegexLibrary, filters: seq<NetworkFilter>) {
    && filters != []
    && forall i :: 0 <= i < |filters| ==> Fusable(lib, filters[i]) && filters[i].mask == filters[0].mask
  }

  lemma FusableCompile(lib: RegexLibrary, filters: seq<NetworkFilter>)
    requires IsGroup(lib, filters)
    ensures OneMask(filters) && !Silenced(lib, filters)
  {
    forall p | p in FlatPatterns(filters) && UsesRegex(filters[0].mask)
      ensures lib.compiles(p, AnchorsOf(filters[0].mask))
    {
      FlatPatternsAre(filters, p);
    }
  }

  /** The fused filter matches a request exactly when some filter of its group does. */
  lemma FusionKeepsMeaning(lib: RegexLibrary, filters: seq<NetworkFilter>, r: Request)
    requires IsGroup(lib, filters) && Sized(r)
    ensures Fused(filters).mask == filters[0].mask && Fused(filters).tag == filters[0].tag
    ensures FilterMatches(lib, Fused(filters), r)
            <==> exists i :: 0 <= i < |filters| && FilterMatches(lib, filters[i], r)
  {
    FusableCompile(lib, filters);
    FusionMeans(lib, filters, r);
  }

  // ----- optimizing a bucket -----

  /** Some filter with this mask matches and has an active tag. */
  ghost predicate Accepts(lib: RegexLibrary, filters: seq<NetworkFilter>, r: Request, tags: set<string>, mask: Mask)
    requires Sized(r)
  {
    exists i :: 0 <= i < |filters| && filters[i].mask == mask
      && FilterMatches(lib, filters[i], r) && TagActive(filters[i].tag, tags)
  }

  /** The two lists accept the same requests, for every tag setting, with the same masks. */
  ghost predicate Equivalent(lib: RegexLibrary, a: seq<NetworkFilter>, b: seq<NetworkFilter>) {
    forall r, tags, mask :: Sized(r) ==> (Accepts(lib, a, r, tags, mask) <==> Accepts(lib, b, r, tags, mask))
  }

  /** Filters that would share a group have the same tag, and are fusable. */
  ghost predicate Optimizable(lib: RegexLibrary, filters: seq<NetworkFilter>) {
    && (forall i :: 0 <= i < |filters| && IsOptimizableByPatterns(filters[i]) ==> Fusable(lib, filters[i]))
    && forall i, j ::
         (0 <= i < |filters| && 0 <= j < |filters|
          && IsOptimizableByPatterns(filters[i]) && IsOptimizableByPatterns(filters[j])
          && filters[i].mask == filters[j].mask) ==> filters[i].tag == filters[j].tag
  }

  /** The filters fused by their patterns that have this mask, in list order. */
  function GroupOf(filters: seq<NetworkFilter>, mask: Mask): (group: seq<NetworkFilter>) {
    if filters == [] then []
    else
      var f := filters[|filters| - 1];
      GroupOf(filters[..|filters| - 1], mask) + (if IsOptimizableByPatterns(f) && f.mask == mask then [f] else [])
  }

  lemma {:induction false} GroupOfMeans(filters: seq<NetworkFilter>, mask: Mask, f: NetworkFilter)
    ensures f in GroupOf(filters, mask) <==> f in filters && IsOptimizableByPatterns(f) && f.mask == mask
  {
    if filters != [] {
      var n := |filters| - 1;
      GroupOfMeans(filters[..n], mask, f);
      assert filters == filters[..n] + [filters[n]];
    }
  }

  /** A group is the filters of one mask that may be fused, in list order. */
  lemma {:induction false} GroupInOrder(filters: seq<NetworkFilter>, mask: Mask)
    ensures GroupOf(filters, mask) ==
            Filtered(filters, (f: NetworkFilter) => f.mask == mask && IsOptimizableByPatterns(f))
  {
    if filters != [] {
      GroupInOrder(filters[..|filters| - 1], mask);
    }
  }

  /** A filter is left alone when it is not fused by its patterns, or shares its mask with no other. */
  predicate LeftAlone(filters: seq<NetworkFilter>, f: NetworkFilter) {
    f in filters && (!IsOptimizableByPatterns(f) || |GroupOf(filters, f.mask)| == 1)
  }

  ghost predicate IsFusedGroup(filters: seq<NetworkFilter>, g: NetworkFilter) {
    exists mask :: |GroupOf(filters, mask)| > 1 && g == Fused(GroupOf(filters, mask))
  }

  /** What optimizing makes of a list, apart from the order. */
  ghost predicate AreOptimized(filters: seq<NetworkFilter>, optimized: seq<NetworkFilter>) {
    forall g :: g in optimized <==> LeftAlone(filters, g) || IsFusedGroup(filters, g)
  }

  /** Redirects, policies, rules for some hosts and rules for some sources are never fused. */
  lemma NeverFused(filters: seq<NetworkFilter>, optimized: seq<NetworkFilter>, f: NetworkFilter)
    requires AreOptimized(filters, optimized) && f in filters
    requires || IsRedirect in f.mask || IsCsp in f.mask || IsHostnameAnchor in f.mask
             || f.optDomains.Some? || f.optNotDomains.Some?
    ensures f in optimized
  {
  }

  /** Of any other rules of one mask none is left as it was, if there are two or more. */
  lemma AlwaysFused(filters: seq<NetworkFilter>, i: nat, j: nat)
    requires i < j < |filters| && filters[i].mask == filters[j].mask
    requires forall k :: k == i || k == j ==> filters[k].optDomains.None? && filters[k].optNotDomains.None?
    requires IsRedirect !in filters[i].mask && IsCsp !in filters[i].mask && IsHostnameAnchor !in filters[i].mask
    ensures !LeftAlone(filters, filters[i]) && filters[i] in GroupOf(filters, filters[i].mask)
  {
    GroupOfMeans(filters, filters[i].mask, filters[i]);
    GroupHasTwo(filters, i, j);
  }

  lemma {:induction false} GroupHasTwo(filters: seq<NetworkFilter>, i: nat, j: nat)
    requires i < j < |filters| && filters[i].mask == filters[j].mask
    requires IsOptimizableByPatterns(filters[i]) && IsOptimizableByPatterns(filters[j])
    ensures |GroupOf(filters, filters[i].mask)| >= 2
  {
    var n := |filters| - 1;
    if j < n {
      GroupHasTwo(filters[..n], i, j);
    } else {
      GroupOfMeans(filters[..n], filters[i].mask, filters[..n][i]);
      assert filters[..n][i] in GroupOf(filters[..n], filters[i].mask);
    }
  }

  /** A list of redirects is not changed. */
  lemma RedirectsStay(filters: seq<NetworkFilter>, optimized: seq<NetworkFilter>)
    requires AreOptimized(filters, optimized) && forall f :: f in filters ==> IsRedirect in f.mask
    ensures forall g :: g in optimized <==> g in filters
  {
    forall mask ensures GroupOf(filters, mask) == [] {
      if GroupOf(filters, mask) != [] {
        GroupOfMeans(filters, mask, GroupOf(filters, mask)[0]);
      }
    }
  }

  /** The groups found so far, exactly. */
  ghost predicate GroupsOf(filters: seq<NetworkFilter>, groups: map<Mask, seq<NetworkFilter>>) {
    forall mask: Mask ::
      && (mask in groups <==> GroupOf(filters, mask) != [])
      && (mask in groups ==> groups[mask] == GroupOf(filters, mask))
  }

  method GroupByMask(filters: seq<NetworkFilter>)
    returns (toFuse: map<Mask, seq<NetworkFilter>>, negative: seq<NetworkFilter>)
    ensures GroupsOf(filters, toFuse)
    ensures forall f :: f in negative <==> f in filters && !IsOptimizableByPatterns(f)
  {
    negative, toFuse := [], map[];
    for i := 0 to |filters|
      invariant GroupsOf(filters[..i], toFuse)
      invariant forall f :: f in negative <==> f in filters[..i] && !IsOptimizableByPatterns(f)
    {
      var f := filters[i];
      assert filters[..i + 1][..i] == filters[..i];
      assert filters[..i + 1] == filters[..i] + [f];
      if IsOptimizableByPatterns(f) {
        toFuse := toFuse[f.mask := (if f.mask in toFuse then toFuse[f.mask] else []) + [f]];
      } else {
        negative := negative + [f];
      }
    }
    assert filters[..|filters|] == filters;
  }

  // The groups still to come are those of the masks in `pending`.

  ghost predicate AloneSoFar(filters: seq<NetworkFilter>, pending: set<Mask>, f: NetworkFilter) {
    && f in filters
    && (!IsOptimizableByPatterns(f) || (|GroupOf(filters, f.mask)| == 1 && f.mask !in pending))
  }

  ghost predicate FusedSoFar(filters: seq<NetworkFilter>, pending: set<Mask>, g: NetworkFilter) {
    exists mask :: mask !in pending && |GroupOf(filters, mask)| > 1 && g == Fused(GroupOf(filters, mask))
  }

  lemma OneGroupDone(filters: seq<NetworkFilter>, pending: set<Mask>, mask: Mask)
    requires mask in pending && GroupOf(filters, mask) != []
    ensures var group, rest := GroupOf(filters, mask), pending - {mask};
            && (forall f :: AloneSoFar(filters, rest, f) <==>
                  AloneSoFar(filters, pending, f) || (|group| == 1 && f in group))
            && (forall g :: FusedSoFar(filters, rest, g) <==>
                  FusedSoFar(filters, pending, g) || (|group| > 1 && g == Fused(group)))
  {
    var group, rest := GroupOf(filters, mask), pending - {mask};
    forall f ensures AloneSoFar(filters, rest, f) <==>
                       AloneSoFar(filters, pending, f) || (|group| == 1 && f in group)
    {
      GroupOfMeans(filters, mask, f);
    }
  }

  /** Groups by mask and fuses exactly the groups of two or more. */
  method ApplyOptimisation(filters: seq<NetworkFilter>)
    returns (fused: seq<NetworkFilter>, negative: seq<NetworkFilter>)
    ensures forall f :: f in negative <==> LeftAlone(filters, f)
    ensures forall g :: g in fused <==> IsFusedGroup(filters, g)
  {
    var toFuse;
    fused := [];
    toFuse, negative := GroupByMask(filters);
    forall f | f in filters && IsOptimizableByPatterns(f) ensures GroupOf(filters, f.mask) != [] {
      GroupOfMeans(filters, f.mask, f);
    }
    var pending := toFuse.Keys;
    while pending != {}
      invariant pending <= toFuse.Keys
      invariant forall f :: f in negative <==> AloneSoFar(filters, pending, f)
      invariant forall g :: g in fused <==> FusedSoFar(filters, pending, g)
      decreases pending
    {
      var mask :| mask in pending;
      var group := toFuse[mask];
      OneGroupDone(filters, pending, mask);
      if |group| > 1 {
        var filter := Fusion(group);
        fused := fused + [filter];
      } else {
        negative := negative + group;
      }
      pending := pending - {mask};
    }
  }

  // ----- the whole pass -----

  function InsertById(filters: seq<NetworkFilter>, f: NetworkFilter): (r: seq<NetworkFilter>)
    ensures |r| == |filters| + 1 && forall g :: g in r <==> g in filters || g == f
  {
    var n := |filters| - 1;
    if filters == [] || filters[n].id <= f.id then filters + [f]
    else
      assert filters == filters[..n] + [filters[n]];
      InsertById(filters[..n], f) + [filters[n]]
  }

  function SortById(filters: seq<NetworkFilter>): (r: seq<NetworkFilter>)
    ensures |r| == |filters| && forall g :: g in r <==> g in filters
  {
    if filters == [] then []
    else
      var n := |filters| - 1;
      assert filters == filters[..n] + [filters[n]];
      InsertById(SortById(filters[..n]), filters[n])
  }

  // ----- what optimizing keeps -----

  /** Some filter with this mask that optimizing leaves alone matches and has an active tag. */
  ghost predicate AloneAccepts(
    lib: RegexLibrary, filters: seq<NetworkFilter>, r: Request, tags: set<string>, mask: Mask)
    requires Sized(r)
  {
    exists f :: LeftAlone(filters, f) && f.mask == mask && FilterMatches(lib, f, r) && TagActive(f.tag, tags)
  }

  /** The group as one filter. */
  ghost predicate FusedAccepts(lib: RegexLibrary, group: seq<NetworkFilter>, r: Request, tags: set<string>)
    requires Sized(r)
  {
    |group| > 1 && FilterMatches(lib, Fused(group), r) && TagActive(group[0].tag, tags)
  }

  lemma GroupHasOneMask(filters: seq<NetworkFilter>, mask: Mask)
    requires Alternatives(filters) && GroupOf(filters, mask) != []
    ensures OneMask(GroupOf(filters, mask)) && GroupOf(filters, mask)[0].mask == mask
  {
    var group := GroupOf(filters, mask);
    forall i | 0 <= i < |group|
      ensures IsOptimizableByPatterns(group[i]) && group[i].mask == mask
      ensures group[i].part.AnyOf? ==> group[i].part.patterns != []
    {
      GroupOfMeans(filters, mask, group[i]);
      var j :| 0 <= j < |filters| && filters[j] == group[i];
    }
  }

  lemma GroupIsKept(filters: seq<NetworkFilter>, mask: Mask)
    requires GroupOf(filters, mask) != []
    ensures var group := GroupOf(filters, mask);
            Fused(group).mask == mask && Fused(group).tag == group[0].tag && group[0].mask == mask
  {
    var group := GroupOf(filters, mask);
    forall i | 0 <= i < |group| ensures group[i].mask == mask {
      GroupOfMeans(filters, mask, group[i]);
    }
    GroupMaskIsKept(group);
  }

  lemma AcceptsAs(lib: RegexLibrary, filters: seq<NetworkFilter>, r: Request, tags: set<string>, mask: Mask)
    requires Sized(r)
    ensures Accepts(lib, filters, r, tags, mask) <==>
              exists f :: f in filters && f.mask == mask && FilterMatches(lib, f, r) && TagActive(f.tag, tags)
  {
    if f :| f in filters && f.mask == mask && FilterMatches(lib, f, r) && TagActive(f.tag, tags) {
      var i :| 0 <= i < |filters| && filters[i] == f;
    }
  }

  /** What a list accepts: what it leaves alone, and its group of this mask. */
  lemma AcceptsByParts(lib: RegexLibrary, filters: seq<NetworkFilter>, r: Request, tags: set<string>, mask: Mask)
    requires Sized(r)
    ensures Accepts(lib, filters, r, tags, mask) <==>
              || AloneAccepts(lib, filters, r, tags, mask)
              || (|GroupOf(filters, mask)| > 1 && Accepts(lib, GroupOf(filters, mask), r, tags, mask))
  {
    var group := GroupOf(filters, mask);
    AcceptsAs(lib, filters, r, tags, mask);
    AcceptsAs(lib, group, r, tags, mask);
    forall f ensures f in group <==> f in filters && IsOptimizableByPatterns(f) && f.mask == mask {
      GroupOfMeans(filters, mask, f);
    }
    if f :| f in filters && f.mask == mask && FilterMatches(lib, f, r) && TagActive(f.tag, tags) {
      assert LeftAlone(filters, f) || f in group;
    }
  }

  /** What the optimized list accepts: what was left alone, and the group as one filter. */
  lemma OptimizedByParts(
    lib: RegexLibrary, filters: seq<NetworkFilter>, optimized: seq<NetworkFilter>,
    r: Request, tags: set<string>, mask: Mask)
    requires Sized(r) && AreOptimized(filters, optimized)
    ensures Accepts(lib, optimized, r, tags, mask) <==>
              AloneAccepts(lib, filters, r, tags, mask) || FusedAccepts(lib, GroupOf(filters, mask), r, tags)
  {
    AcceptsAs(lib, optimized, r, tags, mask);
    var group := GroupOf(filters, mask);
    if FusedAccepts(lib, group, r, tags) {
      GroupIsKept(filters, mask);
      assert IsFusedGroup(filters, Fused(group));
    }
    if g :| g in optimized && g.mask == mask && FilterMatches(lib, g, r) && TagActive(g.tag, tags) {
      if !LeftAlone(filters, g) {
        var m :| |GroupOf(filters, m)| > 1 && g == Fused(GroupOf(filters, m));
        GroupIsKept(filters, m);
      }
    }
  }

  /**
   * Optimizing a list is right for a request, a mask and a setting of the tags exactly when there
   * is no group of two or more, or a filter that is left alone accepts anyway, or: no member that
   * matches is active, if the group is silenced or its first tag is inactive; and else some member
   * that matches is active, if any matches.
   */
  lemma OptimizingIsRightExactlyWhen(
    lib: RegexLibrary, filters: seq<NetworkFilter>, optimized: seq<NetworkFilter>,
    r: Request, tags: set<string>, mask: Mask)
    requires Sized(r) && Alternatives(filters) && AreOptimized(filters, optimized)
    ensures
      (Accepts(lib, filters, r, tags, mask) <==> Accepts(lib, optimized, r, tags, mask))
      <==>
      var group := GroupOf(filters, mask);
      || |group| < 2
      || AloneAccepts(lib, filters, r, tags, mask)
      || if Silenced(lib, group) || !TagActive(group[0].tag, tags) then
           forall i :: 0 <= i < |group| && TagActive(group[i].tag, tags) ==> !FilterMatches(lib, group[i], r)
         else
           SomeMatches(lib, group, r) ==>
             exists i :: 0 <= i < |group| && TagActive(group[i].tag, tags) && FilterMatches(lib, group[i], r)
  {
    var group := GroupOf(filters, mask);
    AcceptsByParts(lib, filters, r, tags, mask);
    OptimizedByParts(lib, filters, optimized, r, tags, mask);
    if |group| >= 2 {
      GroupHasOneMask(filters, mask);
      FusionMeans(lib, group, r);
    }
  }

  /** With one tag to a group, and patterns that compile, optimizing a list keeps what it accepts. */
  lemma OptimizingKeepsMeaning(lib: RegexLibrary, filters: seq<NetworkFilter>, optimized: seq<NetworkFilter>)
    requires Optimizable(lib, filters) && AreOptimized(filters, optimized)
    ensures Equivalent(lib, filters, optimized)
  {
    forall r, tags, mask | Sized(r)
      ensures Accepts(lib, filters, r, tags, mask) <==> Accepts(lib, optimized, r, tags, mask)
    {
      var group := GroupOf(filters, mask);
      OptimizingIsRightExactlyWhen(lib, filters, optimized, r, tags, mask);
      if |group| >= 2 {
        GroupIsGroup(lib, filters, mask);
      }
    }
  }

  lemma GroupIsGroup(lib: RegexLibrary, filters: seq<NetworkFilter>, mask: Mask)
    requires Optimizable(lib, filters) && GroupOf(filters, mask) != []
    ensures var group := GroupOf(filters, mask);
            && IsGroup(lib, group) && !Silenced(lib, group)
            && forall i :: 0 <= i < |group| ==> group[i].tag == group[0].tag
  {
    var group := GroupOf(filters, mask);
    forall i | 0 <= i < |group|
      ensures Fusable(lib, group[i]) && group[i].mask == group[0].mask && group[i].tag == group[0].tag
    {
      GroupOfMeans(filters, mask, group[i]);
      GroupOfMeans(filters, mask, group[0]);
      var a :| 0 <= a < |filters| && filters[a] == group[i];
      var b :| 0 <= b < |filters| && filters[b] == group[0];
    }
    FusableCompile(lib, group);
  }

  /** Optimizing a list keeps what it accepts. */
  method Optimize(filters: seq<NetworkFilter>, ghost lib: RegexLibrary) returns (optimized: seq<NetworkFilter>)
    ensures AreOptimized(filters, optimized)
    ensures Optimizable(lib, filters) ==> Equivalent(lib, filters, optimized)
  {
    var fused, unfused := ApplyOptimisation(filters);
    optimized := fused + unfused;
    optimized := SortById(optimized);
    if Optimizable(lib, filters) {
      OptimizingKeepsMeaning(lib, filters, optimized);
    }
  }

  // ----- what fusion loses -----

  predicate MatchesWithTag(lib: RegexLibrary, f: NetworkFilter, r: Request, tag: Option<string>)
    requires Sized(r)
  {
    FilterMatches(lib, f, r) && f.tag == tag
  }

  /**
   * Fusion gives a group the tag of its first filter. For one request and every setting of the
   * tags this is right exactly when no filter of the group matches, or the first one is untagged
   * and some untagged filter matches, or every filter that matches has the tag of the first.
   */
  lemma FusedTagIsRightExactlyWhen(lib: RegexLibrary, group: seq<NetworkFilter>, r: Request)
    requires IsGroup(lib, group) && Sized(r)
    ensures
      (forall tags :: Accepts(lib, group, r, tags, group[0].mask) <==>
                      Accepts(lib, [Fused(group)], r, tags, group[0].mask))
      <==>
      || (group[0].tag.None? && exists i :: 0 <= i < |group| && MatchesWithTag(lib, group[i], r, None))
      || (forall i :: 0 <= i < |group| && FilterMatches(lib, group[i], r) ==>
            MatchesWithTag(lib, group[i], r, group[0].tag))
  {
    FusionKeepsMeaning(lib, group, r);
    var fused, mask, tag := [Fused(group)], group[0].mask, group[0].tag;
    assert forall tags :: Accepts(lib, fused, r, tags, mask) <==>
        FilterMatches(lib, fused[0], r) && TagActive(tag, tags);
    if i :| 0 <= i < |group| && FilterMatches(lib, group[i], r) && group[i].tag != tag {
      var other := group[i].tag;
      var tags := if other.Some? then {other.value} else {};
      assert Accepts(lib, group, r, tags, mask);
      if tag.Some? {
        assert !TagActive(tag, tags);
      } else {
        assert Accepts(lib, fused, r, {}, mask);
        if Accepts(lib, group, r, {}, mask) {
          var j :| 0 <= j < |group| && FilterMatches(lib, group[j], r) && TagActive(group[j].tag, {});
          assert MatchesWithTag(lib, group[j], r, None);
        }
      }
    }
    if i :| 0 <= i < |group| && MatchesWithTag(lib, group[i], r, None) && tag.None? {
      assert forall tags :: Accepts(lib, group, r, tags, mask);
    }
  }

  // ----- two lists that optimizing changes -----

  /** `|http://a.$script,tag=a` and its like. */
  function PrefixRule(prefix: string, tag: Option<string>, id: Hash): NetworkFilter {
    NetworkFilter(
      {IsLeftAnchor, FromScript, FromHttp, FromHttps, FirstParty, ThirdParty},
      Simple(prefix), None, None, None, None, tag, None, id)
  }

  const SiteB := Request(
    Script, true, false, true, true, "http://b.com/", "http://b.com/", "b.com", None, [], "http://b.com/")

  lemma PrefixRuleMatches(lib: RegexLibrary, prefix: string, tag: Option<string>, id: Hash)
    ensures Sized(SiteB)
    ensures FilterMatches(lib, PrefixRule(prefix, tag, id), SiteB) <==> StartsWith(SiteB.url, prefix)
  {
    var f := PrefixRule(prefix, tag, id);
    assert Patterns(f.part) == [prefix] && [prefix][0] == prefix;
    UnanchoredMatch(lib, f, SiteB);
    assert CheckOptions(f.mask, SiteB);
    assert PlainPatternMatches(f.mask, "", prefix, SiteB) <==> StartsWith(SiteB.url, prefix);
  }

  lemma PairIsAGroup(a: NetworkFilter, b: NetworkFilter)
    requires IsOptimizableByPatterns(a) && IsOptimizableByPatterns(b) && a.mask == b.mask
    ensures GroupOf([a, b], a.mask) == [a, b]
    ensures forall f: NetworkFilter :: f.mask == a.mask ==> !LeftAlone([a, b], f)
  {
    assert [a, b][..1] == [a] && [a][..0] == [];
    assert GroupOf([a], a.mask) == [a];
  }

  /** Two plain rules of one mask: optimized, what the second matches is accepted under the tag of the first. */
  lemma PairTakesFirstTag(
    lib: RegexLibrary, a: NetworkFilter, b: NetworkFilter, optimized: seq<NetworkFilter>,
    r: Request, tags: set<string>)
    requires Sized(r) && AreOptimized([a, b], optimized)
    requires IsOptimizableByPatterns(a) && IsOptimizableByPatterns(b) && a.mask == b.mask && !UsesRegex(a.mask)
    requires a.part.Simple? && b.part.Simple? && !FilterMatches(lib, a, r) && FilterMatches(lib, b, r)
    ensures Accepts(lib, [a, b], r, tags, a.mask) <==> TagActive(b.tag, tags)
    ensures Accepts(lib, optimized, r, tags, a.mask) <==> TagActive(a.tag, tags)
  {
    var pair := [a, b];
    assert pair[0] == a && pair[1] == b;
    PairIsAGroup(a, b);
    OptimizedByParts(lib, pair, optimized, r, tags, a.mask);
    FusionMeans(lib, pair, r);
  }

  /** Two rules of one mask under different tags: the second is lost, and its pattern moves to the first tag. */
  lemma SecondTagIsLost(lib: RegexLibrary, optimized: seq<NetworkFilter>)
    requires AreOptimized([PrefixRule("http://a.", Some("a"), 1), PrefixRule("http://b.", Some("b"), 2)], optimized)
    ensures var rules := [PrefixRule("http://a.", Some("a"), 1), PrefixRule("http://b.", Some("b"), 2)];
            && Sized(SiteB)
            && Accepts(lib, rules, SiteB, {"b"}, rules[0].mask)
            && !Accepts(lib, optimized, SiteB, {"b"}, rules[0].mask)
            && !Accepts(lib, rules, SiteB, {"a"}, rules[0].mask)
            && Accepts(lib, optimized, SiteB, {"a"}, rules[0].mask)
  {
    var a, b := PrefixRule("http://a.", Some("a"), 1), PrefixRule("http://b.", Some("b"), 2);
    PrefixRuleMatches(lib, "http://a.", Some("a"), 1);
    PrefixRuleMatches(lib, "http://b.", Some("b"), 2);
    assert !StartsWith(SiteB.url, "http://a.") by {
      assert SiteB.url[7] == 'b';
    }
    assert "a" != "b" by {
      assert "a"[0] != "b"[0];
    }
    PairTakesFirstTag(lib, a, b, optimized, SiteB, {"a"});
    PairTakesFirstTag(lib, a, b, optimized, SiteB, {"b"});
  }

  /** A library in which an open bracket does not compile and other text, between slashes, stands for itself. */
  const Strict := RegexLibrary(
    (p, anchors) => '(' !in p,
    (p, anchors, text) => |p| >= 2 && Find(text, p[1..|p| - 1]).Some?)

  /** `/b/$script` and its like. */
  function RegexRule(pattern: string, id: Hash): NetworkFilter {
    NetworkFilter(
      {IsCompleteRegex, FromScript, FromHttp, FromHttps, FirstParty, ThirdParty},
      Simple(pattern), None, None, None, None, None, None, id)
  }

  /** Two regex rules of one mask, the second of which does not compile: optimized, they accept nothing. */
  lemma PairIsSilenced(
    lib: RegexLibrary, a: NetworkFilter, b: NetworkFilter, optimized: seq<NetworkFilter>,
    r: Request, tags: set<string>)
    requires Sized(r) && AreOptimized([a, b], optimized)
    requires IsOptimizableByPatterns(a) && IsOptimizableByPatterns(b) && a.mask == b.mask && UsesRegex(a.mask)
    requires a.part.Simple? && b.part.Simple? && a.part.pattern != "" && b.part.pattern != ""
    requires !lib.compiles(b.part.pattern, AnchorsOf(b.mask))
    ensures !Accepts(lib, optimized, r, tags, a.mask)
  {
    var pair := [a, b];
    assert pair[0] == a && pair[1] == b && pair[..1] == [a] && [a][..0] == [];
    PairIsAGroup(a, b);
    assert FlatPatterns([a]) == [a.part.pattern];
    assert FlatPatterns(pair) == [a.part.pattern, b.part.pattern];
    assert b.part.pattern in FlatPatterns(pair);
    SilencedMatchesNothing(lib, pair, r);
    OptimizedByParts(lib, pair, optimized, r, tags, a.mask);
  }

  lemma SingleRegexMatches(lib: RegexLibrary, f: NetworkFilter, r: Request)
    requires Sized(r) && IsOptimizableByPatterns(f) && UsesRegex(f.mask) && f.part.Simple? && f.part.pattern != ""
    requires lib.compiles(f.part.pattern, AnchorsOf(f.mask))
    ensures FilterMatches(lib, f, r) <==>
              && CheckOptions(f.mask, r)
              && lib.isMatch(f.part.pattern, AnchorsOf(f.mask), GetUrl(r, MatchCase in f.mask))
  {
    var p := f.part.pattern;
    assert Patterns(f.part) == [p] && [p][0] == p;
    UnanchoredMatch(lib, f, r);
    PatternsAreAlternatives(lib, f.mask, [p], r);
  }

  lemma RulesAreSilenced(
    lib: RegexLibrary, good: string, bad: string, optimized: seq<NetworkFilter>, tags: set<string>)
    requires AreOptimized([RegexRule(good, 1), RegexRule(bad, 2)], optimized) && good != "" && bad != ""
    requires forall anchors :: lib.compiles(good, anchors) && lib.isMatch(good, anchors, SiteB.urlLower)
    requires forall anchors :: !lib.compiles(bad, anchors)
    ensures Sized(SiteB)
    ensures Accepts(lib, [RegexRule(good, 1), RegexRule(bad, 2)], SiteB, tags, RegexRule(good, 1).mask)
    ensures !Accepts(lib, optimized, SiteB, tags, RegexRule(good, 1).mask)
  {
    var a, b := RegexRule(good, 1), RegexRule(bad, 2);
    RegexRuleMatches(lib, good, 1);
    assert [a, b][0] == a;
    PairIsSilenced(lib, a, b, optimized, SiteB, tags);
  }

  /** `/b/` and `/(/`: optimizing takes the good rule down with the bad one. */
  lemma GoodRuleIsSilenced(optimized: seq<NetworkFilter>, tags: set<string>)
    requires AreOptimized([RegexRule("/b/", 1), RegexRule("/(/", 2)], optimized)
    ensures Sized(SiteB)
    ensures Accepts(Strict, [RegexRule("/b/", 1), RegexRule("/(/", 2)], SiteB, tags, RegexRule("/b/", 1).mask)
    ensures !Accepts(Strict, optimized, SiteB, tags, RegexRule("/b/", 1).mask)
  {
    GoodPatternMatches();
    BadDoesNotCompile();
    RulesAreSilenced(Strict, "/b/", "/(/", optimized, tags);
  }

  lemma BadDoesNotCompile()
    ensures "/(/" != "" && forall anchors :: !Strict.compiles("/(/", anchors)
  {
    assert "/(/"[1] == '(';
  }

  lemma RegexRuleMatches(lib: RegexLibrary, pattern: string, id: Hash)
    requires pattern != "" && lib.compiles(pattern, AnchorsOf(RegexRule(pattern, id).mask))
    requires lib.isMatch(pattern, AnchorsOf(RegexRule(pattern, id).mask), SiteB.urlLower)
    ensures Sized(SiteB) && FilterMatches(lib, RegexRule(pattern, id), SiteB)
  {
    var f := RegexRule(pattern, id);
    assert CheckOptions(f.mask, SiteB);
    SingleRegexMatches(lib, f, SiteB);
  }

  lemma GoodPatternMatches()
    ensures "/b/" != ""
    ensures forall anchors :: Strict.compiles("/b/", anchors) && Strict.isMatch("/b/", anchors, SiteB.urlLower)
  {
    assert "/b/"[1..2] == "b" && SiteB.urlLower[7..8] == "b";
    assert OccursAt(SiteB.urlLower, "b", 7);
  }
}
