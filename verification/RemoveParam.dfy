/** Rewriting a URL by `removeparam` rules. */
module RemoveParam {
  import opened Prelude
  import opened Text
  import opened Positions

  // ----- the formula -----

  datatype QParam = KeyOnly(key: string) | KeyValue(key: string, value: string)

  function ParseParam(piece: string): QParam {
    var i := FirstIndex(piece, '=');
    if i == |piece| then KeyOnly(piece) else KeyValue(piece[..i], piece[i + 1..])
  }

  function Show(param: QParam): string {
    match param
    case KeyOnly(k) => k
    case KeyValue(k, v) => k + "=" + v
  }

  lemma ShowParse(piece: string)
    ensures Show(ParseParam(piece)) == piece
  {
    var i := FirstIndex(piece, '=');
    if i < |piece| {
      assert piece == piece[..i] + [piece[i]] + piece[i + 1..];
    }
  }

  /** A named key with a non-empty value. */
  predicate Removed(piece: string, names: set<string>) {
    exists i :: 0 <= i < |piece| && piece[i] == '=' && '=' !in piece[..i]
      && piece[..i] in names && piece[i + 1..] != ""
  }

  lemma RemovedByParse(piece: string, names: set<string>)
    ensures Removed(piece, names) <==>
              var p := ParseParam(piece);
              p.KeyValue? && p.value != "" && p.key in names
  {
    var k := FirstIndex(piece, '=');
    forall i | 0 <= i < |piece| && piece[i] == '=' && '=' !in piece[..i] ensures i == k {
      FirstIndexIs(piece, '=', i);
    }
  }

  function Kept(pieces: seq<string>, names: set<string>): seq<string> {
    if pieces == [] then []
    else
      var n := |pieces| - 1;
      Kept(pieces[..n], names) + (if Removed(pieces[n], names) then [] else [pieces[n]])
  }

  predicate AnyRemoved(pieces: seq<string>, names: set<string>) {
    exists i :: 0 <= i < |pieces| && Removed(pieces[i], names)
  }

  /** The parts of a URL: before the first '?', the query up to the next '#', and the rest. */
  datatype Parts = Parts(prefix: string, query: string, fragment: string)

  function PartsOf(url: string): Option<Parts> {
    var i := FirstIndex(url, '?');
    if i == |url| then None
    else
      var tail := url[i + 1..];
      var j := FirstIndex(tail, '#');
      Some(Parts(url[..i], tail[..j], tail[j..]))
  }

  /** The rewritten URL, or nothing if no piece of the query is removed. */
  function Rewritten(url: string, names: set<string>): Option<string> {
    var parts := PartsOf(url);
    if parts.None? then None
    else
      var pieces := Split(parts.value.query, '&');
      if !AnyRemoved(pieces, names) then None
      else
        var query := Join(Kept(pieces, names), '&');
        Some(Assembled(parts.value, query))
  }

  /** The URL with a new query; an empty one leaves no '?' behind. */
  function Assembled(parts: Parts, query: string): string {
    parts.prefix + (if query == "" then "" else "?" + query) + parts.fragment
  }

  // ----- the loops -----

  /** The names that the matched filters carry. */
  function Names(options: seq<Option<string>>): set<string> {
    set o | o in options && o.Some? :: o.value
  }

  function ShowKept(params: seq<(QParam, bool)>): seq<string> {
    if params == [] then []
    else
      var n := |params| - 1;
      ShowKept(params[..n]) + (if params[n].1 then [Show(params[n].0)] else [])
  }

  lemma {:induction false} ShowKeptIsKept(params: seq<(QParam, bool)>, pieces: seq<string>, names: set<string>)
    requires |params| == |pieces|
    requires forall i :: 0 <= i < |pieces| ==>
               params[i].0 == ParseParam(pieces[i]) && params[i].1 == !Removed(pieces[i], names)
    ensures ShowKept(params) == Kept(pieces, names)
  {
    if pieces != [] {
      var n := |pieces| - 1;
      ShowKeptIsKept(params[..n], pieces[..n], names);
      ShowParse(pieces[n]);
    }
  }

  method ApplyRemoveParam(url: string, options: seq<Option<string>>) returns (rewritten: Option<string>)
    ensures rewritten == Rewritten(url, Names(options))
  {
    var i := FirstIndex(url, '?');
    if i == |url| {
      return None;
    }
    var paramsStart := i + 1;
    var hashIndex := paramsStart + FirstIndex(url[paramsStart..], '#');
    var pieces := Split(url[paramsStart..hashIndex], '&');
    assert url[paramsStart..hashIndex] == url[paramsStart..][..hashIndex - paramsStart];
    assert url[hashIndex..] == url[paramsStart..][hashIndex - paramsStart..];
    var params, rewrite := FlagAll(pieces, options);
    if rewrite {
      ShowKeptIsKept(params, pieces, Names(options));
      var p := Join(ShowKept(params), '&');
      var newParamStr := if p == "" then "" else "?" + p;
      return Some(url[..i] + newParamStr + url[hashIndex..]);
    }
    return None;
  }

  /** The loop over the matched filters. */
  method FlagAll(pieces: seq<string>, options: seq<Option<string>>) returns (params: seq<(QParam, bool)>, rewrite: bool)
    ensures Flagged(params, pieces, Names(options)) && (rewrite <==> AnyRemoved(pieces, Names(options)))
  {
    params := seq(|pieces|, n requires 0 <= n < |pieces| => (ParseParam(pieces[n]), true));
    rewrite := false;
    for k := 0 to |options|
      invariant Flagged(params, pieces, Names(options[..k]))
      invariant rewrite <==> AnyRemoved(pieces, Names(options[..k]))
    {
      assert options[..k + 1] == options[..k] + [options[k]];
      if options[k].Some? {
        assert Names(options[..k + 1]) == Names(options[..k]) + {options[k].value};
        params, rewrite := FlagOne(params, rewrite, options[k].value, pieces, Names(options[..k]));
      } else {
        assert Names(options[..k + 1]) == Names(options[..k]);
      }
    }
    assert options[..|options|] == options;
  }

  /** Each parameter is flagged for inclusion unless one of the names removes it. */
  ghost predicate Flagged(params: seq<(QParam, bool)>, pieces: seq<string>, names: set<string>) {
    && |params| == |pieces|
    && forall i :: 0 <= i < |pieces| ==>
         params[i].0 == ParseParam(pieces[i]) && params[i].1 == !Removed(pieces[i], names)
  }

  /** One pass over the parameters, for one name. */
  method FlagOne(
    params: seq<(QParam, bool)>, rewrite: bool, name: string, ghost pieces: seq<string>, ghost names: set<string>)
    returns (flagged: seq<(QParam, bool)>, rewritten: bool)
    requires Flagged(params, pieces, names) && (rewrite <==> AnyRemoved(pieces, names))
    ensures Flagged(flagged, pieces, names + {name}) && (rewritten <==> AnyRemoved(pieces, names + {name}))
  {
    flagged, rewritten := params, rewrite;
    for n := 0 to |params|
      invariant |flagged| == |params|
      invariant forall i :: 0 <= i < |params| ==> flagged[i].0 == params[i].0
      invariant forall i :: 0 <= i < |params| ==>
                  flagged[i].1 == !Removed(pieces[i], if i < n then names + {name} else names)
      invariant rewritten <==> AnyRemoved(pieces, names) || AnyRemoved(pieces[..n], names + {name})
    {
      var param := flagged[n].0;
      RemovedByParse(pieces[n], names);
      RemovedByParse(pieces[n], names + {name});
      assert pieces[..n + 1][..n] == pieces[..n];
      assert AnyRemoved(pieces[..n + 1], names + {name}) <==>
          AnyRemoved(pieces[..n], names + {name}) || Removed(pieces[n], names + {name});
      if param.KeyValue? && param.value != "" && param.key == name {
        flagged := flagged[n := (param, false)];
        rewritten := true;
      }
    }
    assert pieces[..|pieces|] == pieces;
    if AnyRemoved(pieces, names) {
      var i :| 0 <= i < |pieces| && Removed(pieces[i], names);
      RemovedByParse(pieces[i], names);
      RemovedByParse(pieces[i], names + {name});
    }
  }

  // ----- which pieces are kept, by their positions -----

  /** The positions of the pieces that are not removed, in order. */
  ghost predicate AreKeptAt(at: seq<nat>, pieces: seq<string>, names: set<string>) {
    ArePositions(at, pieces, piece => !Removed(piece, names))
  }

  lemma {:induction false} KeptAreFiltered(pieces: seq<string>, names: set<string>)
    ensures Kept(pieces, names) == Filtered(pieces, piece => !Removed(piece, names))
  {
    if pieces != [] {
      KeptAreFiltered(pieces[..|pieces| - 1], names);
    }
  }

  lemma KeptArePicked(at: seq<nat>, pieces: seq<string>, names: set<string>)
    requires AreKeptAt(at, pieces, names)
    ensures Kept(pieces, names) == Picked(pieces, at)
  {
    KeptAreFiltered(pieces, names);
    FilteredArePicked(at, pieces, piece => !Removed(piece, names));
  }

  // ----- the rewriting, piece by piece -----

  /** A URL with a query, in pieces: no '?' before it, no '#' in it and no '&' in a piece. */
  ghost predicate IsQuery(prefix: string, pieces: seq<string>, fragment: string) {
    && '?' !in prefix && pieces != [] && (fragment == "" || fragment[0] == '#')
    && forall i :: 0 <= i < |pieces| ==> '&' !in pieces[i] && '#' !in pieces[i]
  }

  function WithQuery(prefix: string, pieces: seq<string>, fragment: string): string {
    prefix + "?" + Join(pieces, '&') + fragment
  }

  /** Every URL with a '?' is of this form. */
  lemma QueryInPieces(url: string) returns (prefix: string, pieces: seq<string>, fragment: string)
    requires '?' in url
    ensures IsQuery(prefix, pieces, fragment) && url == WithQuery(prefix, pieces, fragment)
  {
    var i := FirstIndex(url, '?');
    assert url[..|url|] == url;
    var tail := url[i + 1..];
    var j := FirstIndex(tail, '#');
    prefix, fragment := url[..i], tail[j..];
    pieces := QueryPieces(tail[..j]);
    PartsTogether(url, i, j);
  }

  lemma QueryPieces(query: string) returns (pieces: seq<string>)
    requires '#' !in query
    ensures pieces != [] && query == Join(pieces, '&')
    ensures forall i :: 0 <= i < |pieces| ==> '&' !in pieces[i] && '#' !in pieces[i]
  {
    SplitPieces(query, '&');
    pieces := Split(query, '&');
  }

  lemma PartsTogether(url: string, i: nat, j: nat)
    requires i < |url| && url[i] == '?' && i + 1 + j <= |url|
    ensures url == url[..i] + "?" + url[i + 1..][..j] + url[i + 1..][j..]
  {
    var tail := url[i + 1..];
    assert tail == tail[..j] + tail[j..];
    assert url == url[..i] + "?" + tail;
  }

  /**
   * A query of which every piece is kept is not rewritten. Otherwise the pieces that are not removed,
   * in their order, are the new query; if there is none, or only an empty one, the '?' goes too.
   */
  lemma RewritingPicks(prefix: string, pieces: seq<string>, fragment: string, names: set<string>, at: seq<nat>)
    requires IsQuery(prefix, pieces, fragment) && AreKeptAt(at, pieces, names)
    ensures Rewritten(WithQuery(prefix, pieces, fragment), names) ==
            if (forall i :: 0 <= i < |pieces| ==> !Removed(pieces[i], names)) then None
            else
              var kept := Picked(pieces, at);
              Some(if kept == [] || kept == [""] then prefix + fragment else WithQuery(prefix, kept, fragment))
  {
    JoinHasNo(pieces, '&', '#');
    PartsOfJoined(prefix, Join(pieces, '&'), fragment);
    SplitOfJoin(pieces, '&');
    KeptArePicked(at, pieces, names);
    JoinIsEmpty(Picked(pieces, at), '&');
    AssembledAs(Parts(prefix, Join(pieces, '&'), fragment), Join(Picked(pieces, at), '&'));
  }

  lemma AssembledAs(parts: Parts, query: string)
    ensures Assembled(parts, query) ==
            if query == "" then parts.prefix + parts.fragment else parts.prefix + "?" + query + parts.fragment
  {
    assert parts.prefix + "" == parts.prefix;
    assert parts.prefix + ("?" + query) == parts.prefix + "?" + query;
  }

  lemma JoinIsEmpty(pieces: seq<string>, c: char)
    ensures Join(pieces, c) == "" <==> pieces == [] || pieces == [""]
  {
  }

  lemma NothingToRewrite(url: string, names: set<string>)
    requires '?' !in url
    ensures Rewritten(url, names) == None
  {
    FirstIndexAt(url, '?', "");
  }

  // ----- applying the names again -----

  lemma {:induction false} KeptIsClean(pieces: seq<string>, names: set<string>, c: char)
    ensures !AnyRemoved(Kept(pieces, names), names)
    ensures (forall i :: 0 <= i < |pieces| ==> c !in pieces[i]) ==>
              forall i :: 0 <= i < |Kept(pieces, names)| ==> c !in Kept(pieces, names)[i]
  {
    if pieces != [] {
      KeptIsClean(pieces[..|pieces| - 1], names, c);
    }
  }

  lemma {:induction false} JoinHasNo(pieces: seq<string>, c: char, d: char)
    requires c != d && forall i :: 0 <= i < |pieces| ==> d !in pieces[i]
    ensures d !in Join(pieces, c)
  {
    if |pieces| > 1 {
      JoinHasNo(pieces[1..], c, d);
    }
  }

  /** A URL with a known prefix and query falls apart again. */
  lemma PartsOfJoined(prefix: string, query: string, fragment: string)
    requires '?' !in prefix && '#' !in query && (fragment == "" || fragment[0] == '#')
    ensures PartsOf(prefix + "?" + query + fragment) == Some(Parts(prefix, query, fragment))
  {
    var tail := query + fragment;
    var url := prefix + "?" + tail;
    assert prefix + "?" + query + fragment == url;
    FirstIndexAt(prefix, '?', tail);
    assert url[..|prefix|] == prefix && url[|prefix| + 1..] == tail;
    if fragment == "" {
      assert tail == query;
      FirstIndexAt(query, '#', "");
    } else {
      assert tail == query + ['#'] + fragment[1..];
      FirstIndexAt(query, '#', fragment[1..]);
    }
    assert tail[..|query|] == query && tail[|query|..] == fragment;
  }

  /** What is kept is a query again: no '#' in it, and no '&' in its pieces. */
  lemma KeptIsQuery(query: string, names: set<string>)
    requires '#' !in query
    ensures var kept := Kept(Split(query, '&'), names);
            && '#' !in Join(kept, '&')
            && (Join(kept, '&') != "" ==> Split(Join(kept, '&'), '&') == kept)
            && !AnyRemoved(kept, names)
  {
    var pieces := Split(query, '&');
    var kept := Kept(pieces, names);
    SplitPieces(query, '&');
    forall i | 0 <= i < |pieces| ensures '#' !in pieces[i] {
    }
    KeptIsClean(pieces, names, '&');
    KeptIsClean(pieces, names, '#');
    JoinHasNo(kept, '&', '#');
    if Join(kept, '&') != "" {
      SplitOfJoin(kept, '&');
    }
  }

  /** The pieces kept are the pieces of the new query, in order, and the rest is untouched. */
  lemma RewritingKeepsTheRest(url: string, names: set<string>)
    requires Rewritten(url, names).Some?
    ensures var before := PartsOf(url).value;
            var kept := Kept(Split(before.query, '&'), names);
            var query := Join(kept, '&');
            if query == "" then Rewritten(url, names).value == before.prefix + before.fragment
            else PartsOf(Rewritten(url, names).value) == Some(Parts(before.prefix, query, before.fragment))
                 && Split(query, '&') == kept
  {
    var parts := PartsOf(url).value;
    KeptIsQuery(parts.query, names);
    AssembledParts(parts, Join(Kept(Split(parts.query, '&'), names), '&'));
  }

  lemma AssembledParts(parts: Parts, query: string)
    requires '?' !in parts.prefix && '#' !in query && (parts.fragment == "" || parts.fragment[0] == '#')
    ensures if query == "" then Assembled(parts, query) == parts.prefix + parts.fragment
            else PartsOf(Assembled(parts, query)) == Some(Parts(parts.prefix, query, parts.fragment))
  {
    if query == "" {
      assert parts.prefix + "" == parts.prefix;
    } else {
      assert parts.prefix + ("?" + query) == parts.prefix + "?" + query;
      PartsOfJoined(parts.prefix, query, parts.fragment);
    }
  }

  lemma PartsAfterPrefix(prefix: string, fragment: string)
    requires '?' !in prefix
    ensures PartsOf(prefix + fragment).Some? <==> PartsOf(fragment).Some?
    ensures PartsOf(fragment).Some? ==> PartsOf(prefix + fragment).value.query == PartsOf(fragment).value.query
  {
    var url, k := prefix + fragment, FirstIndex(fragment, '?');
    assert url[..|prefix| + k] == prefix + fragment[..k];
    FirstIndexIs(url, '?', |prefix| + k);
    if k < |fragment| {
      assert url[|prefix| + k + 1..] == fragment[k + 1..];
    }
  }

  /**
   * Applying the same names again removes something exactly when the whole query went away and the
   * fragment has a '?' of its own with a named parameter after it.
   */
  lemma RewritingTwice(url: string, names: set<string>)
    requires Rewritten(url, names).Some?
    ensures var parts := PartsOf(url).value;
            Rewritten(Rewritten(url, names).value, names).Some? <==>
              && Join(Kept(Split(parts.query, '&'), names), '&') == ""
              && PartsOf(parts.fragment).Some?
              && AnyRemoved(Split(PartsOf(parts.fragment).value.query, '&'), names)
    ensures '?' !in PartsOf(url).value.fragment ==> Rewritten(Rewritten(url, names).value, names) == None
  {
    var parts := PartsOf(url).value;
    RewritingKeepsTheRest(url, names);
    KeptIsQuery(parts.query, names);
    PartsAfterPrefix(parts.prefix, parts.fragment);
    if '?' !in parts.fragment {
      FirstIndexAt(parts.fragment, '?', "");
    }
  }

  /** A query of which nothing is kept. */
  predicate Goes(query: string, names: set<string>) {
    '#' !in query && AnyRemoved(Split(query, '&'), names) && Kept(Split(query, '&'), names) == []
  }

  lemma QueryGoes(prefix: string, query: string, fragment: string, names: set<string>)
    requires '?' !in prefix && (fragment == "" || fragment[0] == '#') && Goes(query, names)
    ensures Rewritten(prefix + "?" + query + fragment, names) == Some(prefix + fragment)
  {
    PartsOfJoined(prefix, query, fragment);
    assert prefix + "" == prefix;
  }

  /** A fragment that repeats the query: the second time it is taken for the query and goes too. */
  lemma FragmentGoesToo(prefix: string, query: string, names: set<string>)
    requires '?' !in prefix && Goes(query, names)
    ensures Rewritten(prefix + "?" + query + ("#?" + query), names) == Some(prefix + ("#?" + query))
    ensures Rewritten(prefix + ("#?" + query), names) == Some(prefix + "#")
  {
    QueryGoes(prefix, query, "#?" + query, names);
    HashThenQuery(prefix, query);
    QueryGoes(prefix + "#", query, "", names);
  }

  lemma HashThenQuery(prefix: string, query: string)
    requires '?' !in prefix
    ensures prefix + "#" + "?" + query + "" == prefix + ("#?" + query)
    ensures prefix + "#" + "" == prefix + "#" && '?' !in prefix + "#"
  {
    assert "#?" == "#" + "?";
  }

  /** "x=1" alone goes under its name. */
  lemma OnlyParameter()
    ensures Goes("x=1", {"x"})
  {
    SplitFirst("x=1", '&', "");
    assert Removed("x=1", {"x"}) by {
      assert "x=1"[1] == '=' && '=' !in "x=1"[..1] && "x=1"[1 + 1..] == "1" && "x=1"[..1] == "x";
    }
    assert ["x=1"][0] == "x=1" && ["x=1"][..0] == [];
  }

  /** "http://a/?x=1#?x=1": rewriting the rewritten URL removes more. */
  lemma SecondTimeRemovesMore()
    ensures var url := "http://a/" + "?" + "x=1" + ("#?" + "x=1");
            Rewritten(url, {"x"}).Some? && Rewritten(Rewritten(url, {"x"}).value, {"x"}) == Some("http://a/" + "#")
  {
    OnlyParameter();
    FragmentGoesToo("http://a/", "x=1", {"x"});
  }

  // ----- where a named parameter stands -----

  lemma QueryIsPlaced(url: string)
    requires PartsOf(url).Some?
    ensures var parts := PartsOf(url).value;
            |parts.prefix| < |url| && url[|parts.prefix|] == '?' && OccursAt(url, parts.query, |parts.prefix| + 1)
  {
    var i := FirstIndex(url, '?');
    var query := PartsOf(url).value.query;
    assert url[i + 1..i + 1 + |query|] == url[i + 1..][..|query|];
  }

  /** A piece that is removed under one name is that name, '=' and more. */
  lemma RemovedPiece(piece: string, name: string)
    requires Removed(piece, {name})
    ensures OccursAt(piece, name, 0) && |name| < |piece| && piece[|name|] == '='
  {
    var i :| 0 <= i < |piece| && piece[i] == '=' && piece[..i] in {name};
    assert piece[0..|name|] == piece[..i];
  }

  lemma NamedPieceIsPlaced(url: string, query: string, start: nat, name: string, k: nat) returns (at: nat)
    requires OccursAt(url, query, start) && start > 0 && url[start - 1] == '?'
    requires k < |Split(query, '&')| && Removed(Split(query, '&')[k], {name})
    ensures at >= start && NamedAt(url, name, at)
  {
    var p := PieceIsPlaced(query, '&', k);
    PieceIsNamed(query, Split(query, '&')[k], name, p);
    NameInUrl(url, query, start, name, p);
    at := start + p;
  }

  /** The name of a parameter with a value, in a query or in a URL. */
  predicate NamedIn(query: string, name: string, p: nat) {
    && OccursAt(query, name, p) && p + |name| < |query| && query[p + |name|] == '='
    && (p == 0 || query[p - 1] == '&')
  }

  predicate NamedAt(url: string, name: string, at: nat) {
    && OccursAt(url, name, at) && at + |name| < |url| && url[at + |name|] == '='
    && at > 0 && url[at - 1] in {'?', '&'}
  }

  lemma PieceIsNamed(query: string, piece: string, name: string, p: nat)
    requires OccursAt(query, piece, p) && (p == 0 || query[p - 1] == '&') && Removed(piece, {name})
    ensures NamedIn(query, name, p)
  {
    RemovedPiece(piece, name);
    OccursWithin(query, piece, name, p, 0);
    CharWithin(query, piece, p, |name|);
  }

  lemma NameInUrl(url: string, query: string, start: nat, name: string, p: nat)
    requires NamedIn(query, name, p) && OccursAt(url, query, start) && start > 0 && url[start - 1] == '?'
    ensures NamedAt(url, name, start + p)
  {
    OccursWithin(url, query, name, start, p);
    CharWithin(url, query, start, p + |name|);
    if p > 0 {
      CharWithin(url, query, start, p - 1);
    }
  }

  lemma NamedInLower(url: string, name: string, at: nat)
    requires NamedAt(url, name, at)
    ensures NamedAt(Lower(url), Lower(name), at)
  {
    LowerOccurs(url, name, at);
  }

  // ----- names that change nothing -----

  lemma RemovedUnion(piece: string, a: set<string>, b: set<string>)
    ensures Removed(piece, a + b) <==> Removed(piece, a) || Removed(piece, b)
  {
    RemovedByParse(piece, a);
    RemovedByParse(piece, b);
    RemovedByParse(piece, a + b);
  }

  lemma {:induction false} KeptWithout(pieces: seq<string>, names: set<string>, more: set<string>)
    requires !AnyRemoved(pieces, more)
    ensures Kept(pieces, names + more) == Kept(pieces, names)
    ensures AnyRemoved(pieces, names + more) <==> AnyRemoved(pieces, names)
  {
    if pieces != [] {
      var n := |pieces| - 1;
      assert forall i :: 0 <= i < n ==> pieces[..n][i] == pieces[i];
      KeptWithout(pieces[..n], names, more);
      RemovedUnion(pieces[n], names, more);
      AnyRemovedLast(pieces, names);
      AnyRemovedLast(pieces, names + more);
    }
  }

  lemma AnyRemovedLast(pieces: seq<string>, names: set<string>)
    requires pieces != []
    ensures AnyRemoved(pieces, names) <==>
              AnyRemoved(pieces[..|pieces| - 1], names) || Removed(pieces[|pieces| - 1], names)
  {
    var front := pieces[..|pieces| - 1];
    if AnyRemoved(front, names) {
      var i :| 0 <= i < |front| && Removed(front[i], names);
      assert Removed(pieces[i], names);
    }
    assert forall i :: 0 <= i < |front| ==> front[i] == pieces[i];
  }

  /** Names that remove no piece do not change the rewriting. */
  lemma IdleNames(url: string, names: set<string>, more: set<string>)
    requires PartsOf(url).Some? ==> forall x :: x in more ==> !AnyRemoved(Split(PartsOf(url).value.query, '&'), {x})
    ensures Rewritten(url, names + more) == Rewritten(url, names)
  {
    if PartsOf(url).Some? {
      var pieces := Split(PartsOf(url).value.query, '&');
      if i :| 0 <= i < |pieces| && Removed(pieces[i], more) {
        RemovedByParse(pieces[i], more);
        var name := ParseParam(pieces[i]).key;
        RemovedByParse(pieces[i], {name});
        assert AnyRemoved(pieces, {name});
      }
      KeptWithout(pieces, names, more);
    }
  }
}
