/** Parsing the arguments of a `+js(...)` rule. */
module ScriptletArgs {
  import opened Prelude
  import opened Text

  // ----- white space -----

  predicate IsWhitespace(c: char) {
    var n := c as int;
    9 <= n <= 13 || n == 32 || n == 0x85 || n == 0xA0 || n == 0x1680 || 0x2000 <= n <= 0x200A
    || n == 0x2028 || n == 0x2029 || n == 0x202F || n == 0x205F || n == 0x3000
  }

  predicate Blank(s: string) {
    forall i :: 0 <= i < |s| ==> IsWhitespace(s[i])
  }

  /** Drops leading white space, unless there is nothing else. */
  function SkipBlank(s: string): (r: string)
    ensures |r| <= |s|
  {
    if Blank(s) then s else DropBlank(s)
  }

  function DropBlank(s: string): (r: string)
    ensures |r| <= |s|
  {
    if s != "" && IsWhitespace(s[0]) then DropBlank(s[1..]) else s
  }

  function TrimEnd(s: string): string {
    if s != "" && IsWhitespace(s[|s| - 1]) then TrimEnd(s[..|s| - 1]) else s
  }

  // ----- separators -----

  /** The number of backslashes right before position `i`. */
  function Backslashes(s: string, i: nat): (n: nat)
    requires i <= |s|
    ensures n <= i
  {
    if i > 0 && s[i - 1] == '\\' then 1 + Backslashes(s, i - 1) else 0
  }

  predicate Unescaped(s: string, separator: char, i: nat) {
    i < |s| && s[i] == separator && Backslashes(s, i) % 2 == 0
  }

  predicate Escaped(s: string, separator: char, i: nat) {
    i < |s| && s[i] == separator && Backslashes(s, i) % 2 == 1
  }

  /** The first unescaped separator at or after `from`. */
  function NextUnescaped(s: string, separator: char, from: nat): (r: Option<nat>)
    ensures r.Some? ==> from <= r.value && Unescaped(s, separator, r.value)
    ensures r.Some? ==> forall i :: from <= i < r.value ==> !Unescaped(s, separator, i)
    ensures r.None? ==> forall i :: from <= i ==> !Unescaped(s, separator, i)
    decreases |s| - from
  {
    if from >= |s| then None
    else if Unescaped(s, separator, from) then Some(from)
    else NextUnescaped(s, separator, from + 1)
  }

  /** Is a separator escaped before the first unescaped one? */
  predicate NeedsTransform(s: string, separator: char) {
    var next := NextUnescaped(s, separator, 0);
    exists i :: 0 <= i < (if next.Some? then next.value else |s|) && Escaped(s, separator, i)
  }

  /** Counting within a suffix that starts right after a separator is counting in the whole text. */
  lemma {:induction false} BackslashesInSuffix(s: string, from: nat, i: nat)
    requires from + i <= |s| && (from == 0 || s[from - 1] != '\\')
    ensures Backslashes(s[from..], i) == Backslashes(s, from + i)
  {
    if i > 0 && s[from + i - 1] == '\\' {
      BackslashesInSuffix(s, from, i - 1);
    }
  }

  /**
   * The least separator preceded by an even run of backslashes, and whether an escaped one comes
   * before it. The search goes on only past an odd run, and then moves forward.
   */
  method IndexNextUnescapedSeparator(s: string, separator: char) returns (index: Option<nat>, needsTransform: bool)
    requires separator != '\\'
    ensures index == NextUnescaped(s, separator, 0)
    ensures needsTransform <==> NeedsTransform(s, separator)
  {
    var newArgEnd := 0;
    needsTransform := false;
    while newArgEnd < |s|
      invariant newArgEnd <= |s| && (newArgEnd == 0 || s[newArgEnd - 1] == separator)
      invariant forall i :: 0 <= i < newArgEnd ==> !Unescaped(s, separator, i)
      invariant needsTransform <==> exists i :: 0 <= i < newArgEnd && Escaped(s, separator, i)
      decreases |s| - newArgEnd
    {
      var rest := s[newArgEnd..];
      var i := FirstIndex(rest, separator);
      forall k | newArgEnd <= k < newArgEnd + i ensures s[k] != separator {
        assert s[k] == rest[..i][k - newArgEnd];
      }
      if i == |rest| {
        return None, needsTransform;
      }
      var trailing := CountTrailing(rest, i);
      BackslashesInSuffix(s, newArgEnd, i);
      if trailing % 2 == 0 {
        newArgEnd := newArgEnd + i;
        assert Unescaped(s, separator, newArgEnd);
        return Some(newArgEnd), needsTransform;
      }
      assert Escaped(s, separator, newArgEnd + i);
      newArgEnd := newArgEnd + i + 1;
      needsTransform := true;
    }
    index := None;
  }

  method CountTrailing(rest: string, i: nat) returns (trailing: nat)
    requires i <= |rest|
    ensures trailing == Backslashes(rest, i)
  {
    trailing := 0;
    while trailing < i && rest[i - trailing - 1] == '\\'
      invariant trailing <= i
      invariant Backslashes(rest, i) == trailing + Backslashes(rest, i - trailing)
    {
      trailing := trailing + 1;
    }
  }

  // ----- normalizing -----

  /** What one character adds to the output. */
  function Emitted(c: char, separator: char, escaped: bool): string {
    if c == '\\' then (if escaped then "\\\\" else "")
    else if escaped && c != separator then ['\\', c]
    else [c]
  }

  /** Unescapes commas (or whatever the separator is) and nothing else; a backslash may be pending. */
  function Normalized(arg: string, separator: char, escaped: bool): string {
    if arg == "" then ""
    else Emitted(arg[0], separator, escaped) + Normalized(arg[1..], separator, arg[0] == '\\' && !escaped)
  }

  method NormalizeArg(arg: string, separator: char) returns (output: string)
    requires separator != '\\'
    ensures output == Normalized(arg, separator, false)
  {
    output := "";
    var escaped := false;
    assert arg[0..] == arg;
    for i := 0 to |arg|
      invariant output + Normalized(arg[i..], separator, escaped) == Normalized(arg, separator, false)
    {
      var c := arg[i];
      ghost var before, was := output, escaped;
      if c == '\\' {
        if escaped {
          escaped := false;
          output := output + "\\\\";
        } else {
          escaped := true;
        }
      } else {
        if escaped {
          if c != separator {
            output := output + "\\";
          }
          escaped := false;
        }
        output := output + [c];
      }
      assert output == before + Emitted(c, separator, was);
      assert arg[i..][1..] == arg[i + 1..];
      Regroup(before, Emitted(c, separator, was), Normalized(arg[i + 1..], separator, escaped));
    }
  }

  // ----- parsing -----

  function Argument(text: string, needsTransform: bool): string {
    if needsTransform then Normalized(text, ',', false) else text
  }

  datatype Round = Done | Malformed | Took(arg: string, rest: string)

  predicate IsQuote(c: char) {
    c == '"' || c == '\'' || c == '`'
  }

  /** One round of the loop. */
  function NextRound(input: string): (r: Round)
    ensures r.Took? ==> |r.rest| < |input|
  {
    var args := SkipBlank(input);
    if args == "" then Done
    else if IsQuote(args[0]) then NextQuoted(args[1..], args[0])
    else NextPlain(args)
  }

  /** After a quote; whatever the quote is, only commas are unescaped. */
  function NextQuoted(quoted: string, quote: char): (r: Round)
    ensures r.Took? ==> |r.rest| <= |quoted|
  {
    var end := NextUnescaped(quoted, quote, 0);
    if end.None? then Malformed
    else
      var after := SkipBlank(quoted[end.value + 1..]);
      if after != "" && after[0] != ',' then Malformed
      else Took(Argument(quoted[..end.value], NeedsTransform(quoted, quote)), if after == "" then "" else after[1..])
  }

  /** Up to the next comma. */
  function NextPlain(args: string): (r: Round)
    requires args != ""
    ensures r.Took? ==> |r.rest| < |args|
  {
    var end := NextUnescaped(args, ',', 0);
    Took(Argument(TrimEnd(args[..if end.Some? then end.value else |args|]), NeedsTransform(args, ',')),
         if end.Some? then args[end.value + 1..] else "")
  }

  /** What the loop makes of the rest of the input. */
  function ParseFrom(input: string): Option<seq<string>>
    decreases |input|
  {
    match NextRound(input)
    case Done => Some([])
    case Malformed => None
    case Took(arg, rest) => Prepended([arg], ParseFrom(rest))
  }

  function Parse(args: string): Option<seq<string>> {
    if Blank(args) then Some([]) else ParseFrom(args)
  }

  /** The body of the loop: one argument, quoted or up to the next comma. */
  method ReadArgument(args: string) returns (round: Round)
    ensures round == NextRound(args)
  {
    var start := SkipBlank(args);
    if start == "" {
      return Done;
    }
    if start[0] == '"' || start[0] == '\'' || start[0] == '`' {
      round := ReadQuoted(start[1..], start[0]);
    } else {
      round := ReadPlain(start);
    }
  }

  method ReadQuoted(quoted: string, qc: char) returns (round: Round)
    requires IsQuote(qc)
    ensures round == NextQuoted(quoted, qc)
  {
    var i, needsTransform := IndexNextUnescapedSeparator(quoted, qc);
    if i.None? {
      return Malformed;
    }
    var after := SkipBlank(quoted[i.value + 1..]);
    if after != "" && after[0] != ',' {
      return Malformed;
    }
    var arg := NormalizeWhen(needsTransform, quoted[..i.value]);
    round := Took(arg, if after == "" then "" else after[1..]);
  }

  method ReadPlain(args: string) returns (round: Round)
    requires args != ""
    ensures round == NextPlain(args)
  {
    var i, needsTransform := IndexNextUnescapedSeparator(args, ',');
    var arg := NormalizeWhen(needsTransform, TrimEnd(args[..if i.Some? then i.value else |args|]));
    round := Took(arg, if i.Some? then args[i.value + 1..] else "");
  }

  /** The loop; each round consumes at least one character. */
  method ParseScriptletArgs(input: string) returns (parsed: Option<seq<string>>)
    ensures parsed == Parse(input)
  {
    var list: seq<string> := [];
    if Blank(input) {
      return Some(list);
    }
    var args := input;
    PrependedTwice(list, list, ParseFrom(input));
    while true
      invariant ParseFrom(input) == Prepended(list, ParseFrom(args))
      decreases |args|
    {
      var round := ReadArgument(args);
      match round
      case Done =>
        assert list + [] == list;
        return Some(list);
      case Malformed =>
        return None;
      case Took(arg, rest) =>
        PrependedTwice(list, [arg], ParseFrom(rest));
        list, args := list + [arg], rest;
    }
  }

  method NormalizeWhen(needsTransform: bool, text: string) returns (arg: string)
    ensures arg == Argument(text, needsTransform)
  {
    arg := text;
    if needsTransform {
      arg := NormalizeArg(text, ',');
    }
  }

  // ----- the round trip -----

  /** Commas are written "\,". */
  function Escape(arg: string): string {
    if arg == "" then "" else Escape(arg[..|arg| - 1]) + EscapeChar(arg[|arg| - 1])
  }

  function EscapeChar(c: char): string {
    if c == ',' then "\\," else [c]
  }

  function Escapes(args: seq<string>): seq<string> {
    seq(|args|, i requires 0 <= i < |args| => Escape(args[i]))
  }

  /** Non-empty, trimmed, without backslash, and not starting with a quote. */
  predicate Simple(arg: string) {
    && arg != "" && !IsWhitespace(arg[0]) && !IsWhitespace(arg[|arg| - 1])
    && '\\' !in arg && !IsQuote(arg[0])
  }

  predicate OneBackslashEach(e: string) {
    forall i :: 0 <= i < |e| && e[i] == ',' ==> Backslashes(e, i) == 1
  }

  /** In an escaped argument every comma has exactly one backslash before it. */
  lemma {:induction false} EscapeShape(arg: string)
    requires '\\' !in arg
    ensures arg != "" ==> Escape(arg) != "" && Escape(arg)[|Escape(arg)| - 1] == arg[|arg| - 1]
    ensures arg != "" ==> Escape(arg)[0] == if arg[0] == ',' then '\\' else arg[0]
    ensures OneBackslashEach(Escape(arg))
    ensures ',' !in arg ==> Escape(arg) == arg
    ensures ',' in arg <==> ',' in Escape(arg)
  {
    if arg != "" {
      var n := |arg| - 1;
      var front, e := arg[..n], Escape(arg);
      assert arg == front + [arg[n]];
      EscapeShape(front);
      var f := Escape(front);
      forall i | 0 <= i < |e| && e[i] == ',' ensures Backslashes(e, i) == 1 {
        if i < |f| {
          BackslashesInPrefix(f, e, i);
        } else {
          assert arg[n] == ',' && i == |f| + 1 && e[i - 1] == '\\';
          assert f != "" ==> e[|f| - 1] == f[|f| - 1] == front[n - 1] != '\\';
          assert Backslashes(e, |f|) == 0;
        }
      }
      assert e == f + EscapeChar(arg[n]);
    }
  }

  lemma {:induction false} BackslashesInPrefix(a: string, b: string, i: nat)
    requires a <= b && i <= |a|
    ensures Backslashes(a, i) == Backslashes(b, i)
  {
    if i > 0 {
      BackslashesInPrefix(a, b, i - 1);
    }
  }

  /** Is a backslash pending at the end? */
  predicate Pending(arg: string, escaped: bool) {
    if arg == "" then escaped else Pending(arg[1..], arg[0] == '\\' && !escaped)
  }

  lemma {:induction false} NormalizeConcat(a: string, b: string, separator: char, escaped: bool)
    ensures Normalized(a + b, separator, escaped)
            == Normalized(a, separator, escaped) + Normalized(b, separator, Pending(a, escaped))
    ensures Pending(a + b, escaped) == Pending(b, Pending(a, escaped))
  {
    if a == "" {
      assert a + b == b;
    } else {
      var next := a[0] == '\\' && !escaped;
      assert (a + b)[1..] == a[1..] + b;
      NormalizeConcat(a[1..], b, separator, next);
      Regroup(Emitted(a[0], separator, escaped), Normalized(a[1..], separator, next),
              Normalized(b, separator, Pending(a, escaped)));
    }
  }

  /** Normalizing undoes escaping. */
  lemma {:induction false} NormalizeEscape(arg: string)
    requires '\\' !in arg
    ensures Normalized(Escape(arg), ',', false) == arg && !Pending(Escape(arg), false)
  {
    if arg != "" {
      var n := |arg| - 1;
      var front, last := arg[..n], EscapeChar(arg[n]);
      assert arg == front + [arg[n]] && arg[n] in arg;
      NormalizeEscape(front);
      NormalizeConcat(Escape(front), last, ',', false);
      NormalizeEscapedChar(arg[n]);
    }
  }

  lemma NormalizeEscapedChar(c: char)
    requires c != '\\'
    ensures Normalized(EscapeChar(c), ',', false) == [c] && !Pending(EscapeChar(c), false)
  {
    var e := EscapeChar(c);
    if c == ',' {
      assert e[1..] == "," && e[1..][1..] == "";
      assert Normalized(e[1..], ',', true) == "," + "";
      assert !Pending(e[1..], true);
    } else {
      assert e[1..] == "";
      assert Normalized(e, ',', false) == [c] + "";
    }
  }

  /** `s` is an escaped argument, alone or followed by a comma and more. */
  predicate Leads(e: string, s: string) {
    s == e || (|e| < |s| && s[..|e|] == e && s[|e|] == ',')
  }

  /** Inside an escaped argument every comma is escaped, whatever follows. */
  lemma CommasAreEscaped(arg: string, s: string)
    requires Simple(arg) && Escape(arg) <= s
    ensures forall i :: 0 <= i < |Escape(arg)| ==> !Unescaped(s, ',', i)
    ensures ',' in arg <==> exists i :: 0 <= i < |Escape(arg)| && Escaped(s, ',', i)
  {
    EscapeShape(arg);
    CommasStayEscaped(Escape(arg), s);
  }

  lemma CommasStayEscaped(e: string, s: string)
    requires OneBackslashEach(e) && e <= s
    ensures forall i :: 0 <= i < |e| ==> !Unescaped(s, ',', i)
    ensures ',' in e <==> exists i :: 0 <= i < |e| && Escaped(s, ',', i)
  {
    forall i | 0 <= i < |e| && s[i] == ',' ensures Backslashes(s, i) == 1 {
      BackslashesInPrefix(e, s, i);
    }
    if ',' in e {
      var i :| 0 <= i < |e| && e[i] == ',';
      assert Escaped(s, ',', i);
    }
  }

  /** The search stops at the comma that follows an escaped argument. */
  lemma SearchSkipsEscaped(arg: string, s: string)
    requires Simple(arg) && Leads(Escape(arg), s)
    ensures NextUnescaped(s, ',', 0) == if s == Escape(arg) then None else Some(|Escape(arg)|)
    ensures NeedsTransform(s, ',') <==> ',' in arg
  {
    var e := Escape(arg);
    assert e <= s;
    CommasAreEscaped(arg, s);
    if s != e {
      EscapeShape(arg);
      assert arg[|arg| - 1] in arg && s[|e| - 1] == e[|e| - 1];
      assert Unescaped(s, ',', |e|);
    }
  }

  /** One round of the loop at an unquoted argument. */
  lemma PlainRound(s: string, end: Option<nat>, text: string)
    requires s != "" && !IsWhitespace(s[0]) && !IsQuote(s[0])
    requires end == NextUnescaped(s, ',', 0)
    requires text == Argument(TrimEnd(s[..if end.Some? then end.value else |s|]), NeedsTransform(s, ','))
    ensures NextRound(s) == Took(text, if end.Some? then s[end.value + 1..] else "")
  {
    SkipsNothing(s);
  }

  lemma EscapedEnds(arg: string)
    requires Simple(arg)
    ensures Escape(arg) != "" && !IsWhitespace(Escape(arg)[0]) && !IsQuote(Escape(arg)[0])
    ensures TrimEnd(Escape(arg)) == Escape(arg)
    ensures ',' !in arg ==> Escape(arg) == arg
  {
    EscapeShape(arg);
  }

  lemma EscapeIsAnArgument(arg: string)
    requires Simple(arg)
    ensures Argument(Escape(arg), ',' in arg) == arg
  {
    NormalizeEscape(arg);
    EscapeShape(arg);
  }

  /** One argument is read back and the rest of the input is left. */
  lemma ReadsEscaped(arg: string, s: string)
    requires Simple(arg) && Leads(Escape(arg), s)
    ensures NextRound(s) == Took(arg, if s == Escape(arg) then "" else s[|Escape(arg)| + 1..])
  {
    var e := Escape(arg);
    EscapedEnds(arg);
    SearchSkipsEscaped(arg, s);
    EscapeIsAnArgument(arg);
    assert s[..|e|] == e && s[0] == e[0];
    PlainRound(s, if s == e then None else Some(|e|), arg);
  }

  /**
   * Escaping the commas and joining with commas is undone by parsing, for every list of trimmed,
   * non-empty, backslash-free arguments that do not start with a quote.
   */
  lemma {:induction false} ArgumentsRoundTrip(args: seq<string>)
    requires forall i :: 0 <= i < |args| ==> Simple(args[i])
    ensures Parse(Join(Escapes(args), ',')) == Some(args)
  {
    if args != [] {
      var s := Join(Escapes(args), ',');
      EscapedEnds(args[0]);
      assert s[0] == Escape(args[0])[0];
      JoinedParses(args);
    }
  }

  lemma {:induction false} JoinedParses(args: seq<string>)
    requires args != [] && forall i :: 0 <= i < |args| ==> Simple(args[i])
    ensures ParseFrom(Join(Escapes(args), ',')) == Some(args)
  {
    if |args| == 1 {
      ReadsEscaped(args[0], Escape(args[0]));
      assert ParseFrom("") == Some([]) && args == [args[0]] + [];
    } else {
      var rest := args[1..];
      JoinsOn(args);
      ReadsEscapedThenRest(args[0], Join(Escapes(rest), ','));
      JoinedParses(rest);
      assert args == [args[0]] + rest;
    }
  }

  lemma JoinsOn(args: seq<string>)
    requires |args| > 1
    ensures Join(Escapes(args), ',') == Escape(args[0]) + [','] + Join(Escapes(args[1..]), ',')
  {
    assert Escapes(args)[1..] == Escapes(args[1..]);
  }

  lemma ReadsEscapedThenRest(arg: string, rest: string)
    requires Simple(arg)
    ensures ParseFrom(Escape(arg) + [','] + rest) == Prepended([arg], ParseFrom(rest))
  {
    var e := Escape(arg);
    var s := e + [','] + rest;
    assert s[..|e|] == e && s[|e| + 1..] == rest;
    ReadsEscaped(arg, s);
  }

  // ----- quoted arguments -----

  function Quoted(arg: string, quote: char): string {
    [quote] + arg + [quote]
  }

  function QuotedAll(args: seq<string>, quote: char): seq<string> {
    seq(|args|, i requires 0 <= i < |args| => Quoted(args[i], quote))
  }

  /** Inside the quotes every quote is escaped, and the closing one is not. */
  predicate Closed(text: string, quote: char) {
    NextUnescaped(text + [quote], quote, 0) == Some(|text|)
  }

  predicate HasEscaped(text: string, quote: char) {
    exists i :: 0 <= i < |text| && Escaped(text, quote, i)
  }

  /** What a quoted text stands for: itself, but if it holds an escaped quote its escaped commas are unescaped. */
  function Unquoted(text: string, quote: char): string {
    Argument(text, HasEscaped(text, quote))
  }

  function UnquotedAll(texts: seq<string>, quote: char): seq<string> {
    seq(|texts|, i requires 0 <= i < |texts| => Unquoted(texts[i], quote))
  }

  lemma ClosedEnds(text: string, quote: char, tail: string)
    requires Closed(text, quote)
    ensures NextUnescaped(text + [quote] + tail, quote, 0) == Some(|text|)
    ensures NeedsTransform(text + [quote] + tail, quote) <==> HasEscaped(text, quote)
  {
    var closed, s := text + [quote], text + [quote] + tail;
    forall i | 0 <= i <= |text|
      ensures Unescaped(s, quote, i) <==> Unescaped(closed, quote, i)
      ensures i < |text| ==> (Escaped(s, quote, i) <==> Escaped(text, quote, i))
    {
      BackslashesInPrefix(closed, s, i);
      BackslashesInPrefix(text, s, i);
    }
  }

  /** A round that starts with a quote, by where the quote ends. */
  lemma QuotedNext(s: string, end: nat)
    requires s != "" && IsQuote(s[0]) && NextUnescaped(s[1..], s[0], 0) == Some(end)
    ensures var after := SkipBlank(s[1..][end + 1..]);
            NextRound(s) ==
            if after != "" && after[0] != ',' then Malformed
            else Took(Argument(s[1..][..end], NeedsTransform(s[1..], s[0])), if after == "" then "" else after[1..])
  {
    SkipsNothing(s);
  }

  lemma SkipsNothing(s: string)
    requires s != "" && !IsWhitespace(s[0])
    ensures SkipBlank(s) == s
  {
  }

  lemma {:induction false} BlankIsDropped(before: string, s: string)
    requires Blank(before) && s != "" && !IsWhitespace(s[0])
    ensures DropBlank(before + s) == s
  {
    if before == "" {
      assert before + s == s;
    } else {
      assert (before + s)[1..] == before[1..] + s;
      BlankIsDropped(before[1..], s);
    }
  }

  lemma BlankIsSkipped(before: string, s: string)
    requires Blank(before) && s != "" && !IsWhitespace(s[0])
    ensures SkipBlank(before + s) == s
  {
    assert (before + s)[|before|] == s[0];
    BlankIsDropped(before, s);
  }

  lemma QuotedNextRound(text: string, quote: char, tail: string)
    requires IsQuote(quote) && Closed(text, quote)
    ensures var after := SkipBlank(tail);
            NextRound(Quoted(text, quote) + tail) ==
            if after != "" && after[0] != ',' then Malformed
            else Took(Unquoted(text, quote), if after == "" then "" else after[1..])
  {
    var s, inner := Quoted(text, quote) + tail, text + [quote] + tail;
    assert s[1..] == inner && s[0] == quote;
    ClosedEnds(text, quote, tail);
    assert inner[..|text|] == text && inner[|text| + 1..] == tail;
    QuotedNext(s, |text|);
  }

  lemma QuotedRound(text: string, quote: char, tail: string)
    requires IsQuote(quote) && Closed(text, quote) && (tail == "" || tail[0] == ',')
    ensures NextRound(Quoted(text, quote) + tail) == Took(Unquoted(text, quote), if tail == "" then "" else tail[1..])
  {
    QuotedNextRound(text, quote, tail);
    assert SkipBlank(tail) == tail;
  }

  lemma ReadsQuotedThenRest(text: string, quote: char, rest: string)
    requires IsQuote(quote) && Closed(text, quote)
    ensures ParseFrom(Quoted(text, quote) + [','] + rest) == Prepended([Unquoted(text, quote)], ParseFrom(rest))
    ensures ParseFrom(Quoted(text, quote)) == Some([Unquoted(text, quote)])
  {
    var tail := [','] + rest;
    QuotedRound(text, quote, tail);
    assert tail[1..] == rest && Quoted(text, quote) + [','] + rest == Quoted(text, quote) + tail;
    QuotedRound(text, quote, "");
    assert Quoted(text, quote) + "" == Quoted(text, quote);
    assert ParseFrom("") == Some([]) && [Unquoted(text, quote)] + [] == [Unquoted(text, quote)];
  }

  lemma QuotedJoinsOn(texts: seq<string>, quote: char)
    requires |texts| > 1
    ensures Join(QuotedAll(texts, quote), ',')
            == Quoted(texts[0], quote) + [','] + Join(QuotedAll(texts[1..], quote), ',')
    ensures UnquotedAll(texts, quote) == [Unquoted(texts[0], quote)] + UnquotedAll(texts[1..], quote)
  {
    assert QuotedAll(texts, quote)[1..] == QuotedAll(texts[1..], quote);
  }

  lemma {:induction false} QuotedParses(texts: seq<string>, quote: char)
    requires IsQuote(quote) && texts != [] && forall i :: 0 <= i < |texts| ==> Closed(texts[i], quote)
    ensures ParseFrom(Join(QuotedAll(texts, quote), ',')) == Some(UnquotedAll(texts, quote))
  {
    if |texts| == 1 {
      ReadsQuotedThenRest(texts[0], quote, "");
      assert Join(QuotedAll(texts, quote), ',') == Quoted(texts[0], quote);
      assert UnquotedAll(texts, quote) == [Unquoted(texts[0], quote)];
    } else {
      var rest := texts[1..];
      QuotedJoinsOn(texts, quote);
      ReadsQuotedThenRest(texts[0], quote, Join(QuotedAll(rest, quote), ','));
      QuotedParses(rest, quote);
    }
  }

  /** Quoted texts, joined with commas, are read one by one, whatever is escaped in them. */
  lemma QuotedTextsParse(texts: seq<string>, quote: char)
    requires IsQuote(quote) && forall i :: 0 <= i < |texts| ==> Closed(texts[i], quote)
    ensures Parse(Join(QuotedAll(texts, quote), ',')) == Some(UnquotedAll(texts, quote))
  {
    if texts == [] {
      assert QuotedAll(texts, quote) == [] && UnquotedAll(texts, quote) == [];
    } else {
      QuotedParses(texts, quote);
      QuotedIsNotBlank(texts, quote);
    }
  }

  lemma QuotedIsNotBlank(texts: seq<string>, quote: char)
    requires IsQuote(quote) && texts != []
    ensures !Blank(Join(QuotedAll(texts, quote), ','))
  {
    assert Join(QuotedAll(texts, quote), ',')[0] == quote;
  }

  /** Any text without backslash and without the quote itself: blank, empty or full of commas. */
  predicate Quotable(arg: string, quote: char) {
    '\\' !in arg && quote !in arg
  }

  lemma QuotableIsClosed(arg: string, quote: char)
    requires Quotable(arg, quote)
    ensures Closed(arg, quote) && Unquoted(arg, quote) == arg
  {
    var s := arg + [quote];
    assert forall i :: 0 <= i < |arg| ==> s[i] == arg[i] != quote;
    assert |arg| > 0 ==> s[|arg| - 1] == arg[|arg| - 1];
    assert Unescaped(s, quote, |arg|);
  }

  /** Quoting and joining with commas is undone by parsing, for every list of quotable arguments. */
  lemma QuotedArgumentsRoundTrip(args: seq<string>, quote: char)
    requires IsQuote(quote) && forall i :: 0 <= i < |args| ==> Quotable(args[i], quote)
    ensures Parse(Join(QuotedAll(args, quote), ',')) == Some(args)
  {
    forall i | 0 <= i < |args| ensures Closed(args[i], quote) && Unquoted(args[i], quote) == args[i] {
      QuotableIsClosed(args[i], quote);
    }
    QuotedTextsParse(args, quote);
    assert UnquotedAll(args, quote) == args;
  }

  // ----- escaped quotes -----

  function EscapeQuotes(arg: string, quote: char): string {
    if arg == "" then ""
    else
      var n := |arg| - 1;
      EscapeQuotes(arg[..n], quote) + EscapeQuote(arg[n], quote)
  }

  function EscapeQuote(c: char, quote: char): string {
    if c == quote then ['\\', c] else [c]
  }

  function EscapeQuotesAll(args: seq<string>, quote: char): seq<string> {
    seq(|args|, i requires 0 <= i < |args| => EscapeQuotes(args[i], quote))
  }

  /** Every quote has exactly one backslash before it, and the text does not end in one. */
  ghost predicate OneEach(e: string, quote: char) {
    && (forall i :: 0 <= i < |e| && e[i] == quote ==> Backslashes(e, i) == 1)
    && (e != "" ==> e[|e| - 1] != '\\')
  }

  lemma {:induction false} EscapeQuotesShape(arg: string, quote: char)
    requires '\\' !in arg && quote != '\\'
    ensures OneEach(EscapeQuotes(arg, quote), quote)
  {
    if arg != "" {
      var n := |arg| - 1;
      assert arg[n] in arg && forall c :: c in arg[..n] ==> c in arg;
      EscapeQuotesShape(arg[..n], quote);
      OneMoreEach(EscapeQuotes(arg[..n], quote), arg[n], quote);
    }
  }

  /** Escaping adds something exactly when there is a quote. */
  lemma {:induction false} EscapeQuotesAdds(arg: string, quote: char)
    ensures quote in EscapeQuotes(arg, quote) <==> quote in arg
    ensures if quote in arg then |EscapeQuotes(arg, quote)| > |arg| else EscapeQuotes(arg, quote) == arg
  {
    if arg != "" {
      var n := |arg| - 1;
      assert arg == arg[..n] + [arg[n]];
      EscapeQuotesAdds(arg[..n], quote);
    }
  }

  /** One more character, escaped if it is the quote. */
  lemma OneMoreEach(f: string, c: char, quote: char)
    requires OneEach(f, quote) && c != '\\' && quote != '\\'
    ensures OneEach(f + EscapeQuote(c, quote), quote)
  {
    var e := f + EscapeQuote(c, quote);
    BackslashesInPrefix(f, e, |f|);
    assert Backslashes(f, |f|) == 0;
    forall i | 0 <= i < |e| && e[i] == quote ensures Backslashes(e, i) == 1 {
      if i < |f| {
        BackslashesInPrefix(f, e, i);
      } else {
        assert i == |f| + 1 && e[|f|] == '\\';
      }
    }
  }

  lemma EscapedIsClosed(e: string, quote: char)
    requires OneEach(e, quote)
    ensures Closed(e, quote) && (HasEscaped(e, quote) <==> quote in e)
  {
    var s := e + [quote];
    forall i | 0 <= i <= |e| ensures Backslashes(s, i) == Backslashes(e, i) {
      BackslashesInPrefix(e, s, i);
    }
    assert e != "" ==> s[|e| - 1] == e[|e| - 1];
    assert Unescaped(s, quote, |e|);
    forall i | 0 <= i < |e| ensures !Unescaped(s, quote, i) && (Escaped(e, quote, i) <==> e[i] == quote) {
      assert s[i] == e[i];
    }
    if quote in e {
      var i :| 0 <= i < |e| && e[i] == quote;
      assert Escaped(e, quote, i);
    }
  }

  /** Only commas are unescaped: the backslash before a quote stays. */
  lemma {:induction false} QuotesStayEscaped(arg: string, quote: char)
    requires '\\' !in arg && IsQuote(quote)
    ensures Normalized(EscapeQuotes(arg, quote), ',', false) == EscapeQuotes(arg, quote)
    ensures !Pending(EscapeQuotes(arg, quote), false)
  {
    if arg != "" {
      var n := |arg| - 1;
      assert arg == arg[..n] + [arg[n]] && arg[n] in arg;
      QuotesStayEscaped(arg[..n], quote);
      NormalizeConcat(EscapeQuotes(arg[..n], quote), EscapeQuote(arg[n], quote), ',', false);
      QuoteStaysEscaped(arg[n], quote);
    }
  }

  lemma QuoteStaysEscaped(c: char, quote: char)
    requires c != '\\' && IsQuote(quote)
    ensures Normalized(EscapeQuote(c, quote), ',', false) == EscapeQuote(c, quote)
    ensures !Pending(EscapeQuote(c, quote), false)
  {
    var e := EscapeQuote(c, quote);
    if c == quote {
      assert e[1..] == [c] && e[1..][1..] == "";
      assert Normalized(e[1..], ',', true) == ['\\', c] + "";
      assert !Pending(e[1..], true);
    } else {
      assert e[1..] == "";
      assert Normalized(e, ',', false) == [c] + "";
    }
  }

  /**
   * Quoting after escaping the quotes is not undone by parsing: an argument comes back with its
   * quotes still escaped, and so unchanged exactly when it holds none.
   */
  lemma EscapedQuotesStay(args: seq<string>, quote: char)
    requires IsQuote(quote) && forall i :: 0 <= i < |args| ==> '\\' !in args[i]
    ensures Parse(Join(QuotedAll(EscapeQuotesAll(args, quote), quote), ',')) == Some(EscapeQuotesAll(args, quote))
    ensures EscapeQuotesAll(args, quote) == args <==> forall i :: 0 <= i < |args| ==> quote !in args[i]
  {
    var texts := EscapeQuotesAll(args, quote);
    forall i | 0 <= i < |args|
      ensures Closed(texts[i], quote) && Unquoted(texts[i], quote) == texts[i]
      ensures texts[i] == args[i] <==> quote !in args[i]
    {
      EscapeQuotesShape(args[i], quote);
      EscapeQuotesAdds(args[i], quote);
      EscapedIsClosed(texts[i], quote);
      QuotesStayEscaped(args[i], quote);
    }
    QuotedTextsParse(texts, quote);
    assert UnquotedAll(texts, quote) == texts;
  }

  /** A quote that is not closed makes the whole text malformed. */
  lemma UnclosedQuote(arg: string, quote: char)
    requires IsQuote(quote) && Quotable(arg, quote)
    ensures Parse([quote] + arg) == None
  {
    var s := [quote] + arg;
    assert s[1..] == arg && s[0] == quote;
    assert NextRound(s) == Malformed;
  }

  /** So does anything but a comma after a quote and white space. */
  lemma TextAfterQuote(arg: string, quote: char, blank: string, text: string)
    requires IsQuote(quote) && Quotable(arg, quote) && Blank(blank)
    requires text != "" && !IsWhitespace(text[0]) && text[0] != ','
    ensures Parse(Quoted(arg, quote) + (blank + text)) == None
  {
    QuotableIsClosed(arg, quote);
    QuotedNextRound(arg, quote, blank + text);
    BlankIsSkipped(blank, text);
    assert (Quoted(arg, quote) + (blank + text))[0] == quote;
  }

  /** So does white space after the last quote, with nothing behind it. */
  lemma BlankAfterLastQuote(arg: string, quote: char, blank: string)
    requires IsQuote(quote) && Quotable(arg, quote) && Blank(blank) && blank != ""
    ensures Parse(Quoted(arg, quote) + blank) == None
  {
    QuotableIsClosed(arg, quote);
    QuotedNextRound(arg, quote, blank);
    assert (Quoted(arg, quote) + blank)[0] == quote;
  }

  /** White space after the last comma is one more, empty argument; nothing after it is none. */
  lemma BlankAfterComma(args: seq<string>, blank: string)
    requires args != [] && forall i :: 0 <= i < |args| ==> Simple(args[i])
    requires Blank(blank)
    ensures Parse(Join(Escapes(args), ',') + [','] + blank) == Some(if blank == "" then args else args + [""])
  {
    var s := Join(Escapes(args), ',') + [','] + blank;
    EscapedEnds(args[0]);
    assert s[0] == Escape(args[0])[0];
    ChainIsJoin(args, blank);
    LastBlank(blank);
    forall arg, rest | Simple(arg) ensures ParseFrom(Followed(arg, rest)) == Prepended([arg], ParseFrom(rest)) {
      ReadsEscapedThenRest(arg, rest);
    }
    ChainReads(ParseFrom, args, blank);
    assert args + [] == args;
  }

  function Followed(arg: string, rest: string): string {
    Escape(arg) + [','] + rest
  }

  /** Escaped arguments, each with its comma, and then more text. */
  function Chain(args: seq<string>, tail: string): string {
    if args == [] then tail else Followed(args[0], Chain(args[1..], tail))
  }

  lemma {:induction false} ChainIsJoin(args: seq<string>, tail: string)
    requires args != []
    ensures Chain(args, tail) == Join(Escapes(args), ',') + [','] + tail
  {
    if |args| == 1 {
      assert Join(Escapes(args), ',') == Escape(args[0]) && Chain(args[1..], tail) == tail;
    } else {
      ChainIsJoin(args[1..], tail);
      JoinsOn(args);
      FollowedByJoined(args[0], Join(Escapes(args[1..]), ','), tail);
    }
  }

  lemma FollowedByJoined(arg: string, joined: string, tail: string)
    ensures Followed(arg, joined + [','] + tail) == Followed(arg, joined) + [','] + tail
  {
  }

  ghost predicate ReadsOn(parse: string -> Option<seq<string>>) {
    forall arg, rest :: Simple(arg) ==> parse(Followed(arg, rest)) == Prepended([arg], parse(rest))
  }

  /** What reads one escaped argument after the other reads them all, and then the rest. */
  lemma {:induction false} ChainReads(parse: string -> Option<seq<string>>, args: seq<string>, tail: string)
    requires ReadsOn(parse) && AllSimple(args)
    ensures parse(Chain(args, tail)) == Prepended(args, parse(tail))
  {
    if args == [] {
      PrependedTwice([], [], parse(tail));
    } else {
      var first, rest := args[0], args[1..];
      FirstIsSimple(args);
      ChainReads(parse, rest, tail);
      ReadsFirst(parse, first, Chain(rest, tail));
      PrependedTwice([first], rest, parse(tail));
    }
  }

  lemma ReadsFirst(parse: string -> Option<seq<string>>, arg: string, rest: string)
    requires ReadsOn(parse) && Simple(arg)
    ensures parse(Followed(arg, rest)) == Prepended([arg], parse(rest))
  {
  }

  lemma FirstIsSimple(args: seq<string>)
    requires args != [] && AllSimple(args)
    ensures Simple(args[0]) && AllSimple(args[1..]) && [args[0]] + args[1..] == args
  {
  }

  ghost predicate AllSimple(args: seq<string>) {
    forall i :: 0 <= i < |args| ==> Simple(args[i])
  }

  lemma LastBlank(blank: string)
    requires Blank(blank)
    ensures ParseFrom(blank) == Some(if blank == "" then [] else [""])
  {
    if blank != "" {
      BlankIsAnArgument(blank);
    }
  }

  lemma BlankIsAnArgument(blank: string)
    requires blank != "" && Blank(blank)
    ensures ParseFrom(blank) == Some([""])
  {
    TrimsBlank(blank);
    assert blank[..|blank|] == blank;
    assert NextRound(blank) == Took("", "");
    assert ParseFrom("") == Some([]) && [""] + [] == [""];
  }

  lemma {:induction false} TrimsBlank(blank: string)
    requires Blank(blank)
    ensures TrimEnd(blank) == ""
  {
    if blank != "" {
      TrimsBlank(blank[..|blank| - 1]);
    }
  }
}
