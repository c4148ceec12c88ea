/** How the arguments of a scriptlet rule may be written: which texts parse, and to which arguments. */
module ScriptletGrammar {
  import opened Prelude
  import opened Text
  import opened ScriptletArgs

  // ----- one argument -----

  /** An argument as written: in quotes or not, with white space around it. */
  datatype Item = Item(before: string, quote: Option<char>, text: string, after: string)

  function Written(item: Item): string {
    item.before + Core(item) + item.after
  }

  function Core(item: Item): string {
    if item.quote.Some? then [item.quote.value] + item.text + [item.quote.value] else item.text
  }

  /** What ends the text: the quote, or a comma. */
  function Separator(item: Item): char {
    if item.quote.Some? then item.quote.value else ','
  }

  /** The argument: the text, its escaped commas unescaped if a separator is escaped in it. */
  function Value(item: Item): string {
    var escaped := exists i :: 0 <= i < |item.text| && Escaped(item.text, Separator(item), i);
    if escaped then Normalized(item.text, ',', false) else item.text
  }

  /** Text that begins and ends in no white space, and begins in no quote. It may be empty. */
  predicate IsBare(text: string) {
    text != "" ==> !IsWhitespace(text[0]) && !IsWhitespace(text[|text| - 1]) && !IsQuote(text[0])
  }

  /** All separators in the text are escaped. */
  predicate Unbroken(text: string, separator: char) {
    forall i :: 0 <= i < |text| ==> !Unescaped(text, separator, i)
  }

  predicate IsItem(item: Item) {
    && Blank(item.before) && Blank(item.after)
    && (item.quote.Some? ==> IsQuote(item.quote.value) && Ends(item.text, item.quote.value))
    && (item.quote.None? ==> IsBare(item.text) && Unbroken(item.text, ','))
  }

  /** A separator behind the text would be its first one that is not escaped. */
  predicate Ends(text: string, separator: char) {
    Unbroken(text, separator) && Backslashes(text, |text|) % 2 == 0
  }

  /** A comma may follow. */
  predicate EndsAtComma(item: Item) {
    item.quote.Some? || item.after != "" || Ends(item.text, ',')
  }

  /** Nothing may follow: there is something, and no white space after a quote. */
  predicate EndsText(item: Item) {
    if item.quote.Some? then item.after == "" else Written(item) != ""
  }

  // ----- all arguments -----

  /** Each argument but the last is followed by a comma, and the last one may be too. */
  function Line(items: seq<Item>, comma: bool): string {
    if items == [] then ""
    else if |items| == 1 then Written(items[0]) + (if comma then "," else "")
    else Written(items[0]) + [','] + Line(items[1..], comma)
  }

  function Values(items: seq<Item>): seq<string> {
    seq(|items|, i requires 0 <= i < |items| => Value(items[i]))
  }

  predicate IsLine(items: seq<Item>, comma: bool) {
    && (forall i :: 0 <= i < |items| ==> IsItem(items[i]))
    && (forall i :: 0 <= i < |items| - 1 ==> EndsAtComma(items[i]))
    && (items != [] ==> if comma then EndsAtComma(items[|items| - 1]) else EndsText(items[|items| - 1]))
  }

  // ----- white space -----

  lemma {:induction false} DropCut(s: string) returns (before: string)
    ensures Blank(before) && s == before + DropBlank(s)
    ensures DropBlank(s) != "" ==> !IsWhitespace(DropBlank(s)[0])
    ensures Blank(s) ==> DropBlank(s) == ""
  {
    if s != "" && IsWhitespace(s[0]) {
      var more := DropCut(s[1..]);
      before := [s[0]] + more;
    } else {
      before := "";
    }
  }

  lemma SkipCut(s: string) returns (before: string)
    requires !Blank(s)
    ensures Blank(before) && s == before + SkipBlank(s)
    ensures SkipBlank(s) != "" && !IsWhitespace(SkipBlank(s)[0])
  {
    before := DropCut(s);
  }

  lemma {:induction false} TrimEndIs(text: string, after: string)
    requires Blank(after) && (text != "" ==> !IsWhitespace(text[|text| - 1]))
    ensures TrimEnd(text + after) == text
  {
    if after == "" {
      assert text + after == text;
    } else {
      var n := |after| - 1;
      assert (text + after)[..|text + after| - 1] == text + after[..n];
      assert (text + after)[|text + after| - 1] == after[n];
      TrimEndIs(text, after[..n]);
    }
  }

  lemma {:induction false} TrimCut(s: string) returns (after: string)
    ensures Blank(after) && s == TrimEnd(s) + after
    ensures TrimEnd(s) != "" ==> !IsWhitespace(TrimEnd(s)[|TrimEnd(s)| - 1])
  {
    if s != "" && IsWhitespace(s[|s| - 1]) {
      var n := |s| - 1;
      var more := TrimCut(s[..n]);
      after := more + [s[n]];
      assert s == s[..n] + [s[n]];
    } else {
      after := "";
    }
  }

  // ----- separators -----

  lemma EndsMeans(text: string, separator: char)
    requires separator != '\\'
    ensures Ends(text, separator) <==> Closed(text, separator)
  {
    var closed := text + [separator];
    forall i | 0 <= i <= |text|
      ensures i < |text| ==> (Unescaped(closed, separator, i) <==> Unescaped(text, separator, i))
      ensures Backslashes(closed, i) == Backslashes(text, i)
    {
      BackslashesInPrefix(text, closed, i);
    }
    if Ends(text, separator) {
      assert Unescaped(closed, separator, |text|);
    }
    if Closed(text, separator) {
      assert Unescaped(closed, separator, |text|);
      forall i | 0 <= i < |text| ensures !Unescaped(text, separator, i) {
        assert !Unescaped(closed, separator, i);
      }
    }
  }

  /** White space after a text holds no comma and no backslash. */
  lemma BlankHoldsNone(text: string, after: string)
    requires Blank(after)
    ensures Unbroken(text + after, ',') <==> Unbroken(text, ',')
    ensures HasEscaped(text + after, ',') <==> HasEscaped(text, ',')
    ensures after != "" ==> Backslashes(text + after, |text + after|) == 0
  {
    var s := text + after;
    forall i | 0 <= i < |text|
      ensures Unescaped(s, ',', i) <==> Unescaped(text, ',', i)
      ensures Escaped(s, ',', i) <==> Escaped(text, ',', i)
    {
      BackslashesInPrefix(text, s, i);
    }
    forall i | |text| <= i < |s| ensures !Unescaped(s, ',', i) && !Escaped(s, ',', i) {
      assert s[i] == after[i - |text|];
    }
  }

  // ----- from what is written to the arguments -----

  lemma ValueIs(item: Item)
    ensures Value(item) == Argument(item.text, HasEscaped(item.text, Separator(item)))
  {
  }

  lemma StartsLater(before: string, s: string)
    requires Blank(before) && s != "" && !IsWhitespace(s[0])
    ensures NextRound(before + s) == NextRound(s)
  {
    BlankIsSkipped(before, s);
    SkipsNothing(s);
  }

  /** An argument without quotes, whether a comma follows or not. */
  lemma BareRound(text: string, after: string, tail: string)
    requires text != "" && IsBare(text) && Unbroken(text, ',') && Blank(after)
    requires tail == "" || (tail[0] == ',' && (after != "" || Ends(text, ',')))
    ensures NextRound(text + after + tail)
            == Took(Argument(text, HasEscaped(text, ',')), if tail == "" then "" else tail[1..])
  {
    var t := text + after;
    var s := t + tail;
    BlankHoldsNone(text, after);
    TrimEndIs(text, after);
    if tail == "" {
      assert s == t && s[..|s|] == t;
      PlainRound(s, None, Argument(text, HasEscaped(text, ',')));
    } else {
      if after == "" {
        assert t == text;
      }
      EndsMeans(t, ',');
      ClosedEnds(t, ',', tail[1..]);
      assert s == t + [','] + tail[1..] && s[..|t|] == t && s[|t| + 1..] == tail[1..];
      PlainRound(s, Some(|t|), Argument(text, HasEscaped(text, ',')));
    }
  }

  lemma CommaRound(rest: string)
    ensures NextRound([','] + rest) == Took("", rest)
  {
    var s := [','] + rest;
    assert Unescaped(s, ',', 0);
    assert s[..0] == "" && s[1..] == rest;
    PlainRound(s, Some(0), "");
  }

  lemma BlankRound(blank: string)
    requires blank != "" && Blank(blank)
    ensures NextRound(blank) == Took("", "")
  {
    TrimsBlank(blank);
    assert blank[..|blank|] == blank;
  }

  /** After a quoted argument white space is skipped up to a comma, but not up to the end. */
  lemma QuoteRound(text: string, quote: char, after: string, tail: string)
    requires IsQuote(quote) && Ends(text, quote) && Blank(after)
    requires if tail == "" then after == "" else tail[0] == ','
    ensures NextRound(Quoted(text, quote) + (after + tail))
            == Took(Argument(text, HasEscaped(text, quote)), if tail == "" then "" else tail[1..])
  {
    EndsMeans(text, quote);
    QuotedNextRound(text, quote, after + tail);
    if tail == "" {
      assert after + tail == "";
    } else {
      BlankIsSkipped(after, tail);
    }
  }

  lemma EmptyRound(blank: string, tail: string)
    requires Blank(blank) && if tail == "" then blank != "" else tail[0] == ','
    ensures NextRound(blank + tail) == Took("", if tail == "" then "" else tail[1..])
  {
    if tail == "" {
      assert blank + tail == blank;
      BlankRound(blank);
    } else {
      assert tail == [','] + tail[1..];
      StartsLater(blank, tail);
      CommaRound(tail[1..]);
    }
  }

  lemma WrittenIs(item: Item, tail: string)
    ensures Written(item) + tail == item.before + (Core(item) + (item.after + tail))
    ensures Core(item) == "" ==> Written(item) + tail == (item.before + item.after) + tail
  {
  }

  lemma BareItemRound(item: Item, tail: string)
    requires IsItem(item) && item.quote.None? && item.text != ""
    requires tail == "" || (tail[0] == ',' && EndsAtComma(item))
    ensures NextRound(Written(item) + tail) == Took(Value(item), if tail == "" then "" else tail[1..])
  {
    var s := item.text + item.after + tail;
    WrittenIs(item, tail);
    assert item.text + (item.after + tail) == s;
    StartsLater(item.before, s);
    BareRound(item.text, item.after, tail);
    ValueIs(item);
  }

  lemma QuotedItemRound(item: Item, tail: string)
    requires IsItem(item) && item.quote.Some?
    requires if tail == "" then item.after == "" else tail[0] == ','
    ensures NextRound(Written(item) + tail) == Took(Value(item), if tail == "" then "" else tail[1..])
  {
    var quote := item.quote.value;
    WrittenIs(item, tail);
    StartsLater(item.before, Quoted(item.text, quote) + (item.after + tail));
    QuoteRound(item.text, quote, item.after, tail);
    ValueIs(item);
  }

  /** One round reads one argument and the comma behind it. */
  lemma ItemRound(item: Item, tail: string)
    requires IsItem(item)
    requires if tail == "" then EndsText(item) else tail[0] == ',' && EndsAtComma(item)
    ensures NextRound(Written(item) + tail) == Took(Value(item), if tail == "" then "" else tail[1..])
  {
    if item.quote.Some? {
      QuotedItemRound(item, tail);
    } else if item.text != "" {
      BareItemRound(item, tail);
    } else {
      WrittenIs(item, tail);
      EmptyRound(item.before + item.after, tail);
    }
  }

  lemma ItemThenRest(item: Item, rest: string)
    requires IsItem(item) && EndsAtComma(item)
    ensures ParseFrom(Written(item) + [','] + rest) == Prepended([Value(item)], ParseFrom(rest))
  {
    ItemRound(item, [','] + rest);
    assert Written(item) + [','] + rest == Written(item) + ([','] + rest) && ([','] + rest)[1..] == rest;
  }

  lemma IsLineRest(items: seq<Item>, comma: bool)
    requires |items| > 1 && IsLine(items, comma)
    ensures IsLine(items[1..], comma) && IsItem(items[0]) && EndsAtComma(items[0])
    ensures Values(items) == [Value(items[0])] + Values(items[1..])
  {
  }

  /** Every line of arguments parses to their values. */
  lemma {:induction false} LineReads(items: seq<Item>, comma: bool)
    requires items != [] && IsLine(items, comma)
    ensures ParseFrom(Line(items, comma)) == Some(Values(items))
    decreases |items|
  {
    var first := items[0];
    if |items| == 1 {
      ItemRound(first, if comma then "," else "");
      assert Written(first) + "" == Written(first);
      assert Values(items) == [Value(first)] + [] && ParseFrom("") == Some([]);
    } else {
      IsLineRest(items, comma);
      LineReads(items[1..], comma);
      ItemThenRest(first, Line(items[1..], comma));
    }
  }

  // ----- from the arguments to what is written -----

  /** Where a round ends: at a comma, or with the text. */
  ghost predicate IsCut(s: string, item: Item, tail: string) {
    && IsItem(item) && s == Written(item) + tail
    && if tail == "" then EndsText(item) else tail[0] == ',' && EndsAtComma(item)
  }

  /** Up to the first separator that is not escaped. */
  lemma SeparatorCut(s: string, separator: char, end: nat)
    requires end <= |s| && forall i :: 0 <= i < end ==> !Unescaped(s, separator, i)
    ensures Unbroken(s[..end], separator) && Backslashes(s[..end], end) == Backslashes(s, end)
  {
    forall i | 0 <= i <= end ensures Backslashes(s[..end], i) == Backslashes(s, i) {
      BackslashesInPrefix(s[..end], s, i);
    }
    forall i | 0 <= i < end ensures !Unescaped(s[..end], separator, i) {
      assert !Unescaped(s, separator, i);
    }
  }

  /** The text before a comma or the end, and the white space at its end. */
  lemma BareCut(before: string, t: string, tail: string) returns (item: Item)
    requires Blank(before) && Unbroken(t, ',') && (t != "" ==> !IsWhitespace(t[0]) && !IsQuote(t[0]))
    requires if tail == "" then t != "" else tail[0] == ',' && Backslashes(t, |t|) % 2 == 0
    ensures IsCut(before + t + tail, item, tail)
  {
    var after := TrimCut(t);
    var text := TrimEnd(t);
    BlankHoldsNone(text, after);
    if after == "" {
      assert t == text;
    }
    assert text != "" ==> text[0] == t[0];
    item := Item(before, None, text, after);
    assert Written(item) == before + t;
  }

  lemma PlainCut(before: string, s: string) returns (item: Item, tail: string)
    requires Blank(before) && s != "" && !IsWhitespace(s[0]) && !IsQuote(s[0])
    ensures IsCut(before + s, item, tail)
  {
    var next := NextUnescaped(s, ',', 0);
    var end := if next.Some? then next.value else |s|;
    SeparatorCut(s, ',', end);
    tail := s[end..];
    item := BareCut(before, s[..end], tail);
    assert before + s[..end] + tail == before + s;
  }

  lemma QuotedCut(before: string, s: string) returns (item: Item, tail: string)
    requires Blank(before) && s != "" && IsQuote(s[0]) && NextQuoted(s[1..], s[0]).Took?
    ensures IsCut(before + s, item, tail)
  {
    var q, inner := s[0], s[1..];
    var end := NextUnescaped(inner, q, 0).value;
    SeparatorCut(inner, q, end);
    var after;
    after, tail := AfterQuote(inner[end + 1..]);
    item := Item(before, Some(q), inner[..end], after);
    assert inner[end] == q;
    QuotedPieces(before, s, end, after, tail);
  }

  lemma AfterQuote(more: string) returns (after: string, tail: string)
    requires SkipBlank(more) == "" || SkipBlank(more)[0] == ','
    ensures Blank(after) && more == after + tail && if tail == "" then after == "" else tail[0] == ','
  {
    after, tail := "", "";
    if more != "" {
      assert !Blank(more);
      after := SkipCut(more);
      tail := SkipBlank(more);
    }
  }

  lemma QuotedPieces(before: string, s: string, end: nat, after: string, tail: string)
    requires end + 1 < |s| && s[end + 1] == s[0] && s[1..][end + 1..] == after + tail
    ensures before + s == Written(Item(before, Some(s[0]), s[1..][..end], after)) + tail
  {
    assert s == [s[0]] + s[1..][..end] + [s[0]] + s[1..][end + 1..];
  }

  /** Every round that takes an argument has one written before it. */
  lemma RoundIsCut(s: string) returns (item: Item, tail: string)
    requires NextRound(s).Took?
    ensures IsCut(s, item, tail)
  {
    if Blank(s) {
      item, tail := Item(s, None, "", ""), "";
      assert Written(item) + tail == s;
    } else {
      var before := SkipCut(s);
      if IsQuote(SkipBlank(s)[0]) {
        item, tail := QuotedCut(before, SkipBlank(s));
      } else {
        item, tail := PlainCut(before, SkipBlank(s));
      }
    }
  }

  lemma NotDone(s: string)
    requires s != "" && ParseFrom(s).Some?
    ensures NextRound(s).Took?
  {
    if !Blank(s) {
      var before := SkipCut(s);
    }
  }

  lemma FirstCut(s: string) returns (item: Item, tail: string)
    requires s != "" && ParseFrom(s).Some?
    ensures IsCut(s, item, tail)
    ensures tail != "" ==> |tail| <= |s| && ParseFrom(tail[1..]).Some?
  {
    NotDone(s);
    item, tail := RoundIsCut(s);
    ItemRound(item, tail);
  }

  lemma LastCut(s: string, item: Item, tail: string)
    requires IsCut(s, item, tail) && |tail| <= 1
    ensures IsLine([item], tail != "") && Line([item], tail != "") == s
  {
    assert tail == if tail != "" then "," else "";
  }

  lemma {:induction false} ReadIsLine(s: string) returns (items: seq<Item>, comma: bool)
    requires s != "" && ParseFrom(s).Some?
    ensures items != [] && IsLine(items, comma) && Line(items, comma) == s
    decreases |s|
  {
    var item, tail := FirstCut(s);
    if |tail| <= 1 {
      LastCut(s, item, tail);
      items, comma := [item], tail != "";
    } else {
      var more;
      more, comma := ReadIsLine(tail[1..]);
      items := [item] + more;
      MoreCut(s, item, tail, more, comma);
    }
  }

  lemma MoreCut(s: string, item: Item, tail: string, more: seq<Item>, comma: bool)
    requires IsCut(s, item, tail) && tail != "" && more != [] && IsLine(more, comma) && Line(more, comma) == tail[1..]
    ensures IsLine([item] + more, comma) && Line([item] + more, comma) == s
  {
    LineGrows(item, more, comma);
    CommaApart(Written(item), tail);
  }

  lemma CommaApart(written: string, tail: string)
    requires tail != "" && tail[0] == ','
    ensures written + [','] + tail[1..] == written + tail
  {
  }

  lemma LineGrows(item: Item, more: seq<Item>, comma: bool)
    requires more != [] && IsLine(more, comma) && IsItem(item) && EndsAtComma(item)
    ensures IsLine([item] + more, comma)
    ensures Line([item] + more, comma) == Written(item) + [','] + Line(more, comma)
  {
    assert ([item] + more)[1..] == more;
  }

  // ----- exactly when -----

  ghost predicate IsWrittenAs(s: string, items: seq<Item>, comma: bool, args: seq<string>) {
    items != [] && IsLine(items, comma) && s == Line(items, comma) && args == Values(items)
  }

  /**
   * A text parses to these arguments exactly when it is blank and there are none, or when it is a line
   * of arguments of these values, in quotes or not, with any white space around them; but white space
   * between the last closing quote and the end makes the text malformed.
   */
  lemma ParsesExactlyWhen(s: string, args: seq<string>)
    ensures Parse(s) == Some(args) <==>
              if Blank(s) then args == [] else exists items, comma :: IsWrittenAs(s, items, comma, args)
  {
    if !Blank(s) {
      if Parse(s) == Some(args) {
        var items, comma := ReadIsLine(s);
        LineReads(items, comma);
        assert IsWrittenAs(s, items, comma, args);
      }
      if items, comma :| IsWrittenAs(s, items, comma, args) {
        LineReads(items, comma);
      }
    }
  }

  // ----- the round trip, with white space -----

  /** The argument, written without quotes and with its commas escaped, or in quotes, with white space around it. */
  predicate Writes(item: Item, arg: string) {
    && Blank(item.before) && Blank(item.after)
    && if item.quote.Some? then
         IsQuote(item.quote.value) && Quotable(arg, item.quote.value) && item.text == arg
       else Simple(arg) && item.text == Escape(arg)
  }

  lemma WritesItem(item: Item, arg: string)
    requires Writes(item, arg)
    ensures IsItem(item) && EndsAtComma(item) && Value(item) == arg && Written(item) != ""
  {
    ValueIs(item);
    if item.quote.Some? {
      QuotableIsClosed(arg, item.quote.value);
      EndsMeans(arg, item.quote.value);
    } else {
      EscapedEnds(arg);
      EscapeShape(arg);
      EscapeEnds(arg);
    }
  }

  lemma EscapeEnds(arg: string)
    requires Simple(arg)
    ensures Ends(Escape(arg), ',') && IsBare(Escape(arg))
    ensures Argument(Escape(arg), HasEscaped(Escape(arg), ',')) == arg
  {
    var e := Escape(arg);
    EscapedEnds(arg);
    EscapeShape(arg);
    CommasAreEscaped(arg, e);
    EscapeIsAnArgument(arg);
    assert arg[|arg| - 1] in arg;
  }

  /** Any list of arguments, however written, and with any white space around them, is read back. */
  lemma SpacedArgumentsRoundTrip(args: seq<string>, items: seq<Item>)
    requires |items| == |args| > 0 && forall i :: 0 <= i < |args| ==> Writes(items[i], args[i])
    requires items[|args| - 1].quote.Some? ==> items[|args| - 1].after == ""
    ensures Parse(Line(items, false)) == Some(args)
  {
    AllWritten(args, items);
    LineReads(items, false);
    LineIsNotBlank(items, args[0]);
  }

  lemma AllWritten(args: seq<string>, items: seq<Item>)
    requires |items| == |args| > 0 && forall i :: 0 <= i < |args| ==> Writes(items[i], args[i])
    requires items[|args| - 1].quote.Some? ==> items[|args| - 1].after == ""
    ensures IsLine(items, false) && Values(items) == args
  {
    forall i | 0 <= i < |args|
      ensures IsItem(items[i]) && EndsAtComma(items[i]) && Value(items[i]) == args[i] && Written(items[i]) != ""
    {
      WritesItem(items[i], args[i]);
    }
  }

  lemma LineIsNotBlank(items: seq<Item>, arg: string)
    requires items != [] && Writes(items[0], arg)
    ensures !Blank(Line(items, false))
  {
    var item := items[0];
    if item.quote.None? {
      EscapedEnds(arg);
    }
    var line := Line(items, false);
    var tail := if |items| == 1 then "" else [','] + Line(items[1..], false);
    assert line == Written(item) + tail;
    CoreIsSeen(item, tail);
  }

  lemma CoreIsSeen(item: Item, tail: string)
    requires Core(item) != "" && !IsWhitespace(Core(item)[0])
    ensures !Blank(Written(item) + tail)
  {
    assert (Written(item) + tail)[|item.before|] == Core(item)[0];
  }
}
