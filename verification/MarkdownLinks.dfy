/** The inline link scanner: `markdownLinksIn` of scripts/check-governance-docs.ts. */
module MarkdownLinks {
  import opened Wrappers
  import opened Strings

  predicate Stops(c: char, close: char) {
    c == close || c == '\n'
  }

  /** Where a run without the closing character or a line end stops. */
  function Span(text: string, from: nat, close: char): (j: nat)
    requires from <= |text|
    ensures from <= j <= |text|
    ensures forall x | from <= x < j :: !Stops(text[x], close)
    ensures j < |text| ==> Stops(text[j], close)
    decreases |text| - from
  {
    if from == |text| || Stops(text[from], close) then from else Span(text, from + 1, close)
  }

  /** A link `[caption](target)` at position `i`, with "]" at `j` and ")" at `k`. */
  ghost predicate LinkAt(text: string, i: nat, j: nat, k: nat) {
    && i + 1 < j && j + 2 < k < |text|
    && text[i] == '[' && text[j] == ']' && text[j + 1] == '(' && text[k] == ')'
    && IsRun(text[i + 1..j], ']') && IsRun(text[j + 2..k], ')')
  }

  predicate IsRun(s: string, close: char) {
    Free(s, close) && Free(s, '\n')
  }

  datatype Match = Match(target: string, end: nat)

  /** The pattern `\[[^\]\n]+\]\(([^)\n]+)\)` tried at one position. */
  function MatchAt(text: string, i: nat): (m: Option<Match>)
    requires i <= |text|
    ensures m.Some? ==> i < m.value.end <= |text|
  {
    if i == |text| || text[i] != '[' then None
    else
      var j := Span(text, i + 1, ']');
      if j == i + 1 || j + 1 >= |text| || text[j] != ']' || text[j + 1] != '(' then None
      else
        var k := Span(text, j + 2, ')');
        if k == j + 2 || k == |text| || text[k] != ')' then None else Some(Match(text[j + 2..k], k + 1))
  }

  lemma {:induction false} SpanIs(text: string, from: nat, j: nat, close: char)
    requires from <= j < |text| && text[j] == close
    requires forall x | from <= x < j :: !Stops(text[x], close)
    ensures Span(text, from, close) == j
    decreases j - from
  {
    if from < j {
      SpanIs(text, from + 1, j, close);
    }
  }

  lemma RunGoesOn(text: string, from: nat, until: nat, close: char)
    requires from <= until <= |text|
    ensures IsRun(text[from..until], close) <==> forall x | from <= x < until :: !Stops(text[x], close)
  {
    var run := text[from..until];
    assert forall x | from <= x < until :: text[x] == run[x - from];
    assert forall c | c in run :: exists x | 0 <= x < |run| :: run[x] == c == text[from + x];
  }

  lemma LinkMatches(text: string, i: nat, j: nat, k: nat)
    requires LinkAt(text, i, j, k)
    ensures MatchAt(text, i) == Some(Match(text[j + 2..k], k + 1))
  {
    RunGoesOn(text, i + 1, j, ']');
    RunGoesOn(text, j + 2, k, ')');
    SpanIs(text, i + 1, j, ']');
    SpanIs(text, j + 2, k, ')');
  }

  /** The matcher finds exactly the links; so at most one starts at each position. */
  lemma MatchIffLink(text: string, i: nat, m: Match)
    requires i <= |text|
    ensures MatchAt(text, i) == Some(m) <==>
      exists j: nat, k: nat :: LinkAt(text, i, j, k) && m == Match(text[j + 2..k], k + 1)
  {
    if MatchAt(text, i) == Some(m) {
      var j := Span(text, i + 1, ']');
      var k := Span(text, j + 2, ')');
      RunGoesOn(text, i + 1, j, ']');
      RunGoesOn(text, j + 2, k, ')');
      assert LinkAt(text, i, j, k);
    }
    if j: nat, k: nat :| LinkAt(text, i, j, k) && m == Match(text[j + 2..k], k + 1) {
      LinkMatches(text, i, j, k);
    }
  }

  /** A captured target counts only if something is left after trimming. */
  function Kept(target: string): seq<string> {
    if Trim(target) == "" then [] else [Trim(target)]
  }

  /** The links of a text from a position on: leftmost first, and none inside another. */
  function Links(text: string, from: nat): seq<string>
    requires from <= |text|
    decreases |text| - from
  {
    if from == |text| then []
    else
      var m := MatchAt(text, from);
      if m.None? then Links(text, from + 1) else Kept(m.value.target) + Links(text, m.value.end)
  }

  lemma LinksMiss(text: string, at: nat)
    requires at < |text| && MatchAt(text, at).None?
    ensures Links(text, at) == Links(text, at + 1)
  {
  }

  ghost predicate NoLink(text: string, i: nat) {
    forall j: nat, k: nat :: !LinkAt(text, i, j, k)
  }

  /** No link starts from `from` up to `until`. */
  ghost predicate Gap(text: string, from: nat, until: nat) {
    from <= until && forall x | from <= x < until :: NoLink(text, x)
  }

  lemma NoMatchNoLink(text: string, i: nat)
    requires i <= |text|
    ensures MatchAt(text, i).None? <==> NoLink(text, i)
  {
    if j: nat, k: nat :| LinkAt(text, i, j, k) {
      LinkMatches(text, i, j, k);
    }
    if MatchAt(text, i).Some? {
      MatchIffLink(text, i, MatchAt(text, i).value);
    }
  }

  lemma GapMore(text: string, from: nat, at: nat)
    requires at < |text| && Gap(text, from, at) && MatchAt(text, at).None?
    ensures Gap(text, from, at + 1)
  {
    NoMatchNoLink(text, at);
  }

  /** `regex.exec(text)`: the first match from `lastIndex` on. */
  method Exec(text: string, lastIndex: nat) returns (at: nat, m: Option<Match>)
    requires lastIndex <= |text|
    ensures lastIndex <= at <= |text| && m == MatchAt(text, at)
    ensures m.None? ==> at == |text|
    ensures Gap(text, lastIndex, at)
  {
    at := lastIndex;
    m := MatchAt(text, at);
    while at < |text| && m.None?
      invariant lastIndex <= at <= |text| && m == MatchAt(text, at)
      invariant Gap(text, lastIndex, at)
    {
      GapMore(text, lastIndex, at);
      at := at + 1;
      m := MatchAt(text, at);
    }
  }

  lemma LinksTake(text: string, i: nat, m: Match)
    requires i < |text| && MatchAt(text, i) == Some(m)
    ensures Links(text, i) == Kept(m.target) + Links(text, m.end)
  {
  }

  lemma KeptAppended(links: seq<string>, kept: seq<string>, rest: seq<string>)
    ensures links + (kept + rest) == (links + kept) + rest
  {
  }

  /** Where a link stands: its "[", its "]" and its ")". */
  datatype Place = Place(open: nat, middle: nat, close: nat)

  /** The links of a text up to a position: each place is a link, each starts at or after the
      end of the one before, and no link starts in a gap. */
  ghost predicate Leftmost(text: string, places: seq<Place>, until: nat)
    decreases |places|
  {
    if places == [] then Gap(text, 0, until)
    else
      var front, last := places[..|places| - 1], places[|places| - 1];
      && Leftmost(text, front, last.open)
      && LinkAt(text, last.open, last.middle, last.close)
      && Gap(text, last.close + 1, until)
  }

  function TargetOf(text: string, place: Place): string {
    if place.middle + 2 <= place.close <= |text| then text[place.middle + 2..place.close] else ""
  }

  function TargetsAt(text: string, places: seq<Place>): seq<string> {
    if places == [] then []
    else TargetsAt(text, places[..|places| - 1]) + Kept(TargetOf(text, places[|places| - 1]))
  }

  lemma GapJoin(text: string, from: nat, until: nat, on: nat)
    requires Gap(text, from, until) && Gap(text, until, on)
    ensures Gap(text, from, on)
  {
  }

  /** A gap takes the scan on. */
  lemma LeftmostOn(text: string, places: seq<Place>, until: nat, on: nat)
    requires Leftmost(text, places, until) && Gap(text, until, on)
    ensures Leftmost(text, places, on)
  {
    GapJoin(text, if places == [] then 0 else places[|places| - 1].close + 1, until, on);
  }

  /** A link right where the scan is becomes the next place. */
  lemma LeftmostMore(text: string, places: seq<Place>, place: Place)
    requires Leftmost(text, places, place.open) && LinkAt(text, place.open, place.middle, place.close)
    ensures Leftmost(text, places + [place], place.close + 1)
    ensures TargetsAt(text, places + [place]) == TargetsAt(text, places) + Kept(TargetOf(text, place))
  {
    assert (places + [place])[..|places|] == places;
  }

  lemma PlaceOf(text: string, i: nat) returns (place: Place)
    requires i <= |text| && MatchAt(text, i).Some?
    ensures place.open == i && LinkAt(text, i, place.middle, place.close)
    ensures MatchAt(text, i).value == Match(TargetOf(text, place), place.close + 1)
  {
    var m := MatchAt(text, i).value;
    MatchIffLink(text, i, m);
    var j: nat, k: nat :| LinkAt(text, i, j, k) && m == Match(text[j + 2..k], k + 1);
    place := Place(i, j, k);
  }

  /** `markdownLinksIn`; the places of the links are returned for the specification. */
  method MarkdownLinksIn(text: string) returns (links: seq<string>, ghost places: seq<Place>)
    ensures Leftmost(text, places, |text|) && links == TargetsAt(text, places)
    ensures links == Links(text, 0)
  {
    links, places := [], [];
    var at, m := Exec(text, 0);
    LeftmostOn(text, [], 0, at);
    while m.Some?
      invariant at <= |text| && m == MatchAt(text, at)
      invariant m.None? ==> at == |text|
      invariant Leftmost(text, places, at) && links == TargetsAt(text, places)
      decreases |text| - at, m.Some?
    {
      ghost var place := PlaceOf(text, at);
      LeftmostMore(text, places, place);
      links, places := links + Kept(m.value.target), places + [place];
      ghost var end := m.value.end;
      at, m := Exec(text, m.value.end);
      LeftmostOn(text, places, end, at);
    }
    LeftmostDecides(text, places, |text|);
  }

  lemma {:induction false} LinksGap(text: string, from: nat, until: nat)
    requires until <= |text| && Gap(text, from, until)
    ensures Links(text, from) == Links(text, until)
    decreases until - from
  {
    if from < until {
      NoMatchNoLink(text, from);
      LinksMiss(text, from);
      LinksGap(text, from + 1, until);
    }
  }

  /** The places decide the result: wherever they come from, it is their targets. */
  lemma {:induction false} LeftmostDecides(text: string, places: seq<Place>, until: nat)
    requires Leftmost(text, places, until) && until <= |text|
    ensures Links(text, 0) == TargetsAt(text, places) + Links(text, until)
    decreases |places|
  {
    if places == [] {
      LinksGap(text, 0, until);
      assert [] + Links(text, until) == Links(text, until);
    } else {
      var front, last := places[..|places| - 1], places[|places| - 1];
      LeftmostDecides(text, front, last.open);
      var m := Match(TargetOf(text, last), last.close + 1);
      PlaceScanned(text, last, m);
      LinksGap(text, m.end, until);
      KeptAppended(TargetsAt(text, front), Kept(TargetOf(text, last)), Links(text, until));
    }
  }

  lemma PlaceScanned(text: string, place: Place, m: Match)
    requires LinkAt(text, place.open, place.middle, place.close)
    requires m == Match(TargetOf(text, place), place.close + 1)
    ensures Links(text, place.open) == Kept(m.target) + Links(text, m.end)
  {
    LinkScanned(text, place.open, place.middle, place.close, m);
  }

  // ---------------------------------------------------------- round trip

  /** A link as a writer sees it, with the text before it. */
  datatype Item = Item(before: string, caption: string, target: string)
  {
    function Text(): string {
      before + "[" + caption + "](" + target + ")"
    }
  }

  predicate WellFormed(item: Item) {
    && Free(item.before, '[')
    && item.caption != "" && Free(item.caption, ']') && Free(item.caption, '\n')
    && item.target != "" && Free(item.target, ')') && Free(item.target, '\n')
  }

  function Print(items: seq<Item>, after: string): string {
    if items == [] then after else items[0].Text() + Print(items[1..], after)
  }

  function Targets(items: seq<Item>): seq<string> {
    if items == [] then [] else Kept(items[0].target) + Targets(items[1..])
  }

  lemma {:induction false} LinksSkip(text: string, from: nat, until: nat)
    requires from <= until <= |text| && Free(text[from..until], '[')
    ensures Links(text, from) == Links(text, until)
    decreases until - from
  {
    if from < until {
      assert text[from..until] == [text[from]] + text[from + 1..until];
      LinksStep(text, from);
      LinksSkip(text, from + 1, until);
    }
  }

  lemma LinksStep(text: string, from: nat)
    requires from < |text| && text[from] != '['
    ensures Links(text, from) == Links(text, from + 1)
  {
    LinksMiss(text, from);
  }

  /** The text of an item, by its parts. */
  ghost predicate Shaped(written: string, item: Item) {
    var b, c, t := |item.before|, |item.caption|, |item.target|;
    && |written| == b + c + t + 4
    && written[..b] == item.before && written[b] == '['
    && written[b + 1..b + 1 + c] == item.caption && written[b + 1 + c] == ']' && written[b + 2 + c] == '('
    && written[b + 3 + c..b + 3 + c + t] == item.target && written[b + 3 + c + t] == ')'
  }

  lemma ItemShaped(item: Item)
    ensures Shaped(item.Text(), item)
  {
  }

  lemma SliceConcat(text: string, start: nat, a: string, b: string)
    requires start <= |text| && text[start..] == a + b
    ensures start + |a| <= |text|
    ensures text[start..start + |a|] == a && text[start + |a|..] == b
  {
    assert text[start..start + |a|] == text[start..][..|a|];
    assert text[start + |a|..] == text[start..][|a|..];
  }

  lemma SliceIndex(text: string, start: nat, a: string, x: nat)
    requires start + |a| <= |text| && text[start..start + |a|] == a && x < |a|
    ensures text[start + x] == a[x]
  {
    assert text[start..start + |a|][x] == text[start + x];
  }

  lemma InnerSlice(text: string, start: nat, a: string, lo: nat, hi: nat)
    requires start + |a| <= |text| && text[start..start + |a|] == a && lo <= hi <= |a|
    ensures text[start + lo..start + hi] == a[lo..hi]
  {
    forall x | lo <= x < hi ensures text[start + x] == a[x] {
      SliceIndex(text, start, a, x);
    }
    var inner := text[start + lo..start + hi];
    forall x | 0 <= x < hi - lo ensures inner[x] == a[lo..hi][x] {
      assert inner[x] == text[start + (lo + x)];
    }
  }

  /** Where the brackets of an item stand, when the item is written at `start`. */
  predicate Marks(item: Item, start: nat, i: nat, j: nat, k: nat) {
    i == start + |item.before| && j == i + 1 + |item.caption| && k == j + 2 + |item.target|
  }

  /** The parts of an item that stands in a text, as slices of the text. */
  lemma ItemSlices(text: string, start: nat, written: string, item: Item, i: nat, j: nat, k: nat)
    requires Shaped(written, item) && Marks(item, start, i, j, k)
    requires start + |written| <= |text| && text[start..start + |written|] == written
    ensures k + 1 == start + |written|
    ensures text[start..i] == item.before && text[i + 1..j] == item.caption && text[j + 2..k] == item.target
  {
    var b := |item.before|;
    InnerSlice(text, start, written, 0, b);
    InnerSlice(text, start, written, b + 1, b + 1 + |item.caption|);
    InnerSlice(text, start, written, j + 2 - start, k - start);
  }

  lemma ItemBrackets(text: string, start: nat, written: string, item: Item, i: nat, j: nat, k: nat)
    requires Shaped(written, item) && Marks(item, start, i, j, k)
    requires start + |written| <= |text| && text[start..start + |written|] == written
    ensures k < |text| && text[i] == '[' && text[j] == ']' && text[j + 1] == '(' && text[k] == ')'
  {
    SliceIndex(text, start, written, i - start);
    SliceIndex(text, start, written, j - start);
    SliceIndex(text, start, written, j + 1 - start);
    SliceIndex(text, start, written, k - start);
  }

  lemma ItemIsLink(text: string, start: nat, written: string, item: Item, i: nat, j: nat, k: nat)
    requires WellFormed(item) && Shaped(written, item) && Marks(item, start, i, j, k)
    requires start + |written| <= |text| && text[start..start + |written|] == written
    ensures LinkAt(text, i, j, k) && text[j + 2..k] == item.target && k + 1 == start + |written|
    ensures text[start..i] == item.before
  {
    ItemSlices(text, start, written, item, i, j, k);
    ItemBrackets(text, start, written, item, i, j, k);
  }

  lemma LinkScanned(text: string, i: nat, j: nat, k: nat, m: Match)
    requires LinkAt(text, i, j, k) && m == Match(text[j + 2..k], k + 1)
    ensures Links(text, i) == Kept(m.target) + Links(text, m.end)
  {
    LinkMatches(text, i, j, k);
    LinksTake(text, i, m);
  }

  lemma LinkAfterPlain(text: string, start: nat, i: nat, j: nat, k: nat, m: Match)
    requires start <= i && LinkAt(text, i, j, k) && Free(text[start..i], '[')
    requires m == Match(text[j + 2..k], k + 1)
    ensures Links(text, start) == Kept(m.target) + Links(text, m.end)
  {
    LinksSkip(text, start, i);
    LinkScanned(text, i, j, k, m);
  }

  /** An item that stands in a text is found there, after the plain text before it. */
  lemma ItemMatches(text: string, start: nat, written: string, item: Item, m: Match)
    requires WellFormed(item) && Shaped(written, item)
    requires start + |written| <= |text| && text[start..start + |written|] == written
    requires m == Match(item.target, start + |written|)
    ensures Links(text, start) == Kept(m.target) + Links(text, m.end)
  {
    var i := start + |item.before|;
    var j := i + 1 + |item.caption|;
    var k := j + 2 + |item.target|;
    ItemIsLink(text, start, written, item, i, j, k);
    LinkAfterPlain(text, start, i, j, k, m);
  }

  lemma {:induction false} ScanFrom(text: string, start: nat, items: seq<Item>, after: string)
    requires start <= |text| && text[start..] == Print(items, after)
    requires forall i | 0 <= i < |items| :: WellFormed(items[i])
    requires Free(after, '[')
    ensures Links(text, start) == Targets(items)
    decreases |items|
  {
    if items == [] {
      assert start + |after| == |text| && text[start..start + |after|] == after;
      LinksSkip(text, start, |text|);
    } else {
      var rest := Print(items[1..], after);
      SliceConcat(text, start, items[0].Text(), rest);
      ItemShaped(items[0]);
      var end := start + |items[0].Text()|;
      ItemMatches(text, start, items[0].Text(), items[0], Match(items[0].target, end));
      ScanFrom(text, start + |items[0].Text()|, items[1..], after);
    }
  }

  /** Scanning undoes printing: from any well-formed links between texts without "[", the
      scanner returns exactly the trimmed targets, in order, without the blank ones. */
  lemma ScanUndoesPrint(items: seq<Item>, after: string)
    requires forall i | 0 <= i < |items| :: WellFormed(items[i])
    requires Free(after, '[')
    ensures Links(Print(items, after), 0) == Targets(items)
  {
    var text := Print(items, after);
    assert text[0..] == text;
    ScanFrom(text, 0, items, after);
  }
}
