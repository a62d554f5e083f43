/** The regular expressions and path prefixes that scripts/run-core-only-artifact-audit.ts
    looks for: fixed words, with runs of whitespace between them. */
module TextPatterns {
  import opened Wrappers
  import opened Strings

  /** A fixed word, `\s*` or `\s+`. */
  datatype Piece = Word(text: string) | Spaces | SomeSpaces

  predicate Fits(piece: Piece, s: string) {
    match piece
    case Word(text) => s == text
    case Spaces => AllWhite(s)
    case SomeSpaces => s != "" && AllWhite(s)
  }

  /** The string is made of one part for each piece, in order. */
  ghost predicate Fitted(pattern: seq<Piece>, s: string)
    decreases |pattern|
  {
    if pattern == [] then s == ""
    else exists k | 0 <= k <= |s| :: Fits(pattern[0], s[..k]) && Fitted(pattern[1..], s[k..])
  }

  /** The first place from `from` on that holds no whitespace. */
  function WhiteEnd(text: string, from: nat): (end: nat)
    requires from <= |text|
    ensures from <= end <= |text|
    ensures AllWhite(text[from..end])
    ensures end < |text| ==> !IsWhite(text[end])
    decreases |text| - from
  {
    if from < |text| && IsWhite(text[from]) then
      var end := WhiteEnd(text, from + 1);
      assert text[from..end] == [text[from]] + text[from + 1..end];
      end
    else from
  }

  /** Matches the pattern at one place, every run of whitespace as far as it goes. */
  function MatchEnd(pattern: seq<Piece>, text: string, from: nat): (end: Option<nat>)
    requires from <= |text|
    ensures end.Some? ==> from <= end.value <= |text|
    decreases |pattern|
  {
    if pattern == [] then Some(from)
    else
      match pattern[0]
      case Word(word) =>
        if OccursAt(text, word, from) then MatchEnd(pattern[1..], text, from + |word|) else None
      case Spaces => MatchEnd(pattern[1..], text, WhiteEnd(text, from))
      case SomeSpaces =>
        var end := WhiteEnd(text, from);
        if end == from then None else MatchEnd(pattern[1..], text, end)
  }

  predicate StartsDark(piece: Piece) {
    piece.Word? && |piece.text| > 0 && !IsWhite(piece.text[0])
  }

  /** Every run of whitespace is followed by a word that starts with none. */
  predicate Separated(pattern: seq<Piece>) {
    forall i | 0 <= i < |pattern| && !pattern[i].Word? :: i + 1 < |pattern| && StartsDark(pattern[i + 1])
  }

  lemma FittedFirst(pattern: seq<Piece>, s: string)
    requires pattern != [] && StartsDark(pattern[0]) && Fitted(pattern, s)
    ensures s != "" && !IsWhite(s[0])
  {
    var k :| 0 <= k <= |s| && Fits(pattern[0], s[..k]) && Fitted(pattern[1..], s[k..]);
    assert s[..k][0] == s[0];
  }

  lemma {:induction false} WhiteEndIs(text: string, from: nat, end: nat)
    requires from <= end <= |text| && AllWhite(text[from..end])
    requires end < |text| ==> !IsWhite(text[end])
    ensures WhiteEnd(text, from) == end
    decreases end - from
  {
    if from < end {
      assert text[from..end][0] == text[from];
      assert text[from + 1..end] == text[from..end][1..];
      WhiteEndIs(text, from + 1, end);
    }
  }

  lemma SeparatedRest(pattern: seq<Piece>)
    requires Separated(pattern) && pattern != []
    ensures Separated(pattern[1..])
    ensures !pattern[0].Word? ==> |pattern| > 1 && StartsDark(pattern[1..][0])
  {
    assert forall i | 0 <= i < |pattern| - 1 :: pattern[1..][i] == pattern[i + 1];
  }

  lemma SliceSplit(text: string, from: nat, mid: nat, end: nat)
    requires from <= mid <= end <= |text|
    ensures var s := text[from..end]; s[..mid - from] == text[from..mid] && s[mid - from..] == text[mid..end]
  {
  }

  /** A run of whitespace in front of a word is taken as far as it goes, and no other way of
      reading the text fits. */
  lemma RunIsWhole(pattern: seq<Piece>, text: string, from: nat, mid: nat, end: nat)
    requires from <= mid <= end <= |text| && AllWhite(text[from..mid])
    requires pattern != [] && StartsDark(pattern[0]) && Fitted(pattern, text[mid..end])
    ensures WhiteEnd(text, from) == mid
  {
    FittedFirst(pattern, text[mid..end]);
    assert text[mid..end][0] == text[mid];
    WhiteEndIs(text, from, mid);
  }

  lemma {:induction false} MatchFits(pattern: seq<Piece>, text: string, from: nat, end: nat)
    requires from <= |text| && MatchEnd(pattern, text, from) == Some(end)
    ensures Fitted(pattern, text[from..end])
    decreases |pattern|
  {
    if pattern != [] {
      var mid := if pattern[0].Word? then from + |pattern[0].text| else WhiteEnd(text, from);
      MatchFits(pattern[1..], text, mid, end);
      SliceSplit(text, from, mid, end);
      assert Fits(pattern[0], text[from..end][..mid - from]);
    }
  }

  lemma FirstLength(pattern: seq<Piece>, s: string) returns (k: nat)
    requires pattern != [] && Fitted(pattern, s)
    ensures k <= |s| && Fits(pattern[0], s[..k]) && Fitted(pattern[1..], s[k..])
  {
    k :| 0 <= k <= |s| && Fits(pattern[0], s[..k]) && Fitted(pattern[1..], s[k..]);
  }

  /** Where the first piece ends. */
  lemma FirstPart(pattern: seq<Piece>, text: string, from: nat, end: nat) returns (mid: nat)
    requires pattern != [] && from <= end <= |text| && Fitted(pattern, text[from..end])
    ensures from <= mid <= end && Fits(pattern[0], text[from..mid]) && Fitted(pattern[1..], text[mid..end])
  {
    var k := FirstLength(pattern, text[from..end]);
    mid := from + k;
    SliceSplit(text, from, mid, end);
    var s := text[from..end];
    assert s[..k] == text[from..mid] && s[k..] == text[mid..end];
  }

  lemma MatchFirst(pattern: seq<Piece>, text: string, from: nat, mid: nat, end: nat)
    requires Separated(pattern) && pattern != [] && from <= mid <= end <= |text|
    requires Fits(pattern[0], text[from..mid]) && Fitted(pattern[1..], text[mid..end])
    ensures MatchEnd(pattern, text, from) == MatchEnd(pattern[1..], text, mid)
  {
    match pattern[0]
    case Word(word) => MatchWord(pattern, word, text, from, mid);
    case Spaces =>
      MatchRun(pattern, text, from, mid, end);
      MatchSpaces(pattern, text, from, mid);
    case SomeSpaces =>
      MatchRun(pattern, text, from, mid, end);
      MatchSomeSpaces(pattern, text, from, mid);
  }

  lemma MatchWord(pattern: seq<Piece>, word: string, text: string, from: nat, mid: nat)
    requires pattern != [] && pattern[0] == Word(word) && from <= mid <= |text| && text[from..mid] == word
    ensures MatchEnd(pattern, text, from) == MatchEnd(pattern[1..], text, mid)
  {
    assert OccursAt(text, word, from) && mid == from + |word|;
  }

  lemma MatchSpaces(pattern: seq<Piece>, text: string, from: nat, mid: nat)
    requires pattern != [] && pattern[0].Spaces? && from <= |text| && WhiteEnd(text, from) == mid
    ensures MatchEnd(pattern, text, from) == MatchEnd(pattern[1..], text, mid)
  {
  }

  lemma MatchSomeSpaces(pattern: seq<Piece>, text: string, from: nat, mid: nat)
    requires pattern != [] && pattern[0].SomeSpaces? && from <= mid <= |text| && WhiteEnd(text, from) == mid
    requires text[from..mid] != ""
    ensures MatchEnd(pattern, text, from) == MatchEnd(pattern[1..], text, mid)
  {
    assert from < mid;
  }

  lemma MatchRun(pattern: seq<Piece>, text: string, from: nat, mid: nat, end: nat)
    requires Separated(pattern) && pattern != [] && !pattern[0].Word? && from <= mid <= end <= |text|
    requires AllWhite(text[from..mid]) && Fitted(pattern[1..], text[mid..end])
    ensures WhiteEnd(text, from) == mid
  {
    SeparatedRest(pattern);
    RunIsWhole(pattern[1..], text, from, mid, end);
  }

  lemma {:induction false} FitsMatch(pattern: seq<Piece>, text: string, from: nat, end: nat)
    requires Separated(pattern) && from <= end <= |text| && Fitted(pattern, text[from..end])
    ensures MatchEnd(pattern, text, from) == Some(end)
    decreases |pattern|
  {
    if pattern != [] {
      var mid := FirstPart(pattern, text, from, end);
      SeparatedRest(pattern);
      MatchFirst(pattern, text, from, mid, end);
      FitsMatch(pattern[1..], text, mid, end);
    }
  }

  /** Matching without backtracking finds exactly the texts that the pattern describes. */
  lemma MatchIffFits(pattern: seq<Piece>, text: string, from: nat, end: nat)
    requires Separated(pattern) && from <= end <= |text|
    ensures MatchEnd(pattern, text, from) == Some(end) <==> Fitted(pattern, text[from..end])
  {
    if MatchEnd(pattern, text, from) == Some(end) {
      MatchFits(pattern, text, from, end);
    }
    if Fitted(pattern, text[from..end]) {
      FitsMatch(pattern, text, from, end);
    }
  }

  // -------------------------------------------------------------- searching

  /** `/pattern/u.test(text)` */
  predicate Found(pattern: seq<Piece>, text: string) {
    exists i | 0 <= i <= |text| :: MatchEnd(pattern, text, i).Some?
  }

  /** `\w` */
  predicate IsWordChar(c: char) {
    'a' <= c <= 'z' || 'A' <= c <= 'Z' || '0' <= c <= '9' || c == '_'
  }

  /** `\b` */
  predicate IsBoundary(text: string, i: nat)
    requires i <= |text|
  {
    (i > 0 && IsWordChar(text[i - 1])) != (i < |text| && IsWordChar(text[i]))
  }

  /** `/\bpattern\b/u.test(text)` */
  predicate FoundAsWord(pattern: seq<Piece>, text: string) {
    exists i | 0 <= i <= |text| ::
      && IsBoundary(text, i)
      && var end := MatchEnd(pattern, text, i);
         end.Some? && IsBoundary(text, end.value)
  }

  /** The text holds a stretch that the pattern describes. */
  ghost predicate Described(pattern: seq<Piece>, text: string) {
    exists i, j | 0 <= i <= j <= |text| :: Fitted(pattern, text[i..j])
  }

  /** It holds one between word boundaries. */
  ghost predicate DescribedAsWord(pattern: seq<Piece>, text: string) {
    exists i, j | 0 <= i <= j <= |text| ::
      IsBoundary(text, i) && IsBoundary(text, j) && Fitted(pattern, text[i..j])
  }

  /** Searching finds a pattern exactly when the text holds what it describes. */
  lemma FoundIffDescribed(pattern: seq<Piece>, text: string)
    requires Separated(pattern)
    ensures Found(pattern, text) <==> Described(pattern, text)
    ensures FoundAsWord(pattern, text) <==> DescribedAsWord(pattern, text)
  {
    if i :| 0 <= i <= |text| && MatchEnd(pattern, text, i).Some? {
      MatchFits(pattern, text, i, MatchEnd(pattern, text, i).value);
    }
    if i, j :| 0 <= i <= j <= |text| && Fitted(pattern, text[i..j]) {
      FitsMatch(pattern, text, i, j);
    }
    if FoundAsWord(pattern, text) {
      var i :| 0 <= i <= |text| && IsBoundary(text, i)
        && MatchEnd(pattern, text, i).Some? && IsBoundary(text, MatchEnd(pattern, text, i).value);
      MatchFits(pattern, text, i, MatchEnd(pattern, text, i).value);
    }
    if i, j :| 0 <= i <= j <= |text| && IsBoundary(text, i) && IsBoundary(text, j) && Fitted(pattern, text[i..j]) {
      FitsMatch(pattern, text, i, j);
    }
  }

  // --------------------------------------------------------------- counting

  /** The number of matches of `/(?:prefix)?pattern/gu`, from `from` on. */
  function CountMatches(prefix: seq<Piece>, pattern: seq<Piece>, text: string, from: nat): nat
    requires from <= |text|
    decreases |text| - from
  {
    if from == |text| then 0
    else
      var long, short := MatchEnd(prefix + pattern, text, from), MatchEnd(pattern, text, from);
      if long.Some? && long.value > from then 1 + CountMatches(prefix, pattern, text, long.value)
      else if short.Some? && short.value > from then 1 + CountMatches(prefix, pattern, text, short.value)
      else CountMatches(prefix, pattern, text, from + 1)
  }

  /** The first character of a pattern never stands before its second one. */
  ghost predicate Quiet(s: string, a: char, b: char) {
    forall x | 0 <= x < |s| && s[x] == a :: x + 1 < |s| && s[x + 1] != b
  }

  ghost predicate QuietPieces(pieces: seq<Piece>, a: char, b: char) {
    forall i | 0 <= i < |pieces| && pieces[i].Word? :: Quiet(pieces[i].text, a, b)
  }

  /** The pattern starts with these two characters, and they stand together nowhere else. */
  ghost predicate Opens(pattern: seq<Piece>, a: char, b: char) {
    && pattern != [] && pattern[0].Word? && |pattern[0].text| >= 2 && !IsWhite(a)
    && pattern[0].text[0] == a && pattern[0].text[1] == b
    && Quiet(pattern[0].text[1..], a, b) && QuietPieces(pattern[1..], a, b)
  }

  lemma QuietConcat(s: string, t: string, a: char, b: char)
    requires Quiet(s, a, b) && Quiet(t, a, b)
    ensures Quiet(s + t, a, b)
  {
    var both := s + t;
    forall x | 0 <= x < |both| && both[x] == a ensures x + 1 < |both| && both[x + 1] != b {
      if x < |s| {
        assert s[x] == a;
      } else {
        assert t[x - |s|] == a;
      }
    }
  }

  lemma {:induction false} FittedQuiet(pattern: seq<Piece>, s: string, a: char, b: char)
    requires Fitted(pattern, s) && QuietPieces(pattern, a, b) && !IsWhite(a)
    ensures Quiet(s, a, b)
    decreases |pattern|
  {
    if pattern != [] {
      var k := FirstLength(pattern, s);
      QuietRest(pattern, a, b);
      FittedQuiet(pattern[1..], s[k..], a, b);
      FitsQuiet(pattern[0], s[..k], a, b);
      QuietConcat(s[..k], s[k..], a, b);
      assert s == s[..k] + s[k..];
    }
  }

  lemma QuietRest(pattern: seq<Piece>, a: char, b: char)
    requires QuietPieces(pattern, a, b) && pattern != []
    ensures QuietPieces(pattern[1..], a, b) && (pattern[0].Word? ==> Quiet(pattern[0].text, a, b))
  {
    assert forall i | 0 <= i < |pattern| - 1 :: pattern[1..][i] == pattern[i + 1];
  }

  lemma FitsQuiet(piece: Piece, s: string, a: char, b: char)
    requires Fits(piece, s) && (piece.Word? ==> Quiet(piece.text, a, b)) && !IsWhite(a)
    ensures Quiet(s, a, b)
  {
  }

  /** In a text that the pattern describes the two characters stand together at its start. */
  lemma FittedOpens(pattern: seq<Piece>, s: string, a: char, b: char)
    requires Fitted(pattern, s) && Opens(pattern, a, b)
    ensures |s| >= 2 && s[0] == a && s[1] == b && Quiet(s[1..], a, b)
  {
    var word := pattern[0].text;
    WordFirst(pattern, s);
    var rest := s[|word|..];
    FittedQuiet(pattern[1..], rest, a, b);
    QuietConcat(word[1..], rest, a, b);
    WordThen(word, rest, s);
  }

  lemma WordFirst(pattern: seq<Piece>, s: string)
    requires pattern != [] && pattern[0].Word? && Fitted(pattern, s)
    ensures var word := pattern[0].text;
      word <= s && Fitted(pattern[1..], s[|word|..])
  {
    var k := FirstLength(pattern, s);
  }

  lemma WordThen(word: string, rest: string, s: string)
    requires |word| >= 2 && word <= s && rest == s[|word|..]
    ensures s[0] == word[0] && s[1] == word[1] && s[1..] == word[1..] + rest
  {
  }

  lemma MatchOpens(pattern: seq<Piece>, text: string, x: nat, a: char, b: char)
    requires x <= |text| && Opens(pattern, a, b) && MatchEnd(pattern, text, x).Some?
    ensures x + 2 <= MatchEnd(pattern, text, x).value && text[x] == a && text[x + 1] == b
  {
    var end := MatchEnd(pattern, text, x).value;
    MatchFits(pattern, text, x, end);
    FittedOpens(pattern, text[x..end], a, b);
    assert text[x..end][0] == text[x] && text[x..end][1] == text[x + 1];
  }

  /** A match of two patterns in a row is a match of the one and then of the other. */
  lemma {:induction false} MatchConcat(prefix: seq<Piece>, pattern: seq<Piece>, text: string, from: nat)
    requires from <= |text|
    ensures var first := MatchEnd(prefix, text, from);
      MatchEnd(prefix + pattern, text, from) ==
        if first.Some? then MatchEnd(pattern, text, first.value) else None
    decreases |prefix|
  {
    if prefix == [] {
      assert prefix + pattern == pattern;
    } else {
      assert (prefix + pattern)[0] == prefix[0] && (prefix + pattern)[1..] == prefix[1..] + pattern;
      match prefix[0]
      case Word(word) =>
        if OccursAt(text, word, from) {
          MatchConcat(prefix[1..], pattern, text, from + |word|);
        }
      case Spaces => MatchConcat(prefix[1..], pattern, text, WhiteEnd(text, from));
      case SomeSpaces =>
        if WhiteEnd(text, from) > from {
          MatchConcat(prefix[1..], pattern, text, WhiteEnd(text, from));
        }
    }
  }

  /** The places from `from` on where the pattern matches. */
  function PlacesFrom(pattern: seq<Piece>, text: string, from: nat): set<nat>
    requires from <= |text|
  {
    set x: nat | from <= x <= |text| && MatchEnd(pattern, text, x).Some?
  }

  lemma QuietSlice(text: string, from: nat, until: nat, x: nat, a: char, b: char)
    requires from <= x < until <= |text| && Quiet(text[from..until], a, b) && text[x] == a
    ensures x + 1 < until && text[x + 1] != b
  {
    var s := text[from..until];
    assert s[x - from] == a;
    assert s[x - from + 1] == text[x + 1];
  }

  /** Inside one match, prefix and all, the pattern matches at one place only. */
  lemma OnePlace(
    prefix: seq<Piece>, pattern: seq<Piece>, text: string, from: nat, mid: nat, x: nat, a: char, b: char)
    requires Opens(pattern, a, b) && QuietPieces(prefix, a, b) && from <= mid <= |text|
    requires MatchEnd(prefix, text, from) == Some(mid) && MatchEnd(pattern, text, mid).Some?
    requires from <= x < MatchEnd(pattern, text, mid).value && MatchEnd(pattern, text, x).Some?
    ensures x == mid
  {
    var end := MatchEnd(pattern, text, mid).value;
    MatchOpens(pattern, text, x, a, b);
    MatchFits(prefix, text, from, mid);
    FittedQuiet(prefix, text[from..mid], a, b);
    MatchFits(pattern, text, mid, end);
    FittedOpens(pattern, text[mid..end], a, b);
    assert text[mid..end][1..] == text[mid + 1..end];
    if x < mid {
      QuietSlice(text, from, mid, x, a, b);
    } else if x > mid {
      QuietSlice(text, mid + 1, end, x, a, b);
    }
  }

  lemma PlacesAfterMatch(
    prefix: seq<Piece>, pattern: seq<Piece>, text: string, from: nat, mid: nat, end: nat, a: char, b: char)
    requires Opens(pattern, a, b) && QuietPieces(prefix, a, b) && from <= mid <= |text|
    requires MatchEnd(prefix, text, from) == Some(mid) && MatchEnd(pattern, text, mid) == Some(end)
    ensures mid < end <= |text| && |PlacesFrom(pattern, text, from)| == 1 + |PlacesFrom(pattern, text, end)|
  {
    MatchOpens(pattern, text, mid, a, b);
    var all, later := PlacesFrom(pattern, text, from), PlacesFrom(pattern, text, end);
    forall x | x in all ensures x == mid || x in later {
      if x < end {
        OnePlace(prefix, pattern, text, from, mid, x, a, b);
      }
    }
    assert all == later + {mid} && mid !in later;
  }

  lemma PlacesStep(pattern: seq<Piece>, text: string, from: nat)
    requires from < |text| && MatchEnd(pattern, text, from).None?
    ensures PlacesFrom(pattern, text, from) == PlacesFrom(pattern, text, from + 1)
  {
  }

  /** The count, with or without the prefix, is the number of places where the pattern
      matches: no match hides another one. */
  lemma {:induction false} CountIsPlaces(
    prefix: seq<Piece>, pattern: seq<Piece>, text: string, from: nat, a: char, b: char)
    requires Opens(pattern, a, b) && QuietPieces(prefix, a, b) && from <= |text|
    ensures CountMatches(prefix, pattern, text, from) == |PlacesFrom(pattern, text, from)|
    decreases |text| - from
  {
    if from == |text| {
      NoPlaceAtEnd(pattern, text, a, b);
    } else {
      var first, short := MatchEnd(prefix, text, from), MatchEnd(pattern, text, from);
      MatchConcat(prefix, pattern, text, from);
      if first.Some? && MatchEnd(pattern, text, first.value).Some? {
        var end := MatchEnd(pattern, text, first.value).value;
        PlacesAfterMatch(prefix, pattern, text, from, first.value, end, a, b);
        CountIsPlaces(prefix, pattern, text, end, a, b);
      } else if short.Some? {
        PlacesAfterMatch([], pattern, text, from, from, short.value, a, b);
        CountIsPlaces(prefix, pattern, text, short.value, a, b);
      } else {
        PlacesStep(pattern, text, from);
        CountIsPlaces(prefix, pattern, text, from + 1, a, b);
      }
    }
  }

  lemma NoPlaceAtEnd(pattern: seq<Piece>, text: string, a: char, b: char)
    requires Opens(pattern, a, b)
    ensures PlacesFrom(pattern, text, |text|) == {}
  {
    MatchRoom(pattern, text, |text|, a, b);
  }

  lemma MatchRoom(pattern: seq<Piece>, text: string, x: nat, a: char, b: char)
    requires Opens(pattern, a, b) && x <= |text|
    ensures MatchEnd(pattern, text, x).Some? ==> x + 2 <= |text|
  {
    if MatchEnd(pattern, text, x).Some? {
      MatchOpens(pattern, text, x, a, b);
    }
  }

  // --------------------------------------------------------------- patterns

  const HELPER := "stableStringifyProviderObject"

  const NODE_JS: seq<Piece> := [Word("NodeJS")]
  const EXECUTOR_PROVIDER: seq<Piece> := [Word("ExecutorProvider")]
  const PROVIDER_EXECUTE: seq<Piece> := [Word("provider"), Spaces, Word("."), Spaces, Word("execute")]
  const EXPORT_PREFIX: seq<Piece> := [Word("export"), SomeSpaces]
  const DEFINITION: seq<Piece> := [Word("function"), SomeSpaces, Word(HELPER), Spaces, Word("(")]

  function ImportsIndex(open: char, close: char): seq<Piece> {
    [Word("from"), SomeSpaces, Word([open] + "./index.js" + [close])]
  }

  lemma PatternsSeparated()
    ensures Separated(PROVIDER_EXECUTE) && Separated(DEFINITION) && Separated(EXPORT_PREFIX + DEFINITION)
    ensures Separated(NODE_JS) && Separated(EXECUTOR_PROVIDER)
  {
    HelperStartsDark();
    assert StartsDark(Word(".")) && StartsDark(Word("execute")) && StartsDark(Word("(")) && StartsDark(Word("function"));
  }

  lemma IndexPatternSeparated(open: char, close: char)
    requires !IsWhite(open)
    ensures Separated(ImportsIndex(open, close))
  {
    assert ([open] + "./index.js" + [close])[0] == open;
  }

  lemma HelperStartsDark()
    ensures StartsDark(Word(HELPER))
  {
    assert HELPER[0] == 's';
  }

  predicate MentionsNodeJs(text: string) {
    FoundAsWord(NODE_JS, text)
  }

  predicate MentionsExecutorProvider(text: string) {
    FoundAsWord(EXECUTOR_PROVIDER, text)
  }

  predicate CallsProviderExecute(text: string) {
    FoundAsWord(PROVIDER_EXECUTE, text)
  }

  function HelperDefinitions(text: string): nat {
    CountMatches(EXPORT_PREFIX, DEFINITION, text, 0)
  }

  predicate ExportsHelper(text: string) {
    Found(EXPORT_PREFIX + DEFINITION, text)
  }

  predicate ImportsOwnIndex(text: string) {
    || Found(ImportsIndex('"', '"'), text) || Found(ImportsIndex('\'', '\''), text)
    || Found(ImportsIndex('"', '\''), text) || Found(ImportsIndex('\'', '"'), text)
  }

  /** The places in a text where the helper is defined. */
  ghost function Definitions(text: string): set<nat> {
    set x: nat | x <= |text| && DefinedAt(text, x)
  }

  ghost predicate DefinedAt(text: string, x: nat)
    requires x <= |text|
  {
    exists j | x <= j <= |text| :: Fitted(DEFINITION, text[x..j])
  }

  lemma DefinitionOpens()
    ensures Opens(DEFINITION, 'f', 'u') && QuietPieces(EXPORT_PREFIX, 'f', 'u')
  {
    HelperQuiet();
    assert "function"[1..] == "unction";
    assert DEFINITION[1..] == [SomeSpaces, Word(HELPER), Spaces, Word("(")];
  }

  lemma HelperQuiet()
    ensures Quiet(HELPER, 'f', 'u')
  {
    assert HELPER[13] == 'f' && HELPER[14] == 'y';
  }

  lemma PlacesAreDefinitions(text: string)
    ensures PlacesFrom(DEFINITION, text, 0) == Definitions(text)
  {
    PatternsSeparated();
    forall x: nat | x <= |text|
      ensures MatchEnd(DEFINITION, text, x).Some? <==> DefinedAt(text, x)
    {
      if MatchEnd(DEFINITION, text, x).Some? {
        MatchFits(DEFINITION, text, x, MatchEnd(DEFINITION, text, x).value);
      }
      if j :| x <= j <= |text| && Fitted(DEFINITION, text[x..j]) {
        FitsMatch(DEFINITION, text, x, j);
      }
    }
  }

  /** What the searches of the review find is what their patterns describe, and the count of
      definitions is the number of places that hold one. */
  lemma SearchesMean(text: string)
    ensures MentionsNodeJs(text) <==> DescribedAsWord(NODE_JS, text)
    ensures MentionsExecutorProvider(text) <==> DescribedAsWord(EXECUTOR_PROVIDER, text)
    ensures CallsProviderExecute(text) <==> DescribedAsWord(PROVIDER_EXECUTE, text)
    ensures ExportsHelper(text) <==> Described(EXPORT_PREFIX + DEFINITION, text)
    ensures HelperDefinitions(text) == |Definitions(text)|
  {
    PatternsSeparated();
    FoundIffDescribed(NODE_JS, text);
    FoundIffDescribed(EXECUTOR_PROVIDER, text);
    FoundIffDescribed(PROVIDER_EXECUTE, text);
    FoundIffDescribed(EXPORT_PREFIX + DEFINITION, text);
    DefinitionOpens();
    CountIsPlaces(EXPORT_PREFIX, DEFINITION, text, 0, 'f', 'u');
    PlacesAreDefinitions(text);
  }

  /** An import of the own index is found with any pair of quotes. */
  lemma ImportsOwnIndexMeans(text: string)
    ensures ImportsOwnIndex(text) <==>
      exists open, close | open in {'"', '\''} && close in {'"', '\''} :: Described(ImportsIndex(open, close), text)
  {
    forall open, close | open in {'"', '\''} && close in {'"', '\''}
      ensures Found(ImportsIndex(open, close), text) <==> Described(ImportsIndex(open, close), text)
    {
      IndexPatternSeparated(open, close);
      FoundIffDescribed(ImportsIndex(open, close), text);
    }
  }

  // ------------------------------------------------------------------ paths

  predicate StartsWithAny(path: string, prefixes: seq<string>) {
    exists p | p in prefixes :: StartsWith(path, p)
  }

  /** `classifyForbiddenArtifactPath` */
  function ForbiddenPathReasons(path: string): seq<string> {
    ["artifact_file_not_allowlisted"]
    + (if path in ["dist/packages/provider-core/src/index.js", "dist/packages/provider-core/src/index.d.ts"]
       then ["provider_core_internal_present"] else [])
    + (if Contains(path, "governance-internal-workspace-write-executor")
       then ["workspace_write_executor_present"] else [])
    + (if StartsWithAny(path, LEGACY_PREFIXES) then ["legacy_compatibility_present"] else [])
    + (if path in LEGACY_FACADES then ["legacy_facade_present"] else [])
    + (if StartsWithAny(path, RUNTIME_FAMILIES) then ["runtime_family_present"] else [])
    + (if StartsWithAny(path, TEST_PREFIXES) || Contains(path, "/test-fixtures/")
       then ["test_fixture_present"] else [])
  }

  const LEGACY_PREFIXES: seq<string> := [
    "dist/packages/contracts/",
    "dist/packages/kernel-contracts/src/index.",
    "dist/packages/kernel-contracts/src/legacy-adapter."]

  const LEGACY_FACADES: seq<string> := [
    "dist/packages/public-api/src/index.js", "dist/packages/public-api/src/index.d.ts",
    "dist/packages/public-api/src/sdk.js", "dist/packages/public-api/src/sdk.d.ts",
    "dist/packages/public-api/src/host.js", "dist/packages/public-api/src/host.d.ts",
    "dist/packages/public-api/src/support.js", "dist/packages/public-api/src/support.d.ts"]

  const RUNTIME_FAMILIES: seq<string> := [
    "dist/packages/agent-os-", "dist/packages/codex-cli-host/", "dist/packages/codex-desktop-",
    "dist/packages/codex-memory-", "dist/packages/desktop-", "dist/packages/protocol-mcp/",
    "dist/packages/protocol-a2a/", "dist/packages/host-client-example/"]

  const TEST_PREFIXES: seq<string> := ["dist/tests/", "dist/scripts/", "tests/", "scripts/", "docs/evidence/"]
}
