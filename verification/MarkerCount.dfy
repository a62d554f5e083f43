/** Counting markers in joined documents: `countIncludes` and `noBroadExecutionAuthorization`
    of scripts/run-agent-executor-adapter-review-boundary-audit.ts. */
module MarkerCount {
  import opened Strings

  /** `text.split(marker)`: an empty marker splits between all characters. */
  function SplitOn(text: string, marker: string): seq<string>
    decreases |text|
  {
    if marker == "" then seq(|text|, i requires 0 <= i < |text| => [text[i]])
    else if text == "" then [""]
    else if marker <= text then [""] + SplitOn(text[|marker|..], marker)
    else
      var rest := SplitOn(text[1..], marker);
      if rest == [] then [] else [[text[0]] + rest[0]] + rest[1..]
  }

  /** `countIncludes` */
  function CountIncludes(text: string, marker: string): int {
    |SplitOn(text, marker)| - 1
  }

  function JoinOn(parts: seq<string>, marker: string): string {
    if parts == [] then "" else if |parts| == 1 then parts[0] else parts[0] + marker + JoinOn(parts[1..], marker)
  }

  lemma JoinOnEmptyFirst(rest: seq<string>, marker: string)
    requires rest != []
    ensures JoinOn([""] + rest, marker) == marker + JoinOn(rest, marker)
  {
    assert ([""] + rest)[1..] == rest;
    assert "" + marker == marker;
  }

  lemma JoinOnCons(c: char, rest: seq<string>, marker: string)
    requires rest != []
    ensures JoinOn([[c] + rest[0]] + rest[1..], marker) == [c] + JoinOn(rest, marker)
  {
    var longer := [[c] + rest[0]] + rest[1..];
    assert longer[1..] == rest[1..];
    if |rest| > 1 {
      assert [c] + rest[0] + marker + JoinOn(rest[1..], marker) == [c] + (rest[0] + marker + JoinOn(rest[1..], marker));
    }
  }

  lemma {:induction false} SplitOnSome(text: string, marker: string)
    requires marker != ""
    ensures SplitOn(text, marker) != []
    decreases |text|
  {
    if text != "" && !(marker <= text) {
      SplitOnSome(text[1..], marker);
    }
  }

  /** The parts and the markers between them are the text again. */
  lemma {:induction false} SplitOnJoins(text: string, marker: string)
    requires marker != ""
    ensures JoinOn(SplitOn(text, marker), marker) == text
    decreases |text|
  {
    SplitOnSome(text, marker);
    if text != "" {
      if marker <= text {
        SplitOnSome(text[|marker|..], marker);
        SplitOnJoins(text[|marker|..], marker);
        MarkerJoins(text, marker, SplitOn(text[|marker|..], marker));
      } else {
        SplitOnSome(text[1..], marker);
        SplitOnJoins(text[1..], marker);
        CharJoins(text, marker, SplitOn(text[1..], marker));
      }
    }
  }

  lemma MarkerJoins(text: string, marker: string, rest: seq<string>)
    requires marker <= text && rest != [] && JoinOn(rest, marker) == text[|marker|..]
    ensures JoinOn([""] + rest, marker) == text
  {
    JoinOnEmptyFirst(rest, marker);
  }

  lemma CharJoins(text: string, marker: string, rest: seq<string>)
    requires text != "" && rest != [] && JoinOn(rest, marker) == text[1..]
    ensures JoinOn([[text[0]] + rest[0]] + rest[1..], marker) == text
  {
    JoinOnCons(text[0], rest, marker);
  }

  /** No part holds the marker, so none was missed. */
  lemma {:induction false} PartsFree(text: string, marker: string, k: nat)
    requires marker != "" && k < |SplitOn(text, marker)|
    ensures !Contains(SplitOn(text, marker)[k], marker)
    decreases |text|
  {
    var parts := SplitOn(text, marker);
    if text != "" && marker <= text {
      if k > 0 {
        PartsFree(text[|marker|..], marker, k - 1);
      }
    } else if text != "" {
      var rest := SplitOn(text[1..], marker);
      PartsFree(text[1..], marker, k);
      if k == 0 {
        SplitOnJoins(text, marker);
        FirstPartIsPrefix(parts, marker);
        assert parts[0][1..] == rest[0];
        ContainsCons(parts[0], marker);
      }
    }
  }

  lemma FirstPartIsPrefix(parts: seq<string>, marker: string)
    requires parts != []
    ensures parts[0] <= JoinOn(parts, marker)
  {
  }

  /** Places where the marker occurs, in order and not overlapping. */
  ghost predicate Apart(text: string, marker: string, places: seq<nat>) {
    && (forall i | 0 <= i < |places| :: OccursAt(text, marker, places[i]))
    && (forall i, j | 0 <= i < j < |places| :: places[i] + |marker| <= places[j])
  }

  function Shifted(places: seq<nat>, back: nat): seq<nat>
    requires forall i | 0 <= i < |places| :: back <= places[i]
  {
    seq(|places|, i requires 0 <= i < |places| => places[i] - back)
  }

  lemma ApartShifted(text: string, marker: string, places: seq<nat>, back: nat)
    requires Apart(text, marker, places) && back <= |text|
    requires forall i | 0 <= i < |places| :: back <= places[i]
    ensures Apart(text[back..], marker, Shifted(places, back))
  {
    forall i | 0 <= i < |places| ensures OccursAt(text[back..], marker, places[i] - back) {
      OccursLater(text, marker, back, places[i] - back);
    }
  }

  lemma FirstPlace(text: string, marker: string)
    ensures OccursAt(text, marker, 0) <==> marker <= text
  {
    assert |marker| <= |text| ==> text[0..|marker|] == text[..|marker|];
  }

  lemma OccursLater(text: string, marker: string, on: nat, place: nat)
    requires on <= |text|
    ensures OccursAt(text[on..], marker, place) <==> OccursAt(text, marker, place + on)
  {
    if place + on + |marker| <= |text| {
      assert text[on..][place..place + |marker|] == text[place + on..place + on + |marker|];
    }
  }

  /** The count is the largest number of places without overlap: there are never more. */
  lemma {:induction false} CountIsMost(text: string, marker: string, places: seq<nat>)
    requires marker != "" && Apart(text, marker, places)
    ensures |places| <= CountIncludes(text, marker)
    decreases |text|
  {
    SplitOnJoins(text, marker);
    if places != [] {
      assert OccursAt(text, marker, places[0]);
      assert text != "";
      if marker <= text {
        var rest := places[1..];
        assert forall i | 0 <= i < |rest| :: rest[i] == places[i + 1] && places[0] + |marker| <= places[i + 1];
        ApartShifted(text, marker, rest, |marker|);
        CountIsMost(text[|marker|..], marker, Shifted(rest, |marker|));
      } else {
        FirstPlace(text, marker);
        assert forall i | 0 <= i < |places| :: places[0] <= places[i];
        ApartShifted(text, marker, places, 1);
        CountIsMost(text[1..], marker, Shifted(places, 1));
        SplitOnJoins(text[1..], marker);
      }
    }
  }

  function Moved(places: seq<nat>, on: nat): seq<nat> {
    seq(|places|, i requires 0 <= i < |places| => places[i] + on)
  }

  lemma ApartMoved(text: string, marker: string, places: seq<nat>, on: nat)
    requires on <= |text| && Apart(text[on..], marker, places)
    ensures Apart(text, marker, Moved(places, on))
  {
    forall i | 0 <= i < |places| ensures OccursAt(text, marker, places[i] + on) {
      OccursLater(text, marker, on, places[i]);
    }
  }

  lemma ApartFirst(text: string, marker: string, places: seq<nat>)
    requires marker <= text && Apart(text[|marker|..], marker, places)
    ensures Apart(text, marker, [0] + Moved(places, |marker|))
  {
    FirstPlace(text, marker);
    ApartMoved(text, marker, places, |marker|);
    PlaceInFront(text, marker, Moved(places, |marker|));
  }

  lemma PlaceInFront(text: string, marker: string, places: seq<nat>)
    requires OccursAt(text, marker, 0) && Apart(text, marker, places)
    requires forall i | 0 <= i < |places| :: |marker| <= places[i]
    ensures Apart(text, marker, [0] + places)
  {
    var all := [0] + places;
    assert forall i | 1 <= i < |all| :: all[i] == places[i - 1];
  }

  /** And there are as many. */
  lemma {:induction false} CountIsReached(text: string, marker: string) returns (places: seq<nat>)
    requires marker != ""
    ensures Apart(text, marker, places) && |places| == CountIncludes(text, marker)
    decreases |text|
  {
    if text == "" {
      places := [];
    } else if marker <= text {
      var rest := CountIsReached(text[|marker|..], marker);
      ApartFirst(text, marker, rest);
      places := [0] + Moved(rest, |marker|);
    } else {
      var rest := CountIsReached(text[1..], marker);
      ApartMoved(text, marker, rest, 1);
      SplitOnJoins(text[1..], marker);
      places := Moved(rest, 1);
    }
  }

  // ---------------------------------------------------------- joined texts

  /** A marker without a line end does not reach over one. */
  lemma PrefixStaysInLine(a: string, b: string, marker: string)
    requires Free(marker, '\n')
    ensures marker <= a + "\n" + b <==> marker <= a
  {
    if marker <= a + "\n" + b && |marker| > |a| {
      LongPrefixReachesOver(a, b, marker);
    }
    if marker <= a + "\n" + b {
      assert marker == (a + "\n" + b)[..|marker|] == a[..|marker|];
    }
  }

  lemma LongPrefixReachesOver(a: string, b: string, marker: string)
    requires marker <= a + "\n" + b && |marker| > |a|
    ensures !Free(marker, '\n')
  {
    assert marker[|a|] == (a + "\n" + b)[|a|] == '\n';
  }

  lemma {:induction false} CountOverLine(a: string, b: string, marker: string)
    requires marker != "" && Free(marker, '\n')
    ensures CountIncludes(a + "\n" + b, marker) == CountIncludes(a, marker) + CountIncludes(b, marker)
    decreases |a|
  {
    var joined := a + "\n" + b;
    PrefixStaysInLine(a, b, marker);
    SplitOnJoins(joined[1..], marker);
    if a == "" {
      assert joined[1..] == b;
      assert marker[0] in marker;
    } else if marker <= a {
      assert joined[|marker|..] == a[|marker|..] + "\n" + b;
      CountOverLine(a[|marker|..], b, marker);
    } else {
      assert joined[1..] == a[1..] + "\n" + b;
      SplitOnJoins(a[1..], marker);
      CountOverLine(a[1..], b, marker);
    }
  }

  lemma {:induction false} ContainsOverLine(a: string, b: string, marker: string)
    requires marker != "" && Free(marker, '\n')
    ensures Contains(a + "\n" + b, marker) <==> Contains(a, marker) || Contains(b, marker)
    decreases |a|
  {
    var joined := a + "\n" + b;
    PrefixStaysInLine(a, b, marker);
    ContainsCons(joined, marker);
    ContainsCons(a, marker);
    if a == "" {
      assert joined[1..] == b;
    } else {
      assert joined[1..] == a[1..] + "\n" + b;
      ContainsOverLine(a[1..], b, marker);
    }
  }

  function SumCounts(texts: seq<string>, marker: string): int {
    if texts == [] then 0 else CountIncludes(texts[0], marker) + SumCounts(texts[1..], marker)
  }

  /** In texts joined by line ends, a marker without a line end occurs as often as in the
      texts together, and occurs at all exactly when it occurs in one of them. */
  lemma {:induction false} JoinedTexts(texts: seq<string>, marker: string)
    requires texts != [] && marker != "" && Free(marker, '\n')
    ensures CountIncludes(Join(texts, '\n'), marker) == SumCounts(texts, marker)
    ensures Contains(Join(texts, '\n'), marker) <==> exists i | 0 <= i < |texts| :: Contains(texts[i], marker)
  {
    if |texts| > 1 {
      JoinedTexts(texts[1..], marker);
      CountOverLine(texts[0], Join(texts[1..], '\n'), marker);
      ContainsOverLine(texts[0], Join(texts[1..], '\n'), marker);
      assert Join(texts, '\n') == texts[0] + "\n" + Join(texts[1..], '\n');
      if i :| 0 <= i < |texts| && Contains(texts[i], marker) && i > 0 {
        assert texts[i] == texts[1..][i - 1];
      }
      if i :| 0 <= i < |texts[1..]| && Contains(texts[1..][i], marker) {
        assert texts[i + 1] == texts[1..][i];
      }
    } else {
      assert texts[1..] == [] && texts == [texts[0]];
    }
  }

  /** With a line end in the marker the joined text can hold what no text holds. */
  lemma LineEndMatters()
    ensures Contains(Join(["a", "b"], '\n'), "a\nb") && !Contains("a", "a\nb") && !Contains("b", "a\nb")
  {
    assert Join(["a", "b"], '\n') == "a\nb";
    assert OccursAt("a\nb", "a\nb", 0);
  }

  // ------------------------------------------------------------- the check

  const CLOSEOUT := "This closeout does not authorize"

  const REQUIRED: seq<string> := [
    "adapter invocation", "Codex CLI", "sub-agent", "provider", "shell", "workspace", "external"]

  const FORBIDDEN: seq<string> := [
    "sub-agent runtime execution authorized", "adapter invocation allowed",
    "invocationSupported = true", "requestedSideEffectClass = sandbox_only"]

  /** The closeout sentence at least twice, every required marker, no forbidden one. */
  predicate KeepsNarrow(text: string, closeout: string, required: seq<string>, forbidden: seq<string>) {
    && CountIncludes(text, closeout) >= 2
    && (forall m | m in required :: Contains(text, m))
    && (forall m | m in forbidden :: !Contains(text, m))
  }

  /** `noBroadExecutionAuthorization`, over the four documents. */
  predicate NoBroadExecutionAuthorization(texts: seq<string>) {
    KeepsNarrow(Join(texts, '\n'), CLOSEOUT, REQUIRED, FORBIDDEN)
  }

  predicate OneLine(m: string) {
    m != "" && Free(m, '\n')
  }

  lemma CloseoutIsLine()
    ensures OneLine(CLOSEOUT)
  {
  }

  lemma RequiredAreLines()
    ensures forall m | m in REQUIRED :: OneLine(m)
  {
    assert OneLine("adapter invocation") && OneLine("Codex CLI") && OneLine("sub-agent");
    assert OneLine("provider") && OneLine("shell") && OneLine("workspace") && OneLine("external");
  }

  lemma ForbiddenAreLines()
    ensures forall m | m in FORBIDDEN :: OneLine(m)
  {
    SentencesAreLines();
    AssignmentsAreLines();
  }

  lemma SentencesAreLines()
    ensures OneLine("sub-agent runtime execution authorized") && OneLine("adapter invocation allowed")
  {
  }

  lemma AssignmentsAreLines()
    ensures OneLine("invocationSupported = true") && OneLine("requestedSideEffectClass = sandbox_only")
  {
  }

  lemma NarrowPerDocument(
    texts: seq<string>, closeout: string, required: seq<string>, forbidden: seq<string>)
    requires texts != [] && OneLine(closeout)
    requires forall m | m in required :: OneLine(m)
    requires forall m | m in forbidden :: OneLine(m)
    ensures KeepsNarrow(Join(texts, '\n'), closeout, required, forbidden) <==>
      && SumCounts(texts, closeout) >= 2
      && (forall m | m in required :: exists i | 0 <= i < |texts| :: Contains(texts[i], m))
      && (forall m, i | m in forbidden && 0 <= i < |texts| :: !Contains(texts[i], m))
  {
    JoinedTexts(texts, closeout);
    forall m | m in required || m in forbidden
      ensures Contains(Join(texts, '\n'), m) <==> exists i | 0 <= i < |texts| :: Contains(texts[i], m)
    {
      JoinedTexts(texts, m);
    }
  }

  /** The check on the joined text is the check on the documents one by one: the closeout
      sentence twice in all, each required marker somewhere, no forbidden marker anywhere. */
  lemma CheckedPerDocument(texts: seq<string>)
    requires texts != []
    ensures NoBroadExecutionAuthorization(texts) <==>
      && SumCounts(texts, CLOSEOUT) >= 2
      && (forall m | m in REQUIRED :: exists i | 0 <= i < |texts| :: Contains(texts[i], m))
      && (forall m, i | m in FORBIDDEN && 0 <= i < |texts| :: !Contains(texts[i], m))
  {
    CloseoutIsLine();
    RequiredAreLines();
    ForbiddenAreLines();
    NarrowPerDocument(texts, CLOSEOUT, REQUIRED, FORBIDDEN);
  }
}
