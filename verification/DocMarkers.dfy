/** Marker search that does not depend on line wrapping: `normalizeDocTextForMarkerSearch`
    and the functions built on it in scripts/check-governance-docs.ts. */
module DocMarkers {
  import opened Strings

  /** `text.replace(/\s+/g, " ")` */
  function Collapse(s: string): string
    decreases |s|
  {
    if s == "" then ""
    else if IsWhite(s[0]) then SkipShorter(s); " " + Collapse(TrimStart(s))
    else [s[0]] + Collapse(s[1..])
  }

  lemma SkipShorter(s: string)
    requires s != "" && IsWhite(s[0])
    ensures |TrimStart(s)| < |s|
  {
    TrimStartLength(s[1..]);
  }

  lemma TrimStartLength(s: string)
    ensures |TrimStart(s)| <= |s|
    ensures TrimStart(s) != "" ==> !IsWhite(TrimStart(s)[0])
  {
  }

  /** The markers that a text does not contain, up to line wrapping. */
  function MissingMarkers(text: string, markers: seq<string>): seq<string> {
    if markers == [] then []
    else
      (if Contains(Collapse(text), Collapse(markers[0])) then [] else [markers[0]])
      + MissingMarkers(text, markers[1..])
  }

  // ------------------------------------------------------------ re-wrapping

  /** One run of whitespace, or a part of one, is replaced by another. */
  ghost predicate RewrapStep(s: string, t: string) {
    exists a, g, h, b :: RewrapAt(s, t, a, g, h, b)
  }

  ghost predicate RewrapAt(s: string, t: string, a: string, g: string, h: string, b: string) {
    s == a + g + b && t == a + h + b && g != "" && h != "" && AllWhite(g) && AllWhite(h)
  }

  ghost predicate RewrapChain(chain: seq<string>) {
    chain != [] && forall i | 0 <= i < |chain| - 1 :: RewrapStep(chain[i], chain[i + 1])
  }

  /** Any number of such replacements. */
  ghost predicate Rewrapped(s: string, t: string) {
    exists chain :: RewrapChain(chain) && chain[0] == s && chain[|chain| - 1] == t
  }

  lemma CollapseWhite(g: string, b: string)
    requires g != "" && AllWhite(g)
    ensures Collapse(g + b) == " " + Collapse(TrimStart(b))
  {
    TrimStartWhite(g, b);
    assert (g + b)[0] == g[0];
  }

  /** A run of whitespace before a text that starts with a word is one of its own. */
  lemma {:induction false} TrimStartSplits(a: string, b: string)
    ensures TrimStart(a) != "" ==> TrimStart(a + b) == TrimStart(a) + b
    ensures TrimStart(a) == "" ==> TrimStart(a + b) == TrimStart(b)
  {
    if a == "" {
      assert a + b == b;
    } else {
      assert (a + b)[1..] == a[1..] + b;
      if IsWhite(a[0]) {
        TrimStartSplits(a[1..], b);
      }
    }
  }

  lemma {:induction false} CollapseStep(a: string, g: string, h: string, b: string)
    requires g != "" && h != "" && AllWhite(g) && AllWhite(h)
    ensures Collapse(a + g + b) == Collapse(a + h + b)
    decreases |a|
  {
    if a == "" {
      assert a + g + b == g + b && a + h + b == h + b;
      CollapseWhite(g, b);
      CollapseWhite(h, b);
    } else if IsWhite(a[0]) {
      assert a + g + b == a + (g + b) && a + h + b == a + (h + b);
      TrimStartSplits(a, g + b);
      TrimStartSplits(a, h + b);
      SkipShorter(a);
      var rest := TrimStart(a);
      if rest == "" {
        TrimStartWhite(g, b);
        TrimStartWhite(h, b);
      } else {
        assert rest + (g + b) == rest + g + b && rest + (h + b) == rest + h + b;
        CollapseStep(rest, g, h, b);
      }
      assert (a + (g + b))[0] == a[0] && (a + (h + b))[0] == a[0];
    } else {
      assert (a + g + b)[1..] == a[1..] + g + b && (a + h + b)[1..] == a[1..] + h + b;
      CollapseStep(a[1..], g, h, b);
    }
  }

  lemma {:induction false} ChainCollapse(chain: seq<string>)
    requires RewrapChain(chain)
    ensures Collapse(chain[0]) == Collapse(chain[|chain| - 1])
  {
    if |chain| > 1 {
      assert RewrapStep(chain[0], chain[1]);
      var a, g, h, b :| RewrapAt(chain[0], chain[1], a, g, h, b);
      CollapseStep(a, g, h, b);
      var tail := chain[1..];
      forall i | 0 <= i < |tail| - 1 ensures RewrapStep(tail[i], tail[i + 1]) {
        assert RewrapStep(chain[i + 1], chain[i + 2]);
      }
      ChainCollapse(tail);
    }
  }

  lemma StepIsChain(s: string, t: string)
    requires RewrapStep(s, t)
    ensures Rewrapped(s, t)
  {
    var chain := [s, t];
    assert RewrapChain(chain) && chain[0] == s && chain[|chain| - 1] == t;
  }

  lemma RewrappedTransitive(s: string, t: string, u: string)
    requires Rewrapped(s, t) && Rewrapped(t, u)
    ensures Rewrapped(s, u)
  {
    var x :| RewrapChain(x) && x[0] == s && x[|x| - 1] == t;
    var y :| RewrapChain(y) && y[0] == t && y[|y| - 1] == u;
    var chain := x + y[1..];
    forall i | 0 <= i < |chain| - 1 ensures RewrapStep(chain[i], chain[i + 1]) {
      if i < |x| - 1 {
        assert chain[i] == x[i] && chain[i + 1] == x[i + 1];
      } else {
        assert chain[i] == y[i - |x| + 1] && chain[i + 1] == y[i - |x| + 2];
      }
    }
    assert RewrapChain(chain) && chain[0] == s && chain[|chain| - 1] == u;
  }

  lemma StepSymmetric(s: string, t: string)
    requires RewrapStep(s, t)
    ensures RewrapStep(t, s)
  {
    var a, g, h, b :| RewrapAt(s, t, a, g, h, b);
    assert RewrapAt(t, s, a, h, g, b);
  }

  lemma {:induction false} ChainSymmetric(chain: seq<string>)
    requires RewrapChain(chain)
    ensures Rewrapped(chain[|chain| - 1], chain[0])
    decreases |chain|
  {
    if |chain| == 1 {
      assert RewrapChain([chain[0]]) && [chain[0]][0] == chain[0];
    } else {
      var front := chain[..|chain| - 1];
      forall i | 0 <= i < |front| - 1 ensures RewrapStep(front[i], front[i + 1]) {
        assert RewrapStep(chain[i], chain[i + 1]);
      }
      ChainSymmetric(front);
      StepSymmetric(chain[|chain| - 2], chain[|chain| - 1]);
      StepIsChain(chain[|chain| - 1], chain[|chain| - 2]);
      RewrappedTransitive(chain[|chain| - 1], chain[|chain| - 2], chain[0]);
    }
  }

  /** Re-wrapping inside a longer text. */
  lemma RewrappedAfter(p: string, s: string, t: string)
    requires Rewrapped(s, t)
    ensures Rewrapped(p + s, p + t)
  {
    var x :| RewrapChain(x) && x[0] == s && x[|x| - 1] == t;
    var chain := seq(|x|, i requires 0 <= i < |x| => p + x[i]);
    forall i | 0 <= i < |chain| - 1 ensures RewrapStep(chain[i], chain[i + 1]) {
      assert RewrapStep(x[i], x[i + 1]);
      var a, g, h, b :| RewrapAt(x[i], x[i + 1], a, g, h, b);
      assert p + (a + g + b) == (p + a) + g + b && p + (a + h + b) == (p + a) + h + b;
      assert RewrapAt(chain[i], chain[i + 1], p + a, g, h, b);
    }
    assert RewrapChain(chain) && chain[0] == p + s && chain[|chain| - 1] == p + t;
  }

  lemma RewrappedReflexive(s: string)
    ensures Rewrapped(s, s)
  {
    assert RewrapChain([s]) && [s][0] == s && [s][|[s]| - 1] == s;
  }

  lemma {:induction false} TrimStartPrefix(s: string) returns (g: string)
    ensures s == g + TrimStart(s) && AllWhite(g)
    ensures s != "" && IsWhite(s[0]) ==> g != ""
  {
    if s != "" && IsWhite(s[0]) {
      var rest := TrimStartPrefix(s[1..]);
      g := [s[0]] + rest;
    } else {
      g := "";
    }
  }

  /** Every text re-wraps to its collapsed form. */
  lemma {:induction false} RewrapsToCollapse(s: string)
    ensures Rewrapped(s, Collapse(s))
    decreases |s|
  {
    if s == "" {
      RewrappedReflexive(s);
    } else if IsWhite(s[0]) {
      SkipShorter(s);
      var g := TrimStartPrefix(s);
      var rest := TrimStart(s);
      assert RewrapAt(s, " " + rest, "", g, " ", rest);
      StepIsChain(s, " " + rest);
      RewrapsToCollapse(rest);
      RewrappedAfter(" ", rest, Collapse(rest));
      RewrappedTransitive(s, " " + rest, Collapse(s));
    } else {
      RewrapsToCollapse(s[1..]);
      RewrappedAfter([s[0]], s[1..], Collapse(s[1..]));
      assert s == [s[0]] + s[1..];
    }
  }

  /** Two texts collapse alike exactly when one is a re-wrapping of the other. */
  lemma CollapseIffRewrapped(s: string, t: string)
    ensures Collapse(s) == Collapse(t) <==> Rewrapped(s, t)
  {
    if Rewrapped(s, t) {
      var chain :| RewrapChain(chain) && chain[0] == s && chain[|chain| - 1] == t;
      ChainCollapse(chain);
    }
    if Collapse(s) == Collapse(t) {
      RewrapsToCollapse(s);
      RewrapsToCollapse(t);
      var chain :| RewrapChain(chain) && chain[0] == t && chain[|chain| - 1] == Collapse(t);
      ChainSymmetric(chain);
      RewrappedTransitive(s, Collapse(s), t);
    }
  }

  /** Collapsing twice changes nothing more. */
  lemma CollapseIdempotent(s: string)
    ensures Collapse(Collapse(s)) == Collapse(s)
  {
    RewrapsToCollapse(s);
    CollapseIffRewrapped(s, Collapse(s));
  }

  /** Re-wrapping a document never changes which markers are missing. */
  lemma {:induction false} RewrapKeepsMissing(s: string, t: string, markers: seq<string>)
    requires Rewrapped(s, t)
    ensures MissingMarkers(s, markers) == MissingMarkers(t, markers)
  {
    CollapseIffRewrapped(s, t);
    if markers != [] {
      RewrapKeepsMissing(s, t, markers[1..]);
    }
  }

  // -------------------------------------------------------- adding text

  lemma {:induction false} CollapseAppend(s: string, after: string)
    ensures StartsWith(Collapse(s + after), Collapse(s))
    decreases |s|
  {
    if s == "" {
      assert s + after == after;
    } else if IsWhite(s[0]) {
      SkipShorter(s);
      TrimStartSplits(s, after);
      assert (s + after)[0] == s[0];
      if TrimStart(s) != "" {
        CollapseAppend(TrimStart(s), after);
      }
    } else {
      assert (s + after)[1..] == s[1..] + after;
      CollapseAppend(s[1..], after);
    }
  }

  lemma {:induction false} CollapsePrepend(before: string, s: string)
    ensures EndsWith(Collapse(before + s), Collapse(s))
    decreases |before|
  {
    if before == "" {
      assert before + s == s;
    } else if IsWhite(before[0]) {
      SkipShorter(before);
      TrimStartSplits(before, s);
      assert (before + s)[0] == before[0];
      if TrimStart(before) != "" {
        CollapsePrepend(TrimStart(before), s);
      }
    } else {
      assert (before + s)[1..] == before[1..] + s;
      CollapsePrepend(before[1..], s);
    }
  }

  lemma ContainsLonger(whole: string, part: string, m: string)
    requires StartsWith(whole, part) || EndsWith(whole, part)
    requires Contains(part, m)
    ensures Contains(whole, m)
  {
    if StartsWith(whole, part) {
      ContainsInMiddle("", part, whole[|part|..], m);
      assert "" + part + whole[|part|..] == whole;
    } else {
      ContainsInMiddle(whole[..|whole| - |part|], part, "", m);
      assert whole[..|whole| - |part|] + part + "" == whole;
    }
  }

  /** Text added around a document never makes a present marker missing. */
  lemma {:induction false} AddedTextKeepsPresent(before: string, s: string, after: string, markers: seq<string>)
    ensures forall m | m in MissingMarkers(before + s + after, markers) :: m in MissingMarkers(s, markers)
  {
    if markers != [] {
      AddedTextKeepsPresent(before, s, after, markers[1..]);
      if Contains(Collapse(s), Collapse(markers[0])) {
        CollapsePrepend(before, s);
        ContainsLonger(Collapse(before + s), Collapse(s), Collapse(markers[0]));
        CollapseAppend(before + s, after);
        ContainsLonger(Collapse(before + s + after), Collapse(before + s), Collapse(markers[0]));
      }
    }
  }
}
