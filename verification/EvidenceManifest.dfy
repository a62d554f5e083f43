/** The evidence manifest: `normalizeTextEvidenceContent` and `collectEvidenceManifest` of
    scripts/collect-evidence.ts. */
module EvidenceManifest {
  import opened Wrappers
  import opened Strings

  // ------------------------------------------------------------- line ends

  /** `content.replace(/\r\n/g, "\n")` */
  function NormalizeText(s: string): string
    decreases |s|
  {
    if s == "" then ""
    else if |s| >= 2 && s[0] == '\r' && s[1] == '\n' then "\n" + NormalizeText(s[2..])
    else [s[0]] + NormalizeText(s[1..])
  }

  /** Every line feed rewritten as CRLF, also one that has its "\r" already. */
  function ToCrlf(s: string): string {
    if s == "" then "" else (if s[0] == '\n' then "\r\n" else [s[0]]) + ToCrlf(s[1..])
  }

  /** Normalising undoes the rewriting of every line feed. */
  lemma {:induction false} NormalizeUndoesCrlf(s: string)
    ensures NormalizeText(ToCrlf(s)) == s
  {
    if s != "" {
      NormalizeUndoesCrlf(s[1..]);
      var rest := ToCrlf(s[1..]);
      assert rest != "" ==> rest[0] != '\n';
      var whole := ToCrlf(s);
      if s[0] == '\n' {
        assert whole[2..] == rest;
      } else {
        assert whole[1..] == rest;
      }
      assert s == [s[0]] + s[1..];
    }
  }

  predicate StartsWithCrlf(s: string) {
    |s| >= 2 && s[0] == '\r' && s[1] == '\n'
  }

  lemma CrlfPrefix(s: string)
    ensures "\r\n" <= s <==> StartsWithCrlf(s)
    ensures "\r\r\n" <= s <==> s != "" && s[0] == '\r' && StartsWithCrlf(s[1..])
  {
  }

  lemma {:induction false} NormalizeShrinks(s: string)
    ensures |NormalizeText(s)| <= |s|
    ensures |NormalizeText(s)| == |s| <==> !Contains(s, "\r\n")
    ensures !Contains(s, "\r\n") ==> NormalizeText(s) == s
    decreases |s|
  {
    ContainsCons(s, "\r\n");
    CrlfPrefix(s);
    if s != "" {
      if StartsWithCrlf(s) {
        NormalizeShrinks(s[2..]);
      } else {
        NormalizeShrinks(s[1..]);
        assert s == [s[0]] + s[1..];
      }
    }
  }

  /** `Buffer.byteLength` in UTF-8. */
  function ByteLength(s: string): nat {
    if s == "" then 0 else Utf8Length(s[0]) + ByteLength(s[1..])
  }

  function Utf8Length(c: char): nat {
    var n := c as int;
    if n < 0x80 then 1 else if n < 0x800 then 2 else if n < 0x1_0000 then 3 else 4
  }

  lemma {:induction false} ByteLengthShrinks(s: string)
    ensures ByteLength(NormalizeText(s)) <= ByteLength(s)
    ensures ByteLength(NormalizeText(s)) == ByteLength(s) <==> !Contains(s, "\r\n")
    decreases |s|
  {
    ContainsCons(s, "\r\n");
    CrlfPrefix(s);
    if StartsWithCrlf(s) {
      ByteLengthShrinks(s[2..]);
      assert ByteLength(s) == 1 + ByteLength(s[1..]) && s[1..][1..] == s[2..];
      assert NormalizeText(s)[1..] == NormalizeText(s[2..]);
    } else if s != "" {
      ByteLengthShrinks(s[1..]);
      assert NormalizeText(s)[1..] == NormalizeText(s[1..]);
    }
  }

  /** A checkout with CRLF line ends: a line feed that has no "\r" before it gets one. */
  function WriteCrlf(s: string): string
    decreases |s|
  {
    if s == "" then ""
    else if StartsWithCrlf(s) then "\r\n" + WriteCrlf(s[2..])
    else if s[0] == '\n' then "\r\n" + WriteCrlf(s[1..])
    else [s[0]] + WriteCrlf(s[1..])
  }

  lemma WriteCrlfHead(s: string)
    ensures WriteCrlf(s) != "" ==> WriteCrlf(s)[0] != '\n'
  {
  }

  lemma NormalizeCrlf(rest: string)
    ensures NormalizeText("\r\n" + rest) == "\n" + NormalizeText(rest)
  {
    assert ("\r\n" + rest)[2..] == rest;
  }

  lemma NormalizeOther(c: char, rest: string)
    requires c == '\r' ==> rest == "" || rest[0] != '\n'
    ensures NormalizeText([c] + rest) == [c] + NormalizeText(rest)
  {
    assert ([c] + rest)[1..] == rest;
  }

  /** For every text the LF and the CRLF checkout give the same content, and the same recorded
      size. */
  lemma {:induction false} CheckoutsAgree(s: string)
    ensures NormalizeText(WriteCrlf(s)) == NormalizeText(s)
    ensures ByteLength(NormalizeText(WriteCrlf(s))) == ByteLength(NormalizeText(s))
    decreases |s|
  {
    if s != "" {
      if StartsWithCrlf(s) {
        CheckoutsAgree(s[2..]);
        NormalizeCrlf(WriteCrlf(s[2..]));
      } else {
        CheckoutsAgree(s[1..]);
        if s[0] == '\n' {
          NormalizeCrlf(WriteCrlf(s[1..]));
        } else {
          WriteCrlfHead(s[1..]);
          NormalizeOther(s[0], WriteCrlf(s[1..]));
        }
      }
    }
  }

  /** What a normalised text starts with. */
  lemma NormalizeHead(s: string)
    ensures NormalizeText(s) == "" <==> s == ""
    ensures s != "" ==> NormalizeText(s)[0] == (if StartsWithCrlf(s) then '\n' else s[0])
  {
  }

  lemma {:induction false} CrlfLeft(s: string)
    ensures Contains(NormalizeText(s), "\r\n") <==> Contains(s, "\r\r\n")
    decreases |s|
  {
    ContainsCons(s, "\r\r\n");
    CrlfPrefix(s);
    if s == "" {
      ContainsCons("", "\r\n");
    } else {
      var n := NormalizeText(s);
      ContainsCons(n, "\r\n");
      CrlfPrefix(n);
      if StartsWithCrlf(s) {
        CrlfLeft(s[2..]);
        assert n[1..] == NormalizeText(s[2..]);
        ContainsCons(s[1..], "\r\r\n");
        CrlfPrefix(s[1..]);
        assert s[1..][1..] == s[2..];
      } else {
        CrlfLeft(s[1..]);
        assert n[1..] == NormalizeText(s[1..]);
        NormalizeHead(s[1..]);
      }
    }
  }

  /** Normalising twice is the same as once exactly when the text has no CR before a CRLF;
      "\r\r\n" is the text that fails. */
  lemma NormalizeIdempotentIff(s: string)
    ensures NormalizeText(NormalizeText(s)) == NormalizeText(s) <==> !Contains(s, "\r\r\n")
  {
    NormalizeShrinks(NormalizeText(s));
    CrlfLeft(s);
  }

  /** The text that normalising twice changes twice. */
  lemma NormalizeTwiceDiffers()
    ensures NormalizeText("\r\r\n") == "\r\n" && NormalizeText("\r\n") == "\n"
  {
    NormalizeCrlf("");
    assert "\r\n" + "" == "\r\n";
    assert "\r\r\n"[1..] == "\r\n";
    assert "\n" + NormalizeText("") == "\n";
  }

  // --------------------------------------------------------------- buckets

  datatype Entry = Entry(
    file: string, schemaVersion: string, generatedAt: string, size: nat, status: Option<string>)

  function PhaseOf(entry: Entry): string {
    if Contains(entry.file, "canary") then "phase20-canary"
    else if Contains(entry.file, "smoke") then "phase20-smoke"
    else if Contains(entry.file, "operator") then "phase17-operator"
    else if Contains(entry.file, "model-check") then "phase16-model-check"
    else "unknown"
  }

  function StatusOf(entry: Entry): string {
    if entry.status.Some? then entry.status.value else "unknown"
  }

  type Buckets = map<string, seq<Entry>>

  /** `(buckets[key] ??= []).push(entry)` */
  function Push(buckets: Buckets, key: string, entry: Entry): Buckets {
    buckets[key := (if key in buckets then buckets[key] else []) + [entry]]
  }

  /** The entries of one bucket, in order. */
  function Select(entries: seq<Entry>, keyOf: Entry -> string, key: string): seq<Entry> {
    if entries == [] then []
    else
      var last := |entries| - 1;
      Select(entries[..last], keyOf, key) + if keyOf(entries[last]) == key then [entries[last]] else []
  }

  function TotalSize(entries: seq<Entry>): nat {
    if entries == [] then 0 else TotalSize(entries[..|entries| - 1]) + entries[|entries| - 1].size
  }

  /** Exactly the keys that occur, each with its entries in order. */
  ghost predicate AreBuckets(entries: seq<Entry>, keyOf: Entry -> string, buckets: Buckets) {
    && (forall k :: k in buckets <==> exists i | 0 <= i < |entries| :: keyOf(entries[i]) == k)
    && (forall k | k in buckets :: buckets[k] == Select(entries, keyOf, k))
  }

  lemma SelectNone(entries: seq<Entry>, keyOf: Entry -> string, key: string)
    requires forall i | 0 <= i < |entries| :: keyOf(entries[i]) != key
    ensures Select(entries, keyOf, key) == []
  {
  }

  lemma PushKeepsBuckets(entries: seq<Entry>, keyOf: Entry -> string, buckets: Buckets, entry: Entry)
    requires AreBuckets(entries, keyOf, buckets)
    ensures AreBuckets(entries + [entry], keyOf, Push(buckets, keyOf(entry), entry))
  {
    var longer, key := entries + [entry], keyOf(entry);
    var after := Push(buckets, key, entry);
    assert longer[..|entries|] == entries && longer[|entries|] == entry;
    if key !in buckets {
      SelectNone(entries, keyOf, key);
    }
    forall k ensures k in after <==> exists i | 0 <= i < |longer| :: keyOf(longer[i]) == k {
      if i :| 0 <= i < |longer| && keyOf(longer[i]) == k {
        assert i < |entries| ==> longer[i] == entries[i];
      }
      if k in buckets {
        var i :| 0 <= i < |entries| && keyOf(entries[i]) == k;
        assert longer[i] == entries[i];
      }
    }
    forall k | k in after ensures after[k] == Select(longer, keyOf, k) {
      if k != key {
        assert after[k] == buckets[k];
        assert buckets[k] + [] == buckets[k];
      }
    }
  }

  datatype Manifest = Manifest(
    totalFiles: nat, totalSize: nat, byPhase: Buckets, byStatus: Buckets, entries: seq<Entry>)

  /** What the loop has gathered from the first entries. */
  ghost predicate Gathered(entries: seq<Entry>, byPhase: Buckets, byStatus: Buckets, total: nat) {
    AreBuckets(entries, PhaseOf, byPhase) && AreBuckets(entries, StatusOf, byStatus) && total == TotalSize(entries)
  }

  lemma GatheredMore(entries: seq<Entry>, byPhase: Buckets, byStatus: Buckets, total: nat, entry: Entry)
    requires Gathered(entries, byPhase, byStatus, total)
    ensures Gathered(
      entries + [entry], Push(byPhase, PhaseOf(entry), entry), Push(byStatus, StatusOf(entry), entry),
      total + entry.size)
  {
    PushKeepsBuckets(entries, PhaseOf, byPhase, entry);
    PushKeepsBuckets(entries, StatusOf, byStatus, entry);
    TotalSizeAppend(entries, entry);
  }

  /** `collectEvidenceManifest`, on the scanned entries. `localeCompare` orders file names by
      their collation keys; `sortKey` is that key, as an arbitrary function. */
  method CollectEvidenceManifest(scanned: seq<Entry>, sortKey: Entry -> string) returns (m: Manifest)
    ensures SortedBy(m.entries, sortKey) && multiset(m.entries) == multiset(scanned)
    ensures m.totalFiles == |scanned| && m.totalSize == TotalSize(m.entries)
    ensures AreBuckets(m.entries, PhaseOf, m.byPhase)
    ensures AreBuckets(m.entries, StatusOf, m.byStatus)
  {
    var entries := SortBy(scanned, sortKey);
    SameMultiset(entries, scanned);
    var byPhase: Buckets := map[];
    var byStatus: Buckets := map[];
    var total: nat := 0;
    for i := 0 to |entries|
      invariant Gathered(entries[..i], byPhase, byStatus, total)
    {
      var entry := entries[i];
      assert entries[..i + 1] == entries[..i] + [entry];
      GatheredMore(entries[..i], byPhase, byStatus, total, entry);
      byPhase := Push(byPhase, PhaseOf(entry), entry);
      byStatus := Push(byStatus, StatusOf(entry), entry);
      total := total + entry.size;
    }
    assert entries[..|entries|] == entries;
    m := Manifest(|entries|, total, byPhase, byStatus, entries);
  }

  // ----------------------------------------------------------- conservation

  /** The buckets read out one after another. */
  function ReadOut(entries: seq<Entry>, keyOf: Entry -> string, keys: seq<string>): seq<Entry> {
    if keys == [] then [] else Select(entries, keyOf, keys[0]) + ReadOut(entries, keyOf, keys[1..])
  }

  lemma SelectAdds(entries: seq<Entry>, entry: Entry, keyOf: Entry -> string, key: string)
    ensures Select(entries + [entry], keyOf, key) ==
      Select(entries, keyOf, key) + if keyOf(entry) == key then [entry] else []
  {
    assert (entries + [entry])[..|entries|] == entries;
  }

  /** A key of a list without repetition is its first or among the others, not both. */
  lemma KeyOnce(keys: seq<string>, key: string)
    requires NoDuplicates(keys) && keys != []
    ensures NoDuplicates(keys[1..])
    ensures key in keys <==> key == keys[0] || key in keys[1..]
    ensures !(key == keys[0] && key in keys[1..])
  {
    assert keys == [keys[0]] + keys[1..];
  }

  function Once(entry: Entry, there: bool): multiset<Entry> {
    if there then multiset{entry} else multiset{}
  }

  lemma {:induction false} ReadOutAdds(entries: seq<Entry>, entry: Entry, keyOf: Entry -> string, keys: seq<string>)
    requires NoDuplicates(keys)
    ensures multiset(ReadOut(entries + [entry], keyOf, keys)) ==
      multiset(ReadOut(entries, keyOf, keys)) + Once(entry, keyOf(entry) in keys)
    decreases |keys|
  {
    if keys != [] {
      KeyOnce(keys, keyOf(entry));
      SelectAdds(entries, entry, keyOf, keys[0]);
      ReadOutAdds(entries, entry, keyOf, keys[1..]);
      AddsInFront(
        Select(entries, keyOf, keys[0]), ReadOut(entries, keyOf, keys[1..]),
        ReadOut(entries + [entry], keyOf, keys[1..]), entry, keyOf(entry) == keys[0], keyOf(entry) in keys[1..]);
    }
  }

  lemma AddsInFront(
    first: seq<Entry>, rest: seq<Entry>, longer: seq<Entry>, entry: Entry, inFirst: bool, inRest: bool)
    requires multiset(longer) == multiset(rest) + Once(entry, inRest) && !(inFirst && inRest)
    ensures multiset((first + if inFirst then [entry] else []) + longer) ==
      multiset(first + rest) + Once(entry, inFirst || inRest)
  {
  }

  lemma AppendMultiset(front: seq<Entry>, last: Entry)
    ensures multiset(front + [last]) == multiset(front) + multiset{last}
  {
  }

  /** Whatever order the buckets are read in, every entry comes out exactly once. */
  lemma {:induction false} BucketsPartition(entries: seq<Entry>, keyOf: Entry -> string, keys: seq<string>)
    requires NoDuplicates(keys)
    requires forall i | 0 <= i < |entries| :: keyOf(entries[i]) in keys
    ensures multiset(ReadOut(entries, keyOf, keys)) == multiset(entries)
    decreases |entries|
  {
    if entries == [] {
      ReadOutNothing(keyOf, keys);
    } else {
      var front, last := entries[..|entries| - 1], entries[|entries| - 1];
      assert entries == front + [last];
      assert last == entries[|entries| - 1] && forall i | 0 <= i < |front| :: front[i] == entries[i];
      BucketsPartition(front, keyOf, keys);
      ReadOutAdds(front, last, keyOf, keys);
      AppendMultiset(front, last);
    }
  }

  lemma ReadOutNothing(keyOf: Entry -> string, keys: seq<string>)
    ensures ReadOut([], keyOf, keys) == []
  {
  }

  lemma TotalSizeAppend(a: seq<Entry>, entry: Entry)
    ensures TotalSize(a + [entry]) == TotalSize(a) + entry.size
  {
    assert (a + [entry])[..|a|] == a;
  }

  lemma {:induction false} TotalSizeConcat(a: seq<Entry>, b: seq<Entry>)
    ensures TotalSize(a + b) == TotalSize(a) + TotalSize(b)
    decreases |b|
  {
    if b == [] {
      assert a + b == a;
    } else {
      var front, last := b[..|b| - 1], b[|b| - 1];
      assert a + b == (a + front) + [last] && b == front + [last];
      TotalSizeConcat(a, front);
      TotalSizeAppend(a + front, last);
    }
  }

  lemma TotalSizeWithout(entries: seq<Entry>, j: nat)
    requires j < |entries|
    ensures TotalSize(entries) == TotalSize(Without(entries, j)) + entries[j].size
  {
    SplitAround(entries, j);
    TotalSizeAround(entries[..j], entries[j], entries[j + 1..]);
  }

  lemma TotalSizeAround(front: seq<Entry>, entry: Entry, rest: seq<Entry>)
    ensures TotalSize((front + [entry]) + rest) == TotalSize(front + rest) + entry.size
  {
    TotalSizeConcat(front + [entry], rest);
    TotalSizeAppend(front, entry);
    TotalSizeConcat(front, rest);
  }

  lemma {:induction false} TotalSizePermutes(a: seq<Entry>, b: seq<Entry>)
    requires multiset(a) == multiset(b)
    ensures TotalSize(a) == TotalSize(b)
    decreases |a|
  {
    SameMultiset(a, b);
    if a != [] {
      assert a[0] in b;
      var j :| 0 <= j < |b| && b[j] == a[0];
      WithoutMultiset(a, 0);
      WithoutMultiset(b, j);
      assert multiset(Without(a, 0)) == multiset(Without(b, j)) by {
        assert multiset(Without(a, 0)) == multiset(a) - multiset{a[0]};
        assert multiset(Without(b, j)) == multiset(b) - multiset{a[0]};
      }
      TotalSizePermutes(Without(a, 0), Without(b, j));
      TotalSizeWithout(a, 0);
      TotalSizeWithout(b, j);
    }
  }

  /** The buckets of a manifest, by phase or by status, hold every entry once and sum up to
      the total size. */
  lemma BucketsConserve(m: Manifest, keys: seq<string>, byStatus: bool)
    requires m.totalSize == TotalSize(m.entries)
    requires AreBuckets(m.entries, PhaseOf, m.byPhase) && AreBuckets(m.entries, StatusOf, m.byStatus)
    requires NoDuplicates(keys) && Elems(keys) == (if byStatus then m.byStatus.Keys else m.byPhase.Keys)
    ensures var keyOf := if byStatus then StatusOf else PhaseOf;
      && multiset(ReadOut(m.entries, keyOf, keys)) == multiset(m.entries)
      && TotalSize(ReadOut(m.entries, keyOf, keys)) == m.totalSize
  {
    var keyOf := if byStatus then StatusOf else PhaseOf;
    var buckets := if byStatus then m.byStatus else m.byPhase;
    forall i | 0 <= i < |m.entries| ensures keyOf(m.entries[i]) in keys {
      assert keyOf(m.entries[i]) in buckets;
      assert keyOf(m.entries[i]) in Elems(keys);
    }
    BucketsPartition(m.entries, keyOf, keys);
    TotalSizePermutes(ReadOut(m.entries, keyOf, keys), m.entries);
  }
}
