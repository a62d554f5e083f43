/** Strings as the scripts use them: splitting and joining on a character, searching,
    the code-unit order behind the default `sort`, and sorting itself. */
module Strings {

  /** The set of values in a sequence. */
  function Elems<T>(s: seq<T>): set<T> {
    set x | x in s
  }

  ghost predicate NoDuplicates<T>(s: seq<T>) {
    forall i, j | 0 <= i < j < |s| :: s[i] != s[j]
  }

  /** `[...new Set(s)]`: every value once, in order of first occurrence. */
  function Distinct<T(==)>(s: seq<T>): (r: seq<T>)
    ensures NoDuplicates(r)
    ensures Elems(r) == Elems(s)
  {
    if s == [] then []
    else
      var front := Distinct(s[..|s| - 1]);
      assert s == s[..|s| - 1] + [s[|s| - 1]];
      var r := if s[|s| - 1] in front then front else front + [s[|s| - 1]];
      assert Elems(r) == Elems(s) by {
        assert Elems(s) == Elems(s[..|s| - 1]) + {s[|s| - 1]};
        assert Elems(r) == Elems(front) + {s[|s| - 1]};
      }
      r
  }

  // ---------------------------------------------------------------- searching

  predicate StartsWith(s: string, prefix: string) {
    prefix <= s
  }

  predicate EndsWith(s: string, suffix: string) {
    |suffix| <= |s| && s[|s| - |suffix|..] == suffix
  }

  predicate OccursAt(s: string, m: string, i: nat) {
    i + |m| <= |s| && s[i..i + |m|] == m
  }

  /** `s.includes(m)` */
  predicate Contains(s: string, m: string) {
    exists i | 0 <= i <= |s| :: OccursAt(s, m, i)
  }

  lemma ContainsInMiddle(before: string, s: string, after: string, m: string)
    requires Contains(s, m)
    ensures Contains(before + s + after, m)
  {
    var i :| 0 <= i <= |s| && OccursAt(s, m, i);
    var whole := before + s + after;
    assert whole[|before| + i..|before| + i + |m|] == s[i..i + |m|];
    assert OccursAt(whole, m, |before| + i);
  }

  lemma ContainsCons(s: string, m: string)
    ensures Contains(s, m) <==> m <= s || (s != "" && Contains(s[1..], m))
  {
    if Contains(s, m) {
      var i :| 0 <= i <= |s| && OccursAt(s, m, i);
      if i > 0 {
        assert s[1..][i - 1..i - 1 + |m|] == s[i..i + |m|];
        assert OccursAt(s[1..], m, i - 1);
      } else {
        assert s[0..|m|] == m;
      }
    }
    if m <= s {
      assert OccursAt(s, m, 0);
    }
    if s != "" && Contains(s[1..], m) {
      ContainsInMiddle([s[0]], s[1..], "", m);
      assert [s[0]] + s[1..] + "" == s;
    }
  }

  // ---------------------------------------------------------------- whitespace

  /** The characters that `trim` removes and that `\\s` matches. */
  predicate IsWhite(c: char) {
    var n := c as int;
    || 9 <= n <= 13 || n == 32 || n == 0xA0 || n == 0x1680 || 0x2000 <= n <= 0x200A
    || n == 0x2028 || n == 0x2029 || n == 0x202F || n == 0x205F || n == 0x3000 || n == 0xFEFF
  }

  function TrimStart(s: string): string {
    if s != "" && IsWhite(s[0]) then TrimStart(s[1..]) else s
  }

  /** The length of the first `n` characters without the whitespace at their end. */
  function TrimmedLength(s: string, n: nat): (k: nat)
    requires n <= |s|
    ensures k <= n
  {
    if n > 0 && IsWhite(s[n - 1]) then TrimmedLength(s, n - 1) else n
  }

  function TrimEnd(s: string): string {
    s[..TrimmedLength(s, |s|)]
  }

  /** `s.trim()` */
  function Trim(s: string): string {
    TrimEnd(TrimStart(s))
  }

  predicate AllWhite(s: string) {
    forall i | 0 <= i < |s| :: IsWhite(s[i])
  }

  lemma {:induction false} TrimStartWhite(g: string, b: string)
    requires AllWhite(g)
    ensures TrimStart(g + b) == TrimStart(b)
  {
    if g != "" {
      assert (g + b)[1..] == g[1..] + b;
      TrimStartWhite(g[1..], b);
    } else {
      assert g + b == b;
    }
  }

  lemma {:induction false} TrimmedLengthWhite(s: string, n: nat, k: nat)
    requires k <= n <= |s| && (k > 0 ==> !IsWhite(s[k - 1]))
    requires forall i | k <= i < n :: IsWhite(s[i])
    ensures TrimmedLength(s, n) == k
    decreases n
  {
    if k < n {
      TrimmedLengthWhite(s, n - 1, k);
    }
  }

  /** Trimming takes away all the whitespace around a text, and nothing else. */
  lemma TrimBetween(before: string, s: string, after: string)
    requires AllWhite(before) && AllWhite(after)
    requires s != "" ==> !IsWhite(s[0]) && !IsWhite(s[|s| - 1])
    ensures Trim(before + s + after) == s
  {
    var rest := s + after;
    assert before + s + after == before + rest;
    TrimStartWhite(before, rest);
    if s == "" {
      assert rest == after + "";
      TrimStartWhite(after, "");
    } else {
      assert rest[0] == s[0];
      TrimmedLengthWhite(rest, |rest|, |s|);
    }
  }

  // ------------------------------------------------------- splitting, joining

  predicate Free(s: string, c: char) {
    c !in s
  }

  function Split(s: string, sep: char): (r: seq<string>)
    ensures |r| >= 1
    ensures forall i | 0 <= i < |r| :: Free(r[i], sep)
  {
    if s == "" then [""]
    else
      var rest := Split(s[1..], sep);
      if s[0] == sep then [""] + rest else [[s[0]] + rest[0]] + rest[1..]
  }

  function Join(parts: seq<string>, sep: char): string {
    if |parts| == 0 then ""
    else if |parts| == 1 then parts[0]
    else parts[0] + [sep] + Join(parts[1..], sep)
  }

  lemma {:induction false} SplitConcat(a: string, b: string, sep: char)
    ensures Split(a + [sep] + b, sep) == Split(a, sep) + Split(b, sep)
  {
    var whole := a + [sep] + b;
    if a == "" {
      assert whole[1..] == b;
      assert Split(whole, sep) == [""] + Split(b, sep);
    } else {
      SplitConcat(a[1..], b, sep);
      assert whole[0] == a[0] && whole[1..] == a[1..] + [sep] + b;
      SplitCons(a[0], a[1..], Split(b, sep), sep);
    }
  }

  lemma SplitCons(c: char, s: string, more: seq<string>, sep: char)
    ensures Split([c] + s, sep) + more ==
      var all := Split(s, sep) + more;
      if c == sep then [""] + all else [[c] + all[0]] + all[1..]
  {
    assert ([c] + s)[1..] == s;
    var rest := Split(s, sep);
    assert (rest + more)[1..] == rest[1..] + more;
  }

  lemma {:induction false} SplitFree(s: string, sep: char)
    requires Free(s, sep)
    ensures Split(s, sep) == [s]
  {
    if s != "" {
      SplitFree(s[1..], sep);
      assert [s[0]] + s[1..] == s;
    }
  }

  lemma {:induction false} SplitJoin(parts: seq<string>, sep: char)
    requires parts != []
    requires forall i | 0 <= i < |parts| :: Free(parts[i], sep)
    ensures Split(Join(parts, sep), sep) == parts
  {
    SplitFree(parts[0], sep);
    if |parts| > 1 {
      SplitJoin(parts[1..], sep);
      SplitConcat(parts[0], Join(parts[1..], sep), sep);
    }
  }

  lemma {:induction false} JoinSplit(s: string, sep: char)
    ensures Join(Split(s, sep), sep) == s
  {
    if s != "" {
      JoinSplit(s[1..], sep);
      var rest := Split(s[1..], sep);
      if s[0] == sep {
        assert Split(s, sep)[1..] == rest;
      } else {
        assert Split(s, sep)[1..] == rest[1..];
      }
    }
  }

  lemma {:induction false} JoinConcat(a: seq<string>, b: seq<string>, sep: char)
    requires a != [] && b != []
    ensures Join(a + b, sep) == Join(a, sep) + [sep] + Join(b, sep)
  {
    if |a| == 1 {
      assert (a + b)[1..] == b;
    } else {
      JoinConcat(a[1..], b, sep);
      assert (a + b)[1..] == a[1..] + b;
    }
  }

  // ------------------------------------------------------------ code-unit order

  /** Orders characters as UTF-16 code units do: a character above U+FFFF starts
      with a surrogate, so it sorts below U+E000. */
  function Rank(c: char): int {
    var n := c as int;
    if n < 0xD800 then n
    else if n < 0x1_0000 then n + 0x10_0000
    else n - 0x1_0000 + 0xD800
  }

  /** `a < b` on strings. */
  predicate Less(a: string, b: string) {
    if b == "" then false
    else if a == "" then true
    else if a[0] == b[0] then Less(a[1..], b[1..])
    else Rank(a[0]) < Rank(b[0])
  }

  lemma LessIrreflexive(a: string)
    ensures !Less(a, a)
  {
  }

  lemma LessTotal(a: string, b: string)
    ensures a == b || Less(a, b) || Less(b, a)
  {
    if a != "" && b != "" && a[0] == b[0] {
      LessTotal(a[1..], b[1..]);
      assert a == [a[0]] + a[1..] && b == [b[0]] + b[1..];
    }
  }

  lemma LessTransitive(a: string, b: string, c: string)
    requires Less(a, b) && Less(b, c)
    ensures Less(a, c)
  {
  }

  lemma LessAsymmetric(a: string, b: string)
    requires Less(a, b)
    ensures !Less(b, a)
  {
    if Less(b, a) {
      LessTransitive(a, b, a);
      LessIrreflexive(a);
    }
  }

  // -------------------------------------------------------------------- sorting

  ghost predicate SortedBy<T>(s: seq<T>, key: T -> string) {
    forall i, j | 0 <= i < j < |s| :: !Less(key(s[j]), key(s[i]))
  }

  ghost predicate StrictlySorted(s: seq<string>) {
    forall i, j | 0 <= i < j < |s| :: Less(s[i], s[j])
  }

  /** Inserts `x` before every element whose key is not smaller. */
  function Insert<T(!new)>(x: T, s: seq<T>, key: T -> string): (r: seq<T>)
    requires SortedBy(s, key)
    ensures SortedBy(r, key)
    ensures multiset(r) == multiset(s) + multiset{x}
  {
    if s == [] then [x]
    else if Less(key(s[0]), key(x)) then
      var rest := Insert(x, s[1..], key);
      SortedInFront(s[0], s[1..], x, rest, key);
      assert s == [s[0]] + s[1..];
      [s[0]] + rest
    else
      SortedPrepend(x, s, key);
      [x] + s
  }

  lemma SortedInFront<T>(head: T, tail: seq<T>, x: T, rest: seq<T>, key: T -> string)
    requires SortedBy([head] + tail, key) && SortedBy(rest, key)
    requires multiset(rest) == multiset(tail) + multiset{x}
    requires Less(key(head), key(x))
    ensures SortedBy([head] + rest, key)
  {
    var s := [head] + tail;
    forall j | 0 <= j < |rest| ensures !Less(key(rest[j]), key(head)) {
      LessAsymmetric(key(head), key(x));
      assert rest[j] in multiset(rest);
      if rest[j] != x {
        var k :| 0 <= k < |tail| && tail[k] == rest[j];
        assert s[k + 1] == rest[j] && s[0] == head;
      }
    }
  }

  lemma SortedPrepend<T>(x: T, s: seq<T>, key: T -> string)
    requires SortedBy(s, key)
    requires s != [] ==> !Less(key(s[0]), key(x))
    ensures SortedBy([x] + s, key)
  {
    forall j | 0 <= j < |s| ensures !Less(key(s[j]), key(x)) {
      if Less(key(s[j]), key(x)) && j > 0 {
        NotLessThenLess(key(s[j]), key(s[0]), key(x));
      }
    }
  }

  /** With `b` at most `a` and `a` below `c`, also `b` is below `c`. */
  lemma NotLessThenLess(a: string, b: string, c: string)
    requires !Less(a, b) && Less(a, c)
    ensures Less(b, c)
  {
    LessTotal(a, b);
    if Less(b, a) {
      LessTransitive(b, a, c);
    }
  }

  /** The stable sort by a string key. */
  function SortBy<T(!new)>(s: seq<T>, key: T -> string): (r: seq<T>)
    ensures SortedBy(r, key)
    ensures multiset(r) == multiset(s)
  {
    if s == [] then []
    else
      assert s == [s[0]] + s[1..];
      Insert(s[0], SortBy(s[1..], key), key)
  }

  lemma SameMultiset<T>(a: seq<T>, b: seq<T>)
    requires multiset(a) == multiset(b)
    ensures |a| == |b| && Elems(a) == Elems(b)
    ensures forall x :: x in a <==> x in b
  {
    assert |multiset(a)| == |a| && |multiset(b)| == |b|;
    assert forall x :: x in a <==> x in multiset(a);
    assert forall x :: x in b <==> x in multiset(b);
  }

  function Id(s: string): string {
    s
  }

  /** `[...s].sort()` */
  function Sort(s: seq<string>): (r: seq<string>)
    ensures SortedBy(r, Id)
    ensures multiset(r) == multiset(s)
    ensures Elems(r) == Elems(s)
    ensures |r| == |s|
  {
    SameMultiset(SortBy(s, Id), s);
    SortBy(s, Id)
  }

  lemma {:induction false} SortedUnique<T>(a: seq<T>, b: seq<T>, key: T -> string)
    requires multiset(a) == multiset(b)
    requires SortedBy(a, key) && SortedBy(b, key)
    requires forall x, y | x in a && y in a && key(x) == key(y) :: x == y
    ensures a == b
    decreases |a|
  {
    SameMultiset(a, b);
    if a != [] {
      SameLeast(a, b, key);
      TailMultiset(a);
      TailMultiset(b);
      TailSorted(a, key);
      TailSorted(b, key);
      SortedUnique(a[1..], b[1..], key);
      FirstAndTail(a, b);
    }
  }

  lemma SameLeast<T>(a: seq<T>, b: seq<T>, key: T -> string)
    requires multiset(a) == multiset(b) && a != [] && b != []
    requires SortedBy(a, key) && SortedBy(b, key)
    requires forall x, y | x in a && y in a && key(x) == key(y) :: x == y
    ensures a[0] == b[0]
  {
    SameMultiset(a, b);
    assert a[0] in b && b[0] in a;
    LeastFirst(a, b, key);
    LeastFirst(b, a, key);
    LessTotal(key(a[0]), key(b[0]));
  }

  lemma TailSorted<T>(s: seq<T>, key: T -> string)
    requires s != [] && SortedBy(s, key)
    ensures SortedBy(s[1..], key) && forall x | x in s[1..] :: x in s
  {
    assert forall i | 0 <= i < |s| - 1 :: s[1..][i] == s[i + 1];
  }

  lemma FirstAndTail<T>(a: seq<T>, b: seq<T>)
    requires a != [] && b != [] && a[0] == b[0] && a[1..] == b[1..]
    ensures a == b
  {
    assert a == [a[0]] + a[1..] && b == [b[0]] + b[1..];
  }

  lemma SplitAround<T>(s: seq<T>, j: nat)
    requires j < |s|
    ensures s == (s[..j] + [s[j]]) + s[j + 1..]
  {
  }

  function Without<T>(s: seq<T>, j: nat): seq<T>
    requires j < |s|
  {
    s[..j] + s[j + 1..]
  }

  lemma WithoutAt<T>(s: seq<T>, j: nat, k: nat)
    requires j < |s| && k + 1 < |s|
    ensures |Without(s, j)| == |s| - 1 && Without(s, j)[k] == s[if k < j then k else k + 1]
  {
  }

  lemma WithoutMultiset<T>(s: seq<T>, j: nat)
    requires j < |s|
    ensures multiset(s) == multiset(Without(s, j)) + multiset{s[j]}
    ensures forall x | x in Without(s, j) :: x in s
  {
    SplitAround(s, j);
  }

  lemma TailMultiset<T>(s: seq<T>)
    requires s != []
    ensures multiset(s[1..]) == multiset(s) - multiset{s[0]}
  {
    assert s == [s[0]] + s[1..];
  }

  lemma LeastFirst<T>(a: seq<T>, b: seq<T>, key: T -> string)
    requires SortedBy(a, key) && a != [] && b != []
    requires b[0] in a
    ensures !Less(key(b[0]), key(a[0]))
  {
    var j :| 0 <= j < |a| && a[j] == b[0];
    if j == 0 {
      LessIrreflexive(key(a[0]));
    }
  }

  /** Sorting forgets the order of its input. */
  lemma SortPermutation(a: seq<string>, b: seq<string>)
    ensures Sort(a) == Sort(b) <==> multiset(a) == multiset(b)
  {
    if multiset(a) == multiset(b) {
      SortedUnique(Sort(a), Sort(b), Id);
    }
  }

  lemma NoDuplicatesMultiset<T>(s: seq<T>)
    requires NoDuplicates(s)
    ensures multiset(s) == multiset(Elems(s))
  {
    if s != [] {
      var last := |s| - 1;
      NoDuplicatesMultiset(s[..last]);
      assert s == s[..last] + [s[last]];
      assert s[last] !in s[..last];
      assert Elems(s) == Elems(s[..last]) + {s[last]};
    }
  }

  lemma CountedTwice<T>(s: seq<T>, i: nat, j: nat)
    requires i < j < |s| && s[i] == s[j]
    ensures multiset(s)[s[i]] >= 2
  {
    assert s == s[..i] + [s[i]] + s[i + 1..j] + [s[j]] + s[j + 1..];
  }

  lemma MultisetNoDuplicates<T>(s: seq<T>)
    requires multiset(s) == multiset(Elems(s))
    ensures NoDuplicates(s)
  {
    forall i, j | 0 <= i < j < |s| ensures s[i] != s[j] {
      if s[i] == s[j] {
        CountedTwice(s, i, j);
        assert false;
      }
    }
  }

  lemma StrictIsSorted(s: seq<string>)
    requires StrictlySorted(s)
    ensures SortedBy(s, Id) && NoDuplicates(s)
  {
    forall i, j | 0 <= i < j < |s| ensures !Less(s[j], s[i]) && s[i] != s[j] {
      LessAsymmetric(s[i], s[j]);
    }
  }

  lemma SortedNoDuplicatesIsStrict(s: seq<string>)
    requires SortedBy(s, Id) && NoDuplicates(s)
    ensures StrictlySorted(s)
  {
    forall i, j | 0 <= i < j < |s| ensures Less(s[i], s[j]) {
      assert !Less(Id(s[j]), Id(s[i]));
      LessTotal(s[i], s[j]);
    }
  }

  /** Sorting a duplicate-free list gives a strictly increasing one. */
  lemma SortIsStrict(s: seq<string>)
    requires NoDuplicates(s)
    ensures StrictlySorted(Sort(s)) && Elems(Sort(s)) == Elems(s)
  {
    NoDuplicatesMultiset(s);
    MultisetNoDuplicates(Sort(s));
    SortedNoDuplicatesIsStrict(Sort(s));
  }

  /** A strictly increasing list is determined by its elements. */
  lemma StrictlySortedUnique(a: seq<string>, b: seq<string>)
    requires StrictlySorted(a) && StrictlySorted(b)
    ensures a == b <==> Elems(a) == Elems(b)
  {
    if Elems(a) == Elems(b) {
      StrictIsSorted(a);
      StrictIsSorted(b);
      NoDuplicatesMultiset(a);
      NoDuplicatesMultiset(b);
      SortedUnique(a, b, Id);
    }
  }

  /** A strictly increasing list equals a sorted one exactly when the latter has no
      duplicates and the same elements. */
  lemma StrictEqualsSort(strict: seq<string>, other: seq<string>)
    requires StrictlySorted(strict)
    ensures strict == Sort(other) <==> NoDuplicates(other) && Elems(strict) == Elems(other)
  {
    StrictIsSorted(strict);
    NoDuplicatesMultiset(strict);
    if strict == Sort(other) {
      assert Elems(strict) == Elems(other);
      MultisetNoDuplicates(other);
    }
    if NoDuplicates(other) && Elems(strict) == Elems(other) {
      SortIsStrict(other);
      StrictlySortedUnique(strict, Sort(other));
    }
  }
}
