/** Strings as the program uses them: byte-wise order, sorting, joining and
    the substring search behind Go's strings.Index, Count and Replace.
    A Dafny char stands for one byte of a Go string. */
module Text {

  datatype Option<+T> = None | Some(value: T)

  datatype Result<+T, +E> = Ok(value: T) | Err(error: E)

  // ---------------------------------------------------------------- order

  predicate Leq(a: string, b: string) {
    a == "" || (b != "" && (a[0] < b[0] || (a[0] == b[0] && Leq(a[1..], b[1..]))))
  }

  lemma LeqTotal(a: string, b: string)
    ensures Leq(a, b) || Leq(b, a)
  {
    if a != "" && b != "" && a[0] == b[0] {
      LeqTotal(a[1..], b[1..]);
    }
  }

  lemma {:induction false} LeqAntisymmetric(a: string, b: string)
    requires Leq(a, b) && Leq(b, a)
    ensures a == b
  {
    if a != "" {
      LeqAntisymmetric(a[1..], b[1..]);
      assert a == [a[0]] + a[1..] == [b[0]] + b[1..] == b;
    }
  }

  lemma {:induction false} LeqTransitive(a: string, b: string, c: string)
    requires Leq(a, b) && Leq(b, c)
    ensures Leq(a, c)
  {
    if a != "" && a[0] == b[0] == c[0] {
      LeqTransitive(a[1..], b[1..], c[1..]);
    }
  }

  /** The order is lexicographic: a prefix comes first, and otherwise the first
      place where the two differ decides. */
  lemma {:induction false} LeqExactly(a: string, b: string)
    ensures Leq(a, b) <==> a <= b || exists i | 0 <= i < |a| && i < |b| :: a[..i] == b[..i] && a[i] < b[i]
  {
    if a != "" && b != "" {
      LeqExactly(a[1..], b[1..]);
      if a[0] == b[0] {
        LeqOfTails(a, b);
      } else {
        assert a[..0] == b[..0];
        assert !(a <= b);
        forall i | 1 <= i < |a| && i < |b| ensures a[..i] != b[..i] { assert a[..i][0] != b[..i][0]; }
      }
    }
  }

  lemma LeqOfTails(a: string, b: string)
    requires a != "" && b != "" && a[0] == b[0]
    ensures a <= b <==> a[1..] <= b[1..]
    ensures (exists i | 0 <= i < |a| && i < |b| :: a[..i] == b[..i] && a[i] < b[i]) <==>
            (exists i | 0 <= i < |a[1..]| && i < |b[1..]| :: a[1..][..i] == b[1..][..i] && a[1..][i] < b[1..][i])
  {
    assert a == [a[0]] + a[1..] && b == [b[0]] + b[1..];
    if i :| 0 <= i < |a| && i < |b| && a[..i] == b[..i] && a[i] < b[i] {
      assert a[1..][..i - 1] == a[..i][1..] && b[1..][..i - 1] == b[..i][1..];
      assert a[1..][i - 1] < b[1..][i - 1];
    }
    if i :| 0 <= i < |a[1..]| && i < |b[1..]| && a[1..][..i] == b[1..][..i] && a[1..][i] < b[1..][i] {
      assert a[..i + 1] == [a[0]] + a[1..][..i] && b[..i + 1] == [b[0]] + b[1..][..i];
      assert a[i + 1] < b[i + 1];
    }
  }

  ghost predicate Sorted(s: seq<string>) {
    forall i, j | 0 <= i < j < |s| :: Leq(s[i], s[j])
  }

  function Insert(x: string, s: seq<string>): (r: seq<string>)
    requires Sorted(s)
    ensures Sorted(r) && multiset(r) == multiset{x} + multiset(s)
  {
    if s == [] then [x]
    else if Leq(x, s[0]) then
      (assert forall j | 0 <= j < |s| :: Leq(x, s[j]) by {
         forall j | 0 <= j < |s| ensures Leq(x, s[j]) {
           if j > 0 { LeqTransitive(x, s[0], s[j]); }
         }
       }
       assert multiset([x] + s) == multiset{x} + multiset(s);
       [x] + s)
    else
      (LeqTotal(x, s[0]);
       var rest := Insert(x, s[1..]);
       assert s == [s[0]] + s[1..];
       assert forall y | y in rest :: Leq(s[0], y) by {
         forall y | y in rest ensures Leq(s[0], y) {
           assert y in multiset(rest);
           assert y == x || y in s[1..];
         }
       }
       [s[0]] + rest)
  }

  /** The library call sort.Strings. */
  function Sort(s: seq<string>): (r: seq<string>)
    ensures Sorted(r) && multiset(r) == multiset(s)
  {
    if s == [] then []
    else
      assert s == [s[0]] + s[1..];
      Insert(s[0], Sort(s[1..]))
  }

  /** A sorted sequence is determined by its elements: the order in which a
      map is walked before sorting cannot show in the result. */
  lemma {:induction false} SortedUnique(a: seq<string>, b: seq<string>)
    requires Sorted(a) && Sorted(b) && multiset(a) == multiset(b)
    ensures a == b
  {
    if a == [] {
      assert |b| == |multiset(b)| == |multiset(a)| == 0;
    } else {
      assert a[0] in multiset(b) && |multiset(b)| == |b|;
      assert b[0] in multiset(a);
      if a[0] != b[0] {
        var i :| 0 <= i < |b| && b[i] == a[0];
        var j :| 0 <= j < |a| && a[j] == b[0];
        LeqAntisymmetric(a[0], b[0]);
      }
      assert a == [a[0]] + a[1..] && b == [b[0]] + b[1..];
      assert multiset(a[1..]) == multiset(a) - multiset{a[0]};
      assert multiset(b[1..]) == multiset(b) - multiset{b[0]};
      SortedUnique(a[1..], b[1..]);
    }
  }

  /** Go's map iteration: every key once, in an order of the runtime's choosing. */
  method KeysInSomeOrder(keys: set<string>) returns (s: seq<string>)
    ensures multiset(s) == multiset(keys)
  {
    s := [];
    var todo := keys;
    while todo != {}
      invariant todo <= keys
      invariant multiset(s) == multiset(keys - todo)
    {
      var k :| k in todo;
      s := s + [k];
      assert keys - (todo - {k}) == (keys - todo) + {k};
      todo := todo - {k};
    }
    assert keys - todo == keys;
  }

  /** The elements of a set in order: what any walk of a map's keys sorts to. */
  ghost function SortedKeys(keys: set<string>): (r: seq<string>)
    ensures Sorted(r) && multiset(r) == multiset(keys)
  {
    if keys == {} then []
    else
      var k :| k in keys;
      assert multiset(keys) == multiset{k} + multiset(keys - {k});
      Insert(k, SortedKeys(keys - {k}))
  }

  /** A sequence with the elements of a set holds each exactly once. */
  lemma NoRepeats(s: seq<string>, keys: set<string>)
    requires multiset(s) == multiset(keys)
    ensures forall k :: k in s <==> k in keys
    ensures forall i, j | 0 <= i < j < |s| :: s[i] != s[j]
  {
    forall k ensures k in s <==> k in keys {
      assert k in s <==> k in multiset(s);
    }
    forall i, j | 0 <= i < j < |s| ensures s[i] != s[j] {
      assert s == s[..j] + [s[j]] + s[j + 1..];
      assert s[i] in s[..j];
      assert multiset(s)[s[j]] <= 1;
      assert multiset(s[..j])[s[j]] == 0;
    }
  }

  ghost predicate AllDifferent(s: seq<string>) {
    forall i, j | 0 <= i < j < |s| :: s[i] != s[j]
  }

  lemma {:induction false} OnceIsSet(s: seq<string>)
    requires AllDifferent(s)
    ensures multiset(s) == multiset(set x | x in s)
  {
    if s != [] {
      var init, last := s[..|s| - 1], s[|s| - 1];
      OnceIsSet(init);
      assert s == init + [last] && last !in init;
      assert (set x | x in s) == (set x | x in init) + {last};
    }
  }

  /** Sorting keeps the members, and keeps them distinct. */
  lemma SortKeepsMembers(s: seq<string>)
    ensures forall x :: x in Sort(s) <==> x in s
    ensures AllDifferent(s) ==> AllDifferent(Sort(s))
  {
    forall x ensures x in Sort(s) <==> x in s {
      assert x in Sort(s) <==> x in multiset(Sort(s));
    }
    if AllDifferent(s) {
      OnceIsSet(s);
      NoRepeats(Sort(s), set x | x in s);
    }
  }

  /** The first n elements, or all when there are fewer. */
  function Take<T>(s: seq<T>, n: nat): seq<T> {
    if |s| <= n then s else s[..n]
  }

  lemma TakeExactly<T>(s: seq<T>, n: nat)
    ensures Take(s, n) <= s && |Take(s, n)| == (if |s| < n then |s| else n)
  {
  }

  // -------------------------------------------------------------- joining

  function Join(parts: seq<string>, sep: string): string {
    if |parts| == 0 then ""
    else if |parts| == 1 then parts[0]
    else parts[0] + sep + Join(parts[1..], sep)
  }

  /** One separator between any two neighbours, and none elsewhere. */
  lemma {:induction false} JoinConcat(a: seq<string>, b: seq<string>, sep: string)
    requires a != [] && b != []
    ensures Join(a + b, sep) == Join(a, sep) + sep + Join(b, sep)
    ensures |a| == 1 ==> Join(a, sep) == a[0]
  {
    assert (a + b)[1..] == a[1..] + b;
    if |a| > 1 {
      JoinConcat(a[1..], b, sep);
    } else {
      assert a[1..] + b == b;
    }
  }

  // ------------------------------------------------------------ file names

  predicate EndsIn(s: string, suffix: string) {
    |s| >= |suffix| && s[|s| - |suffix|..] == suffix
  }

  /** filepath.Ext: from the last dot of the last path element. */
  function Ext(s: string): string {
    ExtBefore(s, |s|)
  }

  function ExtBefore(s: string, i: nat): string
    requires i <= |s|
  {
    if i == 0 || s[i - 1] == '/' then ""
    else if s[i - 1] == '.' then s[i - 1..]
    else ExtBefore(s, i - 1)
  }

  lemma {:induction false} ExtSuffix(s: string, i: nat)
    requires i <= |s|
    ensures ExtBefore(s, i) == "" || EndsIn(s, ExtBefore(s, i))
    decreases i
  {
    if i > 0 && s[i - 1] != '/' && s[i - 1] != '.' { ExtSuffix(s, i - 1); }
  }

  lemma {:induction false} ExtFrom(s: string, k: nat, i: nat)
    requires k < i <= |s| && s[k] == '.' && forall j | k < j < i :: s[j] != '.' && s[j] != '/'
    ensures ExtBefore(s, i) == s[k..]
    decreases i
  {
    if k < i - 1 { ExtFrom(s, k, i - 1); }
  }

  /** Having an extension is ending in it. */
  lemma ExtIs(s: string, ext: string)
    requires ext != "" && ext[0] == '.' && forall j | 1 <= j < |ext| :: ext[j] != '.' && ext[j] != '/'
    ensures Ext(s) == ext <==> EndsIn(s, ext)
  {
    ExtSuffix(s, |s|);
    if EndsIn(s, ext) {
      var k := |s| - |ext|;
      assert forall j | k <= j < |s| :: s[j] == s[k..][j - k] == ext[j - k];
      ExtFrom(s, k, |s|);
    }
  }

  // -------------------------------------------------- substring searching

  predicate HasPrefix(s: string, prefix: string) {
    |prefix| <= |s| && s[..|prefix|] == prefix
  }

  predicate OccursAt(s: string, pat: string, i: int) {
    0 <= i && i + |pat| <= |s| && s[i..i + |pat|] == pat
  }

  /** strings.Index. */
  function Index(s: string, pat: string): (r: Option<nat>)
    ensures r.Some? ==> r.value + |pat| <= |s|
  {
    if HasPrefix(s, pat) then Some(0)
    else if s == "" then None
    else
      match Index(s[1..], pat)
      case Some(i) => Some(i + 1)
      case None => None
  }

  lemma SliceOfTail(s: string, i: nat, n: nat)
    requires 1 <= i && i + n <= |s|
    ensures s[i..i + n] == s[1..][i - 1..i - 1 + n]
  {
  }

  /** Index finds the least position at which the pattern occurs. */
  lemma {:induction false} IndexLeast(s: string, pat: string)
    ensures Index(s, pat).Some? ==> OccursAt(s, pat, Index(s, pat).value)
    ensures forall i | OccursAt(s, pat, i) :: Index(s, pat).Some? && Index(s, pat).value <= i
  {
    if !HasPrefix(s, pat) && s != "" {
      IndexLeast(s[1..], pat);
      forall i | 1 <= i ensures OccursAt(s, pat, i) <==> OccursAt(s[1..], pat, i - 1) {
        if i + |pat| <= |s| { SliceOfTail(s, i, |pat|); }
      }
      forall i | OccursAt(s, pat, i) ensures Index(s, pat).Some? && Index(s, pat).value <= i {
        if i >= 1 { assert OccursAt(s[1..], pat, i - 1); }
      }
    }
  }

  /** Searching for one character. */
  lemma IndexChar(s: string, c: char)
    ensures Index(s, [c]).None? <==> c !in s
    ensures Index(s, [c]).Some? ==>
      var i := Index(s, [c]).value;
      i < |s| && s[i] == c && c !in s[..i]
  {
    IndexLeast(s, [c]);
    forall i ensures OccursAt(s, [c], i) <==> 0 <= i < |s| && s[i] == c {
      if 0 <= i < |s| { assert s[i..i + 1] == [s[i]]; }
    }
  }

  lemma FirstChar(a: string, c: char, b: string)
    requires c !in a
    ensures Index(a + [c] + b, [c]) == Some(|a|)
  {
    var s := a + [c] + b;
    IndexChar(s, c);
    var i := Index(s, [c]).value;
    assert s[|a|] == c;
    assert forall j | 0 <= j < |a| :: s[j] == a[j] && a[j] in a;
    assert forall j | 0 <= j < i :: s[..i][j] == s[j];
  }

  /** strings.Count for a non-empty pattern: non-overlapping occurrences,
      taken from the left. */
  function Count(s: string, pat: string): nat
    requires pat != ""
    decreases |s|
  {
    match Index(s, pat)
    case None => 0
    case Some(i) => 1 + Count(s[i + |pat|..], pat)
  }

  /** strings.Replace for a non-empty pattern and at most n replacements. */
  function Replace(s: string, pat: string, repl: string, n: nat): string
    requires pat != ""
    decreases |s|
  {
    match Index(s, pat)
    case None => s
    case Some(i) => if n == 0 then s else s[..i] + repl + Replace(s[i + |pat|..], pat, repl, n - 1)
  }

  function ReplaceAll(s: string, pat: string, repl: string): string
    requires pat != ""
  {
    Replace(s, pat, repl, Count(s, pat))
  }

  /** For a one-character pattern ReplaceAll works character by character. */
  lemma ReplaceAllChar(c: char, s: string, repl: string)
    requires s != ""
    ensures ReplaceAll(s, [c], repl) ==
            (if s[0] == c then repl else [s[0]]) + ReplaceAll(s[1..], [c], repl)
  {
    if s[0] == c {
      assert HasPrefix(s, [c]);
    } else {
      assert !HasPrefix(s, [c]);
      match Index(s[1..], [c])
      case None =>
      case Some(i) =>
        assert s[..i + 1] == [s[0]] + s[1..][..i];
        assert s[i + 1 + 1..] == s[1..][i + 1..];
    }
  }
}
