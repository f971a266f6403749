/** fs_patch: substring edits applied in turn to a file's text, then one
    replacement of the file. */
module Patch {
  import opened Text
  import opened AtomicFile
  import opened DiskFiles

  // ----------------------------------- what strings.Replace does to a text

  /** No occurrence of pat begins inside s when s is followed by pat. */
  ghost predicate FirstAtEnd(s: string, pat: string) {
    forall i | OccursAt(s + pat, pat, i) :: i == |s|
  }

  ghost predicate Lacks(s: string, pat: string) {
    forall i :: !OccursAt(s, pat, i)
  }

  /** The text cut at its leftmost, non-overlapping occurrences of pat: between
      two cuts, and after the last, there is none earlier to be found. */
  ghost predicate LeftmostCut(s: string, pat: string, gaps: seq<string>) {
    && gaps != [] && Join(gaps, pat) == s
    && (forall k | 0 <= k < |gaps| - 1 :: FirstAtEnd(gaps[k], pat))
    && Lacks(gaps[|gaps| - 1], pat)
  }

  function Gaps(s: string, pat: string): (r: seq<string>)
    requires pat != ""
    ensures r != []
    decreases |s|
  {
    match Index(s, pat)
    case None => [s]
    case Some(i) => [s[..i]] + Gaps(s[i + |pat|..], pat)
  }

  /** The gaps put together again with repl in the first n places. */
  function Rejoin(gaps: seq<string>, pat: string, repl: string, n: nat): string
    requires gaps != []
  {
    if |gaps| == 1 then gaps[0]
    else gaps[0] + (if n > 0 then repl else pat) + Rejoin(gaps[1..], pat, repl, if n > 0 then n - 1 else 0)
  }

  lemma OccursWithin(s: string, rest: string, pat: string, i: nat)
    requires i + |pat| <= |s|
    ensures OccursAt(s + rest, pat, i) <==> OccursAt(s, pat, i)
  {
    assert (s + rest)[i..i + |pat|] == s[i..i + |pat|];
  }

  /** Where pat is first found, and only there, a cut is leftmost. */
  lemma CutHere(s: string, pat: string, i: nat)
    requires pat != "" && Index(s, pat) == Some(i)
    ensures s == s[..i] + pat + s[i + |pat|..] && FirstAtEnd(s[..i], pat)
  {
    IndexLeast(s, pat);
    var rest := s[i + |pat|..];
    CutInThree(s, i, |pat|);
    forall j | OccursAt(s[..i] + pat, pat, j) ensures j == i {
      OccursWithin(s[..i] + pat, rest, pat, j);
    }
  }

  lemma CutInThree(s: string, i: nat, n: nat)
    requires i + n <= |s|
    ensures s == s[..i] + s[i..i + n] + s[i + n..]
  {
  }

  lemma IndexOfCut(gap: string, pat: string, rest: string)
    requires pat != "" && FirstAtEnd(gap, pat)
    ensures Index(gap + pat + rest, pat) == Some(|gap|)
  {
    var s := gap + pat + rest;
    IndexLeast(s, pat);
    assert s[|gap|..|gap| + |pat|] == pat;
    assert OccursAt(s, pat, |gap|);
    var i := Index(s, pat).value;
    OccursWithin(gap + pat, rest, pat, i);
  }

  lemma {:induction false} GapsCutLeftmost(s: string, pat: string)
    requires pat != ""
    ensures LeftmostCut(s, pat, Gaps(s, pat)) && |Gaps(s, pat)| == Count(s, pat) + 1
    decreases |s|
  {
    IndexLeast(s, pat);
    match Index(s, pat)
    case None =>
    case Some(i) =>
      CutHere(s, pat, i);
      var tail := Gaps(s[i + |pat|..], pat);
      GapsCutLeftmost(s[i + |pat|..], pat);
      var gaps := [s[..i]] + tail;
      assert gaps[1..] == tail;
      forall k | 0 <= k < |gaps| - 1 ensures FirstAtEnd(gaps[k], pat) {
        assert k > 0 ==> gaps[k] == tail[k - 1];
      }
  }

  /** Every text has exactly one such cut. */
  lemma {:induction false} LeftmostCutUnique(s: string, pat: string, gaps: seq<string>)
    requires pat != "" && LeftmostCut(s, pat, gaps)
    ensures gaps == Gaps(s, pat)
    decreases |gaps|
  {
    if |gaps| == 1 {
      IndexLeast(s, pat);
      assert Lacks(s, pat);
    } else {
      var rest := Join(gaps[1..], pat);
      IndexOfCut(gaps[0], pat, rest);
      assert s == gaps[0] + pat + rest;
      assert s[|gaps[0]| + |pat|..] == rest && s[..|gaps[0]|] == gaps[0];
      RestCutLeftmost(s, pat, gaps);
      LeftmostCutUnique(rest, pat, gaps[1..]);
    }
  }

  lemma RestCutLeftmost(s: string, pat: string, gaps: seq<string>)
    requires LeftmostCut(s, pat, gaps) && |gaps| > 1
    ensures LeftmostCut(Join(gaps[1..], pat), pat, gaps[1..])
  {
    forall k | 0 <= k < |gaps[1..]| - 1 ensures FirstAtEnd(gaps[1..][k], pat) {
      assert FirstAtEnd(gaps[k + 1], pat);
    }
  }

  /** Replace changes exactly the first n occurrences of the leftmost cut,
      all of them when there are fewer, and nothing between them. */
  lemma {:induction false} ReplaceFirstN(s: string, pat: string, repl: string, n: nat, gaps: seq<string>)
    requires pat != "" && LeftmostCut(s, pat, gaps)
    ensures Replace(s, pat, repl, n) == Rejoin(gaps, pat, repl, n)
    ensures Count(s, pat) == |gaps| - 1
  {
    LeftmostCutUnique(s, pat, gaps);
    GapsCutLeftmost(s, pat);
    ReplaceGaps(s, pat, repl, n);
  }

  lemma {:induction false} RejoinNone(s: string, pat: string, repl: string)
    requires pat != ""
    ensures Rejoin(Gaps(s, pat), pat, repl, 0) == s
    decreases |s|
  {
    if Index(s, pat).Some? {
      var i := Index(s, pat).value;
      CutHere(s, pat, i);
      RejoinNone(s[i + |pat|..], pat, repl);
      RejoinFirst(s[..i], Gaps(s[i + |pat|..], pat), pat, repl, 0);
    }
  }

  lemma RejoinFirst(gap: string, tail: seq<string>, pat: string, repl: string, n: nat)
    requires tail != []
    ensures Rejoin([gap] + tail, pat, repl, n) ==
            gap + (if n > 0 then repl else pat) + Rejoin(tail, pat, repl, if n > 0 then n - 1 else 0)
  {
    assert ([gap] + tail)[1..] == tail;
  }

  lemma {:induction false} ReplaceGaps(s: string, pat: string, repl: string, n: nat)
    requires pat != ""
    ensures Replace(s, pat, repl, n) == Rejoin(Gaps(s, pat), pat, repl, n)
    decreases |s|
  {
    if n == 0 {
      RejoinNone(s, pat, repl);
    } else if Index(s, pat).Some? {
      var i := Index(s, pat).value;
      ReplaceGaps(s[i + |pat|..], pat, repl, n - 1);
      RejoinFirst(s[..i], Gaps(s[i + |pat|..], pat), pat, repl, n);
    }
  }

  /** Two pieces of a cut, the first of which ends at a gap. */
  lemma JoinFirst(gap: string, tail: seq<string>, sep: string)
    requires tail != []
    ensures Join([gap] + tail, sep) == gap + sep + Join(tail, sep)
  {
    assert ([gap] + tail)[1..] == tail;
  }

  lemma {:induction false} RejoinUnchanged(gaps: seq<string>, pat: string, repl: string)
    requires gaps != []
    ensures Rejoin(gaps, pat, repl, 0) == Join(gaps, pat)
  {
    if |gaps| > 1 {
      RejoinUnchanged(gaps[1..], pat, repl);
    }
  }

  lemma {:induction false} RejoinAll(gaps: seq<string>, pat: string, repl: string, n: nat)
    requires gaps != [] && n >= |gaps| - 1
    ensures Rejoin(gaps, pat, repl, n) == Join(gaps, repl)
  {
    if |gaps| > 1 {
      RejoinAll(gaps[1..], pat, repl, n - 1);
    }
  }

  /** The first n separators are the new text, the others the old. */
  lemma {:induction false} RejoinSome(gaps: seq<string>, pat: string, repl: string, n: nat)
    requires n < |gaps| - 1
    ensures Rejoin(gaps, pat, repl, n) == Join(gaps[..n + 1], repl) + pat + Join(gaps[n + 1..], pat)
  {
    if n == 0 {
      RejoinUnchanged(gaps[1..], pat, repl);
    } else {
      RejoinSome(gaps[1..], pat, repl, n - 1);
      assert gaps[1..][n..] == gaps[n + 1..];
      assert gaps[..n + 1] == [gaps[0]] + gaps[1..][..n];
      JoinFirst(gaps[0], gaps[1..][..n], repl);
    }
  }

  /** n times d, by repeated addition. */
  function Grown(n: nat, d: int): int {
    if n == 0 then 0 else Grown(n - 1, d) + d
  }

  lemma {:induction false} GrownIsProduct(n: nat, d: int)
    ensures Grown(n, d) == n * d
  {
    if n > 0 {
      GrownIsProduct(n - 1, d);
      assert (n - 1) * d + d == n * d;
    }
  }

  lemma {:induction false} ReplaceGrows(s: string, pat: string, repl: string, n: nat)
    requires pat != "" && n <= Count(s, pat)
    ensures |Replace(s, pat, repl, n)| == |s| + Grown(n, |repl| - |pat|)
    decreases |s|
  {
    if n > 0 {
      var i := Index(s, pat).value;
      var rest := s[i + |pat|..];
      ReplaceGrows(rest, pat, repl, n - 1);
      assert Replace(s, pat, repl, n) == s[..i] + repl + Replace(rest, pat, repl, n - 1);
    }
  }

  lemma ReplaceLength(s: string, pat: string, repl: string, n: nat)
    requires pat != "" && n <= Count(s, pat)
    ensures |Replace(s, pat, repl, n)| == |s| + n * (|repl| - |pat|)
  {
    ReplaceGrows(s, pat, repl, n);
    GrownIsProduct(n, |repl| - |pat|);
  }

  // ---------------------------------------------------------------- edits

  /** An edit; count <= 0 asks for every occurrence. */
  datatype Edit = Edit(find: string, put: string, count: int)

  datatype Error = BadInput | NoFile | EmptyOld(edit: nat) | NotFound(edit: nat) | DiskError

  /** How many occurrences an edit replaces. */
  function Times(text: string, e: Edit): nat
    requires e.find != ""
  {
    var found := Count(text, e.find);
    if e.count <= 0 || e.count > found then found else e.count
  }

  function AfterEdit(text: string, e: Edit): string
    requires e.find != ""
  {
    Replace(text, e.find, e.put, Times(text, e))
  }

  /** One edit, said of the leftmost cut of the text: without a positive
      count, or with one no less than the occurrences there are, every
      occurrence becomes the new text; otherwise the first count of them do,
      and the others stay. */
  lemma EditExactly(text: string, e: Edit, gaps: seq<string>)
    requires e.find != "" && LeftmostCut(text, e.find, gaps)
    ensures Applicable(text, e) <==> |gaps| > 1
    ensures e.count <= 0 || e.count >= |gaps| - 1 ==>
              Times(text, e) == |gaps| - 1 && AfterEdit(text, e) == Join(gaps, e.put)
    ensures 0 < e.count < |gaps| - 1 ==>
              && Times(text, e) == e.count
              && AfterEdit(text, e) == Join(gaps[..e.count + 1], e.put) + e.find + Join(gaps[e.count + 1..], e.find)
  {
    ReplaceFirstN(text, e.find, e.put, Times(text, e), gaps);
    EditOfRejoin(text, e, gaps);
  }

  lemma EditOfRejoin(text: string, e: Edit, gaps: seq<string>)
    requires e.find != "" && gaps != [] && Count(text, e.find) == |gaps| - 1
    requires AfterEdit(text, e) == Rejoin(gaps, e.find, e.put, Times(text, e))
    ensures e.count <= 0 || e.count >= |gaps| - 1 ==>
              Times(text, e) == |gaps| - 1 && AfterEdit(text, e) == Join(gaps, e.put)
    ensures 0 < e.count < |gaps| - 1 ==>
              && Times(text, e) == e.count
              && AfterEdit(text, e) == Join(gaps[..e.count + 1], e.put) + e.find + Join(gaps[e.count + 1..], e.find)
  {
    RejoinExactly(gaps, e.find, e.put, Times(text, e));
  }

  lemma RejoinExactly(gaps: seq<string>, pat: string, repl: string, n: nat)
    requires gaps != []
    ensures n >= |gaps| - 1 ==> Rejoin(gaps, pat, repl, n) == Join(gaps, repl)
    ensures n < |gaps| - 1 ==> Rejoin(gaps, pat, repl, n) == Join(gaps[..n + 1], repl) + pat + Join(gaps[n + 1..], pat)
  {
    if n < |gaps| - 1 { RejoinSome(gaps, pat, repl, n); } else { RejoinAll(gaps, pat, repl, n); }
  }

  /** Edit k can be made when those before it have been. */
  predicate Applicable(text: string, e: Edit) {
    e.find != "" && Count(text, e.find) > 0
  }

  /** texts lists the text before each edit and after the last. */
  ghost predicate History(edits: seq<Edit>, texts: seq<string>) {
    && |texts| == |edits| + 1
    && forall k | 0 <= k < |edits| :: Applicable(texts[k], edits[k]) && texts[k + 1] == AfterEdit(texts[k], edits[k])
  }

  function Replaced(edits: seq<Edit>, texts: seq<string>): nat
    requires |texts| == |edits| + 1 && forall k | 0 <= k < |edits| :: edits[k].find != ""
  {
    if edits == [] then 0 else Times(texts[0], edits[0]) + Replaced(edits[1..], texts[1..])
  }

  /** The change of length the edits must add up to. */
  function Growth(edits: seq<Edit>, texts: seq<string>): int
    requires |texts| == |edits| + 1 && forall k | 0 <= k < |edits| :: edits[k].find != ""
  {
    if edits == [] then 0
    else Times(texts[0], edits[0]) * (|edits[0].put| - |edits[0].find|) + Growth(edits[1..], texts[1..])
  }

  lemma {:induction false} LengthChanges(edits: seq<Edit>, texts: seq<string>)
    requires History(edits, texts)
    ensures |texts[|edits|]| == |texts[0]| + Growth(edits, texts)
    decreases |edits|
  {
    if edits != [] {
      ReplaceLength(texts[0], edits[0].find, edits[0].put, Times(texts[0], edits[0]));
      assert texts[1] == AfterEdit(texts[0], edits[0]);
      TailHistory(edits, texts);
      LengthChanges(edits[1..], texts[1..]);
    }
  }

  lemma TailHistory(edits: seq<Edit>, texts: seq<string>)
    requires History(edits, texts) && edits != []
    ensures History(edits[1..], texts[1..])
  {
    forall k | 0 <= k < |edits[1..]|
      ensures Applicable(texts[1..][k], edits[1..][k]) && texts[1..][k + 1] == AfterEdit(texts[1..][k], edits[1..][k])
    {
      assert Applicable(texts[k + 1], edits[k + 1]) && texts[k + 2] == AfterEdit(texts[k + 1], edits[k + 1]);
    }
  }

  lemma {:induction false} ReplacedOneMore(edits: seq<Edit>, texts: seq<string>, e: Edit, next: string)
    requires |texts| == |edits| + 1 && e.find != "" && forall k | 0 <= k < |edits| :: edits[k].find != ""
    ensures Replaced(edits + [e], texts + [next]) == Replaced(edits, texts) + Times(texts[|edits|], e)
    decreases |edits|
  {
    var edits', texts' := edits + [e], texts + [next];
    if edits == [] {
      assert edits'[1..] == [];
    } else {
      assert edits'[1..] == edits[1..] + [e] && texts'[1..] == texts[1..] + [next];
      ReplacedOneMore(edits[1..], texts[1..], e, next);
    }
  }

  /** Why an edit list stops short, if it does: the first edit that cannot be
      made, given that all before it can. */
  ghost predicate CannotGoOn(edits: seq<Edit>, texts: seq<string>, error: Error) {
    && 1 <= |texts| <= |edits| && History(edits[..|texts| - 1], texts)
    && var k := |texts| - 1;
       if edits[k].find == "" then error == EmptyOld(k) else Count(texts[k], edits[k].find) == 0 && error == NotFound(k)
  }

  /** r is what the edits make of the text, through these texts. */
  ghost predicate Makes(text: string, edits: seq<Edit>, texts: seq<string>, r: Result<(string, nat), Error>) {
    && texts != [] && texts[0] == text
    && match r
       case Ok(made) => History(edits, texts) && made == (texts[|edits|], Replaced(edits, texts))
       case Err(e) => CannotGoOn(edits, texts, e)
  }

  ghost predicate Outcome(text: string, edits: seq<Edit>, r: Result<(string, nat), Error>) {
    exists texts :: Makes(text, edits, texts, r)
  }

  /** The outcome said of the texts on the way alone.  Each text but the first
      is the one before it cut at the leftmost occurrences of an edit's old
      text and put together with the new text at all of them, or at the first
      count; totals adds the occurrences up; and a list that stops short stops
      at an empty old text or at one that does not occur. */
  lemma OutcomeExactly(text: string, edits: seq<Edit>, r: Result<(string, nat), Error>)
    returns (texts: seq<string>, cuts: seq<seq<string>>, totals: seq<nat>)
    requires Outcome(text, edits, r)
    ensures |texts| == |totals| == |cuts| + 1 <= |edits| + 1 && texts[0] == text && totals[0] == 0
    ensures forall k | 0 <= k < |cuts| ::
              edits[k].find != "" && |cuts[k]| > 1 && LeftmostCut(texts[k], edits[k].find, cuts[k])
    ensures forall k | 0 <= k < |cuts| :: edits[k].count <= 0 || edits[k].count >= |cuts[k]| - 1 ==>
              && texts[k + 1] == Join(cuts[k], edits[k].put)
              && totals[k + 1] == totals[k] + |cuts[k]| - 1
    ensures forall k | 0 <= k < |cuts| :: 0 < edits[k].count < |cuts[k]| - 1 ==>
              && texts[k + 1] == Join(cuts[k][..edits[k].count + 1], edits[k].put) + edits[k].find
                               + Join(cuts[k][edits[k].count + 1..], edits[k].find)
              && totals[k + 1] == totals[k] + edits[k].count
    ensures r.Ok? ==> |cuts| == |edits| && r.value == (texts[|edits|], totals[|edits|])
    ensures r.Err? ==> |cuts| < |edits|
    ensures r.Err? && edits[|cuts|].find == "" ==> r.error == EmptyOld(|cuts|)
    ensures r.Err? && edits[|cuts|].find != "" ==> Lacks(texts[|cuts|], edits[|cuts|].find) && r.error == NotFound(|cuts|)
  {
    var all :| Makes(text, edits, all, r);
    texts := all;
    assert edits[..|edits|] == edits;
    cuts, totals := CutsOfHistory(edits[..|texts| - 1], texts);
    forall k | 0 <= k < |cuts|
      ensures CutEdit(edits[k], texts[k], cuts[k], texts[k + 1], totals[k], totals[k + 1])
    {
      assert edits[..|texts| - 1][k] == edits[k];
    }
    CutsUnfolded(edits, texts, cuts, totals);
    if r.Err? && edits[|texts| - 1].find != "" {
      CountNone(texts[|texts| - 1], edits[|texts| - 1].find);
    }
  }

  lemma CutsUnfolded(edits: seq<Edit>, texts: seq<string>, cuts: seq<seq<string>>, totals: seq<nat>)
    requires |texts| == |totals| == |cuts| + 1 <= |edits| + 1
    requires forall k | 0 <= k < |cuts| :: CutEdit(edits[k], texts[k], cuts[k], texts[k + 1], totals[k], totals[k + 1])
    ensures forall k | 0 <= k < |cuts| ::
              edits[k].find != "" && |cuts[k]| > 1 && LeftmostCut(texts[k], edits[k].find, cuts[k])
    ensures forall k | 0 <= k < |cuts| :: edits[k].count <= 0 || edits[k].count >= |cuts[k]| - 1 ==>
              && texts[k + 1] == Join(cuts[k], edits[k].put)
              && totals[k + 1] == totals[k] + |cuts[k]| - 1
    ensures forall k | 0 <= k < |cuts| :: 0 < edits[k].count < |cuts[k]| - 1 ==>
              && texts[k + 1] == Join(cuts[k][..edits[k].count + 1], edits[k].put) + edits[k].find
                               + Join(cuts[k][edits[k].count + 1..], edits[k].find)
              && totals[k + 1] == totals[k] + edits[k].count
  {
    forall k | 0 <= k < |cuts|
      ensures edits[k].find != "" && |cuts[k]| > 1 && LeftmostCut(texts[k], edits[k].find, cuts[k])
    {
      assert CutEdit(edits[k], texts[k], cuts[k], texts[k + 1], totals[k], totals[k + 1]);
    }
  }

  lemma CutsOfHistory(edits: seq<Edit>, texts: seq<string>) returns (cuts: seq<seq<string>>, totals: seq<nat>)
    requires History(edits, texts)
    ensures |cuts| == |edits| && |totals| == |edits| + 1 && totals[0] == 0 && totals[|edits|] == Replaced(edits, texts)
    ensures forall k | 0 <= k < |cuts| :: CutEdit(edits[k], texts[k], cuts[k], texts[k + 1], totals[k], totals[k + 1])
  {
    cuts := seq(|edits|, k requires 0 <= k < |edits| => Gaps(texts[k], edits[k].find));
    totals := seq(|edits| + 1, k requires 0 <= k <= |edits| => Replaced(edits[..k], texts[..k + 1]));
    assert edits[..|edits|] == edits && texts[..|edits| + 1] == texts;
    forall k | 0 <= k < |cuts|
      ensures CutEdit(edits[k], texts[k], cuts[k], texts[k + 1], totals[k], totals[k + 1])
    {
      CutOfHistory(edits, texts, k);
    }
  }

  lemma CountNone(s: string, pat: string)
    requires pat != "" && Count(s, pat) == 0
    ensures Lacks(s, pat)
  {
    IndexLeast(s, pat);
  }

  ghost predicate CutEdit(e: Edit, text: string, gaps: seq<string>, next: string, before: nat, after: nat) {
    && e.find != "" && |gaps| > 1 && LeftmostCut(text, e.find, gaps)
    && (e.count <= 0 || e.count >= |gaps| - 1 ==> next == Join(gaps, e.put) && after == before + |gaps| - 1)
    && (0 < e.count < |gaps| - 1 ==>
          && next == Join(gaps[..e.count + 1], e.put) + e.find + Join(gaps[e.count + 1..], e.find)
          && after == before + e.count)
  }

  lemma OneCut(text: string, e: Edit, before: nat)
    requires Applicable(text, e)
    ensures CutEdit(e, text, Gaps(text, e.find), AfterEdit(text, e), before, before + Times(text, e))
  {
    GapsCutLeftmost(text, e.find);
    EditExactly(text, e, Gaps(text, e.find));
  }

  lemma CutOfHistory(edits: seq<Edit>, texts: seq<string>, k: nat)
    requires History(edits, texts) && k < |edits|
    ensures edits[k].find != ""
    ensures CutEdit(edits[k], texts[k], Gaps(texts[k], edits[k].find), texts[k + 1],
                    Replaced(edits[..k], texts[..k + 1]), Replaced(edits[..k + 1], texts[..k + 2]))
  {
    assert Applicable(texts[k], edits[k]) && texts[k + 1] == AfterEdit(texts[k], edits[k]);
    OneCut(texts[k], edits[k], Replaced(edits[..k], texts[..k + 1]));
    ReplacedOneMore(edits[..k], texts[..k + 1], edits[k], texts[k + 1]);
    assert edits[..k + 1] == edits[..k] + [edits[k]] && texts[..k + 2] == texts[..k + 1] + [texts[k + 1]];
  }

  /** The edit loop. */
  method EditLoop(text: string, edits: seq<Edit>) returns (r: Result<(string, nat), Error>)
    ensures Outcome(text, edits, r)
  {
    var now, total := text, 0;
    ghost var texts := [text];
    assert edits[..0] == [];
    for i := 0 to |edits|
      invariant History(edits[..i], texts) && texts[0] == text && texts[i] == now
      invariant total == Replaced(edits[..i], texts)
    {
      var e := edits[i];
      if e.find == "" {
        r := Err(EmptyOld(i));
        assert Makes(text, edits, texts, r);
        return;
      }
      var found := Count(now, e.find);
      if found == 0 {
        r := Err(NotFound(i));
        assert Makes(text, edits, texts, r);
        return;
      }
      var count := e.count;
      if count <= 0 || count > found {
        count := found;
      }
      now := Replace(now, e.find, e.put, count);
      ReplacedOneMore(edits[..i], texts, e, now);
      ExtendHistory(edits[..i], texts, e);
      assert edits[..i + 1] == edits[..i] + [e];
      texts := texts + [now];
      total := total + count;
    }
    assert edits[..|edits|] == edits;
    r := Ok((now, total));
    assert Makes(text, edits, texts, r);
  }

  /** What the loop makes, with the texts on the way, their cuts and the
      running total. */
  method ApplyEdits(text: string, edits: seq<Edit>)
    returns (r: Result<(string, nat), Error>, ghost texts: seq<string>, ghost cuts: seq<seq<string>>, ghost totals: seq<nat>)
    ensures Outcome(text, edits, r)
    ensures |texts| == |totals| == |cuts| + 1 <= |edits| + 1 && texts[0] == text && totals[0] == 0
    ensures forall k | 0 <= k < |cuts| ::
              edits[k].find != "" && |cuts[k]| > 1 && LeftmostCut(texts[k], edits[k].find, cuts[k])
    ensures forall k | 0 <= k < |cuts| :: edits[k].count <= 0 || edits[k].count >= |cuts[k]| - 1 ==>
              && texts[k + 1] == Join(cuts[k], edits[k].put)
              && totals[k + 1] == totals[k] + |cuts[k]| - 1
    ensures forall k | 0 <= k < |cuts| :: 0 < edits[k].count < |cuts[k]| - 1 ==>
              && texts[k + 1] == Join(cuts[k][..edits[k].count + 1], edits[k].put) + edits[k].find
                               + Join(cuts[k][edits[k].count + 1..], edits[k].find)
              && totals[k + 1] == totals[k] + edits[k].count
    ensures r.Ok? ==> |cuts| == |edits| && r.value == (texts[|edits|], totals[|edits|])
    ensures r.Err? ==> |cuts| < |edits|
    ensures r.Err? && edits[|cuts|].find == "" ==> r.error == EmptyOld(|cuts|)
    ensures r.Err? && edits[|cuts|].find != "" ==> Lacks(texts[|cuts|], edits[|cuts|].find) && r.error == NotFound(|cuts|)
  {
    var made := EditLoop(text, edits);
    texts, cuts, totals := OutcomeExactly(text, edits, made);
    r := made;
  }

  lemma ExtendHistory(edits: seq<Edit>, texts: seq<string>, e: Edit)
    requires History(edits, texts) && Applicable(texts[|edits|], e)
    ensures History(edits + [e], texts + [AfterEdit(texts[|edits|], e)])
  {
    var edits', texts' := edits + [e], texts + [AfterEdit(texts[|edits|], e)];
    forall k | 0 <= k < |edits'| ensures Applicable(texts'[k], edits'[k]) && texts'[k + 1] == AfterEdit(texts'[k], edits'[k]) {
      assert k < |edits| ==> texts'[k] == texts[k] && texts'[k + 1] == texts[k + 1] && edits'[k] == edits[k];
    }
  }

  lemma {:induction false} HistoryUnique(edits: seq<Edit>, a: seq<string>, b: seq<string>)
    requires History(edits, a) && History(edits, b) && a[0] == b[0]
    ensures a == b
    decreases |edits|
  {
    if edits == [] {
    } else {
      TailHistory(edits, a);
      TailHistory(edits, b);
      assert a[1] == AfterEdit(a[0], edits[0]) == b[1];
      HistoryUnique(edits[1..], a[1..], b[1..]);
      assert a == [a[0]] + a[1..] && b == [b[0]] + b[1..];
    }
  }

  lemma HistoryPrefix(edits: seq<Edit>, texts: seq<string>, k: nat)
    requires History(edits, texts) && k <= |edits|
    ensures History(edits[..k], texts[..k + 1])
  {
    forall i | 0 <= i < k
      ensures Applicable(texts[..k + 1][i], edits[..k][i]) && texts[..k + 1][i + 1] == AfterEdit(texts[..k + 1][i], edits[..k][i])
    {
      assert Applicable(texts[i], edits[i]) && texts[i + 1] == AfterEdit(texts[i], edits[i]);
    }
  }

  /** Edits that stop short at one place cannot get past it. */
  lemma StopsThere(text: string, edits: seq<Edit>, a: seq<string>, error: Error, b: seq<string>, k: nat)
    requires a != [] && a[0] == text && CannotGoOn(edits, a, error)
    requires k <= |edits| && |b| == k + 1 && b[0] == text && History(edits[..k], b)
    ensures k < |a|
  {
    var n := |a| - 1;
    if n < k {
      HistoryPrefix(edits[..k], b, n);
      assert edits[..k][..n] == edits[..n];
      assert edits[..k][n] == edits[n] && Applicable(b[n], edits[n]) && b[n] == b[..n + 1][n];
      HistoryUnique(edits[..n], a, b[..n + 1]);
    }
  }

  /** The text and the edits determine the outcome: the text made and the
      count, or the edit that failed and why. */
  lemma OutcomeUnique(text: string, edits: seq<Edit>, r: Result<(string, nat), Error>, r': Result<(string, nat), Error>)
    requires Outcome(text, edits, r) && Outcome(text, edits, r')
    ensures r == r'
  {
    var a :| Makes(text, edits, a, r);
    var b :| Makes(text, edits, b, r');
    assert edits[..|edits|] == edits;
    if r.Err? { StopsThere(text, edits, a, r.error, b, |b| - 1); }
    if r'.Err? { StopsThere(text, edits, b, r'.error, a, |a| - 1); }
    assert |a| == |b| && (r.Ok? <==> r'.Ok?);
    HistoryUnique(edits[..|a| - 1], a, b);
  }

  /** fs_patch.  On success the file holds what the edits make and the count is
      the one they make; whatever goes wrong, short of death, leaves the disk
      as it was. */
  method FsPatch(disk: Disk, path: string, edits: seq<Edit>, tmp: string, fate: Fate)
    returns (r: Result<nat, Error>, ghost edited: Result<(string, nat), Error>)
    requires disk.Valid() && disk.Usable(path, tmp)
    modifies disk`files, disk`W
    ensures disk.Valid() && disk.first == old(disk.first)
    ensures path == "" || edits == [] ==> r == Err(BadInput) && disk.files == old(disk.files)
    ensures path != "" && edits != [] && path !in old(disk.files) ==> r == Err(NoFile) && disk.files == old(disk.files)
    ensures path != "" && edits != [] && path in old(disk.files) ==>
              && Outcome(old(disk.files)[path].data, edits, edited)
              && (edited.Err? ==> r == Err(edited.error) && disk.files == old(disk.files))
              && (edited.Ok? ==>
                    var made := old(disk.files)[path := File(edited.value.0, true)];
                    match fate
                    case Finishes => r == Ok(edited.value.1) && disk.files == made
                    case Errs(_) => r == Err(DiskError) && disk.files == old(disk.files)
                    case Dies(_) => r == Err(DiskError) && disk.files - {tmp} == old(disk.files)
                    case DiesRenamed => r == Err(DiskError) && disk.files == made)
  {
    edited := Err(BadInput);
    if path == "" || edits == [] {
      return Err(BadInput), edited;
    }
    if path !in disk.files {
      return Err(NoFile), edited;
    }
    var applied, _, _, _ := ApplyEdits(disk.files[path].data, edits);
    edited := applied;
    if applied.Err? {
      return Err(applied.error), edited;
    }
    var ok := disk.Replace(path, applied.value.0, tmp, fate);
    r := if ok then Ok(applied.value.1) else Err(DiskError);
  }
}
