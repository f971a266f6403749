/** The output buffer that keeps the first bytes written to it. */
module CappedBuffer {
  import opened Text

  function Concat(chunks: seq<string>): string {
    if chunks == [] then "" else Concat(chunks[..|chunks| - 1]) + chunks[|chunks| - 1]
  }

  function Cap(limit: int): nat {
    if limit < 0 then 0 else limit
  }

  /** Some write found the buffer full, or did not fit. */
  ghost predicate Overran(chunks: seq<string>, limit: int) {
    exists i | 0 <= i < |chunks| :: OverranAt(chunks, limit, i)
  }

  ghost predicate OverranAt(chunks: seq<string>, limit: int, i: nat)
    requires i < |chunks|
  {
    |Concat(chunks[..i])| >= limit || |Concat(chunks[..i + 1])| > limit
  }

  class Buffer {
    var buf: string
    const limit: int
    var truncated: bool
    ghost var Chunks: seq<string>    // every write so far

    ghost predicate Valid()
      reads this
    {
      buf == Take(Concat(Chunks), Cap(limit)) && (truncated <==> Overran(Chunks, limit))
    }

    constructor (limit: int)
      ensures Valid() && Chunks == [] && this.limit == limit
    {
      this.limit := limit;
      buf, truncated, Chunks := "", false, [];
    }

    method Write(p: string) returns (n: nat)
      requires Valid()
      modifies this
      ensures Valid() && Chunks == old(Chunks) + [p] && n == |p|
    {
      n := |p|;
      OverranGrows(Chunks, p, limit);
      ConcatGrows(Chunks, p);
      TakeMore(Concat(Chunks), p, Cap(limit));
      Chunks := Chunks + [p];
      var remaining := limit - |buf|;
      if remaining <= 0 {
        truncated := true;
        return;
      }
      if |p| > remaining {
        buf := buf + p[..remaining];
        truncated := true;
        return;
      }
      buf := buf + p;
    }
  }

  lemma ConcatGrows(chunks: seq<string>, p: string)
    ensures Concat(chunks + [p]) == Concat(chunks) + p
  {
    assert (chunks + [p])[..|chunks|] == chunks;
  }

  lemma TakeMore(s: string, p: string, n: nat)
    ensures Take(s + p, n) ==
            if |s| >= n then Take(s, n) else if |p| > n - |s| then Take(s, n) + p[..n - |s|] else Take(s, n) + p
  {
  }

  lemma OverranGrows(chunks: seq<string>, p: string, limit: int)
    ensures Overran(chunks + [p], limit) <==>
              Overran(chunks, limit) || |Concat(chunks)| >= limit || |Concat(chunks)| + |p| > limit
  {
    var all := chunks + [p];
    assert all[..|chunks|] == chunks && all[..|chunks| + 1] == all && all[..|all| - 1] == chunks;
    forall i | 0 <= i < |chunks| ensures OverranAt(all, limit, i) <==> OverranAt(chunks, limit, i) {
      assert all[..i] == chunks[..i] && all[..i + 1] == chunks[..i + 1];
    }
    assert OverranAt(all, limit, |chunks|) <==> |Concat(chunks)| >= limit || |Concat(chunks)| + |p| > limit;
    if Overran(chunks, limit) {
      var i :| 0 <= i < |chunks| && OverranAt(chunks, limit, i);
      assert OverranAt(all, limit, i);
    }
  }

  lemma {:induction false} ConcatPrefixShorter(chunks: seq<string>, i: nat)
    requires i <= |chunks|
    ensures |Concat(chunks[..i])| <= |Concat(chunks)|
  {
    if i == |chunks| {
      assert chunks[..i] == chunks;
    } else {
      var shorter := chunks[..|chunks| - 1];
      assert chunks[|chunks| - 1] in chunks && shorter[..i] == chunks[..i] && forall c | c in shorter :: c in chunks;
      ConcatPrefixShorter(shorter, i);
    }
  }

  /** An empty write met a full buffer. */
  ghost predicate EmptyOnFull(chunks: seq<string>, limit: int) {
    exists i | 0 <= i < |chunks| :: EmptyAt(chunks, limit, i)
  }

  ghost predicate EmptyAt(chunks: seq<string>, limit: int, i: nat)
    requires i < |chunks|
  {
    chunks[i] == "" && |Concat(chunks[..i])| >= limit
  }

  /** truncated is set exactly when bytes were dropped, that is, the buffer is
      not all that was written, or an empty write met a full buffer. */
  lemma TruncatedExactly(chunks: seq<string>, limit: int)
    ensures Overran(chunks, limit) <==>
              Take(Concat(chunks), Cap(limit)) != Concat(chunks) || EmptyOnFull(chunks, limit)
  {
    TakeShort(Concat(chunks), Cap(limit));
    if |Concat(chunks)| > Cap(limit) {
      assert chunks[..|chunks| - 1 + 1] == chunks;
      assert OverranAt(chunks, limit, |chunks| - 1);
    } else if Overran(chunks, limit) {
      var i :| 0 <= i < |chunks| && OverranAt(chunks, limit, i);
      ConcatPrefixShorter(chunks, i + 1);
      ConcatNext(chunks, i);
      assert EmptyAt(chunks, limit, i);
    }
    if EmptyOnFull(chunks, limit) {
      var i :| 0 <= i < |chunks| && EmptyAt(chunks, limit, i);
      assert OverranAt(chunks, limit, i);
    }
  }

  lemma TakeShort(s: string, n: nat)
    ensures Take(s, n) != s <==> |s| > n
  {
  }

  lemma ConcatNext(chunks: seq<string>, i: nat)
    requires i < |chunks|
    ensures Concat(chunks[..i + 1]) == Concat(chunks[..i]) + chunks[i]
  {
    assert chunks[..i + 1][..i] == chunks[..i];
  }

  /** So with no empty write it is set exactly when bytes were dropped. */
  lemma TruncatedMeansDropped(chunks: seq<string>, limit: int)
    ensures |Concat(chunks)| > Cap(limit) ==> Overran(chunks, limit)
    ensures (forall c | c in chunks :: c != "") ==> (Overran(chunks, limit) <==> |Concat(chunks)| > Cap(limit))
    ensures (forall c | c in chunks :: c != "") ==>
              (Overran(chunks, limit) <==> Take(Concat(chunks), Cap(limit)) != Concat(chunks))
  {
    TruncatedExactly(chunks, limit);
    TakeShort(Concat(chunks), Cap(limit));
    if forall c | c in chunks :: c != "" {
      forall i | 0 <= i < |chunks| ensures !EmptyAt(chunks, limit, i) {
        assert chunks[i] in chunks;
      }
    }
  }
}
