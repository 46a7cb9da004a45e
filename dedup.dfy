/**
  The deduplication loop of `upload_file` (remove-duplicates/src/main.rs:40-48):
  every line is trimmed; a trimmed line is kept the first time it is seen,
  unless it is empty.
 */
module Dedup {
  import opened Text

  /** Every line, trimmed. */
  function TrimAll(lines: seq<string>): (ts: seq<string>)
    ensures |ts| == |lines|
    ensures forall k :: 0 <= k < |lines| ==> ts[k] == Trim(lines[k])
  {
    seq(|lines|, k requires 0 <= k < |lines| => Trim(lines[k]))
  }

  /**
    What the loop keeps of the trimmed lines `ts`: each non-empty value the
    first time it occurs, in input order. Defined from the last line
    backwards so that it follows the loop one iteration at a time.
   */
  function Unique(ts: seq<string>): (r: seq<string>)
    ensures |r| <= |ts|
    decreases |ts|
  {
    if ts == [] then []
    else
      var prev := Unique(ts[..|ts| - 1]);
      var t := ts[|ts| - 1];
      if t != "" && t !in prev then prev + [t] else prev
  }

  /** What the loop keeps of the raw lines. */
  function Kept(lines: seq<string>): (r: seq<string>) {
    Unique(TrimAll(lines))
  }

  /** Index of the first occurrence of `x` in `ts`, or `|ts|` when there is none. */
  function FirstAt(ts: seq<string>, x: string): (r: nat)
    ensures r <= |ts|
    ensures forall k :: 0 <= k < r ==> ts[k] != x
    ensures r < |ts| ==> ts[r] == x
  {
    if ts == [] then 0
    else if ts[0] == x then 0
    else 1 + FirstAt(ts[1..], x)
  }

  /** The values kept are exactly the non-empty values of the input. */
  lemma {:induction false} UniqueMembers(ts: seq<string>, x: string)
    ensures x in Unique(ts) <==> x != "" && x in ts
    decreases |ts|
  {
    if ts != [] {
      var init := ts[..|ts| - 1];
      UniqueMembers(init, x);
      assert ts == init + [ts[|ts| - 1]];
    }
  }

  /** No value is kept twice. */
  lemma {:induction false} UniqueDistinct(ts: seq<string>)
    ensures forall i, j :: 0 <= i < j < |Unique(ts)| ==> Unique(ts)[i] != Unique(ts)[j]
    decreases |ts|
  {
    if ts != [] {
      UniqueDistinct(ts[..|ts| - 1]);
    }
  }

  /** A first occurrence inside a prefix is the first occurrence in the whole. */
  lemma {:induction false} FirstAtPrefix(ts: seq<string>, m: nat, x: string)
    requires m <= |ts|
    ensures FirstAt(ts[..m], x) < m ==> FirstAt(ts, x) == FirstAt(ts[..m], x)
    ensures FirstAt(ts[..m], x) == m ==> FirstAt(ts, x) >= m
    decreases m
  {
    if m > 0 {
      assert ts[..m][1..] == ts[1..][..m - 1];
      FirstAtPrefix(ts[1..], m - 1, x);
    }
  }

  /** The kept values come in the order of their first occurrence. */
  lemma {:induction false} UniqueOrder(ts: seq<string>)
    ensures forall i, j :: 0 <= i < j < |Unique(ts)| ==>
      FirstAt(ts, Unique(ts)[i]) < FirstAt(ts, Unique(ts)[j])
    decreases |ts|
  {
    if ts != [] {
      var n := |ts|;
      var init := ts[..n - 1];
      var prev := Unique(init);
      UniqueOrder(init);
      // Values kept before the last one first occur at the same place as in
      // the shorter input, before the last position.
      forall i | 0 <= i < |prev|
        ensures FirstAt(ts, prev[i]) == FirstAt(init, prev[i]) < n - 1
      {
        UniqueMembers(init, prev[i]);
        FirstAtPrefix(ts, n - 1, prev[i]);
      }
      var t := ts[n - 1];
      if t != "" && t !in prev {
        UniqueMembers(init, t);
        FirstAtPrefix(ts, n - 1, t);
        assert FirstAt(ts, t) == n - 1;
      }
    }
  }

  /** Input without empty values and without repeats is kept unchanged. */
  lemma {:induction false} UniqueOfDistinct(ts: seq<string>)
    requires forall i :: 0 <= i < |ts| ==> ts[i] != ""
    requires forall i, j :: 0 <= i < j < |ts| ==> ts[i] != ts[j]
    ensures Unique(ts) == ts
    decreases |ts|
  {
    if ts != [] {
      var init := ts[..|ts| - 1];
      UniqueOfDistinct(init);
      assert init + [ts[|ts| - 1]] == ts;
    }
  }

  /** Every kept line is non-empty and trimmed: trimming it again changes
      nothing. */
  lemma KeptTrimmed(lines: seq<string>)
    ensures forall i :: 0 <= i < |Kept(lines)| ==>
      Kept(lines)[i] != "" && IsTrimmed(Kept(lines)[i]) && Trim(Kept(lines)[i]) == Kept(lines)[i]
  {
    forall i | 0 <= i < |Kept(lines)|
      ensures Kept(lines)[i] != "" && IsTrimmed(Kept(lines)[i]) && Trim(Kept(lines)[i]) == Kept(lines)[i]
    {
      var x := Kept(lines)[i];
      UniqueMembers(TrimAll(lines), x);
      var k :| 0 <= k < |lines| && TrimAll(lines)[k] == x;
      TrimTrimmed(x);
    }
  }

  /** Re-deduplicating the kept lines changes nothing. */
  lemma KeptIdempotent(lines: seq<string>)
    ensures Kept(Kept(lines)) == Kept(lines)
  {
    var r := Kept(lines);
    KeptTrimmed(lines);
    UniqueDistinct(TrimAll(lines));
    assert TrimAll(r) == r;
    UniqueOfDistinct(r);
  }

  /**
    The loop over the lines of the decoded upload. `seen` holds every
    trimmed line met so far, the empty line included (the source inserts
    before it tests for emptiness); `result` grows by a trimmed line only
    when the insertion was new and the line is not empty.
   */
  method DedupLines(lines: seq<string>) returns (result: seq<string>)
    ensures result == Kept(lines)
    ensures forall i :: 0 <= i < |result| ==> result[i] != "" && Trim(result[i]) == result[i]
    ensures forall i, j :: 0 <= i < j < |result| ==> result[i] != result[j]
    ensures forall x :: x in result <==> x != "" && x in TrimAll(lines)
    ensures forall i, j :: 0 <= i < j < |result| ==>
      FirstAt(TrimAll(lines), result[i]) < FirstAt(TrimAll(lines), result[j])
  {
    ghost var ts := TrimAll(lines);
    var seen: set<string> := {};
    result := [];
    for i := 0 to |lines|
      invariant result == Unique(ts[..i])
      invariant forall x :: x in seen <==> x in ts[..i]
    {
      var line := Trim(lines[i]);
      UniqueMembers(ts[..i], line);
      var inserted := line !in seen;
      seen := seen + {line};
      if inserted && line != "" {
        result := result + [line];
      }
      assert ts[..i + 1][..i] == ts[..i];
      assert ts[..i + 1] == ts[..i] + [line];
    }
    assert ts[..|lines|] == ts;
    KeptTrimmed(lines);
    UniqueDistinct(ts);
    UniqueOrder(ts);
    forall x ensures x in result <==> x != "" && x in ts {
      UniqueMembers(ts, x);
    }
  }
}
