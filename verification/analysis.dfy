/**
 `analyze_text`: split a document into clauses, run the rules on each, and
 keep the clauses that drew at least one finding, with their 1-based
 position among all clauses.
 */
module Analysis {
  import opened Text
  import opened Segmenter
  import opened Rules

  /** One entry of the analysis: a clause with findings and its position. */
  datatype Record = Record(index: nat, clause: string, risks: seq<Finding>)

  /** Each record names a clause of `clauses` by its 1-based position and
      carries that clause's findings `fs[index - 1]`, which are not empty. */
  predicate RecordsFrom(rs: seq<Record>, clauses: seq<string>, fs: seq<seq<Finding>>)
    requires |fs| == |clauses|
  {
    forall j :: 0 <= j < |rs| ==>
      && 1 <= rs[j].index <= |clauses|
      && rs[j].clause == clauses[rs[j].index - 1]
      && rs[j].risks == fs[rs[j].index - 1]
      && |rs[j].risks| > 0
  }

  /** The findings of every clause, computed once. */
  function FindingsOf(clauses: seq<string>): (fs: seq<seq<Finding>>)
    ensures |fs| == |clauses|
    ensures forall n :: 0 <= n < |clauses| ==> fs[n] == CheckClauseRisks(clauses[n])
  {
    seq(|clauses|, n requires 0 <= n < |clauses| => CheckClauseRisks(clauses[n]))
  }

  /** Positions strictly increase along the records. */
  predicate IndicesIncrease(rs: seq<Record>) {
    forall j, l :: 0 <= j < l < |rs| ==> rs[j].index < rs[l].index
  }

  /** Some record sits at 1-based position `n`. */
  predicate HasRecordAt(rs: seq<Record>, n: nat) {
    exists j :: 0 <= j < |rs| && rs[j].index == n
  }

  /** The records of `clauses[i..]`, numbered by their position in all of
      `clauses`: the loop of `analyze_text` from its `i`-th iteration on. */
  function AnalyzeFrom(clauses: seq<string>, fs: seq<seq<Finding>>, i: nat): (rs: seq<Record>)
    requires |fs| == |clauses| && i <= |clauses|
    ensures RecordsFrom(rs, clauses, fs) && IndicesIncrease(rs)
    ensures forall j :: 0 <= j < |rs| ==> i < rs[j].index
    ensures forall n :: i <= n < |clauses| && |fs[n]| > 0 ==> HasRecordAt(rs, n + 1)
    decreases |clauses| - i
  {
    if i == |clauses| then []
    else
      var rest := AnalyzeFrom(clauses, fs, i + 1);
      if |fs[i]| > 0 then
        var r := Record(i + 1, clauses[i], fs[i]);
        ConsRecordPositions(r, rest);
        ConsRecords(r, rest, clauses, fs);
        [r] + rest
      else rest
  }

  /** Prepending a well-formed record with a smaller position than all the
      others keeps a list of records well formed. */
  lemma ConsRecords(r: Record, rest: seq<Record>, clauses: seq<string>, fs: seq<seq<Finding>>)
    requires |fs| == |clauses|
    requires RecordsFrom([r], clauses, fs) && RecordsFrom(rest, clauses, fs) && IndicesIncrease(rest)
    requires forall j :: 0 <= j < |rest| ==> r.index < rest[j].index
    ensures RecordsFrom([r] + rest, clauses, fs) && IndicesIncrease([r] + rest)
  {
    var rs := [r] + rest;
    forall j | 0 <= j < |rs|
      ensures rs[j] == if j == 0 then r else rest[j - 1]
    {
    }
  }

  /** Prepending a record keeps every position a record of the tail sat at. */
  lemma ConsRecordPositions(r: Record, rest: seq<Record>)
    ensures forall n :: HasRecordAt(rest, n) ==> HasRecordAt([r] + rest, n)
    ensures HasRecordAt([r] + rest, r.index)
  {
    var rs := [r] + rest;
    assert rs[0].index == r.index;
    forall n | HasRecordAt(rest, n)
      ensures HasRecordAt(rs, n)
    {
      var j :| 0 <= j < |rest| && rest[j].index == n;
      assert rs[j + 1].index == n;
    }
  }

  /** `analyze_text`: the records of the clauses that drew findings. Every
      such clause has a record, records follow the clause order, and each
      carries the clause's findings and its 1-based position. */
  function AnalyzeText(text: string): (rs: seq<Record>)
    ensures var clauses := SplitIntoClauses(text);
      && RecordsFrom(rs, clauses, FindingsOf(clauses)) && IndicesIncrease(rs)
      && (forall j :: 0 <= j < |rs| ==> rs[j].risks == CheckClauseRisks(rs[j].clause))
      && (forall n :: 0 <= n < |clauses| && |CheckClauseRisks(clauses[n])| > 0 ==> HasRecordAt(rs, n + 1))
  {
    var clauses := SplitIntoClauses(text);
    AnalyzeFrom(clauses, FindingsOf(clauses), 0)
  }

  /** Two covering lists of records start at the same position. */
  lemma SameFirstIndex(rs: seq<Record>, rs': seq<Record>)
    requires IndicesIncrease(rs) && IndicesIncrease(rs') && |rs| > 0 && |rs'| > 0
    requires forall j :: 0 <= j < |rs| ==> HasRecordAt(rs', rs[j].index)
    requires forall j :: 0 <= j < |rs'| ==> HasRecordAt(rs, rs'[j].index)
    ensures rs[0].index == rs'[0].index
  {
    assert HasRecordAt(rs', rs[0].index) && HasRecordAt(rs, rs'[0].index);
  }

  /** When two lists start at the same position and every position of the
      first occurs in the second, the same holds for their tails. */
  lemma TailsCovered(rs: seq<Record>, rs': seq<Record>)
    requires IndicesIncrease(rs) && IndicesIncrease(rs') && |rs| > 0 && |rs'| > 0
    requires rs[0].index == rs'[0].index
    requires forall j :: 0 <= j < |rs| ==> HasRecordAt(rs', rs[j].index)
    ensures forall j :: 0 <= j < |rs[1..]| ==> HasRecordAt(rs'[1..], rs[1..][j].index)
  {
    forall j | 0 <= j < |rs[1..]|
      ensures HasRecordAt(rs'[1..], rs[1..][j].index)
    {
      var l :| 0 <= l < |rs'| && rs'[l].index == rs[j + 1].index;
      assert rs'[1..][l - 1].index == rs[1..][j].index;
    }
  }

  /** The tail of a well-formed list of records is well formed. */
  lemma RecordsTail(rs: seq<Record>, clauses: seq<string>, fs: seq<seq<Finding>>)
    requires |fs| == |clauses| && |rs| > 0
    requires RecordsFrom(rs, clauses, fs) && IndicesIncrease(rs)
    ensures RecordsFrom(rs[1..], clauses, fs) && IndicesIncrease(rs[1..])
  {
    forall j | 0 <= j < |rs[1..]|
      ensures rs[1..][j] == rs[j + 1]
    {
    }
  }

  /** The records are determined by the clauses: two lists of records that
      both satisfy the contract of `AnalyzeText` for the same clauses are
      equal. */
  lemma {:induction false} RecordsUnique(rs: seq<Record>, rs': seq<Record>, clauses: seq<string>, fs: seq<seq<Finding>>)
    requires |fs| == |clauses|
    requires RecordsFrom(rs, clauses, fs) && IndicesIncrease(rs)
    requires RecordsFrom(rs', clauses, fs) && IndicesIncrease(rs')
    requires forall j :: 0 <= j < |rs| ==> HasRecordAt(rs', rs[j].index)
    requires forall j :: 0 <= j < |rs'| ==> HasRecordAt(rs, rs'[j].index)
    ensures rs == rs'
    decreases |rs| + |rs'|
  {
    assert |rs'| > 0 ==> HasRecordAt(rs, rs'[0].index);
    assert |rs| > 0 ==> HasRecordAt(rs', rs[0].index);
    if |rs| > 0 && |rs'| > 0 {
      SameFirstIndex(rs, rs');
      TailsCovered(rs, rs');
      TailsCovered(rs', rs);
      RecordsTail(rs, clauses, fs);
      RecordsTail(rs', clauses, fs);
      RecordsUnique(rs[1..], rs'[1..], clauses, fs);
      assert rs[0] == rs'[0];
      assert rs == [rs[0]] + rs[1..];
      assert rs' == [rs'[0]] + rs'[1..];
    }
  }

  /** Appending a well-formed record with a larger position than all the
      others keeps a list of records well formed and covering. */
  lemma SnocRecords(rs: seq<Record>, r: Record, clauses: seq<string>, fs: seq<seq<Finding>>)
    requires |fs| == |clauses|
    requires RecordsFrom(rs, clauses, fs) && IndicesIncrease(rs) && RecordsFrom([r], clauses, fs)
    requires forall j :: 0 <= j < |rs| ==> rs[j].index < r.index
    ensures RecordsFrom(rs + [r], clauses, fs) && IndicesIncrease(rs + [r])
    ensures forall n :: HasRecordAt(rs, n) ==> HasRecordAt(rs + [r], n)
    ensures HasRecordAt(rs + [r], r.index)
  {
    var rs' := rs + [r];
    assert rs'[|rs|] == r;
    forall j | 0 <= j < |rs'|
      ensures rs'[j] == if j < |rs| then rs[j] else r
    {
    }
    forall n | HasRecordAt(rs, n)
      ensures HasRecordAt(rs', n)
    {
      var j :| 0 <= j < |rs| && rs[j].index == n;
      assert rs'[j].index == n;
    }
  }

  /** Every clause before position `i` with findings has a record. */
  predicate CoversUpTo(rs: seq<Record>, fs: seq<seq<Finding>>, i: nat)
    requires i <= |fs|
  {
    forall n :: 0 <= n < i && |fs[n]| > 0 ==> HasRecordAt(rs, n + 1)
  }

  /** One more iteration of the loop keeps the clauses seen so far covered. */
  lemma CoverStep(rs: seq<Record>, rs': seq<Record>, fs: seq<seq<Finding>>, i: nat)
    requires i < |fs| && CoversUpTo(rs, fs, i)
    requires forall n :: HasRecordAt(rs, n) ==> HasRecordAt(rs', n)
    requires |fs[i]| > 0 ==> HasRecordAt(rs', i + 1)
    ensures CoversUpTo(rs', fs, i + 1)
  {
  }

  /** Records that meet the loop's exit invariant are the records
      `AnalyzeFrom` computes. */
  lemma LoopMatchesAnalysis(results: seq<Record>, clauses: seq<string>, fs: seq<seq<Finding>>)
    requires |fs| == |clauses|
    requires RecordsFrom(results, clauses, fs) && IndicesIncrease(results)
    requires forall n :: 0 <= n < |clauses| && |fs[n]| > 0 ==> HasRecordAt(results, n + 1)
    ensures results == AnalyzeFrom(clauses, fs, 0)
  {
    var expected := AnalyzeFrom(clauses, fs, 0);
    forall j | 0 <= j < |results|
      ensures HasRecordAt(expected, results[j].index)
    {
      var n := results[j].index - 1;
      assert |fs[n]| > 0;
    }
    forall j | 0 <= j < |expected|
      ensures HasRecordAt(results, expected[j].index)
    {
      var n := expected[j].index - 1;
      assert |fs[n]| > 0;
    }
    RecordsUnique(results, expected, clauses, fs);
  }

  /** The loop of `analyze_text` as the source writes it: walk the numbered
      clauses and append a record for each clause whose findings `fs[i]` are
      not empty. */
  method AnalyzeLoop(clauses: seq<string>, fs: seq<seq<Finding>>) returns (results: seq<Record>)
    requires |fs| == |clauses|
    ensures forall j :: 0 <= j < |results| ==> |results[j].risks| > 0
    ensures IndicesIncrease(results)
    ensures results == AnalyzeFrom(clauses, fs, 0)
  {
    results := [];
    var i := 0;
    while i < |clauses|
      invariant i <= |clauses|
      invariant RecordsFrom(results, clauses, fs) && IndicesIncrease(results)
      invariant forall j :: 0 <= j < |results| ==> results[j].index <= i
      invariant CoversUpTo(results, fs, i)
    {
      var risks := fs[i];
      var previous := results;
      if |risks| > 0 {
        SnocRecords(results, Record(i + 1, clauses[i], risks), clauses, fs);
        results := results + [Record(i + 1, clauses[i], risks)];
      }
      CoverStep(previous, results, fs, i);
      i := i + 1;
    }
    LoopMatchesAnalysis(results, clauses, fs);
  }

  /** `analyze_text` with its loop: the same records as `AnalyzeText`. */
  method AnalyzeTextLoop(text: string) returns (results: seq<Record>)
    ensures results == AnalyzeText(text)
  {
    var clauses := SplitIntoClauses(text);
    results := AnalyzeLoop(clauses, FindingsOf(clauses));
  }
}
