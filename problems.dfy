/**
 * Loading the problem tables (main.go:44-52): every parsed CSV record becomes
 * the entry for its position in two index-keyed maps, `questions` (first
 * field) and `answers` (second field).
 */
module Problems {
  import opened Ranges

  /** A parsed CSV record, one field per entry. */
  type Record = seq<string>

  /** Every record has a question and an answer field: main.go:51 reads
      `record[1]` unchecked, so a shorter record would make the program panic. */
  predicate WellFormed(records: seq<Record>) {
    forall i :: 0 <= i < |records| ==> |records[i]| >= 2
  }

  /** Field c of every record, keyed by the record's position. */
  function Column(records: seq<Record>, c: nat): (m: map<int, string>)
    requires forall i :: 0 <= i < |records| ==> c < |records[i]|
    ensures m.Keys == Range(|records|)
    ensures |m| == |records|
    ensures forall i :: 0 <= i < |records| ==> m[i] == records[i][c]
  {
    var m := map i | 0 <= i < |records| :: records[i][c];
    assert m.Keys == Range(|records|);
    RangeSize(|records|);
    m
  }

  /** The loading loop: `questions[i] = record[0]; answers[i] = record[1]` for each record i. */
  method LoadTables(records: seq<Record>) returns (questions: map<int, string>, answers: map<int, string>)
    requires WellFormed(records)
    ensures questions == Column(records, 0) && answers == Column(records, 1)
    ensures questions.Keys == Range(|records|) && answers.Keys == Range(|records|)
    ensures |questions| == |records| && |answers| == |records|
    ensures forall i :: 0 <= i < |records| ==> questions[i] == records[i][0] && answers[i] == records[i][1]
  {
    questions, answers := map[], map[];
    for i := 0 to |records|
      invariant forall k :: k in questions <==> 0 <= k < i
      invariant forall k :: k in answers <==> 0 <= k < i
      invariant forall k :: 0 <= k < i ==> questions[k] == records[k][0]
      invariant forall k :: 0 <= k < i ==> answers[k] == records[k][1]
    {
      var record := records[i];
      questions := questions[i := record[0]];
      answers := answers[i := record[1]];
    }
    assert questions == Column(records, 0);
    assert answers == Column(records, 1);
  }
}
