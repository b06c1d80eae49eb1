/**
 * Answer checking (`checkAnswer`, main.go:111-113) and the scoring loop
 * (main.go:86-91).
 */
module Scoring {
  import opened Ranges
  import opened GoStrings

  /** `checkAnswer`: equal ignoring case, after surrounding white space is
      removed from both sides. */
  predicate CheckAnswer(ans: string, expected: string)
    ensures TrimSpace(ans) == TrimSpace(expected) ==> CheckAnswer(ans, expected)
    ensures CheckAnswer(ans, expected) ==> |TrimSpace(ans)| == |TrimSpace(expected)|
  {
    EqualFold(TrimSpace(ans), TrimSpace(expected))
  }

  /** CheckAnswer is reflexive and symmetric. */
  lemma CheckAnswerReflexiveSymmetric(a: string, b: string)
    ensures CheckAnswer(a, a)
    ensures CheckAnswer(a, b) <==> CheckAnswer(b, a)
  {
  }

  /** CheckAnswer is transitive, so it is an equivalence on answers. */
  lemma CheckAnswerTransitive(a: string, b: string, c: string)
    requires CheckAnswer(a, b) && CheckAnswer(b, c)
    ensures CheckAnswer(a, c)
  {
    EqualFoldEquivalence(TrimSpace(a), TrimSpace(b), TrimSpace(c));
  }

  /** White space before or after either argument does not change the verdict. */
  lemma CheckAnswerIgnoresSurroundingSpace(pre: string, a: string, post: string, b: string)
    requires AllSpace(pre) && AllSpace(post)
    ensures CheckAnswer(pre + a + post, b) == CheckAnswer(a, b)
    ensures CheckAnswer(b, pre + a + post) == CheckAnswer(b, a)
  {
    TrimSpaceSurrounding(pre, a, post);
  }

  /** Trimming an argument beforehand, as the reader does, does not change the verdict. */
  lemma CheckAnswerOfTrimmed(a: string, b: string)
    ensures CheckAnswer(TrimSpace(a), b) == CheckAnswer(a, b)
    ensures CheckAnswer(b, TrimSpace(a)) == CheckAnswer(b, a)
  {
    TrimSpaceIdempotent(a);
  }

  /** Compared with the empty string (a missing response), an answer matches
      exactly when it is blank. */
  lemma CheckAnswerBlank(a: string)
    ensures CheckAnswer(a, "") <==> AllSpace(a)
    ensures CheckAnswer("", a) <==> AllSpace(a)
  {
    TrimSpaceEmptyIff(a);
    TrimSpaceEmptyIff("");
  }

  /** Examples: surrounding blanks and case are ignored. */
  lemma CheckAnswerSpaceExample()
    ensures CheckAnswer(" x ", "x") == CheckAnswer("x", "x")
  {
    assert " x " == " " + "x" + " ";
    CheckAnswerIgnoresSurroundingSpace(" ", "x", " ", "x");
  }

  lemma CheckAnswerCaseExample()
    ensures CheckAnswer("Paris", "paris")
  {
    TrimSpaceOfTrimmed("Paris");
    TrimSpaceOfTrimmed("paris");
  }

  lemma CheckAnswerLineExample()
    ensures CheckAnswer("paris\n", "Paris")
  {
    assert "paris\n"[0..5] == "paris";
    TrimSpaceUnique("paris\n", 0, 5);
    TrimSpaceOfTrimmed("Paris");
  }

  /** Examples: different words do not match. */
  lemma CheckAnswerWordMismatchExample()
    ensures !CheckAnswer("Foo", "Bar")
  {
    TrimSpaceOfTrimmed("Foo");
    TrimSpaceOfTrimmed("Bar");
    assert FoldChar("Foo"[0]) != FoldChar("Bar"[0]);
  }

  lemma CheckAnswerDigitMismatchExample()
    ensures !CheckAnswer("2", "3")
  {
    TrimSpaceOfTrimmed("2");
    TrimSpaceOfTrimmed("3");
    assert FoldChar("2"[0]) != FoldChar("3"[0]);
  }

  /** A map lookup in Go: a missing key reads as the zero value "". */
  function Lookup(m: map<int, string>, k: int): (r: string)
    ensures k in m ==> r == m[k]
    ensures k !in m ==> r == ""
  {
    if k in m then m[k] else ""
  }

  /** Whether question i counts as answered correctly. */
  predicate Counted(answers: map<int, string>, responses: map<int, string>, i: int) {
    CheckAnswer(Lookup(answers, i), Lookup(responses, i))
  }

  /** The number of indices i < n with p(i). */
  function CountWhere(p: int -> bool, n: nat): (c: nat)
    ensures c <= n
  {
    if n == 0 then 0 else CountWhere(p, n - 1) + (if p(n - 1) then 1 else 0)
  }

  /** The indices i < n with p(i). */
  function Where(p: int -> bool, n: nat): set<int> {
    set i | 0 <= i < n && p(i)
  }

  /** CountWhere counts the members of Where. */
  lemma {:induction false} CountWhereIsCardinality(p: int -> bool, n: nat)
    ensures CountWhere(p, n) == |Where(p, n)|
  {
    if n > 0 {
      CountWhereIsCardinality(p, n - 1);
      var prev := Where(p, n - 1);
      assert n - 1 !in prev;
      if p(n - 1) {
        assert Where(p, n) == prev + {n - 1};
      } else {
        assert Where(p, n) == prev;
      }
    }
  }

  /** The number of indices i < n that count as answered correctly. */
  function CountCorrect(answers: map<int, string>, responses: map<int, string>, n: nat): nat {
    CountWhere(i => Counted(answers, responses, i), n)
  }

  /** The indices i < n that count as answered correctly. */
  function CorrectSet(answers: map<int, string>, responses: map<int, string>, n: nat): set<int> {
    Where(i => Counted(answers, responses, i), n)
  }

  /** The score is the number of correctly answered indices below n, and at most n. */
  lemma CountIsCardinality(answers: map<int, string>, responses: map<int, string>, n: nat)
    ensures CountCorrect(answers, responses, n) == |CorrectSet(answers, responses, n)| <= n
  {
    var p := i => Counted(answers, responses, i);
    CountWhereIsCardinality(p, n);
  }

  /** An unanswered question counts as correct exactly when its expected answer is blank. */
  lemma UnansweredCorrectIffBlank(answers: map<int, string>, responses: map<int, string>, i: int)
    requires i !in responses
    ensures Counted(answers, responses, i) <==> AllSpace(Lookup(answers, i))
  {
    CheckAnswerBlank(Lookup(answers, i));
  }

  /** When no expected answer is blank, only answered questions whose response
      matches are counted, so the score is at most the number of responses. */
  lemma ScoreCountsMatchingResponses(answers: map<int, string>, responses: map<int, string>, n: nat)
    requires forall i :: 0 <= i < n ==> !AllSpace(Lookup(answers, i))
    ensures CorrectSet(answers, responses, n) ==
      set i | i in responses && 0 <= i < n && CheckAnswer(Lookup(answers, i), responses[i])
    ensures CountCorrect(answers, responses, n) <= |responses|
  {
    var correct := CorrectSet(answers, responses, n);
    var matching := set i | i in responses && 0 <= i < n && CheckAnswer(Lookup(answers, i), responses[i]);
    forall i | 0 <= i < n
      ensures i in correct <==> i in matching
    {
      if i !in responses {
        UnansweredCorrectIffBlank(answers, responses, i);
      }
    }
    assert correct == matching;
    CountIsCardinality(answers, responses, n);
    SubsetSize(correct, responses.Keys);
  }

  /** With no response at all and no blank expected answer, the score is zero. */
  lemma NoResponsesScoreZero(answers: map<int, string>, n: nat)
    requires forall i :: 0 <= i < n ==> !AllSpace(Lookup(answers, i))
    ensures CountCorrect(answers, map[], n) == 0
  {
    ScoreCountsMatchingResponses(answers, map[], n);
  }

  /** The scoring loop: count the `i < len(questions)` with `checkAnswer(answers[i], responses[i])`. */
  method Score(questions: map<int, string>, answers: map<int, string>, responses: map<int, string>)
    returns (correct: nat)
    ensures correct == CountCorrect(answers, responses, |questions|)
    ensures correct == |CorrectSet(answers, responses, |questions|)|
    ensures correct <= |questions|
  {
    correct := 0;
    ghost var p := i => Counted(answers, responses, i);
    for i := 0 to |questions|
      invariant correct == CountWhere(p, i)
    {
      if CheckAnswer(Lookup(answers, i), Lookup(responses, i)) {
        correct := correct + 1;
      }
    }
    CountIsCardinality(answers, responses, |questions|);
  }
}
