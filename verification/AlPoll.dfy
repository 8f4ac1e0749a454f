/**
 The cyclic AL status poll: one broadcast read whose reply ORs the AL status words of every slave
 that answers and counts the answers.
 */
module AlPoll {
  import opened Bits

  const STATE_OP := 8
  const STATE_ERROR := 16

  type Word = w: int | 0 <= w < 0x1_0000

  /** A slave's answer to the broadcast read; Silent when it did not answer. */
  datatype Answer = Silent | Status(word: Word)

  /** The states a slave may report: INIT, PRE-OP, BOOT, SAFE-OP, OP. */
  predicate ValidState(w: Word) {
    w % 16 in {1, 2, 3, 4, 8}
  }

  /** OP with the error bit clear. */
  predicate InOp(w: Word) {
    w % 32 == STATE_OP
  }

  /** `ecat_al_poll_healthy` */
  predicate Healthy(status: Word, wkc: int, slaveCount: int) {
    slaveCount > 0 && wkc >= slaveCount && And(status, Or(0x0F, STATE_ERROR)) == STATE_OP
  }

  /** The same judgement on the low five bits; see HealthyMask. */
  predicate AllInOp(status: Word, wkc: int, slaveCount: int) {
    slaveCount > 0 && wkc >= slaveCount && InOp(status)
  }

  /** What the ring delivers: the OR of the answers. */
  function OredStatus(answers: seq<Answer>): (status: Word)
  {
    if answers == [] then 0
    else
      var rest := OredStatus(answers[1..]);
      if answers[0].Silent? then rest else OrWords(answers[0].word, rest)
  }

  function OrWords(a: Word, b: Word): (r: Word)
    ensures r == Or(a, b)
  {
    WordRange();
    OrBelow(a, b, 16);
    Or(a, b)
  }

  lemma WordRange()
    ensures Pow2(16) == 0x1_0000
  {
    assert Pow2(4) == 16 && Pow2(8) == 16 * Pow2(4) && Pow2(12) == 16 * Pow2(8);
  }

  function WorkingCounter(answers: seq<Answer>): (n: nat)
    ensures n <= |answers|
  {
    if answers == [] then 0
    else WorkingCounter(answers[1..]) + (if answers[0].Silent? then 0 else 1)
  }

  lemma HealthyMask(status: Word, wkc: int, slaveCount: int)
    ensures Healthy(status, wkc, slaveCount) <==> AllInOp(status, wkc, slaveCount)
  {
    assert Pow2(4) == 16 && Pow2(5) == 32;
    OrHighBit(0x0F, 4);
    AndLowMask(status, 5);
  }

  lemma {:induction false} CounterFull(answers: seq<Answer>)
    ensures WorkingCounter(answers) == |answers| <==> Silent !in answers
  {
    if answers != [] {
      CounterFull(answers[1..]);
      assert answers == [answers[0]] + answers[1..];
    }
  }

  /** A bit of the combined word is set exactly when some slave set it. */
  lemma {:induction false} OredBits(answers: seq<Answer>, k: nat)
    ensures BitAt(OredStatus(answers), k)
            <==> exists i | 0 <= i < |answers| :: answers[i].Status? && BitAt(answers[i].word, k)
  {
    if answers == [] {
      ZeroBits(k);
    } else {
      var tail := answers[1..];
      OredBits(tail, k);
      if answers[0].Status? { OrBits(answers[0].word, OredStatus(tail), k); }
      assert forall i | 0 <= i < |tail| :: tail[i] == answers[i + 1];
      assert forall i | 1 <= i < |answers| :: answers[i] == tail[i - 1];
    }
  }

  lemma LowBits(w: nat)
    ensures w % 32 == (if BitAt(w, 0) then 1 else 0) + (if BitAt(w, 1) then 2 else 0)
                      + (if BitAt(w, 2) then 4 else 0) + (if BitAt(w, 3) then 8 else 0)
                      + (if BitAt(w, 4) then 16 else 0)
  {
    HalveRemainder(w, 16);
    HalveRemainder(w / 2, 8);
    HalveRemainder(w / 2 / 2, 4);
    HalveRemainder(w / 2 / 2 / 2, 2);
    assert BitAt(w, 2) == BitAt(w / 2 / 2, 0);
    assert BitAt(w, 3) == BitAt(w / 2 / 2, 1) == BitAt(w / 2 / 2 / 2, 0);
    assert BitAt(w, 4) == BitAt(w / 2 / 2, 2) == BitAt(w / 2 / 2 / 2, 1);
  }

  /** Nothing but OP, or nothing at all, in the low five bits. */
  predicate OpOrNothing(w: Word) {
    w % 32 == 0 || w % 32 == STATE_OP
  }

  lemma OpBits(w: Word)
    ensures OpOrNothing(w) <==> !BitAt(w, 0) && !BitAt(w, 1) && !BitAt(w, 2) && !BitAt(w, 4)
    ensures OpOrNothing(w) ==> (InOp(w) <==> BitAt(w, 3))
  {
    LowBits(w);
  }

  /** No slave sets a bit that the combined word has clear. */
  lemma ClearBit(answers: seq<Answer>, i: nat, k: nat)
    requires i < |answers| && answers[i].Status? && !BitAt(OredStatus(answers), k)
    ensures !BitAt(answers[i].word, k)
  {
    OredBits(answers, k);
  }

  /** When every slave has bit k clear, so has the combined word. */
  lemma AllClear(answers: seq<Answer>, k: nat)
    requires forall i | 0 <= i < |answers| :: answers[i].Status? && !BitAt(answers[i].word, k)
    ensures !BitAt(OredStatus(answers), k)
  {
    OredBits(answers, k);
  }

  predicate AllOpOrNothing(answers: seq<Answer>) {
    forall i | 0 <= i < |answers| :: answers[i].Status? && OpOrNothing(answers[i].word)
  }

  predicate SomeInOp(answers: seq<Answer>) {
    exists i | 0 <= i < |answers| :: answers[i].Status? && InOp(answers[i].word)
  }

  /** What reading every slave would find: all of them in OP without error. */
  predicate EveryInOp(answers: seq<Answer>) {
    answers != [] && forall i | 0 <= i < |answers| :: answers[i].Status? && InOp(answers[i].word)
  }

  lemma ClearBits(answers: seq<Answer>)
    requires forall i | 0 <= i < |answers| :: answers[i].Status?
    ensures OpOrNothing(OredStatus(answers)) <==> AllOpOrNothing(answers)
  {
    OpBits(OredStatus(answers));
    forall i | 0 <= i < |answers|
      ensures var w := answers[i].word;
              OpOrNothing(w) <==> !BitAt(w, 0) && !BitAt(w, 1) && !BitAt(w, 2) && !BitAt(w, 4)
    {
      OpBits(answers[i].word);
    }
    if AllOpOrNothing(answers) {
      AllClear(answers, 0);
      AllClear(answers, 1);
      AllClear(answers, 2);
      AllClear(answers, 4);
    }
    if OpOrNothing(OredStatus(answers)) {
      forall i | 0 <= i < |answers| ensures OpOrNothing(answers[i].word) {
        ClearBit(answers, i, 0);
        ClearBit(answers, i, 1);
        ClearBit(answers, i, 2);
        ClearBit(answers, i, 4);
      }
    }
  }

  /** For arbitrary status words: healthy means that all answered with OP or nothing, and one with OP. */
  lemma HealthyExactly(answers: seq<Answer>)
    ensures Healthy(OredStatus(answers), WorkingCounter(answers), |answers|)
            <==> AllOpOrNothing(answers) && SomeInOp(answers)
  {
    HealthyMask(OredStatus(answers), WorkingCounter(answers), |answers|);
    CounterFull(answers);
    if Silent in answers {
      var i :| 0 <= i < |answers| && answers[i] == Silent;
      assert !AllOpOrNothing(answers);
    } else {
      forall i | 0 <= i < |answers| ensures answers[i].Status? {
        assert answers[i] in answers;
      }
      ClearBits(answers);
      OpBits(OredStatus(answers));
      OredBits(answers, 3);
      if AllOpOrNothing(answers) {
        forall i | 0 <= i < |answers| ensures InOp(answers[i].word) <==> BitAt(answers[i].word, 3) {
          OpBits(answers[i].word);
        }
      }
    }
  }

  /** A slave whose state and error bits are all clear is invisible beside one in OP. */
  predicate Hides(answers: seq<Answer>) {
    AllOpOrNothing(answers) && SomeInOp(answers)
    && exists i | 0 <= i < |answers| :: answers[i].Status? && answers[i].word % 32 == 0
  }

  /**
   The exact condition, for any number of slaves and any status words: the poll and reading every
   slave disagree if and only if all slaves answered with OP or nothing, some with OP and some with
   nothing.
   */
  lemma PollWrongExactly(answers: seq<Answer>)
    ensures (Healthy(OredStatus(answers), WorkingCounter(answers), |answers|) <==> EveryInOp(answers))
            <==> !Hides(answers)
  {
    HealthyExactly(answers);
    if EveryInOp(answers) {
      assert answers[0].Status? && InOp(answers[0].word);
    }
  }

  lemma ValidIsVisible(w: Word)
    requires ValidState(w)
    ensures w % 32 != 0
  {
    if w % 32 == 0 { QuotientUnique(w, 16, 2 * (w / 32), 0); }
  }

  /**
   The one-frame poll agrees with reading every slave: for any number of slaves reporting valid
   AL states, the reply is healthy exactly when every slave answered and is in OP without error.
   */
  lemma PollAgreesWithReadingAll(answers: seq<Answer>)
    requires forall i | 0 <= i < |answers| :: answers[i].Status? ==> ValidState(answers[i].word)
    ensures Healthy(OredStatus(answers), WorkingCounter(answers), |answers|) <==> EveryInOp(answers)
  {
    PollWrongExactly(answers);
    forall i | 0 <= i < |answers| && answers[i].Status? ensures answers[i].word % 32 != 0 {
      ValidIsVisible(answers[i].word);
    }
  }

  /** A slave reporting state 0, which no slave may, would be invisible in the combined word. */
  lemma InvalidStateHides()
    ensures var answers := [Status(8), Status(0)];
            Healthy(OredStatus(answers), WorkingCounter(answers), 2) && !InOp(answers[1].word)
  {
    var answers: seq<Answer> := [Status(8), Status(0)];
    HealthyExactly(answers);
    assert answers[0].Status? && InOp(answers[0].word);
  }
}
