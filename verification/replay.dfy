/**
  Sequences of state-changing calls on one conversation memory, and what they
  leave behind. The reads (`get_history`, `get_transcript`,
  `is_follow_up_question`) do not change the state, so a run is a sequence of
  `add_exchange` and `reset` calls only.
 */
module Replay {
  import opened Wrappers
  import opened Deque
  import opened Memory

  datatype Op = Add(question: string, answer: string) | Clear

  /** Applies one call. */
  function Step(m: ConversationMemory, op: Op): (r: ConversationMemory)
    requires WellFormed(m)
    ensures WellFormed(r) && r.windowSize == m.windowSize
    ensures Inv(m) ==> Inv(r)
  {
    match op
    case Add(q, a) => AddExchangeKeepsInv(m, q, a); AddExchange(m, q, a)
    case Clear => Reset(m)
  }

  /** Applies the calls in order, `ops[0]` first. Every state a run reaches from a
      state satisfying the invariant satisfies it: after any sequence of calls the
      window is the tail of the transcript. */
  function Run(m: ConversationMemory, ops: seq<Op>): (r: ConversationMemory)
    requires WellFormed(m)
    ensures WellFormed(r) && r.windowSize == m.windowSize
    ensures Inv(m) ==> Inv(r)
    decreases |ops|
  {
    if |ops| == 0 then m else Step(Run(m, ops[..|ops| - 1]), ops[|ops| - 1])
  }

  /** The position just after the last `reset` in `ops`, or 0 when there is none. */
  function LastResetEnd(ops: seq<Op>): (k: nat)
    ensures k <= |ops|
    ensures forall i :: k <= i < |ops| ==> ops[i].Add?
    ensures k > 0 ==> ops[k - 1].Clear?
    decreases |ops|
  {
    if |ops| == 0 then 0
    else if ops[|ops| - 1].Clear? then |ops|
    else LastResetEnd(ops[..|ops| - 1])
  }

  /** The transcript records the `add_exchange` calls in `ops` produce, in order.
      When every call is an `add_exchange`, record `i` is the pair of call `i`. */
  function Records(ops: seq<Op>): (r: seq<TranscriptRecord>)
    ensures |r| <= |ops|
    ensures (forall i :: 0 <= i < |ops| ==> ops[i].Add?) ==>
              |r| == |ops| &&
              forall i :: 0 <= i < |ops| ==> r[i] == TranscriptRecord(ops[i].question, ops[i].answer)
    decreases |ops|
  {
    if |ops| == 0 then []
    else
      var last := ops[|ops| - 1];
      Records(ops[..|ops| - 1]) + (if last.Add? then [TranscriptRecord(last.question, last.answer)] else [])
  }

  /** The transcript a run should leave: the records of the calls after the last
      reset, preceded by the starting transcript when the run never resets. */
  function ExpectedTranscript(m: ConversationMemory, ops: seq<Op>): seq<TranscriptRecord> {
    var k := LastResetEnd(ops);
    (if k > 0 then [] else m.transcript) + Records(ops[k..])
  }

  /** The record the last call of `ops` adds, if it is an `add_exchange`. */
  lemma RecordsSnoc(ops: seq<Op>, k: nat)
    requires k < |ops|
    ensures Records(ops[k..]) == Records(ops[..|ops| - 1][k..]) +
              (if ops[|ops| - 1].Add? then [TranscriptRecord(ops[|ops| - 1].question, ops[|ops| - 1].answer)] else [])
  {
    var tail := ops[k..];
    assert tail[..|tail| - 1] == ops[..|ops| - 1][k..];
    assert tail[|tail| - 1] == ops[|ops| - 1];
  }

  /** A run leaves exactly the expected transcript: appends are never lost or
      reordered and only a reset discards them. */
  lemma {:induction false} RunTranscript(m: ConversationMemory, ops: seq<Op>)
    requires WellFormed(m)
    ensures Run(m, ops).transcript == ExpectedTranscript(m, ops)
    decreases |ops|
  {
    if |ops| == 0 {
      assert ops[0..] == [];
      assert ExpectedTranscript(m, ops) == m.transcript + [];
    } else {
      var init := ops[..|ops| - 1];
      var last := ops[|ops| - 1];
      var prev := Run(m, init);
      RunTranscript(m, init);
      assert Run(m, ops) == Step(prev, last);
      var k := LastResetEnd(ops);
      match last
      case Add(q, a) =>
        var rec := TranscriptRecord(q, a);
        assert k == LastResetEnd(init);
        RecordsSnoc(ops, k);
        assert Records(ops[k..]) == Records(init[k..]) + [rec];
        AppendsOneRecord(prev, q, a);
        assert Run(m, ops).transcript == prev.transcript + [rec];
        var start := if k > 0 then [] else m.transcript;
        assert ExpectedTranscript(m, ops) == start + (Records(init[k..]) + [rec]);
        assert ExpectedTranscript(m, init) == start + Records(init[k..]);
        ConcatAssoc(start, Records(init[k..]), [rec]);
      case Clear =>
        assert k == |ops|;
        assert ops[k..] == [];
        assert Run(m, ops).transcript == [];
    }
  }

  lemma ConcatAssoc<T>(a: seq<T>, b: seq<T>, c: seq<T>)
    ensures (a + b) + c == a + (b + c)
  {
  }

  /** `add_exchange` extends the transcript by exactly its one record. */
  lemma AppendsOneRecord(m: ConversationMemory, q: string, a: string)
    requires WellFormed(m)
    ensures AddExchange(m, q, a).transcript == m.transcript + [TranscriptRecord(q, a)]
  {
    var t := AddExchange(m, q, a).transcript;
    assert t == t[..|m.transcript|] + [t[|m.transcript|]];
  }

  /** After any run the window is the most recent `windowSize` exchanges of the
      expected transcript. */
  lemma RunHistory(m: ConversationMemory, ops: seq<Op>)
    requires Inv(m)
    ensures GetHistory(Run(m, ops)) == TakeLast(AsExchanges(ExpectedTranscript(m, ops)), m.windowSize)
    ensures |GetHistory(Run(m, ops))| <= m.windowSize
  {
    RunTranscript(m, ops);
  }

  /** A run of `add_exchange` calls only has no reset in it. */
  lemma NoResetInAdds(ops: seq<Op>)
    requires forall i :: 0 <= i < |ops| ==> ops[i].Add?
    ensures LastResetEnd(ops) == 0
  {
    var k := LastResetEnd(ops);
    if k > 0 {
      assert false;
    }
  }

  /** From a fresh memory, a run of `add_exchange` calls only keeps every exchange in
      the transcript and the most recent `windowSize` of them in the window. */
  lemma SlidingWindow(m: ConversationMemory, ops: seq<Op>)
    requires Inv(m) && |m.transcript| == 0
    requires forall i :: 0 <= i < |ops| ==> ops[i].Add?
    ensures GetTranscript(Run(m, ops)) == Records(ops)
    ensures GetHistory(Run(m, ops)) == TakeLast(AsExchanges(Records(ops)), m.windowSize)
  {
    var r := Run(m, ops);
    assert r.transcript == Records(ops) by {
      NoResetInAdds(ops);
      RunTranscript(m, ops);
      assert ops[0..] == ops;
      assert m.transcript == [];
      assert r.transcript == [] + Records(ops);
    }
  }

  /** A full window evicts its oldest exchange: appending to a window already holding
      `windowSize` exchanges drops the first and puts the new one last. */
  lemma FifoEviction(m: ConversationMemory, q: string, a: string)
    requires WellFormed(m) && m.windowSize > 0 && |GetHistory(m)| == m.windowSize
    ensures GetHistory(AddExchange(m, q, a)) == GetHistory(m)[1..] + [Exchange(q, a)]
  {
    var h := GetHistory(m);
    var h' := GetHistory(AddExchange(m, q, a));
    assert |h'| == |h|;
    forall i | 0 <= i < |h'|
      ensures h'[i] == (h[1..] + [Exchange(q, a)])[i]
    {
      if i < |h'| - 1 {
        assert h'[i] == (h + [Exchange(q, a)])[i + 1];
      }
    }
  }

  /** A window with room left keeps everything and puts the new exchange last. */
  lemma NoEvictionBelowCapacity(m: ConversationMemory, q: string, a: string)
    requires WellFormed(m) && |GetHistory(m)| < m.windowSize
    ensures GetHistory(AddExchange(m, q, a)) == GetHistory(m) + [Exchange(q, a)]
  {
    var h := GetHistory(m);
    var h' := GetHistory(AddExchange(m, q, a));
    assert |h'| == |h| + 1;
    forall i | 0 <= i < |h'|
      ensures h'[i] == (h + [Exchange(q, a)])[i]
    {
    }
  }

  /** Two exchanges into an empty window of two: both are kept, in order. */
  lemma TwoIntoWindowOfTwo(m0: ConversationMemory, q1: string, a1: string, q2: string, a2: string)
    requires WellFormed(m0) && m0.windowSize == 2 && |GetHistory(m0)| == 0 && |m0.transcript| == 0
    ensures GetHistory(AddExchange(AddExchange(m0, q1, a1), q2, a2)) == [Exchange(q1, a1), Exchange(q2, a2)]
    ensures GetTranscript(AddExchange(AddExchange(m0, q1, a1), q2, a2)) ==
              [TranscriptRecord(q1, a1), TranscriptRecord(q2, a2)]
  {
    var m1 := AddExchange(m0, q1, a1);
    assert GetHistory(m1) == [] + [Exchange(q1, a1)] by { NoEvictionBelowCapacity(m0, q1, a1); }
    assert m1.transcript == [] + [TranscriptRecord(q1, a1)] by { AppendsOneRecord(m0, q1, a1); }
    NoEvictionBelowCapacity(m1, q2, a2);
    AppendsOneRecord(m1, q2, a2);
  }

  /** With a window of two, three exchanges leave the last two in the window and all
      three in the transcript, oldest first. */
  lemma FifoExample(m0: ConversationMemory, q1: string, a1: string, q2: string, a2: string, q3: string, a3: string)
    requires WellFormed(m0) && m0.windowSize == 2 && |GetHistory(m0)| == 0 && |m0.transcript| == 0
    ensures GetHistory(AddExchange(AddExchange(AddExchange(m0, q1, a1), q2, a2), q3, a3)) ==
              [Exchange(q2, a2), Exchange(q3, a3)]
    ensures GetTranscript(AddExchange(AddExchange(AddExchange(m0, q1, a1), q2, a2), q3, a3)) ==
              [TranscriptRecord(q1, a1), TranscriptRecord(q2, a2), TranscriptRecord(q3, a3)]
  {
    var m2 := AddExchange(AddExchange(m0, q1, a1), q2, a2);
    var m3 := AddExchange(m2, q3, a3);
    var e1, e2, e3 := Exchange(q1, a1), Exchange(q2, a2), Exchange(q3, a3);
    var r1, r2, r3 := TranscriptRecord(q1, a1), TranscriptRecord(q2, a2), TranscriptRecord(q3, a3);
    assert GetHistory(m2) == [e1, e2] && m2.transcript == [r1, r2] by {
      TwoIntoWindowOfTwo(m0, q1, a1, q2, a2);
    }
    assert GetHistory(m3) == [e2, e3] by {
      FifoEviction(m2, q3, a3);
      assert [e1, e2][1..] + [e3] == [e2, e3];
    }
    assert m3.transcript == [r1, r2, r3] by {
      AppendsOneRecord(m2, q3, a3);
      assert [r1, r2] + [r3] == [r1, r2, r3];
    }
  }

  /** The example with concrete values, starting from `ConversationMemory(window_size=2)`. */
  lemma FifoExampleFromNew(configured: int)
    ensures New(Some(2), configured).Success?
    ensures var m := New(Some(2), configured).value;
            GetHistory(AddExchange(AddExchange(AddExchange(m, "q1", "a1"), "q2", "a2"), "q3", "a3")) ==
              [Exchange("q2", "a2"), Exchange("q3", "a3")]
  {
    FifoExample(New(Some(2), configured).value, "q1", "a1", "q2", "a2", "q3", "a3");
  }

  /** Resetting twice is resetting once, and neither changes the window size. */
  lemma ResetIdempotent(m: ConversationMemory)
    ensures Reset(Reset(m)) == Reset(m)
    ensures Reset(m).windowSize == m.windowSize
  {
  }

  /** A fresh memory is not in a follow-up. */
  lemma FreshIsNotFollowUp(windowSize: Option<int>, configured: int)
    requires New(windowSize, configured).Success?
    ensures !IsFollowUpQuestion(New(windowSize, configured).value)
  {
  }

  /** After a reset there is no follow-up; after an exchange there is one, provided
      the window can hold anything. */
  lemma FollowUpAfterCalls(m: ConversationMemory, q: string, a: string)
    requires WellFormed(m)
    ensures !IsFollowUpQuestion(Reset(m))
    ensures IsFollowUpQuestion(AddExchange(m, q, a)) <==> m.windowSize > 0
  {
  }
}
