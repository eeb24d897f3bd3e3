/**
 The asking side of an RPC connection (capn-rpc.c): the question table, and streams, which keep a window of
 calls outstanding and stop at the first failure.
 */
module RpcStream {
  const MAX_QUESTIONS := 64
  const MAX_WINDOW := 64
  const MAX_ANSWER_BYTES := 8192

  datatype Reply = Pending | Results | Failure

  /** struct capn_rpc_question */
  datatype Question = Unasked | Asked(qid: nat, reply: Reply)

  /** What is passed to the send callback. */
  datatype Out = CallOut(qid: nat) | FinishOut(qid: nat)

  // ---- the question table -------------------------------------------------------------------

  /** The table holds just the questions of the map, each in one slot. */
  ghost predicate TableOf(questions: seq<Question>, asked: map<nat, Reply>)
    ensures TableOf(questions, asked) ==> |questions| == MAX_QUESTIONS
  {
    && |questions| == MAX_QUESTIONS
    && (forall k | 0 <= k < |questions| && questions[k].Asked? :: Holds(asked, questions[k]))
    && (forall q | q in asked :: exists k | 0 <= k < |questions| :: questions[k] == Asked(q, asked[q]))
    && forall i, j | 0 <= i < j < |questions| && questions[i].Asked? && questions[j].Asked? ::
        questions[i].qid != questions[j].qid
  }

  ghost predicate Holds(asked: map<nat, Reply>, q: Question)
    requires q.Asked?
  {
    q.qid in asked && asked[q.qid] == q.reply
  }

  lemma Claimed(questions: seq<Question>, asked: map<nat, Reply>, k: nat, qid: nat)
    requires TableOf(questions, asked) && k < |questions| && questions[k].Unasked? && qid !in asked
    ensures TableOf(questions[k := Asked(qid, Pending)], asked[qid := Pending])
  {
    var questions', asked' := questions[k := Asked(qid, Pending)], asked[qid := Pending];
    forall q | q in asked' ensures exists i | 0 <= i < |questions'| :: questions'[i] == Asked(q, asked'[q]) {
      if q == qid {
        assert questions'[k] == Asked(q, asked'[q]);
      } else {
        var i :| 0 <= i < |questions| && questions[i] == Asked(q, asked[q]);
        assert questions'[i] == Asked(q, asked'[q]);
      }
    }
  }

  lemma Replied(questions: seq<Question>, asked: map<nat, Reply>, k: nat, reply: Reply)
    requires TableOf(questions, asked) && k < |questions| && questions[k].Asked?
    ensures TableOf(questions[k := Asked(questions[k].qid, reply)], asked[questions[k].qid := reply])
  {
    var qid := questions[k].qid;
    var questions', asked' := questions[k := Asked(qid, reply)], asked[qid := reply];
    forall q | q in asked' ensures exists i | 0 <= i < |questions'| :: questions'[i] == Asked(q, asked'[q]) {
      if q == qid {
        assert questions'[k] == Asked(q, asked'[q]);
      } else {
        var i :| 0 <= i < |questions| && questions[i] == Asked(q, asked[q]);
        assert questions'[i] == Asked(q, asked'[q]);
      }
    }
  }

  lemma Dropped(questions: seq<Question>, asked: map<nat, Reply>, k: nat)
    requires TableOf(questions, asked) && k < |questions| && questions[k].Asked?
    ensures TableOf(questions[k := Unasked], asked - {questions[k].qid})
  {
    var qid := questions[k].qid;
    var questions', asked' := questions[k := Unasked], asked - {qid};
    forall q | q in asked' ensures exists i | 0 <= i < |questions'| :: questions'[i] == Asked(q, asked'[q]) {
      var i :| 0 <= i < |questions| && questions[i] == Asked(q, asked[q]);
      assert questions'[i] == Asked(q, asked'[q]);
    }
  }

  ghost function Qids(questions: seq<Question>): set<nat> {
    set k | 0 <= k < |questions| && questions[k].Asked? :: questions[k].qid
  }

  lemma {:induction false} Count(questions: seq<Question>)
    requires forall i, j | 0 <= i < j < |questions| && questions[i].Asked? && questions[j].Asked? ::
      questions[i].qid != questions[j].qid
    ensures |Qids(questions)| <= |questions|
    ensures |Qids(questions)| == |questions| <==> forall k | 0 <= k < |questions| :: questions[k].Asked?
  {
    if questions != [] {
      var m := |questions| - 1;
      Count(questions[..m]);
      if questions[m].Asked? {
        assert Qids(questions) == Qids(questions[..m]) + {questions[m].qid};
      } else {
        assert Qids(questions) == Qids(questions[..m]);
      }
    }
  }

  /** As many questions are asked as there are slots just if no slot is free. */
  lemma Room(questions: seq<Question>, asked: map<nat, Reply>)
    requires TableOf(questions, asked)
    ensures |asked| >= MAX_QUESTIONS <==> forall k | 0 <= k < |questions| :: questions[k].Asked?
  {
    forall q | q in asked ensures q in Qids(questions) {
      var k :| 0 <= k < |questions| && questions[k] == Asked(q, asked[q]);
    }
    forall q | q in Qids(questions) ensures q in asked {
      var k :| 0 <= k < |questions| && questions[k].Asked? && questions[k].qid == q;
      assert Holds(asked, questions[k]);
    }
    assert asked.Keys == Qids(questions);
    Count(questions);
  }

  lemma Undone(asked: map<nat, Reply>, qid: nat, reply: Reply)
    requires qid !in asked
    ensures asked[qid := reply] - {qid} == asked
  {
  }

  /** The questions that struct capn_rpc_conn keeps. */
  class Client {
    var questions: seq<Question>
    var nextId: nat

    /** The questions that are asked and not finished; everything sent. */
    ghost var asked: map<nat, Reply>
    ghost var log: seq<Out>

    constructor ()
      ensures Valid() && asked == map[] && log == []
    {
      questions := seq(MAX_QUESTIONS, _ => Unasked);
      nextId, asked, log := 0, map[], [];
    }

    ghost predicate Valid()
      reads this
    {
      TableOf(questions, asked) && forall q | q in asked :: q < nextId
    }

    /** question_find */
    method QuestionFind(qid: nat) returns (k: int)
      requires Valid()
      ensures k == -1 <==> qid !in asked
      ensures k != -1 ==> 0 <= k < MAX_QUESTIONS && questions[k] == Asked(qid, asked[qid])
    {
      for i := 0 to MAX_QUESTIONS
        invariant forall j | 0 <= j < i && questions[j].Asked? :: questions[j].qid != qid
      {
        if questions[i].Asked? && questions[i].qid == qid {
          return i;
        }
      }
      k := -1;
    }

    /** question_claim: a question with an id of its own, as long as fewer than 64 are asked. */
    method QuestionClaim() returns (k: int)
      requires Valid()
      modifies this`questions, this`nextId, this`asked
      ensures Valid() && (k == -1 <==> |old(asked)| >= MAX_QUESTIONS)
      ensures k == -1 ==> questions == old(questions) && asked == old(asked) && nextId == old(nextId)
      ensures k != -1 ==>
        && 0 <= k < MAX_QUESTIONS && questions[k] == Asked(old(nextId), Pending)
        && old(nextId) !in old(asked) && asked == old(asked)[old(nextId) := Pending] && nextId == old(nextId) + 1
    {
      Room(questions, asked);
      for i := 0 to MAX_QUESTIONS
        invariant questions == old(questions) && asked == old(asked) && nextId == old(nextId)
        invariant forall j | 0 <= j < i :: questions[j].Asked?
      {
        if questions[i].Unasked? {
          Claimed(questions, asked, i, nextId);
          questions := questions[i := Asked(nextId, Pending)];
          asked := asked[nextId := Pending];
          nextId := nextId + 1;
          return i;
        }
      }
      k := -1;
    }

    /** capn_rpc_send_call, without the call itself; `sent` is what the send callback says. */
    method SendCall(sent: bool) returns (qid: int)
      requires Valid()
      modifies this
      ensures Valid() && (qid == -1 <==> !sent || |old(asked)| >= MAX_QUESTIONS)
      ensures qid == -1 ==> asked == old(asked) && log == old(log)
      ensures qid != -1 ==>
        && qid >= 0 && qid !in old(asked) && asked == old(asked)[qid as nat := Pending]
        && log == old(log) + [CallOut(qid)]
      ensures nextId >= old(nextId) && (qid != -1 ==> old(nextId) <= qid < nextId)
    {
      hide TableOf;
      var k := QuestionClaim();
      if k == -1 {
        return -1;
      }
      qid := questions[k].qid;
      if sent {
        log := log + [CallOut(qid)];
      } else {
        Dropped(questions, asked, k);
        Undone(old(asked), qid, Pending);
        questions, asked := questions[k := Unasked], asked - {qid};
        qid := -1;
      }
    }

    /**
     handle_return, for a Return in a frame of `len` bytes: one that answers no question, or is too long to keep,
     is dropped; a later one replaces an earlier one.
     */
    method HandleReturn(qid: nat, results: bool, len: nat)
      requires Valid()
      modifies this`questions, this`asked
      ensures Valid()
      ensures asked == if qid in old(asked) && len <= MAX_ANSWER_BYTES
        then old(asked)[qid := if results then Results else Failure] else old(asked)
    {
      var k := QuestionFind(qid);
      if k != -1 && len <= MAX_ANSWER_BYTES {
        Replied(questions, asked, k, if results then Results else Failure);
        questions := questions[k := Asked(qid, if results then Results else Failure)];
        asked := asked[qid := if results then Results else Failure];
      }
    }

    /** capn_rpc_send_finish */
    method SendFinish(qid: nat)
      requires Valid()
      modifies this`questions, this`asked, this`log
      ensures Valid() && asked == old(asked) - {qid} && log == old(log) + [FinishOut(qid)]
    {
      var k := QuestionFind(qid);
      if k != -1 {
        Dropped(questions, asked, k);
        questions := questions[k := Unasked];
      }
      asked := asked - {qid};
      log := log + [FinishOut(qid)];
    }

    /** capn_rpc_is_answered and not capn_rpc_is_failed */
    method Succeeded(qid: nat) returns (b: bool)
      requires Valid()
      ensures b <==> qid in asked && asked[qid] == Results
    {
      var k := QuestionFind(qid);
      b := k != -1 && questions[k].reply == Results;
    }
  }

  // ---- what a stream sends ------------------------------------------------------------------

  function Calls(history: seq<Out>): seq<nat> {
    if history == [] then []
    else
      var last := history[|history| - 1];
      Calls(history[..|history| - 1]) + if last.CallOut? then [last.qid] else []
  }

  function Finishes(history: seq<Out>): seq<nat> {
    if history == [] then []
    else
      var last := history[|history| - 1];
      Finishes(history[..|history| - 1]) + if last.FinishOut? then [last.qid] else []
  }

  /** At no time are more calls unfinished than the window has room for, and they are finished in order. */
  ghost predicate Windowed(history: seq<Out>, window: nat) {
    forall n | 0 <= n <= |history| :: InWindow(history[..n], window)
  }

  ghost predicate InWindow(history: seq<Out>, window: nat) {
    Finishes(history) <= Calls(history) && |Calls(history)| - |Finishes(history)| <= window
  }

  lemma CallSent(history: seq<Out>, qid: nat, window: nat)
    requires Windowed(history, window) && |Calls(history)| - |Finishes(history)| < window
    ensures Calls(history + [CallOut(qid)]) == Calls(history) + [qid]
    ensures Finishes(history + [CallOut(qid)]) == Finishes(history) && Windowed(history + [CallOut(qid)], window)
  {
    Longer(history, CallOut(qid), window);
  }

  lemma FinishSent(history: seq<Out>, qid: nat, window: nat)
    requires Windowed(history, window) && |Finishes(history)| < |Calls(history)|
    requires Calls(history)[|Finishes(history)|] == qid
    ensures Calls(history + [FinishOut(qid)]) == Calls(history)
    ensures Finishes(history + [FinishOut(qid)]) == Finishes(history) + [qid]
    ensures Windowed(history + [FinishOut(qid)], window)
  {
    Longer(history, FinishOut(qid), window);
    hide Windowed, Calls, Finishes;
    var calls, finishes := Calls(history), Finishes(history);
    assert finishes + [qid] <= calls;
  }

  lemma Longer(history: seq<Out>, out: Out, window: nat)
    requires Windowed(history, window)
    ensures Calls(history + [out]) == Calls(history) + if out.CallOut? then [out.qid] else []
    ensures Finishes(history + [out]) == Finishes(history) + if out.FinishOut? then [out.qid] else []
    ensures InWindow(history, window) && (InWindow(history + [out], window) ==> Windowed(history + [out], window))
  {
    assert (history + [out])[..|history|] == history && history[..|history|] == history;
    if InWindow(history + [out], window) {
      hide InWindow;
      forall n | 0 <= n <= |history + [out]| ensures InWindow((history + [out])[..n], window) {
        if n <= |history| {
          assert (history + [out])[..n] == history[..n];
        } else {
          assert (history + [out])[..n] == history + [out];
        }
      }
    }
  }

  /** Call q is the first one that failed. */
  ghost predicate FirstFailed(sent: seq<nat>, verdicts: seq<bool>, q: nat)
    requires |verdicts| <= |sent|
  {
    exists i | 0 <= i < |verdicts| :: !verdicts[i] && sent[i] == q && forall j | 0 <= j < i :: verdicts[j]
  }

  ghost predicate AllGood(verdicts: seq<bool>) { forall i | 0 <= i < |verdicts| :: verdicts[i] }

  lemma OneMoreVerdict(sent: seq<nat>, verdicts: seq<bool>, good: bool)
    requires |verdicts| < |sent|
    ensures AllGood(verdicts + [good]) <==> AllGood(verdicts) && good
    ensures forall q | FirstFailed(sent, verdicts, q) :: FirstFailed(sent, verdicts + [good], q)
    ensures AllGood(verdicts) && !good ==> FirstFailed(sent, verdicts + [good], sent[|verdicts|])
  {
    var verdicts' := verdicts + [good];
    assert AllGood(verdicts') ==> AllGood(verdicts) && good by {
      assert verdicts == verdicts'[..|verdicts|] && verdicts'[|verdicts|] == good;
    }
    forall q | FirstFailed(sent, verdicts, q) ensures FirstFailed(sent, verdicts', q) {
      var i :| 0 <= i < |verdicts| && !verdicts[i] && sent[i] == q && forall j | 0 <= j < i :: verdicts[j];
      assert !verdicts'[i] && forall j | 0 <= j < i :: verdicts'[j];
    }
  }

  ghost predicate Increasing(s: seq<nat>) { forall i, j | 0 <= i < j < |s| :: s[i] < s[j] }

  /** The question has been answered with results. */
  ghost predicate Good(asked: map<nat, Reply>, qid: nat) { qid in asked && asked[qid] == Results }

  lemma GoodMeans(asked: map<nat, Reply>, qid: nat)
    ensures Good(asked, qid) <==> qid in asked && asked[qid] == Results
  {
  }

  lemma GoodElsewhere(asked: map<nat, Reply>, finished: nat, qid: nat)
    requires qid != finished
    ensures Good(asked - {finished}, qid) == Good(asked, qid)
  {
  }

  /** struct capn_rpc_stream */
  class Stream {
    var window: nat
    var nout: nat
    const qids: array<nat>
    var failed: bool
    var haveFailure: bool
    var firstFailure: nat

    /** The calls sent, in order; how those retired came out; everything the stream sent. */
    ghost var sent: seq<nat>
    ghost var verdicts: seq<bool>
    ghost var history: seq<Out>

    /** capn_rpc_stream_init */
    constructor (window: int)
      ensures Valid() && fresh(qids) && nout == 0 && !failed && sent == [] && verdicts == [] && history == []
      ensures this.window == if window < 1 then 1 else if window > MAX_WINDOW then MAX_WINDOW else window
    {
      this.window := if window < 1 then 1 else if window > MAX_WINDOW then MAX_WINDOW else window;
      nout, failed, haveFailure, firstFailure := 0, false, false, 0;
      qids := new nat[MAX_WINDOW];
      sent, verdicts, history := [], [], [];
    }

    /** The array holds the newest calls, those that have not retired. */
    ghost predicate Outstanding()
      reads `window, `nout, `sent, `verdicts, qids
    {
      && qids.Length == MAX_WINDOW && nout <= window && 1 <= window <= MAX_WINDOW
      && |verdicts| + nout == |sent| && qids[..nout] == sent[|verdicts|..]
    }

    /** The calls went out in order and were finished in order, never more than the window ahead. */
    ghost predicate InOrder()
      reads `window, `sent, `verdicts, `history
    {
      && |verdicts| <= |sent| && Increasing(sent)
      && Calls(history) == sent && Finishes(history) == sent[..|verdicts|] && Windowed(history, window)
    }

    ghost predicate FailureKnown()
      reads `failed, `haveFailure, `firstFailure, `sent, `verdicts
    {
      && |verdicts| <= |sent| && failed == haveFailure == !AllGood(verdicts)
      && (haveFailure ==> FirstFailed(sent, verdicts, firstFailure))
    }

    ghost predicate Valid()
      reads this, qids
    {
      Outstanding() && InOrder() && FailureKnown()
    }

    /** The stream's calls were asked through this client. */
    ghost predicate On(c: Client)
      reads this, c
    {
      c.Valid() && forall i | 0 <= i < |sent| :: sent[i] < c.nextId
    }

    /** stream_retire_oldest: the oldest call is finished, and failed unless it has been answered with results. */
    method RetireOldest(c: Client)
      requires Valid() && On(c)
      modifies this, qids, c
      ensures Valid() && On(c) && window == old(window) && sent == old(sent) && c.nextId == old(c.nextId)
      ensures old(nout) == 0 ==>
        && verdicts == old(verdicts) && history == old(history) && c.log == old(c.log) && nout == 0
        && c.asked == old(c.asked)
      ensures old(nout) > 0 ==>
        var qid := sent[|old(verdicts)|];
        && nout == old(nout) - 1 && verdicts == old(verdicts) + [Good(old(c.asked), qid)]
        && history == old(history) + [FinishOut(qid)] && c.log == old(c.log) + [FinishOut(qid)]
        && c.asked == old(c.asked) - {qid}
    {
      hide TableOf, AllGood, FirstFailed, Calls, Finishes, Windowed, Good;
      if nout == 0 {
        return;
      }
      var qid := qids[0];
      var good := c.Succeeded(qid);
      assert good == Good(c.asked, qid) by { GoodMeans(c.asked, qid); }
      Retire(qid, good);
      c.SendFinish(qid);
    }

    /** What the stream records of a call that came out good or not. */
    method Retire(qid: nat, good: bool)
      requires Valid() && nout > 0 && qid == sent[|verdicts|]
      modifies this`nout, this`failed, this`haveFailure, this`firstFailure, this`verdicts, this`history, qids
      ensures Valid() && nout == old(nout) - 1
      ensures verdicts == old(verdicts) + [good] && history == old(history) + [FinishOut(qid)]
    {
      hide AllGood, FirstFailed, Calls, Finishes, Windowed;
      ShiftDown();
      OneMoreVerdict(sent, verdicts, good);
      FinishSent(history, qid, window);
      if !good {
        failed := true;
        if !haveFailure {
          haveFailure, firstFailure := true, qid;
        }
      }
      verdicts, history := verdicts + [good], history + [FinishOut(qid)];
    }

    /** The oldest outstanding call leaves the array. */
    method ShiftDown()
      requires qids.Length == MAX_WINDOW && 0 < nout <= MAX_WINDOW
      modifies this`nout, qids
      ensures nout == old(nout) - 1 && qids[..nout] == old(qids[..nout])[1..]
    {
      for i := 1 to nout
        invariant nout == old(nout)
        invariant forall k | 0 <= k < i - 1 :: qids[k] == old(qids[k + 1])
        invariant forall k | i - 1 <= k < nout :: qids[k] == old(qids[k])
      {
        qids[i - 1] := qids[i];
      }
      nout := nout - 1;
    }

    /**
     capn_rpc_stream_send, with what the send callback says: a full window makes the oldest call retire first.
     Once a failure is seen nothing more is called. `out` is what was sent.
     */
    method Send(c: Client, callSent: bool) returns (rc: int, ghost out: seq<Out>)
      requires Valid() && On(c)
      modifies this, qids, c
      ensures Valid() && On(c) && window == old(window)
      ensures history == old(history) + out && c.log == old(c.log) + out && (rc == 0 || rc == -1)
      ensures old(failed) ==>
        rc == -1 && out == [] && c.asked == old(c.asked) && sent == old(sent) && verdicts == old(verdicts)
      ensures !old(failed) ==>
        verdicts == old(verdicts) + if old(nout) == window then [Good(old(c.asked), old(sent)[|old(verdicts)|])] else []
      ensures rc == 0 ==>
        && !failed && |sent| == |old(sent)| + 1 && sent[..|old(sent)|] == old(sent)
        && sent[|old(sent)|] >= old(c.nextId) && callSent
      ensures rc == -1 ==> sent == old(sent)
      ensures rc == -1 ==> failed || !callSent || |c.asked| >= MAX_QUESTIONS
      ensures failed ==> rc == -1
    {
      hide InOrder, FailureKnown, TableOf, Good;
      out := [];
      if failed {
        return -1, out;
      }
      if nout >= window {
        RetireOldest(c);
        out := [FinishOut(sent[|old(verdicts)|])];
        if failed {
          return -1, out;
        }
      }
      var qid := c.SendCall(callSent);
      if qid == -1 {
        return -1, out;
      }
      Push(qid);
      out := out + [CallOut(qid)];
      rc := 0;
    }

    method Push(qid: nat)
      requires Valid() && nout < window && forall i | 0 <= i < |sent| :: sent[i] < qid
      modifies this`nout, this`sent, this`history, qids
      ensures Valid() && sent == old(sent) + [qid] && history == old(history) + [CallOut(qid)]
    {
      hide Calls, Finishes, Windowed;
      CallSent(history, qid, window);
      qids[nout] := qid;
      nout := nout + 1;
      sent, history := sent + [qid], history + [CallOut(qid)];
    }

    /**
     capn_rpc_stream_finish. It does not wait: a call that is not answered yet counts as failed.
     */
    method Close(c: Client) returns (rc: int)
      requires Valid() && On(c)
      modifies this, qids, c
      ensures Valid() && On(c) && nout == 0 && sent == old(sent) && Calls(history) == Finishes(history) == sent
      ensures |verdicts| == |sent| && verdicts[..|old(verdicts)|] == old(verdicts)
      ensures forall i | |old(verdicts)| <= i < |sent| :: verdicts[i] == Good(old(c.asked), sent[i])
      ensures rc == if AllGood(verdicts) then 0 else -1
      ensures rc == -1 ==> FirstFailed(sent, verdicts, firstFailure)
    {
      hide TableOf, AllGood, FirstFailed, Calls, Finishes, Windowed, Good;
      while nout > 0
        invariant Valid() && On(c) && sent == old(sent)
        invariant |old(verdicts)| <= |verdicts| && verdicts[..|old(verdicts)|] == old(verdicts)
        invariant forall i | |old(verdicts)| <= i < |verdicts| :: verdicts[i] == Good(old(c.asked), sent[i])
        invariant forall i | |verdicts| <= i < |sent| :: Good(c.asked, sent[i]) == Good(old(c.asked), sent[i])
        decreases nout
      {
        ghost var n, asked := |verdicts|, c.asked;
        RetireOldest(c);
        forall i | n < i < |sent| ensures Good(c.asked, sent[i]) == Good(asked, sent[i]) {
          GoodElsewhere(asked, sent[n], sent[i]);
        }
      }
      rc := if haveFailure then -1 else 0;
    }
  }
}
