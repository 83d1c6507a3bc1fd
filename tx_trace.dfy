/** The two entry points of the guard interleaved as an arbitrary sequence of
    atomic events, and the single-flight properties of every such sequence. */
module TxTrace {
  import opened Hal
  import opened TxSpec

  /** One atomic entry into the guard: a call of `send_dma_nonblocking`, or a
      transfer-complete callback for some UART instance. */
  datatype Event =
    | SendEvent(bufPresent: bool, len: u16, engineReply: Status)
    | CompleteEvent(instance: Instance)

  /** The single transition function: the status a call returns (none for
      the callback) and the state afterwards. */
  function Step(s: TxState, e: Event): (Option<Status>, TxState)
  {
    match e
    case SendEvent(present, len, reply) =>
      var r := Send(s, present, len, reply);
      (Some(r.0), r.1)
    case CompleteEvent(instance) => (None, Complete(s, instance))
  }

  /** The event that ends a transfer of this firmware. */
  predicate EndsTransfer(e: Event)
  {
    e.CompleteEvent? && e.instance == Usart6
  }

  /** The state after running `evs` from `s`. */
  function Final(s: TxState, evs: seq<Event>): TxState
    decreases |evs|
  {
    if evs == [] then s
    else Step(Final(s, evs[..|evs| - 1]), evs[|evs| - 1]).1
  }

  /** What each event returns when `evs` is run from `s`. */
  function Replies(s: TxState, evs: seq<Event>): (r: seq<Option<Status>>)
    ensures |r| == |evs|
    decreases |evs|
  {
    if evs == [] then []
    else Replies(s, evs[..|evs| - 1]) + [Step(Final(s, evs[..|evs| - 1]), evs[|evs| - 1]).0]
  }

  /** The reply to event `i` is what that event returns in the state reached
      by the events before it. */
  lemma {:induction false} ReplyAt(s: TxState, evs: seq<Event>, i: nat)
    requires i < |evs|
    ensures Replies(s, evs)[i] == Step(Final(s, evs[..i]), evs[i]).0
    decreases |evs|
  {
    var n := |evs| - 1;
    var prefix := evs[..n];
    if i < n {
      assert prefix[..i] == evs[..i];
      ReplyAt(s, prefix, i);
    } else {
      assert prefix == evs[..i];
    }
  }

  /** The state after the first `i + 1` events is the step of event `i` from
      the state after the first `i`. */
  lemma FinalStep(s: TxState, evs: seq<Event>, i: nat)
    requires i < |evs|
    ensures Final(s, evs[..i + 1]) == Step(Final(s, evs[..i]), evs[i]).1
  {
    assert evs[..i + 1][..i] == evs[..i];
  }

  /** InFlight to Idle only through a USART6 completion: if the guard is busy
      after `a` events and idle after `b`, one of the events in between is a
      USART6 completion. */
  lemma {:induction false} IdleOnlyByCompletion(s: TxState, evs: seq<Event>, a: nat, b: nat)
    requires a <= b <= |evs|
    requires Final(s, evs[..a]).busy && !Final(s, evs[..b]).busy
    ensures exists k :: a <= k < b && EndsTransfer(evs[k])
    decreases b
  {
    FinalStep(s, evs, b - 1);
    if Final(s, evs[..b - 1]).busy {
      assert EndsTransfer(evs[b - 1]);
    } else {
      IdleOnlyByCompletion(s, evs, a, b - 1);
    }
  }

  /** Idle to InFlight only through a successful call: if the guard is idle
      after `a` events and busy after `b`, one of the events in between
      returned HAL_OK. */
  lemma {:induction false} BusyOnlyBySuccess(s: TxState, evs: seq<Event>, a: nat, b: nat)
    requires a <= b <= |evs|
    requires !Final(s, evs[..a]).busy && Final(s, evs[..b]).busy
    ensures exists k :: a <= k < b && Replies(s, evs)[k] == Some(Ok)
    decreases b
  {
    FinalStep(s, evs, b - 1);
    if Final(s, evs[..b - 1]).busy {
      BusyOnlyBySuccess(s, evs, a, b - 1);
    } else {
      ReplyAt(s, evs, b - 1);
      assert Replies(s, evs)[b - 1] == Some(Ok);
    }
  }

  /** Mutual exclusion: between any two calls that return HAL_OK there is a
      USART6 completion. */
  lemma MutualExclusion(s: TxState, evs: seq<Event>, i: nat, j: nat)
    requires i < j < |evs|
    requires Replies(s, evs)[i] == Some(Ok) && Replies(s, evs)[j] == Some(Ok)
    ensures exists k :: i < k < j && EndsTransfer(evs[k])
  {
    ReplyAt(s, evs, i);
    ReplyAt(s, evs, j);
    FinalStep(s, evs, i);
    IdleOnlyByCompletion(s, evs, i + 1, j);
  }

  /** How many of `evs` reach the engine, judged from the calls and their
      replies alone: the well-formed calls that were not answered HAL_BUSY. */
  function ExpectedEngineCalls(evs: seq<Event>, replies: seq<Option<Status>>): nat
    requires |evs| == |replies|
    decreases |evs|
  {
    if evs == [] then 0
    else
      var n := |evs| - 1;
      ExpectedEngineCalls(evs[..n], replies[..n])
        + (if evs[n].SendEvent? && ValidRequest(evs[n].bufPresent, evs[n].len) && replies[n] != Some(Busy) then 1 else 0)
  }

  /** The engine is called exactly once for every well-formed call that is
      not answered HAL_BUSY, and at no other time. */
  lemma {:induction false} EngineCallsCounted(s: TxState, evs: seq<Event>)
    ensures Final(s, evs).engineCalls == s.engineCalls + ExpectedEngineCalls(evs, Replies(s, evs))
    decreases |evs|
  {
    if evs != [] {
      var n := |evs| - 1;
      assert Replies(s, evs)[..n] == Replies(s, evs[..n]);
      EngineCallsCounted(s, evs[..n]);
    }
  }
}
