/**
 The reconnecting WebSocket of `PDFProcessor` (static/api/js/pdf_processor.js):
 the socket's ready state and the reconnect attempt counter. An unexpected
 close schedules a new connection after `1000 * attempts` milliseconds, up to
 five attempts; opening resets the counter. Timers are not modelled: a
 scheduled reconnect is an output carrying its delay, and its firing is a
 separate transition.
 */
module Connection {

  const MaxReconnectAttempts: nat := 5
  const ReconnectDelay: nat := 1000

  /** `WebSocket.readyState`. */
  datatype ReadyState = Connecting | Open | Closing | Closed

  datatype Session = Session(attempts: nat, ready: ReadyState)

  /** The counter never exceeds the maximum. */
  predicate Valid(s: Session) {
    s.attempts <= MaxReconnectAttempts
  }

  /** The constructor: counter 0 and a socket that is connecting. */
  function Initial(): (s: Session)
    ensures Valid(s) && s.attempts == 0 && s.ready == Connecting
  {
    Session(0, Connecting)
  }

  /** `onopen`: the socket is open and the counter is back to 0. */
  function OnOpen(s: Session): (r: Session)
    ensures Valid(r) && r.attempts == 0 && r.ready == Open
  {
    Session(0, Open)
  }

  /** What a close leads to: a reconnect after `delay` ms, or giving up with
      "Connection failed - Please refresh". */
  datatype CloseOutcome = Reconnect(delay: nat) | GiveUp

  /** `handleWebSocketClose()`: below the maximum, count the attempt and
      schedule it after `1000 * attempts` ms; at the maximum, give up. */
  function OnClose(s: Session): (r: (Session, CloseOutcome))
    ensures Valid(s) ==> Valid(r.0)
    ensures r.0.ready == Closed
    ensures s.attempts < MaxReconnectAttempts ==>
              r.0.attempts == s.attempts + 1 && r.1 == Reconnect(ReconnectDelay * r.0.attempts)
    ensures s.attempts >= MaxReconnectAttempts ==> r.0.attempts == s.attempts && r.1 == GiveUp
  {
    if s.attempts < MaxReconnectAttempts then
      var n := s.attempts + 1;
      (Session(n, Closed), Reconnect(ReconnectDelay * n))
    else
      (s.(ready := Closed), GiveUp)
  }

  /** The scheduled `connectWebSocket()` runs: a fresh socket is connecting;
      the counter is not reset until it opens. */
  function OnReconnectTimer(s: Session): (r: Session)
    ensures r.attempts == s.attempts && r.ready == Connecting
  {
    s.(ready := Connecting)
  }

  /** The outcomes of up to `k` closes in a row, each reconnect closing again
      before it opens; the streak ends once the client gives up, since then
      nothing more is scheduled. */
  function CloseStreak(s: Session, k: nat): seq<CloseOutcome>
    decreases k
  {
    if k == 0 then []
    else
      var (s', outcome) := OnClose(s);
      match outcome
      case GiveUp => [GiveUp]
      case Reconnect(d) => [Reconnect(d)] + CloseStreak(OnReconnectTimer(s'), k - 1)
  }

  /** From a counter `a`, the `n`-th close of a streak (0-based) schedules
      attempt `a + n + 1` after `1000 * (a + n + 1)` ms while that stays within
      five attempts, and the close after the fifth attempt gives up. */
  lemma {:induction false} CloseStreakDelays(s: Session, k: nat)
    requires Valid(s)
    ensures var outs := CloseStreak(s, k);
            var budget := MaxReconnectAttempts - s.attempts;
            && |outs| == (if k <= budget then k else budget + 1)
            && (forall n | 0 <= n < |outs| && n < budget ::
                  outs[n] == Reconnect(ReconnectDelay * (s.attempts + n + 1)))
            && (k > budget ==> outs[budget] == GiveUp)
    decreases k
  {
    if k > 0 && s.attempts < MaxReconnectAttempts {
      var s' := OnReconnectTimer(OnClose(s).0);
      CloseStreakDelays(s', k - 1);
      var outs := CloseStreak(s, k);
      var rest := CloseStreak(s', k - 1);
      assert outs == [Reconnect(ReconnectDelay * (s.attempts + 1))] + rest;
      forall n | 1 <= n < |outs| && n < MaxReconnectAttempts - s.attempts
        ensures outs[n] == Reconnect(ReconnectDelay * (s.attempts + n + 1))
      {
        assert outs[n] == rest[n - 1];
      }
    }
  }

  /** After an open, the n-th failed reconnect in a row waits `1000 * n` ms
      for n = 1 .. 5, and the sixth close gives up. */
  lemma BackoffAfterOpen(s: Session, k: nat)
    ensures var outs := CloseStreak(OnOpen(s), k);
            && |outs| == (if k <= 5 then k else 6)
            && (forall n | 1 <= n <= |outs| && n <= 5 :: outs[n - 1] == Reconnect(1000 * n))
            && (k > 5 ==> outs[5] == GiveUp)
  {
    CloseStreakDelays(OnOpen(s), k);
  }
}
