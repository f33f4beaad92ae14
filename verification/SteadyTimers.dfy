/**
 `boost::asio::steady_timer` as its documentation describes it: a deadline, the waits outstanding on it,
 and the completions of earlier waits whose handlers have not run yet.

 Moving the deadline or cancelling completes every outstanding wait as aborted; it does not touch a
 completion that is already queued.
 */
module SteadyTimers {

  /** `Never` is `time_point::max()`. */
  datatype Deadline = Never | At(time: nat)

  datatype Completion = Aborted | Expired

  datatype Timer = Timer(deadline: Deadline, pending: nat, queued: seq<Completion>, fired: nat) {
    /** Waits not yet accounted for by a handler that saw them expire; `fired` counts the latter. */
    function Outstanding(): nat {
      pending + |queued|
    }

    function Cancel(): Timer {
      this.(pending := 0, queued := queued + seq(pending, i => Aborted))
    }

    /** `expires_at`, and `expires_after` with the current time added. */
    function ExpiresAt(d: Deadline): Timer {
      Cancel().(deadline := d)
    }

    function AsyncWait(): Timer {
      this.(pending := pending + 1)
    }

    predicate Due(now: nat) {
      pending > 0 && deadline.At? && deadline.time <= now
    }

    /** The deadline passes: every outstanding wait is queued as expired. */
    function Expire(): Timer {
      this.(pending := 0, queued := queued + seq(pending, i => Expired))
    }

    /** The oldest queued completion is taken off the queue to run its handler. */
    function Take(): Timer
      requires queued != []
    {
      this.(queued := queued[1..], fired := if queued[0] == Expired then fired + 1 else fired)
    }
  }

  /** Constructed, deadline at maximum, one wait started. */
  const ARMED: Timer := Timer(Never, 1, [], 0)
}
