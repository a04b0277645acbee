/**
 * The record one connection attempt hands back to the scheduler, and the
 * small vocabulary shared by the scheduler, the round runner and the
 * statistics: the arguments an attempt is launched with, and the errors
 * that escape a run.
 */
module Records {

  /** A measured duration in seconds; the clock is outside the model, so a
      duration is any non-negative value. */
  type Duration = x: real | 0.0 <= x

  /** What an attempt reports. A successful attempt carries its
      authentication time, its whole connection time and the protocol's
      result (a directory listing or a command's output, opaque here); a
      failed one carries the text of the error it caught. The two timing
      fields therefore exist exactly when the attempt succeeded. */
  datatype Outcome =
    | Succeeded(authTime: Duration, connTime: Duration, results: string)
    | Failed(error: string)

  /** One attempt's record, keyed by the id it was launched with. */
  datatype Record = Record(id: int, outcome: Outcome) {
    predicate Successful() { outcome.Succeeded? }
  }

  /** The two durations the statistics reduce. */
  datatype Metric = Auth | Conn

  function Measure(o: Outcome, m: Metric): Duration
    requires o.Succeeded?
  {
    match m
    case Auth => o.authTime
    case Conn => o.connTime
  }

  /** Which kind of attempt a run performs: an SFTP listing of a path, or
      one remote command over SSH. */
  datatype Mode = Sftp(path: string) | Ssh

  /** The arguments one attempt is launched with. */
  datatype Call = Call(mode: Mode, id: nat, user: string, connWait: int)

  /** The record an attempt launched as `c` hands back: the id is the one it
      was launched with, the outcome is whatever the network produced. */
  function Attempt(outcomeOf: Call -> Outcome, c: Call): Record
  {
    Record(c.id, outcomeOf(c))
  }

  /** Errors that escape a whole run: the pacing division by a zero rate,
      and drawing a user from a cycle over an empty list. */
  datatype Error = DivisionByZero | UserCycleExhausted

  datatype Result<T> = Success(value: T) | Failure(error: Error)

  /** The ids 1..n that a round of n connections launches. */
  function Ids(n: int): (s: set<int>)
    ensures forall k :: k in s <==> 1 <= k <= n
  {
    if n <= 0 then {} else Ids(n - 1) + {n}
  }

  /** Concatenation of lists is associative. */
  lemma Associative<T>(x: seq<T>, y: seq<T>, z: seq<T>)
    ensures x + (y + z) == (x + y) + z
  {
  }
}
