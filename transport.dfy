/**
 * The retry policy of `sendQuery`: one attempt per loop iteration, each
 * with a fresh socket and a freshly built query. A timeout is retried, a
 * reply ends the loop, and any other I/O failure is fatal at once.
 *
 * The sockets are not modelled: what the network does on attempt `i` is
 * `attempts[i]`, and the id `new Random()` draws on attempt `i` is `ids[i]`.
 */
module Transport {
  import opened Wire
  import opened Names
  import opened Query

  /** The receive buffer is `new byte[1024]`: a longer datagram is cut. */
  const BUFFER_SIZE: nat := 1024

  /** What the network does on one attempt. */
  datatype Attempt =
    | SocketFailed              // `new DatagramSocket()` or `setSoTimeout` throws, before the query is built
    | TimedOut                  // `receive` throws `SocketTimeoutException`
    | IoFailed                  // `send` or `receive` throws another `IOException`
    | Received(datagram: seq<byte>)

  /** `SendResult`, without the elapsed time. */
  datatype SendResult = SendResult(transactionId: u16, response: seq<byte>, retriesUsed: nat)

  /** The ways `sendQuery` ends the process. */
  datatype SendError =
    | SocketError          // "Socket error", from any I/O failure but a timeout
    | RetriesExhausted     // "Maximum number of retries ... exceeded"
    | InvalidLabel(text: string)   // `buildQuery` could not encode the name

  /** `Arrays.copyOf(buffer, getLength())`: what fits in the buffer. */
  function Truncated(d: seq<byte>): (r: seq<byte>)
    ensures |r| == if |d| <= BUFFER_SIZE then |d| else BUFFER_SIZE
    ensures r == d[..|r|]
  {
    if |d| <= BUFFER_SIZE then d else d[..BUFFER_SIZE]
  }

  /** The outcome of the loop from attempt `retries` on, and the queries it
      builds. */
  datatype Exchange = Exchange(result: Result<SendResult, SendError>, built: seq<QueryResult>)

  function Send(maxRetries: int, qname: string, qtype: Option<string>,
                ids: seq<u16>, attempts: seq<Attempt>, retries: nat): Exchange
    requires IsAscii(qname)
    requires |ids| >= maxRetries && |attempts| >= maxRetries
    decreases maxRetries - retries
  {
    if retries >= maxRetries then Exchange(Err(RetriesExhausted), [])
    else if attempts[retries] == SocketFailed then Exchange(Err(SocketError), [])
    else
      match QueryFor(ids[retries], qname, qtype)
      case Err(l) => Exchange(Err(InvalidLabel(l)), [])
      case Ok(q) =>
        match attempts[retries]
        case TimedOut =>
          var rest := Send(maxRetries, qname, qtype, ids, attempts, retries + 1);
          Exchange(rest.result, [q] + rest.built)
        case IoFailed => Exchange(Err(SocketError), [q])
        case Received(d) => Exchange(Ok(SendResult(q.transactionId, Truncated(d), retries)), [q])
  }

  /** `sendQuery`, from the `while (retries < maxRetries)` loop: also returns
      the queries it built, one per attempt that got as far as building. */
  method SendQuery(maxRetries: int, qname: string, qtype: Option<string>,
                   ids: seq<u16>, attempts: seq<Attempt>)
    returns (r: Result<SendResult, SendError>, built: seq<QueryResult>)
    requires IsAscii(qname)
    requires |ids| >= maxRetries && |attempts| >= maxRetries
    ensures Exchange(r, built) == Send(maxRetries, qname, qtype, ids, attempts, 0)
  {
    var retries: nat := 0;
    built := [];
    while retries < maxRetries
      invariant Send(maxRetries, qname, qtype, ids, attempts, 0)
             == Exchange(Send(maxRetries, qname, qtype, ids, attempts, retries).result,
                         built + Send(maxRetries, qname, qtype, ids, attempts, retries).built)
      decreases maxRetries - retries
    {
      var attempt := attempts[retries];
      if attempt == SocketFailed {
        return Err(SocketError), built;
      }
      var q := BuildQuery(ids[retries], qname, qtype);
      if q.Err? {
        return Err(InvalidLabel(q.error)), built;
      }
      built := built + [q.value];
      match attempt
      case TimedOut =>
        TimeoutStep(maxRetries, qname, qtype, ids, attempts, retries, built[..|built| - 1], q.value);
        retries := retries + 1;
      case IoFailed =>
        return Err(SocketError), built;
      case Received(d) =>
        return Ok(SendResult(q.value.transactionId, Truncated(d), retries)), built;
    }
    assert built + [] == built;
    return Err(RetriesExhausted), built;
  }

  lemma TimeoutStep(maxRetries: int, qname: string, qtype: Option<string>,
                    ids: seq<u16>, attempts: seq<Attempt>, retries: nat, before: seq<QueryResult>, q: QueryResult)
    requires IsAscii(qname)
    requires |ids| >= maxRetries && |attempts| >= maxRetries
    requires retries < maxRetries && attempts[retries] == TimedOut
    requires QueryFor(ids[retries], qname, qtype) == Ok(q)
    ensures var now := Send(maxRetries, qname, qtype, ids, attempts, retries);
      var next := Send(maxRetries, qname, qtype, ids, attempts, retries + 1);
      Exchange(now.result, before + now.built) == Exchange(next.result, (before + [q]) + next.built)
  {
    var next := Send(maxRetries, qname, qtype, ids, attempts, retries + 1);
    SendTimedOut(maxRetries, qname, qtype, ids, attempts, retries, q);
    assert before + ([q] + next.built) == (before + [q]) + next.built;
  }

  /** A timed-out attempt adds its query and goes on with the next attempt. */
  lemma SendTimedOut(maxRetries: int, qname: string, qtype: Option<string>,
                     ids: seq<u16>, attempts: seq<Attempt>, retries: nat, q: QueryResult)
    requires IsAscii(qname)
    requires |ids| >= maxRetries && |attempts| >= maxRetries
    requires retries < maxRetries && attempts[retries] == TimedOut
    requires QueryFor(ids[retries], qname, qtype) == Ok(q)
    ensures Send(maxRetries, qname, qtype, ids, attempts, retries)
         == Exchange(Send(maxRetries, qname, qtype, ids, attempts, retries + 1).result,
                     [q] + Send(maxRetries, qname, qtype, ids, attempts, retries + 1).built)
  {
  }

  /** A reply is returned only after timeouts on every earlier attempt:
      `retriesUsed` counts them, is below `maxRetries`, and the response is
      the reply's datagram cut to the buffer, under the id of the query sent
      on that attempt. */
  lemma {:induction false} SuccessAfterTimeouts(maxRetries: int, qname: string, qtype: Option<string>,
                                               ids: seq<u16>, attempts: seq<Attempt>, retries: nat)
    requires IsAscii(qname)
    requires |ids| >= maxRetries && |attempts| >= maxRetries
    requires Send(maxRetries, qname, qtype, ids, attempts, retries).result.Ok?
    ensures var s := Send(maxRetries, qname, qtype, ids, attempts, retries).result.value;
      retries <= s.retriesUsed < maxRetries &&
      (forall i :: retries <= i < s.retriesUsed ==> attempts[i] == TimedOut) &&
      attempts[s.retriesUsed].Received? &&
      s.response == Truncated(attempts[s.retriesUsed].datagram) &&
      |s.response| <= BUFFER_SIZE &&
      s.transactionId == ids[s.retriesUsed]
    decreases maxRetries - retries
  {
    if attempts[retries] == TimedOut {
      SuccessAfterTimeouts(maxRetries, qname, qtype, ids, attempts, retries + 1);
    }
  }

  /** Conversely, timeouts up to attempt `k` and then a reply give that
      reply, with `k` retries used, whenever the name can be encoded. */
  lemma {:induction false} TimeoutsThenReply(maxRetries: int, qname: string, qtype: Option<string>,
                                            ids: seq<u16>, attempts: seq<Attempt>, retries: nat, k: nat, d: seq<byte>)
    requires IsAscii(qname) && EncodedName(qname).Ok?
    requires |ids| >= maxRetries && |attempts| >= maxRetries
    requires retries <= k < maxRetries
    requires forall i :: retries <= i < k ==> attempts[i] == TimedOut
    requires attempts[k] == Received(d)
    ensures Send(maxRetries, qname, qtype, ids, attempts, retries).result == Ok(SendResult(ids[k], Truncated(d), k))
    ensures |Send(maxRetries, qname, qtype, ids, attempts, retries).built| == k + 1 - retries
    decreases k - retries
  {
    if retries < k {
      TimeoutsThenReply(maxRetries, qname, qtype, ids, attempts, retries + 1, k, d);
    }
  }

  /** The loop gives up with `RetriesExhausted` exactly when no attempts are
      left, or the name encodes and every remaining attempt times out. */
  lemma {:induction false} ExhaustedExactly(maxRetries: int, qname: string, qtype: Option<string>,
                                           ids: seq<u16>, attempts: seq<Attempt>, retries: nat)
    requires IsAscii(qname)
    requires |ids| >= maxRetries && |attempts| >= maxRetries
    ensures Send(maxRetries, qname, qtype, ids, attempts, retries).result == Err(RetriesExhausted)
        <==> retries >= maxRetries ||
             (EncodedName(qname).Ok? && forall i :: retries <= i < maxRetries ==> attempts[i] == TimedOut)
    decreases maxRetries - retries
  {
    if retries < maxRetries {
      ExhaustedExactly(maxRetries, qname, qtype, ids, attempts, retries + 1);
      if attempts[retries] == TimedOut && EncodedName(qname).Ok? {
        assert (forall i :: retries <= i < maxRetries ==> attempts[i] == TimedOut)
          <==> (forall i :: retries + 1 <= i < maxRetries ==> attempts[i] == TimedOut);
      }
    }
  }

  /** With `maxRetries <= 0` no attempt is made. */
  lemma NoAttempts(maxRetries: int, qname: string, qtype: Option<string>, ids: seq<u16>, attempts: seq<Attempt>)
    requires IsAscii(qname) && maxRetries <= 0
    ensures Send(maxRetries, qname, qtype, ids, attempts, 0) == Exchange(Err(RetriesExhausted), [])
  {
  }

  /** An I/O failure other than a timeout is fatal on the attempt it
      happens on: no later attempt is made. */
  lemma {:induction false} FailureIsFatal(maxRetries: int, qname: string, qtype: Option<string>,
                                         ids: seq<u16>, attempts: seq<Attempt>, retries: nat, k: nat)
    requires IsAscii(qname) && EncodedName(qname).Ok?
    requires |ids| >= maxRetries && |attempts| >= maxRetries
    requires retries <= k < maxRetries
    requires forall i :: retries <= i < k ==> attempts[i] == TimedOut
    requires attempts[k] == IoFailed || attempts[k] == SocketFailed
    ensures Send(maxRetries, qname, qtype, ids, attempts, retries).result == Err(SocketError)
    ensures |Send(maxRetries, qname, qtype, ids, attempts, retries).built| == k - retries + (if attempts[k] == IoFailed then 1 else 0)
    decreases k - retries
  {
    if retries < k {
      FailureIsFatal(maxRetries, qname, qtype, ids, attempts, retries + 1, k);
    }
  }

  /** A name that cannot be encoded never reaches the network: the first
      attempt that gets a socket fails with the offending label. */
  lemma BadNameIsFatal(maxRetries: int, qname: string, qtype: Option<string>, ids: seq<u16>, attempts: seq<Attempt>)
    requires IsAscii(qname) && EncodedName(qname).Err?
    requires |ids| >= maxRetries && |attempts| >= maxRetries
    requires maxRetries > 0
    ensures Send(maxRetries, qname, qtype, ids, attempts, 0)
         == Exchange(if attempts[0] == SocketFailed then Err(SocketError) else Err(InvalidLabel(EncodedName(qname).error)), [])
  {
  }

  /** Every attempt that got a socket built its own query, with the id drawn
      for that attempt (`built[i]` on attempt `retries + i`); all but the
      last of them timed out. */
  lemma {:induction false} FreshQueries(maxRetries: int, qname: string, qtype: Option<string>,
                                       ids: seq<u16>, attempts: seq<Attempt>, retries: nat)
    requires IsAscii(qname)
    requires |ids| >= maxRetries && |attempts| >= maxRetries
    ensures var b := Send(maxRetries, qname, qtype, ids, attempts, retries).built;
      retries + |b| <= maxRetries || |b| == 0
    ensures var b := Send(maxRetries, qname, qtype, ids, attempts, retries).built;
      forall i :: retries <= i < retries + |b| ==>
        QueryFor(ids[i], qname, qtype) == Ok(b[i - retries]) && b[i - retries].transactionId == ids[i]
    ensures var b := Send(maxRetries, qname, qtype, ids, attempts, retries).built;
      forall i :: retries <= i < retries + |b| - 1 ==> attempts[i] == TimedOut
    decreases maxRetries - retries
  {
    if retries < maxRetries && attempts[retries] == TimedOut && QueryFor(ids[retries], qname, qtype).Ok? {
      FreshQueries(maxRetries, qname, qtype, ids, attempts, retries + 1);
      var q := QueryFor(ids[retries], qname, qtype).value;
      SendTimedOut(maxRetries, qname, qtype, ids, attempts, retries, q);
      var rest := Send(maxRetries, qname, qtype, ids, attempts, retries + 1).built;
      var b := Send(maxRetries, qname, qtype, ids, attempts, retries).built;
      assert b == [q] + rest;
      forall i | retries + 1 <= i < retries + |b|
        ensures QueryFor(ids[i], qname, qtype) == Ok(b[i - retries])
      {
        assert b[i - retries] == rest[i - (retries + 1)];
      }
    }
  }

  /** Three timeouts and then a reply: with four attempts allowed the reply
      is returned with three retries used; with three, the loop gives up. */
  lemma ThreeTimeoutsThenReply(qname: string, qtype: Option<string>, ids: seq<u16>, d: seq<byte>)
    requires IsAscii(qname) && EncodedName(qname).Ok? && |ids| >= 4
    ensures var attempts := [TimedOut, TimedOut, TimedOut, Received(d)];
      Send(4, qname, qtype, ids, attempts, 0).result == Ok(SendResult(ids[3], Truncated(d), 3)) &&
      Send(3, qname, qtype, ids, attempts, 0).result == Err(RetriesExhausted)
  {
    var attempts := [TimedOut, TimedOut, TimedOut, Received(d)];
    TimeoutsThenReply(4, qname, qtype, ids, attempts, 0, 3, d);
    ExhaustedExactly(3, qname, qtype, ids, attempts, 0);
  }
}
