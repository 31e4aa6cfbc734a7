/**
 * An abstract database session: what the scripts do through a psycopg2 connection and its
 * cursor, reduced to the ordered log of statements sent and commits issued. Whether a
 * statement fails is decided by an oracle that sees the whole history of the session, so
 * any server behaviour (autocommit, an aborted transaction, a duplicate table) fits it.
 */
module Database {

  /** A statement sent with `cursor.execute(sql)` or with `cursor.execute(sql, params)`. */
  datatype Query = Plain(sql: string) | WithParams(sql: string, params: seq<string>)

  /** One entry of the session log. */
  datatype Event = Executed(query: Query, ok: bool) | Committed

  /** The first `n` events of `ev` exist and each is a successful execution. */
  predicate SucceededUpTo(ev: seq<Event>, n: nat) {
    n <= |ev| && forall k :: 0 <= k < n ==> ev[k].Executed? && ev[k].ok
  }

  /** Every event in `ev` is a successful execution. */
  predicate AllSucceeded(ev: seq<Event>) {
    SucceededUpTo(ev, |ev|)
  }

  class Connection {
    /** Everything sent to the server so far, in order. */
    var log: seq<Event>
    /** The server's verdict: does `q` fail when sent after `history`? */
    const rejects: (seq<Event>, Query) -> bool

    constructor (rejects: (seq<Event>, Query) -> bool)
      ensures log == [] && this.rejects == rejects
    {
      log := [];
      this.rejects := rejects;
    }

    /** `cursor.execute(...)`: `ok` is false where psycopg2 would raise. */
    method Execute(q: Query) returns (ok: bool)
      modifies this
      ensures ok == !rejects(old(log), q)
      ensures log == old(log) + [Executed(q, ok)]
    {
      ok := !rejects(log, q);
      log := log + [Executed(q, ok)];
    }

    /** `conn.commit()`. */
    method Commit()
      modifies this
      ensures log == old(log) + [Committed]
    {
      log := log + [Committed];
    }
  }

  /**
   * Each event of `ev` is the execution of the query at its position, judged on `history`
   * and the events before it.
   */
  predicate Judged(rejects: (seq<Event>, Query) -> bool, history: seq<Event>, qs: seq<Query>, ev: seq<Event>)
    requires |ev| <= |qs|
  {
    forall i :: 0 <= i < |ev| ==> ev[i] == Executed(qs[i], !rejects(history + ev[..i], qs[i]))
  }

  /**
   * Putting the execution of the first query in front of judged executions of the others,
   * sent after it, gives judged executions of all of them.
   */
  lemma JudgedAfterFirst(
    rejects: (seq<Event>, Query) -> bool, history: seq<Event>, qs: seq<Query>, e: Event, rest: seq<Event>)
    requires qs != [] && e == Executed(qs[0], !rejects(history, qs[0]))
    requires |rest| < |qs| && Judged(rejects, history + [e], qs[1..], rest)
    ensures Judged(rejects, history, qs, [e] + rest)
  {
    var ev := [e] + rest;
    forall i | 0 <= i < |ev| ensures ev[i] == Executed(qs[i], !rejects(history + ev[..i], qs[i])) {
      if i == 0 {
        assert history + ev[..0] == history;
      } else {
        assert ev[..i] == [e] + rest[..i - 1];
        assert history + ev[..i] == (history + [e]) + rest[..i - 1];
        assert ev[i] == rest[i - 1] && qs[i] == qs[1..][i - 1];
      }
    }
  }

  /**
   * Sending every query of `qs` in turn after `history`, carrying on past failures: one
   * execution per query, in order, each judged by the oracle on all that came before it.
   */
  function RunAll(rejects: (seq<Event>, Query) -> bool, history: seq<Event>, qs: seq<Query>)
    : (ev: seq<Event>)
    ensures |ev| == |qs|
    ensures Judged(rejects, history, qs, ev)
    decreases |qs|
  {
    if qs == [] then []
    else
      var e := Executed(qs[0], !rejects(history, qs[0]));
      var rest := RunAll(rejects, history + [e], qs[1..]);
      JudgedAfterFirst(rejects, history, qs, e, rest);
      [e] + rest
  }

  /**
   * Sending the queries of `qs` in turn after `history` until one fails (an exception that
   * leaves the loop): the executions are those of a prefix of `qs`, all but the last
   * succeeded, and the run is shorter than `qs` only when its last execution failed.
   */
  function RunUntilFailure(rejects: (seq<Event>, Query) -> bool, history: seq<Event>, qs: seq<Query>)
    : (ev: seq<Event>)
    ensures |ev| <= |qs|
    ensures qs != [] ==> ev != []
    ensures Judged(rejects, history, qs, ev)
    ensures forall i :: 0 <= i < |ev| - 1 ==> ev[i].ok
    ensures |ev| < |qs| ==> !ev[|ev| - 1].ok
    decreases |qs|
  {
    if qs == [] then []
    else
      var e := Executed(qs[0], !rejects(history, qs[0]));
      if !e.ok then JudgedAfterFirst(rejects, history, qs, e, []); [e]
      else
        var rest := RunUntilFailure(rejects, history + [e], qs[1..]);
        JudgedAfterFirst(rejects, history, qs, e, rest);
        [e] + rest
  }

  /**
   * One step of a run that stops at the first failure: while every query so far succeeded,
   * sending the next query after exactly those events extends the run by its execution,
   * and if that execution fails the run ends there.
   */
  lemma RunUntilFailureStep(
    rejects: (seq<Event>, Query) -> bool, history: seq<Event>, qs: seq<Query>, n: nat,
    log: seq<Event>, ok: bool)
    requires n < |qs| && SucceededUpTo(RunUntilFailure(rejects, history, qs), n)
    requires log == history + RunUntilFailure(rejects, history, qs)[..n]
    requires ok == !rejects(log, qs[n])
    ensures var ev := RunUntilFailure(rejects, history, qs);
      && log + [Executed(qs[n], ok)] == history + ev[..n + 1]
      && (ok ==> SucceededUpTo(ev, n + 1))
      && (!ok ==> ev == ev[..n + 1] && !AllSucceeded(ev))
  {
    var ev := RunUntilFailure(rejects, history, qs);
    assert n < |ev| by {
      if n > 0 {
        assert ev[n - 1].ok;
      }
    }
    assert ev[n] == Executed(qs[n], ok);
    assert history + ev[..n + 1] == (history + ev[..n]) + [ev[n]] by {
      assert ev[..n + 1] == ev[..n] + [ev[n]];
    }
    if !ok {
      assert |ev| == n + 1;
      assert ev[..n + 1] == ev;
    }
  }

  /**
   * Stopping at the first failure changes nothing before it: the run is the beginning of
   * the run that carries on, so it succeeds throughout exactly when it ran every query and
   * every one of them succeeded.
   */
  lemma {:induction false} RunUntilFailureIsPrefix(
    rejects: (seq<Event>, Query) -> bool, history: seq<Event>, qs: seq<Query>)
    ensures RunUntilFailure(rejects, history, qs) ==
      RunAll(rejects, history, qs)[..|RunUntilFailure(rejects, history, qs)|]
    decreases |qs|
  {
    if qs != [] {
      var e := Executed(qs[0], !rejects(history, qs[0]));
      var all := RunAll(rejects, history + [e], qs[1..]);
      assert RunAll(rejects, history, qs) == [e] + all;
      if e.ok {
        RunUntilFailureIsPrefix(rejects, history + [e], qs[1..]);
        var rest := RunUntilFailure(rejects, history + [e], qs[1..]);
        assert RunUntilFailure(rejects, history, qs) == [e] + rest;
        assert ([e] + all)[..|rest| + 1] == [e] + all[..|rest|];
      } else {
        assert RunUntilFailure(rejects, history, qs) == [e];
        assert ([e] + all)[..1] == [e];
      }
    }
  }

  /** A run that stops at the first failure succeeded throughout exactly when it reached the end. */
  lemma RunUntilFailureSucceeded(
    rejects: (seq<Event>, Query) -> bool, history: seq<Event>, qs: seq<Query>)
    ensures AllSucceeded(RunUntilFailure(rejects, history, qs)) <==>
      RunUntilFailure(rejects, history, qs) == RunAll(rejects, history, qs) &&
      AllSucceeded(RunAll(rejects, history, qs))
  {
    var ev, all := RunUntilFailure(rejects, history, qs), RunAll(rejects, history, qs);
    RunUntilFailureIsPrefix(rejects, history, qs);
    if AllSucceeded(ev) {
      assert |ev| == |qs|;
      assert all[..|all|] == all;
    }
  }
}
