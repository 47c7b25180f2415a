/**
 A connection to the daemon (crates/harness/src/client/mod.rs): requests are answered in turn by
 arbitrary replies, and by `closed` once there are no more.
 */
module Connection {
  class Daemon<Q, R> {
    var requests: seq<Q>
    var replies: seq<R>
    const closed: R

    constructor (script: seq<R>, closed: R)
      ensures requests == [] && replies == script && this.closed == closed
    {
      requests, replies := [], script;
      this.closed := closed;
    }

    method Send(request: Q) returns (reply: R)
      modifies this
      ensures requests == old(requests) + [request]
      ensures reply == First(old(replies), closed) && replies == Later(old(replies))
    {
      requests := requests + [request];
      if replies == [] {
        return closed;
      }
      reply := replies[0];
      replies := replies[1..];
    }
  }

  function First<R>(script: seq<R>, closed: R): R {
    if script == [] then closed else script[0]
  }

  function Later<R>(script: seq<R>): seq<R> {
    if script == [] then [] else script[1..]
  }

  // ----- Waiting by repeated requests -----

  /** How many requests a wait sends: until a reply does not keep it waiting, or its limit is reached. */
  function Polls<R>(script: seq<R>, closed: R, keeps: R -> bool, limit: nat): (n: nat)
    ensures n <= limit
  {
    if limit == 0 then 0
    else if keeps(First(script, closed)) then 1 + Polls(Later(script), closed, keeps, limit - 1)
    else 1
  }

  /** The replies behind the first n. */
  function Drop<R>(script: seq<R>, n: nat): seq<R> {
    if n == 0 then script else Drop(Later(script), n - 1)
  }

  lemma {:induction false} DropIsSuffix<R>(script: seq<R>, n: nat)
    ensures Drop(script, n) == if n <= |script| then script[n..] else []
    decreases n
  {
    if n == 0 {
      assert script[0..] == script;
    } else {
      DropIsSuffix(Later(script), n - 1);
      assert n <= |script| && script != [] ==> script[1..][n - 1..] == script[n..];
    }
  }

  /** A wait ends with the first reply that does not keep it waiting, or when its limit is reached. */
  lemma {:induction false} PollsExactly<R>(script: seq<R>, closed: R, keeps: R -> bool, limit: nat)
    ensures var n := Polls(script, closed, keeps, limit);
      && (forall i :: 0 <= i < n - 1 ==> keeps(First(Drop(script, i), closed)))
      && (0 < n < limit ==> !keeps(First(Drop(script, n - 1), closed)))
      && (n == 0 <==> limit == 0)
  {
    if limit == 0 {
    } else if keeps(First(script, closed)) {
      PollsExactly(Later(script), closed, keeps, limit - 1);
      var n := Polls(script, closed, keeps, limit);
      forall i | 0 <= i < n - 1
        ensures keeps(First(Drop(script, i), closed))
      {
        if i > 0 {
          assert Drop(script, i) == Drop(Later(script), i - 1);
        }
      }
      assert n > 1 ==> Drop(script, n - 1) == Drop(Later(script), n - 2);
    }
  }
}
