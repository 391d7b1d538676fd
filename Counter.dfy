/**
 * The `/increment` handler: a shared counter guarded by a lock table,
 * under a single-threaded cooperative scheduler.
 *
 * Each in-flight request is at one of three points of its handler
 * (`Pc`).  The code between two `await`s runs without interruption, so
 * each such stretch is one method of `Counter`:
 *   - `Arrive`: draw a fresh token and make the first lock check; when the
 *     table is empty, take the lock at once;
 *   - `Poll`: after a 10 ms wait, check again and take the lock if empty;
 *   - `Finish`: after the simulated work, increment the counter, reply
 *     with the new value, and (in the `finally` block) drop the token.
 * Any interleaving of requests is a sequence of calls of these methods.
 */
module SerialCounter {

  /** A request's token: distinct for every request. */
  type Token = nat

  datatype Pc = Polling | Holding | Done

  class Counter {
    /** The shared counter. */
    var counter: int
    /** The keys of the lock table. */
    var lock: set<Token>
    /** Where each request that has arrived stands. */
    var pc: map<Token, Pc>
    /** The value each finished request replied with, if its reply was sent. */
    var replies: map<Token, int>
    /** The finished requests in the order they finished. */
    ghost var completed: seq<Token>

    ghost predicate Valid()
      reads this
    {
      |lock| <= 1 &&
      (forall t :: t in lock <==> t in pc && pc[t] == Holding) &&
      counter == |completed| &&
      (forall i, j :: 0 <= i < j < |completed| ==> completed[i] != completed[j]) &&
      (forall t :: t in pc && pc[t] == Done <==> t in completed) &&
      (forall t :: t in replies ==> t in pc && pc[t] == Done) &&
      (forall i :: 0 <= i < |completed| && completed[i] in replies ==> replies[completed[i]] == i + 1)
    }

    /** Start-up: the counter is 0 and the lock table is empty. */
    constructor ()
      ensures Valid()
      ensures counter == 0 && lock == {} && pc == map[] && replies == map[] && completed == []
    {
      counter := 0;
      lock := {};
      pc := map[];
      replies := map[];
      completed := [];
    }

    /**
     * A request arrives with a fresh token and checks the lock table for
     * the first time; there is no `await` before that check.
     */
    method Arrive(t: Token) returns (acquired: bool)
      requires Valid() && t !in pc
      modifies this
      ensures Valid()
      ensures acquired == (old(lock) == {})
      ensures lock == if acquired then {t} else old(lock)
      ensures pc == old(pc)[t := if acquired then Holding else Polling]
      ensures counter == old(counter) && replies == old(replies) && completed == old(completed)
      ensures old(AllRepliesSent()) ==> AllRepliesSent()
    {
      pc := pc[t := Polling];
      acquired := Poll(t);
    }

    /** A polling request wakes up and checks the lock table again. */
    method Poll(t: Token) returns (acquired: bool)
      requires Valid() && t in pc && pc[t] == Polling
      modifies this
      ensures Valid()
      ensures acquired == (old(lock) == {})
      ensures lock == if acquired then {t} else old(lock)
      ensures pc == if acquired then old(pc)[t := Holding] else old(pc)
      ensures counter == old(counter) && replies == old(replies) && completed == old(completed)
      ensures old(AllRepliesSent()) ==> AllRepliesSent()
    {
      acquired := |lock| == 0;
      if acquired {
        lock := lock + {t};
        pc := pc[t := Holding];
      }
    }

    /**
     * The lock holder wakes up from the simulated work, increments the
     * counter and replies with the new value; `sent` is false when sending
     * the reply throws.  On both exits the token leaves the lock table.
     */
    method Finish(t: Token, sent: bool) returns (value: int)
      requires Valid() && t in pc && pc[t] == Holding
      modifies this
      ensures Valid()
      ensures counter == old(counter) + 1 && value == counter
      ensures old(lock) == {t} && lock == {}
      ensures pc == old(pc)[t := Done]
      ensures replies == if sent then old(replies)[t := value] else old(replies)
      ensures completed == old(completed) + [t]
      ensures old(AllRepliesSent()) && sent ==> AllRepliesSent()
    {
      counter := counter + 1;
      value := counter;
      if sent {
        replies := replies[t := value];
      }
      completed := completed + [t];
      lock := lock - {t};
      pc := pc[t := Done];
      assert lock == {} by {
        forall u | u in lock ensures false {
          MutualExclusion(t, u);
        }
      }
    }

    /** At most one request holds the lock. */
    lemma MutualExclusion(a: Token, b: Token)
      requires Valid()
      requires a in pc && pc[a] == Holding && b in pc && pc[b] == Holding
      ensures a == b
    {
      if a != b {
        assert {a, b} <= lock;
        assert |{a, b}| == 2;
        SubsetCard({a, b}, lock);
      }
    }

    /** Once no request holds the lock, the lock table is empty. */
    lemma ReleasedWhenNoneHolds()
      requires Valid()
      requires forall t :: t in pc ==> pc[t] != Holding
      ensures lock == {}
    {
    }

    /** Two replies sent are different, and each lies between 1 and the counter. */
    lemma RepliesDistinctInRange(a: Token, b: Token)
      requires Valid() && a in replies && b in replies
      ensures 1 <= replies[a] <= counter
      ensures a != b ==> replies[a] != replies[b]
    {
      var i :| 0 <= i < |completed| && completed[i] == a;
      var j :| 0 <= j < |completed| && completed[j] == b;
    }

    /** Every request that finished sent its reply. */
    ghost predicate AllRepliesSent()
      reads this
    {
      forall t :: t in pc && pc[t] == Done ==> t in replies
    }

    /**
     * One scheduling step of request `t`: it arrives if it has not, a
     * polling request re-checks the lock, the holder finishes (`sent` is
     * false when sending its reply throws); a finished request has nothing
     * left to do.
     */
    method Step(t: Token, sent: bool)
      requires Valid()
      modifies this
      ensures Valid()
      ensures old(AllRepliesSent()) && sent ==> AllRepliesSent()
      ensures pc.Keys == old(pc.Keys) + {t}
    {
      if t !in pc {
        var acquired := Arrive(t);
      } else if pc[t] == Polling {
        var acquired := Poll(t);
      } else if pc[t] == Holding {
        var value := Finish(t, sent);
      }
    }

    /**
     * What running request `i` to its end changes: nothing if it was done
     * already; otherwise the counter rises by one, `i` joins the finished
     * requests and its reply is the new counter; no other request's reply
     * changes.
     */
    twostate predicate RanToEnd(i: Token)
      reads this
    {
      if old(i in pc && pc[i] == Done) then
        counter == old(counter) && completed == old(completed) && replies == old(replies)
      else
        counter == old(counter) + 1 && completed == old(completed) + [i] &&
        replies == old(replies)[i := counter]
    }

    /**
     * With the lock free, request `i` runs to its end: it arrives or wakes,
     * finds the table empty, takes the lock and finishes, sending its reply.
     */
    method RunOne(i: Token)
      requires Valid() && lock == {}
      modifies this
      ensures Valid() && lock == {}
      ensures pc == old(pc)[i := Done]
      ensures old(AllRepliesSent()) ==> AllRepliesSent()
      ensures RanToEnd(i)
      ensures KeepsReplies(old(replies), replies)
    {
      if i !in pc {
        var acquired := Arrive(i);
      } else if pc[i] == Polling {
        var acquired := Poll(i);
      }
      if pc[i] == Holding {
        var value := Finish(i, true);
      }
    }

    /**
     * The current lock holder, if there is one, finishes and sends its
     * reply; `held` says whether there was one and `h` names it. With no
     * holder nothing changes.
     */
    method ReleaseHolder() returns (ghost held: bool, ghost h: Token)
      requires Valid()
      modifies this
      ensures Valid() && lock == {}
      ensures held == (old(lock) != {})
      ensures held ==> old(lock) == {h} && pc == old(pc)[h := Done] && RanToEnd(h)
      ensures !held ==> pc == old(pc) && counter == old(counter) &&
                        completed == old(completed) && replies == old(replies)
      ensures pc.Keys == old(pc.Keys)
      ensures old(AllRepliesSent()) ==> AllRepliesSent()
      ensures KeepsReplies(old(replies), replies)
    {
      held, h := false, 0;
      if lock != {} {
        var k :| k in lock;
        assert k !in replies;
        held, h := true, k;
        var value := Finish(k, true);
      }
    }

    /**
     * Lets requests 0..n-1 run to the end from any reachable state, also
     * one reached after a failed reply: the current holder finishes, then
     * each remaining request runs to its end in turn.
     */
    method RunToEnd(n: nat)
      requires Valid()
      requires forall t :: t in pc ==> t < n
      modifies this
      ensures Valid()
      ensures old(AllRepliesSent()) ==> AllRepliesSent()
      ensures pc.Keys == Range(n) && lock == {}
      ensures forall t :: t in pc ==> pc[t] == Done
      ensures KeepsReplies(old(replies), replies)
    {
      ghost var allSent, sentBefore := AllRepliesSent(), replies;
      ghost var held, h := ReleaseHolder();
      for i := 0 to n
        invariant Valid() && lock == {}
        invariant allSent ==> AllRepliesSent()
        invariant forall t :: t in pc ==> t < n
        invariant forall j :: 0 <= j < i ==> j in pc && pc[j] == Done
        invariant KeepsReplies(sentBefore, replies)
      {
        ghost var sentHere := replies;
        RunOne(i);
        KeepsRepliesTransitive(sentBefore, sentHere, replies);
      }
    }

    /**
     * No update is lost: once every request that arrived has finished,
     * whether or not its reply was sent, the counter equals their number.
     */
    lemma AllFinishedCounted()
      requires Valid()
      requires forall t :: t in pc ==> pc[t] == Done
      ensures counter == |pc.Keys|
    {
      assert (set t: Token | t in completed) == pc.Keys;
      DistinctCard(completed);
    }

    /**
     * Once every request that arrived has finished and sent its reply, the
     * replies are 1..N for N requests, one for each request.
     */
    lemma AllFinishedRepliesOneToN()
      requires Valid() && AllRepliesSent()
      requires forall t :: t in pc ==> pc[t] == Done
      ensures replies.Keys == pc.Keys
      ensures forall a, b :: a in replies && b in replies && a != b ==> replies[a] != replies[b]
      ensures forall t :: t in replies ==> 1 <= replies[t] <= |pc.Keys|
      ensures forall k: nat :: 1 <= k <= |pc.Keys| ==> k in replies.Values
    {
      AllFinishedCounted();
      forall a, b | a in replies && b in replies
        ensures 1 <= replies[a] <= counter && (a != b ==> replies[a] != replies[b])
      {
        RepliesDistinctInRange(a, b);
      }
      forall k: nat | 1 <= k <= counter ensures k in replies.Values {
        var t := completed[k - 1];
        assert t in replies && replies[t] == k;
      }
    }
  }

  /** Every reply in `before` is still in `after`, with the same value. */
  ghost predicate KeepsReplies(before: map<Token, int>, after: map<Token, int>) {
    forall t :: t in before ==> t in after && after[t] == before[t]
  }

  lemma KeepsRepliesTransitive(a: map<Token, int>, b: map<Token, int>, c: map<Token, int>)
    requires KeepsReplies(a, b) && KeepsReplies(b, c)
    ensures KeepsReplies(a, c)
  {
  }

  lemma SubsetCard(a: set<Token>, b: set<Token>)
    requires a <= b
    ensures |a| <= |b|
  {
    assert b == a + (b - a);
  }

  /** The tokens 0..n-1. */
  function Range(n: nat): (r: set<Token>)
    ensures forall t: Token :: t in r <==> t < n
    ensures |r| == n
  {
    if n == 0 then {} else Range(n - 1) + {n - 1}
  }

  lemma {:induction false} DistinctCard(s: seq<Token>)
    requires forall i, j :: 0 <= i < j < |s| ==> s[i] != s[j]
    ensures |set t: Token | t in s| == |s|
  {
    if s != [] {
      var init, last := s[..|s| - 1], s[|s| - 1];
      DistinctCard(init);
      assert s == init + [last];
      var before, after := set t: Token | t in init, set t: Token | t in s;
      assert last !in before;
      assert after == before + {last};
      assert |after| == |before| + 1;
    }
  }

  /**
   * `n` concurrent requests under any interleaving: the scheduler first
   * takes the steps in `schedule`, each naming a request (modulo n) and
   * whether a reply sent in that step goes out or throws, then lets every
   * request run to the end.  The counter ends at n and the lock table ends
   * empty, failed replies included; the replies sent are distinct values
   * in 1..n, and when no reply failed they are exactly 1..n, one per
   * request.
   */
  method Simulate(n: nat, schedule: seq<(nat, bool)>) returns (replies: map<Token, int>, final: int, lockAfter: set<Token>)
    ensures final == n && lockAfter == {}
    ensures replies.Keys <= Range(n)
    ensures forall a, b :: a in replies && b in replies && a != b ==> replies[a] != replies[b]
    ensures forall t :: t in replies ==> 1 <= replies[t] <= n
    ensures (forall k :: 0 <= k < |schedule| ==> schedule[k].1) ==>
              replies.Keys == Range(n) && forall v: nat :: 1 <= v <= n ==> v in replies.Values
  {
    var c := new Counter();
    for k := 0 to |schedule|
      invariant c.Valid()
      invariant (forall j :: 0 <= j < |schedule| ==> schedule[j].1) ==> c.AllRepliesSent()
      invariant forall t :: t in c.pc ==> t < n
    {
      if n > 0 {
        c.Step(schedule[k].0 % n, schedule[k].1);
      }
    }
    c.RunToEnd(n);
    c.AllFinishedCounted();
    replies, final, lockAfter := c.replies, c.counter, c.lock;
    forall a, b | a in replies && b in replies
      ensures 1 <= replies[a] <= n && (a != b ==> replies[a] != replies[b])
    {
      c.RepliesDistinctInRange(a, b);
    }
    if c.AllRepliesSent() {
      c.AllFinishedRepliesOneToN();
    }
  }

  /** A reply that throws does not leave the lock stuck: later requests still run and count. */
  method FailedReplyThenRecovery() returns (final: int, lockAfter: set<Token>)
    ensures final == 2 && lockAfter == {}
  {
    var c := new Counter();
    var acquired := c.Arrive(0);
    var value := c.Finish(0, false);
    c.RunToEnd(2);
    c.AllFinishedCounted();
    final, lockAfter := c.counter, c.lock;
  }
}
