/** The per-client sliding-window rate limiter: a map from client identity
    to the times of that client's admitted calls. A call prunes the client's
    list to the calls less than one window old, is refused when the pruned
    list already holds at least `limit` entries, and otherwise records the current
    time and is admitted. Times are seconds as returned by the clock. */
module RateLimit {

  /** The entries of `ts` whose age at `now` is strictly below `window`,
      in their original order (the list comprehension of the check). */
  function Prune(ts: seq<real>, now: real, window: int): (r: seq<real>)
    ensures |r| <= |ts|
    ensures forall i | 0 <= i < |r| :: now - r[i] < window as real
    ensures forall i | 0 <= i < |ts| :: now - ts[i] < window as real ==> ts[i] in r
    ensures forall i | 0 <= i < |r| :: r[i] in ts
  {
    if ts == [] then []
    else if now - ts[0] < window as real then [ts[0]] + Prune(ts[1..], now, window)
    else Prune(ts[1..], now, window)
  }

  /** Pruning keeps order: it filters each part of a list separately. */
  lemma {:induction false} PruneConcat(a: seq<real>, b: seq<real>, now: real, window: int)
    ensures Prune(a + b, now, window) == Prune(a, now, window) + Prune(b, now, window)
  {
    if a == [] {
      assert a + b == b;
    } else {
      assert (a + b)[0] == a[0];
      assert (a + b)[1..] == a[1..] + b;
      PruneConcat(a[1..], b, now, window);
    }
  }

  /** Pruning keeps every copy of a time younger than one window and no copy
      of any other, so several calls at one instant all stay counted. */
  lemma {:induction false} PruneMultiset(ts: seq<real>, now: real, window: int)
    ensures forall x :: multiset(Prune(ts, now, window))[x]
                        == if now - x < window as real then multiset(ts)[x] else 0
  {
    if ts != [] {
      PruneMultiset(ts[1..], now, window);
      assert ts == [ts[0]] + ts[1..];
    }
  }

  /** A list whose entries are all younger than one window is kept whole. */
  lemma {:induction false} PruneKeepsFresh(ts: seq<real>, now: real, window: int)
    requires forall i | 0 <= i < |ts| :: now - ts[i] < window as real
    ensures Prune(ts, now, window) == ts
  {
    if ts != [] {
      PruneKeepsFresh(ts[1..], now, window);
    }
  }

  /** Once every entry is at least one window old, the list is emptied; an
      entry exactly one window old is gone. */
  lemma {:induction false} PruneDropsExpired(ts: seq<real>, now: real, window: int)
    requires forall i | 0 <= i < |ts| :: now - ts[i] >= window as real
    ensures Prune(ts, now, window) == []
  {
    if ts != [] {
      PruneDropsExpired(ts[1..], now, window);
    }
  }

  /** The outcome of one check: whether the call is admitted and the list
      left for the client. */
  datatype Verdict = Verdict(allowed: bool, kept: seq<real>)

  /** The most entries a client's list can hold: `limit`, or none when
      `limit` is not positive. */
  function Cap(limit: int): nat {
    if limit < 0 then 0 else limit
  }

  /** One check of a client whose list was `ts`, at time `now`. A refused
      call records nothing beyond the pruning; an admitted one appends `now`
      and leaves at most `limit` entries. */
  function Admit(ts: seq<real>, now: real, limit: int, window: int): (v: Verdict)
    ensures v.allowed <==> |Prune(ts, now, window)| < limit
    ensures !v.allowed ==> v.kept == Prune(ts, now, window)
    ensures v.allowed ==> v.kept == Prune(ts, now, window) + [now] && |v.kept| <= limit
    ensures |ts| <= Cap(limit) ==> |v.kept| <= Cap(limit)
  {
    var pruned := Prune(ts, now, window);
    if |pruned| >= limit then Verdict(false, pruned) else Verdict(true, pruned + [now])
  }

  /** The answers to successive checks of one client at the times `nows`,
      starting from the list `ts`. */
  function Replay(ts: seq<real>, nows: seq<real>, limit: int, window: int): (answers: seq<bool>)
    ensures |answers| == |nows|
    decreases |nows|
  {
    if nows == [] then []
    else
      var v := Admit(ts, nows[0], limit, window);
      [v.allowed] + Replay(v.kept, nows[1..], limit, window)
  }

  function Repeat<T>(x: T, n: nat): (r: seq<T>)
    ensures |r| == n && forall i | 0 <= i < n :: r[i] == x
  {
    if n == 0 then [] else [x] + Repeat(x, n - 1)
  }

  function Min(a: nat, b: nat): nat {
    if a <= b then a else b
  }

  /** A client whose `k` recorded calls all happened at `now`, checked
      again at `now`: admitted exactly while `k` is below the limit. */
  lemma AdmitSameInstant(now: real, k: nat, limit: nat, window: int)
    requires window > 0 && k <= limit
    ensures Admit(Repeat(now, k), now, limit, window)
         == if k < limit then Verdict(true, Repeat(now, k + 1)) else Verdict(false, Repeat(now, k))
  {
    PruneKeepsFresh(Repeat(now, k), now, window);
    assert Repeat(now, k) + [now] == Repeat(now, k + 1);
  }

  /** After a burst of `n` calls at `now`, the client holds one entry per
      admitted call. */
  lemma {:induction false} BurstLeaves(now: real, k: nat, n: nat, limit: nat, window: int)
    requires window > 0 && k <= limit
    ensures FinalList(Repeat(now, k), Repeat(now, n), limit, window) == Repeat(now, k + Min(n, limit - k))
    decreases n
  {
    if n > 0 {
      var next := if k < limit then k + 1 else k;
      assert FinalList(Repeat(now, k), Repeat(now, n), limit, window)
          == FinalList(Repeat(now, next), Repeat(now, n - 1), limit, window) by {
        var nows := Repeat(now, n);
        assert nows[0] == now && nows[1..] == Repeat(now, n - 1);
        AdmitSameInstant(now, k, limit, window);
      }
      BurstLeaves(now, next, n - 1, limit, window);
      assert next + Min(n - 1, limit - next) == k + Min(n, limit - k);
    }
  }

  /** `t` admissions followed by `f` refusals. */
  function Runs(t: nat, f: nat): (r: seq<bool>)
    ensures |r| == t + f && forall i | 0 <= i < |r| :: r[i] == (i < t)
  {
    if t == 0 then Repeat(false, f) else [true] + Runs(t - 1, f)
  }

  /** A burst of `n` calls at one instant, by a client that already made
      `k <= limit` calls at that instant: the first `limit - k` are admitted
      and every later one refused. */
  lemma {:induction false} Burst(now: real, k: nat, n: nat, limit: nat, window: int)
    requires window > 0 && k <= limit
    ensures Replay(Repeat(now, k), Repeat(now, n), limit, window)
         == Runs(Min(n, limit - k), n - Min(n, limit - k))
    decreases n
  {
    if n > 0 {
      var next := if k < limit then k + 1 else k;
      var answers := Replay(Repeat(now, k), Repeat(now, n), limit, window);
      var later := Replay(Repeat(now, next), Repeat(now, n - 1), limit, window);
      assert answers == [k < limit] + later by {
        var nows := Repeat(now, n);
        assert nows[0] == now && nows[1..] == Repeat(now, n - 1);
        AdmitSameInstant(now, k, limit, window);
      }
      Burst(now, next, n - 1, limit, window);
      var m := Min(n - 1, limit - next);
      var t := Min(n, limit - k);
      assert later == Runs(m, n - 1 - m);
      if k < limit {
        assert t == m + 1 && n - t == n - 1 - m;
        assert answers == [true] + later;
        assert Runs(t, n - t) == [true] + Runs(m, n - 1 - m);
      } else {
        assert t == 0 && m == 0;
        assert answers == [false] + later;
        assert Runs(m, n - 1 - m) == Repeat(false, n - 1);
        assert Runs(t, n - t) == Repeat(false, n) == [false] + Repeat(false, n - 1);
      }
    }
  }

  /** With a limit of 3 and a 60-second window, three calls at one instant
      are admitted, a fourth is refused, and a call 60 seconds after the
      first is admitted again. */
  lemma ThreeAndRefill(t: real)
    ensures Replay([], [t, t, t, t, t + 60.0], 3, 60) == [true, true, true, false, true]
  {
    Burst(t, 0, 4, 3, 60);
    BurstLeaves(t, 0, 4, 3, 60);
    assert Repeat(t, 4) == [t, t, t, t];
    var full := [t, t, t];
    assert Replay(full, [t + 60.0], 3, 60) == [true] by {
      PruneDropsExpired(full, t + 60.0, 60);
    }
    assert Repeat(t, 3) == full;
    ReplayConcat([], [t, t, t, t], [t + 60.0], 3, 60);
    assert [t, t, t, t] + [t + 60.0] == [t, t, t, t, t + 60.0];
  }

  /** The list a client is left with after its calls at the times `nows`. */
  function FinalList(ts: seq<real>, nows: seq<real>, limit: int, window: int): seq<real>
    decreases |nows|
  {
    if nows == [] then ts
    else FinalList(Admit(ts, nows[0], limit, window).kept, nows[1..], limit, window)
  }

  lemma {:induction false} ReplayConcat(ts: seq<real>, a: seq<real>, b: seq<real>, limit: int, window: int)
    ensures Replay(ts, a + b, limit, window)
         == Replay(ts, a, limit, window) + Replay(FinalList(ts, a, limit, window), b, limit, window)
    decreases |a|
  {
    if a == [] {
      assert a + b == b;
    } else {
      assert (a + b)[0] == a[0];
      assert (a + b)[1..] == a[1..] + b;
      ReplayConcat(Admit(ts, a[0], limit, window).kept, a[1..], b, limit, window);
    }
  }

  /** The rate-limit store: client identity to admission times. */
  class RateLimiter {
    var store: map<string, seq<real>>
    const limit: int
    const window: int

    /** No client ever has more than `limit` admissions on record. */
    ghost predicate Valid()
      reads this
    {
      forall id | id in store :: |store[id]| <= Cap(limit)
    }

    constructor (limit: int, window: int)
      ensures Valid()
      ensures store == map[] && this.limit == limit && this.window == window
    {
      store := map[];
      this.limit := limit;
      this.window := window;
    }

    /** `check_rate_limit`: prunes the client's list, then refuses or
        records `now`. Only the client's own entry changes; reading it
        creates it (an empty list) if it was missing. */
    method CheckRateLimit(clientIp: string, now: real) returns (allowed: bool)
      requires Valid()
      modifies this`store
      ensures Valid()
      ensures var ts := if clientIp in old(store) then old(store)[clientIp] else [];
              var v := Admit(ts, now, limit, window);
              allowed == v.allowed && store == old(store)[clientIp := v.kept]
      ensures forall id | id != clientIp ::
                (id in store <==> id in old(store)) && (id in store ==> store[id] == old(store)[id])
    {
      var ts := if clientIp in store then store[clientIp] else [];
      store := store[clientIp := Prune(ts, now, window)];
      if |store[clientIp]| >= limit {
        return false;
      }
      store := store[clientIp := store[clientIp] + [now]];
      return true;
    }
  }
}
