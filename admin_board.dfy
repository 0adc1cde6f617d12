/**
 * The state the admin page (src/app/admin/page.tsx) keeps between renders:
 * the pending pets with their live counters, the `timers` record from pet id
 * to interval handle, the intervals still running, and the sign-in flags.
 * Interval handles are the positive numbers `setInterval` returns; the
 * browser's timing itself is not modelled: each firing of an interval is a
 * call to `Tick`.
 */
module AdminBoard {
  import opened Wrappers
  import opened PetModel
  import opened Deadline

  /** `data.map(...)` in `getPendingPets`: each fetched row with its counter and eligibility at `now`. */
  function PendingViews(data: seq<Pet>, now: int): (r: seq<PetView>)
    ensures |r| == |data|
    ensures forall i :: 0 <= i < |data| ==> r[i] == PendingView(data[i], now)
  {
    seq(|data|, i requires 0 <= i < |data| => PendingView(data[i], now))
  }

  /** The ids `getPendingPets` starts a countdown for. */
  function CountdownIds(views: seq<PetView>): (r: set<int>)
    ensures forall i :: 0 <= i < |views| && ShouldStartTimer(views[i]) ==> views[i].pet.id in r
    ensures forall id :: id in r ==> exists i :: 0 <= i < |views| && views[i].pet.id == id && ShouldStartTimer(views[i])
  {
    set i | 0 <= i < |views| && ShouldStartTimer(views[i]) :: views[i].pet.id
  }

  /** When every fetched row's window has opened, the countdowns started are
      those of exactly the pets whose window is still running. */
  lemma CountdownIdsOfOpenWindows(data: seq<Pet>, now: int)
    requires forall i :: 0 <= i < |data| ==> data[i].applicationStartTime <= now
    ensures CountdownIds(PendingViews(data, now)) ==
      set i | 0 <= i < |data| && now < data[i].applicationStartTime + MaxWaitTime :: data[i].id
  {
    var views := PendingViews(data, now);
    forall i | 0 <= i < |data|
      ensures ShouldStartTimer(views[i]) <==> now < data[i].applicationStartTime + MaxWaitTime
    {
      TimerStartsWhileWindowRuns(data[i], now);
    }
  }

  class AdminPage {
    var pendingPets: seq<PetView>
    var timers: map<int, nat>
    /** Running intervals, each with the pet it counts down. */
    var active: map<nat, int>
    var nextHandle: nat
    var isSigned: bool
    var isModalOpen: bool
    var processingPetId: Option<int>

    /** Every handle in use was issued before `nextHandle`, none is 0, and a
        recorded handle that still runs counts down the pet it is recorded for. */
    ghost predicate Valid()
      reads this
    {
      && nextHandle > 0
      && HandlesBelow(timers, active, nextHandle)
      && (forall id :: id in timers && timers[id] in active ==> active[timers[id]] == id)
    }

    constructor ()
      ensures Valid()
      ensures pendingPets == [] && timers == map[] && active == map[]
      ensures !isSigned && !isModalOpen && processingPetId == None
    {
      pendingPets := [];
      timers := map[];
      active := map[];
      nextHandle := 1;
      isSigned := false;
      isModalOpen := false;
      processingPetId := None;
    }

    /** `startTimer`: clear the pet's previous interval if it has one, start a
        new interval for it and record the new handle. */
    method StartTimer(petId: int) returns (h: nat)
      requires Valid()
      modifies this`timers, this`active, this`nextHandle
      ensures Valid()
      ensures h == old(nextHandle) && h !in old(active) && nextHandle == h + 1
      ensures timers == old(timers)[petId := h]
      ensures active == (if petId in old(timers) then old(active) - {old(timers)[petId]} else old(active))[h := petId]
    {
      if petId in timers {
        active := active - {timers[petId]};
      }
      h := nextHandle;
      nextHandle := nextHandle + 1;
      active := active[h := petId];
      timers := timers[petId := h];
    }

    /** `getPendingPets` once the rows are fetched: show each pending row with
        its counter and eligibility, then start a countdown for each row the
        start condition admits. */
    method LoadPending(data: seq<Pet>, now: int)
      requires Valid()
      modifies this`pendingPets, this`timers, this`active, this`nextHandle
      ensures Valid() && nextHandle >= old(nextHandle)
      ensures pendingPets == PendingViews(data, now)
      ensures timers.Keys == old(timers).Keys + CountdownIds(pendingPets)
      ensures forall id :: id in old(timers) && id !in CountdownIds(pendingPets) ==> timers[id] == old(timers)[id]
      ensures forall id :: id in CountdownIds(pendingPets) ==>
        old(nextHandle) <= timers[id] && timers[id] in active && active[timers[id]] == id
      ensures forall h :: h in old(active) && old(active)[h] !in CountdownIds(pendingPets) ==>
        h in active && active[h] == old(active)[h]
      ensures forall id :: id in CountdownIds(pendingPets) && id in old(timers) ==> old(timers)[id] !in active
      ensures forall h :: h in active ==>
        (h in old(active) && active[h] == old(active)[h]) || exists id :: id in CountdownIds(pendingPets) && h == timers[id]
    {
      pendingPets := PendingViews(data, now);
      var views := pendingPets;
      ghost var started: set<int> := {};
      ghost var t0, a0, n0 := timers, active, nextHandle;
      for i := 0 to |views|
        invariant Valid() && nextHandle >= n0 && pendingPets == views
        invariant started == CountdownIds(views[..i])
        invariant Progress(t0, a0, n0, started, timers, active)
      {
        assert views[..i + 1] == views[..i] + [views[i]];
        if ShouldStartTimer(views[i]) {
          var id := views[i].pet.id;
          StartStep(t0, a0, n0, started, timers, active, nextHandle, id);
          var h := StartTimer(id);
          started := started + {id};
        }
        assert CountdownIds(views[..i + 1]) == started by {
          CountdownIdsSnoc(views[..i], views[i]);
        }
      }
      assert views[..|views|] == views;
    }

    /** One firing of interval `h`: the tick step for its pet, after which the
        interval clears itself when a counter of that pet has reached 0. The
        `timers` record keeps the stale handle. */
    method Tick(h: nat)
      requires Valid()
      modifies this`pendingPets, this`active
      ensures Valid()
      ensures h !in old(active) ==> pendingPets == old(pendingPets) && active == old(active)
      ensures h in old(active) ==>
        && pendingPets == TickStep(old(pendingPets), old(active)[h])
        && active == if TickReachesZero(old(pendingPets), old(active)[h]) then old(active) - {h} else old(active)
    {
      if h in active {
        var petId := active[h];
        if TickReachesZero(pendingPets, petId) {
          active := active - {h};
        }
        pendingPets := TickStep(pendingPets, petId);
      }
    }

    /** `handleSign` after the sign-in request: a 200 reply marks the page
        signed in; the modal closes either way. */
    method HandleSign(authAccepted: bool)
      modifies this`isSigned, this`isModalOpen
      ensures isSigned == (old(isSigned) || authAccepted)
      ensures !isModalOpen
    {
      if authAccepted {
        isSigned := true;
      }
      isModalOpen := false;
    }

    /** `handleApprove`: without a sign-in only the sign modal opens; otherwise,
        after the settlement request (chain I/O, not modelled, which swallows
        its own errors), the pet's interval is cleared and its entry dropped
        from `timers`, every other entry staying as it was. */
    method HandleApprove(petId: int)
      requires Valid()
      modifies this`isModalOpen, this`timers, this`active, this`processingPetId
      ensures Valid()
      ensures !old(isSigned) ==>
        isModalOpen && timers == old(timers) && active == old(active) && processingPetId == old(processingPetId)
      ensures old(isSigned) ==>
        && isModalOpen == old(isModalOpen) && processingPetId == None
        && timers == old(timers) - {petId}
        && active == if petId in old(timers) then old(active) - {old(timers)[petId]} else old(active)
    {
      if !isSigned {
        isModalOpen := true;
        return;
      }
      processingPetId := Some(petId);
      if petId in timers {
        active := active - {timers[petId]};
        timers := timers - {petId};
      }
      processingPetId := None;
    }
  }

  /** All handles in use lie strictly between 0 and `next`. */
  ghost predicate HandlesBelow(timers: map<int, nat>, active: map<nat, int>, next: nat)
  {
    && (forall h :: h in active ==> 0 < h < next)
    && (forall id :: id in timers ==> 0 < timers[id] < next)
  }

  /** How far `getPendingPets` has got, from the record `t0`, intervals `a0`
      and next handle `n0` it began with: the pets in `started` have a fresh
      running interval and their earlier one is cleared, every other entry
      and interval is as it was, and no other interval has appeared. */
  ghost predicate Progress(t0: map<int, nat>, a0: map<nat, int>, n0: nat, started: set<int>,
                           t: map<int, nat>, a: map<nat, int>)
  {
    && Recorded(t0, started, t)
    && Running(n0, started, t, a)
    && OthersKept(a0, started, a)
    && OldCleared(t0, started, a)
    && NoStray(a0, started, t, a)
  }

  /** The record holds the old entries and one per started pet; the old
      entries of the pets not started are unchanged. */
  ghost predicate Recorded(t0: map<int, nat>, started: set<int>, t: map<int, nat>)
  {
    && t.Keys == t0.Keys + started
    && (forall id :: id in t0 && id !in started ==> t[id] == t0[id])
  }

  /** Each started pet's recorded handle is new and runs for that pet. */
  ghost predicate Running(n0: nat, started: set<int>, t: map<int, nat>, a: map<nat, int>)
  {
    forall id :: id in started ==> id in t && n0 <= t[id] && t[id] in a && a[t[id]] == id
  }

  /** The intervals of the pets not started still run as before. */
  ghost predicate OthersKept(a0: map<nat, int>, started: set<int>, a: map<nat, int>)
  {
    forall h :: h in a0 && a0[h] !in started ==> h in a && a[h] == a0[h]
  }

  /** The earlier interval of each started pet no longer runs. */
  ghost predicate OldCleared(t0: map<int, nat>, started: set<int>, a: map<nat, int>)
  {
    forall id :: id in started && id in t0 ==> t0[id] !in a
  }

  /** Every running interval is an earlier one or a started pet's new one. */
  ghost predicate NoStray(a0: map<nat, int>, started: set<int>, t: map<int, nat>, a: map<nat, int>)
  {
    forall h :: h in a ==> (h in a0 && a[h] == a0[h]) || exists id :: id in started && id in t && h == t[id]
  }

  /** The intervals after `startTimer(id)` hands out handle `n`. */
  function AfterStart(t: map<int, nat>, a: map<nat, int>, n: nat, id: int): map<nat, int>
  {
    (if id in t then a - {t[id]} else a)[n := id]
  }

  /** One `startTimer` call keeps `Progress`, with its pet added to `started`. */
  lemma StartStep(t0: map<int, nat>, a0: map<nat, int>, n0: nat, started: set<int>,
                  t: map<int, nat>, a: map<nat, int>, n: nat, id: int)
    requires HandlesBelow(t0, a0, n0) && HandlesBelow(t, a, n) && n0 <= n
    requires forall x :: x in t && t[x] in a ==> a[t[x]] == x
    requires Progress(t0, a0, n0, started, t, a)
    ensures Progress(t0, a0, n0, started + {id}, t[id := n], AfterStart(t, a, n, id))
  {
    RunningStep(n0, started, t, a, n, id);
    OthersKeptStep(a0, started, t, a, n, id);
    OldClearedStep(t0, a0, n0, started, t, a, n, id);
    NoStrayStep(a0, started, t, a, n, id);
  }

  /** The started pets, now with `id`, still have their own running interval. */
  lemma RunningStep(n0: nat, started: set<int>, t: map<int, nat>, a: map<nat, int>, n: nat, id: int)
    requires HandlesBelow(t, a, n) && n0 <= n
    requires forall x :: x in t && t[x] in a ==> a[t[x]] == x
    requires Running(n0, started, t, a)
    ensures Running(n0, started + {id}, t[id := n], AfterStart(t, a, n, id))
  {
    var t1, a2 := t[id := n], AfterStart(t, a, n, id);
    forall x | x in started + {id}
      ensures x in t1 && n0 <= t1[x] && t1[x] in a2 && a2[t1[x]] == x
    {
      if x != id {
        assert t[x] in a && a[t[x]] == x;
      }
    }
  }

  /** An interval of a pet other than `id` survives the restart of `id`'s. */
  lemma OthersKeptStep(a0: map<nat, int>, started: set<int>, t: map<int, nat>, a: map<nat, int>, n: nat, id: int)
    requires HandlesBelow(t, a, n)
    requires forall x :: x in t && t[x] in a ==> a[t[x]] == x
    requires OthersKept(a0, started, a)
    ensures OthersKept(a0, started + {id}, AfterStart(t, a, n, id))
  {
    var a2 := AfterStart(t, a, n, id);
    forall h | h in a0 && a0[h] !in started + {id}
      ensures h in a2 && a2[h] == a0[h]
    {
      assert h in a && a[h] == a0[h];
    }
  }

  /** `id`'s earlier interval is cleared, and none cleared before comes back. */
  lemma OldClearedStep(t0: map<int, nat>, a0: map<nat, int>, n0: nat, started: set<int>,
                       t: map<int, nat>, a: map<nat, int>, n: nat, id: int)
    requires HandlesBelow(t0, a0, n0) && n0 <= n
    requires Recorded(t0, started, t) && OldCleared(t0, started, a)
    ensures OldCleared(t0, started + {id}, AfterStart(t, a, n, id))
  {
    var a2 := AfterStart(t, a, n, id);
    forall x | x in started + {id} && x in t0
      ensures t0[x] !in a2
    {
      if x == id && id !in started {
        assert t[id] == t0[id];
      }
    }
  }

  /** The only interval added is `id`'s new one. */
  lemma NoStrayStep(a0: map<nat, int>, started: set<int>, t: map<int, nat>, a: map<nat, int>, n: nat, id: int)
    requires NoStray(a0, started, t, a)
    ensures NoStray(a0, started + {id}, t[id := n], AfterStart(t, a, n, id))
  {
    var t1, a2 := t[id := n], AfterStart(t, a, n, id);
    forall h | h in a2
      ensures (h in a0 && a2[h] == a0[h]) || exists x :: x in started + {id} && x in t1 && h == t1[x]
    {
      if h == n {
        assert h == t1[id];
      } else if !(h in a0 && a2[h] == a0[h]) {
        var x :| x in started && x in t && h == t[x];
        if x != id {
          assert h == t1[x];
        }
      }
    }
  }

  /** Extending the list by one view adds that view's id exactly when it
      passes the start condition. */
  lemma CountdownIdsSnoc(views: seq<PetView>, v: PetView)
    ensures CountdownIds(views + [v]) == CountdownIds(views) + (if ShouldStartTimer(v) then {v.pet.id} else {})
  {
    var s := views + [v];
    assert forall i :: 0 <= i < |views| ==> s[i] == views[i];
    assert s[|views|] == v;
  }
}
