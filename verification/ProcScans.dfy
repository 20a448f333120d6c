/** The loops of proc.c over the process table, with ptable.lock held. */
module ProcScans {
  import opened Base
  import opened ProcTable

  /** exit's loop once it has passed the slots before n. */
  ghost function Moving(t: Table, c: nat, init: nat, n: nat): (r: Table)
    ensures |r| == |t|
  {
    var moved := seq(|t|, i requires 0 <= i < |t| => if i < n && IsChild(t, i, c) then t[i].(parent := Some(init)) else t[i]);
    if exists i :: 0 <= i < |t| && i < n && ZombieOf(t, i, c) then Wakeup1(moved, OnProc(init)) else moved
  }

  lemma MovingStep(t: Table, c: nat, init: nat, n: nat)
    requires n < |t|
    ensures var r := Moving(t, c, init, n);
            var adopted := r[n := r[n].(parent := Some(init))];
            Moving(t, c, init, n + 1) ==
              if !IsChild(t, n, c) then r
              else if t[n].state == ZOMBIE then Wakeup1(adopted, OnProc(init))
              else adopted
    ensures Moving(t, c, init, n)[n].parent == t[n].parent
    ensures Moving(t, c, init, n)[n].state == ZOMBIE <==> t[n].state == ZOMBIE
  {
    assert (exists i :: 0 <= i < |t| && i < n + 1 && ZombieOf(t, i, c)) <==>
           (exists i :: 0 <= i < |t| && i < n && ZombieOf(t, i, c)) || ZombieOf(t, n, c);
  }

  lemma MovingEnds(t: Table, c: nat, init: nat)
    ensures Moving(t, c, init, 0) == t
    ensures Moving(t, c, init, |t|) == Reparent(t, c, init)
  {
    assert HasZombie(t, c) <==> exists i :: 0 <= i < |t| && i < |t| && ZombieOf(t, i, c);
  }

  /** What one pass of wait()'s scan leads to. */
  datatype Scan = Reaped(pid: nat) | GiveUp | MustSleep

  class PTable {
    var proc: array<Proc>
    var nextpid: nat

    /** wakeup1: every sleeper on chan becomes runnable. */
    method Wakeup(chan: Chan)
      modifies proc
      ensures proc[..] == Wakeup1(old(proc[..]), chan)
    {
      var i := 0;
      while i < proc.Length
        invariant 0 <= i <= proc.Length
        invariant forall j :: 0 <= j < proc.Length ==> proc[j] == if j < i then Wakeup1(old(proc[..]), chan)[j] else old(proc[j])
      {
        if proc[i].state == SLEEPING && proc[i].chan == chan {
          proc[i] := proc[i].(state := RUNNABLE);
        }
        i := i + 1;
      }
    }

    /** allocproc: the part under the lock. */
    method AllocSlot() returns (r: Option<nat>)
      modifies proc, `nextpid
      ensures r.None? ==> unchanged(proc) && unchanged(this) && forall i :: 0 <= i < proc.Length ==> proc[i].state != UNUSED
      ensures r.Some? ==>
                && FirstUnused(old(proc[..]), r.value) && nextpid == old(nextpid) + 1
                && proc[..] == old(proc[..])[r.value := old(proc[..])[r.value].(state := EMBRYO, pid := old(nextpid))]
    {
      var i := 0;
      while i < proc.Length
        invariant 0 <= i <= proc.Length && unchanged(proc)
        invariant forall j :: 0 <= j < i ==> proc[j].state != UNUSED
      {
        if proc[i].state == UNUSED {
          proc[i] := proc[i].(state := EMBRYO, pid := nextpid);
          nextpid := nextpid + 1;
          return Some(i);
        }
        i := i + 1;
      }
      r := None;
    }

    /** exit: from waking the parent to becoming a zombie. */
    method Exit(c: nat, init: nat)
      requires c < proc.Length
      modifies proc
      ensures proc[..] == ExitTable(old(proc[..]), c, init)
    {
      hide Moving, Reparent;
      if proc[c].parent.Some? {
        Wakeup(OnProc(proc[c].parent.value));
      }
      ghost var t := proc[..];
      MovingEnds(t, c, init);
      var i := 0;
      while i < proc.Length
        invariant 0 <= i <= proc.Length
        invariant proc[..] == Moving(t, c, init, i)
      {
        MovingStep(t, c, init, i);
        if proc[i].parent == Some(c) {
          proc[i] := proc[i].(parent := Some(init));
          if proc[i].state == ZOMBIE {
            Wakeup(OnProc(init));
          }
        }
        i := i + 1;
      }
      proc[c] := proc[c].(state := ZOMBIE);
    }

    /** One pass of wait(): reap the first zombie child, give up without children or if killed, or go to sleep. */
    method Wait(c: nat) returns (r: Scan, ghost k: nat)
      requires c < proc.Length
      modifies proc
      ensures r.Reaped? ==>
                && FirstZombie(old(proc[..]), k, c) && r.pid == old(proc[..])[k].pid
                && proc[..] == old(proc[..])[k := Proc(UNUSED, 0, None, old(proc[..])[k].chan, false)]
      ensures !r.Reaped? ==> unchanged(proc) && !HasZombie(proc[..], c)
      ensures r == MustSleep <==> !r.Reaped? && !proc[c].killed && exists i :: 0 <= i < proc.Length && IsChild(proc[..], i, c)
    {
      k := 0;
      var havekids := false;
      var i := 0;
      while i < proc.Length
        invariant 0 <= i <= proc.Length && unchanged(proc)
        invariant forall j :: 0 <= j < i ==> !ZombieOf(proc[..], j, c)
        invariant havekids <==> exists j :: 0 <= j < i && IsChild(proc[..], j, c)
      {
        if proc[i].parent == Some(c) {
          assert IsChild(proc[..], i, c);
          havekids := true;
          if proc[i].state == ZOMBIE {
            k := i;
            var pid := proc[i].pid;
            proc[i] := Proc(UNUSED, 0, None, proc[i].chan, false);
            return Reaped(pid), k;
          }
        }
        i := i + 1;
      }
      r := if !havekids || proc[c].killed then GiveUp else MustSleep;
    }

    /** kill: mark the first slot with the pid, whatever its state, and wake it. */
    method Kill(pid: nat) returns (r: Option<nat>)
      modifies proc
      ensures r.None? ==> unchanged(proc) && forall i :: 0 <= i < proc.Length ==> proc[i].pid != pid
      ensures r.Some? ==>
                && FirstWithPid(old(proc[..]), pid, r.value)
                && var p := old(proc[..])[r.value];
                   proc[..] == old(proc[..])[r.value := p.(killed := true, state := if p.state == SLEEPING then RUNNABLE else p.state)]
    {
      var i := 0;
      while i < proc.Length
        invariant 0 <= i <= proc.Length && unchanged(proc)
        invariant forall j :: 0 <= j < i ==> proc[j].pid != pid
      {
        if proc[i].pid == pid {
          proc[i] := proc[i].(killed := true);
          if proc[i].state == SLEEPING {
            proc[i] := proc[i].(state := RUNNABLE);
          }
          return Some(i);
        }
        i := i + 1;
      }
      r := None;
    }
  }
}
