/**
 The static timer table of linux_2.6.c: one high-resolution timer for each device that ever delayed a
 message, taken from the table at the first delay and kept.
 */
module Timers {
  import opened Words
  import opened CanTypes

  const NULL: int := -1

  /** Timers handed out. */
  function Used(handles: seq<int>): nat {
    if handles == [] then 0 else Used(handles[..|handles| - 1]) + One(handles[|handles| - 1] != NULL)
  }

  lemma {:induction false} FewerUsed(handles: seq<int>, d: nat)
    requires d < |handles| && handles[d] == NULL
    ensures Used(handles) < |handles|
  {
    var n := |handles| - 1;
    if d < n { FewerUsed(handles[..n], d); } else { UsedAtMost(handles[..n]); }
  }

  lemma {:induction false} UsedAtMost(handles: seq<int>)
    ensures Used(handles) <= |handles|
  {
    if handles != [] { UsedAtMost(handles[..|handles| - 1]); }
  }

  lemma {:induction false} OneMoreUsed(handles: seq<int>, d: nat, h: int)
    requires d < |handles| && handles[d] == NULL && h != NULL
    ensures Used(handles[d := h]) == Used(handles) + 1
  {
    var n := |handles| - 1;
    if d < n {
      OneMoreUsed(handles[..n], d, h);
      assert handles[d := h][..n] == handles[..n][d := h];
    } else {
      assert handles[d := h][..n] == handles[..n];
    }
  }

  /** `ktime_set(0, usec*1000)`: the product is a C `int`. */
  function Nanoseconds(usec: int): int {
    ToInt32(usec * 1000)
  }

  /** The timer waits as long as it is told exactly up to 2.147483 seconds. */
  lemma WaitIsExact(usec: int)
    requires 0 < usec < TWO31
    ensures Nanoseconds(usec) == usec * 1000 <==> usec <= 2147483
  {
  }

  /**
   The time in nanoseconds until a timer started with that delay runs out.  `ktime_set` takes an `unsigned
   long`: with 64 bits a negative product is a time in the past, with 32 bits a large positive one.
   */
  function Elapsing(usec: int, long64: bool): nat {
    var n := Nanoseconds(usec);
    if n >= 0 then n else if long64 then 0 else n + TWO32
  }

  /** The longest wait in microseconds that the timer keeps. */
  function Longest(long64: bool): int { if long64 then 2147483 else 4294967 }

  /** It keeps exactly the waits up to that; a longer one ends far too early. */
  lemma ElapsingIsExact(usec: int, long64: bool)
    requires 0 < usec < TWO31
    ensures Elapsing(usec, long64) == usec * 1000 <==> usec <= Longest(long64)
    ensures usec > Longest(long64) ==> Elapsing(usec, long64) <= (usec - 2) * 1000
  {
  }

  class Table {
    const handles: array<int>     // delayedwork of each device
    const data: array<int>        // the device that each timer works for
    const expiry: array<int>      // nanoseconds that each timer was last started with
    var idly: nat

    /** Each device that has a timer has its own, and the table has a timer for every device. */
    ghost predicate Valid()
      reads this, handles, data, expiry
    {
      && handles.Length == MAX_CHANNELS && data.Length == MAX_CHANNELS && expiry.Length == MAX_CHANNELS
      && handles != data && handles != expiry && data != expiry
      && idly == Used(handles[..])
      && (forall d :: 0 <= d < MAX_CHANNELS && handles[d] != NULL ==>
            0 <= handles[d] < idly <= MAX_CHANNELS && data[handles[d]] == d)
    }

    constructor ()
      ensures Valid() && fresh(handles) && fresh(data) && fresh(expiry)
      ensures forall d :: 0 <= d < MAX_CHANNELS ==> handles[d] == NULL
    {
      handles := new int[MAX_CHANNELS](_ => NULL);
      data := new int[MAX_CHANNELS](_ => 0);
      expiry := new int[MAX_CHANNELS](_ => 0);
      idly := 0;
      new;
      NoneUsed(handles[..]);
    }

    /** No two devices have the same timer. */
    lemma TimersAreApart(d: nat, e: nat)
      requires Valid() && d < e < MAX_CHANNELS && handles[d] != NULL && handles[e] != NULL
      ensures handles[d] != handles[e]
    {
      assert data[handles[d]] == d;
    }

    /** `kapi_schedule_delayed`, without interference: the branch that is out of timers is never taken. */
    method ScheduleDelayed(d: nat, usec: int) returns (started: bool)
      requires Valid() && d < MAX_CHANNELS
      modifies this, handles, data, expiry
      ensures Valid() && started && handles[d] != NULL
      ensures forall e :: 0 <= e < MAX_CHANNELS && (e != d || old(handles[d]) != NULL) ==> handles[e] == old(handles[e])
      ensures expiry[handles[d]] == Nanoseconds(usec)
      ensures forall e :: 0 <= e < MAX_CHANNELS && e != d && handles[e] != NULL ==>
                expiry[handles[e]] == old(expiry[handles[e]])
    {
      if handles[d] == NULL {
        FewerUsed(handles[..], d);
        if idly == MAX_CHANNELS {
          return false;
        }
        OneMoreUsed(handles[..], d, idly);
        handles[d] := idly;
        assert handles[..] == old(handles[..])[d := idly];
        idly := idly + 1;
      }
      var k := handles[d];
      data[k] := d;
      expiry[k] := Nanoseconds(usec);
      started := true;
    }

    /** `dlyworker`: the work is done for the device whose timer it is. */
    method Fire(d: nat) returns (dev: int)
      requires Valid() && d < MAX_CHANNELS && handles[d] != NULL
      ensures dev == d
    {
      dev := data[handles[d]];
    }
  }

  lemma {:induction false} NoneUsed(handles: seq<int>)
    requires forall d :: 0 <= d < |handles| ==> handles[d] == NULL
    ensures Used(handles) == 0
  {
    if handles != [] { NoneUsed(handles[..|handles| - 1]); }
  }

  // ---------------------------------------------------------------- several devices at once

  /** A device taking its timer: it points at entry `idly`, and then counts `idly` up. */
  datatype Taking = Before | Pointing(entry: nat) | After(entry: nat)

  /** `owners` says for which device each timer was last started. */
  datatype Shared = Shared(idly: nat, devices: seq<Taking>, owners: map<nat, nat>)

  /** One step of device `d` in `kapi_schedule_delayed`; once it has its entry, it starts the timer. */
  function Turn(s: Shared, d: nat): (s': Shared)
    requires d < |s.devices|
    ensures |s'.devices| == |s.devices|
  {
    match s.devices[d]
    case Before => s.(devices := s.devices[d := Pointing(s.idly)])
    case Pointing(entry) => s.(devices := s.devices[d := After(entry)], idly := s.idly + 1)
    case After(entry) => s.(owners := s.owners[entry := d])
  }

  predicate AreDevices(n: nat, ds: seq<nat>) {
    forall k :: 0 <= k < |ds| ==> ds[k] < n
  }

  /** The devices take turns as `ds` says. */
  function Turns(s: Shared, ds: seq<nat>): (s': Shared)
    requires AreDevices(|s.devices|, ds)
    ensures |s'.devices| == |s.devices|
  {
    if ds == [] then s else Turn(Turns(s, ds[..|ds| - 1]), ds[|ds| - 1])
  }

  /** Where device `d` first takes a turn, or the length. */
  function First(ds: seq<nat>, d: nat): (k: nat)
    ensures k <= |ds| && (k < |ds| ==> ds[k] == d) && d !in ds[..k]
  {
    if ds == [] then 0
    else
      var k := First(ds[..|ds| - 1], d);
      assert ds[..|ds| - 1][..k] == ds[..k];
      if k < |ds| - 1 || ds[k] == d then k else k + 1
  }

  /** A device keeps the entry that was next when it first looked. */
  lemma {:induction false} EntryOfFirstLook(s: Shared, ds: seq<nat>, d: nat)
    requires AreDevices(|s.devices|, ds) && d < |s.devices| && s.devices[d].Before?
    ensures var t := Turns(s, ds).devices[d];
            if d in ds then !t.Before? && t.entry == Turns(s, ds[..First(ds, d)]).idly else t.Before?
    decreases |ds|
  {
    if ds != [] {
      var n, k := |ds| - 1, First(ds, d);
      EntryOfFirstLook(s, ds[..n], d);
      assert d in ds <==> d in ds[..n] || d == ds[n];
      if d in ds[..n] { assert ds[..n][..First(ds[..n], d)] == ds[..First(ds[..n], d)]; }
    }
  }

  /** The turn number `k` counts `idly` up. */
  predicate CountsUp(s: Shared, ds: seq<nat>, k: nat)
    requires AreDevices(|s.devices|, ds) && k < |ds|
  {
    Turns(s, ds[..k]).devices[ds[k]].Pointing?
  }

  lemma {:induction false} IdlyBetween(s: Shared, ds: seq<nat>, i: nat, j: nat)
    requires AreDevices(|s.devices|, ds) && i <= j <= |ds|
    ensures Turns(s, ds[..i]).idly <= Turns(s, ds[..j]).idly
    ensures Turns(s, ds[..i]).idly == Turns(s, ds[..j]).idly <==> forall k :: i <= k < j ==> !CountsUp(s, ds, k)
    decreases j
  {
    if i < j {
      IdlyBetween(s, ds, i, j - 1);
      assert ds[..j][..j - 1] == ds[..j - 1];
      assert CountsUp(s, ds, j - 1) <==> Turns(s, ds[..j]).idly == Turns(s, ds[..j - 1]).idly + 1;
    }
  }

  /**
   The table itself is not protected: of any number of devices, two end up with one timer exactly if
   nobody has counted up between their first looks.
   */
  lemma SharedExactlyIfInterleaved(s: Shared, ds: seq<nat>, d: nat, e: nat)
    requires AreDevices(|s.devices|, ds) && d < |s.devices| && e < |s.devices| && d in ds && e in ds
    requires s.devices[d].Before? && s.devices[e].Before? && First(ds, d) < First(ds, e)
    ensures var end := Turns(s, ds);
            && !end.devices[d].Before? && !end.devices[e].Before?
            && (end.devices[d].entry == end.devices[e].entry <==>
                  forall k :: First(ds, d) <= k < First(ds, e) ==> !CountsUp(s, ds, k))
  {
    EntryOfFirstLook(s, ds, d);
    EntryOfFirstLook(s, ds, e);
    IdlyBetween(s, ds, First(ds, d), First(ds, e));
  }

  /** Entries that have been counted are behind `idly`. */
  predicate Counted(s: Shared) {
    forall d :: 0 <= d < |s.devices| && s.devices[d].After? ==> s.devices[d].entry < s.idly
  }

  lemma {:induction false} TurnsKeepCounted(s: Shared, ds: seq<nat>)
    requires AreDevices(|s.devices|, ds) && forall d :: 0 <= d < |s.devices| ==> s.devices[d].Before?
    ensures var end := Turns(s, ds);
            Counted(end) && forall d :: 0 <= d < |end.devices| && end.devices[d].Pointing? ==> end.devices[d].entry <= end.idly
    decreases |ds|
  {
    if ds != [] { TurnsKeepCounted(s, ds[..|ds| - 1]); }
  }

  /** Another device has the same entry as device `d`. */
  predicate Crowded(s: Shared, d: nat)
    requires d < |s.devices| && !s.devices[d].Before?
  {
    exists e :: 0 <= e < |s.devices| && e != d && !s.devices[e].Before? && s.devices[e].entry == s.devices[d].entry
  }

  /** Device `d` has started its timer, and nobody has taken it away since. */
  predicate HasTimer(s: Shared, d: nat)
    requires d < |s.devices|
  {
    s.devices[d].After? && s.devices[d].entry in s.owners && s.owners[s.devices[d].entry] == d
  }

  lemma {:induction false} AloneKeepsTimer(s: Shared, d: nat, ds: seq<nat>)
    requires AreDevices(|s.devices|, ds) && d < |s.devices| && Counted(s) && HasTimer(s, d) && !Crowded(s, d)
    ensures HasTimer(Turns(s, ds), d)
    ensures var end := Turns(s, ds); end.devices[d] == s.devices[d] && end.idly >= s.idly && !Crowded(end, d)
    decreases |ds|
  {
    if ds != [] {
      var n := |ds| - 1;
      AloneKeepsTimer(s, d, ds[..n]);
      var t, e := Turns(s, ds[..n]), ds[n];
      var end := Turn(t, e);
      forall x | 0 <= x < |end.devices| && x != d && !end.devices[x].Before? ensures end.devices[x].entry != end.devices[d].entry {
        if x != e || !t.devices[x].Before? { assert end.devices[x].entry == t.devices[x].entry; }
      }
    }
  }

  /** Whatever the devices do next, a device keeps the timer it has started exactly if no other has its entry. */
  lemma TimerIsKeptExactlyUnlessCrowded(s: Shared, d: nat)
    requires d < |s.devices| && Counted(s) && HasTimer(s, d)
    ensures (forall ds: seq<nat> | AreDevices(|s.devices|, ds) :: HasTimer(Turns(s, ds), d)) <==> !Crowded(s, d)
  {
    if Crowded(s, d) {
      var e :| 0 <= e < |s.devices| && e != d && !s.devices[e].Before? && s.devices[e].entry == s.devices[d].entry;
      var ds: seq<nat> := if s.devices[e].After? then [e] else [e, e];
      OneOrTwoTurns(s, e);
      assert AreDevices(|s.devices|, ds) && !HasTimer(Turns(s, ds), d);
    } else {
      forall ds: seq<nat> | AreDevices(|s.devices|, ds) ensures HasTimer(Turns(s, ds), d) {
        AloneKeepsTimer(s, d, ds);
      }
    }
  }

  lemma OneOrTwoTurns(s: Shared, e: nat)
    requires e < |s.devices|
    ensures Turns(s, [e]) == Turn(s, e) && Turns(s, [e, e]) == Turn(Turn(s, e), e)
  {
    assert Turns(s, []) == s && ([e])[..0] == [];
    assert Turns(s, [e]) == Turn(s, e);
    assert ([e, e])[..1] == [e];
  }
}
