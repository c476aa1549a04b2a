/**
 What the monitor of can_verify.c says about any stream: messages of the generator, of which some were
 lost, and error messages of the driver among them.
 */
module Monitor {
  import opened Words
  import opened CanTypes
  import opened Traffic

  /** What one message read stands for. */
  datatype Item = Error | Number(n: nat)

  predicate ShowsItem(ext: bool, m: Msg, x: Item) {
    if x.Error? then m.id == ERROR_ID else Shows(ext, m, x.n)
  }

  predicate ShowsItems(ext: bool, ms: seq<Msg>, xs: seq<Item>) {
    |ms| == |xs| && forall k :: 0 <= k < |ms| ==> ShowsItem(ext, ms[k], xs[k])
  }

  // ---------------------------------------------------------------- how many identifiers are reported

  /** The identifier that the monitor awaits next: after an error message it starts again at 0. */
  function Awaited(ext: bool, xs: seq<Item>): (id: nat)
    ensures id < Cycle(ext)
  {
    if xs == [] || xs[|xs| - 1].Error? then 0 else (xs[|xs| - 1].n + 1) % Cycle(ext)
  }

  /** The error messages, and the messages whose identifier is not awaited. */
  function Complaints(ext: bool, xs: seq<Item>): nat {
    if xs == [] then 0
    else
      var x, before := xs[|xs| - 1], xs[..|xs| - 1];
      Complaints(ext, before) + (if x.Error? || x.n % Cycle(ext) != Awaited(ext, before) then 1 else 0)
  }

  lemma ErrorIsReported(ext: bool, c: Check, m: Msg)
    requires m.id == ERROR_ID && c.id < Cycle(ext)
    ensures Verified(ext, c, m).id == 0 && Verified(ext, c, m).errs == c.errs + 1
  {
  }

  lemma OneMoreItem(ext: bool, c: Check, m: Msg, x: Item)
    requires ShowsItem(ext, m, x) && c.id < Cycle(ext)
    ensures Verified(ext, c, m).id == if x.Error? then 0 else (x.n + 1) % Cycle(ext)
    ensures Verified(ext, c, m).errs == if !x.Error? && x.n % Cycle(ext) == c.id then c.errs else c.errs + 1
  {
    hide Verified;
    if x.Error? {
      ErrorIsReported(ext, c, m);
    } else {
      ShownData(ext, m, x.n);
      IdOfVerified(ext, c, m);
      NextPosition(ext, x.n);
    }
  }

  /** `errs` is exact for every stream. */
  lemma {:induction false} ErrsCountComplaints(ext: bool, ms: seq<Msg>, xs: seq<Item>)
    requires ShowsItems(ext, ms, xs)
    ensures VerifiedAll(ext, START, ms).id == Awaited(ext, xs)
    ensures VerifiedAll(ext, START, ms).errs == Complaints(ext, xs)
    decreases |ms|
  {
    hide Verified, ShowsItem;
    if ms != [] {
      var n := |ms| - 1;
      ErrsCountComplaints(ext, ms[..n], xs[..n]);
      OneMoreItem(ext, VerifiedAll(ext, START, ms[..n]), ms[n], xs[n]);
    }
  }

  // ---------------------------------------------------------------- when the monitor is silent

  predicate Silent(c: Check) {
    c.errs == 0 && c.lengths == 0 && c.datas == 0
  }

  /** Message number `n` passes for number `k`: identifier, length and the data that are compared agree. */
  predicate Passes(ext: bool, n: nat, k: nat) {
    && n % Cycle(ext) == k % Cycle(ext)
    && n % SEQN == k % SEQN
    && (k % SEQN in {1, 2, 4, 8} ==> (n / SEQN) % Pow256(k % SEQN) == (k / SEQN) % Pow256(k % SEQN))
  }

  /** Only a loss of whole identifier cycles can pass. */
  lemma PassingNeedsWholeCycles(ext: bool, n: nat, k: nat)
    requires k <= n && Passes(ext, n, k)
    ensures (n - k) % Cycle(ext) == 0
    ensures n > k ==> n - k >= Cycle(ext)
  {
    GapIsSeen(ext, k, n);
  }

  /** What the data test says about a message of round `a` when round `b` is awaited. */
  lemma DataTestIsExact(a: nat, b: nat, length: nat, data: seq<Byte>)
    requires |data| == 8 && length < SEQN && data[..length] == LeBytes(a, length)
    ensures DataMatches(b % TWO64, length, data) <==> (length in {1, 2, 4, 8} ==> a % Pow256(length) == b % Pow256(length))
  {
    Pow256Values();
    LeRoundTrip(a, length);
    if length == 1 {
      assert LeBytes(a, 1) == [a % 256] && data[0] == data[..1][0];
      ModOfMod(b, 0x100, 0x100_0000_0000_0000);
    } else if length == 2 {
      ModOfMod(b, 0x1_0000, 0x1_0000_0000_0000);
    } else if length == 4 {
      ModOfMod(b, 0x1_0000_0000, 0x1_0000_0000);
    }
  }

  lemma OneMoreIsSilent(ext: bool, m: Msg, n: nat, k: nat)
    requires Shows(ext, m, n)
    ensures var c := Verified(ext, Expecting(ext, k), m);
            && (Silent(c) <==> Passes(ext, n, k))
            && (Silent(c) ==> c == Expecting(ext, k + 1))
  {
    ShownData(ext, m, n);
    DataTestIsExact(n / SEQN, k / SEQN, m.length, m.data);
    NextPosition(ext, k);
    hide Pow256, LeBytes, DataMatches, Shows;
    var c := Verified(ext, Expecting(ext, k), m);
    if Silent(c) { assert m.id == k % Cycle(ext) && m.length == k % SEQN; }
  }

  /** Complaints are never taken back. */
  lemma ComplaintsStay(ext: bool, c: Check, m: Msg)
    requires !Silent(c)
    ensures !Silent(Verified(ext, c, m))
  {
  }

  /** The monitor is silent exactly if there is no error message and every message passes for its place. */
  lemma {:induction false} SilentExactly(ext: bool, ms: seq<Msg>, xs: seq<Item>)
    requires ShowsItems(ext, ms, xs)
    ensures Silent(VerifiedAll(ext, START, ms)) <==>
              forall k :: 0 <= k < |xs| ==> xs[k].Number? && Passes(ext, xs[k].n, k)
    ensures Silent(VerifiedAll(ext, START, ms)) ==> VerifiedAll(ext, START, ms) == Expecting(ext, |ms|)
    decreases |ms|
  {
    hide Verified, Passes, Shows;
    if ms != [] {
      var n := |ms| - 1;
      SilentExactly(ext, ms[..n], xs[..n]);
      var c := VerifiedAll(ext, START, ms[..n]);
      if !Silent(c) {
        ComplaintsStay(ext, c, ms[n]);
      } else if xs[n].Error? {
        ErrorIsNotSilent(ext, n, ms[n]);
      } else {
        OneMoreIsSilent(ext, ms[n], xs[n].n, n);
      }
    }
  }

  lemma ErrorIsNotSilent(ext: bool, k: nat, m: Msg)
    requires m.id == ERROR_ID
    ensures !Silent(Verified(ext, Expecting(ext, k), m))
  {
    ErrorIsReported(ext, Expecting(ext, k), m);
  }
}
