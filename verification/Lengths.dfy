/**
 What the monitor of can_verify.c says about lengths and data after messages were lost.  It waits for the
 message whose length it awaits, and then its round counter is behind that of the generator.
 */
module Lengths {
  import opened Words
  import opened CanTypes
  import opened Traffic
  import opened Monitor

  // ---------------------------------------------------------------- places

  /**
   The message at `place` `p`: only one of length `p % 9` takes it, and then it is looked at for its data;
   any other is reported for its length, and nothing moves.
   */
  lemma OneMoreLength(ext: bool, c: Check, m: Msg, p: nat)
    requires c.iseq == p % 9 && c.count == (p / 9) % TWO64
    ensures var d := Verified(ext, c, m);
            if m.length == p % 9 then
              && d.iseq == (p + 1) % 9 && d.count == ((p + 1) / 9) % TWO64 && d.lengths == c.lengths
              && d.datas == c.datas + One(!DataMatches(c.count, m.length, m.data))
            else
              d.iseq == c.iseq && d.count == c.count && d.lengths == c.lengths + 1 && d.datas == c.datas
  {
    NextPosition(ext, p);
  }

  /** For any messages: those not reported for their length have taken the places in order. */
  lemma {:induction false} PlaceIsExact(ext: bool, ms: seq<Msg>)
    ensures var c := VerifiedAll(ext, START, ms);
            c.lengths <= |ms| && c.iseq == (|ms| - c.lengths) % 9 && c.count == ((|ms| - c.lengths) / 9) % TWO64
    decreases |ms|
  {
    hide Verified;
    if ms != [] {
      var n := |ms| - 1;
      PlaceIsExact(ext, ms[..n]);
      var c := VerifiedAll(ext, START, ms[..n]);
      OneMoreLength(ext, c, ms[n], n - c.lengths);
    }
  }

  // ---------------------------------------------------------------- on numbers of messages

  /** The length of message number `n`, and the one awaited at place `n`. */
  function LengthOf(n: nat): nat { n % 9 }

  /** How many of the messages with these numbers are reported for their length. */
  function WrongLengths(ns: seq<nat>): (w: nat)
    ensures w <= |ns|
  {
    if ns == [] then 0
    else
      var k := |ns| - 1;
      var w := WrongLengths(ns[..k]);
      if LengthOf(ns[k]) == LengthOf(k - w) then w else w + 1
  }

  /** The places taken. */
  function Place(ns: seq<nat>): nat { |ns| - WrongLengths(ns) }

  /** Message number `n` shows its round in as many bytes as it has; another round is seen at place `p`. */
  predicate OtherRound(n: nat, p: nat) {
    n % 9 in {1, 2, 4, 8} && (n / 9) % Pow256(n % 9) != (p / 9) % Pow256(n % 9)
  }

  /** How many are reported for their data. */
  function WrongData(ns: seq<nat>): nat {
    if ns == [] then 0
    else
      var k := |ns| - 1;
      var p := Place(ns[..k]);
      WrongData(ns[..k]) + One(LengthOf(ns[k]) == LengthOf(p) && OtherRound(ns[k], p))
  }

  lemma OneMoreNumber(ext: bool, c: Check, m: Msg, n: nat, p: nat)
    requires Shows(ext, m, n) && c.iseq == p % 9 && c.count == (p / 9) % TWO64
    ensures var d := Verified(ext, c, m);
            && d.lengths == c.lengths + One(LengthOf(n) != LengthOf(p))
            && d.datas == c.datas + One(LengthOf(n) == LengthOf(p) && OtherRound(n, p))
  {
    ShownData(ext, m, n);
    OneMoreLength(ext, c, m, p);
    DataTestIsExact(n / 9, p / 9, m.length, m.data);
    hide Verified, Pow256, DataMatches, LeBytes, Shows;
  }

  /** The monitor's counts are these, whatever was lost. */
  lemma {:induction false} CountsAreExact(ext: bool, ms: seq<Msg>, ns: seq<nat>)
    requires ShowsAll(ext, ms, ns)
    ensures var c := VerifiedAll(ext, START, ms); c.lengths == WrongLengths(ns) && c.datas == WrongData(ns)
    decreases |ms|
  {
    hide Verified, Shows, OtherRound, WrongLengths, WrongData, LengthOf;
    if ms == [] {
      NothingCounted();
    } else {
      var n := |ms| - 1;
      CountsAreExact(ext, ms[..n], ns[..n]);
      PlaceIsExact(ext, ms[..n]);
      LastCounted(ns);
      assert Shows(ext, ms[n], ns[n]);
      OneMoreNumber(ext, VerifiedAll(ext, START, ms[..n]), ms[n], ns[n], Place(ns[..n]));
    }
  }

  lemma NothingCounted()
    ensures WrongLengths([]) == 0 && WrongData([]) == 0
  {
  }

  lemma LastCounted(ns: seq<nat>)
    requires ns != []
    ensures var k := |ns| - 1;
            var p := Place(ns[..k]);
            && WrongLengths(ns) == WrongLengths(ns[..k]) + One(LengthOf(ns[k]) != LengthOf(p))
            && WrongData(ns) == WrongData(ns[..k]) + One(LengthOf(ns[k]) == LengthOf(p) && OtherRound(ns[k], p))
  {
    hide LengthOf, OtherRound;
  }

  // ---------------------------------------------------------------- one gap

  /** The awaited length is that of the generator's next message. */
  predicate Settled(ns: seq<nat>) { LengthOf(Place(ns)) == LengthOf(After(ns)) }

  /** `count` messages in a row. */
  function Row(from: nat, count: nat): (r: seq<nat>)
    ensures |r| == count
  {
    seq(count, i requires 0 <= i => from + i)
  }

  /** Messages reported for their length after a gap. */
  function Skipped(gap: nat): nat { (9 - gap % 9) % 9 }

  /** Rounds that the monitor falls behind by it. */
  function FallsBehind(gap: nat): nat { (gap + 8) / 9 }

  lemma OneMoreInRow(ns: seq<nat>, from: nat, b: nat)
    ensures ns + Row(from, b + 1) == ns + Row(from, b) + [from + b]
  {
  }

  lemma OneMoreCounted(ns: seq<nat>, n: nat)
    ensures var s := ns + [n];
            WrongLengths(s) == WrongLengths(ns) + One(LengthOf(n) != LengthOf(Place(ns))) && After(s) == n + 1
  {
    assert (ns + [n])[..|ns|] == ns;
  }

  /**
   From a settled state, a gap and then a row of messages: the first ones are reported for their length,
   as many as are missing to a whole number of rounds, and no other.  With so many the state is settled.
   */
  lemma {:induction false} LengthsAfterGap(ns: seq<nat>, gap: nat, b: nat)
    requires Settled(ns)
    ensures var run := ns + Row(After(ns) + gap, b);
            && WrongLengths(run) == WrongLengths(ns) + Min(b, Skipped(gap))
            && (b > 0 && b >= Skipped(gap) ==> Settled(run))
    decreases b
  {
    hide WrongLengths, LengthOf, Skipped, After;
    var from := After(ns) + gap;
    if b == 0 {
      assert ns + Row(from, 0) == ns;
    } else {
      LengthsAfterGap(ns, gap, b - 1);
      OneMoreInRow(ns, from, b - 1);
      OneMoreOfRow(ns, gap, b, ns + Row(from, b - 1));
    }
  }

  lemma OneMoreOfRow(ns: seq<nat>, gap: nat, b: nat, before: seq<nat>)
    requires Settled(ns) && b > 0 && |before| == |ns| + b - 1
    requires WrongLengths(before) == WrongLengths(ns) + Min(b - 1, Skipped(gap))
    ensures var run := before + [After(ns) + gap + b - 1];
            && WrongLengths(run) == WrongLengths(ns) + Min(b, Skipped(gap))
            && (b >= Skipped(gap) ==> Settled(run))
  {
    hide WrongLengths, After, Skipped, LengthOf;
    OneMoreCounted(before, After(ns) + gap + b - 1);
    NextOfRow(Place(ns), After(ns), gap, b - 1);
    NextOfRow(Place(ns), After(ns), gap, b);
  }

  lemma NextOfRow(p: nat, a: nat, gap: nat, b: nat)
    requires LengthOf(p) == LengthOf(a)
    ensures LengthOf(a + gap + b) == LengthOf(p + b - Min(b, Skipped(gap))) <==> b >= Skipped(gap)
  {
    var u, v, q, r := a / 9, p / 9, gap / 9, gap % 9;
    assert a == 9 * u + a % 9 && p == 9 * v + p % 9 && gap == 9 * q + r;
    if b >= Skipped(gap) {
      Nines(a + gap + b, p + b - Skipped(gap), u - v + q + One(r > 0), 0);
    } else {
      Nines(a + gap + b, p, u - v + q, r + b);
    }
  }

  lemma Nines(y: nat, x: nat, q: int, e: nat)
    requires e < 9 && y == x + 9 * q + e
    ensures LengthOf(y) == LengthOf(x) <==> e == 0
  {
    var f := x % 9 + e;
    assert y == 9 * (x / 9 + q + f / 9) + f % 9;
    DivModUnique(y, 9, x / 9 + q + f / 9, f % 9);
  }

  // ---------------------------------------------------------------- any gaps

  /** `gap` messages lost, and then `row` messages that were not. */
  datatype Loss = Loss(gap: nat, row: nat)

  /** The numbers of the messages that are left. */
  function Left(ls: seq<Loss>): seq<nat> {
    if ls == [] then []
    else
      var before, l := Left(ls[..|ls| - 1]), ls[|ls| - 1];
      before + Row(After(before) + l.gap, l.row)
  }

  predicate EnoughAfter(ls: seq<Loss>) {
    forall k :: 0 <= k < |ls| ==> ls[k].row > 0 && ls[k].row >= Skipped(ls[k].gap)
  }

  function AllSkipped(ls: seq<Loss>): nat {
    if ls == [] then 0 else AllSkipped(ls[..|ls| - 1]) + Skipped(ls[|ls| - 1].gap)
  }

  function AllBehind(ls: seq<Loss>): nat {
    if ls == [] then 0 else AllBehind(ls[..|ls| - 1]) + FallsBehind(ls[|ls| - 1].gap)
  }

  /**
   After any gaps, each with enough messages behind it: every gap has cost the lengths that are missing to
   whole rounds and no more; the awaited length is that of the next message; and the monitor is behind by
   the rounds that were lost in whole or in part.
   */
  lemma {:induction false} LengthsAfterGaps(ls: seq<Loss>)
    requires EnoughAfter(ls)
    ensures var ns := Left(ls);
            && WrongLengths(ns) == AllSkipped(ls) && Settled(ns)
            && After(ns) == Place(ns) + 9 * AllBehind(ls)
    decreases |ls|
  {
    hide WrongLengths, Row, After, Skipped, FallsBehind, LengthOf;
    if ls == [] {
      NoGap();
    } else {
      var k := |ls| - 1;
      LengthsAfterGaps(ls[..k]);
      OneMoreGap(Left(ls[..k]), ls[k].gap, ls[k].row);
      RoundsOfGap(ls[k].gap);
    }
  }

  lemma NoGap()
    ensures WrongLengths([]) == 0 && After([]) == 0
  {
  }

  lemma OneMoreGap(ns: seq<nat>, gap: nat, b: nat)
    requires Settled(ns) && b > 0 && b >= Skipped(gap)
    ensures var run := ns + Row(After(ns) + gap, b);
            && WrongLengths(run) == WrongLengths(ns) + Skipped(gap) && Settled(run)
            && After(run) == After(ns) + gap + b && |run| == |ns| + b
  {
    hide WrongLengths, Skipped, LengthOf, Settled;
    LengthsAfterGap(ns, gap, b);
  }

  lemma RoundsOfGap(gap: nat)
    ensures gap + Skipped(gap) == 9 * FallsBehind(gap)
  {
  }

  /**
   And then, until something else is lost, a message is reported for its data exactly if it has some that
   are compared and the rounds behind do not vanish in them.
   */
  lemma DataAfterGaps(ls: seq<Loss>)
    requires EnoughAfter(ls)
    ensures var ns := Left(ls);
            var n := After(ns);
            && WrongLengths(ns + [n]) == WrongLengths(ns)
            && WrongData(ns + [n]) == WrongData(ns) + One(n % 9 in {1, 2, 4, 8} && AllBehind(ls) % Pow256(n % 9) != 0)
  {
    LengthsAfterGaps(ls);
    var ns := Left(ls);
    var n, p := After(ns), Place(ns);
    assert (ns + [n])[..|ns|] == ns;
    SameRoundExactly(n, p, AllBehind(ls));
  }

  /** What the monitor has counted and awaits next, when it has read what is left of the stream. */
  lemma MonitorAfterGaps(ext: bool, ms: seq<Msg>, ls: seq<Loss>)
    requires EnoughAfter(ls) && ShowsAll(ext, ms, Left(ls))
    ensures var c, n := VerifiedAll(ext, START, ms), After(Left(ls));
            && c.lengths == AllSkipped(ls) && c.iseq == n % 9
            && n / 9 >= AllBehind(ls) && c.count == (n / 9 - AllBehind(ls)) % TWO64
  {
    hide WrongLengths, WrongData, AllSkipped, AllBehind, VerifiedAll, Left, After, Settled;
    CountsAreExact(ext, ms, Left(ls));
    PlaceIsExact(ext, ms);
    LengthsAfterGaps(ls);
    BehindByRounds(After(Left(ls)), Place(Left(ls)), AllBehind(ls));
  }

  lemma BehindByRounds(n: nat, p: nat, k: nat)
    requires n == p + 9 * k
    ensures n / 9 >= k && p / 9 == n / 9 - k && p % 9 == n % 9
  {
  }

  lemma SameRoundExactly(n: nat, p: nat, behind: nat)
    requires n == p + 9 * behind
    ensures OtherRound(n, p) <==> n % 9 in {1, 2, 4, 8} && behind % Pow256(n % 9) != 0
  {
    assert n / 9 == p / 9 + behind;
    var f := Pow256(n % 9);
    SameModuloExactly(f, p / 9, p / 9 + behind);
  }
}
