/**
 The traffic generator of examples/can_send.c (test 10) and the monitor of examples/can_verify.c: two
 separately written state machines that have to agree for ever, across the wrap of the identifiers.
 */
module Traffic {
  import opened Words
  import opened CanTypes
  import opened Codec

  const SEQN: nat := 9

  /** Number of identifiers in use before they start again. */
  function Cycle(ext: bool): nat { if ext then 536870907 else 2043 }

  // ---------------------------------------------------------------- counters in memory

  /** The first `k` bytes of an integer as a little-endian machine stores it. */
  function LeBytes(n: nat, k: nat): (b: seq<Byte>)
    ensures |b| == k
  {
    if k == 0 then [] else [n % 256] + LeBytes(n / 256, k - 1)
  }

  function LeValue(b: seq<Byte>): nat {
    if b == [] then 0 else b[0] + 256 * LeValue(b[1..])
  }

  function Pow256(k: nat): (r: int)
    ensures r > 0
  {
    if k == 0 then 1 else 256 * Pow256(k - 1)
  }

  lemma {:induction false} ModBy256(n: nat, p: int)
    requires p > 0
    ensures n % (256 * p) == n % 256 + 256 * ((n / 256) % p)
  {
    var q, r := (n / 256) / p, (n / 256) % p;
    assert n == (256 * p) * q + (n % 256 + 256 * r) by {
      assert n / 256 == p * q + r;
      assert (256 * p) * q == 256 * (p * q);
    }
    DivModUnique(n, 256 * p, q, n % 256 + 256 * r);
  }

  lemma {:induction false} LeRoundTrip(n: nat, k: nat)
    ensures LeValue(LeBytes(n, k)) == n % Pow256(k)
    decreases k
  {
    if k != 0 {
      LeRoundTrip(n / 256, k - 1);
      ModBy256(n, Pow256(k - 1));
      assert LeBytes(n, k)[1..] == LeBytes(n / 256, k - 1);
    }
  }

  lemma {:induction false} LeBytesPrefix(n: nat, k: nat, j: nat)
    requires j <= k
    ensures LeBytes(n, k)[..j] == LeBytes(n, j)
    decreases k
  {
    if j != 0 {
      LeBytesPrefix(n / 256, k - 1, j - 1);
      assert LeBytes(n, k)[..j] == [n % 256] + LeBytes(n / 256, k - 1)[..j - 1];
    }
  }

  lemma {:induction false} LeBytesOfMod(n: nat, k: nat)
    ensures LeBytes(n % Pow256(k), k) == LeBytes(n, k)
    decreases k
  {
    if k != 0 {
      ModBy256(n, Pow256(k - 1));
      DivModUnique(n % Pow256(k), 256, (n / 256) % Pow256(k - 1), n % 256);
      LeBytesOfMod(n / 256, k - 1);
    }
  }

  lemma Pow256Values()
    ensures Pow256(1) == 0x100 && Pow256(2) == 0x1_0000 && Pow256(4) == 0x1_0000_0000 && Pow256(8) == TWO64
  {
    assert Pow256(4) == 256 * (256 * (256 * (256 * Pow256(0))));
    assert Pow256(8) == 256 * (256 * (256 * (256 * Pow256(4))));
  }

  // ---------------------------------------------------------------- the intended stream

  /** Message number `k`: identifiers count up through the cycle, lengths through 0 to 8, the data counts rounds. */
  function Ideal(ext: bool, k: nat): Msg {
    CanMsg(if ext then MSG_EXT else 0, 0, k % Cycle(ext), 0, 0, k % SEQN, LeBytes(k / SEQN, 8))
  }

  /** The nine messages of round `r`. */
  function Round(ext: bool, r: nat): (ms: seq<Msg>)
    ensures |ms| == SEQN
  {
    seq<Msg>(SEQN, i requires 0 <= i < SEQN => Ideal(ext, SEQN * r + i))
  }

  predicate IsIdeal(ext: bool, out: seq<Msg>) {
    forall k :: 0 <= k < |out| ==> out[k] == Ideal(ext, k)
  }

  // ---------------------------------------------------------------- can_send

  /** The identifiers of the next round, as the generator derives them from the messages of this one. */
  function Renumbered(ext: bool, ms: seq<Msg>): (r: seq<Msg>)
    requires |ms| == SEQN
    ensures |r| == SEQN
  {
    if ms[0].id > Cycle(ext) - 1 - SEQN
    then seq<Msg>(SEQN, i requires 0 <= i < SEQN => ms[i].(id := i))
    else seq<Msg>(SEQN, i requires 0 <= i < SEQN => ms[i].(id := ms[i].id + SEQN))
  }

  /** `*(unsigned long long *)p += 1` */
  function Bumped(m: Msg): Msg {
    m.(data := LeBytes((LeValue(m.data) + 1) % TWO64, 8))
  }

  function BumpedAll(ms: seq<Msg>): (r: seq<Msg>)
    ensures |r| == |ms|
  {
    seq<Msg>(|ms|, i requires 0 <= i < |ms| => Bumped(ms[i]))
  }

  lemma NextCount(r: nat, k: nat)
    ensures LeBytes(r + 1, k) == LeBytes((LeValue(LeBytes(r, k)) + 1) % Pow256(k), k)
  {
    var p := Pow256(k);
    LeRoundTrip(r, k);
    ModOfSuccessor(r, p);
    LeBytesOfMod(r + 1, k);
  }

  lemma ModOfSuccessor(r: nat, p: int)
    requires p > 0
    ensures (r % p + 1) % p == (r + 1) % p
  {
    var q, x := (r % p + 1) / p, (r % p + 1) % p;
    assert r + 1 == p * (r / p + q) + x;
    DivModUnique(r + 1, p, r / p + q, x);
  }

  lemma NextIdBy(c: nat, r: nat, i: nat)
    requires i < SEQN && c > 1
    ensures var first := (SEQN * r) % (SEQN * c);
            && (SEQN * r + i) % (SEQN * c) == first + i
            && (SEQN * (r + 1) + i) % (SEQN * c) == if first > SEQN * c - 1 - SEQN then i else first + i + SEQN
  {
    var q, x := r / c, r % c;
    assert r == c * q + x;
    assert SEQN * r == (SEQN * c) * q + SEQN * x by { assert SEQN * (c * q) == (SEQN * c) * q; }
    DivModUnique(SEQN * r, SEQN * c, q, SEQN * x);
    DivModUnique(SEQN * r + i, SEQN * c, q, SEQN * x + i);
    if x == c - 1 {
      assert (SEQN * c) * (q + 1) == (SEQN * c) * q + SEQN * c;
      DivModUnique(SEQN * (r + 1) + i, SEQN * c, q + 1, i);
    } else {
      DivModUnique(SEQN * (r + 1) + i, SEQN * c, q, SEQN * x + SEQN + i);
    }
  }

  lemma NextId(ext: bool, r: nat, i: nat)
    requires i < SEQN
    ensures var first := (SEQN * r) % Cycle(ext);
            && (SEQN * r + i) % Cycle(ext) == first + i
            && (SEQN * (r + 1) + i) % Cycle(ext)
               == if first > Cycle(ext) - 1 - SEQN then i else first + i + SEQN
  {
    NextIdBy(Cycle(ext) / SEQN, r, i);
  }

  lemma NextData(m: Msg, r: nat)
    requires m.data == LeBytes(r, 8)
    ensures Bumped(m) == m.(data := LeBytes(r + 1, 8))
  {
    Pow256Values();
    NextCount(r, 8);
  }

  lemma NextMessage(ext: bool, r: nat, i: nat)
    requires i < SEQN
    ensures var ms := Renumbered(ext, Round(ext, r)); Ideal(ext, SEQN * (r + 1) + i) == Bumped(ms[i])
  {
    NextId(ext, r, i);
    DivModUnique(SEQN * r + i, SEQN, r, i);
    DivModUnique(SEQN * (r + 1) + i, SEQN, r + 1, i);
    NextData(Renumbered(ext, Round(ext, r))[i], r);
    assert Round(ext, r)[0] == Ideal(ext, SEQN * r + 0);
  }

  /** `update_seq` leads from each round to the next, also where the identifiers start again. */
  lemma NextRound(ext: bool, r: nat)
    ensures BumpedAll(Renumbered(ext, Round(ext, r))) == Round(ext, r + 1)
  {
    var a, b := BumpedAll(Renumbered(ext, Round(ext, r))), Round(ext, r + 1);
    forall i | 0 <= i < SEQN ensures a[i] == b[i] { NextMessage(ext, r, i); }
  }

  /** The initialiser of `tm`, and then the first `n` messages flagged. */
  function Unnumbered(i: nat, flagged: bool): Msg {
    BLANK.(id := i, length := i, flags := if flagged then MSG_EXT else 0)
  }

  lemma FirstRound(ext: bool, ms: seq<Msg>)
    requires |ms| == SEQN && forall i :: 0 <= i < SEQN ==> ms[i] == Unnumbered(i, ext)
    ensures ms == Round(ext, 0)
  {
    forall i | 0 <= i < SEQN ensures ms[i] == Round(ext, 0)[i] { FirstMessage(ext, i); }
  }

  lemma FirstMessage(ext: bool, i: nat)
    requires i < SEQN
    ensures Ideal(ext, i) == Unnumbered(i, ext)
  {
    assert LeBytes(0, 8) == [0] + ([0] + ([0] + ([0] + LeBytes(0, 4))));
    assert LeBytes(0, 4) == [0] + ([0] + ([0] + ([0] + LeBytes(0, 0))));
    assert LeBytes(0, 8) == BLANK.data;
  }

  lemma PieceOfRound(ext: bool, r: nat, lo: nat, hi: nat, out: seq<Msg>)
    requires lo <= hi <= SEQN && IsIdeal(ext, out) && |out| == SEQN * r + lo
    ensures IsIdeal(ext, out + Round(ext, r)[lo..hi])
  {
    var piece := Round(ext, r)[lo..hi];
    forall k | 0 <= k < |out + piece| ensures (out + piece)[k] == Ideal(ext, k) {
      if k >= |out| {
        assert piece[k - |out|] == Round(ext, r)[lo + (k - |out|)];
        assert SEQN * r + (lo + (k - |out|)) == k;
      }
    }
  }

  /** `Failed` is the exit on an error of `write`; `Watching` means that the observation ended first. */
  datatype Outcome = Finished | Failed | Watching

  function Sum(s: seq<int>): int {
    if s == [] then 0 else Sum(s[..|s| - 1]) + s[|s| - 1]
  }

  /** What `write` answers when it is asked to take `asked` messages and finds that room. */
  function Answer(room: int, asked: nat): (ret: int)
    ensures -1 <= ret <= asked
  {
    if room < 0 then -1 else if room < asked then room else asked
  }

  lemma SumMore(rets: seq<int>, ret: int)
    ensures Sum(rets + [ret]) == Sum(rets) + ret
  {
    assert (rets + [ret])[..|rets|] == rets;
  }

  class Sender {
    const extd: bool
    const tm: array<Msg>

    /** The messages in memory are those of round `r`. */
    ghost predicate At(r: nat)
      reads tm
    {
      tm.Length == SEQN && tm[..] == Round(extd, r)
    }

    constructor (extd: bool)
      ensures At(0) && this.extd == extd && fresh(tm)
    {
      this.extd := extd;
      this.tm := new Msg[SEQN](i => if i >= 0 then Unnumbered(i, false) else BLANK);
      new;
      if extd {
        for i := 0 to SEQN
          invariant tm.Length == SEQN
          invariant forall j :: 0 <= j < SEQN ==> tm[j] == Unnumbered(j, j < i)
        {
          FlagOne(i);
          tm[i] := tm[i].(flags := BitOr(tm[i].flags, MSG_EXT));
        }
      }
      FirstRound(extd, tm[..]);
    }

    /** The first half of `update_seq`. */
    method Renumber()
      requires tm.Length == SEQN
      modifies tm
      ensures tm[..] == Renumbered(extd, old(tm[..]))
    {
      ghost var was := tm[..];
      if (extd && tm[0].id > 536870906 - SEQN) || (!extd && tm[0].id > 2042 - SEQN) {
        for i := 0 to SEQN
          invariant forall j :: 0 <= j < SEQN ==> tm[j] == if j < i then was[j].(id := j) else was[j]
        {
          tm[i] := tm[i].(id := i);
        }
      } else {
        for i := 0 to SEQN
          invariant forall j :: 0 <= j < SEQN ==> tm[j] == if j < i then was[j].(id := was[j].id + SEQN) else was[j]
        {
          tm[i] := tm[i].(id := tm[i].id + SEQN);
        }
      }
    }

    /** The second half: the counter in the data bytes. */
    method Count()
      requires tm.Length == SEQN
      modifies tm
      ensures tm[..] == BumpedAll(old(tm[..]))
    {
      ghost var was := tm[..];
      for i := 0 to SEQN
        invariant forall j :: 0 <= j < SEQN ==> tm[j] == if j < i then Bumped(was[j]) else was[j]
      {
        tm[i] := Bumped(tm[i]);
      }
    }

    method UpdateSeq(ghost r: nat)
      requires At(r)
      modifies tm
      ensures At(r + 1)
    {
      Renumber();
      Count();
      NextRound(extd, r);
    }

    /**
     Handing one round to `write`, in as many calls as it takes.  `rooms` is the room that the calls
     still to be watched find, negative for an error; `rets` are the values they return.
     */
    method SendRound(ghost r: nat, rooms: seq<int>, before: seq<Msg>)
      returns (out: seq<Msg>, rets: seq<int>, outcome: Outcome)
      requires At(r) && IsIdeal(extd, before) && |before| == SEQN * r
      ensures before <= out && IsIdeal(extd, out) && |rets| <= |rooms|
      ensures |out| == |before| + Sum(rets) + (if outcome.Failed? then 1 else 0)
      ensures outcome.Finished? ==> |out| == SEQN * (r + 1) && |rets| > 0
      ensures outcome.Watching? ==> |rets| == |rooms| && |out| < SEQN * (r + 1)
      ensures outcome.Failed? ==> |rets| > 0 && rooms[|rets| - 1] < 0 && |out| < SEQN * (r + 1)
    {
      out, rets := before, [];
      var seq_, start := SEQN, 0;
      while seq_ != 0
        invariant 0 <= seq_ <= SEQN && start + seq_ == SEQN && |rets| <= |rooms| && (start > 0 ==> |rets| > 0)
        invariant before <= out && |out| == |before| + start == |before| + Sum(rets)
        invariant IsIdeal(extd, out)
        decreases |rooms| - |rets|
      {
        if |rets| == |rooms| {
          return out, rets, Watching;
        }
        var ret := Answer(rooms[|rets|], seq_);
        SumMore(rets, ret);
        rets := rets + [ret];
        if ret == -1 {
          return out, rets, Failed;
        }
        PieceOfRound(extd, r, start, start + ret, out);
        out := out + tm[start..start + ret];
        seq_ := seq_ - ret;
        start := start + ret;
      }
      outcome := Finished;
    }

    /**
     `test10`: whatever each call of `write` takes, the messages written are the ideal stream, without a
     gap between one call and the next; and it stops after `soll` rounds.
     */
    method Test10(rooms: seq<int>, soll: int) returns (out: seq<Msg>, outcome: Outcome)
      requires At(0)
      modifies tm
      ensures IsIdeal(extd, out)
      ensures outcome.Finished? ==> soll > 0 && |out| == SEQN * soll
      ensures !outcome.Finished? && soll > 0 ==> |out| < SEQN * soll
      ensures outcome.Failed? ==> exists k :: 0 <= k < |rooms| && rooms[k] < 0
    {
      out := [];
      var testCount, watched := 0, rooms;
      while true
        invariant At(testCount) && |out| == SEQN * testCount && IsIdeal(extd, out)
        invariant |watched| <= |rooms| && watched == rooms[|rooms| - |watched|..]
        invariant soll > 0 ==> testCount < soll
        decreases |watched|
      {
        var rets: seq<int>;
        out, rets, outcome := SendRound(testCount, watched, out);
        if !outcome.Finished? {
          return;
        }
        watched := watched[|rets|..];
        testCount := testCount + 1;
        if testCount == soll {
          return;
        }
        UpdateSeq(testCount - 1);
      }
    }
  }

  lemma FlagOne(i: nat)
    ensures BitOr(Unnumbered(i, false).flags, MSG_EXT) == MSG_EXT
  {
  }

  // ---------------------------------------------------------------- can_verify

  /** The static variables of `verify_message`, and how often it complained about an identifier, a length, data. */
  datatype Check = Check(iseq: nat, count: nat, id: nat, errs: nat, lengths: nat, datas: nat)

  const START: Check := Check(0, 0, 0, 0, 0, 0)

  /** The data test: only lengths that a C integer has are looked at. */
  predicate DataMatches(count: nat, length: int, data: seq<Byte>)
    requires |data| == 8
  {
    match length
    case 1 => count % 0x100 == data[0]
    case 2 => count % 0x1_0000 == LeValue(data[..2])
    case 4 => count % 0x1_0000_0000 == LeValue(data[..4])
    case 8 => count == LeValue(data[..8])
    case _ => true
  }

  function Synchronised(c: Check, m: Msg): Check {
    if c.id != m.id then c.(errs := c.errs + 1, id := m.id % TWO32) else c
  }

  function Compared(c: Check, m: Msg): Check {
    if c.iseq != m.length then c.(lengths := c.lengths + 1)
    else
      var d := if DataMatches(c.count, m.length, m.data) then c else c.(datas := c.datas + 1);
      if d.iseq + 1 == SEQN then d.(iseq := 0, count := (d.count + 1) % TWO64) else d.(iseq := d.iseq + 1)
  }

  function NextExpected(ext: bool, c: Check): Check {
    c.(id := if c.id == Cycle(ext) - 1 then 0 else (c.id + 1) % TWO32)
  }

  function Verified(ext: bool, c: Check, m: Msg): Check {
    NextExpected(ext, Compared(Synchronised(c, m), m))
  }

  function VerifiedAll(ext: bool, c: Check, ms: seq<Msg>): Check {
    if ms == [] then c else Verified(ext, VerifiedAll(ext, c, ms[..|ms| - 1]), ms[|ms| - 1])
  }

  class Verifier {
    const extd: bool
    var iseq: nat
    var count: nat
    var id: nat
    var errs: nat
    ghost var lengths: nat
    ghost var datas: nat

    ghost function Now(): Check
      reads this
    {
      Check(iseq, count, id, errs, lengths, datas)
    }

    constructor (extd: bool)
      ensures Now() == START && this.extd == extd
    {
      this.extd := extd;
      iseq, count, id, errs, lengths, datas := 0, 0, 0, 0, 0, 0;
    }

    method VerifyMessage(m: Msg)
      modifies this
      ensures Now() == Verified(extd, old(Now()), m)
    {
      if id != m.id {
        errs := errs + 1;
        id := m.id % TWO32;
      }
      if iseq != m.length {
        lengths := lengths + 1;
      } else {
        if !DataMatches(count, m.length, m.data) {
          datas := datas + 1;
        }
        iseq := iseq + 1;
        if iseq == SEQN {
          iseq := 0;
          count := (count + 1) % TWO64;
        }
      }
      if (extd && id == 536870906) || (!extd && id == 2042) {
        id := 0;
      } else {
        id := (id + 1) % TWO32;
      }
    }

    /** The messages of one `read`. */
    method VerifyBatch(ms: seq<Msg>)
      modifies this
      ensures Now() == VerifiedAll(extd, old(Now()), ms)
    {
      for i := 0 to |ms|
        invariant Now() == VerifiedAll(extd, old(Now()), ms[..i])
      {
        assert ms[..i + 1][..i] == ms[..i];
        VerifyMessage(ms[i]);
      }
      assert ms[..|ms|] == ms;
    }
  }

  // ---------------------------------------------------------------- generator and monitor agree

  /** A received message that shows message number `k` of the stream. */
  predicate Shows(ext: bool, m: Msg, k: nat) {
    Seen(m) == Wire(Ideal(ext, k))
  }

  /** The monitor after `k` messages without a complaint. */
  function Expecting(ext: bool, k: nat): Check {
    Check(k % SEQN, (k / SEQN) % TWO64, k % Cycle(ext), 0, 0, 0)
  }

  lemma NextPosition(ext: bool, k: nat)
    ensures (k + 1) % Cycle(ext) == if k % Cycle(ext) == Cycle(ext) - 1 then 0 else k % Cycle(ext) + 1
    ensures (k + 1) % SEQN == if k % SEQN == SEQN - 1 then 0 else k % SEQN + 1
    ensures (k + 1) / SEQN == if k % SEQN == SEQN - 1 then k / SEQN + 1 else k / SEQN
    ensures (k / SEQN + 1) % TWO64 == ((k / SEQN) % TWO64 + 1) % TWO64
  {
    Successor(k, Cycle(ext));
    Successor(k, SEQN);
    Successor(k / SEQN, TWO64);
  }

  lemma Successor(k: nat, n: int)
    requires n > 1
    ensures (k + 1) % n == if k % n == n - 1 then 0 else k % n + 1
    ensures (k + 1) / n == if k % n == n - 1 then k / n + 1 else k / n
    ensures (k + 1) % n == (k % n + 1) % n
  {
    var q, x := k / n, k % n;
    assert k == n * q + x;
    if x == n - 1 {
      assert n * (q + 1) == n * q + n;
      DivModUnique(k + 1, n, q + 1, 0);
      DivModUnique(x + 1, n, 1, 0);
    } else {
      DivModUnique(k + 1, n, q, x + 1);
      DivModUnique(x + 1, n, 0, x + 1);
    }
  }

  lemma IdealFrame(ext: bool, k: nat)
    ensures Wire(Ideal(ext, k)) == Frame(k % Cycle(ext), ext, false, k % SEQN, LeBytes(k / SEQN, k % SEQN))
  {
    Pow2Values();
    assert Pow2(11) == 2048;
    LeBytesPrefix(k / SEQN, 8, k % SEQN);
    assert k % Cycle(ext) < Pow2(IdBits(ext));
    DivModUnique(k % Cycle(ext), Pow2(IdBits(ext)), 0, k % Cycle(ext));
    assert BitAnd(MSG_EXT, MSG_EXT) != 0 && BitAnd(MSG_EXT, MSG_RTR) == 0;
    assert BitAnd(0, MSG_EXT) == 0 && BitAnd(0, MSG_RTR) == 0;
  }

  lemma ShownData(ext: bool, m: Msg, k: nat)
    requires Shows(ext, m, k)
    ensures m.id == k % Cycle(ext) && m.length == k % SEQN && m.data[..m.length] == LeBytes(k / SEQN, m.length)
  {
    IdealFrame(ext, k);
    assert (k % SEQN) % 9 == k % SEQN;
  }

  /** The monitor's 64-bit round counter matches the bytes of the unbounded round number. */
  lemma ShownDataMatches(round: nat, length: nat, data: seq<Byte>)
    requires |data| == 8 && length <= 8 && data[..length] == LeBytes(round, length)
    ensures DataMatches(round % TWO64, length, data)
  {
    Pow256Values();
    LeRoundTrip(round, length);
    match length
    case 1 =>
      assert LeBytes(round, 1) == [round % 256] && data[0] == data[..1][0];
      ModOfMod(round, 0x100, 0x100_0000_0000_0000);
    case 2 => ModOfMod(round, 0x1_0000, 0x1_0000_0000_0000);
    case 4 => ModOfMod(round, 0x1_0000_0000, 0x1_0000_0000);
    case _ =>
  }

  lemma OneMoreShown(ext: bool, m: Msg, k: nat)
    requires Shows(ext, m, k)
    ensures Verified(ext, Expecting(ext, k), m) == Expecting(ext, k + 1)
  {
    hide LeBytes, DataMatches, Shows;
    ShownData(ext, m, k);
    ShownDataMatches(k / SEQN, m.length, m.data);
    NextPosition(ext, k);
    assert Synchronised(Expecting(ext, k), m) == Expecting(ext, k);
  }

  /** Generator and monitor agree for ever: no complaint about any message of the stream, in either format. */
  lemma {:induction false} StreamIsAccepted(ext: bool, ms: seq<Msg>)
    requires forall k :: 0 <= k < |ms| ==> Shows(ext, ms[k], k)
    ensures VerifiedAll(ext, START, ms) == Expecting(ext, |ms|)
    decreases |ms|
  {
    if ms != [] {
      var n := |ms| - 1;
      StreamIsAccepted(ext, ms[..n]);
      OneMoreShown(ext, ms[n], n);
    }
  }

  // ---------------------------------------------------------------- streams with gaps

  predicate InSequence(ns: seq<nat>) {
    forall k :: 0 < k < |ns| ==> ns[k - 1] < ns[k]
  }

  /** Messages lost just before the k-th one received. */
  function Lost(ns: seq<nat>, k: nat): (n: int)
    requires k < |ns|
    ensures InSequence(ns) ==> n >= 0
  {
    if k == 0 then ns[0] else ns[k] as int - ns[k - 1] as int - 1
  }

  /** Places where something was lost. */
  function Gaps(ns: seq<nat>): nat {
    if ns == [] then 0 else Gaps(ns[..|ns| - 1]) + (if Lost(ns, |ns| - 1) != 0 then 1 else 0)
  }

  /** Those where the number of lost messages is no multiple of the identifier cycle. */
  function SeenGaps(ext: bool, ns: seq<nat>): nat {
    if ns == [] then 0
    else SeenGaps(ext, ns[..|ns| - 1]) + (if Lost(ns, |ns| - 1) % Cycle(ext) != 0 then 1 else 0)
  }

  predicate ShowsAll(ext: bool, ms: seq<Msg>, ns: seq<nat>) {
    |ms| == |ns| && forall k :: 0 <= k < |ms| ==> Shows(ext, ms[k], ns[k])
  }

  /** Where the monitor expects to go on after the messages numbered `ns`. */
  function After(ns: seq<nat>): nat {
    if ns == [] then 0 else ns[|ns| - 1] + 1
  }

  lemma SameModuloExactly(c: int, after: nat, n: nat)
    requires c > 0 && after <= n
    ensures n % c == after % c <==> (n - after) % c == 0
  {
    if n % c == after % c {
      assert n - after == c * (n / c - after / c);
      DivModUnique(n - after, c, n / c - after / c, 0);
    }
    if (n - after) % c == 0 {
      assert n == c * (after / c + (n - after) / c) + after % c;
      DivModUnique(n, c, after / c + (n - after) / c, after % c);
    }
  }

  lemma GapIsSeen(ext: bool, after: nat, n: nat)
    requires after <= n
    ensures n % Cycle(ext) == after % Cycle(ext) <==> (n - after) % Cycle(ext) == 0
  {
    SameModuloExactly(Cycle(ext), after, n);
  }

  /** Whatever was lost before, the expected identifier is that of the next message. */
  lemma {:induction false} IdResynchronises(ext: bool, ms: seq<Msg>, ns: seq<nat>)
    requires InSequence(ns) && ShowsAll(ext, ms, ns)
    ensures VerifiedAll(ext, START, ms).id == After(ns) % Cycle(ext)
    ensures VerifiedAll(ext, START, ms).errs == SeenGaps(ext, ns)
    decreases |ms|
  {
    hide Verified, Shows;
    if ms != [] {
      var n := |ms| - 1;
      LastOf(ext, ms, ns);
      IdResynchronises(ext, ms[..n], ns[..n]);
      OneMoreId(ext, VerifiedAll(ext, START, ms[..n]), ms[n], After(ns[..n]), ns[n]);
    }
  }

  lemma LastOf(ext: bool, ms: seq<Msg>, ns: seq<nat>)
    requires InSequence(ns) && ShowsAll(ext, ms, ns) && ms != []
    ensures var n := |ms| - 1;
            && InSequence(ns[..n]) && ShowsAll(ext, ms[..n], ns[..n]) && Shows(ext, ms[n], ns[n])
            && After(ns[..n]) <= ns[n] && Lost(ns, n) == ns[n] - After(ns[..n])
  {
  }

  lemma OneMoreId(ext: bool, c: Check, m: Msg, after: nat, n: nat)
    requires Shows(ext, m, n) && after <= n && c.id == after % Cycle(ext)
    ensures Verified(ext, c, m).id == (n + 1) % Cycle(ext)
    ensures Verified(ext, c, m).errs == c.errs + (if (n - after) % Cycle(ext) != 0 then 1 else 0)
  {
    ShownData(ext, m, n);
    IdOfVerified(ext, c, m);
    IdOfMessage(ext, after, n);
  }

  lemma IdOfVerified(ext: bool, c: Check, m: Msg)
    requires m.id < Cycle(ext)
    ensures Verified(ext, c, m).id == if m.id == Cycle(ext) - 1 then 0 else m.id + 1
    ensures Verified(ext, c, m).errs == if c.id == m.id then c.errs else c.errs + 1
  {
  }

  lemma IdOfMessage(ext: bool, after: nat, n: nat)
    requires after <= n
    ensures n % Cycle(ext) == after % Cycle(ext) <==> (n - after) % Cycle(ext) == 0
    ensures (n + 1) % Cycle(ext) == if n % Cycle(ext) == Cycle(ext) - 1 then 0 else n % Cycle(ext) + 1
  {
    GapIsSeen(ext, after, n);
    NextPosition(ext, n);
  }

  lemma {:induction false} AllGapsSeen(ext: bool, ns: seq<nat>)
    requires InSequence(ns)
    ensures SeenGaps(ext, ns) <= Gaps(ns)
    ensures SeenGaps(ext, ns) == Gaps(ns) <==>
              forall k :: 0 <= k < |ns| && Lost(ns, k) != 0 ==> Lost(ns, k) % Cycle(ext) != 0
    decreases |ns|
  {
    if ns != [] {
      var n := |ns| - 1;
      AllGapsSeen(ext, ns[..n]);
      assert forall k :: 0 <= k < n ==> Lost(ns, k) == Lost(ns[..n], k);
    }
  }

  /** `errs` ends as the number of gaps exactly when no gap swallowed a whole number of identifier cycles. */
  lemma ErrsCountGaps(ext: bool, ms: seq<Msg>, ns: seq<nat>)
    requires InSequence(ns) && ShowsAll(ext, ms, ns)
    ensures VerifiedAll(ext, START, ms).errs == Gaps(ns) <==>
              forall k :: 0 <= k < |ns| && Lost(ns, k) != 0 ==> Lost(ns, k) % Cycle(ext) != 0
  {
    IdResynchronises(ext, ms, ns);
    AllGapsSeen(ext, ns);
  }
}
