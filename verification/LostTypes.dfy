/**
 Which lookups lose types of a list that was registered again: the back pointer of one node leads to the
 head, past the nodes that were added.
 */
module LostTypes {
  import opened Swig

  predicate NoDuplicates(names: seq<string>) {
    forall i, j :: 0 <= i < j < |names| ==> names[i] != names[j]
  }

  /** The names behind position `s`. */
  ghost predicate Behind(names: seq<string>, s: nat, m: string) {
    exists i :: s < i < |names| && names[i] == m
  }

  lemma FindAt(names: seq<string>, k: nat)
    requires NoDuplicates(names) && k < |names|
    ensures Find(names, names[k]) == k
  {
    FirstIsFound(names, names[k], k);
  }

  /** Where position `i` was before the node at `k` went to the front. */
  function WasAt(k: nat, i: nat): nat { if i == 0 then k else if i <= k then i - 1 else i }

  lemma ToFrontIs(names: seq<string>, k: nat)
    requires k < |names|
    ensures forall i: nat :: i < |names| ==> WasAt(k, i) < |names| && ToFront(names, k)[i] == names[WasAt(k, i)]
  {
    forall i: nat | i < |names| ensures WasAt(k, i) < |names| && ToFront(names, k)[i] == names[WasAt(k, i)] {
      ToFrontAt(names, k, i);
    }
  }

  lemma LookUpMoves(l: Chain, k: nat)
    requires NoDuplicates(l.names) && 0 < k < |l.names| && k != l.stale
    ensures StaleLookUp(l, l.names[k]) == Chain(ToFront(l.names, k), NextStale(l.stale, k))
  {
    FindAt(l.names, k);
  }

  lemma ToFrontKeepsMembers(names: seq<string>, k: nat)
    requires k < |names|
    ensures multiset(ToFront(names, k)) == multiset(names)
  {
    Split(names, k);
    MovingKeepsMembers(names[..k], [names[k]], names[k + 1..]);
  }

  lemma ToFrontKeepsApart(names: seq<string>, k: nat)
    requires NoDuplicates(names) && k < |names|
    ensures NoDuplicates(ToFront(names, k))
  {
    ToFrontIs(names, k);
    hide ToFront;
  }

  /**
   The lookup number `i` repairs the back pointer: it asks for the node before the stale one, `n` nodes in
   front of which there are, when that is not the front one any more.
   */
  ghost predicate Repairs(names: seq<string>, n: nat, cs: seq<string>, i: nat)
    requires 0 < n < |names| && i < |cs|
  {
    cs[i] == names[n - 1] && (n >= 2 || exists h :: 0 <= h < i && Behind(names, n, cs[h]))
  }

  /** The lookup number `j` asks for the stale node before any has repaired its pointer. */
  ghost predicate Loses(names: seq<string>, n: nat, cs: seq<string>, j: nat)
    requires 0 < n < |names| && j < |cs|
  {
    cs[j] == names[n] && forall i :: 0 <= i < j ==> cs[i] != names[n] && !Repairs(names, n, cs, i)
  }

  ghost predicate AnyRepairs(names: seq<string>, n: nat, cs: seq<string>)
    requires 0 < n < |names|
  {
    exists i :: 0 <= i < |cs| && Repairs(names, n, cs, i)
  }

  /** The pointer is still stale, between the same two nodes as before. */
  ghost predicate StillStale(names: seq<string>, n: nat, cs: seq<string>, l: Chain)
    requires 0 < n < |names|
  {
    && 0 < l.stale < |l.names| && NoDuplicates(l.names)
    && l.names[l.stale] == names[n] && l.names[l.stale - 1] == names[n - 1]
    && (l.stale >= 2 <==> n >= 2 || exists h :: 0 <= h < |cs| && Behind(names, n, cs[h]))
    && (forall m :: Behind(l.names, l.stale, m) <==> Behind(names, n, m) && m !in cs)
    && multiset(l.names) == multiset(names)
  }

  // ---------------------------------------------------------------- one lookup

  lemma SameMembersOf(a: seq<string>, b: seq<string>)
    requires multiset(a) == multiset(b)
    ensures forall m :: m in a <==> m in b
  {
    forall m ensures m in a <==> m in b { assert m in multiset(a) <==> m in multiset(b); }
  }

  lemma PrefixAgrees(names: seq<string>, n: nat, cs: seq<string>, c: string)
    requires 0 < n < |names|
    ensures forall i :: 0 <= i < |cs| ==> (Repairs(names, n, cs + [c], i) <==> Repairs(names, n, cs, i))
    ensures forall j :: 0 <= j < |cs| ==> (Loses(names, n, cs + [c], j) <==> Loses(names, n, cs, j))
  {
    forall i | 0 <= i < |cs| ensures Repairs(names, n, cs + [c], i) <==> Repairs(names, n, cs, i) {
      assert forall h :: 0 <= h <= i ==> (cs + [c])[h] == cs[h];
    }
    hide Repairs;
    assert forall h :: 0 <= h < |cs| ==> (cs + [c])[h] == cs[h];
  }

  /** A hit behind the stale node goes to the front. */
  lemma HitBehind(names: seq<string>, n: nat, cs: seq<string>, l: Chain, k: nat)
    requires 0 < n < |names| && StillStale(names, n, cs, l) && l.stale < k < |l.names|
    ensures StillStale(names, n, cs + [l.names[k]], StaleLookUp(l, l.names[k]))
  {
    var c, s := l.names[k], l.stale;
    LookUpMoves(l, k);
    ToFrontIs(l.names, k);
    ToFrontKeepsApart(l.names, k);
    ToFrontKeepsMembers(l.names, k);
    hide ToFront, Find, StaleLookUp, Behind, NoDuplicates;
    HeardBehind(l.names, s, k);
    forall m: string ensures Behind(ToFront(l.names, k), s + 1, m) <==> Behind(l.names, s, m) && m != c {
      BehindAfterHit(l.names, s, k, m);
    }
    Heard(names, n, cs, l, c, Chain(ToFront(l.names, k), s + 1));
  }

  /** One name less behind the stale node. */
  lemma Heard(names: seq<string>, n: nat, cs: seq<string>, l: Chain, c: string, r: Chain)
    requires 0 < n < |names| && StillStale(names, n, cs, l) && Behind(l.names, l.stale, c)
    requires 2 <= r.stale < |r.names| && NoDuplicates(r.names) && multiset(r.names) == multiset(names)
    requires r.names[r.stale] == names[n] && r.names[r.stale - 1] == names[n - 1]
    requires forall m: string :: Behind(r.names, r.stale, m) <==> Behind(l.names, l.stale, m) && m != c
    ensures StillStale(names, n, cs + [c], r)
  {
    hide Behind, NoDuplicates;
    assert (cs + [c])[|cs|] == c && Behind(names, n, (cs + [c])[|cs|]);
    forall m: string ensures m in cs + [c] <==> m in cs || m == c {}
  }

  lemma Rearranged(names: seq<string>, n: nat, cs: seq<string>, l: Chain, r: Chain)
    requires 0 < n < |names| && StillStale(names, n, cs, l) && r.stale == l.stale < |r.names|
    requires NoDuplicates(r.names) && multiset(r.names) == multiset(names)
    requires r.names[r.stale] == names[n] && r.names[r.stale - 1] == names[n - 1]
    requires forall m: string :: Behind(r.names, r.stale, m) <==> Behind(l.names, l.stale, m)
    ensures StillStale(names, n, cs, r)
  {
    hide Behind, NoDuplicates;
  }

  lemma HeardBehind(names: seq<string>, s: nat, k: nat)
    requires s < k < |names|
    ensures Behind(names, s, names[k])
  {
  }

  lemma BehindAfterHit(names: seq<string>, s: nat, k: nat, m: string)
    requires NoDuplicates(names) && s < k < |names|
    ensures Behind(ToFront(names, k), s + 1, m) <==> Behind(names, s, m) && m != names[k]
  {
    ToFrontIs(names, k);
    hide ToFront;
    var r := ToFront(names, k);
    if i :| s + 1 < i < |r| && r[i] == m {
      assert names[if i <= k then i - 1 else i] == m;
    }
    if i :| s < i < |names| && names[i] == m && i != k {
      assert r[if i < k then i + 1 else i] == m;
    }
  }

  /** A hit before the node in front of the stale one changes the order of what is before. */
  lemma HitBefore(names: seq<string>, n: nat, cs: seq<string>, l: Chain, k: nat)
    requires 0 < n < |names| && StillStale(names, n, cs, l) && 0 < k < l.stale - 1
    ensures StillStale(names, n, cs + [l.names[k]], StaleLookUp(l, l.names[k]))
  {
    var c, r := l.names[k], Chain(ToFront(l.names, k), l.stale);
    LookUpMoves(l, k);
    ToFrontKeepsApart(l.names, k);
    ToFrontKeepsMembers(l.names, k);
    SameBehind(l.names, l.stale, k);
    NotBehind(l.names, l.stale, k);
    hide ToFront, Find, StaleLookUp, Behind, NoDuplicates;
    Rearranged(names, n, cs, l, r);
    Unheard(names, n, cs, r, c);
  }

  lemma SameBehind(names: seq<string>, s: nat, k: nat)
    requires 0 < k < s - 1 && s < |names|
    ensures var r := ToFront(names, k);
            r[s] == names[s] && r[s - 1] == names[s - 1] && forall m: string :: Behind(r, s, m) <==> Behind(names, s, m)
  {
    ToFrontIs(names, k);
    hide ToFront;
    var r := ToFront(names, k);
    forall m: string ensures Behind(r, s, m) <==> Behind(names, s, m) {
      if i :| s < i < |r| && r[i] == m { assert names[i] == m; }
      if i :| s < i < |names| && names[i] == m { assert r[i] == m; }
    }
  }

  lemma NotBehind(names: seq<string>, s: nat, k: nat)
    requires NoDuplicates(names) && k <= s < |names|
    ensures !Behind(names, s, names[k])
  {
  }

  /** A name that is not behind the stale node makes no difference to what is known of those behind it. */
  lemma Unheard(names: seq<string>, n: nat, cs: seq<string>, l: Chain, c: string)
    requires 0 < n < |names| && StillStale(names, n, cs, l) && !Behind(l.names, l.stale, c)
    requires l.stale >= 2 || !Behind(names, n, c)
    ensures StillStale(names, n, cs + [c], l)
  {
    assert forall h :: 0 <= h < |cs| ==> (cs + [c])[h] == cs[h];
    forall m ensures Behind(l.names, l.stale, m) <==> Behind(names, n, m) && m !in cs + [c] {
      assert m in cs + [c] <==> m in cs || m == c;
    }
    if h :| 0 <= h < |cs + [c]| && Behind(names, n, (cs + [c])[h]) {
      if h == |cs| { assert (cs + [c])[h] == c; } else { assert Behind(names, n, cs[h]); }
    }
    if h :| 0 <= h < |cs| && Behind(names, n, cs[h]) { assert Behind(names, n, (cs + [c])[h]); }
  }

  /** A hit on the front node, and a miss, change nothing. */
  lemma HitNothing(names: seq<string>, n: nat, cs: seq<string>, l: Chain, c: string)
    requires NoDuplicates(names) && 0 < n < |names| && StillStale(names, n, cs, l) && (c !in l.names || c == l.names[0])
    ensures StillStale(names, n, cs + [c], StaleLookUp(l, c))
  {
    SameMembersOf(l.names, names);
    var k := Find(l.names, c);
    if c in l.names {
      FindAt(l.names, 0);
      NotBehind(l.names, l.stale, 0);
      if l.stale == 1 { NotBehind(names, n, n - 1); }
    } else {
      assert !Behind(names, n, c);
    }
    Unheard(names, n, cs, l, c);
  }

  lemma StaysStale(names: seq<string>, n: nat, cs: seq<string>, l: Chain, c: string)
    requires NoDuplicates(names) && 0 < n < |names| && StillStale(names, n, cs, l)
    requires c != names[n] && !Repairs(names, n, cs + [c], |cs|)
    ensures StillStale(names, n, cs + [c], StaleLookUp(l, c))
  {
    assert (cs + [c])[|cs|] == c && forall h :: 0 <= h < |cs| ==> (cs + [c])[h] == cs[h];
    if c !in l.names || c == l.names[0] {
      HitNothing(names, n, cs, l, c);
    } else {
      var k :| 0 <= k < |l.names| && l.names[k] == c;
      if k == l.stale - 1 {
        assert false;
      } else if k < l.stale {
        HitBefore(names, n, cs, l, k);
      } else {
        HitBehind(names, n, cs, l, k);
      }
    }
  }

  lemma RepairStep(names: seq<string>, n: nat, cs: seq<string>, l: Chain, c: string)
    requires 0 < n < |names| && StillStale(names, n, cs, l) && Repairs(names, n, cs + [c], |cs|)
    ensures var r := StaleLookUp(l, c); r.stale == 0 && multiset(r.names) == multiset(names)
  {
    var k := l.stale - 1;
    assert (cs + [c])[|cs|] == c && forall h :: 0 <= h < |cs| ==> (cs + [c])[h] == cs[h];
    FindAt(l.names, k);
    ToFrontKeepsMembers(l.names, k);
  }

  lemma LossStep(names: seq<string>, n: nat, cs: seq<string>, l: Chain)
    requires 0 < n < |names| && StillStale(names, n, cs, l)
    ensures var r := StaleLookUp(l, names[n]);
            r.stale == 0 && forall m :: m in r.names <==> m == names[n] || (Behind(names, n, m) && m !in cs)
  {
    FindAt(l.names, l.stale);
    var r := l.names[l.stale..];
    forall m: string ensures m in r <==> m == names[n] || Behind(l.names, l.stale, m) {
      if i :| 0 <= i < |r| && r[i] == m { assert l.names[l.stale + i] == m; }
      if i :| l.stale < i < |l.names| && l.names[i] == m { assert r[i - l.stale] == m; }
      assert r[0] == names[n];
    }
  }

  lemma SoundStep(l: Chain, c: string)
    requires l.stale == 0
    ensures var r := StaleLookUp(l, c); r.stale == 0 && multiset(r.names) == multiset(l.names)
  {
    var k := Find(l.names, c);
    if k < |l.names| {
      Split(l.names, k);
      MovingKeepsMembers(l.names[..k], [l.names[k]], l.names[k + 1..]);
    }
  }

  // ---------------------------------------------------------------- any lookups

  ghost predicate LostAt(names: seq<string>, n: nat, cs: seq<string>, j: nat, l: Chain)
    requires 0 < n < |names| && j <= |cs|
  {
    l.stale == 0 && forall m :: m in l.names <==> m == names[n] || (Behind(names, n, m) && m !in cs[..j])
  }

  ghost predicate Outcome(names: seq<string>, n: nat, cs: seq<string>, l: Chain)
    requires 0 < n < |names|
  {
    && (forall j :: 0 <= j < |cs| && Loses(names, n, cs, j) ==> LostAt(names, n, cs, j, l))
    && ((forall j :: 0 <= j < |cs| ==> !Loses(names, n, cs, j)) ==>
          if AnyRepairs(names, n, cs) then l.stale == 0 && multiset(l.names) == multiset(names)
          else StillStale(names, n, cs, l) && names[n] !in cs)
  }

  lemma OneMoreLookUp(names: seq<string>, n: nat, cs: seq<string>, l: Chain, c: string)
    requires NoDuplicates(names) && 0 < n < |names| && Outcome(names, n, cs, l)
    ensures Outcome(names, n, cs + [c], StaleLookUp(l, c))
  {
    hide Repairs, StillStale, StaleLookUp;
    PrefixAgrees(names, n, cs, c);
    var cs', r := cs + [c], StaleLookUp(l, c);
    assert cs'[|cs|] == c && forall h :: 0 <= h < |cs| ==> cs'[h] == cs[h] && cs'[..h] == cs[..h];
    if j :| 0 <= j < |cs| && Loses(names, n, cs, j) {
      SoundStep(l, c);
      SameMembersOf(l.names, r.names);
      assert forall i :: 0 <= i < |cs'| && Loses(names, n, cs', i) ==> i == j;
      assert Loses(names, n, cs', j);
    } else if AnyRepairs(names, n, cs) {
      SoundStep(l, c);
      var i :| 0 <= i < |cs| && Repairs(names, n, cs, i);
      assert Repairs(names, n, cs', i);
    } else if c == names[n] {
      LossStep(names, n, cs, l);
      assert Loses(names, n, cs', |cs|) && cs'[..|cs|] == cs;
    } else if Repairs(names, n, cs', |cs|) {
      RepairStep(names, n, cs, l, c);
    } else {
      StaysStale(names, n, cs, l, c);
    }
  }

  lemma {:induction false} LookUpsHaveOutcome(names: seq<string>, n: nat, cs: seq<string>)
    requires NoDuplicates(names) && 0 < n < |names|
    ensures Outcome(names, n, cs, StaleLookUpAll(Chain(names, n), cs))
    decreases |cs|
  {
    if cs != [] {
      var k := |cs| - 1;
      LookUpsHaveOutcome(names, n, cs[..k]);
      OneMoreLookUp(names, n, cs[..k], StaleLookUpAll(Chain(names, n), cs[..k]), cs[k]);
      assert cs[..k] + [cs[k]] == cs;
    }
  }

  /**
   After any lookups on a list whose stale node has `n` nodes before it: names are lost exactly if some
   lookup asks for the stale node before one has repaired its pointer.  Then the names left are its own and
   those behind it that were not looked up before; otherwise all are there.
   */
  lemma NamesAreLostExactly(names: seq<string>, n: nat, cs: seq<string>)
    requires NoDuplicates(names) && 0 < n < |names|
    ensures var left := StaleLookUpAll(Chain(names, n), cs).names;
            && (multiset(left) == multiset(names) <==> forall j :: 0 <= j < |cs| ==> !Loses(names, n, cs, j))
            && forall j, m :: 0 <= j < |cs| && Loses(names, n, cs, j) ==>
                 (m in left <==> m == names[n] || (Behind(names, n, m) && m !in cs[..j]))
  {
    LookUpsHaveOutcome(names, n, cs);
    hide Repairs, Loses;
    var left := StaleLookUpAll(Chain(names, n), cs).names;
    if j :| 0 <= j < |cs| && Loses(names, n, cs, j) {
      NotBehind(names, n, n - 1);
      assert names[n - 1] !in left && names[n - 1] in multiset(names);
    }
  }
}
