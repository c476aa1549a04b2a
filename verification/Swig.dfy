/**
 The run-time type system of the SWIG wrapper in examples/canLtwo_wrap.c: a list of type names that
 moves each hit to its front, and pointers written as text.
 */
module Swig {
  import opened Words
  import opened Options

  // ---------------------------------------------------------------- moving to the front, as values

  function ToFront<T>(s: seq<T>, k: nat): (r: seq<T>)
    requires k < |s|
    ensures |r| == |s|
  {
    [s[k]] + s[..k] + s[k + 1..]
  }

  /** Position of the first occurrence, or the length. */
  function Find(names: seq<string>, c: string): (k: nat)
    ensures k <= |names| && (k < |names| ==> names[k] == c) && c !in names[..k]
  {
    if names == [] || names[0] == c then 0
    else
      var k := 1 + Find(names[1..], c);
      assert names[..k] == [names[0]] + names[1..][..k - 1];
      k
  }

  function LookUp(names: seq<string>, c: string): (r: seq<string>)
    ensures |r| == |names|
  {
    var k := Find(names, c);
    if k == |names| then names else ToFront(names, k)
  }

  function LookUpAll(names: seq<string>, cs: seq<string>): seq<string> {
    if cs == [] then names else LookUp(LookUpAll(names, cs[..|cs| - 1]), cs[|cs| - 1])
  }

  /** The names of a list, and the position of a node whose back pointer leads to the head; 0 if there is none. */
  datatype Chain = Chain(names: seq<string>, stale: nat)

  /** Where the stale back pointer is after the node at `k` has been moved to the front. */
  function NextStale(stale: nat, k: nat): nat {
    if stale == 0 || stale == k || stale == k + 1 then 0 else if stale < k then stale + 1 else stale
  }

  /** A hit on the stale node loses all before it; one on its predecessor repairs the pointer. */
  function StaleLookUp(l: Chain, c: string): (r: Chain)
    ensures |r.names| <= |l.names|
  {
    var k := Find(l.names, c);
    if k == 0 || k == |l.names| then l
    else Chain(if k == l.stale then l.names[k..] else ToFront(l.names, k), NextStale(l.stale, k))
  }

  function StaleLookUpAll(l: Chain, cs: seq<string>): Chain {
    if cs == [] then l else StaleLookUp(StaleLookUpAll(l, cs[..|cs| - 1]), cs[|cs| - 1])
  }

  /** The names that are not among `cs`, in order. */
  function Others(names: seq<string>, cs: seq<string>): seq<string> {
    if names == [] then []
    else (if names[0] in cs then [] else [names[0]]) + Others(names[1..], cs)
  }

  lemma OthersFirst(n: string, rest: seq<string>, cs: seq<string>)
    ensures Others([n] + rest, cs) == (if n in cs then [] else [n]) + Others(rest, cs)
  {
  }

  lemma {:induction false} OthersConcat(a: seq<string>, b: seq<string>, cs: seq<string>)
    ensures Others(a + b, cs) == Others(a, cs) + Others(b, cs)
    decreases |a|
  {
    if a == [] {
      assert a + b == b;
    } else {
      OthersConcat(a[1..], b, cs);
      OthersFirst(a[0], a[1..], cs);
      OthersFirst(a[0], a[1..] + b, cs);
      hide Others;
      assert a == [a[0]] + a[1..] && a + b == [a[0]] + (a[1..] + b);
    }
  }

  lemma MovingKeepsMembers(a: seq<string>, m: seq<string>, b: seq<string>)
    ensures multiset(m + a + b) == multiset(a + m + b)
  {
  }

  lemma MovingKeepsOthers(a: seq<string>, m: seq<string>, b: seq<string>, cs: seq<string>)
    requires |m| == 1 && m[0] in cs
    ensures Others(m + a + b, cs) == Others(a + m + b, cs)
  {
    OthersConcat(a + m, b, cs); OthersConcat(a, m, cs);
    OthersConcat(m + a, b, cs); OthersConcat(m, a, cs);
    assert m[1..] == [];
  }

  lemma Split(names: seq<string>, k: nat)
    requires k < |names|
    ensures names == names[..k] + [names[k]] + names[k + 1..]
    ensures ToFront(names, k) == [names[k]] + names[..k] + names[k + 1..]
  {
  }

  lemma LookUpRearranges(names: seq<string>, c: string, cs: seq<string>)
    requires c in cs
    ensures multiset(LookUp(names, c)) == multiset(names)
    ensures Others(LookUp(names, c), cs) == Others(names, cs)
    ensures c in names ==> LookUp(names, c)[0] == c
  {
    hide Others;
    var k := Find(names, c);
    if k < |names| {
      Split(names, k);
      MovingKeepsMembers(names[..k], [names[k]], names[k + 1..]);
      MovingKeepsOthers(names[..k], [names[k]], names[k + 1..], cs);
    } else {
      assert names[..k] == names;
    }
  }

  /**
   After any lookups: the same names are there, the last hit is in front, and the names that were never
   asked for stand in the order in which they were registered.
   */
  lemma {:induction false} LookUpsRearrange(names: seq<string>, cs: seq<string>, all: seq<string>)
    requires forall c :: c in cs ==> c in all
    ensures multiset(LookUpAll(names, cs)) == multiset(names)
    ensures Others(LookUpAll(names, cs), all) == Others(names, all)
    ensures |LookUpAll(names, cs)| == |names|
    ensures cs != [] && cs[|cs| - 1] in names ==> LookUpAll(names, cs)[0] == cs[|cs| - 1]
    decreases |cs|
  {
    if cs != [] {
      var n := |cs| - 1;
      LookUpsRearrange(names, cs[..n], all);
      var before := LookUpAll(names, cs[..n]);
      LookUpRearranges(before, cs[n], all);
      SameMembers(before, names, cs[n]);
    }
  }

  lemma SameMembers(a: seq<string>, b: seq<string>, c: string)
    requires multiset(a) == multiset(b)
    ensures c in a <==> c in b
    ensures |a| == |b|
  {
    assert c in a <==> c in multiset(a);
    assert |multiset(a)| == |a| && |multiset(b)| == |b|;
  }

  // ---------------------------------------------------------------- the list in memory

  type Converter = Option<int -> int>

  class TypeInfo {
    const name: string
    const converter: Converter
    var next: TypeInfo?
    var prev: TypeInfo?

    constructor (name: string, converter: Converter)
      ensures this.name == name && this.converter == converter && next == null && prev == null
    {
      this.name, this.converter := name, converter;
      next, prev := null, null;
    }
  }

  function Names(nodes: seq<TypeInfo>): (r: seq<string>)
    ensures |r| == |nodes|
  {
    seq(|nodes|, i requires 0 <= i < |nodes| => nodes[i].name)
  }

  predicate Distinct(ty: TypeInfo, nodes: seq<TypeInfo>) {
    (forall i :: 0 <= i < |nodes| ==> nodes[i] != ty) && forall i, j :: 0 <= i < j < |nodes| ==> nodes[i] != nodes[j]
  }

  function At(nodes: seq<TypeInfo>, i: nat): TypeInfo? {
    if i < |nodes| then nodes[i] else null
  }

  /** `nodes` hang behind `ty`. */
  predicate Chained(ty: TypeInfo, nodes: seq<TypeInfo>)
    reads ty, nodes
  {
    && Distinct(ty, nodes)
    && ty.next == At(nodes, 0)
    && (forall i {:trigger nodes[i].next} :: 0 <= i < |nodes| ==> nodes[i].next == At(nodes, i + 1))
  }

  /** The node before position `i`. */
  function Before(ty: TypeInfo, nodes: seq<TypeInfo>, i: nat): TypeInfo
    requires i <= |nodes|
  {
    if i == 0 then ty else nodes[i - 1]
  }

  /**
   Each node behind the front one knows its predecessor, but for the one at `stale`, which points to `ty`.
   The back pointer of the front node is left as it was, and nothing is known of it.
   */
  predicate BackedBut(ty: TypeInfo, nodes: seq<TypeInfo>, stale: nat)
    reads ty, nodes
  {
    && Chained(ty, nodes)
    && (forall i :: 0 < i < |nodes| && i != stale ==> nodes[i].prev == nodes[i - 1])
    && (0 < stale < |nodes| ==> nodes[stale].prev == ty)
  }

  /** No back pointer is stale. */
  predicate Linked(ty: TypeInfo, nodes: seq<TypeInfo>)
    reads ty, nodes
  {
    Chained(ty, nodes) && forall i :: 0 < i < |nodes| ==> nodes[i].prev == nodes[i - 1]
  }

  lemma ToFrontAt<T>(s: seq<T>, k: nat, i: nat)
    requires k < |s| && i < |s|
    ensures ToFront(s, k)[i] == if i == 0 then s[k] else if i <= k then s[i - 1] else s[i]
  {
  }

  /** Node `k` in front, and then the first `j` nodes and those after `k`. */
  function Cut<T>(s: seq<T>, j: nat, k: nat): (r: seq<T>)
    requires j <= k < |s|
    ensures |r| == |s| - k + j
  {
    [s[k]] + s[..j] + s[k + 1..]
  }

  lemma CutAt<T>(s: seq<T>, j: nat, k: nat, i: nat)
    requires j <= k < |s| && i < |s| - k + j
    ensures Cut(s, j, k)[i] == s[CutFrom(j, k, i)]
  {
  }

  /** Where position `i` of the new list was before. */
  function CutFrom(j: nat, k: nat, i: nat): (m: nat)
    requires j <= k
    ensures i == 0 ==> m == k
  {
    if i == 0 then k else if i <= j then i - 1 else i + k - j
  }

  lemma CutDistinct(ty: TypeInfo, nodes: seq<TypeInfo>, j: nat, k: nat)
    requires Distinct(ty, nodes) && j <= k < |nodes|
    ensures Distinct(ty, Cut(nodes, j, k))
  {
    var r := Cut(nodes, j, k);
    forall i: nat | i < |r| ensures r[i] == nodes[CutFrom(j, k, i)] { CutAt(nodes, j, k, i); }
  }

  /** The links of the old list after node `k` has been moved, when its back pointer led behind the first `j` nodes. */
  predicate Moved(ty: TypeInfo, nodes: seq<TypeInfo>, j: nat, k: nat)
    requires j <= k < |nodes| && 0 < k
    reads ty, nodes
  {
    && ty.next == nodes[k]
    && (forall i {:trigger nodes[i].next} :: 0 <= i < |nodes| && i != j - 1 && i != k ==> nodes[i].next == At(nodes, i + 1))
    && (j > 0 ==> nodes[j - 1].next == At(nodes, k + 1))
    && nodes[k].next == (if j > 0 then nodes[0] else At(nodes, k + 1))
  }

  lemma MovedIsChained(ty: TypeInfo, nodes: seq<TypeInfo>, j: nat, k: nat)
    requires Distinct(ty, nodes) && j <= k < |nodes| && 0 < k && Moved(ty, nodes, j, k)
    ensures Chained(ty, Cut(nodes, j, k))
  {
    hide Cut;
    var r := Cut(nodes, j, k);
    CutDistinct(ty, nodes, j, k);
    forall i: nat | i < |r| ensures r[i].next == At(r, i + 1) {
      CutAt(nodes, j, k, i);
      if i + 1 < |r| { CutAt(nodes, j, k, i + 1); }
    }
    CutAt(nodes, j, k, 0);
  }

  /** The back pointers after that. */
  predicate BackMoved(ty: TypeInfo, nodes: seq<TypeInfo>, j: nat, k: nat, stale: nat)
    requires j <= k < |nodes|
    reads ty, nodes
  {
    && (j > 0 ==> nodes[0].prev == nodes[k])
    && (k + 1 < |nodes| ==> nodes[k + 1].prev == if j > 0 then nodes[j - 1] else nodes[k])
    && (forall i :: 0 < i < |nodes| && (i < j || i > k + 1) && i != stale ==> nodes[i].prev == nodes[i - 1])
    && (0 < stale < |nodes| && (stale < j || stale > k + 1) ==> nodes[stale].prev == ty)
  }

  lemma BackMovedIsBacked(ty: TypeInfo, nodes: seq<TypeInfo>, j: nat, k: nat, stale: nat)
    requires j <= k < |nodes| && Chained(ty, Cut(nodes, j, k)) && BackMoved(ty, nodes, j, k, stale)
    requires j == k || stale == k
    ensures BackedBut(ty, Cut(nodes, j, k), NextStale(stale, k))
  {
    hide Cut;
    var r, next := Cut(nodes, j, k), NextStale(stale, k);
    if 0 < next < |r| { CutAt(nodes, j, k, next); }
    forall i: nat | 0 < i < |r| && i != next ensures r[i].prev == r[i - 1] {
      CutAt(nodes, j, k, i);
      CutAt(nodes, j, k, i - 1);
    }
  }

  /**
   Taking node `k` out and putting it in front.  The nodes between the one that it takes for its
   predecessor and itself are lost.
   */
  method Relink(ty: TypeInfo, s: TypeInfo, ghost nodes: seq<TypeInfo>, ghost j: nat, ghost k: nat, ghost stale: nat)
    requires Chained(ty, nodes) && j <= k < |nodes| && 0 < k && s == nodes[k] && s.prev == Before(ty, nodes, j)
    modifies ty, nodes
    ensures Chained(ty, Cut(nodes, j, k)) && ty.prev == old(ty.prev)
    ensures old(forall i :: 0 < i < |nodes| && i != k ==> nodes[i].prev == nodes[i - 1]) ==> Linked(ty, Cut(nodes, j, k))
    ensures j == k != stale && old(BackedBut(ty, nodes, stale)) ==> BackedBut(ty, Cut(nodes, j, k), NextStale(stale, k))
  {
    hide Cut, Distinct, BackMoved, Moved, Rewired, Chained;
    ghost var was := Backs(nodes);
    ghost var backed := forall i :: 0 < i < |nodes| && i != k ==> nodes[i].prev == nodes[i - 1];
    ghost var held := j == k != stale && BackedBut(ty, nodes, stale);
    ChainedIs(ty, nodes);
    Splice(ty, s, nodes, j, k, was);
    MovedIsChained(ty, nodes, j, k);
    if backed {
      BacksAreMoved(ty, nodes, j, k, k, was);
      BackMovedIsBacked(ty, nodes, j, k, k);
    }
    if held {
      BacksAreMoved(ty, nodes, j, k, stale, was);
      BackMovedIsBacked(ty, nodes, j, k, stale);
    }
  }

  /** What it does to the links of each node. */
  method Splice(ty: TypeInfo, s: TypeInfo, ghost nodes: seq<TypeInfo>, ghost j: nat, ghost k: nat, ghost was: seq<TypeInfo?>)
    requires Chained(ty, nodes) && j <= k < |nodes| && 0 < k && s == nodes[k] && s.prev == Before(ty, nodes, j)
    requires was == Backs(nodes)
    modifies ty, nodes
    ensures Moved(ty, nodes, j, k) && Rewired(ty, nodes, j, k, was) && ty.prev == old(ty.prev)
  {
    hide Distinct;
    TakeOut(ty, s, nodes, j, k);
    PutInFront(ty, s, nodes, if j == 0 then k + 1 else 0, k);
  }

  /** All back pointers. */
  ghost function Backs(nodes: seq<TypeInfo>): (r: seq<TypeInfo?>)
    reads nodes
    ensures |r| == |nodes| && forall i {:trigger nodes[i].prev} {:trigger r[i]} :: 0 <= i < |nodes| ==> r[i] == nodes[i].prev
  {
    seq(|nodes|, i requires 0 <= i < |nodes| reads nodes => nodes[i].prev)
  }

  /** The back pointers after that, from those before. */
  predicate Rewired(ty: TypeInfo, nodes: seq<TypeInfo>, j: nat, k: nat, was: seq<TypeInfo?>)
    requires j <= k < |nodes| && |was| == |nodes|
    reads nodes
  {
    forall i {:trigger nodes[i].prev} :: 0 <= i < |nodes| ==>
      nodes[i].prev == if i == (if j == 0 then k + 1 else 0) then nodes[k] else if i == k + 1 then Before(ty, nodes, j) else was[i]
  }

  lemma BacksAreMoved(ty: TypeInfo, nodes: seq<TypeInfo>, j: nat, k: nat, stale: nat, was: seq<TypeInfo?>)
    requires j <= k < |nodes| && |was| == |nodes| && Rewired(ty, nodes, j, k, was)
    requires forall i :: 0 < i < |nodes| && i != stale && i != k ==> was[i] == nodes[i - 1]
    requires 0 < stale < |nodes| && stale != k ==> was[stale] == ty
    ensures BackMoved(ty, nodes, j, k, stale)
  {
  }

  /** The second half: `s` goes between `ty` and the node behind it. */
  method PutInFront(ty: TypeInfo, s: TypeInfo, ghost nodes: seq<TypeInfo>, ghost f: nat, ghost k: nat)
    requires Distinct(ty, nodes) && k < |nodes| && f != k && s == nodes[k] && ty.next == At(nodes, f)
    modifies ty`next, nodes
    ensures ty.next == s && s.next == At(nodes, f) && ty.prev == old(ty.prev)
    ensures forall i {:trigger nodes[i].next} :: 0 <= i < |nodes| && i != k ==> nodes[i].next == old(nodes[i].next)
    ensures forall i {:trigger nodes[i].prev} :: 0 <= i < |nodes| ==> nodes[i].prev == if i == f then s else old(nodes[i].prev)
  {
    Apart(ty, nodes, k);
    if f < |nodes| { Apart(ty, nodes, f); }
    hide Distinct;
    s.next := ty.next;
    if ty.next != null {
      ty.next.prev := s;
    }
    ty.next := s;
  }

  lemma Apart(ty: TypeInfo, nodes: seq<TypeInfo>, m: nat)
    requires Distinct(ty, nodes) && m < |nodes|
    ensures nodes[m] != ty && nodes[m] in nodes
    ensures forall i :: 0 <= i < |nodes| && i != m ==> nodes[i] != nodes[m]
  {
  }

  /** The first half: what `s` takes for its predecessor goes on behind `s`. */
  method TakeOut(ty: TypeInfo, s: TypeInfo, ghost nodes: seq<TypeInfo>, ghost j: nat, ghost k: nat)
    requires Chained(ty, nodes) && j <= k < |nodes| && 0 < k && s == nodes[k] && s.prev == Before(ty, nodes, j)
    modifies ty`next, nodes
    ensures ty.prev == old(ty.prev) && ty.next == if j == 0 then At(nodes, k + 1) else nodes[0]
    ensures forall i {:trigger nodes[i].next} :: 0 <= i < |nodes| ==> nodes[i].next == At(nodes, if i == j - 1 then k + 1 else i + 1)
    ensures forall i {:trigger nodes[i].prev} :: 0 <= i < |nodes| ==> nodes[i].prev == if i == k + 1 then Before(ty, nodes, j) else old(nodes[i].prev)
  {
    if j > 0 { Apart(ty, nodes, j - 1); }
    if k + 1 < |nodes| { Apart(ty, nodes, k + 1); }
    hide Distinct;
    s.prev.next := s.next;
    if s.next != null {
      s.next.prev := s.prev;
    }
  }

  lemma CutIsToFront<T>(s: seq<T>, k: nat)
    requires k < |s|
    ensures Cut(s, k, k) == ToFront(s, k)
    ensures Cut(s, 0, k) == s[k..]
  {
  }

  lemma FoundAt(nodes: seq<TypeInfo>, c: string, k: nat)
    requires k < |nodes| && nodes[k].name == c && c !in Names(nodes)[..k]
    ensures LookUp(Names(nodes), c) == Names(ToFront(nodes, k))
    ensures multiset(ToFront(nodes, k)) == multiset(nodes) && ToFront(nodes, k)[0] == nodes[k]
    ensures k == 0 ==> ToFront(nodes, k) == nodes
    ensures c in Names(nodes) && Find(Names(nodes), c) == k
  {
    FirstIsFound(Names(nodes), c, k);
    assert nodes == nodes[..k] + [nodes[k]] + nodes[k + 1..];
    assert Names(nodes)[k] == c;
    var a, b := ToFront(Names(nodes), k), Names(ToFront(nodes, k));
    forall i | 0 <= i < |nodes| ensures a[i] == b[i] {
      ToFrontAt(Names(nodes), k, i);
      ToFrontAt(nodes, k, i);
    }
  }

  lemma FirstIsFound(names: seq<string>, c: string, k: nat)
    requires k < |names| && names[k] == c && c !in names[..k]
    ensures Find(names, c) == k
  {
  }

  lemma NotFound(names: seq<string>, c: string)
    requires c !in names
    ensures LookUp(names, c) == names
  {
  }

  lemma OneFurther(nodes: seq<TypeInfo>, c: string, k: nat)
    requires k < |nodes| && nodes[k].name != c && c !in Names(nodes)[..k]
    ensures c !in Names(nodes)[..k + 1]
  {
    assert Names(nodes)[..k + 1] == Names(nodes)[..k] + [nodes[k].name];
  }

  /**
   `SWIG_TypeCheck`.  With sound back pointers it moves the hit to the front.  When a stale one leads past
   `stale` nodes, a hit on its node loses these.
   */
  method TypeCheck(c: string, ty: TypeInfo?, ghost nodes: seq<TypeInfo>, ghost stale: nat := 0)
    returns (s: TypeInfo?, ghost after: seq<TypeInfo>)
    requires ty != null ==> BackedBut(ty, nodes, stale)
    modifies if ty == null then {} else {ty} + set n | n in nodes
    ensures ty == null ==> s == null && after == nodes
    ensures ty != null ==> Chained(ty, after) && ty.prev == old(ty.prev) && (stale == 0 ==> Linked(ty, after))
    ensures ty != null && c in Names(nodes) ==> after != [] && s == after[0] && s.name == c && s == nodes[Find(Names(nodes), c)]
    ensures ty != null && c !in Names(nodes) ==> s == null && after == nodes
    ensures ty != null && c in Names(nodes) && 0 < stale && Find(Names(nodes), c) == stale ==>
              after == nodes[stale..] && Linked(ty, after)
    ensures ty != null && !(c in Names(nodes) && 0 < stale && Find(Names(nodes), c) == stale) ==>
              multiset(after) == multiset(nodes) && Names(after) == LookUp(Names(nodes), c)
    ensures ty != null ==>
              var l := StaleLookUp(Chain(Names(nodes), stale), c); Names(after) == l.names && BackedBut(ty, after, l.stale)
    ensures multiset(after) <= multiset(nodes)
  {
    hide LookUp, ToFront, Find, Names, Cut, StaleLookUp, NextStale;
    after := nodes;
    if ty == null {
      return null, nodes;
    }
    s := ty.next;
    ghost var k := 0;
    while s != null
      invariant BackedBut(ty, nodes, stale) && ty.prev == old(ty.prev)
      invariant k <= |nodes| && s == At(nodes, k) && c !in Names(nodes)[..k]
      decreases |nodes| - k
    {
      if s.name == c {
        FoundAt(nodes, c, k);
        CutIsToFront(nodes, k);
        StaleFoundAt(nodes, c, k, stale);
        after := if k == stale then nodes[k..] else ToFront(nodes, k);
        if s != ty.next {
          Relink(ty, s, nodes, if k == stale then 0 else k, k, stale);
        }
        return;
      }
      OneFurther(nodes, c, k);
      s := s.next;
      k := k + 1;
    }
    assert Names(nodes)[..k] == Names(nodes);
    NotFound(Names(nodes), c);
    StaleNotFound(Chain(Names(nodes), stale), c);
  }

  lemma StaleFoundAt(nodes: seq<TypeInfo>, c: string, k: nat, stale: nat)
    requires k < |nodes| && nodes[k].name == c && c !in Names(nodes)[..k]
    ensures StaleLookUp(Chain(Names(nodes), stale), c)
         == if k == 0 then Chain(Names(nodes), stale)
            else Chain(Names(if k == stale then nodes[k..] else ToFront(nodes, k)), NextStale(stale, k))
    ensures k == stale ==> NextStale(stale, k) == 0
    ensures multiset(if k == stale then nodes[k..] else ToFront(nodes, k)) <= multiset(nodes)
  {
    hide Find, ToFront;
    FoundAt(nodes, c, k);
    NamesFrom(nodes, k);
  }

  lemma NamesFrom(nodes: seq<TypeInfo>, k: nat)
    requires k < |nodes|
    ensures Names(nodes)[k..] == Names(nodes[k..]) && multiset(nodes[k..]) <= multiset(nodes)
  {
    assert nodes == nodes[..k] + nodes[k..];
  }

  lemma StaleNotFound(l: Chain, c: string)
    requires c !in l.names
    ensures StaleLookUp(l, c) == l
  {
  }

  /** Any sequence of lookups on a list with a stale back pointer has the effect of `StaleLookUpAll` on its names. */
  method TypeCheckStale(cs: seq<string>, ty: TypeInfo, ghost nodes: seq<TypeInfo>, ghost stale: nat)
    returns (ghost after: seq<TypeInfo>)
    requires BackedBut(ty, nodes, stale)
    modifies ty, nodes
    ensures multiset(after) <= multiset(nodes) && ty.prev == old(ty.prev)
    ensures var l := StaleLookUpAll(Chain(Names(nodes), stale), cs); Names(after) == l.names && BackedBut(ty, after, l.stale)
  {
    hide BackedBut, StaleLookUp, Names, LookUp, Find;
    after := nodes;
    ghost var l := Chain(Names(nodes), stale);
    for i := 0 to |cs|
      invariant multiset(after) <= multiset(nodes) && ty.prev == old(ty.prev)
      invariant l == StaleLookUpAll(Chain(Names(nodes), stale), cs[..i])
      invariant Names(after) == l.names && BackedBut(ty, after, l.stale)
    {
      assert cs[..i + 1][..i] == cs[..i];
      forall n | n in after ensures n in nodes { assert n in multiset(after); }
      var s;
      s, after := TypeCheck(cs[i], ty, after, l.stale);
      l := StaleLookUp(l, cs[i]);
    }
    assert cs[..|cs|] == cs;
  }

  /** Any sequence of lookups on a list keeps it linked, and has the effect of `LookUpAll` on its names. */
  method TypeCheckAll(cs: seq<string>, ty: TypeInfo, ghost nodes: seq<TypeInfo>) returns (ghost after: seq<TypeInfo>)
    requires Linked(ty, nodes)
    modifies ty, nodes
    ensures Linked(ty, after) && multiset(after) == multiset(nodes) && ty.prev == old(ty.prev)
    ensures Names(after) == LookUpAll(Names(nodes), cs)
  {
    after := nodes;
    for i := 0 to |cs|
      invariant Linked(ty, after) && multiset(after) == multiset(nodes) && ty.prev == old(ty.prev)
      invariant Names(after) == LookUpAll(Names(nodes), cs[..i])
    {
      assert cs[..i + 1][..i] == cs[..i];
      forall n | n in after ensures n in nodes { assert n in multiset(after); }
      var s;
      s, after := TypeCheck(cs[i], ty, after);
    }
    assert cs[..|cs|] == cs;
  }

  // ---------------------------------------------------------------- registration

  /** The heads of the registered lists, the last one first, each pointing back to the one before. */
  class Registry {
    var heads: TypeInfo?
    ghost var registered: seq<TypeInfo>

    ghost predicate Valid()
      reads this, registered
    {
      && (forall i, j :: 0 <= i < j < |registered| ==> registered[i].name != registered[j].name)
      && heads == At(registered, 0)
      && forall i {:trigger registered[i].prev} :: 0 <= i < |registered| ==> registered[i].prev == At(registered, i + 1)
    }

    constructor ()
      ensures Valid() && registered == []
    {
      heads := null;
      registered := [];
    }

    /** The search of `SWIG_TypeRegister`. */
    method FindHead(name: string) returns (tc: TypeInfo?)
      requires Valid()
      ensures tc == null ==> forall n :: n in registered ==> n.name != name
      ensures tc != null ==> tc in registered && tc.name == name
    {
      tc := heads;
      ghost var k := 0;
      while tc != null
        invariant k <= |registered| && tc == At(registered, k)
        invariant forall i :: 0 <= i < k ==> registered[i].name != name
        decreases |registered| - k
      {
        if tc.name == name {
          return;
        }
        tc := tc.prev;
        k := k + 1;
      }
    }

    /** A new head goes in front of the registered ones. */
    method Place(ti: TypeInfo)
      requires Valid() && forall n :: n in registered ==> n.name != ti.name
      modifies this, ti`prev
      ensures Valid() && registered == [ti] + old(registered)
    {
      ghost var before := registered;
      assert ti !in before && forall i :: 0 <= i < |before| ==> before[i] in before;
      ti.prev := heads;
      heads := ti;
      registered := [ti] + before;
    }

    /**
     `SWIG_TypeRegister`: `ti` is the table of a type and of the names that pass for it.  The other nodes of
     the table go in front of the list of the type, which is empty if the type was not registered before.
     */
    method TypeRegister(ti: seq<TypeInfo>) returns (ret: TypeInfo)
      requires Valid() && ti != [] && Distinct(ti[0], ti[1..]) && forall n :: n in ti[1..] ==> n !in registered
      modifies this, ti, set h | h in registered :: h`next
      ensures Valid() && ret in registered && ret.name == ti[0].name
      ensures registered == if forall n :: n in old(registered) ==> n.name != ti[0].name
                            then [ti[0]] + old(registered) else old(registered)
      ensures Joined(ret, ti[1..], if ret in old(registered) then old(ret.next) else null)
      ensures ret !in old(registered) ==> Linked(ret, ti[1..])
    {
      hide Distinct;
      ghost var before := registered;
      var tc := FindHead(ti[0].name);
      var head, next := tc, null;
      if tc != null {
        next := tc.next;
      } else {
        head := ti[0];
        Place(head);
      }
      ret := head;
      HeadIsApart(ret, ti, before);
      LinkUp(ret, ti[1..], next);
      if next == null { JoinedIsLinked(ret, ti[1..]); }
      assert forall i :: 0 <= i < |registered| ==> registered[i] !in ti[1..];
    }
  }

  /** A list that starts with `rest`, back pointers included, and goes on with `next`. */
  predicate Joined(first: TypeInfo, rest: seq<TypeInfo>, next: TypeInfo?)
    reads first, rest
  {
    && first.next == (if rest == [] then next else rest[0])
    && (forall i {:trigger rest[i].next} :: 0 <= i < |rest| ==> rest[i].next == if i + 1 < |rest| then rest[i + 1] else next)
    && forall i {:trigger rest[i].prev} :: 0 <= i < |rest| ==> rest[i].prev == Before(first, rest, i)
  }

  lemma JoinedIsLinked(first: TypeInfo, rest: seq<TypeInfo>)
    requires Joined(first, rest, null) && Distinct(first, rest)
    ensures Linked(first, rest)
  {
  }

  lemma HeadIsApart(head: TypeInfo, ti: seq<TypeInfo>, registered: seq<TypeInfo>)
    requires ti != [] && Distinct(ti[0], ti[1..]) && (head == ti[0] || head in registered)
    requires forall n :: n in ti[1..] ==> n !in registered
    ensures Distinct(head, ti[1..]) && head !in ti[1..] && forall n :: n in ti[1..] ==> n in ti
  {
    assert forall i :: 0 <= i < |ti[1..]| ==> ti[1..][i] in ti[1..] && ti[1..][i] in ti;
  }

  /** The loop of `SWIG_TypeRegister` that patches up the rest of the links, and then goes on with the old list. */
  method LinkUp(first: TypeInfo, rest: seq<TypeInfo>, next: TypeInfo?)
    requires Distinct(first, rest)
    modifies first`next, rest
    ensures Joined(first, rest, next) && first.prev == old(first.prev)
  {
    var head, i := first, 0;
    hide Distinct;
    while i < |rest|
      invariant 0 <= i <= |rest| && head == Before(first, rest, i) && (i > 0 ==> first.next == rest[0])
      invariant first.prev == old(first.prev)
      invariant forall j {:trigger rest[j].next} :: 0 <= j < i - 1 ==> rest[j].next == rest[j + 1]
      invariant forall j {:trigger rest[j].prev} :: 0 <= j < i ==> rest[j].prev == Before(first, rest, j)
    {
      var tc := rest[i];
      Apart(first, rest, i);
      if i > 0 { Apart(first, rest, i - 1); }
      head.next := tc;
      tc.prev := head;
      head := tc;
      i := i + 1;
    }
    if i > 0 { Apart(first, rest, i - 1); }
    head.next := next;
  }

  // ---------------------------------------------------------------- what becomes of a list

  lemma ConcatDistinct(first: TypeInfo, rest: seq<TypeInfo>, olds: seq<TypeInfo>)
    requires Distinct(first, rest) && Distinct(first, olds) && forall n :: n in olds ==> n !in rest
    ensures Distinct(first, rest + olds)
  {
    var s := rest + olds;
    forall i, j | 0 <= i < j < |s| ensures s[i] != s[j] {
      if i < |rest| <= j { assert s[i] in rest && s[j] == olds[j - |rest|] && s[j] in olds; }
    }
  }

  /**
   New nodes in front of the old list: all of them hang behind the head.  The back pointer of the former
   front node is stale, so the list is linked both ways exactly if nothing was added or it was empty.
   */
  lemma LinkedExactlyIfNotJoined(first: TypeInfo, rest: seq<TypeInfo>, olds: seq<TypeInfo>)
    requires Joined(first, rest, At(olds, 0)) && Distinct(first, rest) && Distinct(first, olds)
    requires forall n :: n in olds ==> n !in rest
    requires forall i {:trigger olds[i].next} :: 0 <= i < |olds| ==> olds[i].next == At(olds, i + 1)
    requires forall i :: 0 < i < |olds| ==> olds[i].prev == olds[i - 1]
    requires olds != [] ==> olds[0].prev !in rest
    ensures Chained(first, rest + olds)
    ensures Linked(first, rest + olds) <==> rest == [] || olds == []
    ensures (olds != [] ==> olds[0].prev == first) ==> BackedBut(first, rest + olds, |rest|)
  {
    var s := rest + olds;
    ConcatDistinct(first, rest, olds);
    forall i: nat | i < |s| ensures s[i].next == At(s, i + 1) {
      if i >= |rest| { assert s[i] == olds[i - |rest|]; }
    }
    forall i | 0 < i < |s| && i != |rest| ensures s[i].prev == s[i - 1] {
      if i > |rest| { assert s[i] == olds[i - |rest|] && s[i - 1] == olds[i - |rest| - 1]; }
    }
    if rest != [] && olds != [] { assert s[|rest|].prev != s[|rest| - 1] by { assert s[|rest|] == olds[0] && s[|rest| - 1] in rest; } }
  }

  /**
   Types are lost: a type is registered again with more names, and then `c`, the name in front of its
   list before, is looked up.  All the names that were added are gone.
   */
  method LookUpAfterRegistration(reg: Registry, ti: seq<TypeInfo>, c: string, ghost ty: TypeInfo, ghost olds: seq<TypeInfo>)
    returns (s: TypeInfo?)
    requires reg.Valid() && |ti| > 1 && Distinct(ti[0], ti[1..]) && forall n :: n in ti[1..] ==> n !in reg.registered
    requires ty in reg.registered && ty.name == ti[0].name && Linked(ty, olds) && forall n :: n in olds ==> n !in ti && n !in reg.registered
    requires olds != [] && olds[0].prev == ty && olds[0].name == c && c !in Names(ti[1..])
    modifies reg, ti, olds, set h | h in reg.registered
    ensures s == olds[0] && Linked(ty, olds)
  {
    ghost var rest := ti[1..];
    HeadIsApart(ty, ti, reg.registered);
    forall i | 0 <= i < |olds| ensures olds[i] !in ti && olds[i] !in reg.registered { assert olds[i] in olds; }
    ChainedIs(ty, olds);
    hide Names, Distinct;
    var ret := reg.TypeRegister(ti);
    assert ret == ty;
    s := LookUpBehind(ret, rest, olds, c);
  }

  /** The lookup takes the stale back pointer and leaves `rest` behind. */
  method LookUpBehind(ty: TypeInfo, ghost rest: seq<TypeInfo>, ghost olds: seq<TypeInfo>, c: string) returns (s: TypeInfo?)
    requires Joined(ty, rest, At(olds, 0)) && rest != [] && Distinct(ty, rest) && Distinct(ty, olds)
    requires forall n :: n in olds ==> n !in rest
    requires forall i {:trigger olds[i].next} :: 0 <= i < |olds| ==> olds[i].next == At(olds, i + 1)
    requires forall i :: 0 <= i < |olds| ==> olds[i].prev == Before(ty, olds, i)
    requires olds != [] && olds[0].name == c && c !in Names(rest) && ty !in rest
    modifies ty, rest, olds
    ensures s == olds[0] && Linked(ty, olds)
  {
    hide Chained, Names, Find, Distinct, Joined;
    LinkedExactlyIfNotJoined(ty, rest, olds);
    FoundBehind(rest, olds, c);
    ghost var after;
    s, after := TypeCheck(c, ty, rest + olds, |rest|);
    assert after == (rest + olds)[|rest|..] == olds;
  }

  lemma FoundBehind(rest: seq<TypeInfo>, olds: seq<TypeInfo>, c: string)
    requires olds != [] && olds[0].name == c && c !in Names(rest)
    ensures Find(Names(rest + olds), c) == |rest| && c in Names(rest + olds)
  {
    var all := Names(rest + olds);
    assert all[..|rest|] == Names(rest) && all[|rest|] == c;
    FirstIsFound(all, c, |rest|);
  }

  // ---------------------------------------------------------------- the same table twice

  /** The list bites its tail. */
  predicate Circular(first: TypeInfo, rest: seq<TypeInfo>)
    reads first, rest
  {
    rest != [] && Joined(first, rest, rest[0])
  }

  /** A table with more than one node registered twice makes a circular list. */
  method RegisterTwice(reg: Registry, ti: seq<TypeInfo>) returns (ret: TypeInfo)
    requires reg.Valid() && |ti| > 1 && Distinct(ti[0], ti[1..])
    requires forall n :: n in ti ==> n !in reg.registered
    requires forall n :: n in reg.registered ==> n.name != ti[0].name
    modifies reg, ti, set h | h in reg.registered
    ensures ret == ti[0] && Circular(ret, ti[1..])
  {
    hide Distinct;
    HeadIsApart(ti[0], ti, reg.registered);
    var once := reg.TypeRegister(ti);
    assert once == ti[0];
    ret := reg.TypeRegister(ti);
  }

  /** The node that `k` steps lead to. */
  ghost function Walk(first: TypeInfo, rest: seq<TypeInfo>, k: nat): TypeInfo?
    reads first, rest
  {
    if k == 0 then first.next
    else
      var s := Walk(first, rest, k - 1);
      if s == null || s !in rest then null else s.next
  }

  /** On such a list a lookup of a name that is not there goes round for ever. */
  lemma {:induction false} CircularNeverEnds(first: TypeInfo, rest: seq<TypeInfo>, k: nat)
    requires Circular(first, rest)
    ensures rest != [] && Walk(first, rest, k) != null && Walk(first, rest, k) == rest[k % |rest|]
  {
    NotEmpty(first, rest);
    hide Circular;
    if k > 0 {
      CircularNeverEnds(first, rest, k - 1);
      NextIndex(k, |rest|);
      NextInCircle(first, rest, (k - 1) % |rest|);
    } else {
      FirstInCircle(first, rest);
    }
  }

  lemma NotEmpty(first: TypeInfo, rest: seq<TypeInfo>)
    requires Circular(first, rest)
    ensures rest != []
  {
  }

  lemma FirstInCircle(first: TypeInfo, rest: seq<TypeInfo>)
    requires Circular(first, rest)
    ensures first.next == rest[0] && 0 % |rest| == 0
  {
  }

  lemma NextInCircle(first: TypeInfo, rest: seq<TypeInfo>, i: nat)
    requires Circular(first, rest) && i < |rest|
    ensures rest[i].next == rest[if i + 1 < |rest| then i + 1 else 0] && rest[i] in rest
  {
  }

  lemma NextIndex(k: nat, n: nat)
    requires k > 0 && n > 0
    ensures k % n == if (k - 1) % n + 1 < n then (k - 1) % n + 1 else 0
  {
    var q, i := (k - 1) / n, (k - 1) % n;
    assert k == n * q + i + 1;
    if i + 1 < n {
      DivModUnique(k, n, q, i + 1);
    } else {
      assert n * (q + 1) == n * q + n;
      DivModUnique(k, n, q + 1, 0);
    }
  }

  lemma ChainedIs(ty: TypeInfo, nodes: seq<TypeInfo>)
    requires Chained(ty, nodes)
    ensures Distinct(ty, nodes) && ty.next == At(nodes, 0)
    ensures forall i {:trigger nodes[i].next} :: 0 <= i < |nodes| ==> nodes[i].next == At(nodes, i + 1)
  {
  }
}
