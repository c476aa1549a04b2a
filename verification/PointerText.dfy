/**
 Pointers as text in examples/canLtwo_wrap.c: an underscore, the value in hexadecimal without leading
 zeros, and the name of the type.  C strings are taken without their terminating NUL.
 */
module PointerText {
  import opened Words
  import opened Options
  import opened Swig

  predicate IsHex(ch: char) { '0' <= ch <= '9' || 'a' <= ch <= 'f' }

  predicate StartsWithHex(s: string) { s != "" && IsHex(s[0]) }

  function Digit(s: nat): (ch: char)
    requires s < 16
    ensures IsHex(ch) && Value(ch) == s
  {
    "0123456789abcdef"[s]
  }

  function Value(ch: char): nat
    requires IsHex(ch)
  {
    if ch <= '9' then ch as int - '0' as int else ch as int - ('a' as int - 10)
  }

  /** The digits of a positive value, the most significant first. */
  function Hex(p: nat): string {
    if p == 0 then "" else Hex(p / 16) + [Digit(p % 16)]
  }

  function PtrText(p: nat, name: string): string {
    if p == 0 then "NULL" else "_" + Hex(p) + name
  }

  // ---------------------------------------------------------------- SWIG_MakePtr

  function Pow16(k: nat): (r: int)
    ensures r > 0
  {
    if k == 0 then 1 else 16 * Pow16(k - 1)
  }

  lemma Pow16Value()
    ensures Pow16(16) == TWO64
  {
    assert Pow16(8) == 0x1_0000_0000;
    assert Pow16(16) == 16 * (16 * (16 * (16 * (16 * (16 * (16 * (16 * Pow16(8))))))));
  }

  function Reversed(s: string): (r: string)
    ensures |r| == |s|
  {
    if s == "" then "" else [s[|s| - 1]] + Reversed(s[..|s| - 1])
  }

  lemma NibbleAndRest(p: nat)
    ensures BitAnd(p, 0xf) == p % 16 && Shr(p, 4) == p / 16
  {
    assert Pow2(4) == 16;
    BitAndMask(p, 4);
    assert Shr(p, 4) == Shr(p / 2, 3) == Shr(p / 2 / 2, 2) == Shr(p / 2 / 2 / 2, 1) == p / 2 / 2 / 2 / 2;
  }

  /** The digits come out least significant first, and never overflow the buffer. */
  method StoreDigits(result: array<char>, p: nat) returns (r: nat)
    requires result.Length == 24 && p < TWO64
    modifies result
    ensures r <= 16 && Reversed(result[..r]) == Hex(p)
  {
    hide Shr, BitAnd, IsHex, Value;
    Pow16Value();
    r := 0;
    var q: nat := p;
    while q > 0
      invariant r <= 16 && q < Pow16(16 - r) && Hex(q) + Reversed(result[..r]) == Hex(p)
      decreases q
    {
      NibbleAndRest(q);
      ghost var was := result[..r];
      result[r] := Digit(BitAnd(q, 0xf));
      assert result[..r + 1] == was + [Digit(q % 16)];
      assert (was + [Digit(q % 16)])[..r] == was;
      q := Shr(q, 4);
      r := r + 1;
    }
  }

  /** `SWIG_MakePtr` */
  method MakePtr(p: nat, name: string) returns (c: string)
    requires p < TWO64
    ensures c == PtrText(p, name)
  {
    if p == 0 {
      return "NULL";
    }
    var result := new char[24](_ => ' ');
    var r := StoreDigits(result, p);
    ghost var digits := result[..r];
    result[r] := '_';
    assert result[..r] == digits;
    c := CopyBack(result, r);
    c := c + name;
  }

  /** The copy loop runs backward from the underscore. */
  method CopyBack(result: array<char>, n: nat) returns (c: string)
    requires n < result.Length
    ensures c == [result[n]] + Reversed(result[..n])
  {
    hide Reversed;
    ghost var digits := result[..n];
    ghost var text := [result[n]] + Reversed(digits);
    var r: int := n;
    c := "";
    while r >= 0
      invariant -1 <= r <= n && c == text[..n - r]
    {
      if r < n { ReversedAt(digits, n - 1 - r); }
      assert result[r] == text[n - r];
      c := c + [result[r]];
      r := r - 1;
    }
  }

  lemma {:induction false} ReversedAt(s: string, i: nat)
    requires i < |s|
    ensures Reversed(s)[i] == s[|s| - 1 - i]
    decreases |s|
  {
    if i > 0 { ReversedAt(s[..|s| - 1], i - 1); }
  }

  // ---------------------------------------------------------------- reading it back

  /** How many hexadecimal digits come first. */
  function Leading(s: string): (k: nat)
    ensures k <= |s|
  {
    if StartsWithHex(s) then 1 + Leading(s[1..]) else 0
  }

  /** The value that the digits make in an `unsigned long`. */
  function Worth(s: string): (r: nat)
    requires forall i :: 0 <= i < |s| ==> IsHex(s[i])
    ensures r < TWO64
  {
    if s == "" then 0 else (16 * Worth(s[..|s| - 1]) + Value(s[|s| - 1])) % TWO64
  }

  lemma {:induction false} LeadingAreHex(s: string)
    ensures forall i :: 0 <= i < Leading(s) ==> IsHex(s[i])
    ensures Leading(s) < |s| ==> !IsHex(s[Leading(s)])
  {
    if StartsWithHex(s) {
      LeadingAreHex(s[1..]);
      assert forall i :: 0 < i < |s| ==> s[i] == s[1..][i - 1];
    }
  }

  lemma {:induction false} LeadingIs(s: string, k: nat)
    requires k <= |s| && (forall i :: 0 <= i < k ==> IsHex(s[i])) && (k < |s| ==> !IsHex(s[k]))
    ensures Leading(s) == k
    decreases k
  {
    if k > 0 {
      assert forall i :: 0 <= i < k - 1 ==> s[1..][i] == s[i + 1];
      LeadingIs(s[1..], k - 1);
    }
  }

  /** The loop that both readers share: the value of the leading digits, and what follows them. */
  method ReadHex(s: string) returns (p: nat, rest: string)
    ensures rest == s[Leading(s)..]
    ensures (forall i :: 0 <= i < Leading(s) ==> IsHex(s[..Leading(s)][i])) && p == Worth(s[..Leading(s)])
  {
    p := 0;
    var i := 0;
    while i < |s| && IsHex(s[i])
      invariant i <= |s| && (forall j :: 0 <= j < i ==> IsHex(s[j])) && p == Worth(s[..i])
    {
      assert s[..i + 1][..i] == s[..i];
      p := (16 * p + Value(s[i])) % TWO64;
      i := i + 1;
    }
    LeadingIs(s, i);
    rest := s[i..];
  }

  /** `SWIG_TypeCast` for the entry with that name. */
  function Cast(types: seq<TypeInfo>, name: string, p: nat): int {
    var k := Find(Names(types), name);
    if k < |types| && types[k].converter.Some? then types[k].converter.value(p) else p
  }

  /** Result and pointer of `SWIG_ConvertPtrFromString`; `types` is the list of the wanted type, if any. */
  function Converted(c: string, types: Option<seq<TypeInfo>>): (bool, int) {
    if c == "" || c[0] != '_' then (c == "NULL", 0)
    else
      var k := Leading(c[1..]);
      LeadingAreHex(c[1..]);
      var p, rest := Worth(c[1..][..k]), c[1..][k..];
      if types.Some? && rest !in Names(types.value) then (false, p)
      else (true, if types.Some? then Cast(types.value, rest, p) else p)
  }

  /** `SWIG_TypeCast` */
  method TypeCast(ty: TypeInfo?, p: nat) returns (r: int)
    ensures r == if ty == null || ty.converter.None? then p else ty.converter.value(p)
  {
    if ty == null || ty.converter.None? {
      return p;
    }
    r := ty.converter.value(p);
  }

  /** `SWIG_ConvertPtrFromString` */
  method ConvertPtrFromString(c: string, ty: TypeInfo?, ghost nodes: seq<TypeInfo>)
    returns (ok: bool, ptr: int, ghost after: seq<TypeInfo>)
    requires ty != null ==> Linked(ty, nodes)
    modifies if ty == null then {} else {ty} + set n | n in nodes
    ensures (ok, ptr) == Converted(c, if ty == null then None else Some(nodes))
    ensures ty != null ==> Linked(ty, after) && multiset(after) == multiset(nodes)
  {
    after := nodes;
    if c == "" || c[0] != '_' {
      return c == "NULL", 0, nodes;
    }
    var p, rest := ReadHex(c[1..]);
    ok, ptr := true, p;
    if ty != null {
      var tc;
      tc, after := TypeCheck(rest, ty, nodes);
      if tc == null {
        ok := false;
      } else {
        ptr := TypeCast(tc, p);
      }
    }
  }

  /** What `SWIG_PointerTypeFromString` finds. */
  function TypeOf(c: string): Option<string> {
    if c == "" || c[0] != '_' then None else Some(c[1..][Leading(c[1..])..])
  }

  /** `SWIG_PointerTypeFromString` */
  method PointerTypeFromString(c: string) returns (t: Option<string>)
    ensures t == TypeOf(c)
  {
    if c == "" || c[0] != '_' {
      return None;
    }
    var _, rest := ReadHex(c[1..]);
    t := Some(rest);
  }

  // ---------------------------------------------------------------- round trip

  lemma {:induction false} HexIsHex(p: nat)
    ensures forall i :: 0 <= i < |Hex(p)| ==> IsHex(Hex(p)[i])
  {
    if p > 0 { HexIsHex(p / 16); }
  }

  lemma {:induction false} HexReadsBack(p: nat)
    ensures forall i :: 0 <= i < |Hex(p)| ==> IsHex(Hex(p)[i])
    ensures Worth(Hex(p)) == p % TWO64
  {
    HexIsHex(p);
    if p > 0 {
      hide IsHex;
      HexReadsBack(p / 16);
      var h, d := Hex(p / 16), Digit(p % 16);
      assert Hex(p) == h + [d] && (h + [d])[..|h|] == h;
      assert Value(d) == p % 16;
      StepWorth(p);
    }
  }

  lemma StepWorth(p: nat)
    ensures (16 * ((p / 16) % TWO64) + p % 16) % TWO64 == p % TWO64
  {
    var q, r := (p / 16) / TWO64, (p / 16) % TWO64;
    var s, t := (16 * r + p % 16) / TWO64, (16 * r + p % 16) % TWO64;
    assert p == 16 * (TWO64 * q + r) + p % 16;
    assert p == TWO64 * (16 * q + s) + t;
    DivModUnique(p, TWO64, 16 * q + s, t);
  }

  lemma LeadingOfText(p: nat, name: string)
    ensures if StartsWithHex(name) then Leading(Hex(p) + name) > |Hex(p)| else Leading(Hex(p) + name) == |Hex(p)|
  {
    HexReadsBack(p);
    var s, n := Hex(p) + name, |Hex(p)|;
    if StartsWithHex(name) {
      LeadingAreHex(s);
      assert forall i :: 0 <= i <= n ==> IsHex(s[i]);
    } else {
      LeadingIs(s, n);
    }
  }

  /**
   Every 64-bit value and every type whose name does not start with a hexadecimal digit survive being
   written and read, whether a type is asked for or not; a type asked for may convert the pointer.
   */
  lemma PointerSurvives(p: nat, name: string, types: Option<seq<TypeInfo>>)
    requires p < TWO64 && !StartsWithHex(name) && (types.Some? ==> name in Names(types.value))
    ensures Converted(PtrText(p, name), types) == (true, if types.Some? && p > 0 then Cast(types.value, name, p) else p)
    ensures p > 0 ==> TypeOf(PtrText(p, name)) == Some(name)
  {
    hide Worth, Hex, Leading, Cast, Names, IsHex, StartsWithHex;
    if p > 0 {
      var c, h := PtrText(p, name), Hex(p);
      HexReadsBack(p);
      LeadingOfText(p, name);
      assert c[1..] == h + name && (h + name)[..|h|] == h && (h + name)[|h|..] == name;
    }
  }

  /** The name of the type is read back exactly if it does not start with a hexadecimal digit. */
  lemma TypeSurvivesExactly(p: nat, name: string)
    requires 0 < p < TWO64
    ensures TypeOf(PtrText(p, name)) == Some(name) <==> !StartsWithHex(name)
  {
    var c, h := PtrText(p, name), Hex(p);
    LeadingOfText(p, name);
    assert c[1..] == h + name && (h + name)[|h|..] == name;
    if StartsWithHex(name) {
      assert |(h + name)[Leading(h + name)..]| < |name|;
    }
  }

  // ---------------------------------------------------------------- names that start with a digit

  lemma ModAbsorbs(x: int, y: int, m: int)
    requires m > 0
    ensures (x + y % m) % m == (x + y) % m
  {
    var q := (x + y % m) / m;
    assert x + y == m * (q + y / m) + (x + y % m) % m;
    DivModUnique(x + y, m, q + y / m, (x + y % m) % m);
  }

  lemma OneMoreDigit(x: nat, d: nat)
    ensures (16 * (x % TWO64) + d) % TWO64 == (16 * x + d) % TWO64
  {
    var q, r := x / TWO64, x % TWO64;
    assert 16 * x + d == TWO64 * (16 * q + (16 * r + d) / TWO64) + (16 * r + d) % TWO64;
    DivModUnique(16 * x + d, TWO64, 16 * q + (16 * r + d) / TWO64, (16 * r + d) % TWO64);
  }

  lemma WorthOfDigit(s: string, ch: char)
    requires (forall i :: 0 <= i < |s| ==> IsHex(s[i])) && IsHex(ch)
    ensures forall i :: 0 <= i < |s + [ch]| ==> IsHex((s + [ch])[i])
    ensures Worth(s + [ch]) == (16 * Worth(s) + Value(ch)) % TWO64
  {
    assert (s + [ch])[..|s|] == s;
  }

  /** `w` with the digits of `low` behind it, where `f` is the weight of the first place above these. */
  function Pushed(w: nat, f: nat, low: nat): nat {
    (w * f + low) % TWO64
  }

  /** More digits push the value up by four bits each. */
  lemma {:induction false} WorthOfConcat(a: string, b: string)
    requires forall i :: 0 <= i < |a| ==> IsHex(a[i])
    requires forall i :: 0 <= i < |b| ==> IsHex(b[i])
    ensures forall i :: 0 <= i < |a + b| ==> IsHex((a + b)[i])
    ensures Worth(a + b) == Pushed(Worth(a), Pow16(|b|), Worth(b))
    decreases |b|
  {
    hide Pushed;
    if b == "" {
      assert a + b == a;
      PushedByNothing(Worth(a));
    } else {
      var n := |b| - 1;
      var c, ch := b[..n], b[n];
      WorthOfConcat(a, c);
      WorthOfDigit(a + c, ch);
      WorthOfDigit(c, ch);
      hide *;
      PowerGrows(n);
      assert a + b == a + c + [ch] && b == c + [ch];
      PushUp(Worth(a), Pow16(n), Pow16(|b|), Worth(c), Value(ch), Worth(a + c), Worth(b));
    }
  }

  lemma PushedByNothing(w: nat)
    requires w < TWO64
    ensures Pushed(w, 1, 0) == w
  {
  }

  lemma PowerGrows(n: nat)
    ensures Pow16(n + 1) == 16 * Pow16(n)
  {
  }

  /** One more digit `d` behind `x` and `y`, when `x` is `w` pushed up by `f` and then `low`. */
  lemma PushUp(w: nat, f: nat, g: nat, low: nat, d: nat, x: nat, y: nat)
    requires g == 16 * f && x == Pushed(w, f, low) && y == (16 * low + d) % TWO64
    ensures (16 * x + d) % TWO64 == Pushed(w, g, y)
  {
    var z := w * f + low;
    OneMoreDigit(z, d);
    assert w * g == 16 * (w * f);
    ModAbsorbs(w * g, 16 * low + d, TWO64);
  }

  /** The digits at the start of the name are read as more digits of the value. */
  lemma ReadsOn(p: nat, name: string)
    ensures Leading(Hex(p) + name) == |Hex(p)| + Leading(name)
    ensures (Hex(p) + name)[|Hex(p)| + Leading(name)..] == name[Leading(name)..]
    ensures forall i :: 0 <= i < |Hex(p)| ==> IsHex(Hex(p)[i])
    ensures forall i :: 0 <= i < Leading(name) ==> IsHex(name[..Leading(name)][i])
    ensures (Hex(p) + name)[..|Hex(p)| + Leading(name)] == Hex(p) + name[..Leading(name)]
  {
    HexIsHex(p);
    LeadingAreHex(name);
    hide IsHex, Hex, Leading;
    var s, n, k := Hex(p) + name, |Hex(p)|, Leading(name);
    assert forall i :: 0 <= i < n + k ==> IsHex(s[i]);
    LeadingIs(s, n + k);
    assert s[n + k..] == name[k..] && s[..n + k] == Hex(p) + name[..k];
  }

  lemma SameModulo(p: nat, q: nat)
    requires p < TWO64
    ensures (p + q) % TWO64 == p <==> q % TWO64 == 0
  {
    ModAbsorbs(p, q, TWO64);
    var r := q % TWO64;
    if p + r >= TWO64 { DivModUnique(p + r, TWO64, 1, p + r - TWO64); }
  }

  /** What is read back of a pointer with any name: the digits at its start are taken for digits of the value. */
  lemma PointerReadsAs(p: nat, name: string, types: Option<seq<TypeInfo>>)
    requires 0 < p < TWO64
    ensures forall i :: 0 <= i < Leading(name) ==> IsHex(name[..Leading(name)][i])
    ensures var k := Leading(name);
            var value, rest := (p * Pow16(k) + Worth(name[..k])) % TWO64, name[k..];
            Converted(PtrText(p, name), types) ==
              if types.None? then (true, value as int)
              else if rest in Names(types.value) then (true, Cast(types.value, rest, value))
              else (false, value as int)
  {
    hide Worth, Hex, Leading, IsHex, Pow16, Cast, Names;
    LeadingAreHex(name);
    var c, h, k := PtrText(p, name), Hex(p), Leading(name);
    assert c[1..] == h + name;
    ReadsOn(p, name);
    HexReadsBack(p);
    WorthOfConcat(h, name[..k]);
  }

  /**
   Where no pointer is converted: with `k` hexadecimal digits at the start of the name, of the value `v`,
   the pointer is recovered exactly if it is null, or `p * (16^k - 1) + v` is 0 in 64 bits and the rest of
   the name is a type asked for.
   */
  lemma PointerSurvivesExactly(p: nat, name: string, types: Option<seq<TypeInfo>>)
    requires p < TWO64 && (types.Some? ==> forall t :: t in types.value ==> t.converter.None?)
    ensures forall i :: 0 <= i < Leading(name) ==> IsHex(name[..Leading(name)][i])
    ensures var k := Leading(name);
            Converted(PtrText(p, name), types) == (true, p) <==>
              || p == 0
              || ((p * (Pow16(k) - 1) + Worth(name[..k])) % TWO64 == 0
                  && (types.Some? ==> name[k..] in Names(types.value)))
  {
    hide Worth, Hex, Leading, IsHex, Pow16, Names, Cast;
    LeadingAreHex(name);
    if p > 0 {
      PointerReadsAs(p, name, types);
      var k := Leading(name);
      ComesBackExactly(p, Worth(name[..k]), Pow16(k));
      CastIsNothing(types, name[k..], (p * Pow16(k) + Worth(name[..k])) % TWO64);
    }
  }

  lemma ComesBackExactly(p: nat, v: nat, f: int)
    requires p < TWO64 && f > 0
    ensures (p * f + v) % TWO64 == p <==> (p * (f - 1) + v) % TWO64 == 0
    ensures p * f + v >= 0
  {
    assert p * f + v == p + (p * (f - 1) + v);
    assert p * (f - 1) >= 0;
    SameModulo(p, p * (f - 1) + v);
  }

  lemma CastIsNothing(types: Option<seq<TypeInfo>>, name: string, value: nat)
    requires types.Some? ==> forall t :: t in types.value ==> t.converter.None?
    ensures types.Some? ==> Cast(types.value, name, value) == value
  {
  }

  // ---------------------------------------------------------------- which texts are accepted

  const HEX: string := "0123456789abcdef"

  /** The digits and what they stand for. */
  lemma DigitsAreHexadecimal(ch: char)
    ensures IsHex(ch) <==> ch in HEX
    ensures forall k: nat :: k < 16 ==> IsHex(HEX[k]) && Value(HEX[k]) == k && Digit(k) == HEX[k]
  {
    if IsHex(ch) { assert HEX[Value(ch)] == ch; }
  }

  predicate AllHex(s: string) { forall i :: 0 <= i < |s| ==> IsHex(s[i]) }

  /** An underscore, digits, and a name that starts with none. */
  ghost predicate IsText(c: string, digits: string, name: string) {
    c == "_" + digits + name && AllHex(digits) && !StartsWithHex(name)
  }

  lemma TextIsRead(c: string, digits: string, name: string)
    requires IsText(c, digits, name)
    ensures c != "" && c[0] == '_' && c[1..] == digits + name && Leading(c[1..]) == |digits|
    ensures c[1..][..|digits|] == digits && c[1..][|digits|..] == name
  {
    var s := digits + name;
    assert c == ['_'] + s && c[1..] == s && s[..|digits|] == digits && s[|digits|..] == name;
    assert forall i :: 0 <= i < |digits| ==> IsHex(s[i]);
    LeadingIs(s, |digits|);
  }

  /** Every text with the underscore is one in exactly one way. */
  lemma UnderscoreIsText(c: string)
    requires c != "" && c[0] == '_'
    ensures var k := Leading(c[1..]); IsText(c, c[1..][..k], c[1..][k..])
  {
    var s := c[1..];
    var k := Leading(s);
    LeadingAreHex(s);
    assert c == ['_'] + s && s == s[..k] + s[k..] && c == "_" + s[..k] + s[k..];
    assert k < |s| ==> s[k..][0] == s[k];
  }

  ghost predicate Listed(types: seq<TypeInfo>, name: string) {
    exists k :: 0 <= k < |types| && types[k].name == name
  }

  /**
   A text is accepted exactly if it is "NULL", or an underscore, digits and then a name that starts with
   no digit, which is in the list whenever a type is asked for.  Without the underscore the pointer is null.
   */
  lemma AcceptedExactly(c: string, types: Option<seq<TypeInfo>>)
    ensures Converted(c, types).0 <==>
              c == "NULL" || exists digits, name :: IsText(c, digits, name) && (types.Some? ==> Listed(types.value, name))
    ensures c == "" || c[0] != '_' ==> Converted(c, types).1 == 0
  {
    hide Leading, Worth, IsText, IsHex, StartsWithHex, Cast;
    if c != "" && c[0] == '_' {
      UnderscoreIsText(c);
      var k := Leading(c[1..]);
      var digits, name := c[1..][..k], c[1..][k..];
      if types.Some? { ListedIsNamed(types.value, name); }
      if d, n :| IsText(c, d, n) && (types.Some? ==> Listed(types.value, n)) { TextIsRead(c, d, n); }
    } else if digits, name :| IsText(c, digits, name) {
      TextIsRead(c, digits, name);
    }
  }

  ghost predicate FirstListed(types: seq<TypeInfo>, name: string, k: nat) {
    k < |types| && types[k].name == name && forall j :: 0 <= j < k ==> types[j].name != name
  }

  lemma ListedIsNamed(types: seq<TypeInfo>, name: string)
    ensures Listed(types, name) <==> name in Names(types)
  {
    if k :| 0 <= k < |types| && types[k].name == name { assert Names(types)[k] == name; }
  }

  /** The value of the digits, to which the converter of the first entry with that name is applied, if it has one. */
  lemma AcceptedValue(c: string, digits: string, name: string, types: Option<seq<TypeInfo>>)
    requires IsText(c, digits, name)
    ensures AllHex(digits)
    ensures types.None? || !Listed(types.value, name) ==> Converted(c, types).1 == Worth(digits)
    ensures types.Some? ==> forall k: nat :: FirstListed(types.value, name, k) ==>
              Converted(c, types).1 == match types.value[k].converter
                                       case None => Worth(digits)
                                       case Some(convert) => convert(Worth(digits))
  {
    TextIsRead(c, digits, name);
    hide Leading, Worth;
    if types.Some? {
      ListedIsNamed(types.value, name);
      forall k: nat | FirstListed(types.value, name, k)
        ensures Find(Names(types.value), name) == k
      {
        FirstIsFound(Names(types.value), name, k);
      }
    }
  }

  /** A type is found exactly in the texts with the underscore, and it is what follows the digits. */
  lemma TypeFoundExactly(c: string)
    ensures TypeOf(c).None? <==> c == "" || c[0] != '_'
    ensures forall digits, name :: IsText(c, digits, name) ==> TypeOf(c) == Some(name)
  {
    forall digits, name | IsText(c, digits, name) ensures TypeOf(c) == Some(name) { TextIsRead(c, digits, name); }
  }

  /** A pointer is written as the one numeral of its value that has no leading zero, and a null pointer as "NULL". */
  lemma WrittenText(p: nat, name: string)
    requires p < TWO64
    ensures p == 0 ==> PtrText(p, name) == "NULL"
    ensures p > 0 ==>
              && PtrText(p, name) == "_" + Hex(p) + name && AllHex(Hex(p))
              && 1 <= |Hex(p)| <= 16 && Hex(p)[0] != '0' && Worth(Hex(p)) == p
  {
    if p > 0 {
      HexReadsBack(p);
      Pow16Value();
      HexLength(p, 16);
    }
  }

  lemma {:induction false} HexLength(p: nat, n: nat)
    requires 0 < p < Pow16(n)
    ensures 1 <= |Hex(p)| <= n && Hex(p)[0] != '0'
  {
    if p >= 16 {
      HexLength(p / 16, n - 1);
    } else {
      assert Hex(p) == "" + [Digit(p)];
      assert n > 0;
    }
  }
}
