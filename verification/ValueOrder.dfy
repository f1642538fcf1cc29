/**
 The order on values: operator<, operator== and compare, with the exact conditions
 under which they are a strict total order on values without doubles. They are one
 on values whose containers stay below 2^31 entries.
 */
module ValueOrder {
  import opened Bytes
  import opened Values

  /** The position of a value's type in enum ValueType. */
  function TypeRank(v: Value): nat {
    match v
    case Null => 0
    case Int(_) => 1
    case UInt(_) => 2
    case Real(_) => 3
    case Str(_) => 4
    case Bool(_) => 5
    case Array(_) => 6
    case Object(_) => 7
  }

  /** `int(a - b)` for two unsigned sizes. */
  function SizeDelta(a: nat, b: nat): int {
    var d := (a - b) % 0x1_0000_0000;
    if d < 0x8000_0000 then d else d - 0x1_0000_0000
  }

  /** Value::operator<; comparing two doubles is not modelled. */
  predicate Less(a: Value, b: Value)
    requires RealFree(a) && RealFree(b)
    decreases Depth(a) + Depth(b), 0, 0
  {
    if TypeRank(a) != TypeRank(b) then TypeRank(a) < TypeRank(b)
    else match a
      case Int(i) => i < b.i
      case UInt(u) => u < b.u
      case Bool(p) => !p && b.b
      case Str(s) => BytesLess(s, b.s)
      case Array(es) => ContainerLess(es, b.entries)
      case Object(es) => ContainerLess(es, b.entries)
      case _ => false
  }

  /** Sizes first; std::map's operator< decides between maps of one size. */
  predicate ContainerLess(xs: seq<Member>, ys: seq<Member>)
    requires RealFreeEntries(xs) && RealFreeEntries(ys)
    decreases EntriesDepth(xs) + EntriesDepth(ys), 3, 0
  {
    var delta := SizeDelta(|xs|, |ys|);
    if delta != 0 then delta < 0 else EntriesLess(xs, ys)
  }

  /** std::lexicographical_compare over the entries in key order. */
  predicate EntriesLess(xs: seq<Member>, ys: seq<Member>)
    requires RealFreeEntries(xs) && RealFreeEntries(ys)
    decreases EntriesDepth(xs) + EntriesDepth(ys), 2, |xs|
  {
    if ys == [] then false
    else if xs == [] then true
    else if MemberLess(xs[0], ys[0]) then true
    else if MemberLess(ys[0], xs[0]) then false
    else EntriesLess(xs[1..], ys[1..])
  }

  /** operator< of std::pair. */
  predicate MemberLess(x: Member, y: Member)
    requires RealFreeMember(x) && RealFreeMember(y)
    decreases MemberDepth(x) + MemberDepth(y), 1, 0
  {
    KeyLess(x.key, y.key) || (!KeyLess(y.key, x.key) && Less(x.value, y.value))
  }

  /** Value::operator==. */
  predicate Equal(a: Value, b: Value)
    requires RealFree(a) && RealFree(b)
  {
    TypeRank(a) == TypeRank(b) &&
    match a
    case Int(i) => i == b.i
    case UInt(u) => u == b.u
    case Bool(p) => p == b.b
    case Str(s) => |s| == |b.s| && MemCmp(s, b.s, |s|) == 0
    case Array(es) => |es| == |b.entries| && EntriesEqual(es, b.entries)
    case Object(es) => |es| == |b.entries| && EntriesEqual(es, b.entries)
    case _ => true
  }

  predicate EntriesEqual(xs: seq<Member>, ys: seq<Member>)
    requires RealFreeEntries(xs) && RealFreeEntries(ys) && |xs| == |ys|
  {
    xs != [] ==> MemberEqual(xs[0], ys[0]) && EntriesEqual(xs[1..], ys[1..])
  }

  predicate MemberEqual(x: Member, y: Member)
    requires RealFreeMember(x) && RealFreeMember(y)
  {
    x.key == y.key && Equal(x.value, y.value)
  }

  /** Value::compare. */
  function Compare(a: Value, b: Value): int
    requires RealFree(a) && RealFree(b)
  {
    if Less(a, b) then -1 else if Less(b, a) then 1 else 0
  }

  /** Every container holds fewer than 2^31 entries. */
  predicate Small(v: Value) {
    (v.Array? || v.Object?) ==> |v.entries| < 0x8000_0000 && SmallEntries(v.entries)
  }

  predicate SmallEntries(es: seq<Member>) {
    es != [] ==> SmallMember(es[0]) && SmallEntries(es[1..])
  }

  predicate SmallMember(m: Member) {
    Small(m.value)
  }

  // ---- Which way round ----

  /** Null, signed, unsigned, real, string, boolean, array, object: of two types the one that stands first here is less. */
  lemma TypesOrdered(a: Value, b: Value)
    requires RealFree(a) && RealFree(b)
    ensures a.Null? && !b.Null? ==> Less(a, b)
    ensures a.Int? && !b.Null? && !b.Int? ==> Less(a, b)
    ensures a.UInt? && (b.Str? || b.Bool? || b.Array? || b.Object?) ==> Less(a, b)
    ensures a.Str? && (b.Bool? || b.Array? || b.Object?) ==> Less(a, b)
    ensures a.Bool? && (b.Array? || b.Object?) ==> Less(a, b)
    ensures a.Array? && b.Object? ==> Less(a, b)
  {
  }

  /** Numbers by size, strings by their bytes, false before true, and the smaller container first. */
  lemma ScalarsOrdered(i: int, j: int, p: bool, q: bool, s: bytes, t: bytes)
    ensures Less(Int(i), Int(j)) <==> i < j
    ensures Less(UInt(i), UInt(j)) <==> i < j
    ensures Less(Bool(p), Bool(q)) <==> !p && q
    ensures Less(Str(s), Str(t)) <==> exists k: nat :: BelowAt(s, t, k)
  {
    BytesLessIff(s, t);
  }

  /** Below 2^31 entries the smaller container is less; of one size, the one whose first different entry is. */
  lemma ContainersOrdered(xs: seq<Member>, ys: seq<Member>, k: nat)
    requires RealFreeEntries(xs) && RealFreeEntries(ys) && |xs| < 0x8000_0000 && |ys| < 0x8000_0000
    ensures |xs| < |ys| ==> Less(Array(xs), Array(ys)) && Less(Object(xs), Object(ys))
    ensures |xs| == |ys| && k < |xs| && xs[..k] == ys[..k] && xs[k] != ys[k] ==>
              var less := RealFree(xs[k].value) && RealFree(ys[k].value)
                          && (KeyLess(xs[k].key, ys[k].key) || (xs[k].key == ys[k].key && Less(xs[k].value, ys[k].value)));
              (Less(Array(xs), Array(ys)) <==> less) && (Less(Object(xs), Object(ys)) <==> less)
  {
    assert SizeDelta(|xs|, |ys|) == |xs| - |ys|;
    if |xs| == |ys| && k < |xs| && xs[..k] == ys[..k] && xs[k] != ys[k] {
      FirstDifferent(xs, ys, k);
    }
  }

  lemma {:induction false} FirstDifferent(xs: seq<Member>, ys: seq<Member>, k: nat)
    requires RealFreeEntries(xs) && RealFreeEntries(ys) && |xs| == |ys|
    requires k < |xs| && xs[..k] == ys[..k] && xs[k] != ys[k]
    ensures RealFree(xs[k].value) && RealFree(ys[k].value)
    ensures EntriesLess(xs, ys) <==>
              KeyLess(xs[k].key, ys[k].key) || (xs[k].key == ys[k].key && Less(xs[k].value, ys[k].value))
    decreases k
  {
    MemberLessIff(xs[0], ys[0]);
    assert RealFreeMember(xs[0]) && RealFreeMember(ys[0]);
    if k > 0 {
      assert xs[..k][0] == xs[0] && ys[..k][0] == ys[0];
      assert xs[1..][..k - 1] == xs[..k][1..] && ys[1..][..k - 1] == ys[..k][1..];
      FirstDifferent(xs[1..], ys[1..], k - 1);
    } else {
      KeyTrichotomy(xs[0].key, ys[0].key);
    }
  }

  // ---- Equality is identity ----

  lemma {:induction false} MemCmpZero(a: bytes, b: bytes)
    requires |a| == |b|
    ensures MemCmp(a, b, |a|) == 0 <==> a == b
  {
    if a != [] {
      MemCmpZero(a[1..], b[1..]);
      assert a == [a[0]] + a[1..] && b == [b[0]] + b[1..];
    }
  }

  lemma {:induction false} EqualIsIdentity(a: Value, b: Value)
    requires RealFree(a) && RealFree(b)
    ensures Equal(a, b) <==> a == b
  {
    match a
    case Str(s) => if b.Str? && |s| == |b.s| { MemCmpZero(s, b.s); }
    case Array(es) => if b.Array? && |es| == |b.entries| { EntriesEqualIsIdentity(es, b.entries); }
    case Object(es) => if b.Object? && |es| == |b.entries| { EntriesEqualIsIdentity(es, b.entries); }
    case _ =>
  }

  lemma {:induction false} EntriesEqualIsIdentity(xs: seq<Member>, ys: seq<Member>)
    requires RealFreeEntries(xs) && RealFreeEntries(ys) && |xs| == |ys|
    ensures EntriesEqual(xs, ys) <==> xs == ys
  {
    if xs != [] {
      MemberEqualIsIdentity(xs[0], ys[0]);
      EntriesEqualIsIdentity(xs[1..], ys[1..]);
      assert xs == [xs[0]] + xs[1..] && ys == [ys[0]] + ys[1..];
    }
  }

  lemma {:induction false} MemberEqualIsIdentity(x: Member, y: Member)
    requires RealFreeMember(x) && RealFreeMember(y)
    ensures MemberEqual(x, y) <==> x == y
  {
    EqualIsIdentity(x.value, y.value);
  }

  // ---- When two values are less than each other ----

  /**
   Two containers of one type whose sizes differ by 2^31 modulo 2^32; or whose sizes
   are equal modulo 2^32, with equal keys and clashing values where they first differ.
   */
  predicate Clash(a: Value, b: Value)
    decreases Depth(a) + Depth(b), 0, 0
  {
    match a
    case Array(es) => b.Array? && ContainerClash(es, b.entries)
    case Object(es) => b.Object? && ContainerClash(es, b.entries)
    case _ => false
  }

  predicate ContainerClash(xs: seq<Member>, ys: seq<Member>)
    decreases EntriesDepth(xs) + EntriesDepth(ys), 3, 0
  {
    var d := (|xs| - |ys|) % 0x1_0000_0000;
    d == 0x8000_0000 || (d == 0 && EntriesClash(xs, ys))
  }

  predicate EntriesClash(xs: seq<Member>, ys: seq<Member>)
    decreases EntriesDepth(xs) + EntriesDepth(ys), 2, |xs|
  {
    xs != [] && ys != [] &&
    if xs[0] == ys[0] then EntriesClash(xs[1..], ys[1..]) else MemberClash(xs[0], ys[0])
  }

  predicate MemberClash(x: Member, y: Member)
    decreases MemberDepth(x) + MemberDepth(y), 1, 0
  {
    x.key == y.key && Clash(x.value, y.value)
  }

  /**
   For any two real-free values: each is less than the other exactly when they clash,
   and neither is less exactly when they are the same value.
   */
  lemma {:induction false} LessIff(a: Value, b: Value)
    requires RealFree(a) && RealFree(b)
    ensures Less(a, b) && Less(b, a) <==> Clash(a, b)
    ensures !Less(a, b) && !Less(b, a) <==> a == b
    decreases Depth(a) + Depth(b), 0, 0
  {
    match (a, b)
    case (Str(s), Str(t)) => BytesTrichotomy(s, t);
    case (Array(xs), Array(ys)) => ContainerLessIff(xs, ys);
    case (Object(xs), Object(ys)) => ContainerLessIff(xs, ys);
    case _ =>
  }

  lemma SizeDeltas(a: nat, b: nat)
    ensures SizeDelta(a, b) == 0 <==> (a - b) % 0x1_0000_0000 == 0
    ensures SizeDelta(a, b) == 0 <==> SizeDelta(b, a) == 0
    ensures SizeDelta(a, b) < 0 && SizeDelta(b, a) < 0 <==> (a - b) % 0x1_0000_0000 == 0x8000_0000
    ensures !(SizeDelta(a, b) > 0 && SizeDelta(b, a) > 0)
  {
  }

  lemma {:induction false} ContainerLessIff(xs: seq<Member>, ys: seq<Member>)
    requires RealFreeEntries(xs) && RealFreeEntries(ys)
    ensures ContainerLess(xs, ys) && ContainerLess(ys, xs) <==> ContainerClash(xs, ys)
    ensures !ContainerLess(xs, ys) && !ContainerLess(ys, xs) <==> xs == ys
    decreases EntriesDepth(xs) + EntriesDepth(ys), 3, 0
  {
    SizeDeltas(|xs|, |ys|);
    EntriesLessIff(xs, ys);
  }

  lemma {:induction false} EntriesLessIff(xs: seq<Member>, ys: seq<Member>)
    requires RealFreeEntries(xs) && RealFreeEntries(ys)
    ensures EntriesLess(xs, ys) && EntriesLess(ys, xs) <==> EntriesClash(xs, ys)
    ensures !EntriesLess(xs, ys) && !EntriesLess(ys, xs) <==> xs == ys
    decreases EntriesDepth(xs) + EntriesDepth(ys), 2, |xs|
  {
    if xs != [] && ys != [] {
      MemberLessIff(xs[0], ys[0]);
      EntriesLessIff(xs[1..], ys[1..]);
      assert xs == [xs[0]] + xs[1..] && ys == [ys[0]] + ys[1..];
    }
  }

  lemma {:induction false} MemberLessIff(x: Member, y: Member)
    requires RealFreeMember(x) && RealFreeMember(y)
    ensures MemberLess(x, y) && MemberLess(y, x) <==> MemberClash(x, y)
    ensures !MemberLess(x, y) && !MemberLess(y, x) <==> x == y
    decreases MemberDepth(x) + MemberDepth(y), 1, 0
  {
    KeyTrichotomy(x.key, y.key);
    LessIff(x.value, y.value);
  }

  // ---- Trichotomy ----

  /** Containers below 2^31 entries never clash. */
  lemma {:induction false} SmallNeverClash(a: Value, b: Value)
    requires Small(a) && Small(b)
    ensures !Clash(a, b)
    decreases Depth(a) + Depth(b), 0, 0
  {
    if (a.Array? && b.Array?) || (a.Object? && b.Object?) {
      EntriesNeverClash(a.entries, b.entries);
    }
  }

  lemma {:induction false} EntriesNeverClash(xs: seq<Member>, ys: seq<Member>)
    requires SmallEntries(xs) && SmallEntries(ys)
    ensures !EntriesClash(xs, ys)
    decreases EntriesDepth(xs) + EntriesDepth(ys), 2, |xs|
  {
    if xs != [] && ys != [] {
      MemberNeverClash(xs[0], ys[0]);
      EntriesNeverClash(xs[1..], ys[1..]);
    }
  }

  lemma {:induction false} MemberNeverClash(x: Member, y: Member)
    requires SmallMember(x) && SmallMember(y)
    ensures !MemberClash(x, y)
    decreases MemberDepth(x) + MemberDepth(y), 1, 0
  {
    SmallNeverClash(x.value, y.value);
  }

  predicate ExactlyOne(p: bool, q: bool, r: bool) {
    (p && !q && !r) || (!p && q && !r) || (!p && !q && r)
  }

  /** Exactly one of a < b, a == b, b < a holds, if and only if the values do not clash. */
  lemma LessTrichotomy(a: Value, b: Value)
    requires RealFree(a) && RealFree(b)
    ensures ExactlyOne(Less(a, b), a == b, Less(b, a)) <==> !Clash(a, b)
    ensures Small(a) && Small(b) ==> ExactlyOne(Less(a, b), a == b, Less(b, a))
  {
    LessIff(a, b);
    if Small(a) && Small(b) {
      SmallNeverClash(a, b);
    }
  }

  // ---- Transitivity ----

  /**
   Where a < b < c does not give a < c: three containers of one type whose 32-bit size
   differences add up to less than -2^31 and so wrap around; or whose sizes are equal
   modulo 2^32, and such a triple stands where all three first differ. When both
   differences are -2^31, a and c have equal sizes again and their own entries decide.
   */
  predicate Cycle(a: Value, b: Value, c: Value)
    requires RealFree(a) && RealFree(b) && RealFree(c)
    decreases Depth(a) + Depth(b) + Depth(c), 0, 0
  {
    match a
    case Array(es) => b.Array? && c.Array? && ContainerCycle(es, b.entries, c.entries)
    case Object(es) => b.Object? && c.Object? && ContainerCycle(es, b.entries, c.entries)
    case _ => false
  }

  predicate ContainerCycle(xs: seq<Member>, ys: seq<Member>, zs: seq<Member>)
    requires RealFreeEntries(xs) && RealFreeEntries(ys) && RealFreeEntries(zs)
    decreases EntriesDepth(xs) + EntriesDepth(ys) + EntriesDepth(zs), 3, 0
  {
    var first, second := SizeDelta(|xs|, |ys|), SizeDelta(|ys|, |zs|);
    if first == 0 && second == 0 then EntriesCycle(xs, ys, zs)
    else if first + second == -0x1_0000_0000 then !EntriesLess(xs, zs)
    else first + second < -0x8000_0000
  }

  /** If the second clashes with two equal members around it, what follows them decides. */
  predicate EntriesCycle(xs: seq<Member>, ys: seq<Member>, zs: seq<Member>)
    requires RealFreeEntries(xs) && RealFreeEntries(ys) && RealFreeEntries(zs)
    decreases EntriesDepth(xs) + EntriesDepth(ys) + EntriesDepth(zs), 2, |xs|
  {
    xs != [] && ys != [] && zs != [] &&
    if xs[0] == ys[0] == zs[0] then EntriesCycle(xs[1..], ys[1..], zs[1..])
    else if xs[0] == zs[0] then !EntriesLess(xs[1..], zs[1..])
    else xs[0] != ys[0] && ys[0] != zs[0] && MemberCycle(xs[0], ys[0], zs[0])
  }

  predicate MemberCycle(x: Member, y: Member, z: Member)
    requires RealFreeMember(x) && RealFreeMember(y) && RealFreeMember(z)
    decreases MemberDepth(x) + MemberDepth(y) + MemberDepth(z), 1, 0
  {
    x.key == y.key == z.key && Cycle(x.value, y.value, z.value)
  }

  /** From a < b and b < c follows a < c if and only if the three are no cycle; in a cycle a and c are the same or c < a. */
  lemma {:induction false} LessTransitiveIff(a: Value, b: Value, c: Value)
    requires RealFree(a) && RealFree(b) && RealFree(c)
    requires Less(a, b) && Less(b, c)
    ensures Less(a, c) <==> !Cycle(a, b, c)
    ensures Cycle(a, b, c) ==> a == c || Less(c, a)
    decreases Depth(a) + Depth(b) + Depth(c), 0, 0
  {
    LessIff(a, c);
    match (a, b, c)
    case (Str(s), Str(t), Str(u)) => BytesTransitive(s, t, u);
    case (Array(xs), Array(ys), Array(zs)) => ContainerTransitiveIff(xs, ys, zs);
    case (Object(xs), Object(ys), Object(zs)) => ContainerTransitiveIff(xs, ys, zs);
    case _ =>
  }

  /** Differences modulo 2^32 add up modulo 2^32. */
  lemma SizeDeltaSum(a: nat, b: nat, c: nat)
    requires SizeDelta(a, b) <= 0 && SizeDelta(b, c) <= 0
    ensures var sum := SizeDelta(a, b) + SizeDelta(b, c);
            SizeDelta(a, c) == if sum >= -0x8000_0000 then sum else sum + 0x1_0000_0000
  {
  }

  lemma {:induction false} ContainerTransitiveIff(xs: seq<Member>, ys: seq<Member>, zs: seq<Member>)
    requires RealFreeEntries(xs) && RealFreeEntries(ys) && RealFreeEntries(zs)
    requires ContainerLess(xs, ys) && ContainerLess(ys, zs)
    ensures ContainerLess(xs, zs) <==> !ContainerCycle(xs, ys, zs)
    decreases EntriesDepth(xs) + EntriesDepth(ys) + EntriesDepth(zs), 3, 0
  {
    SizeDeltaSum(|xs|, |ys|, |zs|);
    if SizeDelta(|xs|, |ys|) == 0 && SizeDelta(|ys|, |zs|) == 0 {
      EntriesTransitiveIff(xs, ys, zs);
    }
  }

  lemma {:induction false} EntriesTransitiveIff(xs: seq<Member>, ys: seq<Member>, zs: seq<Member>)
    requires RealFreeEntries(xs) && RealFreeEntries(ys) && RealFreeEntries(zs)
    requires EntriesLess(xs, ys) && EntriesLess(ys, zs)
    ensures EntriesLess(xs, zs) <==> !EntriesCycle(xs, ys, zs)
    decreases EntriesDepth(xs) + EntriesDepth(ys) + EntriesDepth(zs), 2, |xs|
  {
    if xs != [] {
      var x, y, z := xs[0], ys[0], zs[0];
      MemberLessIff(x, y);
      MemberLessIff(y, z);
      MemberLessIff(x, z);
      if x == y == z {
        EntriesTransitiveIff(xs[1..], ys[1..], zs[1..]);
      } else if x != y && y != z {
        MemberTransitiveIff(x, y, z);
      }
    }
  }

  lemma {:induction false} MemberTransitiveIff(x: Member, y: Member, z: Member)
    requires RealFreeMember(x) && RealFreeMember(y) && RealFreeMember(z)
    requires MemberLess(x, y) && MemberLess(y, z)
    ensures MemberLess(x, z) <==> !MemberCycle(x, y, z)
    decreases MemberDepth(x) + MemberDepth(y) + MemberDepth(z), 1, 0
  {
    KeyTrichotomy(x.key, y.key);
    KeyTrichotomy(y.key, z.key);
    KeyTrichotomy(x.key, z.key);
    if KeyLess(x.key, y.key) && KeyLess(y.key, z.key) {
      KeyTransitive(x.key, y.key, z.key);
    } else if x.key == y.key == z.key {
      LessTransitiveIff(x.value, y.value, z.value);
    }
  }

  /** Containers below 2^31 entries form no cycle. */
  lemma {:induction false} SmallNeverCycle(a: Value, b: Value, c: Value)
    requires RealFree(a) && RealFree(b) && RealFree(c) && Small(a) && Small(b) && Small(c)
    requires Less(a, b) && Less(b, c)
    ensures !Cycle(a, b, c)
    decreases Depth(a) + Depth(b) + Depth(c), 0, 0
  {
    if Cycle(a, b, c) && |a.entries| == |b.entries| == |c.entries| {
      EntriesNeverCycle(a.entries, b.entries, c.entries);
    }
  }

  lemma {:induction false} EntriesNeverCycle(xs: seq<Member>, ys: seq<Member>, zs: seq<Member>)
    requires RealFreeEntries(xs) && RealFreeEntries(ys) && RealFreeEntries(zs)
    requires SmallEntries(xs) && SmallEntries(ys) && SmallEntries(zs)
    requires EntriesLess(xs, ys) && EntriesLess(ys, zs)
    ensures !EntriesCycle(xs, ys, zs)
    decreases EntriesDepth(xs) + EntriesDepth(ys) + EntriesDepth(zs), 2, |xs|
  {
    if xs != [] {
      var x, y, z := xs[0], ys[0], zs[0];
      MemberLessIff(x, y);
      MemberLessIff(y, z);
      MemberNeverClash(x, y);
      if x == y == z {
        EntriesNeverCycle(xs[1..], ys[1..], zs[1..]);
      } else if x != y && y != z {
        MemberNeverCycle(x, y, z);
      }
    }
  }

  lemma {:induction false} MemberNeverCycle(x: Member, y: Member, z: Member)
    requires RealFreeMember(x) && RealFreeMember(y) && RealFreeMember(z)
    requires SmallMember(x) && SmallMember(y) && SmallMember(z)
    requires MemberLess(x, y) && MemberLess(y, z)
    ensures !MemberCycle(x, y, z)
    decreases MemberDepth(x) + MemberDepth(y) + MemberDepth(z), 1, 0
  {
    KeyTrichotomy(x.key, x.key);
    if x.key == y.key == z.key {
      SmallNeverCycle(x.value, y.value, z.value);
    }
  }

  /** Below 2^31 entries the order is transitive. */
  lemma LessTransitive(a: Value, b: Value, c: Value)
    requires RealFree(a) && RealFree(b) && RealFree(c) && Small(a) && Small(b) && Small(c)
    requires Less(a, b) && Less(b, c)
    ensures Less(a, c)
  {
    SmallNeverCycle(a, b, c);
    LessTransitiveIff(a, b, c);
  }

  /** Three arrays of which no two clash, each less than the next all the way round. */
  lemma HugeArraysCycle(xs: seq<Member>, ys: seq<Member>, zs: seq<Member>)
    requires RealFreeEntries(xs) && RealFreeEntries(ys) && RealFreeEntries(zs)
    requires |xs| == 0 && |ys| == 0x6000_0000 && |zs| == 0xC000_0000
    ensures Less(Array(xs), Array(ys)) && Less(Array(ys), Array(zs)) && Less(Array(zs), Array(xs))
    ensures !Less(Array(xs), Array(zs)) && Cycle(Array(xs), Array(ys), Array(zs))
    ensures !Clash(Array(xs), Array(ys)) && !Clash(Array(ys), Array(zs)) && !Clash(Array(xs), Array(zs))
  {
  }

  /** compare is 0 exactly on equal values, it is negative exactly below, and its sign turns round exactly if the values do not clash. */
  lemma CompareAgrees(a: Value, b: Value)
    requires RealFree(a) && RealFree(b)
    ensures Compare(a, b) == 0 <==> Equal(a, b)
    ensures Compare(a, b) < 0 <==> Less(a, b)
    ensures Compare(a, b) == -Compare(b, a) <==> !Clash(a, b)
    ensures !Less(a, a)
  {
    LessIff(a, b);
    LessIff(a, a);
    EqualIsIdentity(a, b);
  }

  /**
   The bound is needed: when the sizes of two arrays differ by 2^31, the
   difference converts to the smallest int both ways round, and each array is
   less than the other.
   */
  lemma HugeArraysUnordered(xs: seq<Member>, ys: seq<Member>)
    requires RealFreeEntries(xs) && RealFreeEntries(ys)
    requires |xs| == |ys| + 0x8000_0000
    ensures Less(Array(xs), Array(ys)) && Less(Array(ys), Array(xs))
  {
    assert SizeDelta(|xs|, |ys|) == -0x8000_0000;
    assert SizeDelta(|ys|, |xs|) == -0x8000_0000;
  }
}
