/**
 The JsonCpp value tree. A `std::map<CZString, Value>` is its list of entries in
 key order, so two maps are equal exactly when the lists are.
 */
module Values {
  import opened Bytes

  /** CZString: an array index, or a member name. */
  datatype Key = Index(index: nat) | Name(name: bytes)

  datatype Member = Member(key: Key, value: Value)

  /** A double is kept as an opaque bit pattern. */
  datatype Value =
    | Null
    | Int(i: int)
    | UInt(u: int)
    | Real(bits: nat)
    | Str(s: bytes)
    | Bool(b: bool)
    | Array(entries: seq<Member>)
    | Object(entries: seq<Member>)

  const MIN_INT64: int := -0x8000_0000_0000_0000
  const MAX_INT64: int := 0x7fff_ffff_ffff_ffff
  const MAX_UINT64: int := 0xffff_ffff_ffff_ffff
  const MAX_INT32: int := 0x7fff_ffff

  /** CZString::operator<; an array never holds a name and an object never an index. */
  predicate KeyLess(a: Key, b: Key) {
    match (a, b)
    case (Index(i), Index(j)) => i < j
    case (Name(s), Name(t)) => BytesLess(s, t)
    case (Index(_), Name(_)) => true
    case (Name(_), Index(_)) => false
  }

  /** Indexes by number, names by their bytes. */
  lemma KeyLessIff(i: nat, j: nat, s: bytes, t: bytes)
    ensures KeyLess(Index(i), Index(j)) <==> i < j
    ensures KeyLess(Name(s), Name(t)) <==> exists k: nat :: BelowAt(s, t, k)
  {
    BytesLessIff(s, t);
  }

  lemma KeyTrichotomy(a: Key, b: Key)
    ensures KeyLess(a, b) ==> a != b && !KeyLess(b, a)
    ensures !KeyLess(a, b) && !KeyLess(b, a) ==> a == b
  {
    if a.Name? && b.Name? {
      BytesTrichotomy(a.name, b.name);
    }
  }

  lemma KeyTransitive(a: Key, b: Key, c: Key)
    requires KeyLess(a, b) && KeyLess(b, c)
    ensures KeyLess(a, c)
  {
    if a.Name? && b.Name? && c.Name? {
      BytesTransitive(a.name, b.name, c.name);
    }
  }

  predicate Sorted(es: seq<Member>) {
    forall i, j | 0 <= i < j < |es| :: KeyLess(es[i].key, es[j].key)
  }

  // ---- Nesting ----

  /** The number of containers around the deepest scalar. */
  function Depth(v: Value): (d: nat)
    ensures v.Array? || v.Object? <==> d > 0
  {
    match v
    case Array(es) => 1 + EntriesDepth(es)
    case Object(es) => 1 + EntriesDepth(es)
    case _ => 0
  }

  function EntriesDepth(es: seq<Member>): nat {
    if es == [] then 0
    else Max(MemberDepth(es[0]), EntriesDepth(es[1..]))
  }

  function MemberDepth(m: Member): nat {
    Depth(m.value)
  }

  /** The levels of the node stack that reading a value takes: one for a scalar, one more than its children for a container. */
  function Levels(v: Value): nat {
    match v
    case Array(es) => 1 + EntriesLevels(es)
    case Object(es) => 1 + EntriesLevels(es)
    case _ => 1
  }

  function EntriesLevels(es: seq<Member>): nat {
    if es == [] then 0
    else Max(MemberLevels(es[0]), EntriesLevels(es[1..]))
  }

  function MemberLevels(m: Member): nat {
    Levels(m.value)
  }

  lemma {:induction false} EntryLevels(es: seq<Member>, i: nat)
    requires i < |es|
    ensures 1 <= Levels(es[i].value) <= EntriesLevels(es)
    decreases i
  {
    if i > 0 {
      EntryLevels(es[1..], i - 1);
    } else {
      assert MemberLevels(es[0]) == Levels(es[0].value);
    }
  }

  function Max(a: nat, b: nat): nat {
    if a < b then b else a
  }

  lemma {:induction false} EntryDepth(es: seq<Member>, i: nat)
    requires i < |es|
    ensures Depth(es[i].value) <= EntriesDepth(es)
    decreases i
  {
    if i > 0 {
      EntryDepth(es[1..], i - 1);
    } else {
      assert MemberDepth(es[0]) == Depth(es[0].value);
    }
  }

  // ---- Well-formed values ----

  predicate WellFormed(v: Value) {
    match v
    case Int(i) => MIN_INT64 <= i <= MAX_INT64
    case UInt(u) => 0 <= u <= MAX_UINT64
    case Array(es) => Sorted(es) && WellFormedEntries(es) && (forall k | 0 <= k < |es| :: es[k].key.Index?)
    case Object(es) => Sorted(es) && WellFormedEntries(es) && (forall k | 0 <= k < |es| :: es[k].key.Name?)
    case _ => true
  }

  predicate WellFormedEntries(es: seq<Member>) {
    es != [] ==> WellFormedMember(es[0]) && WellFormedEntries(es[1..])
  }

  predicate WellFormedMember(m: Member) {
    WellFormed(m.value)
  }

  predicate RealFree(v: Value) {
    match v
    case Real(_) => false
    case Array(es) => RealFreeEntries(es)
    case Object(es) => RealFreeEntries(es)
    case _ => true
  }

  predicate RealFreeEntries(es: seq<Member>) {
    es != [] ==> RealFreeMember(es[0]) && RealFreeEntries(es[1..])
  }

  predicate RealFreeMember(m: Member) {
    RealFree(m.value)
  }

  // ---- std::map ----

  /** The first position whose key is not below k. */
  function LowerBound(es: seq<Member>, k: Key): (p: nat)
    ensures p <= |es|
    ensures forall i | 0 <= i < p :: KeyLess(es[i].key, k)
    ensures p < |es| ==> !KeyLess(es[p].key, k)
  {
    if es != [] && KeyLess(es[0].key, k) then
      var q := LowerBound(es[1..], k);
      assert forall i | 0 < i < q + 1 :: es[i] == es[1..][i - 1];
      q + 1
    else 0
  }

  lemma LowerBoundUnique(es: seq<Member>, k: Key, p: nat)
    requires p <= |es|
    requires forall i | 0 <= i < p :: KeyLess(es[i].key, k)
    requires p < |es| ==> !KeyLess(es[p].key, k)
    ensures LowerBound(es, k) == p
  {
    var q := LowerBound(es, k);
    assert !(q < p);
    assert !(p < q);
  }

  predicate Has(es: seq<Member>, k: Key) {
    var p := LowerBound(es, k);
    p < |es| && es[p].key == k
  }

  function Get(es: seq<Member>, k: Key): Value
    requires Has(es, k)
  {
    es[LowerBound(es, k)].value
  }

  function Put(es: seq<Member>, k: Key, v: Value): seq<Member> {
    var p := LowerBound(es, k);
    if Has(es, k) then es[p := Member(k, v)]
    else es[..p] + [Member(k, v)] + es[p..]
  }

  function Erase(es: seq<Member>, k: Key): seq<Member> {
    var p := LowerBound(es, k);
    if Has(es, k) then es[..p] + es[p + 1..] else es
  }

  /** The key put last holds the new value; every other key of a sorted list is as before. */
  lemma PutLaws(es: seq<Member>, k: Key, v: Value, other: Key)
    requires Sorted(es)
    ensures Has(Put(es, k, v), other) <==> other == k || Has(es, other)
    ensures Has(Put(es, k, v), other) ==> Get(Put(es, k, v), other) == if other == k then v else Get(es, other)
  {
    hide LowerBound;
    var r := Put(es, k, v);
    var p := LowerBound(es, k);
    PutSorted(es, k, v);
    PutLookup(es, k, v);
    HasIff(es, other);
    HasIff(r, other);
    if other != k {
      if Has(es, other) {
        var i := LowerBound(es, other);
        assert es[i] == r[if i < p || Has(es, k) then i else i + 1];
      }
      if Has(r, other) {
        var i := LowerBound(r, other);
        assert r[i] == es[if i < p || Has(es, k) then i else i - 1];
      }
    }
  }

  lemma PutLookup(es: seq<Member>, k: Key, v: Value)
    ensures LowerBound(Put(es, k, v), k) == LowerBound(es, k)
    ensures Has(Put(es, k, v), k) && Get(Put(es, k, v), k) == v
  {
    var p := LowerBound(es, k);
    KeyTrichotomy(k, k);
    LowerBoundUnique(Put(es, k, v), k, p);
  }

  lemma PutIntoEmpty(k: Key, v: Value)
    ensures Put([], k, v) == [Member(k, v)]
  {
  }

  lemma PutTwice(es: seq<Member>, k: Key, v: Value, w: Value)
    ensures Put(Put(es, k, v), k, w) == Put(es, k, w)
  {
    PutLookup(es, k, v);
  }

  /** In a sorted list a key is present exactly when some entry carries it. */
  lemma HasIff(es: seq<Member>, k: Key)
    requires Sorted(es)
    ensures Has(es, k) <==> exists i :: 0 <= i < |es| && es[i].key == k
    ensures forall i | 0 <= i < |es| && es[i].key == k :: Has(es, k) && Get(es, k) == es[i].value
  {
    KeyTrichotomy(k, k);
    forall i | 0 <= i < |es| && es[i].key == k
      ensures LowerBound(es, k) == i
    {
      KeyTrichotomy(k, k);
      LowerBoundUnique(es, k, i);
    }
  }

  /** A key above every present one is put at the end. */
  lemma PutAppends(es: seq<Member>, k: Key, v: Value)
    requires forall i | 0 <= i < |es| :: KeyLess(es[i].key, k)
    ensures !Has(es, k)
    ensures Put(es, k, v) == es + [Member(k, v)]
  {
    LowerBoundUnique(es, k, |es|);
  }

  lemma PutSorted(es: seq<Member>, k: Key, v: Value)
    requires Sorted(es)
    ensures Sorted(Put(es, k, v))
  {
    var p := LowerBound(es, k);
    var r := Put(es, k, v);
    if p < |es| {
      KeyTrichotomy(es[p].key, k);
    }
    forall i, j | 0 <= i < j < |r|
      ensures KeyLess(r[i].key, r[j].key)
    {
      if !Has(es, k) && i == p && j > p + 1 {
        KeyTransitive(k, es[p].key, es[j - 1].key);
      }
    }
  }

  // ---- Children of a value ----

  /** `value[key]` read: null when the child is absent. */
  function Child(v: Value, k: Key): Value {
    if (v.Array? || v.Object?) && Has(v.entries, k) then Get(v.entries, k) else Null
  }

  /** `value[key] = x`; a null value first becomes an empty container of the key's kind. */
  function PutChild(v: Value, k: Key, x: Value): Value {
    match v
    case Array(es) => Array(Put(es, k, x))
    case Object(es) => Object(Put(es, k, x))
    case _ => if k.Index? then Array([Member(k, x)]) else Object([Member(k, x)])
  }

  lemma PutChildLaws(v: Value, k: Key, x: Value, y: Value)
    ensures Child(PutChild(v, k, x), k) == x
    ensures PutChild(PutChild(v, k, x), k, y) == PutChild(v, k, y)
  {
    if v.Array? || v.Object? {
      PutLookup(v.entries, k, x);
      PutTwice(v.entries, k, x, y);
    } else {
      PutIntoEmpty(k, x);
      PutLookup([], k, x);
      PutTwice([], k, x, y);
      PutIntoEmpty(k, y);
    }
  }

  // ---- Places inside a value: what a Value* points at ----

  type Path = seq<Key>

  function At(root: Value, p: Path): Value
    decreases |p|
  {
    if p == [] then root else At(Child(root, p[0]), p[1..])
  }

  function SetAt(root: Value, p: Path, x: Value): Value
    decreases |p|
  {
    if p == [] then x
    else PutChild(root, p[0], SetAt(Child(root, p[0]), p[1..], x))
  }

  lemma {:induction false} SetAtLaws(root: Value, p: Path, x: Value, y: Value)
    ensures At(SetAt(root, p, x), p) == x
    ensures SetAt(SetAt(root, p, x), p, y) == SetAt(root, p, y)
    decreases |p|
  {
    if p != [] {
      var c := Child(root, p[0]);
      var cx, cy := SetAt(c, p[1..], x), SetAt(c, p[1..], y);
      SetAtLaws(c, p[1..], x, y);
      PutChildLaws(root, p[0], cx, cy);
    }
  }

  /** A pointer to a child of the value p points at. */
  lemma {:induction false} ExtendedPath(root: Value, p: Path, k: Key, x: Value)
    ensures At(root, p + [k]) == Child(At(root, p), k)
    ensures SetAt(root, p + [k], x) == SetAt(root, p, PutChild(At(root, p), k, x))
    decreases |p|
  {
    if p == [] {
      assert p + [k] == [k];
      assert SetAt(Child(root, k), [], x) == x;
      assert [k][1..] == [];
    } else {
      assert (p + [k])[1..] == p[1..] + [k];
      ExtendedPath(Child(root, p[0]), p[1..], k, x);
    }
  }

  /** p points at a value inside root. */
  predicate Exists(root: Value, p: Path)
    decreases |p|
  {
    p == [] || (
      && (root.Array? || root.Object?)
      && Has(root.entries, p[0])
      && Exists(Child(root, p[0]), p[1..]))
  }

  /** Writing a place's own value back changes nothing. */
  lemma {:induction false} SetAtSelf(root: Value, p: Path)
    requires Exists(root, p)
    ensures SetAt(root, p, At(root, p)) == root
    decreases |p|
  {
    if p != [] {
      SetAtSelf(Child(root, p[0]), p[1..]);
      var es := root.entries;
      assert es[LowerBound(es, p[0])] == Member(p[0], Get(es, p[0]));
    }
  }

  lemma {:induction false} SetAtExists(root: Value, p: Path, x: Value)
    ensures Exists(SetAt(root, p, x), p)
    decreases |p|
  {
    if p != [] {
      var c := SetAt(Child(root, p[0]), p[1..], x);
      SetAtExists(Child(root, p[0]), p[1..], x);
      PutChildLaws(root, p[0], c, c);
      if root.Array? || root.Object? {
        PutLookup(root.entries, p[0], c);
      } else {
        PutIntoEmpty(p[0], c);
        PutLookup([], p[0], c);
      }
    }
  }
}
