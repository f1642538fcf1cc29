/**
 Topic matching of MQTT::Client: the single pass over filter and name, the
 level-by-level meaning, and how that compares with section 4.7 of MQTT 3.1.1.
 */
module MqttTopic {
  import opened Bytes

  const HASH: byte := 35

  type Levels = seq<bytes>

  /** The position of the first separator, or the end. */
  function LevelEnd(s: bytes): (k: nat)
    ensures k <= |s|
    ensures forall i | 0 <= i < k :: s[i] != SLASH
    ensures k < |s| ==> s[k] == SLASH
  {
    if s == [] || s[0] == SLASH then 0 else 1 + LevelEnd(s[1..])
  }

  lemma LevelEndUnique(s: bytes, k: nat)
    requires k <= |s| && (forall i | 0 <= i < k :: s[i] != SLASH) && (k < |s| ==> s[k] == SLASH)
    ensures LevelEnd(s) == k
  {
    assert !(LevelEnd(s) < k);
    assert !(k < LevelEnd(s));
  }

  function Split(s: bytes): (ls: Levels)
    ensures ls != []
    decreases |s|
  {
    var k := LevelEnd(s);
    if k == |s| then [s] else [s[..k]] + Split(s[k + 1..])
  }

  predicate Literal(level: bytes) {
    PLUS !in level && HASH !in level
  }

  /** Wildcards fill a level of their own, and '#' only the last. */
  predicate WellFormedFilter(fs: Levels) {
    fs != [] ==>
      && (Literal(fs[0]) || fs[0] == [PLUS] || (fs[0] == [HASH] && |fs| == 1))
      && WellFormedFilter(fs[1..])
  }

  /** '+' takes one level that is not empty, '#' everything from a level that is not empty on. */
  predicate LevelMatch(fs: Levels, ns: Levels) {
    if fs == [] || ns == [] then fs == [] && ns == []
    else if fs[0] == [HASH] then ns[0] != []
    else if fs[0] == [PLUS] then ns[0] != [] && LevelMatch(fs[1..], ns[1..])
    else fs[0] == ns[0] && LevelMatch(fs[1..], ns[1..])
  }

  /** What one turn of the pointer loop does to what is left of the filter and of the name. */
  predicate Matches(f: bytes, n: bytes)
    decreases |f|
  {
    if f == [] || n == [] then f == [] && n == []
    else if n[0] == SLASH && f[0] != SLASH then false
    else if f[0] != PLUS && f[0] != HASH && f[0] != n[0] then false
    else if f[0] == PLUS then Matches(f[1..], n[LevelEnd(n)..])
    else if f[0] == HASH then Matches(f[1..], [])
    else Matches(f[1..], n[1..])
  }

  /** isTopicMatched. The filter is a C string; the name has an explicit length. */
  method IsTopicMatched(topicFilter: bytes, topicName: bytes) returns (matched: bool)
    requires NulFree(topicFilter)
    ensures matched <==> Matches(topicFilter, topicName)
  {
    var curf, curn := 0, 0;
    var end := |topicName|;
    assert topicFilter[0..] == topicFilter && topicName[0..] == topicName;
    while curf < |topicFilter| && curn < end
      invariant curf <= |topicFilter| && curn <= end
      invariant Matches(topicFilter[curf..], topicName[curn..]) == Matches(topicFilter, topicName)
      decreases |topicFilter| - curf
    {
      ghost var f, n := topicFilter[curf..], topicName[curn..];
      var cf, cn := topicFilter[curf], topicName[curn];
      if cn == SLASH && cf != SLASH {
        return false;
      }
      if cf != PLUS && cf != HASH && cf != cn {
        return false;
      }
      if cf == PLUS {
        curn := SkipLevel(topicName, curn);
        assert n[LevelEnd(n)..] == topicName[curn + 1..];
      } else if cf == HASH {
        curn := end - 1;
        assert topicName[curn + 1..] == [];
      }
      assert f[1..] == topicFilter[curf + 1..];
      curf := curf + 1;
      curn := curn + 1;
    }
    matched := curn == end && curf == |topicFilter|;
  }

  /** The loop behind '+': from the first character of a level to its last. */
  method SkipLevel(topicName: bytes, start: nat) returns (curn: nat)
    requires start < |topicName| && topicName[start] != SLASH
    ensures start <= curn < |topicName| && curn + 1 == start + LevelEnd(topicName[start..])
  {
    curn := start;
    var nextpos := curn + 1;
    while nextpos < |topicName| && topicName[nextpos] != SLASH
      invariant start <= curn < |topicName| && nextpos == curn + 1
      invariant forall i | start <= i <= curn :: topicName[i] != SLASH
    {
      curn := curn + 1;
      nextpos := curn + 1;
    }
    LevelEndUnique(topicName[start..], curn + 1 - start);
  }

  // ---- The single pass is level-by-level matching ----

  /** What follows the first level: nothing on both sides, or a separator on both and a match behind it. */
  predicate RestMatches(f: bytes, n: bytes) {
    var i, j := LevelEnd(f), LevelEnd(n);
    if i == |f| then j == |n| else j < |n| && Matches(f[i + 1..], n[j + 1..])
  }

  lemma {:induction false} LiteralLevel(f: bytes, n: bytes)
    requires Literal(f[..LevelEnd(f)])
    ensures Matches(f, n) <==> f[..LevelEnd(f)] == n[..LevelEnd(n)] && RestMatches(f, n)
    decreases |f|
  {
    if f != [] && f[0] != SLASH {
      assert f[0] in f[..LevelEnd(f)];
      if n != [] && f[0] == n[0] {
        FirstCharacter(f);
        FirstCharacter(n);
        LiteralLevel(f[1..], n[1..]);
      }
    }
  }

  lemma FirstCharacter(s: bytes)
    requires s != [] && s[0] != SLASH
    ensures LevelEnd(s) == LevelEnd(s[1..]) + 1
    ensures s[..LevelEnd(s)] == [s[0]] + s[1..][..LevelEnd(s) - 1]
    ensures LevelEnd(s) < |s| ==> s[1..][LevelEnd(s)..] == s[LevelEnd(s) + 1..]
  {
  }

  lemma PlusLevel(f: bytes, n: bytes)
    requires f[..LevelEnd(f)] == [PLUS]
    ensures Matches(f, n) <==> LevelEnd(n) > 0 && RestMatches(f, n)
  {
    assert f[0] == f[..LevelEnd(f)][0];
    if LevelEnd(n) > 0 {
      var j := LevelEnd(n);
      var g, m := f[1..], n[j..];
      assert LevelEnd(g) == 0 && LevelEnd(m) == 0;
      LiteralLevel(g, m);
      assert |f| > 1 ==> g[1..] == f[2..];
      assert j < |n| ==> m[1..] == n[j + 1..];
    }
  }

  /** For every well-formed filter and every topic name the single pass decides level-by-level matching. */
  lemma {:induction false} MatchesIsLevelMatch(f: bytes, n: bytes)
    requires WellFormedFilter(Split(f))
    ensures Matches(f, n) <==> LevelMatch(Split(f), Split(n))
    decreases |f|
  {
    var i, j := LevelEnd(f), LevelEnd(n);
    assert Split(f)[0] == f[..i] && Split(n)[0] == n[..j];
    if f[..i] == [HASH] {
      assert f == [HASH] && f[1..] == [];
      assert j == 0 <==> n == [] || n[0] == SLASH;
    } else {
      if f[..i] == [PLUS] {
        PlusLevel(f, n);
      } else {
        LiteralLevel(f, n);
      }
      SplitTail(f);
      SplitTail(n);
      if i < |f| && j < |n| {
        MatchesIsLevelMatch(f[i + 1..], n[j + 1..]);
      }
    }
  }

  lemma SplitTail(s: bytes)
    ensures Split(s)[1..] == if LevelEnd(s) == |s| then [] else Split(s[LevelEnd(s) + 1..])
  {
    hide LevelEnd;
    var k := LevelEnd(s);
    if k < |s| {
      assert Split(s) == [s[..k]] + Split(s[k + 1..]);
    }
  }

  // ---- The standard's matching ----

  /** Section 4.7.1: '+' matches any one level, '#' the parent level and any number of levels below it. */
  predicate StandardMatch(fs: Levels, ns: Levels) {
    if fs == [] then ns == []
    else if fs[0] == [HASH] then true
    else if ns == [] then false
    else (fs[0] == [PLUS] || fs[0] == ns[0]) && StandardMatch(fs[1..], ns[1..])
  }

  predicate Wildcard(level: bytes) {
    level == [PLUS] || level == [HASH]
  }

  /** Every '+' and '#' of the filter stands on a level of the name that exists and is not empty. */
  predicate Filled(fs: Levels, ns: Levels) {
    forall i | 0 <= i < |fs| && Wildcard(fs[i]) :: i < |ns| && ns[i] != []
  }

  lemma FilledStep(fs: Levels, ns: Levels)
    requires fs != []
    ensures ns != [] ==> (Filled(fs, ns) <==> (Wildcard(fs[0]) ==> ns[0] != []) && Filled(fs[1..], ns[1..]))
    ensures ns == [] && Wildcard(fs[0]) ==> !Filled(fs, ns)
  {
    if ns != [] {
      if Filled(fs, ns) {
        assert forall i | 0 <= i < |fs| - 1 && Wildcard(fs[1..][i]) :: fs[1..][i] == fs[i + 1];
      } else {
        var i :| 0 <= i < |fs| && Wildcard(fs[i]) && !(i < |ns| && ns[i] != []);
        assert i > 0 ==> fs[1..][i - 1] == fs[i];
      }
    }
  }

  /** On all names: level matching is the standard's, restricted to wildcards that stand on levels that are not empty. */
  lemma {:induction false} LevelMatchIff(fs: Levels, ns: Levels)
    requires WellFormedFilter(fs)
    ensures LevelMatch(fs, ns) <==> StandardMatch(fs, ns) && Filled(fs, ns)
    decreases |fs|
  {
    if fs != [] {
      FilledStep(fs, ns);
      if ns != [] && fs[0] != [HASH] {
        LevelMatchIff(fs[1..], ns[1..]);
      }
      if fs[0] == [HASH] {
        assert fs == [fs[0]];
      }
    }
  }

  /** For every well-formed filter and every name, the code matches if and only if the standard does and every wildcard is filled. */
  lemma MatchesIffStandardAndFilled(f: bytes, n: bytes)
    requires WellFormedFilter(Split(f))
    ensures Matches(f, n) <==> StandardMatch(Split(f), Split(n)) && Filled(Split(f), Split(n))
  {
    MatchesIsLevelMatch(f, n);
    LevelMatchIff(Split(f), Split(n));
  }

  /** The standard's own example: "+/+" matches "/finance", but not in the code, and not because of a parent level. */
  lemma EmptyLevelUnmatched()
    ensures var f: bytes := [PLUS, SLASH, PLUS];
            var n: bytes := [SLASH, 102, 105, 110, 97, 110, 99, 101];
            && WellFormedFilter(Split(f)) && StandardMatch(Split(f), Split(n))
            && !Matches(f, n) && !ParentOfHash(Split(f), Split(n))
  {
    var f: bytes := [PLUS, SLASH, PLUS];
    var n: bytes := [SLASH, 102, 105, 110, 97, 110, 99, 101];
    LevelEndUnique(f, 1);
    LevelEndUnique(n, 0);
    var f1, n1 := f[2..], n[1..];
    LevelEndUnique(f1, 1);
    LevelEndUnique(n1, 7);
    assert f1 == [PLUS] && Split(f1) == [f1] && f[..1] == [PLUS];
    assert Split(f) == [[PLUS]] + Split(f1);
    assert Split(n) == [[], n1];
    var fs, ns := Split(f), Split(n);
    var fs1, ns1 := fs[1..], ns[1..];
    assert fs1 == [[PLUS]] && ns1 == [n1];
    assert |fs1[1..]| == 0 && |ns1[1..]| == 0;
    assert StandardMatch(fs1, ns1);
  }

  predicate NoEmptyLevel(ns: Levels) {
    forall i | 0 <= i < |ns| :: ns[i] != []
  }

  /** A filter that ends in '#', and a name that matches what stands before it. */
  predicate ParentOfHash(fs: Levels, ns: Levels) {
    fs != [] && fs[|fs| - 1] == [HASH] && LevelMatch(fs[..|fs| - 1], ns)
  }

  /** On names without empty levels the code falls short of the standard exactly on the parent level of a '#'. */
  lemma {:induction false} StandardIffCodeOrParent(fs: Levels, ns: Levels)
    requires WellFormedFilter(fs) && NoEmptyLevel(ns)
    ensures StandardMatch(fs, ns) <==> LevelMatch(fs, ns) || ParentOfHash(fs, ns)
    ensures !(LevelMatch(fs, ns) && ParentOfHash(fs, ns))
    decreases |fs|
  {
    if fs != [] && fs[0] != [HASH] {
      if ns != [] {
        StandardIffCodeOrParent(fs[1..], ns[1..]);
        assert fs[..|fs| - 1] == if |fs| == 1 then [] else [fs[0]] + fs[1..][..|fs| - 2];
      } else {
        assert fs[..|fs| - 1] == [] <==> |fs| == 1;
      }
    }
  }
}
