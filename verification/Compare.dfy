/** Structural comparison of two trees of distinct nodes. */
module Compare {
  import opened Bytes
  import opened JsonTree

  // ---------- keys

  /** `tolower` in the C locale. */
  function Lower(b: byte): byte {
    if 65 <= b <= 90 then b + 32 else b
  }

  function LowerAll(s: seq<byte>): (l: seq<byte>)
    ensures |l| == |s|
    ensures forall k :: 0 <= k < |s| ==> l[k] == Lower(s[k])
  {
    if s == [] then [] else [Lower(s[0])] + LowerAll(s[1..])
  }

  /** Whether `strcmp` or the case-insensitive comparison gives 0. */
  predicate KeyMatches(a: CString, b: CString, caseSensitive: bool) {
    if caseSensitive then a == b else LowerAll(a) == LowerAll(b)
  }

  /** Equal but for the case of ASCII letters. */
  ghost predicate SameButCase(a: seq<byte>, b: seq<byte>) {
    |a| == |b| && forall i :: 0 <= i < |a| ==> SameLetter(a[i], b[i])
  }

  predicate SameLetter(a: byte, b: byte) {
    a == b || (65 <= a <= 90 && b == a + 32) || (65 <= b <= 90 && a == b + 32)
  }

  lemma LetterIsLowered(a: byte, b: byte)
    ensures Lower(a) == Lower(b) <==> SameLetter(a, b)
  {
  }

  /** Keys match without regard to case exactly if they are equal but for the case of ASCII letters. */
  lemma KeysMatchExactlyButForCase(a: CString, b: CString)
    ensures KeyMatches(a, b, false) <==> SameButCase(a, b)
  {
    hide Lower, SameLetter;
    forall i | 0 <= i < |a| && i < |b|
      ensures Lower(a[i]) == Lower(b[i]) <==> SameLetter(a[i], b[i])
    {
      LetterIsLowered(a[i], b[i]);
    }
    if SameButCase(a, b) {
      assert LowerAll(a) == LowerAll(b);
    } else if KeyMatches(a, b, false) {
      assert |a| == |LowerAll(a)| == |LowerAll(b)| == |b|;
      forall i | 0 <= i < |a|
        ensures SameLetter(a[i], b[i])
      {
        assert LowerAll(a)[i] == LowerAll(b)[i];
      }
    }
  }

  /** The two ways in which keys are compared, without a function of the bytes. */
  ghost predicate SameKey(a: CString, b: CString, caseSensitive: bool) {
    if caseSensitive then a == b else SameButCase(a, b)
  }

  lemma LowerDiffers(a: CString, b: CString, i: nat)
    requires i <= |a| && i <= |b| && Lower(ByteAt(a, i)) != Lower(ByteAt(b, i))
    ensures !KeyMatches(a, b, false)
  {
    if |a| == |b| {
      assert LowerAll(a)[i] != LowerAll(b)[i];
    }
  }

  /** The loop of `case_insensitive_strcmp`, over the bytes of two C strings. */
  method CaseInsensitiveCompare(a: CString, b: CString) returns (r: int)
    ensures r == 0 <==> SameButCase(a, b)
    ensures r == 0 <==> KeyMatches(a, b, false)
  {
    KeysMatchExactlyButForCase(a, b);
    hide SameButCase;
    var i := 0;
    while Lower(ByteAt(a, i)) == Lower(ByteAt(b, i))
      invariant 0 <= i <= |a| && i <= |b|
      invariant forall k :: 0 <= k < i ==> Lower(a[k]) == Lower(b[k])
      decreases |a| - i
    {
      if ByteAt(a, i) == NUL {
        assert LowerAll(a) == LowerAll(b);
        return 0;
      }
      i := i + 1;
    }
    LowerDiffers(a, b, i);
    r := Lower(ByteAt(a, i)) as int - Lower(ByteAt(b, i)) as int;
  }

  /** Byte `i` of a C string, its terminator included. */
  function ByteAt(s: CString, i: nat): (b: byte)
    requires i <= |s|
    ensures b == NUL <==> i == |s|
  {
    if i == |s| then NUL else s[i]
  }

  // ---------- lookup

  /** The index of the first member whose key matches, or the number of members. */
  function Find(members: seq<Member>, key: CString, caseSensitive: bool): (i: nat)
    ensures i <= |members|
    ensures i < |members| ==> KeyMatches(key, members[i].key, caseSensitive)
    ensures forall k :: 0 <= k < i ==> !KeyMatches(key, members[k].key, caseSensitive)
  {
    if members == [] || KeyMatches(key, members[0].key, caseSensitive) then 0
    else 1 + Find(members[1..], key, caseSensitive)
  }

  /** `item` is the first member with the key, or there is none. */
  ghost predicate IsFirst(members: seq<Member>, key: CString, caseSensitive: bool, item: Option<Member>) {
    match item
    case None => forall k :: 0 <= k < |members| ==> !SameKey(key, members[k].key, caseSensitive)
    case Some(m) =>
      exists i ::
        && 0 <= i < |members| && members[i] == m && SameKey(key, m.key, caseSensitive)
        && forall k :: 0 <= k < i ==> !SameKey(key, members[k].key, caseSensitive)
  }

  lemma FoundIsFirst(members: seq<Member>, key: CString, caseSensitive: bool)
    ensures var i := Find(members, key, caseSensitive);
            IsFirst(members, key, caseSensitive, if i < |members| then Some(members[i]) else None)
  {
    hide KeyMatches, SameButCase, Find;
    forall k | 0 <= k < |members|
      ensures KeyMatches(key, members[k].key, caseSensitive) <==> SameKey(key, members[k].key, caseSensitive)
    {
      KeysAreCompared(key, members[k].key, caseSensitive);
    }
  }

  lemma KeysAreCompared(a: CString, b: CString, caseSensitive: bool)
    ensures KeyMatches(a, b, caseSensitive) <==> SameKey(a, b, caseSensitive)
  {
    KeysMatchExactlyButForCase(a, b);
  }

  /** `get_object_item` as the source runs it along the chain. */
  method GetObjectItem(members: seq<Member>, key: CString, caseSensitive: bool) returns (item: Option<Member>)
    ensures var i := Find(members, key, caseSensitive);
            item == if i < |members| then Some(members[i]) else None
    ensures IsFirst(members, key, caseSensitive, item)
  {
    FoundIsFirst(members, key, caseSensitive);
    hide IsFirst;
    var i := 0;
    var matches := false;
    while i < |members| && !matches
      invariant 0 <= i <= |members|
      invariant forall k :: 0 <= k < i ==> !KeyMatches(key, members[k].key, caseSensitive)
      invariant matches ==> i < |members| && KeyMatches(key, members[i].key, caseSensitive)
      decreases |members| - i, !matches
    {
      if caseSensitive {
        matches := key == members[i].key;
      } else {
        var r := CaseInsensitiveCompare(key, members[i].key);
        matches := r == 0;
      }
      if !matches {
        i := i + 1;
      }
    }
    item := if i < |members| then Some(members[i]) else None;
  }

  // ---------- comparison

  function Size(t: Json): nat
    decreases t, 1
  {
    match t
    case Arr(items) => 1 + SizeOfItems(items)
    case Obj(members) => 1 + SizeOfMembers(members)
    case _ => 1
  }

  function SizeOfItems(items: seq<Json>): nat
    decreases items, 0
  {
    if items == [] then 0 else 1 + Size(items[0]) + SizeOfItems(items[1..])
  }

  function SizeOfMembers(members: seq<Member>): nat
    decreases members, 0
  {
    if members == [] then 0 else 1 + Size(members[0].value) + SizeOfMembers(members[1..])
  }

  lemma {:induction false} ItemIsSmaller(items: seq<Json>, i: nat)
    requires i < |items|
    ensures Size(items[i]) < SizeOfItems(items)
  {
    if i > 0 {
      ItemIsSmaller(items[1..], i - 1);
    }
  }

  lemma {:induction false} MemberIsSmaller(members: seq<Member>, i: nat)
    requires i < |members|
    ensures Size(members[i].value) < SizeOfMembers(members)
  {
    if i > 0 {
      MemberIsSmaller(members[1..], i - 1);
    }
  }

  /** The result of `cJSON_Compare` on two distinct nodes. */
  predicate Equal(a: Json, b: Json, caseSensitive: bool)
    decreases Size(a) + Size(b), 2
  {
    match (a, b)
    case (Null, Null) => true
    case (False, False) => true
    case (True, True) => true
    case (Number(m), Number(n)) => m == n
    case (Str(s), Str(t)) => s == t
    case (Arr(s), Arr(t)) => EqualItems(s, t, caseSensitive)
    case (Obj(s), Obj(t)) => Covers(s, t, caseSensitive) && Covers(t, s, caseSensitive)
    case _ => false
  }

  predicate EqualItems(s: seq<Json>, t: seq<Json>, caseSensitive: bool)
    decreases SizeOfItems(s) + SizeOfItems(t), 0
  {
    if s == [] || t == [] then s == t
    else Equal(s[0], t[0], caseSensitive) && EqualItems(s[1..], t[1..], caseSensitive)
  }

  /** Every member of `s` finds a member of `t` under its key, with an equal value. */
  predicate Covers(s: seq<Member>, t: seq<Member>, caseSensitive: bool)
    decreases SizeOfMembers(s) + SizeOfMembers(t), 1
  {
    forall i :: 0 <= i < |s| ==>
      var j := Find(t, s[i].key, caseSensitive);
      j < |t| && (MemberIsSmaller(s, i); MemberIsSmaller(t, j); Equal(s[i].value, t[j].value, caseSensitive))
  }

  /** The recursive comparison, with the loops over both chains. */
  method CompareTrees(a: Json, b: Json, caseSensitive: bool) returns (r: bool)
    ensures r == Equal(a, b, caseSensitive)
    decreases Size(a) + Size(b), 2
  {
    match (a, b)
    case (Null, Null) => r := true;
    case (False, False) => r := true;
    case (True, True) => r := true;
    case (Number(m), Number(n)) => r := m == n;
    case (Str(s), Str(t)) => r := s == t;
    case (Arr(s), Arr(t)) =>
      r := CompareItems(s, t, caseSensitive);
    case (Obj(s), Obj(t)) =>
      r := CompareMembers(s, t, caseSensitive);
      if r {
        r := CompareMembers(t, s, caseSensitive);
      }
    case _ => r := false;
  }

  /**
    The whole of `cJSON_Compare`. Only the two nodes it is called on can be one and the same: the
    nodes compared below two different nodes are at one depth below either, so they differ, too.
   */
  method CompareNodes(a: Json, b: Json, sameNode: bool, caseSensitive: bool) returns (r: bool)
    requires sameNode ==> a == b
    ensures r <==> sameNode || Equal(a, b, caseSensitive)
  {
    if sameNode {
      return true;
    }
    r := CompareTrees(a, b, caseSensitive);
  }

  method CompareItems(s: seq<Json>, t: seq<Json>, caseSensitive: bool) returns (r: bool)
    ensures r == EqualItems(s, t, caseSensitive)
    decreases SizeOfItems(s) + SizeOfItems(t), 0
  {
    var i := 0;
    while i < |s| && i < |t|
      invariant 0 <= i <= |s| && i <= |t|
      invariant EqualItems(s, t, caseSensitive) == EqualItems(s[i..], t[i..], caseSensitive)
    {
      ItemIsSmaller(s, i);
      ItemIsSmaller(t, i);
      r := CompareTrees(s[i], t[i], caseSensitive);
      assert s[i..][0] == s[i] && s[i..][1..] == s[i + 1..];
      assert t[i..][0] == t[i] && t[i..][1..] == t[i + 1..];
      if !r {
        return;
      }
      i := i + 1;
    }
    // One of the arrays may be longer than the other.
    r := i == |s| && i == |t|;
  }

  method CompareMembers(s: seq<Member>, t: seq<Member>, caseSensitive: bool) returns (r: bool)
    ensures r == Covers(s, t, caseSensitive)
    decreases SizeOfMembers(s) + SizeOfMembers(t), 1
  {
    hide Equal, Find, KeyMatches, Size, SizeOfMembers;
    var i := 0;
    while i < |s|
      invariant 0 <= i <= |s|
      invariant forall k :: 0 <= k < i ==>
                  var j := Find(t, s[k].key, caseSensitive);
                  j < |t| && Equal(s[k].value, t[j].value, caseSensitive)
    {
      var item := GetObjectItem(t, s[i].key, caseSensitive);
      match item
      case None =>
        return false;
      case Some(m) =>
        MemberIsSmaller(s, i);
        MemberIsSmaller(t, Find(t, s[i].key, caseSensitive));
        r := CompareTrees(s[i].value, m.value, caseSensitive);
        if !r {
          return;
        }
      i := i + 1;
    }
    r := true;
  }

  // ---------- an equivalence, but for reflexivity

  lemma {:induction false} EqualIsSymmetric(a: Json, b: Json, caseSensitive: bool)
    ensures Equal(a, b, caseSensitive) == Equal(b, a, caseSensitive)
    decreases Size(a)
  {
    if a.Arr? && b.Arr? {
      EqualItemsIsSymmetric(a.items, b.items, caseSensitive);
    }
  }

  lemma {:induction false} EqualItemsIsSymmetric(s: seq<Json>, t: seq<Json>, caseSensitive: bool)
    ensures EqualItems(s, t, caseSensitive) == EqualItems(t, s, caseSensitive)
    decreases SizeOfItems(s)
  {
    if s != [] && t != [] {
      EqualIsSymmetric(s[0], t[0], caseSensitive);
      EqualItemsIsSymmetric(s[1..], t[1..], caseSensitive);
    }
  }

  lemma {:induction false} FindCongruent(members: seq<Member>, k: CString, l: CString, caseSensitive: bool)
    requires KeyMatches(k, l, caseSensitive)
    ensures Find(members, k, caseSensitive) == Find(members, l, caseSensitive)
  {
    if members != [] {
      FindCongruent(members[1..], k, l, caseSensitive);
    }
  }

  lemma {:induction false} EqualIsTransitive(a: Json, b: Json, c: Json, caseSensitive: bool)
    requires Equal(a, b, caseSensitive) && Equal(b, c, caseSensitive)
    ensures Equal(a, c, caseSensitive)
    decreases Size(a) + Size(b) + Size(c), 1
  {
    match a
    case Arr(s) =>
      EqualItemsIsTransitive(s, b.items, c.items, caseSensitive);
    case Obj(s) =>
      CoversIsTransitive(s, b.members, c.members, caseSensitive);
      CoversIsTransitive(c.members, b.members, s, caseSensitive);
    case _ =>
  }

  lemma {:induction false} EqualItemsIsTransitive(s: seq<Json>, t: seq<Json>, u: seq<Json>, caseSensitive: bool)
    requires EqualItems(s, t, caseSensitive) && EqualItems(t, u, caseSensitive)
    ensures EqualItems(s, u, caseSensitive)
    decreases SizeOfItems(s) + SizeOfItems(t) + SizeOfItems(u), 0
  {
    if s != [] {
      EqualIsTransitive(s[0], t[0], u[0], caseSensitive);
      EqualItemsIsTransitive(s[1..], t[1..], u[1..], caseSensitive);
    }
  }

  lemma {:induction false} CoversIsTransitive(s: seq<Member>, t: seq<Member>, u: seq<Member>, caseSensitive: bool)
    requires Covers(s, t, caseSensitive) && Covers(t, u, caseSensitive)
    ensures Covers(s, u, caseSensitive)
    decreases SizeOfMembers(s) + SizeOfMembers(t) + SizeOfMembers(u), 0
  {
    forall i | 0 <= i < |s|
      ensures var l := Find(u, s[i].key, caseSensitive);
              l < |u| && Equal(s[i].value, u[l].value, caseSensitive)
    {
      var j := Find(t, s[i].key, caseSensitive);
      var l := Find(u, t[j].key, caseSensitive);
      FindCongruent(u, s[i].key, t[j].key, caseSensitive);
      MemberIsSmaller(s, i);
      MemberIsSmaller(t, j);
      MemberIsSmaller(u, l);
      EqualIsTransitive(s[i].value, t[j].value, u[l].value, caseSensitive);
    }
  }

  /** In every object of the tree, members whose keys match hold values that compare as equal. */
  predicate Coherent(t: Json, caseSensitive: bool)
    decreases t
  {
    match t
    case Arr(items) => forall i :: 0 <= i < |items| ==> Coherent(items[i], caseSensitive)
    case Obj(members) =>
      && (forall i, j :: 0 <= i < j < |members| && KeyMatches(members[i].key, members[j].key, caseSensitive) ==>
            Equal(members[i].value, members[j].value, caseSensitive))
      && (forall i :: 0 <= i < |members| ==> Coherent(members[i].value, caseSensitive))
    case _ => true
  }

  ghost predicate EqualsItsCopy(t: Json, caseSensitive: bool) {
    Equal(t, t, caseSensitive) <==> Coherent(t, caseSensitive)
  }

  /** A tree compares as equal to a copy of itself exactly if it is coherent. */
  lemma {:induction false} EqualToItsCopyExactlyIfCoherent(t: Json, caseSensitive: bool)
    ensures Equal(t, t, caseSensitive) <==> Coherent(t, caseSensitive)
    decreases Size(t)
  {
    match t
    case Arr(items) =>
      forall i | 0 <= i < |items|
        ensures EqualsItsCopy(items[i], caseSensitive)
      {
        ItemIsSmaller(items, i);
        EqualToItsCopyExactlyIfCoherent(items[i], caseSensitive);
      }
      ArrayEqualsItsCopy(items, caseSensitive);
    case Obj(members) =>
      forall i | 0 <= i < |members|
        ensures EqualsItsCopy(members[i].value, caseSensitive)
      {
        MemberIsSmaller(members, i);
        EqualToItsCopyExactlyIfCoherent(members[i].value, caseSensitive);
      }
      ObjectEqualsItsCopy(members, caseSensitive);
    case _ =>
  }

  lemma ArrayEqualsItsCopy(items: seq<Json>, caseSensitive: bool)
    requires forall i :: 0 <= i < |items| ==> EqualsItsCopy(items[i], caseSensitive)
    ensures EqualsItsCopy(Arr(items), caseSensitive)
  {
    EqualItemsAt(items, items, caseSensitive);
  }

  lemma ObjectEqualsItsCopy(members: seq<Member>, caseSensitive: bool)
    requires forall i :: 0 <= i < |members| ==> EqualsItsCopy(members[i].value, caseSensitive)
    ensures EqualsItsCopy(Obj(members), caseSensitive)
  {
    CoversItselfExactlyIfValuesAgree(members, caseSensitive);
    EqualObjects(members, members, caseSensitive);
    hide Equal, Covers, KeyMatches;
    if ValuesAgree(members, caseSensitive) {
      forall i | 0 <= i < |members|
        ensures Equal(members[i].value, members[i].value, caseSensitive)
      {
        assert KeyMatches(members[i].key, members[i].key, caseSensitive) by {
          KeyMatchesItself(members[i].key, caseSensitive);
        }
      }
    }
  }

  lemma KeyMatchesItself(key: CString, caseSensitive: bool)
    ensures KeyMatches(key, key, caseSensitive)
  {
  }

  /** Members whose keys match, a member and itself included, hold equal values. */
  ghost predicate ValuesAgree(members: seq<Member>, caseSensitive: bool) {
    forall i, j :: 0 <= i <= j < |members| && KeyMatches(members[i].key, members[j].key, caseSensitive) ==>
      Equal(members[i].value, members[j].value, caseSensitive)
  }

  lemma CoversItselfExactlyIfValuesAgree(members: seq<Member>, caseSensitive: bool)
    ensures Covers(members, members, caseSensitive) <==> ValuesAgree(members, caseSensitive)
  {
    hide Equal, KeyMatches, Find;
    if Covers(members, members, caseSensitive) {
      forall i, j | 0 <= i <= j < |members| && KeyMatches(members[i].key, members[j].key, caseSensitive)
        ensures Equal(members[i].value, members[j].value, caseSensitive)
      {
        CoveredValuesAgree(members, i, j, caseSensitive);
      }
    }
    if ValuesAgree(members, caseSensitive) {
      forall j | 0 <= j < |members|
        ensures var i := Find(members, members[j].key, caseSensitive);
                i < |members| && Equal(members[j].value, members[i].value, caseSensitive)
      {
        AgreeingValueIsFound(members, j, caseSensitive);
      }
    }
  }

  lemma CoveredAt(s: seq<Member>, t: seq<Member>, i: nat, caseSensitive: bool)
    requires Covers(s, t, caseSensitive) && i < |s|
    ensures var j := Find(t, s[i].key, caseSensitive);
            j < |t| && Equal(s[i].value, t[j].value, caseSensitive)
  {
  }

  lemma CoveredValuesAgree(members: seq<Member>, i: nat, j: nat, caseSensitive: bool)
    requires Covers(members, members, caseSensitive)
    requires i <= j < |members| && KeyMatches(members[i].key, members[j].key, caseSensitive)
    ensures Equal(members[i].value, members[j].value, caseSensitive)
  {
    hide Covers, Equal, KeyMatches, Find;
    FindCongruent(members, members[i].key, members[j].key, caseSensitive);
    CoveredAt(members, members, i, caseSensitive);
    CoveredAt(members, members, j, caseSensitive);
    var first := members[Find(members, members[i].key, caseSensitive)].value;
    EqualIsSymmetric(members[j].value, first, caseSensitive);
    EqualIsTransitive(members[i].value, first, members[j].value, caseSensitive);
  }

  lemma AgreeingValueIsFound(members: seq<Member>, j: nat, caseSensitive: bool)
    requires ValuesAgree(members, caseSensitive) && j < |members|
    ensures var i := Find(members, members[j].key, caseSensitive);
            i < |members| && Equal(members[j].value, members[i].value, caseSensitive)
  {
    hide Equal, Find;
    assert KeyMatches(members[j].key, members[j].key, caseSensitive);
    var i := Find(members, members[j].key, caseSensitive);
    assert i <= j && KeyMatches(members[i].key, members[j].key, caseSensitive);
    EqualIsSymmetric(members[i].value, members[j].value, caseSensitive);
  }

  /** Such a tree: a key, repeated, with two values. */
  lemma RepeatedKeysBreakReflexivity(key: CString, caseSensitive: bool)
    ensures var t := Obj([Member(key, True), Member(key, False)]);
            !Coherent(t, caseSensitive) && !Equal(t, t, caseSensitive)
  {
    var s := [Member(key, True), Member(key, False)];
    assert KeyMatches(s[0].key, s[1].key, caseSensitive) && !Equal(s[0].value, s[1].value, caseSensitive);
    EqualToItsCopyExactlyIfCoherent(Obj(s), caseSensitive);
  }

  // ---------- equality up to the order of members

  /** All keys of every object are pairwise different under the chosen case mode. */
  predicate DistinctKeys(t: Json, caseSensitive: bool)
    decreases t
  {
    match t
    case Arr(items) => forall i :: 0 <= i < |items| ==> DistinctKeys(items[i], caseSensitive)
    case Obj(members) =>
      && (forall i, j :: 0 <= i < j < |members| ==> !KeyMatches(members[i].key, members[j].key, caseSensitive))
      && (forall i :: 0 <= i < |members| ==> DistinctKeys(members[i].value, caseSensitive))
    case _ => true
  }

  /** `p` pairs the numbers below `n` one to one with those below `m`. */
  ghost predicate IsBijection(p: seq<nat>, n: nat, m: nat) {
    && |p| == n
    && (forall i :: 0 <= i < n ==> p[i] < m)
    && (forall i, j :: 0 <= i < j < n ==> p[i] != p[j])
    && (forall j :: 0 <= j < m ==> j in p)
  }

  ghost predicate SameUpToOrder(a: Json, b: Json, caseSensitive: bool)
    decreases a
  {
    match (a, b)
    case (Arr(s), Arr(t)) =>
      |s| == |t| && forall i :: 0 <= i < |s| ==> SameUpToOrder(s[i], t[i], caseSensitive)
    case (Obj(s), Obj(t)) =>
      exists p: seq<nat> :: IsBijection(p, |s|, |t|) &&
        forall i :: 0 <= i < |s| ==>
          && KeyMatches(s[i].key, t[p[i]].key, caseSensitive)
          && SameUpToOrder(s[i].value, t[p[i]].value, caseSensitive)
    case _ => a == b
  }

  lemma {:induction false} EqualItemsAt(s: seq<Json>, t: seq<Json>, caseSensitive: bool)
    ensures EqualItems(s, t, caseSensitive)
        <==> |s| == |t| && forall i :: 0 <= i < |s| ==> Equal(s[i], t[i], caseSensitive)
  {
    if s != [] && t != [] {
      EqualItemsAt(s[1..], t[1..], caseSensitive);
      if |s| == |t| && forall i :: 0 <= i < |s| ==> Equal(s[i], t[i], caseSensitive) {
        assert forall i :: 0 <= i < |s[1..]| ==> s[1..][i] == s[i + 1] && t[1..][i] == t[i + 1];
      }
      if EqualItems(s, t, caseSensitive) {
        forall i | 0 <= i < |s|
          ensures Equal(s[i], t[i], caseSensitive)
        {
          if i > 0 {
            assert s[1..][i - 1] == s[i] && t[1..][i - 1] == t[i];
          }
        }
      }
    }
  }

  ghost predicate KeysDistinct(members: seq<Member>, caseSensitive: bool) {
    forall i, j :: 0 <= i < j < |members| ==> !KeyMatches(members[i].key, members[j].key, caseSensitive)
  }

  /** With distinct keys, lookup finds the only member whose key matches. */
  lemma FindOnly(members: seq<Member>, key: CString, j: nat, caseSensitive: bool)
    requires KeysDistinct(members, caseSensitive) && j < |members| && KeyMatches(key, members[j].key, caseSensitive)
    ensures Find(members, key, caseSensitive) == j
  {
    var i := Find(members, key, caseSensitive);
    assert KeyMatches(key, members[i].key, caseSensitive);
  }

  /** On trees with distinct keys, comparison holds exactly when the trees are the same up to the order of members. */
  lemma {:induction false} EqualMeansSameUpToOrder(a: Json, b: Json, caseSensitive: bool)
    requires DistinctKeys(a, caseSensitive) && DistinctKeys(b, caseSensitive)
    ensures Equal(a, b, caseSensitive) <==> SameUpToOrder(a, b, caseSensitive)
    decreases Size(a), 1
  {
    if a.Arr? && b.Arr? {
      EqualItemsAt(a.items, b.items, caseSensitive);
      forall i | 0 <= i < |a.items| && i < |b.items|
        ensures Agree(a.items[i], b.items[i], caseSensitive)
      {
        ItemIsSmaller(a.items, i);
        EqualMeansSameUpToOrder(a.items[i], b.items[i], caseSensitive);
      }
    } else if a.Obj? && b.Obj? {
      var s, t := a.members, b.members;
      forall i, j | 0 <= i < |s| && 0 <= j < |t|
        ensures Agree(s[i].value, t[j].value, caseSensitive)
      {
        MemberIsSmaller(s, i);
        EqualMeansSameUpToOrder(s[i].value, t[j].value, caseSensitive);
      }
      ObjectsAgree(s, t, caseSensitive);
    }
  }

  ghost predicate Agree(a: Json, b: Json, caseSensitive: bool) {
    Equal(a, b, caseSensitive) <==> SameUpToOrder(a, b, caseSensitive)
  }

  lemma ObjectsAgree(s: seq<Member>, t: seq<Member>, caseSensitive: bool)
    requires KeysDistinct(s, caseSensitive) && KeysDistinct(t, caseSensitive)
    requires forall i, j :: 0 <= i < |s| && 0 <= j < |t| ==> Agree(s[i].value, t[j].value, caseSensitive)
    ensures Agree(Obj(s), Obj(t), caseSensitive)
  {
    hide Equal, Covers, KeyMatches, SameUpToOrder, IsBijection, KeysDistinct;
    EqualObjects(s, t, caseSensitive);
    if Equal(Obj(s), Obj(t), caseSensitive) {
      EqualGivesPairing(s, t, caseSensitive);
      var p: seq<nat> :| Pairs(p, s, t, caseSensitive);
      PairingGivesSame(p, s, t, caseSensitive);
    }
    if SameUpToOrder(Obj(s), Obj(t), caseSensitive) {
      var p := SameGivesPairing(s, t, caseSensitive);
      PairingGivesEqual(s, t, caseSensitive);
    }
  }

  lemma PairingGivesSame(p: seq<nat>, s: seq<Member>, t: seq<Member>, caseSensitive: bool)
    requires forall i, j :: 0 <= i < |s| && 0 <= j < |t| ==> Agree(s[i].value, t[j].value, caseSensitive)
    requires Pairs(p, s, t, caseSensitive)
    ensures SameUpToOrder(Obj(s), Obj(t), caseSensitive)
  {
    hide Equal, KeyMatches;
    assert forall i :: 0 <= i < |s| ==> Agree(s[i].value, t[p[i]].value, caseSensitive);
  }

  lemma SameGivesPairing(s: seq<Member>, t: seq<Member>, caseSensitive: bool) returns (p: seq<nat>)
    requires forall i, j :: 0 <= i < |s| && 0 <= j < |t| ==> Agree(s[i].value, t[j].value, caseSensitive)
    requires SameUpToOrder(Obj(s), Obj(t), caseSensitive)
    ensures Pairs(p, s, t, caseSensitive)
  {
    hide Equal, KeyMatches;
    p :| IsBijection(p, |s|, |t|) &&
      forall i :: 0 <= i < |s| ==>
        && KeyMatches(s[i].key, t[p[i]].key, caseSensitive)
        && SameUpToOrder(s[i].value, t[p[i]].value, caseSensitive);
    assert forall i :: 0 <= i < |s| ==> Agree(s[i].value, t[p[i]].value, caseSensitive);
  }

  lemma EqualObjects(s: seq<Member>, t: seq<Member>, caseSensitive: bool)
    ensures Equal(Obj(s), Obj(t), caseSensitive) == (Covers(s, t, caseSensitive) && Covers(t, s, caseSensitive))
  {
  }

  ghost predicate Pairs(p: seq<nat>, s: seq<Member>, t: seq<Member>, caseSensitive: bool) {
    IsBijection(p, |s|, |t|) &&
    forall i :: 0 <= i < |s| ==>
      && KeyMatches(s[i].key, t[p[i]].key, caseSensitive)
      && Equal(s[i].value, t[p[i]].value, caseSensitive)
  }

  /** Where lookup finds the members of `s` in `t`. */
  ghost function Found(s: seq<Member>, t: seq<Member>, caseSensitive: bool): (p: seq<nat>)
    ensures |p| == |s| && forall i :: 0 <= i < |s| ==> p[i] == Find(t, s[i].key, caseSensitive)
  {
    seq(|s|, i requires 0 <= i < |s| => Find(t, s[i].key, caseSensitive))
  }

  lemma FoundIsInjective(s: seq<Member>, t: seq<Member>, i: nat, j: nat, caseSensitive: bool)
    requires KeysDistinct(s, caseSensitive) && i < j < |s|
    requires Find(t, s[i].key, caseSensitive) < |t|
    ensures Find(t, s[i].key, caseSensitive) != Find(t, s[j].key, caseSensitive)
  {
    assert !KeyMatches(s[i].key, s[j].key, caseSensitive);
  }

  lemma FoundIsOnto(s: seq<Member>, t: seq<Member>, j: nat, caseSensitive: bool)
    requires KeysDistinct(t, caseSensitive) && j < |t| && Find(s, t[j].key, caseSensitive) < |s|
    ensures j in Found(s, t, caseSensitive)
  {
    var i := Find(s, t[j].key, caseSensitive);
    FindOnly(t, s[i].key, j, caseSensitive);
    assert Found(s, t, caseSensitive)[i] == j;
  }

  lemma EqualGivesPairing(s: seq<Member>, t: seq<Member>, caseSensitive: bool)
    requires KeysDistinct(s, caseSensitive) && KeysDistinct(t, caseSensitive)
    requires Covers(s, t, caseSensitive) && Covers(t, s, caseSensitive)
    ensures exists p: seq<nat> :: Pairs(p, s, t, caseSensitive)
  {
    hide Equal, LowerAll, KeysDistinct, Found;
    var p := Found(s, t, caseSensitive);
    forall i, j | 0 <= i < j < |s|
      ensures p[i] != p[j]
    {
      FoundIsInjective(s, t, i, j, caseSensitive);
    }
    forall j | 0 <= j < |t|
      ensures j in p
    {
      FoundIsOnto(s, t, j, caseSensitive);
    }
    assert Pairs(p, s, t, caseSensitive);
  }

  lemma PairingGivesEqual(s: seq<Member>, t: seq<Member>, caseSensitive: bool)
    requires KeysDistinct(s, caseSensitive) && KeysDistinct(t, caseSensitive)
    requires exists p: seq<nat> :: Pairs(p, s, t, caseSensitive)
    ensures Covers(s, t, caseSensitive) && Covers(t, s, caseSensitive)
  {
    var p: seq<nat> :| Pairs(p, s, t, caseSensitive);
    forall i | 0 <= i < |s|
      ensures var j := Find(t, s[i].key, caseSensitive);
              j < |t| && Equal(s[i].value, t[j].value, caseSensitive)
    {
      FindOnly(t, s[i].key, p[i], caseSensitive);
    }
    forall j | 0 <= j < |t|
      ensures var i := Find(s, t[j].key, caseSensitive);
              i < |s| && Equal(t[j].value, s[i].value, caseSensitive)
    {
      assert j in p;
      var i :| 0 <= i < |s| && p[i] == j;
      FindOnly(s, t[j].key, i, caseSensitive);
      EqualIsSymmetric(s[i].value, t[j].value, caseSensitive);
    }
  }
}
