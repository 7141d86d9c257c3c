/** The string that is hashed into a request key, on the host and in the enclave. */
module KeyList {
  import opened Bytes

  // ---------- the order of `std::string`

  predicate LessOrEqual(a: seq<byte>, b: seq<byte>) {
    a == [] || (b != [] && (a[0] < b[0] || (a[0] == b[0] && LessOrEqual(a[1..], b[1..]))))
  }

  lemma {:induction false} OrderIsTotal(a: seq<byte>, b: seq<byte>)
    ensures LessOrEqual(a, b) || LessOrEqual(b, a)
    ensures LessOrEqual(a, b) && LessOrEqual(b, a) ==> a == b
  {
    if a != [] && b != [] {
      OrderIsTotal(a[1..], b[1..]);
      assert a == [a[0]] + a[1..] && b == [b[0]] + b[1..];
    }
  }

  lemma {:induction false} OrderIsTransitive(a: seq<byte>, b: seq<byte>, c: seq<byte>)
    requires LessOrEqual(a, b) && LessOrEqual(b, c)
    ensures LessOrEqual(a, c)
  {
    if a != [] && a[0] == b[0] && b[0] == c[0] {
      OrderIsTransitive(a[1..], b[1..], c[1..]);
    }
  }

  /** `k` is where `a` and `b` first differ, and `a` has the smaller byte there, taken as unsigned. */
  ghost predicate IsSmallerAt(a: seq<byte>, b: seq<byte>, k: nat) {
    k < |a| && k < |b| && a[..k] == b[..k] && a[k] < b[k]
  }

  /** The lexicographic order: a prefix comes first, and otherwise the first difference decides. */
  ghost predicate ComesFirst(a: seq<byte>, b: seq<byte>) {
    a <= b || exists k :: IsSmallerAt(a, b, k)
  }

  lemma {:induction false} OrderIsLexicographic(a: seq<byte>, b: seq<byte>)
    ensures LessOrEqual(a, b) <==> ComesFirst(a, b)
  {
    if a != [] && b != [] {
      OrderIsLexicographic(a[1..], b[1..]);
      assert a == [a[0]] + a[1..] && b == [b[0]] + b[1..];
      if a[0] < b[0] {
        assert IsSmallerAt(a, b, 0);
      }
      if a[0] == b[0] {
        if k: nat :| IsSmallerAt(a[1..], b[1..], k) {
          assert a[..k + 1] == [a[0]] + a[1..][..k] && b[..k + 1] == [b[0]] + b[1..][..k];
          assert IsSmallerAt(a, b, k + 1);
        }
      }
      if k: nat :| IsSmallerAt(a, b, k) {
        FirstDifference(a, b, k);
      }
    }
  }

  lemma FirstDifference(a: seq<byte>, b: seq<byte>, k: nat)
    requires IsSmallerAt(a, b, k)
    ensures if k == 0 then a[0] < b[0] else a[0] == b[0] && IsSmallerAt(a[1..], b[1..], k - 1)
  {
    if k > 0 {
      assert a[0] == a[..k][0] && b[0] == b[..k][0];
      assert a[1..][..k - 1] == a[..k][1..] && b[1..][..k - 1] == b[..k][1..];
    }
  }

  // ---------- sorting

  ghost predicate IsSorted(l: seq<seq<byte>>) {
    forall i, j :: 0 <= i < j < |l| ==> LessOrEqual(l[i], l[j])
  }

  function Insert(x: seq<byte>, l: seq<seq<byte>>): seq<seq<byte>> {
    if l == [] then [x]
    else if LessOrEqual(x, l[0]) then [x] + l
    else [l[0]] + Insert(x, l[1..])
  }

  /** What `std::sort` leaves: the sorted permutation, of which there is only one. */
  function Sorted(l: seq<seq<byte>>): seq<seq<byte>> {
    if l == [] then [] else Insert(l[0], Sorted(l[1..]))
  }

  lemma {:induction false} InsertKeepsSorted(x: seq<byte>, l: seq<seq<byte>>)
    requires IsSorted(l)
    ensures IsSorted(Insert(x, l)) && multiset(Insert(x, l)) == multiset{x} + multiset(l)
  {
    if l == [] {
    } else if LessOrEqual(x, l[0]) {
      forall j | 0 <= j < |l|
        ensures LessOrEqual(x, l[j])
      {
        if j > 0 {
          OrderIsTransitive(x, l[0], l[j]);
        }
      }
    } else {
      InsertKeepsSorted(x, l[1..]);
      OrderIsTotal(x, l[0]);
      InsertBehind(x, l);
      assert l == [l[0]] + l[1..];
    }
  }

  lemma InsertBehind(x: seq<byte>, l: seq<seq<byte>>)
    requires l != [] && IsSorted(l) && LessOrEqual(l[0], x)
    requires multiset(Insert(x, l[1..])) == multiset{x} + multiset(l[1..])
    ensures forall j :: 0 <= j < |Insert(x, l[1..])| ==> LessOrEqual(l[0], Insert(x, l[1..])[j])
  {
    hide LessOrEqual;
    var r := Insert(x, l[1..]);
    forall j | 0 <= j < |r|
      ensures LessOrEqual(l[0], r[j])
    {
      assert r[j] in multiset(r);
      assert r[j] == x || r[j] in l[1..];
    }
  }

  lemma {:induction false} SortedSorts(l: seq<seq<byte>>)
    ensures IsSorted(Sorted(l)) && multiset(Sorted(l)) == multiset(l)
  {
    if l != [] {
      SortedSorts(l[1..]);
      InsertKeepsSorted(l[0], Sorted(l[1..]));
      assert l == [l[0]] + l[1..];
    }
  }

  /** The first of a sorted list is below every element of a list with the same contents. */
  lemma FirstIsLeast(a: seq<seq<byte>>, b: seq<seq<byte>>)
    requires IsSorted(a) && a != [] && b != [] && multiset(a) == multiset(b)
    ensures LessOrEqual(a[0], b[0])
  {
    OrderIsTotal(a[0], a[0]);
    assert b[0] in multiset(a);
    var j :| 0 <= j < |a| && a[j] == b[0];
  }

  lemma SortedTail(l: seq<seq<byte>>)
    requires IsSorted(l) && l != []
    ensures IsSorted(l[1..]) && l == [l[0]] + l[1..] && multiset(l[1..]) == multiset(l) - multiset{l[0]}
  {
    hide LessOrEqual;
    assert l == [l[0]] + l[1..];
  }

  lemma {:induction false} SortedIsUnique(a: seq<seq<byte>>, b: seq<seq<byte>>)
    requires IsSorted(a) && IsSorted(b) && multiset(a) == multiset(b)
    ensures a == b
  {
    assert |a| == |multiset(a)| == |multiset(b)| == |b|;
    if a != [] {
      FirstIsLeast(a, b);
      FirstIsLeast(b, a);
      OrderIsTotal(a[0], b[0]);
      SortedTail(a);
      SortedTail(b);
      hide LessOrEqual, IsSorted;
      SortedIsUnique(a[1..], b[1..]);
    }
  }

  // ---------- the hashed string

  function Concat(l: seq<seq<byte>>): seq<byte> {
    if l == [] then [] else l[0] + Concat(l[1..])
  }

  lemma {:induction false} ConcatAppend(a: seq<seq<byte>>, b: seq<seq<byte>>)
    ensures Concat(a + b) == Concat(a) + Concat(b)
  {
    if a == [] {
      assert a + b == b;
    } else {
      assert (a + b)[0] == a[0] && (a + b)[1..] == a[1..] + b;
      ConcatAppend(a[1..], b);
    }
  }

  function HashedString(l: seq<seq<byte>>): seq<byte> {
    Concat(Sorted(l))
  }

  lemma OneMore(k: nat, n: nat)
    ensures (k + 1) * n == k * n + n
  {
  }

  lemma {:induction false} ConcatLength(l: seq<seq<byte>>, n: nat)
    requires AllOfLength(l, n)
    ensures |Concat(l)| == |l| * n
  {
    if l == [] {
      assert 0 * n == 0;
    } else {
      ConcatLength(l[1..], n);
      OneMore(|l| - 1, n);
    }
  }

  lemma ConcatAt(l: seq<seq<byte>>, i: nat)
    requires i < |l|
    ensures Concat(l) == Concat(l[..i]) + l[i] + Concat(l[i + 1..])
  {
    assert l == l[..i] + l[i..] && l[i..][1..] == l[i + 1..];
    ConcatAppend(l[..i], l[i..]);
  }

  /**
    The hashed string holds the keys one after the other, in lexicographic order: whatever ascending
    list has the same keys, each of length n, its key `i` stands at `i` times n.
   */
  lemma HashedStringHoldsKeysInOrder(l: seq<seq<byte>>, ascending: seq<seq<byte>>, n: nat, i: nat)
    requires multiset(l) == multiset(ascending) && AllOfLength(ascending, n) && i < |ascending|
    requires forall j, k :: 0 <= j < k < |ascending| ==> ComesFirst(ascending[j], ascending[k])
    ensures HashedString(l) == Concat(ascending) && |HashedString(l)| == |l| * n
    ensures i * n + n <= |HashedString(l)| && HashedString(l)[i * n..i * n + n] == ascending[i]
  {
    hide ComesFirst, LessOrEqual, Sorted, Concat;
    forall j, k | 0 <= j < k < |ascending|
      ensures LessOrEqual(ascending[j], ascending[k])
    {
      OrderIsLexicographic(ascending[j], ascending[k]);
    }
    SortedSorts(l);
    SortedIsUnique(Sorted(l), ascending);
    assert |l| == |multiset(l)| == |multiset(ascending)| == |ascending|;
    ConcatLength(ascending, n);
    ConcatLength(ascending[..i], n);
    ConcatAt(ascending, i);
  }

  /** The order in which the keys are given makes no difference. */
  lemma HashedStringIgnoresOrder(a: seq<seq<byte>>, b: seq<seq<byte>>)
    requires multiset(a) == multiset(b)
    ensures HashedString(a) == HashedString(b)
  {
    SortedSorts(a);
    SortedSorts(b);
    SortedIsUnique(Sorted(a), Sorted(b));
  }

  ghost predicate AllOfLength(l: seq<seq<byte>>, n: nat) {
    forall k <- l :: |k| == n
  }

  lemma {:induction false} ConcatIsInjective(a: seq<seq<byte>>, b: seq<seq<byte>>, n: nat)
    requires n > 0 && AllOfLength(a, n) && AllOfLength(b, n) && Concat(a) == Concat(b)
    ensures a == b
  {
    if a == [] || b == [] {
      assert a == b;
    } else {
      assert a[0] == Concat(a)[..n] && b[0] == Concat(b)[..n];
      assert Concat(a[1..]) == Concat(a)[n..] && Concat(b[1..]) == Concat(b)[n..];
      ConcatIsInjective(a[1..], b[1..], n);
      assert a == [a[0]] + a[1..] && b == [b[0]] + b[1..];
    }
  }

  lemma SortedKeepsLength(l: seq<seq<byte>>, n: nat)
    requires AllOfLength(l, n)
    ensures AllOfLength(Sorted(l), n)
  {
    SortedSorts(l);
    forall k | k in Sorted(l)
      ensures |k| == n
    {
      assert k in multiset(Sorted(l));
    }
  }

  /** Lists of keys of one common positive length give the same string exactly when they hold the same keys. */
  lemma HashedStringTellsListsApart(a: seq<seq<byte>>, b: seq<seq<byte>>, n: nat)
    requires n > 0 && AllOfLength(a, n) && AllOfLength(b, n)
    ensures HashedString(a) == HashedString(b) <==> multiset(a) == multiset(b)
  {
    if HashedString(a) == HashedString(b) {
      SortedKeepsLength(a, n);
      SortedKeepsLength(b, n);
      ConcatIsInjective(Sorted(a), Sorted(b), n);
      SortedSorts(a);
      SortedSorts(b);
    } else if multiset(a) == multiset(b) {
      HashedStringIgnoresOrder(a, b);
    }
  }

  lemma AscendingPair(x: seq<byte>, y: seq<byte>)
    requires LessOrEqual(x, y)
    ensures HashedString([x, y]) == x + y
  {
    var l := [x, y];
    assert l[1..] == [y] && [y][1..] == [];
    assert Sorted([y]) == [y] && Sorted(l) == l;
    assert Concat([y]) == y && Concat(l) == x + y;
  }

  function Ones(n: nat): (s: seq<byte>)
    ensures |s| == n && forall k :: 0 <= k < n ==> s[k] == 49
  {
    seq(n, _ => 49)
  }

  /** The text "0" and then ones, `n` characters in all. */
  function ZeroAndOnes(n: nat): (s: seq<byte>)
    requires n > 0
    ensures |s| == n && s[0] == 48
  {
    [48] + Ones(n - 1)
  }

  /** Whatever two different lengths are allowed, two different lists of two keys give one string. */
  lemma UnequalLengthsCollide(m: nat, n: nat)
    requires 0 < m < n
    ensures var a, b := [ZeroAndOnes(m), Ones(n)], [ZeroAndOnes(n), Ones(m)];
            multiset(a) != multiset(b) && HashedString(a) == HashedString(b)
  {
    var a, b := [ZeroAndOnes(m), Ones(n)], [ZeroAndOnes(n), Ones(m)];
    assert ZeroAndOnes(m) != Ones(m);
    assert a[0] !in b && a[0] in multiset(a) && a[0] !in multiset(b);
    AscendingPair(ZeroAndOnes(m), Ones(n));
    AscendingPair(ZeroAndOnes(n), Ones(m));
    assert ZeroAndOnes(m) + Ones(n) == [48] + Ones(m + n - 1) == ZeroAndOnes(n) + Ones(m);
  }

  /** Empty keys leave no trace in the string. */
  lemma EmptyKeysCollide()
    ensures var a, b: seq<seq<byte>> := [[]], [[], []];
            multiset(a) != multiset(b) && HashedString(a) == HashedString(b)
  {
    var a, b: seq<seq<byte>> := [[]], [[], []];
    AscendingPair([], []);
    assert Sorted(a) == a && Concat(a) == [];
    assert |multiset(a)| == 1 && |multiset(b)| == 2;
  }

  /** A list as either side accepts it: not empty, its keys of allowed lengths. */
  ghost predicate IsListOver(l: seq<seq<byte>>, lengths: iset<nat>) {
    l != [] && forall k <- l :: |k| in lengths
  }

  /** The string tells all lists of keys of the given lengths apart, order aside. */
  ghost predicate TellsListsApart(lengths: iset<nat>) {
    forall a, b :: IsListOver(a, lengths) && IsListOver(b, lengths) ==>
      (HashedString(a) == HashedString(b) <==> multiset(a) == multiset(b))
  }

  /** It does so exactly if no key is empty and no two lengths are allowed. */
  lemma ListsAreToldApartExactlyByOneLength(lengths: iset<nat>)
    ensures TellsListsApart(lengths) <==> 0 !in lengths && forall m, n :: m in lengths && n in lengths ==> m == n
  {
    hide HashedString, Ones, ZeroAndOnes;
    if 0 in lengths {
      EmptyKeysCollide();
      assert IsListOver([[]], lengths) && IsListOver([[], []], lengths);
    } else if m, n :| m in lengths && n in lengths && m < n {
      UnequalLengthsCollide(m, n);
      assert IsListOver([ZeroAndOnes(m), Ones(n)], lengths) && IsListOver([ZeroAndOnes(n), Ones(m)], lengths);
    } else {
      forall a, b | IsListOver(a, lengths) && IsListOver(b, lengths)
        ensures HashedString(a) == HashedString(b) <==> multiset(a) == multiset(b)
      {
        HashedStringTellsListsApart(a, b, |a[0]|);
      }
    }
  }

  // ---------- the two places that compute it

  /** A request key: nothing, or the digest of a string. SHA-256 and the hexadecimal form are symbolic. */
  datatype RequestKey = NoKey | Sha256Hex(input: seq<byte>)

  /** The loop both sides run: the elements one after the other. */
  method Concatenate(l: seq<seq<byte>>) returns (s: seq<byte>)
    ensures s == Concat(l)
  {
    s := [];
    var i := 0;
    while i < |l|
      invariant 0 <= i <= |l| && s == Concat(l[..i])
    {
      assert l[..i + 1] == l[..i] + [l[i]];
      ConcatAppend(l[..i], [l[i]]);
      s := s + l[i];
      i := i + 1;
    }
    assert l[..i] == l;
  }

  class KeyShardParam {
    var pubkeyList: seq<seq<byte>>

    constructor (pubkeyList: seq<seq<byte>>)
      ensures this.pubkeyList == pubkeyList
    {
      this.pubkeyList := pubkeyList;
    }

    /** On the host: sorts the field, then appends its elements one by one. */
    method CalcPubkeyListHash() returns (key: RequestKey)
      modifies this
      ensures pubkeyList == Sorted(old(pubkeyList))
      ensures key == if old(pubkeyList) == [] then NoKey else Sha256Hex(HashedString(old(pubkeyList)))
    {
      if |pubkeyList| == 0 {
        return NoKey;
      }
      SortedSorts(pubkeyList);
      pubkeyList := Sorted(pubkeyList);
      var s := Concatenate(pubkeyList);
      key := Sha256Hex(s);
    }
  }

  /** In the enclave: the caller has sorted a copy of the list; an empty list is an error. */
  method GetPubkeyHash(sortedList: seq<seq<byte>>) returns (ok: bool, key: RequestKey)
    ensures ok <==> sortedList != []
    ensures key == if sortedList == [] then NoKey else Sha256Hex(Concat(sortedList))
  {
    if |sortedList| == 0 {
      return false, NoKey;
    }
    var s := Concatenate(sortedList);
    return true, Sha256Hex(s);
  }

  /** Both sides, given the keys of one request in any order, arrive at the same request key. */
  method KeysOfOneRequest(host: seq<seq<byte>>, enclave: seq<seq<byte>>)
    returns (hostKey: RequestKey, enclaveKey: RequestKey)
    requires multiset(host) == multiset(enclave) && host != []
    ensures hostKey == enclaveKey == Sha256Hex(HashedString(host))
  {
    var param := new KeyShardParam(host);
    hostKey := param.CalcPubkeyListHash();
    SortedSorts(enclave);
    assert host[0] in multiset(enclave);
    assert Sorted(enclave) != [] by {
      assert host[0] in multiset(Sorted(enclave));
    }
    var ok;
    ok, enclaveKey := GetPubkeyHash(Sorted(enclave));
    HashedStringIgnoresOrder(host, enclave);
  }
}
