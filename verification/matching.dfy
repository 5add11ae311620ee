/**
 * The identity matcher `split` of src/pages/Events/sync.ts: partitions a local
 * list `a` and a remote list `b` by their server identifier (`indicoId`) into
 * the local-only elements, the remote-only elements and the matched pairs.
 * The identifier of an element is given by a function, standing for the
 * `indicoId` field that both element types of the source carry.
 */
module Matching {

  datatype Partition<T, U> = Partition(onlyExisting: seq<T>, onlyNew: seq<U>, common: seq<(T, U)>)

  /** The identifiers occurring in `s`. */
  function Ids<T>(s: seq<T>, id: T -> int): set<int> {
    set i | 0 <= i < |s| :: id(s[i])
  }

  /** No later element of `s` has the identifier of `s[i]`. */
  predicate LastWithId<T>(s: seq<T>, id: T -> int, i: int)
    requires 0 <= i < |s|
  {
    forall j :: i < j < |s| ==> id(s[j]) != id(s[i])
  }

  /** No identifier occurs twice in `s`. */
  predicate UniqueIds<T>(s: seq<T>, id: T -> int) {
    forall i, j :: 0 <= i < j < |s| ==> id(s[i]) != id(s[j])
  }

  /**
   * The lookup object `split` builds with `reduce`: every element is stored
   * under its identifier, a later element overwriting an earlier one.
   */
  function IndexById<T>(s: seq<T>, id: T -> int): (m: map<int, T>)
    ensures m.Keys == Ids(s, id)
    ensures forall k :: k in m ==> id(m[k]) == k
  {
    if s == [] then map[]
    else
      var init, last := s[..|s| - 1], s[|s| - 1];
      assert s == init + [last];
      IdsOfSnoc(init, last, id);
      IndexById(init, id)[id(last) := last]
  }

  lemma {:induction false} IdsOfSnoc<T>(init: seq<T>, last: T, id: T -> int)
    ensures Ids(init + [last], id) == Ids(init, id) + {id(last)}
  {
    var s := init + [last];
    forall k | k in Ids(s, id) ensures k in Ids(init, id) + {id(last)} {
      var i :| 0 <= i < |s| && id(s[i]) == k;
      if i < |init| { assert id(init[i]) == k; }
    }
    assert id(s[|init|]) == id(last);
    forall k | k in Ids(init, id) ensures k in Ids(s, id) {
      var i :| 0 <= i < |init| && id(init[i]) == k;
      assert id(s[i]) == k;
    }
  }

  /** Every element `IndexById` stores is an element of `s`. */
  lemma {:induction false} IndexByIdElements<T>(s: seq<T>, id: T -> int, k: int)
    requires k in IndexById(s, id)
    ensures IndexById(s, id)[k] in s
  {
    var init, last := s[..|s| - 1], s[|s| - 1];
    if k != id(last) {
      IndexByIdElements(init, id, k);
      var j :| 0 <= j < |init| && init[j] == IndexById(init, id)[k];
      assert s[j] == init[j];
    }
  }

  /** A later element overwrites an earlier one: the last occurrence of an identifier is stored. */
  lemma {:induction false} IndexByIdLastWins<T>(s: seq<T>, id: T -> int, i: nat)
    requires i < |s| && LastWithId(s, id, i)
    ensures id(s[i]) in IndexById(s, id) && IndexById(s, id)[id(s[i])] == s[i]
  {
    var init, last := s[..|s| - 1], s[|s| - 1];
    assert id(s[i]) in Ids(s, id);
    if i < |init| {
      assert id(s[|s| - 1]) != id(s[i]);
      assert init[i] == s[i];
      assert LastWithId(init, id, i) by {
        forall j | i < j < |init| ensures id(init[j]) != id(init[i]) {
          assert init[j] == s[j];
        }
      }
      IndexByIdLastWins(init, id, i);
    }
  }

  /**
   * The elements of `s` whose identifier is in `keys` (when `present`) or is
   * not (otherwise), in their order in `s`: the `filter` calls of `split`.
   */
  function FilterById<T>(s: seq<T>, id: T -> int, keys: set<int>, present: bool): (r: seq<T>)
    ensures |r| <= |s|
    ensures forall i :: 0 <= i < |r| ==> r[i] in s && (id(r[i]) in keys) == present
    ensures forall i :: 0 <= i < |s| && (id(s[i]) in keys) == present ==> s[i] in r
  {
    if s == [] then []
    else (if (id(s[0]) in keys) == present then [s[0]] else []) + FilterById(s[1..], id, keys, present)
  }

  /** Each element of `matched` paired with the element stored under its identifier. */
  function PairUp<T, U>(matched: seq<T>, id: T -> int, index: map<int, U>): (r: seq<(T, U)>)
    requires forall i :: 0 <= i < |matched| ==> id(matched[i]) in index
    ensures |r| == |matched|
    ensures forall i :: 0 <= i < |r| ==> r[i].0 == matched[i] && r[i].1 == index[id(matched[i])]
  {
    seq(|matched|, i requires 0 <= i < |matched| => (matched[i], index[id(matched[i])]))
  }

  function Firsts<T, U>(ps: seq<(T, U)>): (r: seq<T>)
    ensures |r| == |ps| && forall i :: 0 <= i < |ps| ==> r[i] == ps[i].0
  {
    seq(|ps|, i requires 0 <= i < |ps| => ps[i].0)
  }

  function Seconds<T, U>(ps: seq<(T, U)>): (r: seq<U>)
    ensures |r| == |ps| && forall i :: 0 <= i < |ps| ==> r[i] == ps[i].1
  {
    seq(|ps|, i requires 0 <= i < |ps| => ps[i].1)
  }

  /** `split(a, b)`. */
  function Split<T, U>(a: seq<T>, b: seq<U>, idA: T -> int, idB: U -> int): (r: Partition<T, U>)
    ensures forall i :: 0 <= i < |r.onlyExisting| ==> r.onlyExisting[i] in a && idA(r.onlyExisting[i]) !in Ids(b, idB)
    ensures forall i :: 0 <= i < |a| && idA(a[i]) !in Ids(b, idB) ==> a[i] in r.onlyExisting
    ensures forall i :: 0 <= i < |r.onlyNew| ==> r.onlyNew[i] in b && idB(r.onlyNew[i]) !in Ids(a, idA)
    ensures forall i :: 0 <= i < |b| && idB(b[i]) !in Ids(a, idA) ==> b[i] in r.onlyNew
    ensures |r.onlyExisting| + |r.common| == |a|
    ensures forall i :: 0 <= i < |r.common| ==>
              && r.common[i].0 in a
              && idA(r.common[i].0) in Ids(b, idB)
              && idB(r.common[i].1) == idA(r.common[i].0)
              && r.common[i].1 == IndexById(b, idB)[idA(r.common[i].0)]
    ensures forall i :: 0 <= i < |a| && idA(a[i]) in Ids(b, idB) ==> a[i] in Firsts(r.common)
  {
    var existingById := IndexById(a, idA);
    var newById := IndexById(b, idB);
    var onlyExisting := FilterById(a, idA, newById.Keys, false);
    var onlyNew := FilterById(b, idB, existingById.Keys, false);
    var matched := FilterById(a, idA, newById.Keys, true);
    var common := PairUp(matched, idA, newById);
    FilterCount(a, idA, newById.Keys);
    assert Firsts(common) == matched;
    Partition(onlyExisting, onlyNew, common)
  }

  /** The two complementary filters split `s` between them, element for element. */
  lemma {:induction false} FilterComplement<T>(s: seq<T>, id: T -> int, keys: set<int>)
    ensures multiset(FilterById(s, id, keys, false)) + multiset(FilterById(s, id, keys, true)) == multiset(s)
  {
    if s != [] {
      var rest := s[1..];
      FilterComplement(rest, id, keys);
      assert s == [s[0]] + rest;
      assert multiset(s) == multiset([s[0]]) + multiset(rest);
      if id(s[0]) in keys {
        assert FilterById(s, id, keys, false) == FilterById(rest, id, keys, false);
        assert FilterById(s, id, keys, true) == [s[0]] + FilterById(rest, id, keys, true);
      } else {
        assert FilterById(s, id, keys, false) == [s[0]] + FilterById(rest, id, keys, false);
        assert FilterById(s, id, keys, true) == FilterById(rest, id, keys, true);
      }
    }
  }

  lemma FilterCount<T>(s: seq<T>, id: T -> int, keys: set<int>)
    ensures |FilterById(s, id, keys, false)| + |FilterById(s, id, keys, true)| == |s|
  {
    FilterComplement(s, id, keys);
    assert |multiset(FilterById(s, id, keys, false)) + multiset(FilterById(s, id, keys, true))| == |multiset(s)|;
  }

  /** Filtering keeps the order of its input: it distributes over concatenation. */
  lemma {:induction false} FilterConcat<T>(s: seq<T>, t: seq<T>, id: T -> int, keys: set<int>, present: bool)
    ensures FilterById(s + t, id, keys, present) == FilterById(s, id, keys, present) + FilterById(t, id, keys, present)
  {
    if s == [] {
      assert s + t == t;
    } else {
      var head := if (id(s[0]) in keys) == present then [s[0]] else [];
      assert (s + t)[0] == s[0];
      assert (s + t)[1..] == s[1..] + t;
      FilterConcat(s[1..], t, id, keys, present);
      calc {
        FilterById(s + t, id, keys, present);
        head + FilterById(s[1..] + t, id, keys, present);
        head + (FilterById(s[1..], id, keys, present) + FilterById(t, id, keys, present));
        (head + FilterById(s[1..], id, keys, present)) + FilterById(t, id, keys, present);
      }
    }
  }

  lemma InIds<T>(s: seq<T>, id: T -> int, x: T)
    requires x in s
    ensures id(x) in Ids(s, id)
  {
    var i :| 0 <= i < |s| && s[i] == x;
  }

  /**
   * `onlyExisting` is `a` with the matched elements taken out, in `a`'s order,
   * and `common` pairs up the rest in `a`'s order.
   */
  lemma SplitKeepsOrder<T, U>(a: seq<T>, b: seq<U>, idA: T -> int, idB: U -> int)
    ensures Split(a, b, idA, idB).onlyExisting == FilterById(a, idA, Ids(b, idB), false)
    ensures Firsts(Split(a, b, idA, idB).common) == FilterById(a, idA, Ids(b, idB), true)
    ensures Split(a, b, idA, idB).onlyNew == FilterById(b, idB, Ids(a, idA), false)
  {
  }

  /** Every element of `a` is in exactly one of `onlyExisting` and the first components of `common`. */
  lemma SplitCoversExisting<T, U>(a: seq<T>, b: seq<U>, idA: T -> int, idB: U -> int)
    ensures var r := Split(a, b, idA, idB);
      multiset(r.onlyExisting) + multiset(Firsts(r.common)) == multiset(a)
  {
    SplitKeepsOrder(a, b, idA, idB);
    FilterComplement(a, idA, Ids(b, idB));
  }

  /**
   * With unique identifiers in `b`, every element of `b` is in exactly one of
   * `onlyNew` and the second components of `common`.
   */
  lemma SplitCoversNew<T, U>(a: seq<T>, b: seq<U>, idA: T -> int, idB: U -> int)
    requires UniqueIds(b, idB)
    ensures var r := Split(a, b, idA, idB);
      forall j :: 0 <= j < |b| ==> (b[j] in r.onlyNew <==> b[j] !in Seconds(r.common))
    ensures var r := Split(a, b, idA, idB);
      forall k :: 0 <= k < |r.common| ==> r.common[k].1 in b
  {
    var r := Split(a, b, idA, idB);
    forall j | 0 <= j < |b| ensures b[j] in r.onlyNew <==> b[j] !in Seconds(r.common) {
      SplitCoversNewAt(a, b, idA, idB, j);
    }
    forall k | 0 <= k < |r.common| ensures r.common[k].1 in b {
      IndexByIdElements(b, idB, idA(r.common[k].0));
    }
  }

  lemma SplitCoversNewAt<T, U>(a: seq<T>, b: seq<U>, idA: T -> int, idB: U -> int, j: nat)
    requires UniqueIds(b, idB) && j < |b|
    ensures var r := Split(a, b, idA, idB);
      b[j] in r.onlyNew <==> b[j] !in Seconds(r.common)
  {
    var r := Split(a, b, idA, idB);
    var y := b[j];
    IndexByIdLastWins(b, idB, j);
    InIds(b, idB, y);
    if idB(y) in Ids(a, idA) {
      var i :| 0 <= i < |a| && idA(a[i]) == idB(y);
      assert a[i] in Firsts(r.common);
      var k :| 0 <= k < |r.common| && Firsts(r.common)[k] == a[i];
      assert r.common[k].1 == IndexById(b, idB)[idB(b[j])] == y;
      assert Seconds(r.common)[k] == y;
    } else if y in Seconds(r.common) {
      var k :| 0 <= k < |r.common| && Seconds(r.common)[k] == y;
      InIds(a, idA, r.common[k].0);
      assert false;
    }
  }

  /** When `b` repeats an identifier, the element paired is its last occurrence. */
  lemma SplitPairsLastOccurrence<T, U>(a: seq<T>, b: seq<U>, idA: T -> int, idB: U -> int, i: nat, j: nat)
    requires i < |Split(a, b, idA, idB).common| && j < |b|
    requires idB(b[j]) == idA(Split(a, b, idA, idB).common[i].0) && LastWithId(b, idB, j)
    ensures Split(a, b, idA, idB).common[i].1 == b[j]
  {
    IndexByIdLastWins(b, idB, j);
  }
}
