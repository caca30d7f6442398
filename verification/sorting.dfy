/** `sortItems`: the comparator the explorer hands to `Array.prototype.sort`
    and the stable sort it drives. Items are the base names of the
    directory's entries (the comparator only ever looks at base names). */
module Sorting {
  import opened OrderConfig
  import Strings

  /** The comparator of `sortItems`: ranked names before unranked ones,
      ranked names by ascending rank, unranked names by name. */
  function Comparator(a: string, b: string, order: Config): (c: int)
    ensures c < 0 <==> KeyLess(Key(a, order), Key(b, order))
    ensures c == 0 <==> Key(a, order) == Key(b, order)
  {
    var ai := Rank(a, order);
    var bi := Rank(b, order);
    if ai != -1 && bi != -1 then ai - bi
    else if ai != -1 then -1
    else if bi != -1 then 1
    else Strings.Compare(a, b)
  }

  /** `a` may be placed before `b`. */
  predicate Before(a: string, b: string, order: Config) {
    Comparator(a, b, order) <= 0
  }

  /** The class of names the comparator cannot tell apart: ranked names of
      equal rank, or one unranked name. */
  datatype SortKey = Ranked(rank: nat) | Unranked(name: string)

  function Key(name: string, order: Config): SortKey
  {
    var i := Rank(name, order);
    if i == -1 then Unranked(name) else Ranked(i)
  }

  /** The order on classes the comparator encodes: every ranked class
      before every unranked one, ranked classes by ascending rank, unranked
      names by name. */
  predicate KeyLess(x: SortKey, y: SortKey) {
    match x
    case Ranked(i) => y.Unranked? || i < y.rank
    case Unranked(a) => y.Unranked? && Strings.LexLess(a, y.name)
  }

  /** The comparator is consistent, as `Array.prototype.sort` requires:
      swapping its arguments negates it, it is zero exactly on names of one
      class, and `Before` is a total preorder. */
  lemma ComparatorConsistent(a: string, b: string, c: string, order: Config)
    ensures Comparator(b, a, order) == -Comparator(a, b, order)
    ensures Comparator(a, b, order) == 0 <==> Key(a, order) == Key(b, order)
    ensures Before(a, b, order) || Before(b, a, order)
    ensures Before(a, b, order) && Before(b, c, order) ==> Before(a, c, order)
  {
    Strings.CompareAntisymmetric(a, b);
    Strings.LexLeTotalOrder(a, b, c);
  }

  lemma BeforeTransitive(a: string, b: string, c: string, order: Config)
    requires Before(a, b, order) && Before(b, c, order)
    ensures Before(a, c, order)
  {
    ComparatorConsistent(a, b, c, order);
  }

  /** Every name is placed before every later one. */
  ghost predicate Sorted(s: seq<string>, order: Config) {
    forall i, j :: 0 <= i < j < |s| ==> Before(s[i], s[j], order)
  }

  /** Inserts `x` before the first element it may precede. Since `x` came
      earlier in the input than everything in `t`, it stays ahead of the
      names of its own class: the insertion is stable. */
  function Insert(x: string, t: seq<string>, order: Config): (r: seq<string>)
    requires Sorted(t, order)
    ensures multiset(r) == multiset(t) + multiset{x}
    ensures Sorted(r, order)
    decreases |t|
  {
    if |t| == 0 then [x]
    else if Before(x, t[0], order) then
      PrependLeast(x, t, order);
      [x] + t
    else
      var rest := Insert(x, t[1..], order);
      HeadBeforeInserted(x, t, rest, order);
      assert t == [t[0]] + t[1..];
      [t[0]] + rest
  }

  lemma PrependLeast(x: string, t: seq<string>, order: Config)
    requires Sorted(t, order)
    requires |t| > 0 && Before(x, t[0], order)
    ensures Sorted([x] + t, order)
  {
    forall j | 0 < j < |t|
      ensures Before(x, t[j], order)
    {
      BeforeTransitive(x, t[0], t[j], order);
    }
  }

  lemma HeadBeforeInserted(x: string, t: seq<string>, rest: seq<string>, order: Config)
    requires Sorted(t, order) && Sorted(rest, order)
    requires |t| > 0 && !Before(x, t[0], order)
    requires multiset(rest) == multiset(t[1..]) + multiset{x}
    ensures Sorted([t[0]] + rest, order)
  {
    ComparatorConsistent(x, t[0], x, order);
    forall i | 0 <= i < |rest|
      ensures Before(t[0], rest[i], order)
    {
      assert rest[i] in multiset(rest);
      if rest[i] != x {
        assert rest[i] in multiset(t[1..]);
        var j :| 0 <= j < |t[1..]| && t[1..][j] == rest[i];
        assert t[j + 1] == rest[i];
      }
    }
  }

  /** Insertion sort from the back: stable, like `Array.prototype.sort`. */
  function Sort(s: seq<string>, order: Config): (r: seq<string>)
    ensures multiset(r) == multiset(s)
    ensures Sorted(r, order)
    decreases |s|
  {
    if |s| == 0 then []
    else
      assert s == [s[0]] + s[1..];
      Insert(s[0], Sort(s[1..], order), order)
  }

  /** `sortItems(items, order)`: a rearrangement of the items with the
      ranked names first in rank order, then the unranked names in name
      order; with no order list, or an empty one, plain name order. */
  function SortItems(items: seq<string>, order: Config): (r: seq<string>)
    ensures multiset(r) == multiset(items)
    ensures forall i, j :: 0 <= i < j < |r| && Rank(r[j], order) != -1 ==> Rank(r[i], order) != -1
    ensures forall i, j :: 0 <= i < j < |r| && Rank(r[i], order) != -1 && Rank(r[j], order) != -1 ==>
      Rank(r[i], order) <= Rank(r[j], order)
    ensures forall i, j :: 0 <= i < j < |r| && Rank(r[i], order) == -1 && Rank(r[j], order) == -1 ==>
      Strings.LexLe(r[i], r[j])
    ensures !order.OrderList? || |order.entries| == 0 ==>
      forall i, j :: 0 <= i < j < |r| ==> Strings.LexLe(r[i], r[j])
  {
    Sort(items, order)
  }

  // ---------------------------------------------------------------------
  // Stability and uniqueness

  /** The names of `s` in class `k`, in their order in `s`. */
  function ClassOf(s: seq<string>, k: SortKey, order: Config): (r: seq<string>)
    ensures |r| <= |s|
    decreases |s|
  {
    if |s| == 0 then []
    else (if Key(s[0], order) == k then [s[0]] else []) + ClassOf(s[1..], k, order)
  }

  /** Every name of `ClassOf(s, k)` is a name of `s` in class `k`. */
  lemma {:induction false} ClassOfMembers(s: seq<string>, k: SortKey, order: Config, x: string)
    requires x in ClassOf(s, k, order)
    ensures x in s && Key(x, order) == k
    decreases |s|
  {
    if |s| > 0 {
      var h := if Key(s[0], order) == k then [s[0]] else [];
      assert ClassOf(s, k, order) == h + ClassOf(s[1..], k, order);
      if x != s[0] || Key(x, order) != k {
        assert x in ClassOf(s[1..], k, order);
        ClassOfMembers(s[1..], k, order, x);
      }
    }
  }

  lemma ClassOfCons(y: string, s: seq<string>, k: SortKey, order: Config)
    ensures ClassOf([y] + s, k, order) == (if Key(y, order) == k then [y] else []) + ClassOf(s, k, order)
  {
    assert ([y] + s)[1..] == s;
  }

  lemma {:induction false} ClassOfInsert(x: string, t: seq<string>, k: SortKey, order: Config)
    requires Sorted(t, order)
    ensures ClassOf(Insert(x, t, order), k, order)
      == (if Key(x, order) == k then [x] else []) + ClassOf(t, k, order)
    decreases |t|
  {
    if |t| == 0 {
      ClassOfCons(x, t, k, order);
    } else if Before(x, t[0], order) {
      ClassOfCons(x, t, k, order);
    } else {
      ComparatorConsistent(x, t[0], x, order);
      SortedTail(t, order);
      var rest := Insert(x, t[1..], order);
      assert Insert(x, t, order) == [t[0]] + rest;
      ClassOfInsert(x, t[1..], k, order);
      ClassOfPassOver(x, t[0], rest, t[1..], k, order);
      assert t == [t[0]] + t[1..];
    }
  }

  /** Passing over a name of another class does not disturb the class of
      the name being inserted. */
  lemma ClassOfPassOver(x: string, y: string, rest: seq<string>, tail: seq<string>, k: SortKey, order: Config)
    requires Key(x, order) != Key(y, order)
    requires ClassOf(rest, k, order) == (if Key(x, order) == k then [x] else []) + ClassOf(tail, k, order)
    ensures ClassOf([y] + rest, k, order)
      == (if Key(x, order) == k then [x] else []) + ClassOf([y] + tail, k, order)
  {
    if Key(x, order) == k {
      PassOverOwnClass(x, y, rest, tail, k, order);
    } else {
      PassOverOtherClass(y, rest, tail, k, order);
    }
  }

  lemma PassOverOwnClass(x: string, y: string, rest: seq<string>, tail: seq<string>, k: SortKey, order: Config)
    requires Key(x, order) == k && Key(y, order) != k
    requires ClassOf(rest, k, order) == [x] + ClassOf(tail, k, order)
    ensures ClassOf([y] + rest, k, order) == [x] + ClassOf([y] + tail, k, order)
  {
    ClassOfCons(y, rest, k, order);
    ClassOfCons(y, tail, k, order);
  }

  lemma PassOverOtherClass(y: string, rest: seq<string>, tail: seq<string>, k: SortKey, order: Config)
    requires ClassOf(rest, k, order) == ClassOf(tail, k, order)
    ensures ClassOf([y] + rest, k, order) == ClassOf([y] + tail, k, order)
  {
    ClassOfCons(y, rest, k, order);
    ClassOfCons(y, tail, k, order);
  }

  lemma SortedTail(t: seq<string>, order: Config)
    requires Sorted(t, order) && |t| > 0
    ensures Sorted(t[1..], order)
  {
    forall i, j | 0 <= i < j < |t| - 1
      ensures Before(t[1..][i], t[1..][j], order)
    {
      assert t[1..][i] == t[i + 1] && t[1..][j] == t[j + 1];
    }
  }

  /** The sort is stable: within each class the names keep their input
      order. */
  lemma {:induction false} SortStable(s: seq<string>, k: SortKey, order: Config)
    ensures ClassOf(Sort(s, order), k, order) == ClassOf(s, k, order)
    decreases |s|
  {
    if |s| > 0 {
      SortStable(s[1..], k, order);
      ClassOfInsert(s[0], Sort(s[1..], order), k, order);
    }
  }

  lemma ClassOfHead(s: seq<string>, order: Config)
    requires |s| > 0
    ensures ClassOf(s, Key(s[0], order), order) == [s[0]] + ClassOf(s[1..], Key(s[0], order), order)
  {
  }

  /** A name that occurs in a sorted sequence may follow its head. */
  lemma HeadBeforeMember(r: seq<string>, x: string, order: Config)
    requires Sorted(r, order) && |r| > 0 && x in r
    ensures Before(r[0], x, order)
  {
    var j :| 0 <= j < |r| && r[j] == x;
    if j == 0 {
      ComparatorConsistent(x, x, x, order);
    }
  }

  /** Sorted sequences that agree class by class start with the same name. */
  lemma SortedSameHead(r1: seq<string>, r2: seq<string>, order: Config)
    requires Sorted(r1, order) && Sorted(r2, order)
    requires |r1| > 0 && |r2| > 0
    requires ClassOf(r1, Key(r1[0], order), order) == ClassOf(r2, Key(r1[0], order), order)
    requires ClassOf(r1, Key(r2[0], order), order) == ClassOf(r2, Key(r2[0], order), order)
    ensures r1[0] == r2[0]
  {
    var x1, x2 := r1[0], r2[0];
    ClassOfHead(r1, order);
    ClassOfHead(r2, order);
    assert x1 in ClassOf(r2, Key(x1, order), order);
    ClassOfMembers(r2, Key(x1, order), order, x1);
    HeadBeforeMember(r2, x1, order);
    assert x2 in ClassOf(r1, Key(x2, order), order);
    ClassOfMembers(r1, Key(x2, order), order, x2);
    HeadBeforeMember(r1, x2, order);
    ComparatorConsistent(x1, x2, x1, order);
    var k := Key(x1, order);
    assert Key(x2, order) == k;
    assert ClassOf(r1, k, order)[0] == x1;
    assert ClassOf(r2, k, order)[0] == x2;
  }

  /** Removing a common head keeps two sequences in class-by-class agreement. */
  lemma ClassOfTails(r1: seq<string>, r2: seq<string>, k: SortKey, order: Config)
    requires |r1| > 0 && |r2| > 0 && r1[0] == r2[0]
    requires ClassOf(r1, k, order) == ClassOf(r2, k, order)
    ensures ClassOf(r1[1..], k, order) == ClassOf(r2[1..], k, order)
  {
    var h := if Key(r1[0], order) == k then [r1[0]] else [];
    assert ClassOf(r1, k, order) == h + ClassOf(r1[1..], k, order);
    assert ClassOf(r2, k, order) == h + ClassOf(r2[1..], k, order);
    assert ClassOf(r1[1..], k, order) == (h + ClassOf(r1[1..], k, order))[|h|..];
    assert ClassOf(r2[1..], k, order) == (h + ClassOf(r2[1..], k, order))[|h|..];
  }

  /** Two sorted sequences that agree class by class are equal: a sorted,
      stable rearrangement is unique, so every stable sort driven by this
      comparator returns the same sequence. */
  lemma {:induction false} SortedUnique(r1: seq<string>, r2: seq<string>, order: Config)
    requires Sorted(r1, order) && Sorted(r2, order)
    requires forall k :: ClassOf(r1, k, order) == ClassOf(r2, k, order)
    ensures r1 == r2
    decreases |r1|
  {
    if |r1| == 0 {
      if |r2| > 0 {
        ClassOfHead(r2, order);
      }
    } else if |r2| == 0 {
      ClassOfHead(r1, order);
    } else {
      SortedSameHead(r1, r2, order);
      forall k
        ensures ClassOf(r1[1..], k, order) == ClassOf(r2[1..], k, order)
      {
        ClassOfTails(r1, r2, k, order);
      }
      SortedUnique(r1[1..], r2[1..], order);
      assert r1 == [r1[0]] + r1[1..];
      assert r2 == [r2[0]] + r2[1..];
    }
  }

  /** `SortItems` is the sorted, stable rearrangement of its input: any
      sequence that is sorted by the comparator and keeps every class in
      input order is exactly `SortItems`. */
  lemma SortItemsCharacterised(items: seq<string>, r: seq<string>, order: Config)
    requires Sorted(r, order)
    requires forall k :: ClassOf(r, k, order) == ClassOf(items, k, order)
    ensures r == SortItems(items, order)
  {
    forall k
      ensures ClassOf(r, k, order) == ClassOf(SortItems(items, order), k, order)
    {
      SortStable(items, k, order);
    }
    SortedUnique(r, SortItems(items, order), order);
  }
}
