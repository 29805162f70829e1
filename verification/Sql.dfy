/**
  `ORDER BY` over a set of rows, and `LIMIT`/`OFFSET` over the ordered list. Both are
  specified independently of any page arithmetic.
 */
module Sql {
  import opened Wrappers

  /** `before` is a strict total order on the rows of `s`. */
  ghost predicate TotalOn<K(!new)>(s: set<K>, before: (K, K) -> bool) {
    && (forall x | x in s :: !before(x, x))
    && (forall x, y | x in s && y in s :: x != y ==> before(x, y) || before(y, x))
    && (forall x, y, z | x in s && y in s && z in s :: before(x, y) && before(y, z) ==> before(x, z))
  }

  ghost predicate IsLeast<K(!new)>(m: K, s: set<K>, before: (K, K) -> bool) {
    m in s && forall x | x in s :: x != m ==> before(m, x)
  }

  lemma {:induction false} LeastExists<K(!new)>(s: set<K>, before: (K, K) -> bool) returns (m: K)
    requires s != {} && TotalOn(s, before)
    ensures IsLeast(m, s, before)
    decreases s
  {
    var x :| x in s;
    if s == {x} {
      m := x;
    } else {
      var rest := LeastExists(s - {x}, before);
      m := if before(x, rest) then x else rest;
    }
  }

  ghost function Least<K(!new)>(s: set<K>, before: (K, K) -> bool): (m: K)
    requires s != {} && TotalOn(s, before)
    ensures IsLeast(m, s, before)
  {
    assert exists m :: IsLeast(m, s, before) by {
      var m := LeastExists(s, before);
    }
    var m :| IsLeast(m, s, before);
    m
  }

  /** `SELECT * FROM s ORDER BY before`. */
  ghost function Ordered<K(!new)>(s: set<K>, before: (K, K) -> bool): seq<K>
    requires TotalOn(s, before)
    decreases s
  {
    if s == {} then []
    else
      var m := Least(s, before);
      [m] + Ordered(s - {m}, before)
  }

  ghost predicate Sorted<K(!new)>(list: seq<K>, before: (K, K) -> bool) {
    forall i, j :: 0 <= i < j < |list| ==> before(list[i], list[j])
  }

  /** The ordered list holds every row once, each strictly before the next. */
  lemma {:induction false} OrderedExact<K(!new)>(s: set<K>, before: (K, K) -> bool)
    requires TotalOn(s, before)
    ensures Sorted(Ordered(s, before), before)
    ensures forall x :: x in Ordered(s, before) <==> x in s
    ensures |Ordered(s, before)| == |s|
    decreases s
  {
    if s != {} {
      var m := Least(s, before);
      OrderedExact(s - {m}, before);
      var rest := Ordered(s - {m}, before);
      forall j | 0 <= j < |rest| ensures before(m, rest[j]) {
        assert rest[j] in rest;
      }
    }
  }

  /** A strictly ordered list of the rows of `s` starts with the least of them. */
  lemma OrderedHead<K(!new)>(list: seq<K>, s: set<K>, before: (K, K) -> bool)
    requires s != {} && TotalOn(s, before) && Sorted(list, before)
    requires forall x :: x in list <==> x in s
    ensures list != [] && list[0] == Least(s, before)
  {
    var m := Least(s, before);
    assert m in list;
    var i :| 0 <= i < |list| && list[i] == m;
    assert list[0] in list;
    assert list[0] in s;
    if i != 0 {
      assert false;
    }
  }

  lemma OrderedTail<K(!new)>(list: seq<K>, s: set<K>, before: (K, K) -> bool)
    requires TotalOn(s, before) && Sorted(list, before) && list != []
    requires forall x :: x in list <==> x in s
    ensures Sorted(list[1..], before)
    ensures forall x :: x in list[1..] <==> x in s - {list[0]}
  {
    assert list == [list[0]] + list[1..];
    assert list[0] in list;
    forall j | 0 <= j < |list[1..]| ensures list[1..][j] != list[0] {
      assert before(list[0], list[j + 1]);
    }
  }

  /** Any strictly ordered list of the same rows is that list. */
  lemma {:induction false} OrderedUnique<K(!new)>(list: seq<K>, s: set<K>, before: (K, K) -> bool)
    requires TotalOn(s, before) && Sorted(list, before)
    requires forall x :: x in list <==> x in s
    ensures list == Ordered(s, before)
    decreases s
  {
    assert list != [] ==> list[0] in list;
    if s != {} {
      OrderedHead(list, s, before);
      OrderedTail(list, s, before);
      OrderedUnique(list[1..], s - {list[0]}, before);
      assert list == [list[0]] + list[1..];
    }
  }

  /** `LIMIT limit OFFSET offset`. */
  function Slice<T>(list: seq<T>, limit: nat, offset: nat): seq<T> {
    if offset >= |list| then [] else list[offset..Min(offset + limit, |list|)]
  }

  /** The first `pages` pages, one after the other. */
  function Pages<T>(list: seq<T>, perPage: nat, pages: nat): seq<T> {
    if pages == 0 then []
    else Pages(list, perPage, pages - 1) + Slice(list, perPage, (pages - 1) * perPage)
  }

  /** Consecutive pages concatenate to a prefix, and enough of them to the whole list. */
  lemma {:induction false} PagesConcatenate<T>(list: seq<T>, perPage: nat, pages: nat)
    requires perPage >= 1
    ensures Pages(list, perPage, pages) == list[..Min(pages * perPage, |list|)]
    ensures pages * perPage >= |list| ==> Pages(list, perPage, pages) == list
  {
    if pages != 0 {
      PagesConcatenate(list, perPage, pages - 1);
      assert pages * perPage == (pages - 1) * perPage + perPage;
    }
  }

  /** Position `i` of the list is position `i % perPage` of page `i / perPage`, and of no other page. */
  lemma EachPositionOnOnePage<T>(list: seq<T>, perPage: nat, i: nat, page: nat, offset: nat)
    requires perPage >= 1 && i < |list|
    requires offset < |Slice(list, perPage, page * perPage)|
    ensures page * perPage + offset < |list|
    ensures Slice(list, perPage, page * perPage)[offset] == list[page * perPage + offset]
    ensures page * perPage + offset == i <==> page == i / perPage && offset == i % perPage
  {
    if page * perPage + offset == i {
      DivisionUnique(i, perPage, page, offset);
    }
  }
}
