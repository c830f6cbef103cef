/** `g_array_sort`: the elements by ascending key, equal keys in any order. */
module Sorting {

  ghost predicate Ascends<T>(s: seq<T>, key: T -> real)
  {
    forall i, j :: 0 <= i < j < |s| ==> key(s[i]) <= key(s[j])
  }

  function Insert<T>(x: T, s: seq<T>, key: T -> real): seq<T>
  {
    if s == [] || key(x) <= key(s[0]) then [x] + s else [s[0]] + Insert(x, s[1..], key)
  }

  function InsertionSort<T>(s: seq<T>, key: T -> real): seq<T>
  {
    if s == [] then [] else Insert(s[0], InsertionSort(s[1..], key), key)
  }

  lemma {:induction false} InsertConserves<T>(x: T, s: seq<T>, key: T -> real)
    ensures multiset(Insert(x, s, key)) == multiset{x} + multiset(s)
  {
    if s != [] && key(x) > key(s[0]) {
      InsertConserves(x, s[1..], key);
      assert s == [s[0]] + s[1..];
    }
  }

  lemma AscendsFrom<T>(x: T, s: seq<T>, key: T -> real)
    requires Ascends(s, key) && (s != [] ==> key(x) <= key(s[0]))
    ensures Ascends([x] + s, key)
  {
  }

  lemma AscendsTail<T>(s: seq<T>, key: T -> real)
    requires Ascends(s, key) && s != []
    ensures Ascends(s[1..], key) && (s[1..] != [] ==> key(s[0]) <= key(s[1]))
  {
  }

  /** What was not below `low` stays so. */
  lemma {:induction false} InsertAscends<T>(x: T, s: seq<T>, key: T -> real, low: real)
    requires Ascends(s, key) && key(x) >= low && (s != [] ==> key(s[0]) >= low)
    ensures Insert(x, s, key) != [] && Ascends(Insert(x, s, key), key) && key(Insert(x, s, key)[0]) >= low
  {
    hide Ascends;
    if s == [] || key(x) <= key(s[0]) {
      AscendsFrom(x, s, key);
    } else {
      AscendsTail(s, key);
      InsertAscends(x, s[1..], key, key(s[0]));
      AscendsFrom(s[0], Insert(x, s[1..], key), key);
    }
  }

  lemma {:induction false} SortAscends<T>(s: seq<T>, key: T -> real)
    ensures Ascends(InsertionSort(s, key), key) && multiset(InsertionSort(s, key)) == multiset(s)
  {
    if s != [] {
      var rest := InsertionSort(s[1..], key);
      SortAscends(s[1..], key);
      InsertConserves(s[0], rest, key);
      InsertAscends(s[0], rest, key, if rest == [] || key(s[0]) <= key(rest[0]) then key(s[0]) else key(rest[0]));
      assert s == [s[0]] + s[1..];
    }
  }

  /** Any ascending order may come out. */
  method SortBy<T(==)>(s: seq<T>, key: T -> real) returns (r: seq<T>)
    ensures Ascends(r, key) && multiset(r) == multiset(s)
  {
    r := *;
    if multiset(r) != multiset(s) || exists i, j :: 0 <= i < j < |r| && key(r[i]) > key(r[j]) {
      r := InsertionSort(s, key);
      SortAscends(s, key);
    }
  }
}
