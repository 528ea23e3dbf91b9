/** Ruby Array behaviour that the template registries rely on: how `ary[pos]`
    and `ary.delete_at(pos)` resolve a position (it must fit a C `long`; a
    negative position counts from the end; anything else out of range gives
    nil), and removal of a value from an ordered listing. */
module RubyArray {

  datatype Option<T> = None | Some(value: T)

  /** Ruby converts the position given to `ary[pos]` and `ary.delete_at(pos)`
      to a C `long`: outside the 64-bit signed range the call raises
      RangeError before the array is looked at. */
  predicate FitsLong(pos: int)
  {
    -0x8000_0000_0000_0000 <= pos < 0x8000_0000_0000_0000
  }

  /** The element that `ary[pos]` reads in an array of length `n`, or None
      where Ruby answers nil. */
  function ResolveIndex(n: nat, pos: int): (r: Option<nat>)
    ensures r.Some? <==> 0 <= pos + n && pos < n
    ensures r.Some? ==> r.value < n && (r.value == pos || r.value == pos + n)
  {
    if 0 <= pos < n then Some(pos)
    else if 0 <= pos + n && pos < 0 then Some(n + pos)
    else None
  }

  /** `ary.delete_at(pos)` applied to a copy of `s`: the element at the
      resolved position is gone and the others keep their relative order;
      an unresolvable position leaves the array as it was. */
  function DeleteAt<T>(s: seq<T>, pos: int): (r: seq<T>)
    ensures ResolveIndex(|s|, pos).None? ==> r == s
    ensures ResolveIndex(|s|, pos).Some? ==>
      var i := ResolveIndex(|s|, pos).value;
      && |r| == |s| - 1
      && (forall k :: 0 <= k < i ==> r[k] == s[k])
      && (forall k :: i <= k < |r| ==> r[k] == s[k + 1])
      && multiset(r) + multiset{s[i]} == multiset(s)
  {
    match ResolveIndex(|s|, pos)
    case None => s
    case Some(i) =>
      assert s == s[..i] + [s[i]] + s[i + 1..];
      s[..i] + s[i + 1..]
  }

  /** No value occurs twice (the names of one directory are distinct). */
  predicate NoDuplicates<T(==)>(s: seq<T>)
  {
    forall i, j :: 0 <= i < j < |s| ==> s[i] != s[j]
  }

  /** `s` without any occurrence of `x`, in the original order. */
  function Remove<T(==, !new)>(s: seq<T>, x: T): (r: seq<T>)
    ensures |r| <= |s|
    ensures forall y :: y in r <==> y in s && y != x
  {
    if s == [] then []
    else (if s[0] == x then [] else [s[0]]) + Remove(s[1..], x)
  }

  /** Removing the value held at position `i` of a listing without
      duplicates is the same as deleting position `i`. */
  lemma {:induction false} RemoveUniqueAt<T(!new)>(s: seq<T>, i: nat)
    requires NoDuplicates(s) && i < |s|
    ensures Remove(s, s[i]) == s[..i] + s[i + 1..]
  {
    if i == 0 {
      RemoveAbsent(s[1..], s[0]);
    } else {
      assert s[1..][i - 1] == s[i];
      RemoveUniqueAt(s[1..], i - 1);
      assert s[1..][..i - 1] + s[1..][i..] == s[1..i] + s[i + 1..];
      assert s[..i] == [s[0]] + s[1..i];
    }
  }

  /** Removing a value that does not occur changes nothing. */
  lemma {:induction false} RemoveAbsent<T(!new)>(s: seq<T>, x: T)
    requires x !in s
    ensures Remove(s, x) == s
  {
    if s != [] {
      assert s[0] != x;
      RemoveAbsent(s[1..], x);
      assert [s[0]] + s[1..] == s;
    }
  }

  /** Removal keeps a listing free of duplicates. */
  lemma {:induction false} RemoveKeepsNoDuplicates<T(!new)>(s: seq<T>, x: T)
    requires NoDuplicates(s)
    ensures NoDuplicates(Remove(s, x))
  {
    if s != [] {
      RemoveKeepsNoDuplicates(s[1..], x);
      assert s[0] !in s[1..] by {
        forall k | 0 <= k < |s[1..]| ensures s[1..][k] != s[0] {
          assert s[1..][k] == s[k + 1];
        }
      }
    }
  }
}
