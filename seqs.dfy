/** Sequence operations the source takes from Python lists and strings. */
module Seqs {
  import opened Wrappers

  predicate NoDuplicates<T(==)>(s: seq<T>) {
    forall i, j :: 0 <= i < j < |s| ==> s[i] != s[j]
  }

  /** The position of the first occurrence of x in s, or None when x does not occur. */
  function FirstIndex<T(==)>(s: seq<T>, x: T): (r: Option<nat>)
    ensures r.None? <==> x !in s
    ensures r.Some? ==> r.value < |s| && s[r.value] == x && x !in s[..r.value]
  {
    if s == [] then None
    else if s[0] == x then Some(0)
    else match FirstIndex(s[1..], x)
      case None => None
      case Some(i) => assert s[..i + 1] == [s[0]] + s[1..][..i]; Some(i + 1)
  }

  /** Drops the first occurrence of x, keeping the other elements in order. When x is
      absent the sequence comes back unchanged (Python's list.remove raises instead). */
  function RemoveFirst<T(==)>(s: seq<T>, x: T): (r: seq<T>)
    ensures x !in s ==> r == s
    ensures x in s ==> exists i :: 0 <= i < |s| && s[i] == x && x !in s[..i] && r == s[..i] + s[i + 1..]
    ensures x in s ==> |r| == |s| - 1
    ensures multiset(r) == multiset(s) - multiset{x}
  {
    match FirstIndex(s, x)
    case None => s
    case Some(i) =>
      assert s == s[..i] + [x] + s[i + 1..];
      assert s[i] == x && x !in s[..i];
      s[..i] + s[i + 1..]
  }

  /** Dropping one position of a list without duplicates leaves a list without duplicates. */
  lemma DropAtNoDuplicates<T>(s: seq<T>, i: nat)
    requires i < |s| && NoDuplicates(s)
    ensures NoDuplicates(s[..i] + s[i + 1..])
  {
    var r := s[..i] + s[i + 1..];
    forall a, b | 0 <= a < b < |r| ensures r[a] != r[b] {
      var a' := if a < i then a else a + 1;
      var b' := if b < i then b else b + 1;
      assert r[a] == s[a'] && r[b] == s[b'];
    }
  }

  /** Dropping one position of a list without duplicates removes exactly the element there. */
  lemma DropAtMembers<T>(s: seq<T>, i: nat, y: T)
    requires i < |s| && NoDuplicates(s)
    ensures y in s[..i] + s[i + 1..] <==> y in s && y != s[i]
  {
    var r := s[..i] + s[i + 1..];
    if y in r {
      var k :| 0 <= k < |r| && r[k] == y;
      var k' := if k < i then k else k + 1;
      assert s[k'] == y && k' != i;
    }
    if y in s && y != s[i] {
      var k :| 0 <= k < |s| && s[k] == y;
      assert r[if k < i then k else k - 1] == y;
    }
  }

  /** Without duplicates, removing x leaves exactly the other elements, still without duplicates. */
  lemma RemoveFirstNoDuplicates<T>(s: seq<T>, x: T)
    requires NoDuplicates(s)
    ensures NoDuplicates(RemoveFirst(s, x))
    ensures forall y :: y in RemoveFirst(s, x) <==> y in s && y != x
  {
    if x in s {
      var i := FirstIndex(s, x).value;
      DropAtNoDuplicates(s, i);
      forall y ensures y in RemoveFirst(s, x) <==> y in s && y != x {
        DropAtMembers(s, i, y);
      }
    }
  }

  /** Removing an element just appended (and absent before) restores the sequence. */
  lemma RemoveFirstUndoesAppend<T>(s: seq<T>, x: T)
    requires x !in s
    ensures RemoveFirst(s + [x], x) == s
  {
    var i := FirstIndex(s + [x], x).value;
    assert (s + [x])[|s|] == x;
    assert (s + [x])[..|s|] == s;
  }
}
