/**
  Sequence helpers with the meaning of the Python list operations that the
  directory store relies on: `list.index`, `list.remove`, repeated `append`,
  and the insertion order that a `dict` gives its new keys.
 */
module Lists {

  /** No element occurs twice in `s`. */
  predicate Distinct<T(==)>(s: seq<T>) {
    forall i, j :: 0 <= i < j < |s| ==> s[i] != s[j]
  }

  /** The index of the first occurrence of `x` in `s` (Python's `list.index`). */
  function Pos<T(==)>(s: seq<T>, x: T): (p: nat)
    requires x in s
    ensures p < |s| && s[p] == x && x !in s[..p]
  {
    if s[0] == x then 0
    else
      var p := 1 + Pos(s[1..], x);
      assert s[..p] == [s[0]] + s[1..][..p - 1];
      p
  }

  /** The first-occurrence index of an element of `s` does not move when more is appended. */
  lemma {:induction false} PosAppend<T>(s: seq<T>, t: seq<T>, x: T)
    requires x in s
    ensures Pos(s + t, x) == Pos(s, x)
  {
    if s[0] != x {
      assert (s + t)[1..] == s[1..] + t;
      PosAppend(s[1..], t, x);
    }
  }

  /**
    `s` without its first occurrence of `x`, as Python's `list.remove` leaves it:
    everything before that occurrence and everything after it stays, in order.
    When `x` does not occur, `list.remove` raises; the store only calls it after
    testing membership, and here the list is then left as it is.
   */
  function RemoveFirst<T(==,!new)>(s: seq<T>, x: T): (r: seq<T>)
    ensures x in s ==> |r| == |s| - 1
    ensures forall y :: Count(r, y) == if x in s && y == x then Count(s, y) - 1 else Count(s, y)
  {
    if x in s then
      var p := Pos(s, x);
      assert s == (s[..p] + [x]) + s[p + 1..];
      forall y ensures Count(s[..p] + s[p + 1..], y) == if y == x then Count(s, y) - 1 else Count(s, y) {
        CountAppend(s[..p], s[p + 1..], y);
        CountAppend(s[..p] + [x], s[p + 1..], y);
        CountSnoc(s[..p], x, y);
      }
      s[..p] + s[p + 1..]
    else s
  }

  /** Removing `x` from a concatenation whose second part lacks `x` only touches the first part. */
  lemma RemoveFirstAppend<T(!new)>(s: seq<T>, t: seq<T>, x: T)
    requires x !in t
    ensures RemoveFirst(s + t, x) == RemoveFirst(s, x) + t
  {
    if x in s {
      var p := Pos(s, x);
      PosAppend(s, t, x);
      assert (s + t)[..p] == s[..p];
      assert (s + t)[p + 1..] == s[p + 1..] + t;
    } else {
      assert x !in s + t;
    }
  }

  /** Removing the last element of a sequence that holds it only there gives back the rest. */
  lemma RemoveFirstLast<T(!new)>(a: seq<T>, x: T)
    requires x !in a
    ensures RemoveFirst(a + [x], x) == a
  {
    var s := a + [x];
    var p := Pos(s, x);
    assert forall k :: 0 <= k < |a| ==> s[k] == a[k] && a[k] != x;
    assert p == |a|;
    assert s[..p] == a;
  }

  /** A sequence without repetitions, its last element taken off, has none either and lacks that element. */
  lemma DistinctInit<T>(s: seq<T>)
    requires Distinct(s) && s != []
    ensures Distinct(s[..|s| - 1]) && s[|s| - 1] !in s[..|s| - 1]
  {
    assert forall k :: 0 <= k < |s| - 1 ==> s[..|s| - 1][k] == s[k];
  }

  /** Taking one element out of a sequence without repetitions leaves the others, still without repetitions. */
  lemma RemoveFirstDistinct<T(!new)>(s: seq<T>, x: T)
    requires Distinct(s)
    ensures Distinct(RemoveFirst(s, x))
    ensures forall y :: y in RemoveFirst(s, x) <==> y in s && y != x
  {
    if x in s {
      var p, r := Pos(s, x), RemoveFirst(s, x);
      assert forall k :: 0 <= k < |r| ==> r[k] == if k < p then s[k] else s[k + 1];
      forall y ensures y in r <==> y in s && y != x {
        if y in s && y != x {
          var k :| 0 <= k < |s| && s[k] == y;
          assert r[if k < p then k else k - 1] == y;
        }
      }
    }
  }

  /** Two sequences without repetitions and without common elements join into one without repetitions. */
  lemma DistinctAppend<T>(a: seq<T>, b: seq<T>)
    requires Distinct(a) && Distinct(b)
    requires forall x :: x in b ==> x !in a
    ensures Distinct(a + b)
  {
    forall i, j | 0 <= i < j < |a + b| ensures (a + b)[i] != (a + b)[j] {
      if i < |a| && |a| <= j {
        assert (a + b)[j] == b[j - |a|] && b[j - |a|] in b;
      }
    }
  }

  /**
    The names of `gs` that are not in `known`, each once, in the order of their
    first occurrence: the keys that a loop inserting every name of `gs` into a
    dictionary whose keys are `known` appends to the dictionary's order.
   */
  function NewNames<T(==,!new)>(gs: seq<T>, known: set<T>): (r: seq<T>)
    ensures Distinct(r)
    ensures forall x :: x in r <==> x in gs && x !in known
  {
    if gs == [] then []
    else if gs[0] in known then
      assert gs == [gs[0]] + gs[1..];
      NewNames(gs[1..], known)
    else
      assert gs == [gs[0]] + gs[1..];
      var rest := NewNames(gs[1..], known + {gs[0]});
      assert forall i :: 0 <= i < |rest| ==> rest[i] in rest;
      [gs[0]] + rest
  }

  /** Inserting one more name extends the new names by that name exactly when it is new. */
  lemma {:induction false} NewNamesSnoc<T(!new)>(gs: seq<T>, x: T, known: set<T>)
    ensures NewNames(gs + [x], known) == NewNames(gs, known) + (if x in known || x in gs then [] else [x])
  {
    if gs == [] {
      assert gs + [x] == [x];
      assert [x][1..] == [];
    } else {
      assert (gs + [x])[0] == gs[0];
      assert (gs + [x])[1..] == gs[1..] + [x];
      assert gs == [gs[0]] + gs[1..];
      if gs[0] in known {
        NewNamesSnoc(gs[1..], x, known);
      } else {
        NewNamesSnoc(gs[1..], x, known + {gs[0]});
      }
    }
  }

  /** How often `x` occurs in `s` (Python's `list.count`). */
  function Count<T(==)>(s: seq<T>, x: T): (n: nat)
    ensures n > 0 <==> x in s
    decreases |s|
  {
    if s == [] then 0
    else
      var a := s[..|s| - 1];
      assert s == a + [s[|s| - 1]];
      Count(a, x) + (if s[|s| - 1] == x then 1 else 0)
  }

  /** Appending one element adds one to its count and leaves the other counts alone. */
  lemma CountSnoc<T>(a: seq<T>, x: T, y: T)
    ensures Count(a + [x], y) == Count(a, y) + (if x == y then 1 else 0)
  {
    assert (a + [x])[..|a + [x]| - 1] == a;
  }

  /** The count in a concatenation is the sum of the counts. */
  lemma {:induction false} CountAppend<T>(a: seq<T>, b: seq<T>, y: T)
    ensures Count(a + b, y) == Count(a, y) + Count(b, y)
    decreases |b|
  {
    if b != [] {
      var c, z := b[..|b| - 1], b[|b| - 1];
      assert b == c + [z];
      assert a + b == (a + c) + [z];
      CountAppend(a, c, y);
      CountSnoc(a + c, z, y);
      CountSnoc(c, z, y);
    } else {
      assert a + b == a;
    }
  }

  /** `n` copies of `x`: what `n` appends of `x` add to the end of a list. */
  function Repeat<T(==)>(x: T, n: nat): (r: seq<T>)
    ensures |r| == n
  {
    if n == 0 then [] else Repeat(x, n - 1) + [x]
  }

  /** `n` copies of `x` hold `y` exactly when there is at least one copy and `y` is `x`. */
  lemma {:induction false} RepeatHolds<T>(x: T, n: nat, y: T)
    ensures y in Repeat(x, n) <==> n > 0 && y == x
  {
    if n > 0 {
      RepeatHolds(x, n - 1, y);
      assert Repeat(x, n) == Repeat(x, n - 1) + [x];
    }
  }
}
