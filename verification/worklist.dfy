/**
 * The legalisation worklist: a fixed array of MAX_STACK triangle indices and
 * a stack pointer. Pushing ignores -1, ignores a value already present and
 * silently drops the value once the array is full, so the entries are always
 * pairwise distinct and never -1.
 */
module Worklist {

  const MAX_STACK: nat := 100

  /** Pure description of one push: what the stack holds afterwards. */
  function Pushed(s: seq<int>, value: int): (r: seq<int>)
    ensures r == s || r == s + [value]
  {
    if value == -1 || value in s || |s| >= MAX_STACK then s else s + [value]
  }

  /** The entries are pairwise distinct, none is -1, and there are at most MAX_STACK. */
  predicate WellFormedStack(s: seq<int>)
  {
    |s| <= MAX_STACK
    && -1 !in s
    && (forall p, q :: 0 <= p < q < |s| ==> s[p] != s[q])
  }

  /** A push keeps the entries distinct, free of -1 and within capacity. */
  lemma PushedKeepsWellFormed(s: seq<int>, value: int)
    requires WellFormedStack(s)
    ensures WellFormedStack(Pushed(s, value))
    ensures |Pushed(s, value)| <= |s| + 1
    ensures s <= Pushed(s, value)
    ensures forall x :: x in Pushed(s, value) ==> x in s || x == value
    ensures value in Pushed(s, value) <==> value in s || (value != -1 && |s| < MAX_STACK)
  {
    if value != -1 && value !in s && |s| < MAX_STACK {
      var r := s + [value];
      forall p, q | 0 <= p < q < |r| ensures r[p] != r[q] {
        if q == |s| {
          assert r[p] == s[p];
        }
      }
    }
  }

  /** Successive pushes of the values vs, in order. */
  function PushAll(s: seq<int>, vs: seq<int>): seq<int>
    decreases |vs|
  {
    if vs == [] then s else PushAll(Pushed(s, vs[0]), vs[1..])
  }

  /** Three pushes in a row. */
  lemma PushAllThree(s: seq<int>, vs: seq<int>)
    requires |vs| == 3
    ensures PushAll(s, vs) == Pushed(Pushed(Pushed(s, vs[0]), vs[1]), vs[2])
  {
    var s1 := Pushed(s, vs[0]);
    var s2 := Pushed(s1, vs[1]);
    assert vs[1..] == [vs[1], vs[2]] && vs[1..][1..] == [vs[2]] && [vs[2]][1..] == [];
    calc {
      PushAll(s, vs);
      PushAll(s1, [vs[1], vs[2]]);
      PushAll(s2, [vs[2]]);
      PushAll(Pushed(s2, vs[2]), []);
    }
  }

  /** Pushing vs then ws is pushing vs + ws. */
  lemma {:induction false} PushAllConcat(s: seq<int>, vs: seq<int>, ws: seq<int>)
    ensures PushAll(PushAll(s, vs), ws) == PushAll(s, vs + ws)
    decreases |vs|
  {
    if vs != [] {
      PushAllConcat(Pushed(s, vs[0]), vs[1..], ws);
      assert (vs + ws)[1..] == vs[1..] + ws;
    } else {
      assert vs + ws == ws;
    }
  }

  /** Successive pushes only append. */
  lemma {:induction false} PushAllAppends(s: seq<int>, vs: seq<int>)
    ensures s <= PushAll(s, vs)
    decreases |vs|
  {
    if vs != [] {
      PushAllAppends(Pushed(s, vs[0]), vs[1..]);
    }
  }

  /**
   * Pushing a value other than -1 first leaves the stack non-empty: the value
   * is appended, or it was present, or the stack was full.
   */
  lemma PushAllNonEmpty(s: seq<int>, vs: seq<int>)
    requires |vs| > 0 && vs[0] != -1
    ensures |PushAll(s, vs)| > 0
  {
    PushAllAppends(Pushed(s, vs[0]), vs[1..]);
  }

  /**
   * Successive pushes keep the stack well formed, only append, add at most
   * one entry per value and add nothing but the pushed values.
   */
  lemma {:induction false} PushAllKeepsWellFormed(s: seq<int>, vs: seq<int>)
    requires WellFormedStack(s)
    ensures WellFormedStack(PushAll(s, vs))
    ensures s <= PushAll(s, vs) && |PushAll(s, vs)| <= |s| + |vs|
    ensures forall x :: x in PushAll(s, vs) ==> x in s || x in vs
    decreases |vs|
  {
    if vs != [] {
      PushedKeepsWellFormed(s, vs[0]);
      PushAllKeepsWellFormed(Pushed(s, vs[0]), vs[1..]);
      forall x | x in vs[1..] ensures x in vs { }
    }
  }

  /** The global `stack` array and `stack_pointer`. */
  class Stack {
    const data: array<int>
    var top: int

    ghost predicate Valid()
      reads this, data
    {
      data.Length == MAX_STACK && 0 <= top <= MAX_STACK && WellFormedStack(data[..top])
    }

    /** The entries from the bottom of the stack to its top. */
    function Contents(): (s: seq<int>)
      reads this, data
      requires 0 <= top <= data.Length
    {
      data[..top]
    }

    /** The zero-initialised global: an empty stack. */
    constructor ()
      ensures Valid() && fresh(data) && Contents() == []
    {
      data := new int[MAX_STACK];
      top := 0;
    }

    /** stack_push: the duplicate scan, then the capacity test, then the append. */
    method Push(value: int)
      requires Valid()
      modifies this, data
      ensures Valid()
      ensures Contents() == Pushed(old(Contents()), value)
    {
      if value == -1 {
        return;
      }
      var i := 0;
      while i < top
        invariant 0 <= i <= top
        invariant forall k :: 0 <= k < i ==> data[k] != value
      {
        if data[i] == value {
          assert value in data[..top];
          return;
        }
        i := i + 1;
      }
      assert value !in data[..top];
      if top >= MAX_STACK {
        return;
      }
      data[top] := value;
      top := top + 1;
      assert data[..top] == old(data[..top]) + [value];
      PushedKeepsWellFormed(old(data[..top]), value);
    }

    /** stack_pop: the top entry, removed. */
    method Pop() returns (value: int)
      requires Valid() && top > 0
      modifies this
      ensures Valid()
      ensures value == old(Contents())[old(top) - 1]
      ensures Contents() == old(Contents())[..old(top) - 1]
    {
      top := top - 1;
      value := data[top];
    }
  }
}
