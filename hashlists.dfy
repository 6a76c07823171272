/**
 * Singly linked lists threaded through an arena (HashMgr.cs). Each list
 * is a ghost sequence of arena indices; the arena's `next` links realise
 * it when every element links to its successor and the last one to -1
 * (`null`). The bucket chains of the hash table, and the stack Resize
 * builds, are such lists; moving the head of one list onto the front of
 * another, or appending at a tail, keeps the realisation.
 */
module HashLists {
  import opened Base

  /** The first element of a list, or -1 for the empty list. */
  function Head(l: seq<int>): int
  {
    if l == [] then -1 else l[0]
  }

  /** The element after position i, or -1 at the end. */
  function Succ(l: seq<int>, i: int): int
    requires 0 <= i < |l|
  {
    if i + 1 < |l| then l[i + 1] else -1
  }

  /** Position i of list a is an arena index whose link is its successor. */
  ghost predicate LinkAt(nx: seq<int>, L: seq<seq<int>>, a: int, i: int)
    requires 0 <= a < |L| && 0 <= i < |L[a]|
  {
    0 <= L[a][i] < |nx| && nx[L[a][i]] == Succ(L[a], i)
  }

  /** The links nx realise every list of L. */
  ghost predicate Realizes(nx: seq<int>, L: seq<seq<int>>)
  {
    forall a, i :: 0 <= a < |L| && 0 <= i < |L[a]| ==> LinkAt(nx, L, a, i)
  }

  /** The links nx realise the single list l. */
  ghost predicate Linked(nx: seq<int>, l: seq<int>)
  {
    forall i :: 0 <= i < |l| ==> 0 <= l[i] < |nx| && nx[l[i]] == Succ(l, i)
  }

  /** Each list of a realised family is linked on its own. */
  lemma RealizesLinked(nx: seq<int>, L: seq<seq<int>>, a: int)
    requires Realizes(nx, L) && 0 <= a < |L|
    ensures Linked(nx, L[a])
  {
    forall i | 0 <= i < |L[a]| ensures 0 <= L[a][i] < |nx| && nx[L[a][i]] == Succ(L[a], i) {
      assert LinkAt(nx, L, a, i);
    }
  }

  /** No arena index occurs twice, in one list or in two. */
  ghost predicate Disjoint(L: seq<seq<int>>)
  {
    forall a, i, b, j :: 0 <= a < |L| && 0 <= i < |L[a]| && 0 <= b < |L| && 0 <= j < |L[b]| && L[a][i] == L[b][j] ==>
      a == b && i == j
  }

  /** Every list of L is empty. */
  ghost predicate AllEmpty(L: seq<seq<int>>)
  {
    forall a :: 0 <= a < |L| ==> L[a] == []
  }

  /** An empty list in front changes nothing about the realisation. */
  lemma PrependEmpty(nx: seq<int>, L: seq<seq<int>>)
    requires Realizes(nx, L) && Disjoint(L)
    ensures Realizes(nx, [[]] + L) && Disjoint([[]] + L)
  {
    var M := [[]] + L;
    forall a, k | 0 <= a < |M| && 0 <= k < |M[a]| ensures LinkAt(nx, M, a, k) {
      assert a > 0 && M[a] == L[a - 1];
      assert LinkAt(nx, L, a - 1, k);
    }
    forall a, k, b, j | 0 <= a < |M| && 0 <= k < |M[a]| && 0 <= b < |M| && 0 <= j < |M[b]| && M[a][k] == M[b][j]
      ensures a == b && k == j
    {
      assert M[a] == L[a - 1] && M[b] == L[b - 1];
    }
  }

  /** The lists of L one after another. */
  function Concat(L: seq<seq<int>>): seq<int>
  {
    if L == [] then [] else L[0] + Concat(L[1..])
  }

  /** The head of list a, moved onto the front of list b. */
  function MoveHead(L: seq<seq<int>>, a: int, b: int): seq<seq<int>>
    requires 0 <= a < |L| && 0 <= b < |L| && L[a] != []
  {
    L[a := L[a][1..]][b := [L[a][0]] + L[b]]
  }

  /** Where position i of list c of MoveHead(L, a, b) was in L. */
  function MovedFrom(L: seq<seq<int>>, a: int, b: int, c: int, i: int): (int, int)
  {
    if c == b then (if i == 0 then (a, 0) else (b, i - 1))
    else if c == a then (a, i + 1)
    else (c, i)
  }

  lemma MovedFromAt(L: seq<seq<int>>, a: int, b: int, c: int, i: int)
    requires 0 <= a < |L| && 0 <= b < |L| && a != b && L[a] != []
    requires 0 <= c < |L| && 0 <= i < |MoveHead(L, a, b)[c]|
    ensures var (c0, i0) := MovedFrom(L, a, b, c, i);
      0 <= c0 < |L| && 0 <= i0 < |L[c0]| && MoveHead(L, a, b)[c][i] == L[c0][i0]
  {
  }

  /**
   * Re-linking the head x of list a to the front of list b (x.next := old
   * head of b) realises the lists after the move, which stay disjoint; the
   * old link of x named the rest of list a.
   */
  lemma MoveHeadKeeps(nx: seq<int>, L: seq<seq<int>>, a: int, b: int)
    requires Realizes(nx, L) && Disjoint(L)
    requires 0 <= a < |L| && 0 <= b < |L| && a != b && L[a] != []
    ensures 0 <= L[a][0] < |nx| && nx[L[a][0]] == Head(L[a][1..])
    ensures Realizes(nx[L[a][0] := Head(L[b])], MoveHead(L, a, b))
    ensures Disjoint(MoveHead(L, a, b))
  {
    var x := L[a][0];
    var M := MoveHead(L, a, b);
    assert LinkAt(nx, L, a, 0);
    var ny := nx[x := Head(L[b])];
    forall c, i | 0 <= c < |M| && 0 <= i < |M[c]| ensures LinkAt(ny, M, c, i) {
      MovedFromAt(L, a, b, c, i);
      var (c0, i0) := MovedFrom(L, a, b, c, i);
      assert LinkAt(nx, L, c0, i0);
      if c == b && i == 0 {
      } else {
        assert M[c][i] != x;
        if i + 1 < |M[c]| {
          MovedFromAt(L, a, b, c, i + 1);
        }
      }
    }
    forall c, i, d, j | 0 <= c < |M| && 0 <= i < |M[c]| && 0 <= d < |M| && 0 <= j < |M[d]| && M[c][i] == M[d][j]
      ensures c == d && i == j
    {
      MovedFromAt(L, a, b, c, i);
      MovedFromAt(L, a, b, d, j);
    }
  }

  /** The links with the last element of l (when it has one) now leading to n. */
  function LinkTail(nx: seq<int>, l: seq<int>, n: int): seq<int>
  {
    if l == [] || !(0 <= l[|l| - 1] < |nx|) then nx else nx[l[|l| - 1] := n]
  }

  /**
   * Appending the fresh index n = |nx| at the end of list b: the old tail's
   * link becomes n, and n's own link is -1.
   */
  lemma AppendKeeps(nx: seq<int>, L: seq<seq<int>>, b: int)
    requires Realizes(nx, L) && Disjoint(L) && 0 <= b < |L|
    ensures Realizes(LinkTail(nx, L[b], |nx|) + [-1], L[b := L[b] + [|nx|]])
    ensures Disjoint(L[b := L[b] + [|nx|]])
  {
    var n := |nx|;
    if L[b] != [] {
      assert LinkAt(nx, L, b, |L[b]| - 1);
    }
    var ny := LinkTail(nx, L[b], n) + [-1];
    var M := L[b := L[b] + [n]];
    forall c, i | 0 <= c < |M| && 0 <= i < |M[c]| ensures LinkAt(ny, M, c, i) {
      if c == b && i == |L[b]| {
      } else {
        assert M[c][i] == L[c][i];
        assert LinkAt(nx, L, c, i);
        if c == b && i == |L[b]| - 1 {
        } else {
          if L[b] != [] {
            assert L[c][i] != L[b][|L[b]| - 1];
          }
        }
      }
    }
    forall c, i | 0 <= c < |M| && 0 <= i < |M[c]| && !(c == b && i == |L[b]|)
      ensures i < |L[c]| && M[c][i] == L[c][i] < n
    {
      assert LinkAt(nx, L, c, i);
    }
  }

  /** Lists that realise and are disjoint stay so when some of them are dropped or emptied. */
  lemma KeepFirst(nx: seq<int>, L: seq<seq<int>>, E: seq<seq<int>>)
    requires |L| > 0 && Realizes(nx, L) && Disjoint(L) && AllEmpty(E)
    ensures Realizes(nx, [L[0]] + E) && Disjoint([L[0]] + E)
  {
    var M := [L[0]] + E;
    forall c, i | 0 <= c < |M| && 0 <= i < |M[c]| ensures LinkAt(nx, M, c, i) {
      assert c == 0;
      assert LinkAt(nx, L, 0, i);
    }
  }

  /** The lists after the first, of a family that realises and is disjoint. */
  lemma DropFirst(nx: seq<int>, L: seq<seq<int>>)
    requires |L| > 0 && Realizes(nx, L) && Disjoint(L)
    ensures Realizes(nx, L[1..]) && Disjoint(L[1..])
  {
    var M := L[1..];
    forall c, i | 0 <= c < |M| && 0 <= i < |M[c]| ensures LinkAt(nx, M, c, i) {
      assert LinkAt(nx, L, c + 1, i);
    }
    forall c, i, d, j | 0 <= c < |M| && 0 <= i < |M[c]| && 0 <= d < |M| && 0 <= j < |M[d]| && M[c][i] == M[d][j]
      ensures c == d && i == j
    {
      assert L[c + 1][i] == L[d + 1][j];
    }
  }

  lemma {:induction false} ConcatEmpty(L: seq<seq<int>>)
    requires AllEmpty(L)
    ensures Concat(L) == []
  {
    if L != [] {
      ConcatEmpty(L[1..]);
    }
  }

  /**
   * When the lists before a are empty, the concatenation starts with the
   * head of list a, and dropping that head leaves the concatenation of the rest.
   */
  lemma {:induction false} ConcatFront(L: seq<seq<int>>, a: int)
    requires 0 <= a < |L| && L[a] != []
    requires forall c :: 0 <= c < a ==> L[c] == []
    ensures Concat(L) == [L[a][0]] + Concat(L[a := L[a][1..]])
  {
    var M := L[a := L[a][1..]];
    if a == 0 {
      assert M[1..] == L[1..];
    } else {
      ConcatFront(L[1..], a - 1);
      assert L[1..][a - 1 := L[a][1..]] == M[1..];
    }
  }

  /** An element of the concatenation sits in one of the lists. */
  lemma {:induction false} ConcatMember(L: seq<seq<int>>, x: int)
    requires x in Concat(L)
    ensures exists a, i :: 0 <= a < |L| && 0 <= i < |L[a]| && L[a][i] == x
  {
    if x in L[0] {
      var i :| 0 <= i < |L[0]| && L[0][i] == x;
      assert L[0][i] == x;
    } else {
      ConcatMember(L[1..], x);
      var a, i :| 0 <= a < |L[1..]| && 0 <= i < |L[1..][a]| && L[1..][a][i] == x;
      assert L[a + 1][i] == x;
    }
  }

  /** Every element of every list is in the concatenation. */
  lemma {:induction false} MemberConcat(L: seq<seq<int>>, a: int, i: int)
    requires 0 <= a < |L| && 0 <= i < |L[a]|
    ensures L[a][i] in Concat(L)
  {
    if a > 0 {
      MemberConcat(L[1..], a - 1, i);
    }
  }
}
