/** The order on binding candidates, and the array-heap reasoning it needs.

    A candidate is the cached nearest binding of a child. It is ranked by depth, and among
    bindings of equal depth the newer one wins. A child with no binding below it is unranked
    and loses against everything. */
module CandidateOrder {

  datatype Rank = Unranked | Ranked(depth: nat, seqNo: nat)

  /** `betterContentTerminal` on ranks. */
  predicate Better(a: Rank, b: Rank) {
    && a.Ranked?
    && (b.Unranked? || a.depth < b.depth || (a.depth == b.depth && a.seqNo > b.seqNo))
  }

  /** The parent slot of `j` in an array heap. */
  function Up(j: nat): nat {
    if j == 0 then 0 else (j - 1) / 2
  }

  predicate InOrder(ks: seq<Rank>, j: nat) {
    1 <= j < |ks| ==> !Better(ks[j], ks[Up(j)])
  }

  /** Heap order between the slots from `lo` and their children, on the first `n` slots. */
  ghost predicate OrderedFrom(ks: seq<Rank>, n: nat, lo: nat) {
    forall j {:trigger InOrder(ks, j)} | 1 <= j < n && lo <= Up(j) :: InOrder(ks, j)
  }

  ghost predicate Ordered(ks: seq<Rank>, n: nat) {
    OrderedFrom(ks, n, 0)
  }

  predicate BelowGrandparent(ks: seq<Rank>, i: nat, j: nat) {
    i < |ks| && j < |ks| && 1 <= j && Up(j) == i ==> !Better(ks[j], ks[Up(i)])
  }

  /** `OrderedFrom`, ignoring slot `i` itself. This is what remains when the key at one slot has
      changed and has not been repaired yet. */
  ghost predicate OrderedFromExcept(ks: seq<Rank>, n: nat, i: nat, lo: nat) {
    && (forall j {:trigger InOrder(ks, j)} | 1 <= j < n && j != i && Up(j) != i && lo <= Up(j) :: InOrder(ks, j))
    && (i >= 1 && lo <= Up(i) ==>
          forall j {:trigger BelowGrandparent(ks, i, j)} | 1 <= j < n && Up(j) == i :: BelowGrandparent(ks, i, j))
  }

  ghost predicate OrderedExcept(ks: seq<Rank>, n: nat, i: nat) {
    OrderedFromExcept(ks, n, i, 0)
  }

  /** Only the pair of slot `i` and its parent may still be out of order. */
  ghost predicate OrderedButUp(ks: seq<Rank>, n: nat, i: nat) {
    && OrderedExcept(ks, n, i)
    && (forall j {:trigger InOrder(ks, j)} | 1 <= j < n && Up(j) == i :: InOrder(ks, j))
  }

  function Swapped<T>(s: seq<T>, i: nat, j: nat): seq<T>
    requires i < |s| && j < |s|
  {
    s[i := s[j]][j := s[i]]
  }

  lemma UpFacts(j: nat)
    requires j >= 1
    ensures Up(j) < j
    ensures j == 2 * Up(j) + 1 || j == 2 * Up(j) + 2
  {
  }

  /** One step of sifting up moves the only disorder one level towards the root. */
  lemma SiftUpStep(ks: seq<Rank>, n: nat, i: nat)
    requires 1 <= i < n <= |ks|
    requires OrderedButUp(ks, n, i)
    requires Better(ks[i], ks[Up(i)])
    ensures Up(i) < i
    ensures OrderedButUp(Swapped(ks, i, Up(i)), n, Up(i))
  {
    var p := Up(i);
    UpFacts(i);
    var ks' := Swapped(ks, i, p);
    forall j | 1 <= j < n && j != p
      ensures InOrder(ks', j)
    {
      UpFacts(j);
      assert InOrder(ks, j) || j == i;
      if Up(j) == i {
        assert BelowGrandparent(ks, i, j);
      }
    }
    forall j | p >= 1 && 1 <= j < n && Up(j) == p
      ensures BelowGrandparent(ks', p, j)
    {
      UpFacts(j);
      UpFacts(p);
      assert InOrder(ks, p);
      assert InOrder(ks, j) || j == i;
    }
  }

  lemma SiftUpDone(ks: seq<Rank>, n: nat, i: nat)
    requires i < n <= |ks|
    requires OrderedButUp(ks, n, i)
    requires i == 0 || !Better(ks[i], ks[Up(i)])
    ensures Ordered(ks, n)
  {
    forall j | 1 <= j < n
      ensures InOrder(ks, j)
    {
      assert j == i || Up(j) == i || InOrder(ks, j);
    }
  }

  /** `j` is a child of `i` that no other child of `i` beats. */
  ghost predicate BestChild(ks: seq<Rank>, n: nat, i: nat, j: nat) {
    && 1 <= j < n <= |ks| && Up(j) == i
    && forall c | 1 <= c < n && Up(c) == i :: !Better(ks[c], ks[j])
  }

  /** The children of slot `i`, and which of them is best. */
  lemma ChildrenOf(ks: seq<Rank>, n: nat, i: nat)
    requires i < n <= |ks|
    ensures 2 * i + 1 >= n ==> forall c | 1 <= c < n :: Up(c) != i
    ensures 2 * i + 1 < n && !(2 * i + 2 < n && Better(ks[2 * i + 2], ks[2 * i + 1])) ==> BestChild(ks, n, i, 2 * i + 1)
    ensures 2 * i + 2 < n && Better(ks[2 * i + 2], ks[2 * i + 1]) ==> BestChild(ks, n, i, 2 * i + 2)
  {
    forall c | 1 <= c < n && Up(c) == i
      ensures c == 2 * i + 1 || c == 2 * i + 2
    {
      UpFacts(c);
    }
  }

  /** Without a child that beats slot `i`, sifting down is done. */
  lemma NoBetterChild(ks: seq<Rank>, n: nat, i: nat, j: nat)
    requires i < n && BestChild(ks, n, i, j) && !Better(ks[j], ks[i])
    ensures forall c | 1 <= c < n && Up(c) == i :: !Better(ks[c], ks[i])
  {
  }

  /** One step of sifting down moves the disorder to the best child, and leaves that child in
      order with its parent. */
  lemma SiftDownStep(ks: seq<Rank>, n: nat, i: nat, j: nat, lo: nat)
    requires lo <= i < n <= |ks|
    requires OrderedFromExcept(ks, n, i, lo)
    requires BestChild(ks, n, i, j)
    requires Better(ks[j], ks[i])
    ensures i < j
    ensures OrderedFromExcept(Swapped(ks, i, j), n, j, lo)
    ensures InOrder(Swapped(ks, i, j), j)
  {
    UpFacts(j);
    var ks' := Swapped(ks, i, j);
    forall c | 1 <= c < n && c != j && Up(c) != j && lo <= Up(c)
      ensures InOrder(ks', c)
    {
      UpFacts(c);
      if c == i {
        assert BelowGrandparent(ks, i, j);
      } else if Up(c) == i {
        assert !Better(ks[c], ks[j]);
      } else {
        assert InOrder(ks, c);
      }
    }
    forall c | 1 <= c < n && Up(c) == j
      ensures BelowGrandparent(ks', j, c)
    {
      UpFacts(c);
      assert InOrder(ks, c);
    }
  }

  lemma SiftDownDone(ks: seq<Rank>, n: nat, i: nat, lo: nat)
    requires lo <= i < n <= |ks|
    requires OrderedFromExcept(ks, n, i, lo)
    requires forall c | 1 <= c < n && Up(c) == i :: !Better(ks[c], ks[i])
    ensures InOrder(ks, i) || (i >= 1 && Up(i) < lo) ==> OrderedFrom(ks, n, lo)
    ensures lo == 0 ==> OrderedButUp(ks, n, i)
  {
    forall j | 1 <= j < n && Up(j) == i
      ensures InOrder(ks, j)
    {
    }
    forall j | 1 <= j < n && lo <= Up(j) && (InOrder(ks, i) || (i >= 1 && Up(i) < lo))
      ensures InOrder(ks, j)
    {
      assert j == i || Up(j) == i || InOrder(ks, j);
    }
  }

  /** Nothing in an ordered heap beats the top. */
  lemma {:induction false} TopIsBest(ks: seq<Rank>, n: nat, j: nat)
    requires j < n <= |ks| && Ordered(ks, n)
    ensures !Better(ks[j], ks[0])
  {
    if j > 0 {
      UpFacts(j);
      assert InOrder(ks, j);
      TopIsBest(ks, n, Up(j));
    }
  }

  lemma OrderedIsOrderedExcept(ks: seq<Rank>, n: nat, i: nat)
    requires i < n <= |ks| && Ordered(ks, n)
    ensures OrderedExcept(ks, n, i)
  {
    forall j | i >= 1 && 1 <= j < n && Up(j) == i
      ensures BelowGrandparent(ks, i, j)
    {
      UpFacts(j);
      assert InOrder(ks, j) && InOrder(ks, i);
    }
  }

  lemma ChangedAtOneSlot(ks: seq<Rank>, ls: seq<Rank>, n: nat, i: nat)
    requires i < n <= |ks| == |ls| && OrderedExcept(ks, n, i)
    requires forall j | 0 <= j < n && j != i :: ls[j] == ks[j]
    ensures OrderedExcept(ls, n, i)
  {
    forall j | 1 <= j < n && j != i && Up(j) != i
      ensures InOrder(ls, j)
    {
      UpFacts(j);
      assert InOrder(ks, j);
    }
    forall j | i >= 1 && 1 <= j < n && Up(j) == i
      ensures BelowGrandparent(ls, i, j)
    {
      UpFacts(j);
      UpFacts(i);
      assert BelowGrandparent(ks, i, j);
    }
  }

  lemma AppendedLast(ks: seq<Rank>, r: Rank)
    requires Ordered(ks, |ks|)
    ensures OrderedButUp(ks + [r], |ks| + 1, |ks|)
  {
    var ls := ks + [r];
    forall j | 1 <= j < |ls| && j != |ks|
      ensures InOrder(ls, j) && Up(j) < |ks|
    {
      UpFacts(j);
      assert InOrder(ks, j);
    }
  }

  lemma OrderedPrefix(ks: seq<Rank>, ls: seq<Rank>, n: nat)
    requires n <= |ks| && n <= |ls| && Ordered(ks, n)
    requires forall j | 0 <= j < n :: ls[j] == ks[j]
    ensures Ordered(ls, n)
  {
    forall j | 1 <= j < n
      ensures InOrder(ls, j)
    {
      UpFacts(j);
      assert InOrder(ks, j);
    }
  }

  lemma LastMovedTo(ks: seq<Rank>, n: nat, i: nat)
    requires i < n < |ks| && OrderedExcept(ks, n + 1, i)
    ensures OrderedExcept(Swapped(ks, i, n), n, i)
  {
    ChangedAtOneSlot(ks, Swapped(ks, i, n), n, i);
  }

  lemma LastSlotOnly(ks: seq<Rank>, n: nat)
    requires n < |ks| && OrderedExcept(ks, n + 1, n)
    ensures Ordered(ks, n)
  {
    forall j | 1 <= j < n
      ensures InOrder(ks, j)
    {
      UpFacts(j);
    }
  }
}
