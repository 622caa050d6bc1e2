/**
 The heap property on the keys of the heap array, as cEventHeap's loops move them: ks[0] is
 unused, the parent of index i is i / 2. A "vacant" index is one whose key is about to be
 overwritten.
 */
module HeapOrder {
  import opened Events

  /** No key precedes its parent, the parent at index hole excepted. */
  ghost predicate OrderedExcept(ks: seq<Key>, hole: nat)
  {
    forall i, p {:trigger ks[i], ks[p]} ::
      2 <= i < |ks| && p == i / 2 && p != hole ==> !Precedes(ks[i], ks[p])
  }

  /** Order among the keys around the vacant index j, and across it. */
  ghost predicate OrderedAround(ks: seq<Key>, j: nat)
  {
    && (forall i, p {:trigger ks[i], ks[p]} ::
          2 <= i < |ks| && p == i / 2 && i != j && p != j ==> !Precedes(ks[i], ks[p]))
    && GrandchildrenOk(ks, j)
  }

  /** The children of j do not precede the parent of j. */
  ghost predicate GrandchildrenOk(ks: seq<Key>, j: nat)
  {
    forall i, p {:trigger ks[i], ks[p]} ::
      4 <= i < |ks| && i / 2 == j && p == j / 2 ==> !Precedes(ks[i], ks[p])
  }

  ghost predicate AboveChildren(ks: seq<Key>, j: nat, k: Key)
  {
    forall i :: 2 <= i < |ks| && i / 2 == j ==> !Precedes(ks[i], k)
  }

  lemma DropLast(ks: seq<Key>)
    requires OrderedExcept(ks, 0) && |ks| > 0
    ensures OrderedExcept(ks[..|ks| - 1], 0)
  {
  }

  /** A new last index is a leaf, around which the old keys are in order. */
  lemma OpenAtEnd(ks: seq<Key>, k: Key)
    requires OrderedExcept(ks, 0) && ks != []
    ensures OrderedAround(ks + [k], |ks|) && AboveChildren(ks + [k], |ks|, k)
  {
  }

  /** Vacating index j of a heap leaves order around j. */
  lemma Vacate(ks: seq<Key>, j: nat)
    requires OrderedExcept(ks, 0) && 1 <= j < |ks|
    ensures OrderedAround(ks, j)
  {
    forall i | 4 <= i < |ks| && i / 2 == j
      ensures !Precedes(ks[i], ks[j / 2])
    {
      PrecedesIsStrictTotalOrder(ks[j / 2], ks[j], ks[i]);
    }
  }

  /** Moving the parent of the vacant index j down into it makes the parent vacant. */
  lemma PullDown(ks: seq<Key>, j: nat, k: Key)
    requires 2 <= j < |ks| && OrderedAround(ks, j)
    ensures var ks' := ks[j := ks[j / 2]];
            OrderedAround(ks', j / 2) && (Precedes(k, ks[j / 2]) ==> AboveChildren(ks', j / 2, k))
  {
    var p := j / 2;
    var ks' := ks[j := ks[p]];
    forall i | 2 <= i < |ks| && i / 2 == p
      ensures !Precedes(ks'[i], ks[p])
    {
    }
    forall i | 4 <= i < |ks| && i / 2 == p
      ensures !Precedes(ks'[i], ks'[p / 2])
    {
      PrecedesIsStrictTotalOrder(ks[p / 2], ks[p], ks'[i]);
    }
    forall i | 2 <= i < |ks| && i / 2 == p && Precedes(k, ks[p])
      ensures !Precedes(ks'[i], k)
    {
      PrecedesIsStrictTotalOrder(k, ks[p], ks'[i]);
    }
  }

  /** Filling the vacant index j with a key that does not precede its parent. */
  lemma Fill(ks: seq<Key>, j: nat, k: Key)
    requires 1 <= j < |ks| && OrderedAround(ks, j)
    requires j > 1 ==> !Precedes(k, ks[j / 2])
    ensures OrderedExcept(ks[j := k], j) && GrandchildrenOk(ks[j := k], j)
    ensures AboveChildren(ks, j, k) ==> OrderedExcept(ks[j := k], 0)
  {
  }

  /** Swapping i with its child j, the child that goes first. */
  lemma SwapDown(ks: seq<Key>, i: nat, j: nat)
    requires 1 <= i && 2 <= j < |ks| && j / 2 == i
    requires OrderedExcept(ks, i) && GrandchildrenOk(ks, i)
    requires Precedes(ks[j], ks[i]) && AboveChildren(ks, i, ks[j])
    ensures var ks' := ks[j := ks[i]][i := ks[j]];
            OrderedExcept(ks', j) && GrandchildrenOk(ks', j)
  {
    var ks' := ks[j := ks[i]][i := ks[j]];
    forall c | 2 <= c < |ks'| && c / 2 != j
      ensures !Precedes(ks'[c], ks'[c / 2])
    {
      if c == j {
        PrecedesIsStrictTotalOrder(ks[j], ks[i], ks[j]);
      }
    }
  }

  /** The child shiftup() compares with: neither child precedes it, and if it does not precede
      its parent either, the heap is in order. */
  lemma SmallerChild(ks: seq<Key>, i: nat, j: nat)
    requires 1 <= i && 2 * i < |ks| && OrderedExcept(ks, i)
    requires j == if 2 * i + 1 < |ks| && Precedes(ks[2 * i + 1], ks[2 * i]) then 2 * i + 1 else 2 * i
    ensures AboveChildren(ks, i, ks[j])
    ensures !Precedes(ks[j], ks[i]) ==> OrderedExcept(ks, 0)
  {
    forall c | 2 <= c < |ks| && c / 2 == i
      ensures !Precedes(ks[c], ks[j])
    {
      assert c == 2 * i || c == 2 * i + 1;
      PrecedesIsStrictTotalOrder(ks[2 * i], ks[j], ks[c]);
    }
    forall c | 2 <= c < |ks| && c / 2 == i && !Precedes(ks[j], ks[i])
      ensures !Precedes(ks[c], ks[i])
    {
      PrecedesIsStrictTotalOrder(ks[i], ks[j], ks[c]);
    }
  }

  lemma LeafIsInOrder(ks: seq<Key>, i: nat)
    requires OrderedExcept(ks, i) && 2 * i >= |ks|
    ensures OrderedExcept(ks, 0)
  {
  }

  /** In a heap nothing precedes the root. */
  lemma {:induction false} RootGoesFirst(ks: seq<Key>, i: nat)
    requires OrderedExcept(ks, 0) && 1 <= i < |ks|
    ensures !Precedes(ks[i], ks[1])
    decreases i
  {
    if i > 1 {
      RootGoesFirst(ks, i / 2);
      PrecedesIsStrictTotalOrder(ks[1], ks[i / 2], ks[i]);
    } else {
      PrecedesIsStrictTotalOrder(ks[1], ks[1], ks[1]);
    }
  }

  /** A sorted array is a heap. */
  lemma SortedIsHeap(k0: Key, ks: seq<Key>)
    requires forall i, j :: 0 <= i < j < |ks| ==> Compare(ks[i], ks[j]) < 0
    ensures OrderedExcept([k0] + ks, 0)
  {
    forall i | 2 <= i < |ks| + 1
      ensures !Precedes(([k0] + ks)[i], ([k0] + ks)[i / 2])
    {
      assert Compare(ks[i / 2 - 1], ks[i - 1]) < 0;
    }
  }
}
