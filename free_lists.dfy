/** The two in-memory block lists of the heap file, emptyBlocks and
    partiallyEmptyBlocks, and the updates insertRecord and deleteRecord make
    to them. A list is a sequence of block indexes in LinkedList order. */
module FreeLists {

  /** No index occurs twice. */
  ghost predicate NoDup(xs: seq<int>)
  {
    forall i, j :: 0 <= i < j < |xs| ==> xs[i] != xs[j]
  }

  /** The position of the first occurrence of x. */
  function IndexOf(xs: seq<int>, x: int): (i: nat)
    requires x in xs
    ensures i < |xs| && xs[i] == x && x !in xs[..i]
  {
    if xs[0] == x then 0
    else
      var k := IndexOf(xs[1..], x);
      assert xs[..k + 1] == [xs[0]] + xs[1..][..k];
      k + 1
  }

  /** LinkedList.remove(Integer.valueOf(x)): drops one occurrence of x, if
      there is one; RemoveValueSplices says which one. */
  function RemoveValue(xs: seq<int>, x: int): (ys: seq<int>)
    ensures x !in xs ==> ys == xs
    ensures forall y :: y in ys ==> y in xs
    ensures forall y :: y != x ==> (y in ys <==> y in xs)
  {
    if |xs| == 0 then []
    else if xs[0] == x then
      assert xs == [xs[0]] + xs[1..];
      xs[1..]
    else
      assert xs == [xs[0]] + xs[1..];
      [xs[0]] + RemoveValue(xs[1..], x)
  }

  /** The occurrence removed is the first one, and the order of the rest is kept. */
  lemma {:induction false} RemoveValueSplices(xs: seq<int>, x: int)
    requires x in xs
    ensures RemoveValue(xs, x) == xs[..IndexOf(xs, x)] + xs[IndexOf(xs, x) + 1..]
  {
    if xs[0] == x {
      assert IndexOf(xs, x) == 0 && xs[..0] + xs[1..] == xs[1..];
    } else {
      var t := xs[1..];
      assert x in t by { assert xs == [xs[0]] + t; }
      var k := IndexOf(t, x);
      RemoveValueSplices(t, x);
      SpliceStep(xs, k);
      assert IndexOf(xs, x) == k + 1;
    }
  }

  /** Putting back the head in front of a splice of the tail. */
  lemma SpliceStep(xs: seq<int>, k: nat)
    requires k + 1 < |xs|
    ensures [xs[0]] + (xs[1..][..k] + xs[1..][k + 1..]) == xs[..k + 1] + xs[k + 2..]
  {
    assert xs[..k + 1] == [xs[0]] + xs[1..][..k];
    assert xs[k + 2..] == xs[1..][k + 1..];
  }

  /** if (!list.contains(x)) list.add(x). */
  function AddIfAbsent(xs: seq<int>, x: int): (ys: seq<int>)
  {
    if x in xs then xs else xs + [x]
  }

  lemma AddIfAbsentKeepsNoDup(xs: seq<int>, x: int)
    requires NoDup(xs)
    ensures NoDup(AddIfAbsent(xs, x))
    ensures forall y :: y in AddIfAbsent(xs, x) <==> y in xs || y == x
  {
    var ys := AddIfAbsent(xs, x);
    assert forall y :: y in xs ==> y in ys;
  }

  /** Cutting position k out of a list without duplicates leaves exactly
      the other elements, still without duplicates. */
  lemma SpliceKeepsNoDup(xs: seq<int>, k: nat)
    requires NoDup(xs) && k < |xs|
    ensures NoDup(xs[..k] + xs[k + 1..])
    ensures forall y :: y in xs[..k] + xs[k + 1..] <==> y in xs && y != xs[k]
  {
    var ys := xs[..k] + xs[k + 1..];
    assert forall i :: 0 <= i < |ys| ==> ys[i] == xs[if i < k then i else i + 1];
    forall y | y in xs && y != xs[k]
      ensures y in ys
    {
      var i :| 0 <= i < |xs| && xs[i] == y;
      assert ys[if i < k then i else i - 1] == y;
    }
  }

  lemma RemoveValueKeepsNoDup(xs: seq<int>, x: int)
    requires NoDup(xs)
    ensures NoDup(RemoveValue(xs, x))
    ensures forall y :: y in RemoveValue(xs, x) <==> y in xs && y != x
  {
    if x in xs {
      RemoveValueSplices(xs, x);
      SpliceKeepsNoDup(xs, IndexOf(xs, x));
    }
  }

  datatype Lists = Lists(empty: seq<int>, partial: seq<int>)

  /** Neither list repeats an index and no index is in both. */
  ghost predicate WellFormed(l: Lists)
  {
    NoDup(l.empty) && NoDup(l.partial) && forall x :: x in l.empty ==> x !in l.partial
  }

  /** The block insertRecord chooses, and the lists after the removeFirst. */
  datatype Target = Target(index: int, rest: Lists)

  /** insertRecord's choice: the head of partiallyEmptyBlocks, else the
      head of emptyBlocks, else a new block at totalBlocks. */
  function TakeTarget(l: Lists, totalBlocks: int): (t: Target)
  {
    if |l.partial| > 0 then Target(l.partial[0], l.(partial := l.partial[1..]))
    else if |l.empty| > 0 then Target(l.empty[0], l.(empty := l.empty[1..]))
    else Target(totalBlocks, l)
  }

  /** The chosen index is taken off whichever list held it: afterwards it is
      in neither list, every other index keeps its list, and the lists stay
      well formed. */
  lemma TakeTargetFrees(l: Lists, totalBlocks: int)
    requires WellFormed(l)
    ensures var t := TakeTarget(l, totalBlocks);
      && WellFormed(t.rest)
      && (l.partial != [] || l.empty != [] ==> t.index !in t.rest.empty && t.index !in t.rest.partial)
      && (l.partial == [] && l.empty == [] ==> t.index == totalBlocks && t.rest == l)
      && multiset(t.rest.empty) + multiset(t.rest.partial) + (if l.partial != [] || l.empty != [] then multiset{t.index} else multiset{})
         == multiset(l.empty) + multiset(l.partial)
  {
    if |l.partial| > 0 {
      DropHead(l.partial);
    } else if |l.empty| > 0 {
      DropHead(l.empty);
    }
  }

  /** removeFirst on a list without duplicates. */
  lemma DropHead(xs: seq<int>)
    requires NoDup(xs) && |xs| > 0
    ensures NoDup(xs[1..]) && xs[0] !in xs[1..]
    ensures multiset(xs) == multiset{xs[0]} + multiset(xs[1..])
    ensures forall y :: y in xs[1..] ==> y in xs
  {
    assert xs == [xs[0]] + xs[1..];
  }

  /** updateListsAfterInsert, given the block's validCount and blockFactor
      after the record was added. */
  function AfterInsert(l: Lists, index: int, validCount: int, blockFactor: int): Lists
  {
    if validCount == blockFactor then
      l.(partial := RemoveValue(l.partial, index))
    else if 0 < validCount < blockFactor then
      Lists(RemoveValue(l.empty, index), AddIfAbsent(l.partial, index))
    else if validCount == 0 then
      Lists(AddIfAbsent(l.empty, index), RemoveValue(l.partial, index))
    else l
  }

  /** After an insert a full block leaves partiallyEmptyBlocks, a partly
      filled one is in partiallyEmptyBlocks once and not in emptyBlocks, an
      empty one is in emptyBlocks once and not in partiallyEmptyBlocks; no
      other index changes lists, and the lists stay well formed. */
  lemma AfterInsertClassifies(l: Lists, index: int, validCount: int, blockFactor: int)
    requires WellFormed(l)
    ensures var l' := AfterInsert(l, index, validCount, blockFactor);
      && WellFormed(l')
      && (validCount == blockFactor ==> index !in l'.partial && l'.empty == l.empty)
      && (validCount != blockFactor && 0 < validCount < blockFactor ==> index in l'.partial && index !in l'.empty)
      && (validCount != blockFactor && validCount == 0 ==> index in l'.empty && index !in l'.partial)
      && (validCount != blockFactor && validCount != 0 && !(0 < validCount < blockFactor) ==> l' == l)
      && (forall y :: y != index ==> (y in l'.empty <==> y in l.empty) && (y in l'.partial <==> y in l.partial))
  {
    if validCount == blockFactor {
      RemoveValueKeepsNoDup(l.partial, index);
    } else if 0 < validCount < blockFactor {
      RemoveValueKeepsNoDup(l.empty, index);
      AddIfAbsentKeepsNoDup(l.partial, index);
      var l' := AfterInsert(l, index, validCount, blockFactor);
      assert forall y :: y in l'.empty ==> y in l.empty && y != index;
    } else if validCount == 0 {
      AddIfAbsentKeepsNoDup(l.empty, index);
      RemoveValueKeepsNoDup(l.partial, index);
      var l' := AfterInsert(l, index, validCount, blockFactor);
      assert forall y :: y in l'.partial ==> y in l.partial && y != index;
    }
  }

  /** updateListsAfterDelete, given the block's validCount after the
      removal. An emptied block is appended to emptyBlocks without a
      membership check. */
  function AfterDelete(l: Lists, index: int, validCount: int, blockFactor: int): Lists
  {
    if validCount == 0 then
      Lists(l.empty + [index], RemoveValue(l.partial, index))
    else if validCount < blockFactor then
      l.(partial := AddIfAbsent(l.partial, index))
    else l
  }

  /** After a delete an emptied block is appended to emptyBlocks and leaves
      partiallyEmptyBlocks; a partly filled one is in partiallyEmptyBlocks;
      the lists stay well formed provided the block was not already listed
      as empty (it held a record, so a consistent list would not list it). */
  lemma AfterDeleteClassifies(l: Lists, index: int, validCount: int, blockFactor: int)
    requires WellFormed(l) && index !in l.empty
    ensures var l' := AfterDelete(l, index, validCount, blockFactor);
      && WellFormed(l')
      && (validCount == 0 ==> l'.empty == l.empty + [index] && index !in l'.partial)
      && (validCount != 0 && validCount < blockFactor ==> index in l'.partial && l'.empty == l.empty)
      && (validCount != 0 && validCount >= blockFactor ==> l' == l)
      && (forall y :: y != index ==> (y in l'.empty <==> y in l.empty) && (y in l'.partial <==> y in l.partial))
  {
    var l' := AfterDelete(l, index, validCount, blockFactor);
    if validCount == 0 {
      RemoveValueKeepsNoDup(l.partial, index);
      assert forall y :: y in l'.empty <==> y in l.empty || y == index;
      forall i, j | 0 <= i < j < |l'.empty|
        ensures l'.empty[i] != l'.empty[j]
      {
        if j == |l.empty| {
          assert l'.empty[i] == l.empty[i];
        }
      }
    } else if validCount < blockFactor {
      AddIfAbsentKeepsNoDup(l.partial, index);
    }
  }
}
