// The genetic algorithm's pool of schedules: a binary search tree keyed
// by evaluation, worse (higher) evaluations to the left, better (lower)
// ones to the right. A node is a value here; `Items` lists a tree's
// entries in order, worst first, and every operation is stated against it.
module Pools {
  import opened Common

  /** A pooled item with the evaluation it was inserted under. */
  datatype Ranked<T> = Ranked(item: T, eval: int)

  /** Non-increasing by evaluation: worst first, best last. */
  ghost predicate WorstFirst<T>(s: seq<Ranked<T>>) {
    forall i, j :: 0 <= i < j < |s| ==> s[i].eval >= s[j].eval
  }

  /** Where `add` puts `x`: after every entry it beats, before every entry it does not. */
  function Insert<T>(s: seq<Ranked<T>>, x: Ranked<T>): (r: seq<Ranked<T>>)
    ensures |r| == |s| + 1
    ensures multiset(r) == multiset(s) + multiset{x}
  {
    if s == [] then [x]
    else if s[0].eval > x.eval then assert s == [s[0]] + s[1..]; [s[0]] + Insert(s[1..], x)
    else assert s == [s[0]] + s[1..]; [x] + s
  }

  /** Inserting keeps the order. */
  lemma {:induction false} InsertWorstFirst<T>(s: seq<Ranked<T>>, x: Ranked<T>)
    requires WorstFirst(s)
    ensures WorstFirst(Insert(s, x))
  {
    if s != [] && s[0].eval > x.eval {
      InsertWorstFirst(s[1..], x);
      var r := Insert(s[1..], x);
      forall y | y in r ensures s[0].eval >= y.eval {
        assert y in multiset(r);
        assert y in multiset(s[1..]) || y == x;
      }
    }
  }

  /** Inserting into `a + b` stops inside `a` or at the start of `b` when `b` does not beat `x`. */
  lemma {:induction false} InsertBefore<T>(a: seq<Ranked<T>>, b: seq<Ranked<T>>, x: Ranked<T>)
    requires b == [] || b[0].eval <= x.eval
    ensures Insert(a + b, x) == Insert(a, x) + b
  {
    if a == [] {
      assert a + b == b;
    } else if a[0].eval > x.eval {
      assert (a + b)[1..] == a[1..] + b;
      InsertBefore(a[1..], b, x);
    } else {
      assert (a + b)[0] == a[0];
    }
  }

  /** Inserting into `a + b` passes over `a` when every entry of `a` beats nothing better than `x`. */
  lemma {:induction false} InsertAfter<T>(a: seq<Ranked<T>>, b: seq<Ranked<T>>, x: Ranked<T>)
    requires forall y :: y in a ==> y.eval > x.eval
    ensures Insert(a + b, x) == a + Insert(b, x)
  {
    if a == [] {
      assert a + b == b;
    } else {
      assert (a + b)[0] == a[0] && (a + b)[1..] == a[1..] + b;
      InsertAfter(a[1..], b, x);
    }
  }

  /** Inserting into `l + [v] + r` past `v`, which `x` beats, lands in `r`. */
  lemma InsertPastNode<T>(l: seq<Ranked<T>>, v: Ranked<T>, r: seq<Ranked<T>>, x: Ranked<T>)
    requires forall y :: y in l ==> y.eval >= v.eval
    requires x.eval < v.eval
    ensures Insert(l + ([v] + r), x) == l + ([v] + Insert(r, x))
  {
    InsertAfter(l, [v] + r, x);
    assert ([v] + r)[0] == v && ([v] + r)[1..] == r;
  }

  /** The sum of the evaluations of a sequence of entries. */
  function EvalSum<T>(s: seq<Ranked<T>>): int {
    if s == [] then 0 else s[0].eval + EvalSum(s[1..])
  }

  /** Inserting adds the entry's evaluation to the sum. */
  lemma {:induction false} InsertEvalSum<T>(s: seq<Ranked<T>>, x: Ranked<T>)
    ensures EvalSum(Insert(s, x)) == EvalSum(s) + x.eval
  {
    if s != [] && s[0].eval > x.eval {
      InsertEvalSum(s[1..], x);
      assert Insert(s, x)[1..] == Insert(s[1..], x);
    } else if s != [] {
      assert Insert(s, x)[1..] == s;
    }
  }

  /** The entries left after removing the `amount` worst of `s`: everything, part, or nothing. */
  function DropWorst<T>(s: seq<Ranked<T>>, amount: int): (r: seq<Ranked<T>>)
    ensures |s| <= amount ==> r == []
    ensures amount <= 0 ==> r == s
    ensures 0 <= amount < |s| ==> |r| == |s| - amount && r == s[amount..]
  {
    if |s| <= amount then [] else if amount <= 0 then s else s[amount..]
  }

  /** What is left after removing is part of what there was. */
  lemma DropWorstWithin<T>(s: seq<Ranked<T>>, amount: int)
    ensures forall y :: y in DropWorst(s, amount) ==> y in s
  {
    forall y | y in DropWorst(s, amount) ensures y in s {
      if 0 < amount < |s| {
        var i :| 0 <= i < |s| - amount && s[amount..][i] == y;
        assert s[amount + i] == y;
      }
    }
  }

  /** Removing from the left part of `l + [v] + r` no more than `l` holds, as `remove` does first. */
  lemma DropLeft<T>(l: seq<Ranked<T>>, v: Ranked<T>, r: seq<Ranked<T>>, amount: int)
    requires amount < |l| + 1 + |r|
    ensures DropWorst(l, amount) + ([v] + r) == DropWorst(l + ([v] + r), if amount < |l| then amount else |l|)
  {
    var s := l + ([v] + r);
    if amount >= |l| {
      assert s[|l|..] == [v] + r;
    } else if amount > 0 {
      assert s[amount..] == l[amount..] + ([v] + r);
    }
  }

  /** Removing more than `l` and its next entry hold from `l + [v] + r` removes the rest from `r`. */
  lemma DropPastNode<T>(l: seq<Ranked<T>>, v: Ranked<T>, r: seq<Ranked<T>>, amount: int)
    requires |l| < amount < |l| + 1 + |r|
    ensures DropWorst(l + ([v] + r), amount) == DropWorst(r, amount - |l| - 1)
  {
    var s := l + ([v] + r);
    var k := amount - |l| - 1;
    if k > 0 {
      assert s[amount..] == r[k..];
    } else {
      assert s[amount..] == r;
    }
  }

  /** Removing the worst keeps the order and leaves only entries no worse than those removed. */
  lemma DropWorstKeeps<T>(s: seq<Ranked<T>>, amount: int)
    requires WorstFirst(s)
    ensures WorstFirst(DropWorst(s, amount))
    ensures forall x, y :: x in DropWorst(s, amount) && y in s && y !in DropWorst(s, amount) ==> x.eval <= y.eval
    ensures multiset(DropWorst(s, amount)) <= multiset(s)
  {
    var r := DropWorst(s, amount);
    if 0 < amount < |s| {
      assert s == s[..amount] + r;
      forall x, y | x in r && y in s && y !in r ensures x.eval <= y.eval {
        var i :| 0 <= i < |r| && r[i] == x;
        var j :| 0 <= j < |s| && s[j] == y;
        assert s[amount + i] == x;
        assert j < amount;
      }
    }
  }

  /**
   * `BSTree`: `Nil` is a null child; a `Node` holds the source's fields.
   * The pool itself is a `Node`, empty when its size is 0.
   */
  datatype Tree<T> = Nil | Node(value: Option<Ranked<T>>, left: Tree<T>, right: Tree<T>, size: int, fitSum: int)

  /** The entries of a tree in order, worst first. */
  function Items<T>(t: Tree<T>): seq<Ranked<T>> {
    match t
    case Nil => []
    case Node(value, left, right, _, _) =>
      match value
      case None => []
      case Some(v) => Items(left) + ([v] + Items(right))
  }

  /** `e` lies between `low` (inclusive) and `high` (exclusive); `None` leaves that side open. */
  predicate InRange(e: int, low: Option<int>, high: Option<int>) {
    (low.None? || low.value <= e) && (high.None? || e < high.value)
  }

  /** The entries a child holds by its own count: its `size`, or none for a null child. */
  function Count<T>(c: Tree<T>): int {
    if c.Node? then c.size else 0
  }

  /**
   * The tree property the source maintains, for a subtree whose entries
   * must lie between `low` and `high`: an empty node holds nothing, a child
   * is null rather than empty, a size counts the node and its children, and
   * below an entry the left subtree holds only entries no better than it,
   * the right subtree only strictly better ones.
   */
  ghost predicate Within<T>(t: Tree<T>, low: Option<int>, high: Option<int>) {
    match t
    case Nil => true
    case Node(value, left, right, size, _) =>
      match value
      case None => left.Nil? && right.Nil? && size == 0
      case Some(v) =>
        InRange(v.eval, low, high)
        && (left.Node? ==> left.size > 0) && (right.Node? ==> right.size > 0)
        && size == Count(left) + 1 + Count(right)
        && Within(left, Some(v.eval), high) && Within(right, low, Some(v.eval))
  }

  /** A whole tree as the source keeps it. */
  ghost predicate Valid<T>(t: Tree<T>) {
    Within(t, None, None)
  }

  /** Every node's `fitSum` is the sum of its subtree's evaluations. */
  ghost predicate Summed<T>(t: Tree<T>) {
    match t
    case Nil => true
    case Node(_, left, right, _, fitSum) => Summed(left) && Summed(right) && fitSum == EvalSum(Items(t))
  }

  /** A tree's size is the number of its entries. */
  lemma {:induction false} SizeCounts<T>(t: Tree<T>, low: Option<int>, high: Option<int>)
    requires Within(t, low, high)
    ensures Count(t) == |Items(t)|
  {
    if t.Node? && t.value.Some? {
      var v := t.value.value;
      SizeCounts(t.left, Some(v.eval), high);
      SizeCounts(t.right, low, Some(v.eval));
    }
  }

  /** Every entry of a subtree lies within its bounds. */
  lemma {:induction false} ItemsInRange<T>(t: Tree<T>, low: Option<int>, high: Option<int>)
    requires Within(t, low, high)
    ensures forall y :: y in Items(t) ==> InRange(y.eval, low, high)
  {
    if t.Node? && t.value.Some? {
      var v := t.value.value;
      ItemsInRange(t.left, Some(v.eval), high);
      ItemsInRange(t.right, low, Some(v.eval));
    }
  }

  /** Dropping a subtree's lower bound keeps it within bounds. */
  lemma {:induction false} WidenLow<T>(t: Tree<T>, low: Option<int>, high: Option<int>)
    requires Within(t, low, high)
    ensures Within(t, None, high)
  {
    if t.Node? && t.value.Some? {
      WidenLow(t.right, low, Some(t.value.value.eval));
    }
  }

  /** Dropping a subtree's upper bound keeps it within bounds. */
  lemma {:induction false} WidenHigh<T>(t: Tree<T>, low: Option<int>, high: Option<int>)
    requires Within(t, low, high)
    ensures Within(t, low, None)
  {
    if t.Node? && t.value.Some? {
      WidenHigh(t.left, Some(t.value.value.eval), high);
    }
  }

  /** A valid tree whose entries all lie between two bounds is within them. */
  lemma {:induction false} Narrow<T>(t: Tree<T>, low: Option<int>, high: Option<int>)
    requires Valid(t)
    requires forall y :: y in Items(t) ==> InRange(y.eval, low, high)
    ensures Within(t, low, high)
  {
    if t.Node? && t.value.Some? {
      var v := t.value.value;
      assert v in Items(t);
      ItemsInRange(t.left, Some(v.eval), None);
      WidenLow(t.left, Some(v.eval), None);
      Narrow(t.left, Some(v.eval), high);
      ItemsInRange(t.right, None, Some(v.eval));
      WidenHigh(t.right, None, Some(v.eval));
      Narrow(t.right, low, Some(v.eval));
    }
  }

  /** The left subtree of a valid node is a valid tree. */
  lemma LeftValid<T>(t: Tree<T>)
    requires t.Node? && t.value.Some? && Valid(t)
    ensures Valid(t.left)
  {
    WidenLow(t.left, Some(t.value.value.eval), None);
  }

  /** The right subtree of a valid node is a valid tree. */
  lemma RightValid<T>(t: Tree<T>)
    requires t.Node? && t.value.Some? && Valid(t)
    ensures Valid(t.right)
  {
    WidenHigh(t.right, None, Some(t.value.value.eval));
  }

  /** The evaluations of a concatenation add up. */
  lemma {:induction false} EvalSumAppend<T>(a: seq<Ranked<T>>, b: seq<Ranked<T>>)
    ensures EvalSum(a + b) == EvalSum(a) + EvalSum(b)
  {
    if a != [] {
      assert (a + b)[0] == a[0] && (a + b)[1..] == a[1..] + b;
      EvalSumAppend(a[1..], b);
    } else {
      assert a + b == b;
    }
  }

  /** `new BSTree()`: the empty pool. */
  function Empty<T>(): (r: Tree<T>)
    ensures r.Node? && Valid(r) && Summed(r) && Items(r) == [] && r.size == 0
  {
    Node(None, Nil, Nil, 0, 0)
  }

  /** `new BSTree(input)`: a tree of one entry, its sum that entry's evaluation. */
  function Leaf<T>(input: T, eval: int): (r: Tree<T>)
    ensures r.Node? && Valid(r) && Summed(r) && Items(r) == [Ranked(input, eval)] && r.size == 1
  {
    Node(Some(Ranked(input, eval)), Nil, Nil, 1, eval)
  }

  /** A tree within bounds lists its entries worst first. */
  lemma {:induction false} ItemsWorstFirst<T>(t: Tree<T>, low: Option<int>, high: Option<int>)
    requires Within(t, low, high)
    ensures WorstFirst(Items(t))
  {
    if t.Node? && t.value.Some? {
      var l, r, v := Items(t.left), Items(t.right), t.value.value;
      ItemsWorstFirst(t.left, Some(v.eval), high);
      ItemsWorstFirst(t.right, low, Some(v.eval));
      ItemsInRange(t.left, Some(v.eval), high);
      ItemsInRange(t.right, low, Some(v.eval));
      JoinWorstFirst(l, v, r);
    }
  }

  /** Two ordered runs either side of an entry, no better than it on the left and better on the right, make an ordered run. */
  lemma JoinWorstFirst<T>(l: seq<Ranked<T>>, v: Ranked<T>, r: seq<Ranked<T>>)
    requires WorstFirst(l) && WorstFirst(r)
    requires forall y :: y in l ==> InRange(y.eval, Some(v.eval), None)
    requires forall y :: y in r ==> InRange(y.eval, None, Some(v.eval))
    ensures WorstFirst(l + ([v] + r))
  {
    var s := l + ([v] + r);
    forall i, j | 0 <= i < j < |s| ensures s[i].eval >= s[j].eval {
      var n := |l|;
      if j < n {
        assert s[i] == l[i] && s[j] == l[j];
      } else if i < n {
        assert s[i] == l[i] && l[i] in l;
        if j > n {
          assert s[j] == r[j - n - 1] && r[j - n - 1] in r;
        }
      } else if i == n {
        assert s[j] == r[j - n - 1] && r[j - n - 1] in r;
      } else {
        assert s[i] == r[i - n - 1] && s[j] == r[j - n - 1];
      }
    }
  }

  /**
   * `add(input)`: the entry goes to its place in the order (after every
   * entry it beats, before every entry that does not beat it) and the
   * node's sum grows by its evaluation.
   */
  function Add<T>(t: Tree<T>, input: T, eval: int): (r: Tree<T>)
    requires t.Node? && Valid(t)
    ensures r.Node? && Valid(r)
    ensures Items(r) == Insert(Items(t), Ranked(input, eval))
    ensures r.size == t.size + 1 && r.fitSum == t.fitSum + eval
    decreases t, 1
  {
    if t.size > 0 then
      if eval >= t.value.value.eval then AddLeft(t, input, eval) else AddRight(t, input, eval)
    else
      t.(value := Some(Ranked(input, eval)), size := t.size + 1, fitSum := t.fitSum + eval)
  }

  /** `add` at a node the entry does not beat: it goes into the left subtree, or becomes it. */
  function AddLeft<T>(t: Tree<T>, input: T, eval: int): (r: Tree<T>)
    requires t.Node? && Valid(t) && t.size > 0 && eval >= t.value.value.eval
    ensures r.Node? && Valid(r)
    ensures Items(r) == Insert(Items(t), Ranked(input, eval))
    ensures r.size == t.size + 1 && r.fitSum == t.fitSum + eval
    decreases t, 0
  {
    var left := if t.left.Node? then LeftValid(t); Add(t.left, input, eval) else Leaf(input, eval);
    GrowLeft(t, Ranked(input, eval), left);
    t.(left := left, size := t.size + 1, fitSum := t.fitSum + eval)
  }

  /** `add` at a node the entry beats: it goes into the right subtree, or becomes it. */
  function AddRight<T>(t: Tree<T>, input: T, eval: int): (r: Tree<T>)
    requires t.Node? && Valid(t) && t.size > 0 && eval < t.value.value.eval
    ensures r.Node? && Valid(r)
    ensures Items(r) == Insert(Items(t), Ranked(input, eval))
    ensures r.size == t.size + 1 && r.fitSum == t.fitSum + eval
    decreases t, 0
  {
    var right := if t.right.Node? then RightValid(t); Add(t.right, input, eval) else Leaf(input, eval);
    GrowRight(t, Ranked(input, eval), right);
    t.(right := right, size := t.size + 1, fitSum := t.fitSum + eval)
  }

  /** Putting a left subtree that took `x` under a node that `x` does not beat. */
  lemma GrowLeft<T>(t: Tree<T>, x: Ranked<T>, left: Tree<T>)
    requires t.Node? && Valid(t) && t.size > 0 && x.eval >= t.value.value.eval
    requires left.Node? && Valid(left) && left.size == Count(t.left) + 1
    requires Items(left) == Insert(Items(t.left), x)
    ensures var r := t.(left := left, size := t.size + 1, fitSum := t.fitSum + x.eval);
      Valid(r) && Items(r) == Insert(Items(t), x)
  {
    var v, l, rt := t.value.value, Items(t.left), Items(t.right);
    InsertBefore(l, [v] + rt, x);
    ItemsInRange(t.left, Some(v.eval), None);
    AddedInRange(Items(left), l, x, Some(v.eval), None);
    Narrow(left, Some(v.eval), None);
  }

  /** Putting a right subtree that took `x` under a node that `x` beats. */
  lemma GrowRight<T>(t: Tree<T>, x: Ranked<T>, right: Tree<T>)
    requires t.Node? && Valid(t) && t.size > 0 && x.eval < t.value.value.eval
    requires right.Node? && Valid(right) && right.size == Count(t.right) + 1
    requires Items(right) == Insert(Items(t.right), x)
    ensures var r := t.(right := right, size := t.size + 1, fitSum := t.fitSum + x.eval);
      Valid(r) && Items(r) == Insert(Items(t), x)
  {
    var v, l, rt := t.value.value, Items(t.left), Items(t.right);
    ItemsInRange(t.left, Some(v.eval), None);
    InsertPastNode(l, v, rt, x);
    ItemsInRange(t.right, None, Some(v.eval));
    AddedInRange(Items(right), rt, x, None, Some(v.eval));
    Narrow(right, None, Some(v.eval));
  }

  /** A sequence that took `x` on top of `s` keeps its entries in range when `x` is. */
  lemma AddedInRange<T>(grown: seq<Ranked<T>>, s: seq<Ranked<T>>, x: Ranked<T>, low: Option<int>, high: Option<int>)
    requires multiset(grown) == multiset(s) + multiset{x}
    requires forall y :: y in s ==> InRange(y.eval, low, high)
    requires InRange(x.eval, low, high)
    ensures forall y :: y in grown ==> InRange(y.eval, low, high)
  {
    forall y | y in grown ensures InRange(y.eval, low, high) {
      assert y in multiset(grown);
    }
  }

  /** `add` keeps every node's sum equal to the evaluations below it. */
  lemma {:induction false} AddSummed<T>(t: Tree<T>, input: T, eval: int)
    requires t.Node? && Valid(t) && Summed(t)
    ensures Summed(Add(t, input, eval))
    decreases t
  {
    var x := Ranked(input, eval);
    if t.size > 0 && eval >= t.value.value.eval {
      if t.left.Node? {
        LeftValid(t);
        AddSummed(t.left, input, eval);
      }
      assert Add(t, input, eval) == AddLeft(t, input, eval);
    } else if t.size > 0 {
      if t.right.Node? {
        RightValid(t);
        AddSummed(t.right, input, eval);
      }
      assert Add(t, input, eval) == AddRight(t, input, eval);
    }
    SummedStep(t, Add(t, input, eval), x);
  }

  /** A node whose subtrees are summed and whose sum grew with its entries by `x` is summed. */
  lemma SummedStep<T>(t: Tree<T>, r: Tree<T>, x: Ranked<T>)
    requires t.Node? && Summed(t) && r.Node? && Summed(r.left) && Summed(r.right)
    requires r.fitSum == t.fitSum + x.eval && Items(r) == Insert(Items(t), x)
    ensures Summed(r)
  {
    InsertEvalSum(Items(t), x);
  }

  /**
   * `kill()`: a non-empty tree drops every entry and its sum is reset; an
   * empty one is left as it is, sum included.
   */
  function Kill<T>(t: Tree<T>): (r: Tree<T>)
    requires t.Node?
    ensures r.Node?
    ensures Valid(t) ==> Valid(r) && Items(r) == []
    ensures t.size > 0 ==> r.size == 0 && r.fitSum == 0 && Summed(r)
    ensures t.size <= 0 ==> r == t
  {
    if t.size > 0 then Node(None, Nil, Nil, 0, 0) else t
  }

  /**
   * `remove(amount)`: drops the `amount` worst entries, or every entry when
   * there are no more than that. The left subtree gives up its entries
   * first; when that is not enough, the node itself goes, its right subtree
   * takes its place and gives up the rest.
   */
  function Remove<T>(t: Tree<T>, amount: int): (r: Tree<T>)
    requires t.Node? && Valid(t)
    ensures r.Node? && Valid(r)
    ensures Items(r) == DropWorst(Items(t), amount)
    ensures t.size <= amount ==> r.size == 0 && r.fitSum == (if t.size > 0 then 0 else t.fitSum)
    decreases t
  {
    SizeCounts(t, None, None);
    if t.size <= amount then
      Kill(t)
    else
      var leftToRemove := if t.left.Node? then amount - t.left.size else amount;
      if leftToRemove > 0 then
        RightTakesOver(t, amount, leftToRemove);
        RightValid(t);
        if leftToRemove - 1 > 0 then Remove(t.right, leftToRemove - 1) else t.right
      else if t.left.Node? then
        LeftValid(t);
        var left := Remove(t.left, amount);
        var trimmed := t.(left := if left.size < 1 then Nil else left,
                          size := t.size - (t.left.size - left.size),
                          fitSum := t.fitSum - t.left.fitSum);
        LeftTrimmed(t, amount, left, trimmed);
        trimmed
      else
        t
  }

  /** When the left subtree holds fewer than `amount`, the right subtree is there and holds the rest to drop. */
  lemma RightTakesOver<T>(t: Tree<T>, amount: int, leftToRemove: int)
    requires t.Node? && Valid(t) && amount < t.size
    requires leftToRemove == (if t.left.Node? then amount - t.left.size else amount) > 0
    ensures t.value.Some? && t.right.Node?
    ensures DropWorst(Items(t), amount) == DropWorst(Items(t.right), leftToRemove - 1)
  {
    assert t.value.Some?;
    var v := t.value.value;
    SizeCounts(t.left, Some(v.eval), None);
    SizeCounts(t.right, None, Some(v.eval));
    var l, r := Items(t.left), Items(t.right);
    assert leftToRemove == amount - |l| && t.size == |l| + 1 + |r|;
    assert Items(t) == l + ([v] + r);
    DropPastNode(l, v, r, amount);
  }

  /** Dropping no more than the left subtree holds leaves a valid node over the rest. */
  lemma LeftTrimmed<T>(t: Tree<T>, amount: int, left: Tree<T>, trimmed: Tree<T>)
    requires t.Node? && Valid(t) && amount < t.size && t.left.Node?
    requires amount <= t.left.size
    requires left.Node? && Valid(left) && Items(left) == DropWorst(Items(t.left), amount)
    requires trimmed == t.(left := if left.size < 1 then Nil else left,
                           size := t.size - (t.left.size - left.size),
                           fitSum := t.fitSum - t.left.fitSum)
    ensures Valid(trimmed)
    ensures Items(trimmed) == DropWorst(Items(t), amount)
  {
    var l, r, v := Items(t.left), Items(t.right), t.value.value;
    SizeCounts(t.left, Some(v.eval), None);
    SizeCounts(left, None, None);
    DropWorstWithin(l, amount);
    DropLeft(l, v, r, amount);
    ItemsInRange(t.left, Some(v.eval), None);
    Narrow(left, Some(v.eval), None);
    assert Items(trimmed.left) == Items(left);
  }

  /** `getWorst()`: the first entry, or none in an empty tree. */
  function GetWorst<T>(t: Tree<T>): (r: Option<T>)
    requires t.Node? && Valid(t)
    ensures Items(t) != [] ==> r == Some(Items(t)[0].item)
    ensures Items(t) == [] ==> r.None?
    decreases t
  {
    SizeCounts(t, None, None);
    if t.size > 0 then
      if t.left.Nil? then Some(t.value.value.item)
      else
        LeftValid(t);
        SizeCounts(t.left, None, None);
        GetWorst(t.left)
    else None
  }

  /** `getBest()`: the last entry, or none in an empty tree. */
  function GetBest<T>(t: Tree<T>): (r: Option<T>)
    requires t.Node? && Valid(t)
    ensures Items(t) != [] ==> r == Some(Items(t)[|Items(t)| - 1].item)
    ensures Items(t) == [] ==> r.None?
    decreases t
  {
    SizeCounts(t, None, None);
    if t.size > 0 then
      if t.right.Nil? then Some(t.value.value.item)
      else
        RightValid(t);
        SizeCounts(t.right, None, None);
        GetBest(t.right)
    else None
  }

  /** `get2Best()`: the next-to-last entry, or none in a tree of fewer than two. */
  function Get2Best<T>(t: Tree<T>): (r: Option<T>)
    requires t.Node? && Valid(t)
    ensures |Items(t)| > 1 ==> r == Some(Items(t)[|Items(t)| - 2].item)
    ensures |Items(t)| <= 1 ==> r.None?
    decreases t
  {
    SizeCounts(t, None, None);
    if t.size > 1 then
      if t.right.Node? then
        RightValid(t);
        SizeCounts(t.right, None, None);
        if t.right.size > 1 then Get2Best(t.right)
        else
          assert Items(t) == Items(t.left) + ([t.value.value] + Items(t.right));
          Some(t.value.value.item)
      else
        LeftValid(t);
        SizeCounts(t.left, None, None);
        GetBest(t.left)
    else None
  }

  /** The entry `getBest` returns has the lowest evaluation in the pool. */
  lemma BestIsLowest<T>(t: Tree<T>)
    requires t.Node? && Valid(t) && Items(t) != []
    ensures var s := Items(t);
      GetBest(t) == Some(s[|s| - 1].item) && forall y :: y in s ==> s[|s| - 1].eval <= y.eval
  {
    ItemsWorstFirst(t, None, None);
  }

  /** The entry `getWorst` returns has the highest evaluation in the pool. */
  lemma WorstIsHighest<T>(t: Tree<T>)
    requires t.Node? && Valid(t) && Items(t) != []
    ensures var s := Items(t);
      GetWorst(t) == Some(s[0].item) && forall y :: y in s ==> y.eval <= s[0].eval
  {
    ItemsWorstFirst(t, None, None);
  }

  /** The entry `get2Best` returns is beaten by no entry but the best one. */
  lemma SecondBestIsNext<T>(t: Tree<T>)
    requires t.Node? && Valid(t) && |Items(t)| > 1
    ensures var s := Items(t);
      Get2Best(t) == Some(s[|s| - 2].item) && forall i :: 0 <= i < |s| - 1 ==> s[|s| - 2].eval <= s[i].eval
  {
    ItemsWorstFirst(t, None, None);
  }

  /** `remove` keeps the best entries: everything it keeps is no worse than anything it dropped. */
  lemma RemoveKeepsBest<T>(t: Tree<T>, amount: int)
    requires t.Node? && Valid(t)
    ensures var kept := Items(Remove(t, amount));
      multiset(kept) <= multiset(Items(t))
      && forall x, y :: x in kept && y in Items(t) && y !in kept ==> x.eval <= y.eval
  {
    ItemsWorstFirst(t, None, None);
    DropWorstKeeps(Items(t), amount);
  }

  /** The items a sequence of entries holds, regardless of evaluation. */
  ghost function ItemSet<T>(s: seq<Ranked<T>>): set<T> {
    set r | r in s :: r.item
  }

  /** `add` puts exactly the new item among the items held. */
  lemma InsertItems<T>(s: seq<Ranked<T>>, x: Ranked<T>)
    ensures ItemSet(Insert(s, x)) == ItemSet(s) + {x.item}
  {
    var r := Insert(s, x);
    forall y | y in ItemSet(r) ensures y in ItemSet(s) + {x.item} {
      var e :| e in r && e.item == y;
      assert e in multiset(r);
    }
    forall y | y in ItemSet(s) ensures y in ItemSet(r) {
      var e :| e in s && e.item == y;
      assert e in multiset(r);
    }
    assert x in multiset(r);
  }

  /** `remove` only drops items. */
  lemma DropItems<T>(s: seq<Ranked<T>>, amount: int)
    ensures ItemSet(DropWorst(s, amount)) <= ItemSet(s)
  {
    DropWorstWithin(s, amount);
  }

  /** The size a valid tree reports is its number of entries. */
  lemma SizeIsEntries<T>(t: Tree<T>)
    requires t.Node? && Valid(t)
    ensures t.size == |Items(t)|
  {
    SizeCounts(t, None, None);
  }
}
