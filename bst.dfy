/** bst.go: `BSTMap`, an ordered map from int keys to values kept as a
    binary search tree. The tree is a value held in the map's `root` field;
    `Insert` rebuilds the spine it walks down, which is what the pointer
    writes of `insertNode` amount to for a tree without sharing. */
module Bst {
  import opened Wrappers

  datatype Tree<V> = Nil | Node(left: Tree<V>, key: int, value: V, right: Tree<V>)

  /** One key/value pair, as `InOrder` passes it to `f` and `Range` returns it. */
  datatype Entry<V> = Entry(key: int, value: V)

  function Keys<V>(t: Tree<V>): set<int> {
    match t
    case Nil => {}
    case Node(l, k, _, r) => Keys(l) + {k} + Keys(r)
  }

  function Size<V>(t: Tree<V>): nat {
    match t
    case Nil => 0
    case Node(l, _, _, r) => Size(l) + 1 + Size(r)
  }

  /** Left-subtree keys are below the node key, right-subtree keys above it. */
  ghost predicate IsBst<V>(t: Tree<V>) {
    match t
    case Nil => true
    case Node(l, k, _, r) =>
      && IsBst(l) && IsBst(r)
      && (forall x :: x in Keys(l) ==> x < k)
      && (forall x :: x in Keys(r) ==> k < x)
  }

  /** The map a tree stands for. */
  ghost function Contents<V>(t: Tree<V>): map<int, V> {
    match t
    case Nil => map[]
    case Node(l, k, v, r) => (Contents(l) + Contents(r))[k := v]
  }

  lemma {:induction false} ContentsKeys<V>(t: Tree<V>)
    ensures Contents(t).Keys == Keys(t)
  {
    match t
    case Nil =>
    case Node(l, _, _, r) => ContentsKeys(l); ContentsKeys(r);
  }

  lemma {:induction false} SizeIsKeyCount<V>(t: Tree<V>)
    requires IsBst(t)
    ensures Size(t) == |Keys(t)|
  {
    match t
    case Nil =>
    case Node(l, k, _, r) =>
      SizeIsKeyCount(l);
      SizeIsKeyCount(r);
      forall x | x in Keys(l) ensures x !in Keys(r) && x != k {
      }
      assert k !in Keys(r);
      assert Keys(l) !! {k};
      assert |Keys(l) + {k}| == |Keys(l)| + 1;
      assert (Keys(l) + {k}) !! Keys(r);
  }

  /** What the search of a node finds: a key below the node key lives on the
      left, above it on the right. */
  lemma ContentsOfNode<V>(t: Tree<V>, x: int)
    requires IsBst(t) && t.Node?
    ensures x < t.key ==> (x in Contents(t) <==> x in Contents(t.left))
                          && (x in Contents(t.left) ==> Contents(t)[x] == Contents(t.left)[x])
    ensures x > t.key ==> (x in Contents(t) <==> x in Contents(t.right))
                          && (x in Contents(t.right) ==> Contents(t)[x] == Contents(t.right)[x])
    ensures t.key in Contents(t) && Contents(t)[t.key] == t.value
  {
    ContentsKeys(t.left);
    ContentsKeys(t.right);
  }

  /** `insertNode`: a new leaf at the empty spot, or the value of an equal key replaced. */
  function InsertNode<V>(t: Tree<V>, key: int, value: V): (r: Tree<V>)
    requires IsBst(t)
    ensures IsBst(r)
    ensures Keys(r) == Keys(t) + {key}
    ensures Contents(r) == Contents(t)[key := value]
  {
    match t
    case Nil => Node(Nil, key, value, Nil)
    case Node(l, k, v, rt) =>
      if key < k then
        ContentsKeys(rt);
        UpdateBelow(Contents(l), Contents(rt), k, v, key, value);
        Node(InsertNode(l, key, value), k, v, rt)
      else if key > k then
        UpdateAbove(Contents(l), Contents(rt), k, v, key, value);
        Node(l, k, v, InsertNode(rt, key, value))
      else
        Node(l, k, value, rt)
  }

  lemma UpdateBelow<V>(a: map<int, V>, b: map<int, V>, k: int, v: V, key: int, value: V)
    requires key != k && key !in b
    ensures (a[key := value] + b)[k := v] == (a + b)[k := v][key := value]
  {
  }

  lemma UpdateAbove<V>(a: map<int, V>, b: map<int, V>, k: int, v: V, key: int, value: V)
    requires key != k
    ensures (a + b[key := value])[k := v] == (a + b)[k := v][key := value]
  {
  }

  /** Inserting a present key adds no node; an absent one adds exactly one. */
  lemma InsertNodeSize<V>(t: Tree<V>, key: int, value: V)
    requires IsBst(t)
    ensures key in Keys(t) ==> Size(InsertNode(t, key, value)) == Size(t)
    ensures key !in Keys(t) ==> Size(InsertNode(t, key, value)) == Size(t) + 1
  {
    SizeIsKeyCount(t);
    SizeIsKeyCount(InsertNode(t, key, value));
  }

  /** After inserting `(key, value)`, looking up `key` finds `value` and every
      other key finds what it found before. */
  lemma GetAfterInsert<V>(t: Tree<V>, key: int, value: V, other: int)
    requires IsBst(t) && other != key
    ensures key in Contents(InsertNode(t, key, value))
    ensures Contents(InsertNode(t, key, value))[key] == value
    ensures other in Contents(InsertNode(t, key, value)) <==> other in Contents(t)
    ensures other in Contents(t) ==> Contents(InsertNode(t, key, value))[other] == Contents(t)[other]
  {
  }

  /** `inOrderNode`: the calls `f(key, value)` in the order they are made. */
  function InOrderNode<V>(t: Tree<V>): seq<Entry<V>> {
    match t
    case Nil => []
    case Node(l, k, v, r) => InOrderNode(l) + [Entry(k, v)] + InOrderNode(r)
  }

  ghost predicate StrictlyAscending<V>(s: seq<Entry<V>>) {
    forall i, j :: 0 <= i < j < |s| ==> s[i].key < s[j].key
  }

  /** Every call of `f` is for a key of the tree, the calls ascend strictly,
      and there is one call per node. */
  lemma {:induction false} InOrderAscending<V>(t: Tree<V>)
    requires IsBst(t)
    ensures StrictlyAscending(InOrderNode(t))
    ensures |InOrderNode(t)| == Size(t)
    ensures forall i :: 0 <= i < |InOrderNode(t)| ==> InOrderNode(t)[i].key in Keys(t)
  {
    match t
    case Nil =>
    case Node(l, k, v, r) =>
      InOrderAscending(l);
      InOrderAscending(r);
      var sl, sr := InOrderNode(l), InOrderNode(r);
      var s := sl + [Entry(k, v)] + sr;
      assert InOrderNode(t) == s;
      forall i | 0 <= i < |s| ensures s[i].key in Keys(t) && (i < |sl| ==> s[i].key < k)
                                      && (i > |sl| ==> s[i].key > k) && (i == |sl| ==> s[i].key == k)
      {
        if i < |sl| {
          assert s[i] == sl[i];
        } else if i > |sl| {
          assert s[i] == sr[i - |sl| - 1];
        }
      }
      forall i, j | 0 <= i < j < |s| ensures s[i].key < s[j].key {
        if j < |sl| {
          assert s[i] == sl[i] && s[j] == sl[j];
        } else if i > |sl| {
          assert s[i] == sr[i - |sl| - 1] && s[j] == sr[j - |sl| - 1];
        }
      }
  }

  /** `f` is called with `(key, value)` exactly when the tree maps `key` to `value`. */
  lemma {:induction false} InOrderMembers<V>(t: Tree<V>, e: Entry<V>)
    requires IsBst(t)
    ensures e in InOrderNode(t) <==> e.key in Contents(t) && Contents(t)[e.key] == e.value
  {
    match t
    case Nil =>
    case Node(l, k, v, r) =>
      InOrderMembers(l, e);
      InOrderMembers(r, e);
      ContentsKeys(l);
      ContentsKeys(r);
      assert e in InOrderNode(t) <==> e in InOrderNode(l) || e == Entry(k, v) || e in InOrderNode(r);
  }

  /** The entries of `s` whose key lies in `[low, high]`, in their order. */
  function InRange<V>(s: seq<Entry<V>>, low: int, high: int): (r: seq<Entry<V>>)
  {
    if s == [] then []
    else (if low <= s[0].key <= high then [s[0]] else []) + InRange(s[1..], low, high)
  }

  lemma {:induction false} InRangeConcat<V>(a: seq<Entry<V>>, b: seq<Entry<V>>, low: int, high: int)
    ensures InRange(a + b, low, high) == InRange(a, low, high) + InRange(b, low, high)
  {
    if a == [] {
      assert a + b == b;
    } else {
      assert (a + b)[1..] == a[1..] + b;
      InRangeConcat(a[1..], b, low, high);
    }
  }

  lemma {:induction false} InRangeNone<V>(s: seq<Entry<V>>, low: int, high: int)
    requires forall i :: 0 <= i < |s| ==> s[i].key < low || s[i].key > high
    ensures InRange(s, low, high) == []
  {
    if s != [] {
      InRangeNone(s[1..], low, high);
    }
  }

  /** `rangeNode`: skips the left subtree when the node key is at most `low`
      and the right one when it is at least `high`. */
  function RangeNode<V>(t: Tree<V>, low: int, high: int): seq<Entry<V>> {
    match t
    case Nil => []
    case Node(l, k, v, r) =>
      (if k > low then RangeNode(l, low, high) else [])
      + (if low <= k <= high then [Entry(k, v)] else [])
      + (if k < high then RangeNode(r, low, high) else [])
  }

  /** The pruned walk returns exactly the in-order entries with
      `low <= key <= high`. */
  lemma {:induction false} RangeIsInOrderFiltered<V>(t: Tree<V>, low: int, high: int)
    requires IsBst(t)
    ensures RangeNode(t, low, high) == InRange(InOrderNode(t), low, high)
  {
    match t
    case Nil =>
    case Node(l, k, v, r) =>
      RangeIsInOrderFiltered(l, low, high);
      RangeIsInOrderFiltered(r, low, high);
      var sl, sr := InOrderNode(l), InOrderNode(r);
      InRangeConcat(sl + [Entry(k, v)], sr, low, high);
      InRangeConcat(sl, [Entry(k, v)], low, high);
      assert InRange([Entry(k, v)], low, high) == if low <= k <= high then [Entry(k, v)] else [];
      if k <= low {
        InOrderAscending(l);
        InRangeNone(sl, low, high);
      }
      if k >= high {
        InOrderAscending(r);
        InRangeNone(sr, low, high);
      }
  }

  /** `Range(low, high)` with `low > high` returns nothing. */
  lemma EmptyRange<V>(t: Tree<V>, low: int, high: int)
    requires IsBst(t) && low > high
    ensures RangeNode(t, low, high) == []
  {
    RangeIsInOrderFiltered(t, low, high);
    InRangeNone(InOrderNode(t), low, high);
  }

  /** Membership in a range result: exactly the stored pairs within bounds. */
  lemma RangeMembers<V>(t: Tree<V>, low: int, high: int, e: Entry<V>)
    requires IsBst(t)
    ensures e in RangeNode(t, low, high)
            <==> low <= e.key <= high && e.key in Contents(t) && Contents(t)[e.key] == e.value
  {
    RangeIsInOrderFiltered(t, low, high);
    InOrderMembers(t, e);
    InRangeMembers(InOrderNode(t), low, high, e);
  }

  lemma {:induction false} InRangeMembers<V>(s: seq<Entry<V>>, low: int, high: int, e: Entry<V>)
    ensures e in InRange(s, low, high) <==> e in s && low <= e.key <= high
  {
    if s != [] {
      InRangeMembers(s[1..], low, high, e);
      assert s == [s[0]] + s[1..];
    }
  }

  class BSTMap<V> {
    var root: Tree<V>

    ghost predicate Valid()
      reads this
    {
      IsBst(root)
    }

    constructor ()
      ensures Valid() && root == Nil
    {
      root := Nil;
    }

    /** Inserts or updates a key/value pair. */
    method Insert(key: int, value: V)
      requires Valid()
      modifies this
      ensures Valid()
      ensures Contents(root) == old(Contents(root))[key := value]
      ensures Keys(root) == old(Keys(root)) + {key}
      ensures root == InsertNode(old(root), key, value)
    {
      root := InsertNode(root, key, value);
    }

    /** The value stored under `key` (`(v, true)`), or `None` (`(zero, false)`). */
    method Get(key: int) returns (r: Option<V>)
      requires Valid()
      ensures r.Some? <==> key in Contents(root)
      ensures r.Some? ==> r.value == Contents(root)[key]
    {
      var node := root;
      while node.Node?
        invariant IsBst(node)
        invariant key in Contents(root) <==> key in Contents(node)
        invariant key in Contents(node) ==> Contents(node)[key] == Contents(root)[key]
        decreases Size(node)
      {
        ContentsOfNode(node, key);
        if key == node.key {
          return Some(node.value);
        } else if key < node.key {
          node := node.left;
        } else {
          node := node.right;
        }
      }
      r := None;
    }

    /** The sequence of calls `InOrder(f)` makes. */
    method InOrder() returns (calls: seq<Entry<V>>)
      requires Valid()
      ensures StrictlyAscending(calls)
      ensures |calls| == Size(root)
      ensures forall e :: e in calls <==> e.key in Contents(root) && Contents(root)[e.key] == e.value
    {
      calls := InOrderNode(root);
      InOrderAscending(root);
      forall e ensures e in calls <==> e.key in Contents(root) && Contents(root)[e.key] == e.value {
        InOrderMembers(root, e);
      }
    }

    /** All pairs with `low <= key <= high`, in ascending key order. */
    method Range(low: int, high: int) returns (result: seq<Entry<V>>)
      requires Valid()
      ensures result == InRange(InOrderNode(root), low, high)
      ensures StrictlyAscending(result)
      ensures forall e :: e in result
                <==> low <= e.key <= high && e.key in Contents(root) && Contents(root)[e.key] == e.value
    {
      result := RangeNode(root, low, high);
      RangeIsInOrderFiltered(root, low, high);
      InOrderAscending(root);
      InRangeAscending(InOrderNode(root), low, high);
      forall e ensures e in result
                <==> low <= e.key <= high && e.key in Contents(root) && Contents(root)[e.key] == e.value
      {
        RangeMembers(root, low, high, e);
      }
    }
  }

  lemma {:induction false} InRangeAscending<V>(s: seq<Entry<V>>, low: int, high: int)
    requires StrictlyAscending(s)
    ensures StrictlyAscending(InRange(s, low, high))
    ensures forall e :: e in InRange(s, low, high) ==> e in s
  {
    if s != [] {
      InRangeAscending(s[1..], low, high);
      forall e | e in InRange(s[1..], low, high) ensures s[0].key < e.key {
        var j :| 0 <= j < |s[1..]| && s[1..][j] == e;
        assert s[j + 1] == e;
      }
    }
  }
}
