/** Hash-consing (`shape` and `intern`, packages/cas/src/differentiate.ts): the table of structural ids as values. */
module Interning {
  import opened Rationals
  import opened Trees
  import opened DualNumbers

  /** `shape`'s key: a leaf's text, or an operator over the ids of its operands. */
  datatype Key =
    | NumberKey(q: Rational, spelling: nat)
    | NameKey(name: nat)
    | NegationKey(arg: nat)
    | FactorialKey(arg: nat)
    | BinaryKey(op: Op, left: nat, right: nat)
    | CallKey(fn: Fn, args: seq<nat>)

  /** The key's operands are ids handed out before n. */
  predicate Below(k: Key, n: nat) {
    match k
    case NumberKey(_, _) => true
    case NameKey(_) => true
    case NegationKey(a) => a < n
    case FactorialKey(a) => a < n
    case BinaryKey(_, a, b) => a < n && b < n
    case CallKey(_, args) => forall i :: 0 <= i < |args| ==> args[i] < n
  }

  /** The tree that a key stands for, given the trees of its operands. */
  function TreeOf(k: Key, trees: seq<Node>): Node
    requires Below(k, |trees|)
  {
    match k
    case NumberKey(q, s) => Number(q, s)
    case NameKey(x) => Name(x)
    case NegationKey(a) => Unary(true, trees[a])
    case FactorialKey(a) => Factorial(trees[a])
    case BinaryKey(op, a, b) => Binary(op, trees[a], trees[b])
    case CallKey(fn, args) => Call(fn, seq(|args|, i requires 0 <= i < |args| => trees[args[i]]))
  }

  ghost predicate Different(trees: seq<Node>) { forall i, j :: 0 <= i < j < |trees| ==> trees[i] != trees[j] }

  /** Over different trees, different keys stand for different trees. */
  lemma TreeOfInjective(k: Key, l: Key, trees: seq<Node>)
    requires Different(trees) && Below(k, |trees|) && Below(l, |trees|) && TreeOf(k, trees) == TreeOf(l, trees)
    ensures k == l
  {
    if k.CallKey? && l.CallKey? {
      var t, u := TreeOf(k, trees), TreeOf(l, trees);
      assert |t.args| == |k.args| && |u.args| == |l.args|;
      forall i | 0 <= i < |k.args| ensures k.args[i] == l.args[i] {
        assert t.args[i] == trees[k.args[i]] && u.args[i] == trees[l.args[i]];
      }
    }
  }

  /** The table: `keys[i]` is the key with id i, and `trees[i]` the erased tree it stands for. */
  ghost predicate IdTable(ids: map<Key, nat>, keys: seq<Key>, trees: seq<Node>) {
    && |keys| == |trees|
    && (forall k :: k in ids ==> ids[k] < |keys| && keys[ids[k]] == k)
    && (forall i :: 0 <= i < |keys| ==> keys[i] in ids && ids[keys[i]] == i)
    && (forall i :: 0 <= i < |keys| ==> Below(keys[i], i) && Below(keys[i], |keys|) && trees[i] == TreeOf(keys[i], trees))
    && Different(trees)
  }

  /** A new key stands for a new tree. */
  lemma NewTree(ids: map<Key, nat>, keys: seq<Key>, trees: seq<Node>, k: Key, i: nat)
    requires IdTable(ids, keys, trees) && Below(k, |keys|) && k !in ids && i < |trees|
    ensures trees[i] != TreeOf(k, trees)
  {
    if trees[i] == TreeOf(k, trees) { TreeOfInjective(keys[i], k, trees); }
  }

  lemma Grows(ids: map<Key, nat>, keys: seq<Key>, trees: seq<Node>, k: Key)
    requires IdTable(ids, keys, trees) && Below(k, |keys|) && k !in ids
    ensures IdTable(ids[k := |keys|], keys + [k], trees + [TreeOf(k, trees)])
  {
    var t := TreeOf(k, trees);
    var more, all := trees + [t], keys + [k];
    forall i | 0 <= i < |all| ensures Below(all[i], i) && Below(all[i], |all|) && more[i] == TreeOf(all[i], more) {
      hide TreeOf, Different;
      if i < |keys| {
        assert all[i] == keys[i] && more[i] == trees[i];
      }
    }
    hide TreeOf;
    forall i, j | 0 <= i < j < |more| ensures more[i] != more[j] {
      if j == |trees| { NewTree(ids, keys, trees, k, i); }
    }
  }

  /** Ids tell erased trees apart exactly. */
  lemma IdsAreExact(ids: map<Key, nat>, keys: seq<Key>, trees: seq<Node>, i: nat, j: nat)
    requires IdTable(ids, keys, trees) && i < |trees| && j < |trees|
    ensures i == j <==> trees[i] == trees[j]
  {}

  // ---- keys of nodes ----

  /** A key over the ids of a call's erased arguments stands for the erased call. */
  lemma CallTree(n: Node, args: seq<nat>, trees: seq<Node>)
    requires n.Call? && |args| == |n.args|
    requires forall i :: 0 <= i < |args| ==> args[i] < |trees| && trees[args[i]] == Erase(n.args[i])
    ensures TreeOf(CallKey(n.fn, args), trees) == Erase(n)
  {
    var t := TreeOf(CallKey(n.fn, args), trees);
    var e := seq(|n.args|, i requires 0 <= i < |n.args| => Erase(n.args[i]));
    assert t.args == e;
  }

  lemma CallVaries(fn: Fn, args: seq<nat>, trees: seq<Node>, varying: seq<bool>, x: nat)
    requires |varying| == |trees| && forall i :: 0 <= i < |trees| ==> varying[i] == Varies(trees[i], x)
    requires forall i :: 0 <= i < |args| ==> args[i] < |trees|
    ensures Varies(TreeOf(CallKey(fn, args), trees), x) == exists i :: 0 <= i < |args| && varying[args[i]]
  {
    var t := TreeOf(CallKey(fn, args), trees);
    assert forall i :: 0 <= i < |args| ==> t.args[i] == trees[args[i]];
  }
}
