/**
  The trie of src/primer/trie.cpp over heap objects. A `TrieNode` object
  owns a map from characters to child objects; children are shared between
  versions and are never written once reachable from a published `Trie`.
  `Put` and `Remove` clone the nodes on the key's path and write only into
  those clones, which is why neither has a `modifies` clause.

  Each node carries two ghost fields: `model`, the abstract value of the
  subtree it roots (a `TrieSpec.Node`), and `repr`, the objects that
  subtree may reach. `Valid()` ties them to the real fields.

  The ghost members `Sound`, `Covers`, `Snapshot`, `Chain`, `Walking`,
  `Sealable`, `SealStep`, `SealLevel` and `Seal` are proof bookkeeping and
  model no line of the source: they record the receiver's nodes and the
  clones made so far, and bring the clones' ghost fields up to date once
  the walk is over.
*/
module TrieImpl {
  import opened Wrappers
  import opened TrieSpec

  class TrieNode {
    var children: map<char, TrieNode>
    var isValue: bool
    var val: Option<Value>
    ghost var model: Node
    ghost var repr: set<object>

    ghost predicate Valid()
      reads this, repr
      decreases repr
    {
      && this in repr
      && model.isValue == isValue && model.val == val
      && model.children.Keys == children.Keys
      && forall c :: c in children ==>
           && children[c] in repr && children[c].repr <= repr && this !in children[c].repr
           && children[c].Valid() && children[c].model == model.children[c]
    }

    /** A plain `TrieNode` with no children: the root of the empty trie. */
    constructor Plain()
      ensures Valid() && model == Empty && repr == {this}
    {
      children, isValue, val := map[], false, None;
      model, repr := Empty, {this};
    }

    /** `TrieNodeWithValue<T>(value)`: a childless node whose flag is set and which holds `v`. */
    constructor WithValue(v: Value)
      ensures Valid() && model == Leaf(v) && repr == {this}
    {
      children, isValue, val := map[], true, Some(v);
      model, repr := Leaf(v), {this};
    }

    constructor Copy(from: TrieNode)
      ensures children == from.children && isValue == from.isValue && val == from.val
    {
      children, isValue, val := from.children, from.isValue, from.val;
    }

    /** `Clone()`: a fresh node with the same flag, the same value and a copy of the children map. */
    method Clone() returns (n: TrieNode)
      requires Valid()
      ensures fresh(n) && n.Valid() && n.model == model && n.repr == {n} + repr
      ensures n.children == children && n.isValue == isValue && n.val == val
    {
      n := new TrieNode.Copy(this);
      n.model, n.repr := model, {n} + repr;
    }

    /**
      The cursor step of `Put` and `Remove` along an existing value edge:
      clone the child under `c`, hang the clone in its place in this clone
      and return it as the new cursor.
    */
    method GraftClone(c: char, ghost Olds: map<TrieNode, Node>, ghost R0: set<object>) returns (next: TrieNode)
      requires Valid() && repr <= {this} + R0 && this !in R0 && Covers(Olds, R0)
      requires c in children && children[c].isValue
      modifies this
      ensures fresh(next) && next.Valid() && next.repr <= {next} + R0
      ensures Linked(this, c, next, Olds) && model == old(model)
      ensures Step(model, c) == Some(next.model)
    {
      KnownChildren(this, Olds, R0);
      StepMatches(this, c);
      var child := children[c];
      next := child.Clone();
      children := children[c := next];
    }

    /**
      The cursor step of `Put` where the edge under `c` is missing or leads
      to a non-value node: hang a fresh node holding `v` there and return it
      as the new cursor.
    */
    method GraftLeaf(c: char, v: Value, ghost Olds: map<TrieNode, Node>, ghost R0: set<object>) returns (next: TrieNode)
      requires Valid() && repr <= {this} + R0 && this !in R0 && Covers(Olds, R0)
      requires !(c in children && children[c].isValue)
      modifies this
      ensures fresh(next) && next.Valid() && next.repr == {next} && next.children == map[]
      ensures Linked(this, c, next, Olds) && model == old(model)
      ensures Step(model, c) == None && next.model == Leaf(v)
    {
      KnownChildren(this, Olds, R0);
      StepMatches(this, c);
      next := new TrieNode.WithValue(v);
      children := children[c := next];
    }

    /**
      The body of the loop of `Put` on this clone: follow the edge under `c`
      by cloning the value node it leads to, or, when the edge is missing or
      leads to a non-value node, hang there a fresh node into which `v` is
      moved. Returns the new cursor and what is left of `v`.
    */
    method PutDescend(c: char, v: Value, ghost Olds: map<TrieNode, Node>, ghost R0: set<object>)
      returns (next: TrieNode, left: Value)
      requires Valid() && repr <= {this} + R0 && this !in R0 && Covers(Olds, R0)
      modifies this
      ensures fresh(next) && next.Valid() && next.repr <= {next} + R0
      ensures Linked(this, c, next, Olds) && model == old(model)
      ensures next.model == match Step(model, c) case Some(m) => m case None => Leaf(v)
      ensures left == if Step(model, c).Some? then v else MovedFrom(v)
    {
      if c in children && children[c].isValue {
        next := GraftClone(c, Olds, R0);
        left := v;
      } else {
        next := GraftLeaf(c, v, Olds, R0);
        left := MovedFrom(v);
      }
    }

    /** `Clone()` followed by clearing the flag of the clone. */
    method ClearedClone() returns (n: TrieNode)
      requires Valid()
      ensures fresh(n) && n.Valid() && n.model == model.(isValue := false) && n.repr == {n} + repr
      ensures n.children == children && !n.isValue && n.val == val
    {
      n := Clone();
      n.isValue := false;
      n.model := n.model.(isValue := false);
    }

    /**
      The last step of `Trie::Remove` on the clone the cursor stands on: if
      the edge under `c` leads to a value node, erase the edge when that
      node has no children, and otherwise hang under `c` a clone of it with
      the flag cleared.
    */
    method Unset(c: char, ghost Others: set<object>)
      requires Valid() && repr !! Others
      modifies this
      ensures Valid() && model == RemoveLast(old(model), c) && repr !! Others
    {
      if c in children && children[c].isValue {
        var child := children[c];
        assert child.Valid() && child.model == model.children[c];
        if child.children == map[] {
          EraseChild(c);
          assert repr !! Others;
        } else {
          var newChild := child.ClearedClone();
          ghost var before := repr;
          assert newChild.repr == {newChild} + child.repr && child.repr <= before && newChild !in Others;
          SetChild(c, newChild);
          assert repr == before + {newChild} + child.repr;
          assert repr !! Others;
        }
      }
    }

    /** `children_.erase(c)` on a valid node. */
    method EraseChild(c: char)
      requires Valid()
      modifies this
      ensures Valid() && model == old(model).(children := old(model).children - {c}) && repr == old(repr)
    {
      children := children - {c};
      model := model.(children := model.children - {c});
      forall d | d in children
        ensures && children[d] in repr && children[d].repr <= repr && this !in children[d].repr
                && children[d].Valid() && children[d].model == model.children[d]
      {
        NodeUntouched(children[d]);
      }
    }

    /** `children_[c] = n` on a valid node, for a valid `n` that does not reach it. */
    method SetChild(c: char, n: TrieNode)
      requires Valid() && n.Valid() && this !in n.repr
      modifies this
      ensures Valid() && model == old(model).(children := old(model).children[c := n.model]) && repr == old(repr) + n.repr
    {
      children := children[c := n];
      model := model.(children := model.children[c := n.model]);
      repr := repr + n.repr;
      forall d | d in children
        ensures && children[d] in repr && children[d].repr <= repr && this !in children[d].repr
                && children[d].Valid() && children[d].model == model.children[d]
      {
        NodeUntouched(children[d]);
      }
    }
  }

  /** A node none of whose subtree was written is still valid and has the same abstract value. */
  twostate lemma NodeUntouched(x: TrieNode)
    requires old(x.Valid()) && unchanged(old(x.repr))
    ensures x.Valid() && x.model == old(x.model)
  {
  }

  /** On a valid node, the hop of the cursor loops agrees with `Step` on the abstract value. */
  lemma StepMatches(n: TrieNode, c: char)
    requires n.Valid()
    ensures Step(n.model, c) == if c in n.children && n.children[c].isValue then Some(n.children[c].model) else None
  {
    if c in n.children {
      assert n.children[c].Valid();
    }
  }

  /** The children of a clone the walk stands on are nodes of the receiver, recorded in `Olds` with their abstract values. */
  lemma KnownChildren(p: TrieNode, Olds: map<TrieNode, Node>, R0: set<object>)
    requires p.Valid() && p.repr <= {p} + R0 && Covers(Olds, R0)
    ensures forall d :: d in p.children ==> p.children[d] in Olds && Olds[p.children[d]] == p.model.children[d]
  {
    forall d | d in p.children
      ensures p.children[d] in Olds && Olds[p.children[d]] == p.model.children[d]
    {
      var x := p.children[d];
      assert x in R0 && x.repr <= R0 && x.Valid();
    }
  }

  /**
    The receiver's nodes as seen by `Put` and `Remove`, with their abstract
    values: every node in `Olds` lies in `R0` with its whole subtree, is
    valid, and has the abstract value `Olds` records. Nothing in `R0` is
    ever written.
  */
  ghost predicate Sound(Olds: map<TrieNode, Node>, R0: set<object>)
    reads R0
  {
    forall o :: o in Olds ==> o in R0 && o.repr <= R0 && o.Valid() && o.model == Olds[o]
  }

  /** Every valid node whose subtree lies in `R0` is one of `Olds`. */
  ghost predicate Covers(Olds: map<TrieNode, Node>, R0: set<object>)
    reads R0
  {
    forall o: TrieNode {:trigger o in Olds} :: o in R0 && o.repr <= R0 && o.Valid() ==> o in Olds && Olds[o] == o.model
  }

  /** All valid nodes whose subtree lies in `R0`, with their abstract values. */
  ghost method Snapshot(R0: set<object>) returns (Olds: map<TrieNode, Node>)
    ensures Sound(Olds, R0) && Covers(Olds, R0)
  {
    Olds := map o: TrieNode | o in R0 && o.repr <= R0 && o.Valid() :: o.model;
  }

  /**
    The clone `p` has had its child under `c` replaced by `q`; every other
    edge still leads to a node of the receiver's trie whose abstract value
    is the one `p.model` records.
  */
  ghost predicate Linked(p: TrieNode, c: char, q: TrieNode, Olds: map<TrieNode, Node>)
    reads p
  {
    && p.children.Keys == p.model.children.Keys + {c}
    && c in p.children && p.children[c] == q
    && p.isValue == p.model.isValue && p.val == p.model.val
    && forall d :: d in p.children && d != c ==>
         p.children[d] in Olds && Olds[p.children[d]] == p.model.children[d]
  }

  /**
    The abstract root rebuilt from the abstract values `frames[j..]` of the
    path clones, top first, each getting the next one (finally `sub`) under
    the character of `ks` at its position.
  */
  function Graft(frames: seq<Node>, ks: string, j: nat, sub: Node): Node
    requires j <= |frames| <= |ks|
    decreases |frames| - j
  {
    if j == |frames| then sub
    else frames[j].(children := frames[j].children[ks[j] := Graft(frames, ks, j + 1, sub)])
  }

  /** `Graft` under an outcome of `Remove`: a failed walk stays failed. */
  function Regraft(frames: seq<Node>, ks: string, r: Option<Node>): Option<Node>
    requires |frames| <= |ks|
  {
    match r
    case None => None
    case Some(sub) => Some(Graft(frames, ks, 0, sub))
  }

  /** Extending the path by one clone at the bottom is grafting one level deeper. */
  lemma {:induction false} GraftSnoc(frames: seq<Node>, ks: string, j: nat, f: Node, sub: Node)
    requires j <= |frames| < |ks|
    ensures Graft(frames + [f], ks, j, sub) == Graft(frames, ks, j, f.(children := f.children[ks[|frames|] := sub]))
    decreases |frames| - j
  {
    if j < |frames| {
      GraftSnoc(frames, ks, j + 1, f, sub);
    }
  }

  /** The abstract side of one cursor step of `Put`. */
  lemma PutCursorStep(frames: seq<Node>, key: string, i: nat, frame: Node, next: Node, value: Value, left: Value)
    requires |frames| == i < |key|
    requires next == match Step(frame, key[i]) case Some(m) => m case None => Leaf(value)
    requires left == if Step(frame, key[i]).Some? then value else MovedFrom(value)
    ensures Graft(frames, key, 0, PutF(frame, key[i..], value)) == Graft(frames + [frame], key, 0, PutF(next, key[i + 1..], left))
  {
    assert key[i..][0] == key[i] && key[i..][1..] == key[i + 1..];
    GraftSnoc(frames, key, 0, frame, PutF(next, key[i + 1..], left));
  }

  /** The abstract side of one cursor step of `Remove` before the last character. */
  lemma RemoveCursorStep(frames: seq<Node>, key: string, i: nat, frame: Node, next: Node)
    requires |frames| == i < |key| - 1
    requires Step(frame, key[i]) == Some(next)
    ensures Regraft(frames, key, RemoveF(frame, key[i..])) == Regraft(frames + [frame], key, RemoveF(next, key[i + 1..]))
  {
    assert key[i..][0] == key[i] && key[i..][1..] == key[i + 1..];
    if RemoveF(next, key[i + 1..]).Some? {
      GraftSnoc(frames, key, 0, frame, RemoveF(next, key[i + 1..]).value);
    }
  }

  /**
    The clones made by the walk of `Put` and `Remove` after the characters
    `ks[..|frames|]`: `path` holds them, top first; all but the last, the
    cursor, are among the objects `Made`, which the receiver does not
    reach; each of those has its abstract value in `frames` and is linked
    to the next one under the character of `ks` at its position.
  */
  ghost predicate Chain(path: seq<TrieNode>, frames: seq<Node>, ks: string,
                        Made: set<object>, Olds: map<TrieNode, Node>, R0: set<object>)
    reads Made
  {
    && |path| == |frames| + 1 && |frames| <= |ks|
    && Made !! R0 && path[|frames|] !in R0 && path[|frames|] !in Made
    && (forall j :: 0 <= j < |frames| ==> path[j] in Made)
    && (forall j, k :: 0 <= j < k < |path| ==> path[j] != path[k])
    && (forall j :: 0 <= j < |frames| ==> path[j].model == frames[j] && Linked(path[j], ks[j], path[j + 1], Olds))
  }

  /** Hanging `next` under the cursor of a chain makes the cursor part of the chain and `next` the new cursor. */
  lemma ChainSnoc(path: seq<TrieNode>, frames: seq<Node>, ks: string, Made: set<object>, Olds: map<TrieNode, Node>,
                  R0: set<object>, cur: Node, next: TrieNode)
    requires Chain(path, frames, ks, Made, Olds, R0) && |frames| < |ks|
    requires path[|frames|].model == cur && Linked(path[|frames|], ks[|frames|], next, Olds)
    requires next !in R0 && next !in Made && next !in path
    ensures Chain(path + [next], frames + [cur], ks, Made + {path[|frames|]}, Olds, R0)
  {
    var path', frames' := path + [next], frames + [cur];
    forall j | 0 <= j < |frames'|
      ensures path'[j].model == frames'[j] && Linked(path'[j], ks[j], path'[j + 1], Olds)
    {
      if j < |frames| {
        assert path'[j] == path[j] && path'[j + 1] == path[j + 1] && frames'[j] == frames[j];
      }
    }
    forall j, k | 0 <= j < k < |path'|
      ensures path'[j] != path'[k]
    {
      if k < |path| {
        assert path'[j] == path[j] && path'[k] == path[k];
      }
    }
  }

  /** The cursor of the walk: a valid clone with abstract value `cur` reaching only itself and the receiver's nodes. */
  ghost predicate Cursor(aux: TrieNode, cur: Node, R0: set<object>)
    reads aux, R0
  {
    aux.repr <= {aux} + R0 && aux.Valid() && aux.model == cur
  }
  /** The state of the walk of `Put` or `Remove`: a chain of clones whose cursor is `aux`, with abstract value `cur`. */
  ghost predicate Walking(path: seq<TrieNode>, frames: seq<Node>, ks: string, aux: TrieNode, cur: Node,
                          Made: set<object>, Olds: map<TrieNode, Node>, R0: set<object>)
    reads Made, aux, R0
  {
    Chain(path, frames, ks, Made, Olds, R0) && path[|frames|] == aux && Cursor(aux, cur, R0)
  }


  /** The walk is over: the chain of clones ends in `last`, a valid clone with abstract value `cur` reaching none of the others. */
  ghost predicate Sealable(path: seq<TrieNode>, frames: seq<Node>, ks: string, last: TrieNode, cur: Node,
                           Made: set<object>, Olds: map<TrieNode, Node>, R0: set<object>)
    reads Made, last, last.repr
  {
    Chain(path, frames, ks, Made, Olds, R0) && path[|frames|] == last && last.Valid() && last.model == cur && last.repr !! Made
  }

  /**
    One pass of the loop of `Put`: move the cursor `aux`, the clone the
    walk stands on after `key[..i]`, down under `key[i]`; `value` is what
    is left in hand of the value `v` being put into `M`.
  */
  method PutStep(aux: TrieNode, key: string, i: nat, value: Value, ghost v: Value, ghost path: seq<TrieNode>,
                 ghost frames: seq<Node>, ghost cur: Node, ghost Made: set<object>, ghost M: Node,
                 ghost Olds: map<TrieNode, Node>, ghost R0: set<object>)
    returns (next: TrieNode, left: Value, ghost path': seq<TrieNode>, ghost frames': seq<Node>, ghost cur': Node,
             ghost Made': set<object>)
    requires Walking(path, frames, key, aux, cur, Made, Olds, R0) && |frames| == i < |key| && Covers(Olds, R0)
    requires PutF(M, key, v) == Graft(frames, key, 0, PutF(cur, key[i..], value))
    modifies aux
    ensures fresh(next) && path' == path + [next] && Made' == Made + {aux}
    ensures Walking(path', frames', key, next, cur', Made', Olds, R0) && |frames'| == i + 1
    ensures cur' == match Step(cur, key[i]) case Some(m) => m case None => Leaf(value)
    ensures left == if Step(cur, key[i]).Some? then value else MovedFrom(value)
    ensures PutF(M, key, v) == Graft(frames', key, 0, PutF(cur', key[i + 1..], left))
  {
    next, left := aux.PutDescend(key[i], value, Olds, R0);
    ChainSnoc(path, frames, key, Made, Olds, R0, cur, next);
    PutCursorStep(frames, key, i, cur, next.model, value, left);
    path', frames', cur', Made' := path + [next], frames + [cur], next.model, Made + {aux};
  }

  /**
    One pass of the loop of `Remove` along a value edge: move the cursor
    `aux`, the clone the walk stands on after `key[..i]`, down under `key[i]`.
  */
  method RemoveStep(aux: TrieNode, key: string, i: nat, ghost path: seq<TrieNode>, ghost frames: seq<Node>,
                    ghost cur: Node, ghost Made: set<object>, ghost M: Node, ghost Olds: map<TrieNode, Node>, ghost R0: set<object>)
    returns (next: TrieNode, ghost path': seq<TrieNode>, ghost frames': seq<Node>, ghost cur': Node, ghost Made': set<object>)
    requires Walking(path, frames, key, aux, cur, Made, Olds, R0) && |frames| == i < |key| - 1 && Covers(Olds, R0)
    requires key[i] in aux.children && aux.children[key[i]].isValue
    requires RemoveF(M, key) == Regraft(frames, key, RemoveF(cur, key[i..]))
    modifies aux
    ensures fresh(next) && path' == path + [next] && Made' == Made + {aux}
    ensures Walking(path', frames', key, next, cur', Made', Olds, R0) && |frames'| == i + 1
    ensures Step(cur, key[i]) == Some(cur')
    ensures RemoveF(M, key) == Regraft(frames', key, RemoveF(cur', key[i + 1..]))
  {
    next := aux.GraftClone(key[i], Olds, R0);
    ChainSnoc(path, frames, key, Made, Olds, R0, cur, next);
    RemoveCursorStep(frames, key, i, cur, next.model);
    path', frames', cur', Made' := path + [next], frames + [cur], next.model, Made + {aux};
  }

  /**
    The step of `Remove` at the last character of `key`, on the clone `aux`
    the walk stands on after `key[..|key| - 1]`: unset the last edge there.
  */
  method RemoveLastStep(aux: TrieNode, key: string, ghost path: seq<TrieNode>, ghost frames: seq<Node>,
                        ghost cur: Node, ghost Made: set<object>, ghost M: Node, ghost Olds: map<TrieNode, Node>, ghost R0: set<object>)
    returns (ghost bottom: Node)
    requires Walking(path, frames, key, aux, cur, Made, Olds, R0) && |frames| == |key| - 1
    requires RemoveF(M, key) == Regraft(frames, key, RemoveF(cur, key[|key| - 1..]))
    modifies aux
    ensures Sealable(path, frames, key, aux, bottom, Made, Olds, R0)
    ensures RemoveF(M, key) == Some(Graft(frames, key, 0, bottom))
  {
    assert key[|key| - 1..] == [key[|key| - 1]];
    aux.Unset(key[|key| - 1], Made);
    bottom := aux.model;
  }

  /** `Remove` gives up at a missing edge or one leading to a non-value node before the last character. */
  lemma RemoveBroken(aux: TrieNode, key: string, i: nat)
    requires aux.Valid() && i < |key| - 1 && !(key[i] in aux.children && aux.children[key[i]].isValue)
    ensures RemoveF(aux.model, key[i..]).None?
  {
    StepMatches(aux, key[i]);
    assert key[i..][0] == key[i] && |key[i..]| > 1;
  }

  /**
    One level of `Seal`: the clone `p`, whose child under `c` is the
    already valid `q`, gets the ghost fields that make it valid.
  */
  ghost method SealStep(p: TrieNode, c: char, q: TrieNode, Olds: map<TrieNode, Node>, R0: set<object>)
    requires Linked(p, c, q, Olds) && Sound(Olds, R0) && q.Valid() && p !in q.repr && p !in R0
    modifies p
    ensures p.Valid() && p.model == old(p.model).(children := old(p.model).children[c := q.model])
    ensures p.repr == {p} + R0 + q.repr
  {
    ghost var f := p.model;
    p.model := f.(children := f.children[c := q.model]);
    p.repr := {p} + R0 + q.repr;
    forall d | d in p.children
      ensures && p.children[d] in p.repr && p.children[d].repr <= p.repr && p !in p.children[d].repr
              && p.children[d].Valid() && p.children[d].model == p.model.children[d]
    {
      if d != c {
        assert p.children[d] in Olds;
      } else {
        NodeUntouched(q);
      }
    }
  }

  /**
    One pass of the loop of `Seal`: the clone `path[j]` is sealed on top of
    the already sealed `path[j + 1]`; the clones above are left as they are.
  */
  ghost method SealLevel(path: seq<TrieNode>, frames: seq<Node>, key: string, j: nat, cur: Node,
                         Olds: map<TrieNode, Node>, R0: set<object>)
    requires |path| == |frames| + 1 && |frames| <= |key| && j < |frames|
    requires forall a, b :: 0 <= a < b < |path| ==> path[a] != path[b]
    requires forall i :: 0 <= i <= j ==> path[i] !in R0
    requires Sound(Olds, R0) && path[j + 1].Valid() && path[j + 1].model == Graft(frames, key, j + 1, cur)
    requires forall i :: 0 <= i <= j ==> path[i] !in path[j + 1].repr
    requires forall i :: 0 <= i <= j ==> path[i].model == frames[i] && Linked(path[i], key[i], path[i + 1], Olds)
    modifies path[j]
    ensures Sound(Olds, R0) && path[j].Valid() && path[j].model == Graft(frames, key, j, cur)
    ensures forall i :: 0 <= i < j ==> path[i] !in path[j].repr
    ensures forall i :: 0 <= i < j ==> path[i].model == frames[i] && Linked(path[i], key[i], path[i + 1], Olds)
  {
    SealStep(path[j], key[j], path[j + 1], Olds, R0);
  }

  /**
    After the walk of `Put` or `Remove`: bring the ghost fields of the path
    clones up to date from the bottom, so that the top clone is a valid
    root whose abstract value is the grafted path. A ghost pass with no
    counterpart in the source, whose clones need no such step.
  */
  ghost method Seal(path: seq<TrieNode>, frames: seq<Node>, key: string, cur: Node,
                    Made: set<object>, Olds: map<TrieNode, Node>, R0: set<object>)
    requires Chain(path, frames, key, Made, Olds, R0) && Sound(Olds, R0)
    requires path[|frames|].Valid() && path[|frames|].model == cur && path[|frames|].repr !! Made
    modifies Made
    ensures path[0].Valid() && path[0].model == Graft(frames, key, 0, cur)
  {
    var n := |frames|;
    var j := n;
    while j > 0
      invariant 0 <= j <= n && Sound(Olds, R0)
      invariant path[j].Valid()
      invariant path[j].model == Graft(frames, key, j, cur)
      invariant forall i :: 0 <= i < j ==> path[i] !in path[j].repr
      invariant forall i :: 0 <= i < j ==> path[i].model == frames[i] && Linked(path[i], key[i], path[i + 1], Olds)
      decreases j
    {
      j := j - 1;
      SealLevel(path, frames, key, j, cur, Olds, R0);
    }
  }

  /**
    The loop of `Trie::Put<T>`: for each character of `key`, move the cursor
    from the clone it stands on to a clone of the value node the edge
    leads to, or to a fresh node hung under that edge into which the value
    in hand is moved. Returns the clones in walk order and the abstract
    value of the last.
  */
  method PutWalk(root: TrieNode, key: string, v: Value, ghost Olds: map<TrieNode, Node>, ghost R0: set<object>)
    returns (newRoot: TrieNode, ghost path: seq<TrieNode>, ghost frames: seq<Node>, ghost cur: Node, ghost Made: set<object>)
    requires root.Valid() && root.repr == R0 && Covers(Olds, R0)
    ensures |frames| == |key| && |path| == |key| + 1 && Walking(path, frames, key, path[|key|], cur, Made, Olds, R0)
    ensures path[0] == newRoot && fresh(Made) && fresh(path[|key|])
    ensures PutF(root.model, key, v) == Graft(frames, key, 0, cur)
  {
    newRoot := root.Clone();
    var aux := newRoot;
    path, frames, cur, Made := [newRoot], [], root.model, {};
    var value := v;
    var i := 0;
    while i < |key|
      invariant 0 <= i <= |key| && fresh(Made) && fresh(aux)
      invariant Walking(path, frames, key, aux, cur, Made, Olds, R0) && |frames| == i && path[0] == newRoot
      invariant PutF(root.model, key, v) == Graft(frames, key, 0, PutF(cur, key[i..], value))
    {
      aux, value, path, frames, cur, Made := PutStep(aux, key, i, value, v, path, frames, cur, Made, root.model, Olds, R0);
      i := i + 1;
    }
    assert key[i..] == [];
  }

  /**
    The loop of `Trie::Remove` and its last step: for each character of
    `key` but the last, move the cursor to a clone of the value node the
    edge leads to, giving up (`found` false) as soon as an edge is missing
    or leads to a non-value node; then unset the last edge on the clone
    the cursor stands on (`TrieNode.Unset`). Returns the clones in walk
    order and the abstract value of the last.
  */
  method RemoveWalk(root: TrieNode, key: string, ghost Olds: map<TrieNode, Node>, ghost R0: set<object>)
    returns (found: bool, newRoot: TrieNode, ghost path: seq<TrieNode>, ghost frames: seq<Node>, ghost last: TrieNode,
             ghost bottom: Node, ghost Made: set<object>)
    requires |key| > 0 && root.Valid() && root.repr == R0 && Covers(Olds, R0)
    ensures !found ==> RemoveF(root.model, key).None?
    ensures found ==> Sealable(path, frames, key, last, bottom, Made, Olds, R0) && path[0] == newRoot
    ensures found ==> fresh(Made) && RemoveF(root.model, key) == Some(Graft(frames, key, 0, bottom))
  {
    newRoot := root.Clone();
    var aux := newRoot;
    path, frames, Made := [newRoot], [], {};
    ghost var cur := root.model;
    var i := 0;
    while i < |key| - 1
      invariant 0 <= i <= |key| - 1 && fresh(Made) && fresh(aux)
      invariant Walking(path, frames, key, aux, cur, Made, Olds, R0) && |frames| == i && path[0] == newRoot
      invariant RemoveF(root.model, key) == Regraft(frames, key, RemoveF(cur, key[i..]))
    {
      if key[i] in aux.children && aux.children[key[i]].isValue {
        aux, path, frames, cur, Made := RemoveStep(aux, key, i, path, frames, cur, Made, root.model, Olds, R0);
      } else {
        RemoveBroken(aux, key, i);
        return false, newRoot, path, frames, aux, cur, Made;
      }
      i := i + 1;
    }
    bottom := RemoveLastStep(aux, key, path, frames, cur, Made, root.model, Olds, R0);
    last := aux;
    found := true;
  }

  /**
    `return Trie(new_root)` at the end of `Put` and `Remove`: seal the
    clones and hand out a new version rooted at the top one.
  */
  method Publish(newRoot: TrieNode, ghost path: seq<TrieNode>, ghost frames: seq<Node>, ghost key: string,
                 ghost last: TrieNode, ghost cur: Node, ghost Made: set<object>, ghost Olds: map<TrieNode, Node>,
                 ghost R0: set<object>)
    returns (t: Trie)
    requires Sealable(path, frames, key, last, cur, Made, Olds, R0) && Sound(Olds, R0) && path[0] == newRoot
    modifies Made
    ensures fresh(t) && t.Valid() && t.Model() == Graft(frames, key, 0, cur)
  {
    Seal(path, frames, key, cur, Made, Olds, R0);
    t := new Trie(newRoot);
  }

  /** A version none of whose nodes was written is still valid and has the same abstract value. */
  twostate lemma Untouched(t: Trie)
    requires old(t.Valid()) && unchanged(old(t.root.repr))
    ensures t.Valid() && t.Model() == old(t.Model())
  {
  }

  /** A version of the trie: an immutable handle on a root node. */
  class Trie {
    const root: TrieNode

    ghost predicate Valid()
      reads this, root, root.repr
    {
      root.Valid()
    }

    /** The abstract value of this version. */
    ghost function Model(): Node
      reads this, root
    {
      root.model
    }

    /** `Trie(root)`: a version whose root is `r`. */
    constructor (r: TrieNode)
      requires r.Valid()
      ensures root == r && Valid()
    {
      root := r;
    }

    /** The empty trie: a root with no children and no value. */
    constructor EmptyTrie()
      ensures Valid() && Model() == Empty && fresh(root)
    {
      root := new TrieNode.Plain();
    }

    /** `Trie::Get<T>`: move the cursor down one edge per character, then check the stored type. */
    method Get(key: string, tag: TypeTag) returns (r: Option<Value>)
      requires Valid()
      ensures r == GetF(Model(), key, tag)
    {
      var aux := root;
      var i := 0;
      while i < |key|
        invariant 0 <= i <= |key|
        invariant aux.Valid()
        invariant Walk(Model(), key) == Walk(aux.model, key[i..])
      {
        var c := key[i];
        assert key[i..][0] == c && key[i..][1..] == key[i + 1..];
        if c in aux.children && aux.children[c].isValue {
          aux := aux.children[c];
        } else {
          return None;
        }
        i := i + 1;
      }
      if aux.val.Some? && aux.val.value.Tag() == tag {
        r := aux.val;
      } else {
        r := None;
      }
    }

    /**
      `Trie::Put<T>`: clone the root, walk the key writing only into clones
      (`PutWalk`), and return a new version rooted at the cloned root. The
      receiver is not changed.
    */
    method Put(key: string, v: Value) returns (t: Trie)
      requires Valid()
      ensures Valid() && Model() == old(Model()) && unchanged(root.repr)
      ensures fresh(t) && t.Valid() && t.Model() == PutF(Model(), key, v)
    {
      ghost var R0 := root.repr;
      ghost var Olds := Snapshot(R0);
      var newRoot;
      ghost var path, frames, cur, Made;
      newRoot, path, frames, cur, Made := PutWalk(root, key, v, Olds, R0);
      t := Publish(newRoot, path, frames, key, path[|key|], cur, Made, Olds, R0);
      Untouched(this);
    }

    /**
      `Trie::Remove`: clone the root and walk all characters but the last
      (`RemoveWalk`); return the receiver itself if an edge on the way is
      missing or leads to a non-value node, and otherwise unset the last
      edge (`TrieNode.Unset`) and return a new version rooted at the cloned
      root. The receiver is not changed.
    */
    method Remove(key: string) returns (t: Trie)
      requires Valid() && |key| > 0
      ensures Valid() && Model() == old(Model()) && unchanged(root.repr)
      ensures RemoveF(Model(), key).None? ==> t == this
      ensures RemoveF(Model(), key).Some? ==> fresh(t) && t.Valid() && t.Model() == RemoveF(Model(), key).value
    {
      ghost var R0 := root.repr;
      ghost var Olds := Snapshot(R0);
      var found, newRoot;
      ghost var path, frames, last, bottom, Made;
      found, newRoot, path, frames, last, bottom, Made := RemoveWalk(root, key, Olds, R0);
      if !found {
        Untouched(this);
        return this;
      }
      t := Publish(newRoot, path, frames, key, last, bottom, Made, Olds, R0);
      Untouched(this);
    }
  }
}
