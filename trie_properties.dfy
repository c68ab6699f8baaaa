/**
  What the three operations of src/primer/trie.cpp promise, proved about the
  recursive definitions in TrieSpec.
*/
module TrieProperties {
  import opened Wrappers
  import opened TrieSpec

  /** Walking `p + s` is walking `p` and then walking `s` from where `p` ended. */
  lemma {:induction false} WalkAppend(n: Node, p: string, s: string)
    ensures Walk(n, p + s) == match Walk(n, p) case None => None case Some(m) => Walk(m, s)
    decreases |p|
  {
    if p != [] {
      assert (p + s)[0] == p[0] && (p + s)[1..] == p[1..] + s;
      match Step(n, p[0])
      case None =>
      case Some(m) => WalkAppend(m, p[1..], s);
    } else {
      assert p + s == s;
    }
  }

  /** A walk that has failed stays failed, whatever characters follow. */
  lemma WalkNoneExtends(n: Node, p: string, s: string)
    requires Walk(n, p).None?
    ensures Walk(n, p + s).None?
  {
    WalkAppend(n, p, s);
  }

  /** The node reached by a non-empty walk is always a value node. */
  lemma {:induction false} WalkEndsAtValue(n: Node, k: string)
    requires |k| > 0 && Walk(n, k).Some?
    ensures Walk(n, k).value.isValue
    decreases |k|
  {
    var m := Step(n, k[0]).value;
    if |k| > 1 {
      WalkEndsAtValue(m, k[1..]);
    }
  }

  /**
    Hop rule of `Get`: a key is found only if every node passed on the way,
    including the last, is a value node; no key is found through a node
    whose flag is false.
  */
  lemma GetHopRule(n: Node, k: string, tag: TypeTag)
    requires GetF(n, k, tag).Some?
    ensures forall j :: 0 < j <= |k| ==> Walk(n, k[..j]).Some? && Walk(n, k[..j]).value.isValue
  {
    forall j | 0 < j <= |k|
      ensures Walk(n, k[..j]).Some? && Walk(n, k[..j]).value.isValue
    {
      assert k == k[..j] + k[j..];
      WalkAppend(n, k[..j], k[j..]);
      WalkEndsAtValue(n, k[..j]);
    }
  }

  /**
    `Get` returns absent as soon as the next character has no edge, or its
    edge leads to a node whose flag is false, for every requested type.
  */
  lemma GetStopsAtBrokenHop(n: Node, k: string, j: nat, tag: TypeTag)
    requires j < |k| && Walk(n, k[..j]).Some?
    requires !(k[j] in Walk(n, k[..j]).value.children && Walk(n, k[..j]).value.children[k[j]].isValue)
    ensures GetF(n, k, tag).None?
  {
    var m := Walk(n, k[..j]).value;
    WalkAppend(n, k[..j], [k[j]]);
    assert k[..j] + [k[j]] == k[..j + 1];
    assert Walk(n, k[..j + 1]).None?;
    assert k == k[..j + 1] + k[j + 1..];
    WalkNoneExtends(n, k[..j + 1], k[j + 1..]);
  }

  /**
    Type rule of `Get`: a hit has exactly the requested type and is the
    value held by the reached node, so one key answers for at most one
    type; for the empty key only the root's held value is consulted, not its flag.
  */
  lemma GetTypeRule(n: Node, k: string, tag: TypeTag, other: TypeTag)
    requires tag != other
    ensures GetF(n, k, tag).None? || GetF(n, k, other).None?
    ensures GetF(n, k, tag).Some? <==>
              Walk(n, k).Some? && Walk(n, k).value.val.Some? && Walk(n, k).value.val.value.Tag() == tag
    ensures GetF(n, [], tag) == (if n.val.Some? && n.val.value.Tag() == tag then n.val else None)
  {
  }

  /**
    Along the key, the trie `Put` returns always reaches, after any prefix
    `p`, what `Put` builds from the state its loop is in after `p`: the
    node the cursor stands on and the value still in hand.
  */
  lemma {:induction false} PutAlongKey(n: Node, p: string, s: string, v: Value)
    ensures Walk(PutF(n, p + s, v), p) == Some(PutF(PutCursor(n, p, v).0, s, PutCursor(n, p, v).1))
    decreases |p|
  {
    if p != [] {
      var k := p + s;
      assert k[0] == p[0] && k[1..] == p[1..] + s;
      match Step(n, p[0])
      case Some(m) =>
        PutAlongKey(m, p[1..], s, v);
      case None =>
        PutAlongKey(Leaf(v), p[1..], s, MovedFrom(v));
    } else {
      assert p + s == s;
    }
  }

  /** While the walk of `p` exists, the loop of `Put` clones: its cursor is the receiver's node and `v` is still in hand. */
  lemma {:induction false} PutCursorOnExistingPath(n: Node, p: string, v: Value)
    requires Walk(n, p).Some?
    ensures PutCursor(n, p, v) == (Walk(n, p).value, v)
    decreases |p|
  {
    if p != [] {
      PutCursorOnExistingPath(Step(n, p[0]).value, p[1..], v);
    }
  }

  /** The loop of `Put` over `p + q` is the loop over `p` followed by the loop over `q`. */
  lemma {:induction false} PutCursorAppend(n: Node, p: string, q: string, v: Value)
    ensures PutCursor(n, p + q, v) == PutCursor(PutCursor(n, p, v).0, q, PutCursor(n, p, v).1)
    decreases |p|
  {
    if p != [] {
      assert (p + q)[0] == p[0] && (p + q)[1..] == p[1..] + q;
      match Step(n, p[0])
      case Some(m) =>
        PutCursorAppend(m, p[1..], q, v);
      case None =>
        PutCursorAppend(Leaf(v), p[1..], q, MovedFrom(v));
    } else {
      assert p + q == q;
    }
  }

  /**
    Below a fresh leaf, once the value has been moved from, every further
    character makes a new leaf holding what is left in hand.
  */
  lemma {:induction false} PutCursorBelowLeaf(x: Value, q: string, w: Value)
    requires MovedFrom(w) == w
    ensures PutCursor(Leaf(x), q, w) == (if q == [] then Leaf(x) else Leaf(w), w)
    decreases |q|
  {
    if q != [] {
      PutCursorBelowLeaf(w, q[1..], w);
    }
  }

  /** A failed walk fails at one position `j`: the walk of `k[..j]` exists and the next hop breaks. */
  lemma {:induction false} Divergence(n: Node, k: string) returns (j: nat)
    requires Walk(n, k).None?
    ensures j < |k| && Walk(n, k[..j]).Some? && Walk(n, k[..j + 1]).None?
    decreases |k|
  {
    match Step(n, k[0])
    case None =>
      j := 0;
      assert k[..1] == [k[0]];
    case Some(m) =>
      var j' := Divergence(m, k[1..]);
      j := j' + 1;
      assert k[..j][0] == k[0] && k[..j][1..] == k[1..][..j'];
      assert k[..j + 1][0] == k[0] && k[..j + 1][1..] == k[1..][..j' + 1];
  }

  /**
    After the position `j` where the walk of `k` breaks, the loop of `Put`
    stands on new leaves: the first holds `v`, which is then moved from,
    and the later ones hold what the move left behind.
  */
  lemma PutCursorAfterDivergence(n: Node, k: string, v: Value, j: nat, i: nat)
    requires j < i <= |k| && Walk(n, k[..j]).Some? && Walk(n, k[..j + 1]).None?
    ensures PutCursor(n, k[..i], v) == (Leaf(if i == j + 1 then v else MovedFrom(v)), MovedFrom(v))
  {
    var w := Walk(n, k[..j]).value;
    WalkAppend(n, k[..j], [k[j]]);
    assert k[..j] + [k[j]] == k[..j + 1];
    assert Step(w, k[j]).None?;
    assert k[..i] == k[..j] + k[j..i];
    PutCursorAppend(n, k[..j], k[j..i], v);
    PutCursorOnExistingPath(n, k[..j], v);
    assert k[j..i][0] == k[j] && k[j..i][1..] == k[j + 1..i];
    PutCursorBelowLeaf(v, k[j + 1..i], MovedFrom(v));
  }

  /**
    Put on a new path, where the walk of `k` breaks at position `j`: from
    there on every prefix of `k` leads to a new value node. The first holds
    `v`; `v` is moved into it, so each later one holds `MovedFrom(v)`,
    which for an integer is `v` again and for a string is empty. The key
    itself ends at a fresh childless leaf replacing whatever subtree was there.
  */
  lemma PutNewPath(n: Node, k: string, v: Value, j: nat)
    requires j < |k| && Walk(n, k[..j]).Some? && Walk(n, k[..j + 1]).None?
    ensures GetF(PutF(n, k, v), k[..j + 1], v.Tag()) == Some(v)
    ensures forall i :: j + 1 < i <= |k| ==> GetF(PutF(n, k, v), k[..i], v.Tag()) == Some(MovedFrom(v))
    ensures Walk(PutF(n, k, v), k) == Some(Leaf(if j + 1 == |k| then v else MovedFrom(v)))
    ensures GetF(PutF(n, k, v), k, v.Tag()) == Some(if j + 1 == |k| then v else MovedFrom(v))
  {
    forall i | j < i <= |k|
      ensures Walk(PutF(n, k, v), k[..i]) ==
                Some(PutF(Leaf(if i == j + 1 then v else MovedFrom(v)), k[i..], MovedFrom(v)))
      ensures GetF(PutF(n, k, v), k[..i], v.Tag()) == Some(if i == j + 1 then v else MovedFrom(v))
    {
      assert k == k[..i] + k[i..];
      PutAlongKey(n, k[..i], k[i..], v);
      PutCursorAfterDivergence(n, k, v, j, i);
    }
    assert k[..|k|] == k && k[|k|..] == [];
  }

  /**
    Put on an existing path: when every edge of `k` already leads to a
    value node, `Put` only clones the path, so the result equals the
    receiver and `Get` on `k` still yields the old value, not `v`. This
    includes the empty key.
  */
  lemma {:induction false} PutExistingPath(n: Node, k: string, v: Value)
    requires Walk(n, k).Some?
    ensures PutF(n, k, v) == n
    ensures forall tag :: GetF(PutF(n, k, v), k, tag) == GetF(n, k, tag)
    decreases |k|
  {
    if k != [] {
      var m := Step(n, k[0]).value;
      PutExistingPath(m, k[1..], v);
      assert n.children[k[0] := m] == n.children;
    }
  }

  /** After `Put`, every non-empty prefix of `k` leads through value nodes only. */
  lemma PutPathReachable(n: Node, k: string, v: Value)
    ensures forall j :: 0 < j <= |k| ==> Walk(PutF(n, k, v), k[..j]).Some? && Walk(PutF(n, k, v), k[..j]).value.isValue
  {
    forall j | 0 < j <= |k|
      ensures Walk(PutF(n, k, v), k[..j]).Some? && Walk(PutF(n, k, v), k[..j]).value.isValue
    {
      assert k == k[..j] + k[j..];
      PutAlongKey(n, k[..j], k[j..], v);
      WalkEndsAtValue(PutF(n, k, v), k[..j]);
    }
  }

  /** Put changes nothing else: every key that is not a prefix of `k` walks exactly as before. */
  lemma {:induction false} PutFrame(n: Node, k: string, v: Value, k': string)
    requires !(k' <= k)
    ensures Walk(PutF(n, k, v), k') == Walk(n, k')
    ensures forall tag :: GetF(PutF(n, k, v), k', tag) == GetF(n, k', tag)
    decreases |k|
  {
    if k != [] {
      var r := PutF(n, k, v);
      if k'[0] == k[0] {
        assert !(k'[1..] <= k[1..]);
        match Step(n, k[0])
        case Some(m) =>
          PutFrame(m, k[1..], v, k'[1..]);
        case None =>
          PutFrame(Leaf(v), k[1..], MovedFrom(v), k'[1..]);
      } else {
        assert Step(r, k'[0]) == Step(n, k'[0]);
      }
    }
  }

  /**
    Remove returns the receiver itself exactly when the walk over all but
    the last character of `k` fails.
  */
  lemma {:induction false} RemoveEarlyNoOp(n: Node, k: string)
    requires |k| > 0
    ensures RemoveF(n, k).None? <==> Walk(n, k[..|k| - 1]).None?
    decreases |k|
  {
    if |k| > 1 {
      match Step(n, k[0])
      case None =>
      case Some(m) =>
        RemoveEarlyNoOp(m, k[1..]);
        assert k[..|k| - 1][1..] == k[1..][..|k[1..]| - 1];
    }
  }

  /**
    When the walk over all but the last character succeeds, the trie
    `Remove` returns reaches, along that prefix, the receiver's node there
    with the last step of `Remove` applied to it.
  */
  lemma {:induction false} RemoveAlongKey(n: Node, k: string)
    requires |k| > 0 && Walk(n, k[..|k| - 1]).Some?
    ensures RemoveF(n, k).Some?
    ensures Walk(RemoveF(n, k).value, k[..|k| - 1]) == Some(RemoveLast(Walk(n, k[..|k| - 1]).value, k[|k| - 1]))
    decreases |k|
  {
    if |k| > 1 {
      assert k[..|k| - 1][1..] == k[1..][..|k[1..]| - 1];
      var m := Step(n, k[0]).value;
      RemoveAlongKey(m, k[1..]);
    }
  }

  /**
    Remove of a present key: afterwards neither `k` nor any key extending
    it can be found. A childless final node loses its edge; a final node
    with children is replaced by a copy with the flag cleared and the same
    children and value.
  */
  lemma RemovePresent(n: Node, k: string, tag: TypeTag)
    requires |k| > 0 && Walk(n, k).Some?
    ensures RemoveF(n, k).Some?
    ensures forall s :: Walk(RemoveT(n, k), k + s).None?
    ensures GetF(RemoveT(n, k), k, tag).None?
    ensures var last, m := k[|k| - 1], Walk(n, k).value;
            && Walk(RemoveT(n, k), k[..|k| - 1]).Some?
            && (m.children == map[] ==> last !in Walk(RemoveT(n, k), k[..|k| - 1]).value.children)
            && (m.children != map[] ==>
                  && last in Walk(RemoveT(n, k), k[..|k| - 1]).value.children
                  && Walk(RemoveT(n, k), k[..|k| - 1]).value.children[last] == m.(isValue := false))
  {
    var pre, last := k[..|k| - 1], k[|k| - 1];
    assert k == pre + [last];
    WalkAppend(n, pre, [last]);
    RemoveAlongKey(n, k);
    var r := RemoveF(n, k).value;
    WalkAppend(r, pre, [last]);
    assert Walk(r, k).None?;
    forall s
      ensures Walk(r, k + s).None?
    {
      WalkNoneExtends(r, k, s);
    }
    assert k + [] == k;
  }

  /**
    Remove no-op when the final edge is missing or leads to a non-value
    node: the rebuilt trie equals the receiver.
  */
  lemma {:induction false} RemoveFinalNoOp(n: Node, k: string)
    requires |k| > 0 && Walk(n, k[..|k| - 1]).Some? && Walk(n, k).None?
    ensures RemoveF(n, k) == Some(n)
    decreases |k|
  {
    if |k| > 1 {
      var m := Step(n, k[0]).value;
      assert k[..|k| - 1][1..] == k[1..][..|k[1..]| - 1];
      RemoveFinalNoOp(m, k[1..]);
      assert n.children[k[0] := m] == n.children;
    }
  }

  /** Remove changes nothing else: every key that does not start with `k` reads the same. */
  lemma {:induction false} RemoveFrame(n: Node, k: string, k': string, tag: TypeTag)
    requires |k| > 0 && !(k <= k')
    ensures GetF(RemoveT(n, k), k', tag) == GetF(n, k', tag)
    decreases |k|
  {
    if RemoveF(n, k).Some? && k' != [] && k'[0] == k[0] {
      assert |k| > 1;
      var m := Step(n, k[0]).value;
      var m' := RemoveF(m, k[1..]).value;
      assert !(k[1..] <= k'[1..]);
      RemoveFrame(m, k[1..], k'[1..], tag);
    }
  }
}
