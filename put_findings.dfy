/**
  `Trie::Put` as written never stores its value when every edge of the key
  already leads to a value node: the loop only clones those nodes, and the
  node reached at the end keeps what it held (for the empty key the new
  root is a plain clone of the old one). The comment closing `Put` asks
  for a new value-holding node in that case. This module exhibits the
  discrepancy on a concrete trie and gives the intended definition,
  `PutOverwriteF`, with its round trip and frame property proved.

  `Put` as written also moves the value into the first new node it makes
  and hands what the move left behind to every later one, so a string put
  under a key two or more characters beyond the existing path reads back
  empty. The intended definition gives every new node the value itself.
*/
module PutFindings {
  import opened Wrappers
  import opened TrieSpec
  import opened TrieProperties

  /**
    As written: a second `Put` on a key that is already present leaves the
    first value in place, so `Get` reads 1 after putting 2.
  */
  lemma OverwriteIgnored()
    ensures var t1 := PutF(Empty, "a", U32(1));
            && GetF(t1, "a", UInt32) == Some(U32(1))
            && GetF(PutF(t1, "a", U32(2)), "a", UInt32) == Some(U32(1))
  {
    var t1 := PutF(Empty, "a", U32(1));
    assert "a"[1..] == [];
    assert t1.children['a'] == Leaf(U32(1));
    assert Walk(t1, "a") == Some(Leaf(U32(1)));
    PutExistingPath(t1, "a", U32(2));
  }

  /**
    Intended `Put`: the walk is the same, but the node reached at the end
    of the key becomes a value node holding `v` and keeps its children.
  */
  function PutOverwriteF(n: Node, k: string, v: Value): (r: Node)
    decreases |k|
    ensures k == [] ==> r == n.(isValue := true, val := Some(v))
    ensures k != [] ==> r.isValue == n.isValue && r.val == n.val
    ensures k != [] ==> r.children.Keys == n.children.Keys + {k[0]} && r.children[k[0]].isValue
    ensures k != [] ==> forall d :: d in n.children && d != k[0] ==> r.children[d] == n.children[d]
  {
    if k == [] then n.(isValue := true, val := Some(v))
    else
      var next := match Step(n, k[0]) case Some(m) => m case None => Leaf(v);
      n.(children := n.children[k[0] := PutOverwriteF(next, k[1..], v)])
  }

  /** Round trip of the intended `Put`: the walk of `k` reaches a node holding `v`, so `Get` of `v`'s type returns `v`. */
  lemma {:induction false} PutOverwriteGet(n: Node, k: string, v: Value)
    ensures Walk(PutOverwriteF(n, k, v), k).Some?
    ensures Walk(PutOverwriteF(n, k, v), k).value.val == Some(v)
    ensures GetF(PutOverwriteF(n, k, v), k, v.Tag()) == Some(v)
    decreases |k|
  {
    if k != [] {
      var next := match Step(n, k[0]) case Some(m) => m case None => Leaf(v);
      PutOverwriteGet(next, k[1..], v);
    }
  }

  /** The intended `Put` changes nothing else: every key that is not a prefix of `k` walks as before. */
  lemma {:induction false} PutOverwriteFrame(n: Node, k: string, v: Value, k': string)
    requires !(k' <= k)
    ensures Walk(PutOverwriteF(n, k, v), k') == Walk(n, k')
    ensures forall tag :: GetF(PutOverwriteF(n, k, v), k', tag) == GetF(n, k', tag)
    decreases |k|
  {
    if k == [] {
      assert Step(PutOverwriteF(n, k, v), k'[0]) == Step(n, k'[0]);
    } else if k'[0] == k[0] {
      assert !(k'[1..] <= k[1..]);
      var next := match Step(n, k[0]) case Some(m) => m case None => Leaf(v);
      PutOverwriteFrame(next, k[1..], v, k'[1..]);
      if Step(n, k[0]).None? {
        assert Walk(Leaf(v), k'[1..]).None?;
      }
    } else {
      assert Step(PutOverwriteF(n, k, v), k'[0]) == Step(n, k'[0]);
    }
  }

  /**
    For a value a move leaves intact (the integer types), the correction
    only matters on an existing path: when the walk of `k` fails somewhere,
    the intended `Put` and `Put` as written build the same trie.
  */
  lemma {:induction false} PutOverwriteAgreesOnNewPath(n: Node, k: string, v: Value)
    requires Walk(n, k).None? && MovedFrom(v) == v
    ensures PutOverwriteF(n, k, v) == PutF(n, k, v)
    decreases |k|
  {
    match Step(n, k[0])
    case Some(m) =>
      PutOverwriteAgreesOnNewPath(m, k[1..], v);
    case None =>
      LeafPutsAgree(k[1..], v);
  }

  /** From a fresh leaf holding a value a move leaves intact, both definitions build the same chain of leaves. */
  lemma {:induction false} LeafPutsAgree(k: string, v: Value)
    requires MovedFrom(v) == v
    ensures PutOverwriteF(Leaf(v), k, v) == PutF(Leaf(v), k, v)
    decreases |k|
  {
    if k != [] {
      LeafPutsAgree(k[1..], v);
    }
  }

  /** The intended `Put` disagrees with `Put` as written exactly on the counterexample above: the second value is read back. */
  lemma OverwriteStored()
    ensures GetF(PutOverwriteF(PutOverwriteF(Empty, "a", U32(1)), "a", U32(2)), "a", UInt32) == Some(U32(2))
  {
    PutOverwriteGet(PutOverwriteF(Empty, "a", U32(1)), "a", U32(2));
  }

  /**
    As written, `Put` of a string moves it into the first new node only:
    on the empty trie the key "ab" gets two new nodes, and the second, the
    one `Get` of "ab" reads, holds what the move left behind.
  */
  lemma MovedStringRead()
    ensures GetF(PutF(Empty, "ab", Str("x")), "a", StdString) == Some(Str("x"))
    ensures GetF(PutF(Empty, "ab", Str("x")), "ab", StdString) == Some(Str(""))
  {
    assert "ab"[..0] == [] && "ab"[..1] == "a" && "ab"[0] == 'a';
    PutNewPath(Empty, "ab", Str("x"), 0);
  }

  /** The intended `Put` reads back the string on the same input. */
  lemma StringStored()
    ensures GetF(PutOverwriteF(Empty, "ab", Str("x")), "ab", StdString) == Some(Str("x"))
  {
    PutOverwriteGet(Empty, "ab", Str("x"));
  }
}
