// The accumulator tree of the bilayer crossing counter: a complete binary
// tree stored heap-style in a flat array.  Cell 0 is the root, the children
// of cell k are 2k+1 (left, always odd) and 2k+2 (right, always even), and
// with `w` leaves (a power of two) the leaves are cells w-1 .. 2w-2.

module AccumulatorTree {

  ghost predicate IsPow2(n: nat)
    decreases n
  {
    n == 1 || (n >= 2 && n % 2 == 0 && IsPow2(n / 2))
  }

  function Parent(k: nat): nat
    requires k > 0
  {
    (k - 1) / 2
  }

  /** Number of steps from cell `k` up to the root. */
  function Depth(k: nat): nat
    decreases k
  {
    if k == 0 then 0 else 1 + Depth(Parent(k))
  }

  /** Cell `k` is `y` itself or one of its ancestors, i.e. `y` lies in the
      subtree rooted at `k`. */
  predicate Anc(k: nat, y: nat)
    decreases y
  {
    y == k || (y > k && Anc(k, Parent(y)))
  }

  lemma {:induction false} AncBelow(k: nat, y: nat)
    requires Anc(k, y)
    ensures k <= y && Depth(k) <= Depth(y)
    ensures Depth(k) == Depth(y) ==> k == y
    decreases y
  {
    if y != k {
      AncBelow(k, Parent(y));
    }
  }

  lemma {:induction false} AncRoot(y: nat)
    ensures Anc(0, y)
    decreases y
  {
    if y > 0 {
      AncRoot(Parent(y));
    }
  }

  lemma {:induction false} AncTrans(a: nat, b: nat, c: nat)
    requires Anc(a, b) && Anc(b, c)
    ensures Anc(a, c)
    decreases c
  {
    if c != b {
      AncTrans(a, b, Parent(c));
      AncBelow(a, b);
    }
  }

  /** The ancestors of a cell form a chain. */
  lemma {:induction false} AncChain(a: nat, b: nat, x: nat)
    requires Anc(a, x) && Anc(b, x)
    ensures Anc(a, b) || Anc(b, a)
    decreases x
  {
    if x != a && x != b {
      AncChain(a, b, Parent(x));
    }
  }

  /** A left child's right sibling is not in the subtree of any cell on the
      left child's own path to the leaves. */
  lemma SiblingApart(t: nat, z: nat)
    requires t % 2 == 1 && Anc(t, z)
    ensures !Anc(t + 1, z)
  {
    if Anc(t + 1, z) {
      AncChain(t, t + 1, z);
      assert false;
    }
  }

  /** Moving the top of a leaf's path up by one cell adds exactly the parent
      to the part of the path below it. */
  lemma PathStep(k: nat, z: nat, t: nat)
    requires t > 0 && Anc(t, z) && Anc(k, z)
    ensures Anc(Parent(t), k) <==> Anc(t, k) || k == Parent(t)
  {
    var p := Parent(t);
    assert Anc(p, t);
    if Anc(t, k) {
      AncTrans(p, t, k);
    }
    if Anc(p, k) && !Anc(t, k) {
      AncChain(k, t, z);
      assert Anc(k, t);
      if k != t {
        assert Anc(k, p);
        AncBelow(k, p);
        AncBelow(p, k);
      }
    }
  }

  /** All leaves of a tree with `w` leaves have the same depth. */
  lemma {:induction false} LeafDepth(w: nat, y: nat)
    requires IsPow2(w) && w - 1 <= y < 2 * w - 1
    ensures Depth(y) == Depth(w - 1)
    decreases w
  {
    if w > 1 {
      LeafDepth(w / 2, Parent(y));
      assert Parent(w - 1) == w / 2 - 1;
    }
  }

  /** The heart of the crossing count.  Let `z` and `y` be cells at the same
      depth and `t` an ancestor of `z` below the root.  Then `y` lies right of
      `z` inside the subtree of `t`'s parent exactly when it lies right of
      `z` inside the subtree of `t`, or `t` is a left child and `y` lies in the
      subtree of its right sibling; the two cases exclude each other, and the
      second implies that `y` lies right of `z`. */
  lemma {:induction false} RightOfStep(y: nat, z: nat, t: nat)
    requires Depth(y) == Depth(z) && t > 0 && Anc(t, z)
    ensures (y > z && Anc(Parent(t), y)) <==>
            ((y > z && Anc(t, y)) || (t % 2 == 1 && Anc(t + 1, y)))
    ensures !(Anc(t, y) && t % 2 == 1 && Anc(t + 1, y))
    ensures t % 2 == 1 && Anc(t + 1, y) ==> y > z
    decreases z
  {
    AncBelow(t, z);
    if t % 2 == 1 && Anc(t, y) && Anc(t + 1, y) {
      SiblingApart(t, y);
    }
    if z == t {
      assert y > 0;
      if Anc(t, y) { AncBelow(t, y); }
      if t % 2 == 1 && Anc(t + 1, y) {
        assert Depth(t + 1) == Depth(t);
        AncBelow(t + 1, y);
      }
      if Anc(Parent(t), y) {
        AncBelow(Parent(t), y);
        assert y != Parent(t);
        assert Depth(Parent(y)) == Depth(Parent(t));
        AncBelow(Parent(t), Parent(y));
      }
    } else {
      var y', z' := Parent(y), Parent(z);
      assert y > 0;
      AncBelow(t, z');
      RightOfStep(y', z', t);
      // The subtrees of t, its parent and its sibling hold y exactly when
      // they hold y's parent, since all three lie above y's depth.
      assert Anc(t, y) <==> Anc(t, y') by {
        if Anc(t, y) { AncBelow(t, y); }
      }
      assert Anc(Parent(t), y) <==> Anc(Parent(t), y') by {
        if Anc(Parent(t), y) { AncBelow(Parent(t), y); }
      }
      if t % 2 == 1 {
        assert Anc(t + 1, y) <==> Anc(t + 1, y') by {
          if Anc(t + 1, y) { AncBelow(t + 1, y); assert Depth(t + 1) == Depth(t); }
        }
      }
      if y' == z' {
        assert Anc(Parent(t), z') by { AncTrans(Parent(t), t, z'); }
        if t % 2 == 1 { SiblingApart(t, z'); }
      }
    }
  }
}
