/** The walk over the menu tree in scripts/kconfig/confdata.c, which keeps no stack. */
module MenuWalk {

  /** The links of a `struct menu` (scripts/kconfig/expr.h, lines 220-228). */
  class Menu {
    var next: Menu?
    var parent: Menu?
    var list: Menu?
  }

  /** A list of siblings: the first with its children, and the others. */
  datatype Forest = Nil | Cons(menu: Menu, children: Forest, siblings: Forest)

  /** The links below `head` spell out `f`, whose menus have the parent `parent`. */
  ghost predicate Linked(f: Forest, head: Menu?, parent: Menu?, heap: set<Menu>)
    reads heap
    decreases f
  {
    match f
    case Nil => head == null
    case Cons(m, children, siblings) =>
      && head == m && m in heap && m.parent == parent
      && Linked(children, m.list, m, heap) && Linked(siblings, m.next, parent, heap)
  }

  lemma LinkedHead(f: Forest, head: Menu?, parent: Menu?, heap: set<Menu>)
    requires Linked(f, head, parent, heap)
    ensures f.Nil? <==> head == null
    ensures head != null ==> head == f.menu && head in heap && head.parent == parent
  {
  }

  /** Recursive preorder. */
  ghost function Preorder(f: Forest): seq<Menu> {
    match f
    case Nil => []
    case Cons(m, children, siblings) => [m] + Preorder(children) + Preorder(siblings)
  }

  // ----- every menu once

  ghost function Size(f: Forest): nat {
    match f
    case Nil => 0
    case Cons(_, children, siblings) => 1 + Size(children) + Size(siblings)
  }

  /** The links determine the forest. */
  lemma {:induction false} SameForest(f: Forest, g: Forest, head: Menu?, p: Menu?, q: Menu?, heap: set<Menu>)
    requires Linked(f, head, p, heap) && Linked(g, head, q, heap)
    ensures f == g
    decreases f
  {
    if f.Cons? {
      SameForest(f.children, g.children, f.menu.list, f.menu, f.menu, heap);
      SameForest(f.siblings, g.siblings, f.menu.next, p, q, heap);
    }
  }

  /** A menu of a forest heads a forest no larger than it. */
  lemma {:induction false} HeadsForest(f: Forest, head: Menu?, parent: Menu?, heap: set<Menu>, x: Menu)
    returns (g: Forest, q: Menu?)
    requires Linked(f, head, parent, heap) && x in Preorder(f)
    ensures Linked(g, x, q, heap) && g.Cons? && Size(g) <= Size(f)
    decreases f
  {
    if x == f.menu {
      g, q := f, parent;
    } else if x in Preorder(f.children) {
      g, q := HeadsForest(f.children, f.menu.list, f.menu, heap, x);
    } else {
      g, q := HeadsForest(f.siblings, f.menu.next, parent, heap, x);
    }
  }

  /** No menu is below or behind itself. */
  lemma NotBelowItself(f: Forest, head: Menu?, parent: Menu?, heap: set<Menu>)
    requires f.Cons? && Linked(f, head, parent, heap)
    ensures f.menu !in Preorder(f.children) && f.menu !in Preorder(f.siblings)
  {
    var m := f.menu;
    if m in Preorder(f.children) {
      var g, q := HeadsForest(f.children, m.list, m, heap, m);
      SameForest(f, g, m, parent, q, heap);
    }
    if m in Preorder(f.siblings) {
      var g, q := HeadsForest(f.siblings, m.next, parent, heap, m);
      SameForest(f, g, m, parent, q, heap);
    }
  }

  /** `x` has `d` menus from itself up to the root. */
  ghost predicate Deep(x: Menu?, d: nat, heap: set<Menu>)
    reads heap
    decreases d
  {
    if x == null then d == 0 else d > 0 && x in heap && Deep(x.parent, d - 1, heap)
  }

  lemma {:induction false} DepthUnique(x: Menu?, d: nat, e: nat, heap: set<Menu>)
    requires Deep(x, d, heap) && Deep(x, e, heap)
    ensures d == e
    decreases d
  {
    if x != null { DepthUnique(x.parent, d - 1, e - 1, heap); }
  }

  /** The menu `k` parents above `x`. */
  ghost function Up(x: Menu?, k: nat, heap: set<Menu>): Menu?
    reads heap
    decreases k
  {
    if k == 0 || x == null || x !in heap then x else Up(x.parent, k - 1, heap)
  }

  lemma {:induction false} UpStep(x: Menu?, k: nat, heap: set<Menu>, y: Menu)
    requires Up(x, k, heap) == y && y in heap
    ensures Up(x, k + 1, heap) == y.parent
    decreases k
  {
    if k > 0 && x != null && x in heap {
      UpStep(x.parent, k - 1, heap, y);
    } else {
      assert Up(x, k, heap) == x;
      assert Up(y.parent, 0, heap) == y.parent;
    }
  }

  /** From any menu of a forest the parents lead to one of its outermost menus. */
  lemma {:induction false} LeadsToTop(f: Forest, head: Menu?, parent: Menu?, heap: set<Menu>, d: nat, x: Menu)
    returns (e: nat, top: Menu)
    requires Linked(f, head, parent, heap) && Deep(parent, d, heap) && x in Preorder(f)
    ensures Deep(x, e, heap) && e > d && Up(x, e - d - 1, heap) == top && top in Preorder(f) && top in heap
    ensures top.parent == parent
    decreases f
  {
    var m := f.menu;
    if x == m {
      e, top := d + 1, m;
    } else if x in Preorder(f.children) {
      e, top := LeadsToTop(f.children, m.list, m, heap, d + 1, x);
      UpStep(x, e - d - 2, heap, top);
      top := m;
    } else {
      e, top := LeadsToTop(f.siblings, m.next, parent, heap, d, x);
    }
  }

  /** No menu is both below the first of some siblings and among the others. */
  lemma Apart(f: Forest, head: Menu?, parent: Menu?, heap: set<Menu>, d: nat, x: Menu)
    requires f.Cons? && Linked(f, head, parent, heap) && Deep(parent, d, heap)
    requires x in Preorder(f.children)
    ensures x !in Preorder(f.siblings)
  {
    var m := f.menu;
    if x in Preorder(f.siblings) {
      var e, t := LeadsToTop(f.children, m.list, m, heap, d + 1, x);
      UpStep(x, e - d - 2, heap, t);
      var e', t' := LeadsToTop(f.siblings, m.next, parent, heap, d, x);
      DepthUnique(x, e, e', heap);
      NotBelowItself(f, head, parent, heap);
    }
  }

  ghost predicate NoRepeat(s: seq<Menu>) {
    forall i, j :: 0 <= i < j < |s| ==> s[i] != s[j]
  }

  lemma NoRepeatConcat(s: seq<Menu>, t: seq<Menu>)
    requires NoRepeat(s) && NoRepeat(t) && forall x :: x in s ==> x !in t
    ensures NoRepeat(s + t)
  {
    var u := s + t;
    forall i, j | 0 <= i < j < |u| ensures u[i] != u[j] {
      if i < |s| <= j { assert u[i] in s && u[j] == t[j - |s|]; }
    }
  }

  /** Preorder has every menu once: two ways to a menu would need two parents. */
  lemma {:induction false} EveryMenuOnce(f: Forest, head: Menu?, parent: Menu?, heap: set<Menu>, d: nat)
    requires Linked(f, head, parent, heap) && Deep(parent, d, heap)
    ensures NoRepeat(Preorder(f))
    decreases f
  {
    if f.Cons? {
      var m := f.menu;
      EveryMenuOnce(f.children, m.list, m, heap, d + 1);
      EveryMenuOnce(f.siblings, m.next, parent, heap, d);
      NotBelowItself(f, head, parent, heap);
      NoRepeatConcat([m], Preorder(f.children));
      forall x | x in [m] + Preorder(f.children) ensures x !in Preorder(f.siblings) {
        if x != m { Apart(f, head, parent, heap, d, x); }
      }
      NoRepeatConcat([m] + Preorder(f.children), Preorder(f.siblings));
    }
  }

  /** Preorder leaves no menu out: it is closed under the links down and along. */
  lemma {:induction false} NoMenuMissed(f: Forest, head: Menu?, parent: Menu?, heap: set<Menu>, x: Menu)
    requires Linked(f, head, parent, heap) && x in Preorder(f)
    ensures head != null && head in Preorder(f) && x in heap
    ensures x.list != null ==> x.list in Preorder(f)
    ensures x.next != null ==> x.next in Preorder(f)
    decreases f
  {
    var m := f.menu;
    if x == m {
      if f.children.Cons? { assert f.children.menu in Preorder(f.children); }
      if f.siblings.Cons? { assert f.siblings.menu in Preorder(f.siblings); }
    } else if x in Preorder(f.children) {
      NoMenuMissed(f.children, m.list, m, heap, x);
    } else {
      NoMenuMissed(f.siblings, m.next, parent, heap, x);
    }
  }

  // ----- the walk

  /** What is still to be walked after a list of siblings: those of each menu above. */
  datatype Above = Root | Under(menu: Menu, siblings: Forest, above: Above)

  /** `above` describes the menus from `parent` up; the root is alone and without a parent. */
  ghost predicate Path(above: Above, parent: Menu?, heap: set<Menu>)
    reads heap
    decreases above
  {
    match above
    case Root => parent != null && parent in heap && parent.next == null && parent.parent == null
    case Under(m, siblings, up) =>
      && parent == m && m in heap && Linked(siblings, m.next, m.parent, heap) && Path(up, m.parent, heap)
  }

  ghost function Pending(above: Above): seq<Menu> {
    match above
    case Root => []
    case Under(_, siblings, up) => Preorder(siblings) + Pending(up)
  }

  /** The walk stands at `menu`, the first of `f`, with `above` pending; or it is over. */
  ghost predicate Standing(menu: Menu?, f: Forest, above: Above, heap: set<Menu>)
    reads heap
  {
    if menu == null then Preorder(f) + Pending(above) == []
    else f.Cons? && menu in heap && Linked(f, menu, menu.parent, heap) && Path(above, menu.parent, heap)
  }

  /** Lines 884-895 of `conf_write` and 797-809 of `conf_write_defconfig`. */
  method NextMenu(menu: Menu, ghost f: Forest, ghost above: Above, ghost heap: set<Menu>)
    returns (n: Menu?, ghost g: Forest, ghost up: Above)
    requires Standing(menu, f, above, heap)
    ensures Standing(n, g, up, heap)
    ensures Preorder(f) + Pending(above) == [menu] + (Preorder(g) + Pending(up))
  {
    LinkedHead(f.children, menu.list, menu, heap);
    LinkedHead(f.siblings, menu.next, menu.parent, heap);
    ghost var rest := Preorder(f.children) + Preorder(f.siblings) + Pending(above);
    assert Preorder(f) + Pending(above) == [menu] + rest;
    if menu.list != null {
      n, g, up := menu.list, f.children, Under(menu, f.siblings, above);
      assert Preorder(g) + Pending(up) == rest;
    } else if menu.next != null {
      n, g, up := menu.next, f.siblings, above;
      assert Preorder(g) + Pending(up) == rest;
    } else {
      n, g, up := Climb(menu, above, heap);
      assert rest == Pending(above);
    }
  }

  /** The inner loop: up until a menu with a sibling, or past the root. */
  method Climb(menu: Menu, ghost above: Above, ghost heap: set<Menu>)
    returns (n: Menu?, ghost g: Forest, ghost up: Above)
    requires menu in heap && Path(above, menu.parent, heap)
    ensures Standing(n, g, up, heap) && Preorder(g) + Pending(up) == Pending(above)
  {
    n, g, up := menu.parent, Nil, above;
    while n != null
      invariant n != null ==> Path(up, n, heap)
      invariant n == null ==> Pending(up) == []
      invariant Pending(up) == Pending(above)
      decreases up, n != null
    {
      if n.next != null {
        n, g, up := n.next, up.siblings, up.above;
        return;
      }
      n := n.parent;
      if up.Under? {
        assert Preorder(up.siblings) + Pending(up.above) == Pending(up.above);
        up := up.above;
      }
    }
    assert [] + Pending(up) == Pending(up);
  }

  lemma Shift(s: seq<Menu>, m: Menu, t: seq<Menu>)
    ensures s + ([m] + t) == (s + [m]) + t
  {
  }

  /** The walk visits the menus below the root in recursive preorder. */
  method Walk(root: Menu, ghost f: Forest, ghost heap: set<Menu>) returns (visited: seq<Menu>)
    requires root in heap && root.next == null && root.parent == null && Linked(f, root.list, root, heap)
    ensures visited == Preorder(f)
  {
    visited := [];
    var menu := root.list;
    ghost var g, above := f, Root;
    assert [] + Preorder(f) + [] == Preorder(f);
    while menu != null
      invariant Standing(menu, g, above, heap)
      invariant visited + (Preorder(g) + Pending(above)) == Preorder(f)
      decreases |Preorder(g) + Pending(above)|, menu != null
    {
      ghost var before := visited;
      visited := visited + [menu];
      menu, g, above := NextMenu(menu, g, above, heap);
      Shift(before, visited[|before|], Preorder(g) + Pending(above));
    }
  }

  /** On a tree whose root has neither siblings nor a parent, the walk visits every menu exactly once. */
  lemma VisitedOnce(root: Menu, f: Forest, heap: set<Menu>)
    requires root in heap && root.parent == null && Linked(f, root.list, root, heap)
    ensures NoRepeat(Preorder(f))
    ensures root.list != null ==> root.list in Preorder(f)
    ensures forall x :: x in Preorder(f) ==>
              && x in heap
              && (x.list != null ==> x.list in Preorder(f)) && (x.next != null ==> x.next in Preorder(f))
  {
    assert Deep(null, 0, heap);
    EveryMenuOnce(f, root.list, root, heap, 1);
    forall x | x in Preorder(f)
      ensures x in heap && (x.list != null ==> x.list in Preorder(f)) && (x.next != null ==> x.next in Preorder(f))
    {
      NoMenuMissed(f, root.list, root, heap, x);
    }
  }
}
