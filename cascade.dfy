/** The value-level view of a tree of IdeFileSettings nodes and the cascading read
    (ide_file_settings_get_X), together with the state changes the setters and
    prepend make, stated as functions on that view. */
module Cascade {
  import opened SettingsProperties

  /** A node: its stored values, the properties whose local is-set bit is on,
      and its children in array order (index 0 is consulted first). */
  datatype Tree = Tree(values: map<Property, Value>, isSet: set<Property>, children: seq<Tree>)

  /** One property assignment, as a setter or a settings binding performs it. */
  datatype Write = Write(prop: Property, value: Value)

  /** Every node of the tree holds a well-typed value for every property. */
  ghost predicate WellFormed(t: Tree) {
    Complete(t.values) && forall c | c in t.children :: WellFormed(c)
  }

  ghost predicate WritesFit(ws: seq<Write>) {
    forall i :: 0 <= i < |ws| ==> Fits(ws[i].prop, ws[i].value)
  }

  /** A node straight after ide_file_settings_init: defaults, no bit set, no children. */
  function DefaultTree(): (t: Tree)
    ensures WellFormed(t) && t.isSet == {} && t.children == []
  {
    Tree(Defaults(), {}, [])
  }

  /** The index of the first child whose local bit for p is set, or |cs| if none is. */
  function FirstSet(cs: seq<Tree>, p: Property): (k: nat)
    ensures k <= |cs|
    ensures forall j :: 0 <= j < k ==> p !in cs[j].isSet
    ensures k < |cs| ==> p in cs[k].isSet
  {
    if cs == [] then 0
    else if p in cs[0].isSet then 0
    else 1 + FirstSet(cs[1..], p)
  }

  /** Some child of t has its own bit for p set. */
  predicate ChildSupplies(t: Tree, p: Property) {
    exists i :: 0 <= i < |t.children| && p in t.children[i].isSet
  }

  /** ide_file_settings_get_X: the first child with the local bit set answers
      (recursively); when none does, the node's own stored field is returned,
      whatever the node's own bit says. */
  function Resolve(t: Tree, p: Property): (v: Value)
    requires WellFormed(t)
    ensures Fits(p, v)
    decreases t
  {
    var k := FirstSet(t.children, p);
    if k < |t.children| then Resolve(t.children[k], p) else t.values[p]
  }

  /** ide_file_settings_set_X: store the value and set the local bit. */
  function Written(t: Tree, p: Property, v: Value): (r: Tree)
    ensures WellFormed(t) && Fits(p, v) ==> WellFormed(r)
    ensures r.children == t.children && p in r.isSet && p in r.values && r.values[p] == v
    ensures forall q :: q != p ==> (q in r.isSet <==> q in t.isSet)
    ensures forall q :: q != p && q in t.values ==> q in r.values && r.values[q] == t.values[q]
  {
    t.(values := t.values[p := v], isSet := t.isSet + {p})
  }

  /** ide_file_settings_set_X_set: change only the local bit. */
  function Flagged(t: Tree, p: Property, b: bool): (r: Tree)
    ensures WellFormed(t) ==> WellFormed(r)
    ensures r.values == t.values && r.children == t.children
    ensures (p in r.isSet) == b
    ensures forall q :: q != p ==> (q in r.isSet <==> q in t.isSet)
  {
    t.(isSet := if b then t.isSet + {p} else t.isSet - {p})
  }

  /** _ide_file_settings_prepend: the new child goes in at index 0. */
  function Prepended(t: Tree, c: Tree): (r: Tree)
    ensures WellFormed(t) && WellFormed(c) ==> WellFormed(r)
    ensures |r.children| == |t.children| + 1 && r.children[0] == c
    ensures forall i :: 0 <= i < |t.children| ==> r.children[i + 1] == t.children[i]
    ensures r.values == t.values && r.isSet == t.isSet
  {
    t.(children := [c] + t.children)
  }

  /** The writes applied in order, the last one applied last. */
  function ApplyWrites(t: Tree, ws: seq<Write>): (r: Tree)
    ensures WellFormed(t) && WritesFit(ws) ==> WellFormed(r)
    ensures r.children == t.children
    ensures t.values.Keys <= r.values.Keys
    decreases |ws|
  {
    if ws == [] then t
    else
      var last := ws[|ws| - 1];
      Written(ApplyWrites(t, ws[..|ws| - 1]), last.prop, last.value)
  }

  /** FirstSet is the lowest set index: any index with the first-set property is it. */
  lemma FirstSetUnique(cs: seq<Tree>, p: Property, k: nat)
    requires k <= |cs|
    requires forall j :: 0 <= j < k ==> p !in cs[j].isSet
    requires k < |cs| ==> p in cs[k].isSet
    ensures FirstSet(cs, p) == k
  {
  }

  /** Scanning finds a child exactly when some child supplies the property. */
  lemma FirstSetFinds(t: Tree, p: Property)
    ensures FirstSet(t.children, p) < |t.children| <==> ChildSupplies(t, p)
  {
  }

  /** The lowest-index child whose bit is set decides the read. */
  lemma FirstSetChildWins(t: Tree, p: Property, k: nat)
    requires WellFormed(t)
    requires k < |t.children| && p in t.children[k].isSet
    requires forall j :: 0 <= j < k ==> p !in t.children[j].isSet
    ensures Resolve(t, p) == Resolve(t.children[k], p)
  {
    FirstSetUnique(t.children, p, k);
  }

  /** No child after the winning one is consulted: replacing all of them changes nothing. */
  lemma LaterChildrenIgnored(t: Tree, p: Property, k: nat, rest: seq<Tree>)
    requires WellFormed(t) && forall c | c in rest :: WellFormed(c)
    requires k < |t.children| && p in t.children[k].isSet
    requires forall j :: 0 <= j < k ==> p !in t.children[j].isSet
    ensures WellFormed(t.(children := t.children[..k + 1] + rest))
    ensures Resolve(t.(children := t.children[..k + 1] + rest), p) == Resolve(t, p)
  {
    var cs := t.children[..k + 1] + rest;
    var u := t.(children := cs);
    forall c | c in cs ensures WellFormed(c) {
      if c !in rest {
        var i :| 0 <= i < |cs| && cs[i] == c;
        assert c == t.children[i];
      }
    }
    assert cs[k] == t.children[k];
    FirstSetUnique(cs, p, k);
    FirstSetUnique(t.children, p, k);
  }

  /** With no child supplying p (in particular with no children at all) the node's own
      stored value is returned, whatever its own bit says. */
  lemma OwnValueWhenNoChildSupplies(t: Tree, p: Property)
    requires WellFormed(t) && !ChildSupplies(t, p)
    ensures Resolve(t, p) == t.values[p]
  {
    FirstSetFinds(t, p);
  }

  /** A node's own bit never affects its own read, for any property. */
  lemma OwnFlagIgnored(t: Tree, p: Property, b: bool, q: Property)
    requires WellFormed(t)
    ensures Resolve(Flagged(t, p, b), q) == Resolve(t, q)
  {
  }

  /** Resolution recurses through the winner: a set grandchild under the winning child
      overrides that child's own stored value. */
  lemma GrandchildOverrides(t: Tree, p: Property, k: nat)
    requires WellFormed(t)
    requires k < |t.children| && p in t.children[k].isSet
    requires forall j :: 0 <= j < k ==> p !in t.children[j].isSet
    requires |t.children[k].children| > 0 && p in t.children[k].children[0].isSet
    ensures WellFormed(t.children[k].children[0])
    ensures Resolve(t, p) == Resolve(t.children[k].children[0], p)
  {
    FirstSetChildWins(t, p, k);
    FirstSetChildWins(t.children[k], p, 0);
  }

  /** A write is local: other properties read as before, and p reads as the written
      value unless a child supplies p, in which case the child still wins. */
  lemma WriteIsLocal(t: Tree, p: Property, v: Value, q: Property)
    requires WellFormed(t) && Fits(p, v)
    ensures q != p ==> Resolve(Written(t, p, v), q) == Resolve(t, q)
    ensures Resolve(Written(t, p, v), p) == if ChildSupplies(t, p) then Resolve(t, p) else v
  {
    FirstSetFinds(t, p);
  }

  /** A write on child k is seen by the parent unless an earlier child supplies p. */
  lemma WriteThroughChild(t: Tree, k: nat, p: Property, v: Value)
    requires WellFormed(t) && Fits(p, v) && k < |t.children|
    requires forall j :: 0 <= j < k ==> p !in t.children[j].isSet
    ensures WellFormed(t.(children := t.children[k := Written(t.children[k], p, v)]))
    ensures Resolve(t.(children := t.children[k := Written(t.children[k], p, v)]), p)
         == Resolve(Written(t.children[k], p, v), p)
  {
    var c := Written(t.children[k], p, v);
    var u := t.(children := t.children[k := c]);
    forall d | d in u.children ensures WellFormed(d) {
      var i :| 0 <= i < |u.children| && u.children[i] == d;
      if i != k { assert d == t.children[i]; }
    }
    FirstSetChildWins(u, p, k);
  }

  /** Writing the same value twice leaves the same node as writing it once. */
  lemma WriteIdempotent(t: Tree, p: Property, v: Value)
    ensures Written(Written(t, p, v), p, v) == Written(t, p, v)
  {
  }

  /** Retraction keeps the stored value: with no child supplying p, the read falls back
      to the last value stored on the node, not to the default. */
  lemma RetractFallsBack(t: Tree, p: Property, v: Value)
    requires WellFormed(t) && Fits(p, v) && !ChildSupplies(t, p)
    ensures Resolve(Flagged(Written(t, p, v), p, false), p) == v
  {
    OwnValueWhenNoChildSupplies(Flagged(Written(t, p, v), p, false), p);
  }

  /** Clearing and then re-setting the bit restores a set node exactly. */
  lemma ClearThenSetRestores(t: Tree, p: Property)
    requires p in t.isSet
    ensures Flagged(Flagged(t, p, false), p, true) == t
  {
    assert (t.isSet - {p}) + {p} == t.isSet;
  }

  /** The bit of child k decides, for the parent, between that child and the later ones:
      retracting it hands the read to the children after k. */
  lemma RetractInChild(t: Tree, k: nat, p: Property)
    requires WellFormed(t) && k < |t.children|
    requires forall j :: 0 <= j < k ==> p !in t.children[j].isSet
    ensures WellFormed(t.(children := t.children[k := Flagged(t.children[k], p, false)]))
    ensures Resolve(t.(children := t.children[k := Flagged(t.children[k], p, false)]), p)
         == Resolve(t.(children := t.children[k + 1..]), p)
  {
    var cs := t.children[k := Flagged(t.children[k], p, false)];
    var u := t.(children := cs);
    var w := t.(children := t.children[k + 1..]);
    forall d | d in cs ensures WellFormed(d) {
      var i :| 0 <= i < |cs| && cs[i] == d;
      if i != k { assert d == t.children[i]; }
    }
    assert WellFormed(u);
    forall d | d in w.children ensures WellFormed(d) {
      var i :| 0 <= i < |w.children| && w.children[i] == d;
      assert d == t.children[k + 1 + i];
    }
    assert WellFormed(w);
    var r := FirstSet(w.children, p);
    forall j | 0 <= j < k + 1 + r ensures p !in cs[j].isSet {
      if j > k { assert cs[j] == w.children[j - k - 1]; }
    }
    if r < |w.children| {
      assert cs[k + 1 + r] == w.children[r];
    }
    FirstSetUnique(cs, p, k + 1 + r);
  }

  /** The prepended child has the highest priority: it answers whenever its bit is set,
      and otherwise the node reads exactly as before. */
  lemma PrependResolves(t: Tree, c: Tree, p: Property)
    requires WellFormed(t) && WellFormed(c)
    ensures Resolve(Prepended(t, c), p) == if p in c.isSet then Resolve(c, p) else Resolve(t, p)
  {
    var u := Prepended(t, c);
    assert u.children == [c] + t.children;
    if p in c.isSet {
      FirstSetUnique(u.children, p, 0);
      assert Resolve(u, p) == Resolve(u.children[0], p);
    } else {
      var k := FirstSet(t.children, p);
      assert u.children[1..] == t.children;
      assert FirstSet(u.children, p) == 1 + k;
      if k < |t.children| {
        assert Resolve(u, p) == Resolve(u.children[k + 1], p) == Resolve(t.children[k], p);
      } else {
        assert Resolve(u, p) == u.values[p] == t.values[p];
      }
    }
  }

  /** is-set is local: a node whose own bit is clear can still read a child's value. */
  lemma LocalFlagDiffersFromRead()
    ensures var t := Prepended(DefaultTree(), Written(DefaultTree(), TabWidth, IntValue(4)));
            TabWidth !in t.isSet && Resolve(t, TabWidth) == IntValue(4) != t.values[TabWidth]
  {
    var c := Written(DefaultTree(), TabWidth, IntValue(4));
    PrependResolves(DefaultTree(), c, TabWidth);
  }
}
