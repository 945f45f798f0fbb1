/** IdeFileSettings as an object: its private fields, its children array and the
    notifications it emits, each operation proved against the value-level tree of
    module Cascade. */
module FileSettingsObject {
  import opened SettingsProperties
  import opened Cascade
  import opened ChangeNotify
  import opened ProviderRegistry

  /** The IdeFile a settings object describes. */
  datatype FileRef = FileRef(path: string)

  class FileSettings {
    const file: FileRef
    var values: map<Property, Value>
    var isSet: set<Property>
    var children: seq<FileSettings>
    /** Every notify this object has emitted, oldest first. */
    var notified: seq<ParamSpec>

    /** The value-level view of this node and its subtree. */
    ghost var tree: Tree
    ghost var Repr: set<object>

    ghost predicate Valid()
      reads this, Repr
      decreases Repr
    {
      && this in Repr
      && WellFormed(tree)
      && tree.values == values
      && tree.isSet == isSet
      && (forall c | c in children ::
            c in Repr && c.Repr <= Repr && this !in c.Repr && c.Valid())
      && |tree.children| == |children|
      && forall i | 0 <= i < |children| :: children[i].tree == tree.children[i]
    }

    /** g_object_new: ide_file_settings_init, then the construct-only "file" property,
        whose setter announces "file" because the weak pointer was still unset. */
    constructor (f: FileRef)
      ensures Valid() && fresh(Repr) && file == f
      ensures tree == DefaultTree() && children == [] && notified == [FileSpec]
    {
      file := f;
      values := Defaults();
      isSet := {};
      children := [];
      notified := [FileSpec];
      tree := DefaultTree();
      Repr := {this};
    }

    /** ide_file_settings_get_X: scan the children in order; the first whose own bit is
        set answers with its own get_X; otherwise the stored field. */
    method Get(p: Property) returns (v: Value)
      requires Valid()
      ensures v == Resolve(tree, p)
      decreases Repr
    {
      var i := 0;
      while i < |children|
        invariant 0 <= i <= |children|
        invariant forall j :: 0 <= j < i ==> p !in tree.children[j].isSet
      {
        var child := children[i];
        var childSet := child.GetIsSet(p);
        if childSet {
          v := child.Get(p);
          FirstSetUnique(tree.children, p, i);
          return;
        }
        i := i + 1;
      }
      FirstSetUnique(tree.children, p, |children|);
      v := values[p];
    }

    /** ide_file_settings_get_X_set: the local bit only, children are not consulted. */
    method GetIsSet(p: Property) returns (b: bool)
      requires Valid()
      ensures b <==> p in tree.isSet
    {
      b := p in isSet;
    }

    /** ide_file_settings_set_X: store, set the bit, announce X then X-set. */
    method Set(p: Property, v: Value)
      requires Valid() && Fits(p, v)
      modifies this
      ensures Valid() && Repr == old(Repr) && children == old(children)
      ensures tree == Written(old(tree), p, v)
      ensures notified == old(notified) + SetEvents(p)
    {
      values := values[p := v];
      isSet := isSet + {p};
      tree := Written(tree, p, v);
      notified := notified + SetEvents(p);
    }

    /** ide_file_settings_set_X_set: change the bit only, announce X-set. */
    method SetIsSet(p: Property, b: bool)
      requires Valid()
      modifies this
      ensures Valid() && Repr == old(Repr) && children == old(children)
      ensures tree == Flagged(old(tree), p, b)
      ensures notified == old(notified) + FlagEvents(p)
    {
      isSet := if b then isSet + {p} else isSet - {p};
      tree := Flagged(tree, p, b);
      notified := notified + FlagEvents(p);
    }

    /** ide_file_settings_child_notify: re-emit a child's notify when IdeFileSettings
        declares the property. */
    method ChildNotify(ps: ParamSpec)
      requires Valid()
      modifies this
      ensures Valid() && Repr == old(Repr) && children == old(children) && tree == old(tree)
      ensures notified == old(notified) + Forward(ps)
    {
      notified := notified + Forward(ps);
    }

    /** _ide_file_settings_prepend: insert the child at index 0. */
    method Prepend(child: FileSettings)
      requires Valid() && child.Valid() && this !in child.Repr
      modifies this
      ensures Valid() && Repr == old(Repr) + child.Repr
      ensures children == [child] + old(children)
      ensures tree == Prepended(old(tree), child.tree)
      ensures notified == old(notified)
    {
      assert WellFormed(child.tree);
      children, tree, Repr := [child] + children, Prepended(tree, child.tree), Repr + child.Repr;
    }

    /** The writes a provider performs on itself while it is constructed, in order. */
    method Populate(ws: seq<Write>)
      requires Valid() && WritesFit(ws)
      modifies this
      ensures Valid() && Repr == old(Repr) && children == old(children)
      ensures tree == ApplyWrites(old(tree), ws)
      ensures notified == old(notified) + WriteEvents(ws)
    {
      ghost var t0, n0 := tree, notified;
      var i := 0;
      while i < |ws|
        invariant 0 <= i <= |ws|
        invariant Valid() && Repr == old(Repr) && children == old(children)
        invariant tree == ApplyWrites(t0, ws[..i]) && notified == n0 + WriteEvents(ws[..i])
      {
        WritesStep(t0, ws, i);
        Set(ws[i].prop, ws[i].value);
        i := i + 1;
      }
      assert ws[..|ws|] == ws;
    }
  }

  /** Extending a write sequence by one write extends its tree and its notifications by
      that write alone. */
  lemma WritesStep(t: Tree, ws: seq<Write>, i: nat)
    requires i < |ws|
    ensures ApplyWrites(t, ws[..i + 1]) == Written(ApplyWrites(t, ws[..i]), ws[i].prop, ws[i].value)
    ensures WriteEvents(ws[..i + 1]) == WriteEvents(ws[..i]) + SetEvents(ws[i].prop)
  {
    assert ws[..i + 1][..i] == ws[..i];
  }

  /** One pass of the construction loop: a settings-type extension becomes a fresh
      child for the file, populated by its writes and prepended; any other is skipped. */
  method AddExtension(r: FileSettings, f: FileRef, e: Extension)
    requires r.Valid() && WritesFit(e.writes)
    modifies r
    ensures r.Valid() && fresh(r.Repr - old(r.Repr)) && r.notified == old(r.notified)
    ensures r.tree == if e.isFileSettings then Prepended(old(r.tree), ProviderTree(e))
                      else old(r.tree)
    ensures e.isFileSettings ==> && |r.children| == |old(r.children)| + 1
                                 && r.children[0].file == f
                                 && r.children[1..] == old(r.children)
    ensures !e.isFileSettings ==> r.children == old(r.children)
  {
    if e.isFileSettings {
      var child := new FileSettings(f);
      child.Populate(e.writes);
      assert child.tree == ProviderTree(e);
      r.Prepend(child);
    }
  }

  /** ide_file_settings_new: a default root bound to the file, and one child per
      extension whose type is a settings type, each prepended in list order. */
  method New(f: FileRef, exts: seq<Extension>) returns (r: FileSettings)
    requires ExtensionsFit(exts)
    ensures r.Valid() && fresh(r.Repr) && r.file == f
    ensures r.tree == Built(exts) && r.notified == [FileSpec]
    ensures forall i :: 0 <= i < |r.children| ==> r.children[i].file == f
  {
    r := new FileSettings(f);
    var i := 0;
    while i < |exts|
      invariant 0 <= i <= |exts|
      invariant r.Valid() && fresh(r.Repr) && r.file == f
      invariant r.tree == Built(exts[..i]) && r.notified == [FileSpec]
      invariant forall j :: 0 <= j < |r.children| ==> r.children[j].file == f
    {
      BuiltStep(exts, i);
      AddExtension(r, f, exts[i]);
      i := i + 1;
    }
    assert exts[..|exts|] == exts;
  }
}
