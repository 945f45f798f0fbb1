/** ide_file_settings_new: the root node and its one level of provider children, built
    from the list of extensions registered at the IdeFileSettings extension point. */
module ProviderRegistry {
  import opened SettingsProperties
  import opened Cascade

  datatype Option<T> = None | Some(value: T)

  /** One registered extension: the name of its GType, whether that type is an
      IdeFileSettings, and the property writes the provider performs on itself
      while it is constructed (a GSettings binding writes each bound key this way). */
  datatype Extension = Extension(typeName: string, isFileSettings: bool, writes: seq<Write>)

  ghost predicate ExtensionsFit(exts: seq<Extension>) {
    forall i :: 0 <= i < |exts| ==> WritesFit(exts[i].writes)
  }

  /** The node a provider yields: a default node after its own writes. */
  function ProviderTree(e: Extension): (t: Tree)
    ensures WritesFit(e.writes) ==> WellFormed(t)
    ensures t.children == []
  {
    ApplyWrites(DefaultTree(), e.writes)
  }

  /** The root's children after the construction loop has run over exts: each
      settings type prepended in turn, other types skipped. */
  function Children(exts: seq<Extension>): (cs: seq<Tree>)
    ensures ExtensionsFit(exts) ==> forall c | c in cs :: WellFormed(c)
    decreases |exts|
  {
    if exts == [] then []
    else
      var last := exts[|exts| - 1];
      var earlier := Children(exts[..|exts| - 1]);
      if last.isFileSettings then [ProviderTree(last)] + earlier else earlier
  }

  /** The tree ide_file_settings_new returns. */
  function Built(exts: seq<Extension>): (t: Tree)
    ensures ExtensionsFit(exts) ==> WellFormed(t)
  {
    DefaultTree().(children := Children(exts))
  }

  /** One step of the construction loop: extension i is either prepended or skipped. */
  lemma BuiltStep(exts: seq<Extension>, i: nat)
    requires i < |exts|
    ensures Built(exts[..i + 1]) == if exts[i].isFileSettings
                                    then Prepended(Built(exts[..i]), ProviderTree(exts[i]))
                                    else Built(exts[..i])
  {
    assert exts[..i + 1][..i] == exts[..i];
  }

  /** The last write to p among ws, if any: the value a provider ends up holding. */
  function LastWrite(ws: seq<Write>, p: Property): Option<Value>
    decreases |ws|
  {
    if ws == [] then None
    else if ws[|ws| - 1].prop == p then Some(ws[|ws| - 1].value)
    else LastWrite(ws[..|ws| - 1], p)
  }

  /** The value of the last-listed settings extension that writes p, if any. */
  function Winner(exts: seq<Extension>, p: Property): Option<Value>
    decreases |exts|
  {
    if exts == [] then None
    else
      var last := exts[|exts| - 1];
      if last.isFileSettings && LastWrite(last.writes, p).Some? then LastWrite(last.writes, p)
      else Winner(exts[..|exts| - 1], p)
  }

  // Filter, map and reverse, each defined from the front of the list.

  function Registered(exts: seq<Extension>): seq<Extension>
    decreases |exts|
  {
    if exts == [] then []
    else (if exts[0].isFileSettings then [exts[0]] else []) + Registered(exts[1..])
  }

  function ProviderTrees(es: seq<Extension>): seq<Tree>
    decreases |es|
  {
    if es == [] then [] else [ProviderTree(es[0])] + ProviderTrees(es[1..])
  }

  function Reverse<T>(s: seq<T>): seq<T>
    decreases |s|
  {
    if s == [] then [] else Reverse(s[1..]) + [s[0]]
  }

  lemma {:induction false} RegisteredSnoc(exts: seq<Extension>, e: Extension)
    ensures Registered(exts + [e]) == Registered(exts) + (if e.isFileSettings then [e] else [])
    decreases |exts|
  {
    var tail := if e.isFileSettings then [e] else [];
    if exts == [] {
      assert exts + [e] == [e] && [e][1..] == [];
      assert Registered([e]) == tail + Registered([]);
    } else {
      var x := exts + [e];
      var head := if exts[0].isFileSettings then [exts[0]] else [];
      assert x[0] == exts[0] && x[1..] == exts[1..] + [e];
      RegisteredSnoc(exts[1..], e);
      calc {
        Registered(x);
        head + Registered(exts[1..] + [e]);
        head + (Registered(exts[1..]) + tail);
        (head + Registered(exts[1..])) + tail;
        Registered(exts) + tail;
      }
    }
  }

  lemma {:induction false} ProviderTreesAppend(a: seq<Extension>, b: seq<Extension>)
    ensures ProviderTrees(a + b) == ProviderTrees(a) + ProviderTrees(b)
    decreases |a|
  {
    if a == [] {
      assert a + b == b;
    } else {
      assert (a + b)[0] == a[0] && (a + b)[1..] == a[1..] + b;
      ProviderTreesAppend(a[1..], b);
    }
  }

  lemma {:induction false} ReverseSnoc<T>(s: seq<T>, x: T)
    ensures Reverse(s + [x]) == [x] + Reverse(s)
    decreases |s|
  {
    if s == [] {
      assert s + [x] == [x];
    } else {
      assert (s + [x])[0] == s[0] && (s + [x])[1..] == s[1..] + [x];
      ReverseSnoc(s[1..], x);
    }
  }

  /** Construction yields the settings providers in reverse list order, skipping the
      extensions whose type is not a settings type. */
  lemma {:induction false} ChildrenAreReversedProviders(exts: seq<Extension>)
    ensures Children(exts) == Reverse(ProviderTrees(Registered(exts)))
    decreases |exts|
  {
    if exts != [] {
      var earlier, last := exts[..|exts| - 1], exts[|exts| - 1];
      assert exts == earlier + [last];
      ChildrenAreReversedProviders(earlier);
      RegisteredSnoc(earlier, last);
      var trees := ProviderTrees(Registered(earlier));
      if last.isFileSettings {
        ProviderTreesAppend(Registered(earlier), [last]);
        assert [last][1..] == [];
        assert ProviderTrees([last]) == [ProviderTree(last)];
        ReverseSnoc(trees, ProviderTree(last));
        calc {
          Reverse(ProviderTrees(Registered(exts)));
          Reverse(ProviderTrees(Registered(earlier) + [last]));
          Reverse(trees + [ProviderTree(last)]);
          [ProviderTree(last)] + Reverse(trees);
          [ProviderTree(last)] + Children(earlier);
        }
        assert Children(exts) == [ProviderTree(last)] + Children(earlier);
      } else {
        assert Registered(earlier) + [] == Registered(earlier);
        assert Children(exts) == Children(earlier);
      }
    }
  }

  /** A provider's node has p set exactly when one of its writes is to p, and then holds
      the last value written. */
  lemma {:induction false} ApplyWritesLookup(t: Tree, ws: seq<Write>, p: Property)
    requires p in t.values
    ensures p in ApplyWrites(t, ws).values
    ensures p in ApplyWrites(t, ws).isSet <==> p in t.isSet || LastWrite(ws, p).Some?
    ensures ApplyWrites(t, ws).values[p]
         == if LastWrite(ws, p).Some? then LastWrite(ws, p).value else t.values[p]
    decreases |ws|
  {
    if ws != [] {
      ApplyWritesLookup(t, ws[..|ws| - 1], p);
    }
  }

  /** Priority: on the built root, p reads as the value of the last-listed settings
      provider that writes p, and as the default when no provider writes it. */
  lemma {:induction false} BuiltResolves(exts: seq<Extension>, p: Property)
    requires ExtensionsFit(exts)
    ensures Resolve(Built(exts), p) == match Winner(exts, p)
                                       case Some(v) => v
                                       case None => Defaults()[p]
    decreases |exts|
  {
    if exts == [] {
      OwnValueWhenNoChildSupplies(Built(exts), p);
    } else {
      var earlier, last := exts[..|exts| - 1], exts[|exts| - 1];
      assert ExtensionsFit(earlier) by {
        forall i | 0 <= i < |earlier| ensures WritesFit(earlier[i].writes) {
          assert earlier[i] == exts[i];
        }
      }
      BuiltResolves(earlier, p);
      if last.isFileSettings {
        var c := ProviderTree(last);
        assert Built(exts) == Prepended(Built(earlier), c);
        PrependResolves(Built(earlier), c, p);
        ApplyWritesLookup(DefaultTree(), last.writes, p);
        if p in c.isSet {
          OwnValueWhenNoChildSupplies(c, p);
        }
      }
    }
  }

  /** Two providers listed as [editorconfig, language defaults] and one extension that is
      not a settings type: the later-listed language defaults win for indent-width, the
      only writer of tab-width supplies it, and an unwritten property reads as its default
      with the root's own bit clear. */
  lemma TwoProviderScenario()
    ensures var exts := [
              Extension("editorconfig", true, [Write(IndentWidth, IntValue(4))]),
              Extension("language-defaults", true,
                        [Write(IndentWidth, IntValue(8)), Write(TabWidth, IntValue(8))]),
              Extension("not-a-provider", false, [Write(IndentWidth, IntValue(2))])];
            && |Built(exts).children| == 2
            && Resolve(Built(exts), IndentWidth) == IntValue(8)
            && Resolve(Built(exts), TabWidth) == IntValue(8)
            && Resolve(Built(exts), ShowRightMargin) == BoolValue(false)
            && ShowRightMargin !in Built(exts).isSet
  {
    var w1, w2, w3 := Write(IndentWidth, IntValue(4)), Write(IndentWidth, IntValue(8)), Write(TabWidth, IntValue(8));
    var e1 := Extension("editorconfig", true, [w1]);
    var e2 := Extension("language-defaults", true, [w2, w3]);
    var e3 := Extension("not-a-provider", false, [Write(IndentWidth, IntValue(2))]);
    var exts := [e1, e2, e3];
    assert exts[..2] == [e1, e2] && [e1, e2][..1] == [e1] && [e1][..0] == [];
    assert [w2, w3][..1] == [w2] && [w2][..0] == [] && [w1][..0] == [];
    assert Children(exts) == Children([e1, e2]) == [ProviderTree(e2)] + Children([e1]);
    assert Children([e1]) == [ProviderTree(e1)];
    assert LastWrite(e2.writes, IndentWidth) == Some(IntValue(8));
    assert LastWrite(e2.writes, TabWidth) == Some(IntValue(8));
    assert LastWrite([w2, w3], ShowRightMargin) == LastWrite([w2], ShowRightMargin)
        == LastWrite([], ShowRightMargin) == None;
    assert LastWrite([w1], ShowRightMargin) == LastWrite([], ShowRightMargin);
    assert Winner(exts, IndentWidth) == Winner([e1, e2], IndentWidth) == Some(IntValue(8));
    assert Winner(exts, TabWidth) == Winner([e1, e2], TabWidth) == Some(IntValue(8));
    assert Winner(exts, ShowRightMargin) == Winner([e1, e2], ShowRightMargin) == Winner([e1], ShowRightMargin) == None;
    BuiltResolves(exts, IndentWidth);
    BuiltResolves(exts, TabWidth);
    BuiltResolves(exts, ShowRightMargin);
  }
}
