/** Change notifications: which GParamSpec a setter announces, and the rule by which
    a parent re-emits a child's notification (ide_file_settings_child_notify). */
module ChangeNotify {
  import opened SettingsProperties
  import opened Cascade

  /** The GType that declares a property. */
  datatype TypeName = ObjectType | FileSettingsType | ProviderType(name: string)

  /** The property a notification is about. ValueSpec and IsSetSpec are the pair
      installed per settings property, FileSpec the construct-only "file" property,
      ContextSpec the "context" property inherited from IdeObject, and ProviderSpec
      a property a provider subclass declares itself. */
  datatype ParamSpec =
    | ValueSpec(prop: Property)
    | IsSetSpec(prop: Property)
    | FileSpec
    | ContextSpec
    | ProviderSpec(provider: string, name: string)

  function Owner(ps: ParamSpec): TypeName {
    match ps
    case ValueSpec(_) | IsSetSpec(_) | FileSpec => FileSettingsType
    case ContextSpec => ObjectType
    case ProviderSpec(provider, _) => ProviderType(provider)
  }

  /** What the parent's handler emits for one notification of a child: the same
      pspec when IdeFileSettings itself declares it, and nothing otherwise. */
  function Forward(ps: ParamSpec): (r: seq<ParamSpec>)
    ensures |r| <= 1 && (r != [] ==> r == [ps])
    ensures r != [] <==> ps.ValueSpec? || ps.IsSetSpec? || ps.FileSpec?
  {
    if Owner(ps) == FileSettingsType then [ps] else []
  }

  /** The notifications a parent emits for a child that emitted es, in order. */
  function Relayed(es: seq<ParamSpec>): (r: seq<ParamSpec>)
    ensures |r| <= |es|
    decreases |es|
  {
    if es == [] then [] else Forward(es[0]) + Relayed(es[1..])
  }

  /** The notifications seen d levels above the node that emitted es. */
  function RelayedUp(es: seq<ParamSpec>, d: nat): seq<ParamSpec>
    decreases d
  {
    if d == 0 then es else Relayed(RelayedUp(es, d - 1))
  }

  /** ide_file_settings_set_X announces the value and then its is-set bit. */
  function SetEvents(p: Property): seq<ParamSpec> {
    [ValueSpec(p), IsSetSpec(p)]
  }

  /** ide_file_settings_set_X_set announces only the bit. */
  function FlagEvents(p: Property): seq<ParamSpec> {
    [IsSetSpec(p)]
  }

  /** The notifications of a sequence of set_X calls, in order: X then X-set per write. */
  function WriteEvents(ws: seq<Write>): (r: seq<ParamSpec>)
    ensures |r| == 2 * |ws|
    decreases |ws|
  {
    if ws == [] then []
    else WriteEvents(ws[..|ws| - 1]) + SetEvents(ws[|ws| - 1].prop)
  }

  /** A parent relays exactly the child's notifications about IdeFileSettings' own
      properties, and no others. */
  lemma {:induction false} RelayedMembers(es: seq<ParamSpec>, ps: ParamSpec)
    ensures ps in Relayed(es) <==> ps in es && Owner(ps) == FileSettingsType
    decreases |es|
  {
    if es != [] {
      RelayedMembers(es[1..], ps);
      assert es == [es[0]] + es[1..];
    }
  }

  /** Relaying keeps order and drops nothing the base type owns: a sequence of base-type
      notifications is relayed unchanged. */
  lemma {:induction false} RelayedOwnEvents(es: seq<ParamSpec>)
    requires forall i :: 0 <= i < |es| ==> Owner(es[i]) == FileSettingsType
    ensures Relayed(es) == es
    decreases |es|
  {
    if es != [] {
      RelayedOwnEvents(es[1..]);
    }
  }

  /** Relaying concatenated notifications relays each part. */
  lemma {:induction false} RelayedAppend(a: seq<ParamSpec>, b: seq<ParamSpec>)
    ensures Relayed(a + b) == Relayed(a) + Relayed(b)
    decreases |a|
  {
    if a == [] {
      assert a + b == b;
    } else {
      assert (a + b)[0] == a[0] && (a + b)[1..] == a[1..] + b;
      RelayedAppend(a[1..], b);
    }
  }

  /** What the parent relays passes every higher level unchanged: every ancestor at
      depth one or more sees the same notifications. */
  lemma {:induction false} RelayedUpStable(es: seq<ParamSpec>, d: nat)
    requires d >= 1
    ensures RelayedUp(es, d) == Relayed(es)
    decreases d
  {
    if d > 1 {
      RelayedUpStable(es, d - 1);
      var r := Relayed(es);
      forall i | 0 <= i < |r| ensures Owner(r[i]) == FileSettingsType {
        RelayedMembers(es, r[i]);
      }
      RelayedOwnEvents(r);
    }
  }

  /** Every notification of a setter reaches every ancestor, in the same order. */
  lemma SetterEventsReachAncestors(p: Property, d: nat)
    ensures RelayedUp(SetEvents(p), d) == SetEvents(p)
    ensures RelayedUp(FlagEvents(p), d) == FlagEvents(p)
  {
    if d >= 1 {
      RelayedUpStable(SetEvents(p), d);
      RelayedUpStable(FlagEvents(p), d);
      RelayedOwnEvents(SetEvents(p));
      RelayedOwnEvents(FlagEvents(p));
    }
  }

  /** Write i announces its value at position 2i and its bit at position 2i + 1. */
  lemma {:induction false} WriteEventsAt(ws: seq<Write>, i: nat)
    requires i < |ws|
    ensures WriteEvents(ws)[2 * i] == ValueSpec(ws[i].prop)
    ensures WriteEvents(ws)[2 * i + 1] == IsSetSpec(ws[i].prop)
    decreases |ws|
  {
    if i < |ws| - 1 {
      WriteEventsAt(ws[..|ws| - 1], i);
    }
  }

  /** A node that is connected before its writes has every one of them relayed, in order. */
  lemma WriteEventsRelayed(ws: seq<Write>)
    ensures Relayed(WriteEvents(ws)) == WriteEvents(ws)
  {
    var r := WriteEvents(ws);
    forall j | 0 <= j < |r| ensures Owner(r[j]) == FileSettingsType {
      WriteEventsAt(ws, j / 2);
    }
    RelayedOwnEvents(r);
  }

  /** Whatever a child announced before, the notifications of its later set_X calls
      reach the parent after what was relayed of the earlier ones, all of them, in order. */
  lemma RelayedAfterWrites(es: seq<ParamSpec>, ws: seq<Write>)
    ensures Relayed(es + WriteEvents(ws)) == Relayed(es) + WriteEvents(ws)
  {
    RelayedAppend(es, WriteEvents(ws));
    WriteEventsRelayed(ws);
  }
}
