# Cascading file settings (IdeFileSettings) in Dafny

This project models the file-settings resolver of GNOME Builder's libide,
`IdeFileSettings`. A settings node describes one `IdeFile`. It stores a value for each
formatting property: indent width, indent style, right-margin position, show-right-margin,
tab width, trim-trailing-whitespace, insert-trailing-newline, newline type and encoding.
Next to each value it keeps a local "is-set" bit. It also holds an ordered array of child
nodes, one per settings provider.

- A read cascades. The first child, in array order, whose own bit is set answers with its
  own resolved value. If no child's bit is set, the node's stored field answers.
- Writes and bit changes touch only the node itself.
- New children are prepended, so the provider that comes last in the extension list is
  consulted first.
- A parent re-emits a child's change notification only when `IdeFileSettings` itself
  declares the property.

Modules:

- `SettingsProperties` (`properties.dfy`): the closed property set, typed values, the
  defaults `ide_file_settings_init` leaves, and the boolean-to-indent-style mapping of the
  GSettings provider.
- `Cascade` (`cascade.dfy`): the value-level tree, the cascading read `Resolve`, and the
  effect of set, set-is-set and prepend as functions. Also the lemmas that state priority,
  fallback, locality and retraction.
- `ChangeNotify` (`notify.dfy`): which notifications the setters emit, and the forwarding
  rule of `ide_file_settings_child_notify` across any number of levels.
- `ProviderRegistry` (`registry.dfy`): `ide_file_settings_new` as a function of the
  extension list. Lemmas show that it gives reverse list order and that the last listed
  provider wins.
- `FileSettingsObject` (`file_settings.dfy`): the object itself, as class `FileSettings`.
  It has mutable fields, a children sequence, a notification log and a ghost `tree`/`Repr`.
  `Get` is the source's early-return loop. It is proved equal to `Resolve`. The setters
  and `Prepend` are proved to move `tree` exactly as the `Cascade` functions say.

Three behaviours of the code that the model keeps as written:

- The is-set query is the node's local bit only (`libide/ide-file-settings.c:92-97`). It
  does not look at the children. `Cascade.LocalFlagDiffersFromRead` shows a node whose
  bit is clear while its read comes from a child.
- With extensions listed as `[editorconfig, language-defaults]`, the later-listed
  language defaults win, because each child is prepended
  (`libide/ide-file-settings.c:346-366`). `ProviderRegistry.TwoProviderScenario` pins this.
- Setting a value twice emits both notifications both times. There is no "changed only"
  filtering (`libide/ide-file-settings.c:109-110`).

## Model

| member | source | states |
|---|---|---|
| `SettingsProperties.Defaults` | libide/ide-file-settings.c:279-291 | the initial field table holds a well-typed value for every one of the nine properties |
| `SettingsProperties.IndentFromUseSpaces` | libide/gsettings/ide-gsettings-file-settings.c:44-54 | the "insert spaces" boolean maps to Spaces exactly when it is true, and to Tabs otherwise |
| `SettingsProperties.IndentMappingBijective` | libide/gsettings/ide-gsettings-file-settings.c:44-54 | each indent style comes from exactly one boolean, so the mapping is a bijection |
| `Cascade.DefaultTree` | libide/ide-file-settings.c:279-291 | a fresh node is well formed, has every is-set bit clear and has no children |
| `Cascade.FirstSet` | libide/ide-file-settings.c:79-83 | the scan stops at the lowest index whose child has its own bit set; every earlier child has it clear; it returns the length when none is set |
| `Cascade.Resolve` | libide/ide-file-settings.c:71-87 | the cascading read always yields a value of the property's own type |
| `Cascade.Written` | libide/ide-file-settings.c:101-111 | set_X stores v for p and sets p's bit; other properties' values and bits and the children are unchanged; well-formedness is kept |
| `Cascade.Flagged` | libide/ide-file-settings.c:115-123 | set_X_set makes p's bit equal to the boolean; values, children and other bits are unchanged |
| `Cascade.Prepended` | libide/ide-file-settings.c:321-324 | the new child is at index 0, old child i moves to i+1 in the same order, and the node's own values and bits are unchanged |
| `Cascade.ApplyWrites` | libide/gsettings/ide-gsettings-file-settings.c:91-104 | a sequence of writes keeps the children and every stored key, and keeps the tree well formed |
| `Cascade.FirstSetUnique` | libide/ide-file-settings.c:79-83 | any index before which no child is set, and at which a child is set (or the end), is the index the scan returns |
| `Cascade.FirstSetFinds` | libide/ide-file-settings.c:77-86 | the scan finds a child if and only if some child has its own bit set |
| `Cascade.FirstSetChildWins` | libide/ide-file-settings.c:79-83 | get_X returns the resolved value of the lowest-index child whose bit is set |
| `Cascade.LaterChildrenIgnored` | libide/ide-file-settings.c:79-83 | replacing every child after the winning one leaves the read unchanged, so no later child is consulted |
| `Cascade.OwnValueWhenNoChildSupplies` | libide/ide-file-settings.c:77-86 | when no child's bit is set (for example when there are no children), get_X returns the node's own stored field |
| `Cascade.OwnFlagIgnored` | libide/ide-file-settings.c:71-87 | a node's own bit never changes its own read, for any property |
| `Cascade.GrandchildOverrides` | libide/ide-file-settings.c:82-83 | the read recurses through the winning child: a set grandchild under it decides the result |
| `Cascade.WriteIsLocal` | libide/ide-file-settings.c:101-111 | after set_X, other properties read as before; p reads as the written value unless a child has p set, in which case the old read stands |
| `Cascade.WriteThroughChild` | libide/ide-file-settings.c:79-83 | a provider's write on child k is what the parent reads, provided no earlier child has p set |
| `Cascade.WriteIdempotent` | libide/ide-file-settings.c:101-108 | writing the same value twice leaves the same node state as writing it once |
| `Cascade.RetractFallsBack` | libide/ide-file-settings.c:115-123 | after clearing the bit, with no child supplying p, the node reads as the last value stored, not the default |
| `Cascade.ClearThenSetRestores` | libide/ide-file-settings.c:115-123 | clearing and then re-setting the bit of a set property restores the node exactly, because the stored value is untouched |
| `Cascade.RetractInChild` | libide/ide-file-settings.c:79-85 | clearing child k's bit (no earlier child set) hands the parent's read to the children after k |
| `Cascade.PrependResolves` | libide/ide-file-settings.c:321-324 | after prepend, the new child answers whenever its bit is set; otherwise the node reads exactly as before |
| `Cascade.LocalFlagDiffersFromRead` | libide/ide-file-settings.c:92-97 | a node whose own bit is clear can still read a value from a child that differs from its stored field |
| `ChangeNotify.Forward` | libide/ide-file-settings.c:293-304 | the handler re-emits the same pspec exactly for the properties IdeFileSettings declares, and nothing for IdeObject's or a provider's own properties |
| `ChangeNotify.RelayedMembers` | libide/ide-file-settings.c:302-303 | a notification reaches the parent if and only if the child emitted it and IdeFileSettings owns it |
| `ChangeNotify.RelayedOwnEvents` | libide/ide-file-settings.c:302-303 | notifications about IdeFileSettings' own properties are relayed unchanged and in order |
| `ChangeNotify.RelayedUpStable` | libide/ide-file-settings.c:293-304 | every ancestor at depth one or more sees exactly what the parent sees |
| `ChangeNotify.SetterEventsReachAncestors` | libide/ide-file-settings.c:101-123 | the X and X-set notifications of set_X, and the X-set notification of set_X_set, reach every ancestor in order |
| `ChangeNotify.WriteEventsAt` | libide/ide-file-settings.c:107-110 | in the notifications of a sequence of set_X calls, write i announces its property at position 2i and that property's is-set at 2i + 1 |
| `ChangeNotify.WriteEventsRelayed` | libide/ide-file-settings.c:293-304 | every notification of a sequence of set_X calls on a connected child is relayed by the parent, unchanged and in order |
| `ChangeNotify.RelayedAfterWrites` | libide/ide-file-settings.c:293-304 | after whatever a child announced earlier, the notifications of its later set_X calls reach the parent in full and in order, after what was relayed of the earlier ones |
| `ProviderRegistry.ProviderTree` | libide/ide-file-settings.c:360-363 | a provider's node has no children, and it is well formed when its writes are well typed |
| `ProviderRegistry.Children` | libide/ide-file-settings.c:346-366 | the children built from well-typed extensions are all well formed |
| `ProviderRegistry.Built` | libide/ide-file-settings.c:327-369 | the root that is built is well formed |
| `ProviderRegistry.ChildrenAreReversedProviders` | libide/ide-file-settings.c:346-366 | the children are the settings-type extensions in reverse list order; other types are skipped and the rest are still added |
| `ProviderRegistry.ApplyWritesLookup` | libide/gsettings/ide-gsettings-file-settings.c:91-104 | after its writes, a node has p set exactly when some write was to p, and then holds the last value written |
| `ProviderRegistry.BuiltResolves` | libide/ide-file-settings.c:346-366 | on the built root, p reads as the value of the last-listed settings provider that writes p, or as the default when none does |
| `ProviderRegistry.TwoProviderScenario` | libide/ide-file-settings.c:346-366 | with [editorconfig, language-defaults, non-settings type], indent width is 8 (the later provider), tab width is 8, and show-right-margin is false with the root's bit clear |
| `FileSettingsObject.FileSettings.constructor` | libide/ide-file-settings.c:151-164 | a new object for the file holds the default values of init (lines 279-291), every bit clear and no children; setting the construct-only file has announced "file" exactly once |
| `FileSettingsObject.FileSettings.Get` | libide/ide-file-settings.c:71-87 | the early-return loop over the children returns exactly the cascading read of the node's tree |
| `FileSettingsObject.FileSettings.GetIsSet` | libide/ide-file-settings.c:91-97 | returns the node's own bit for p and nothing from its children |
| `FileSettingsObject.FileSettings.Set` | libide/ide-file-settings.c:101-111 | the node's tree becomes the written tree; children are unchanged; X then X-set are appended to the notifications |
| `FileSettingsObject.FileSettings.SetIsSet` | libide/ide-file-settings.c:115-123 | only p's bit changes, to the given boolean; only X-set is appended to the notifications |
| `FileSettingsObject.FileSettings.ChildNotify` | libide/ide-file-settings.c:293-304 | the node's notifications grow by exactly what the forwarding rule passes; its settings are unchanged |
| `FileSettingsObject.FileSettings.Prepend` | libide/ide-file-settings.c:306-325 | the child goes in at index 0, the old children follow in order, the tree is the prepended tree, and no notification is emitted |
| `FileSettingsObject.FileSettings.Populate` | libide/gsettings/ide-gsettings-file-settings.c:91-104 | a provider's construction-time writes, applied one by one through set_X, leave the tree given by applying them in order, and append X then X-set per write to the provider's own notifications |
| `FileSettingsObject.AddExtension` | libide/ide-file-settings.c:346-366 | one loop pass: a settings-type extension becomes a fresh child for the file at index 0, populated by its writes; any other type leaves the root unchanged; the root emits no notification |
| `FileSettingsObject.New` | libide/ide-file-settings.c:327-369 | returns a fresh, valid root for the file whose tree is the built tree; every child describes the same file; the root's only notification is the "file" one from its construction, because the children are populated before they are attached |

## Left out

- GObject property dispatch, GParamSpec installation and the `.defs` descriptor file
  (`libide/ide-file-settings.c:179-277`). These are reflection plumbing over the same
  getters and setters. Any range limits a GParamSpec might impose are therefore not
  modelled, and every well-typed value is accepted.
- The per-property `assign_stmt` from the `.defs` file, such as the string copy for the
  encoding. Each assignment is modelled as plain replacement.
- Reference counting, `finalize`, and the weak pointer to the file
  (`libide/ide-file-settings.c:150-177`). The file is an immutable `const` field, and the
  file being destroyed later is not modelled. `ide_file_settings_get_file` is that field,
  read directly. Setting the file again is not modelled, since the property is
  construct-only.
- FileSettingsObject.FileSettings.constructor: any notification of IdeObject's "context"
  property during construction is not logged; IdeObject is not part of this model.
- The signal connection itself (`libide/ide-file-settings.c:315-319`). The handler is
  modelled (`FileSettings.ChildNotify`) but is not wired to children. The relay across
  levels is stated on sequences in `ChangeNotify`.
- Notifications a provider emits while it is constructed and populated happen before it
  is connected, so its parent never relays them. `FileSettings.Populate` states the
  provider's own notifications, and `New` states that the root's log holds only its own
  "file" notification.
- GIO extension-point discovery and the `g_warning` for a skipped type. The extension
  list is an input, taken in the order given; how GIO orders that list (by priority) is
  not modelled. Each entry carries its type name, whether that type is a settings
  type, and the writes the provider performs while it is constructed.
- The GSettings provider's binding to an external settings store, and its language lookup
  (`libide/gsettings/ide-gsettings-file-settings.c:65-105`). The provider is modelled only
  through the writes it performs, as `Extension.writes`, and through its
  boolean-to-indent-style mapping. A file with no language is an extension with no writes.
- FileSettingsObject.FileSettings.Set: when it is called on a node that is already attached to a parent, the
  parent's ghost tree is not updated, because the model has no aliasing-aware frame for
  it. The effect of such a provider update on the parent's read is stated on values in
  `Cascade.WriteThroughChild` and `Cascade.RetractInChild`.
- FileSettingsObject.FileSettings.Prepend requires that the child does not already contain the parent. The
  source does not check for cycles. With a cycle, a read of a property whose bit is set
  on every node along the cycle would recurse forever.
- The `g_return_if_fail` type checks are carried by Dafny's types.
- `src/plugins/ctags/ide-ctags-symbol-resolver.h` and
  `plugins/flatpak/gbp-flatpak-application-addin.h` contain only declarations, no logic.
