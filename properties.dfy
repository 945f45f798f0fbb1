/** The fixed, closed set of formatting properties an IdeFileSettings node carries,
    the typed values they take, and the defaults a freshly initialised node stores. */
module SettingsProperties {

  /** One property per field of the node's private struct. */
  datatype Property =
    | IndentWidth
    | IndentStyle
    | RightMarginPosition
    | ShowRightMargin
    | TabWidth
    | TrimTrailingWhitespace
    | InsertTrailingNewline
    | NewlineType
    | Encoding

  /** IdeIndentStyle. */
  datatype IndentKind = Spaces | Tabs

  /** GtkSourceNewlineType. */
  datatype NewlineKind = Lf | Cr | CrLf

  /** The encoding is a nullable C string: NoText stands for NULL. */
  datatype Text = NoText | Text(chars: string)

  /** A stored or resolved property value, tagged with its semantic type. */
  datatype Value =
    | IntValue(n: int)
    | BoolValue(b: bool)
    | IndentValue(style: IndentKind)
    | NewlineValue(newline: NewlineKind)
    | TextValue(text: Text)

  /** The C type of each field: a value fits a property when it has that type. */
  predicate Fits(p: Property, v: Value) {
    match p
    case IndentWidth | RightMarginPosition | TabWidth => v.IntValue?
    case ShowRightMargin | TrimTrailingWhitespace | InsertTrailingNewline => v.BoolValue?
    case IndentStyle => v.IndentValue?
    case NewlineType => v.NewlineValue?
    case Encoding => v.TextValue?
  }

  /** A value table holds a well-typed value for every property. */
  ghost predicate Complete(m: map<Property, Value>) {
    forall p: Property :: p in m && Fits(p, m[p])
  }

  /** The whole property set. */
  const ALL_PROPERTIES: set<Property> :=
    {IndentWidth, IndentStyle, RightMarginPosition, ShowRightMargin, TabWidth,
     TrimTrailingWhitespace, InsertTrailingNewline, NewlineType, Encoding}

  /** The property set is closed: every property is one of the nine. */
  lemma PropertyCases()
    ensures forall p: Property :: p in ALL_PROPERTIES
  {
    forall p: Property ensures p in ALL_PROPERTIES {
      match p
      case IndentWidth =>
      case IndentStyle =>
      case RightMarginPosition =>
      case ShowRightMargin =>
      case TabWidth =>
      case TrimTrailingWhitespace =>
      case InsertTrailingNewline =>
      case NewlineType =>
      case Encoding =>
    }
  }

  /** The fields as ide_file_settings_init leaves them; the two fields it does not
      assign (show-right-margin and encoding) keep the zero of GObject allocation. */
  function Defaults(): (m: map<Property, Value>)
    ensures Complete(m)
  {
    var m := map[
      IndentStyle := IndentValue(Spaces),
      IndentWidth := IntValue(-1),
      InsertTrailingNewline := BoolValue(true),
      NewlineType := NewlineValue(Lf),
      RightMarginPosition := IntValue(80),
      TabWidth := IntValue(8),
      TrimTrailingWhitespace := BoolValue(true),
      ShowRightMargin := BoolValue(false),
      Encoding := TextValue(NoText)
    ];
    PropertyCases();
    assert m.Keys == ALL_PROPERTIES;
    m
  }

  /** The mapping the GSettings provider applies to the boolean key
      "insert-spaces-instead-of-tabs" to obtain an indent style. */
  function IndentFromUseSpaces(useSpaces: bool): (k: IndentKind)
    ensures (k == Spaces) == useSpaces
  {
    if useSpaces then Spaces else Tabs
  }

  /** Every indent style is reached by exactly one boolean: the mapping is a bijection. */
  lemma IndentMappingBijective(k: IndentKind)
    ensures IndentFromUseSpaces(k == Spaces) == k
    ensures forall b: bool :: IndentFromUseSpaces(b) == k <==> b == (k == Spaces)
  {
  }
}
