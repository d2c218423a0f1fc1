/**
 * The plain data logic of the UI types (src/framework/ui/uitypes.h): theme-code
 * classification, the first-match lookups of an action list, and the value predicates and
 * equalities of actions, action states and tool configurations.
 */
module UiTypes {

  datatype Option<T> = None | Some(value: T)

  //---------------------------------------------------------------------------
  //   Themes
  //---------------------------------------------------------------------------

  type ThemeCode = string

  const LightThemeCode: ThemeCode := "light"
  const DarkThemeCode: ThemeCode := "dark"
  const HighContrastWhiteThemeCode: ThemeCode := "high_contrast_white"
  const HighContrastBlackThemeCode: ThemeCode := "high_contrast_black"

  /** The four standard themes, light first, each listed once. */
  function AllStandardThemeCodes(): (r: seq<ThemeCode>)
    ensures |r| == 4 && r[0] == LightThemeCode && r[1] == DarkThemeCode
    ensures r[2] == HighContrastWhiteThemeCode && r[3] == HighContrastBlackThemeCode
    ensures forall i, j :: 0 <= i < j < |r| ==> r[i] != r[j]
    ensures DarkThemeCode in r && HighContrastWhiteThemeCode in r && HighContrastBlackThemeCode in r
  {
    [LightThemeCode, DarkThemeCode, HighContrastWhiteThemeCode, HighContrastBlackThemeCode]
  }

  /** isDarkTheme: the dark theme and the black high-contrast theme. */
  function IsDarkTheme(c: ThemeCode): (r: bool)
    ensures r ==> c in AllStandardThemeCodes() && c != LightThemeCode && c != HighContrastWhiteThemeCode
  {
    c == DarkThemeCode || c == HighContrastBlackThemeCode
  }

  /** isHighContrastTheme: the white and the black high-contrast themes. */
  function IsHighContrastTheme(c: ThemeCode): (r: bool)
    ensures r ==> c in AllStandardThemeCodes() && c != LightThemeCode && c != DarkThemeCode
  {
    c == HighContrastWhiteThemeCode || c == HighContrastBlackThemeCode
  }

  /**
   * The two classifications tell the standard themes apart: light is neither, dark is dark
   * only, high_contrast_white is high contrast only, high_contrast_black is both; so a
   * standard theme is determined by its pair of answers.
   */
  lemma ThemeClassification()
    ensures !IsDarkTheme(LightThemeCode) && !IsHighContrastTheme(LightThemeCode)
    ensures IsDarkTheme(DarkThemeCode) && !IsHighContrastTheme(DarkThemeCode)
    ensures !IsDarkTheme(HighContrastWhiteThemeCode) && IsHighContrastTheme(HighContrastWhiteThemeCode)
    ensures IsDarkTheme(HighContrastBlackThemeCode) && IsHighContrastTheme(HighContrastBlackThemeCode)
    ensures forall a, b :: a in AllStandardThemeCodes() && b in AllStandardThemeCodes() ==>
              (IsDarkTheme(a) == IsDarkTheme(b) && IsHighContrastTheme(a) == IsHighContrastTheme(b) ==> a == b)
  {
    assert "light" != "dark" && "light"[0] != "high_contrast_white"[0];
    assert "dark"[0] != "high_contrast_white"[0];
  }

  /** A code outside the standard list is treated as a light, normal-contrast theme. */
  lemma NonStandardThemeIsPlain(c: ThemeCode)
    requires c !in AllStandardThemeCodes()
    ensures !IsDarkTheme(c) && !IsHighContrastTheme(c)
  {
  }

  //---------------------------------------------------------------------------
  //   Actions
  //---------------------------------------------------------------------------

  type ActionCode = string

  datatype Checkable = No | Yes

  /**
   * A UI action (uitypes.h:188-243). The context is the text of its UiContext; the icon is the
   * number of its IconCode.
   */
  datatype UiAction = UiAction(
    code: ActionCode,
    context: string,
    title: string,
    description: string,
    iconCode: int,
    checkable: Checkable,
    shortcuts: seq<string>)

  /** isValid: an action is valid exactly when it has a code. */
  function IsValid(a: UiAction): (r: bool)
    ensures r <==> |a.code| > 0
  {
    a.code != []
  }

  /**
   * operator== as written: the shortcuts term compares the field with itself, so equality
   * holds exactly when the actions agree on everything but their shortcuts.
   */
  function EqualsAsWritten(a: UiAction, b: UiAction): (r: bool)
    ensures r <==> a.(shortcuts := []) == b.(shortcuts := [])
  {
    a.code == b.code
    && a.context == b.context
    && a.title == b.title
    && a.description == b.description
    && a.iconCode == b.iconCode
    && a.checkable == b.checkable
    && a.shortcuts == a.shortcuts
  }

  /** Two actions that differ only in their shortcuts are equal under operator== as written. */
  lemma ShortcutsIgnored(a: UiAction, extra: string)
    ensures a != a.(shortcuts := a.shortcuts + [extra])
    ensures EqualsAsWritten(a, a.(shortcuts := a.shortcuts + [extra]))
  {
    assert |a.(shortcuts := a.shortcuts + [extra]).shortcuts| == |a.shortcuts| + 1;
  }

  /** operator== as intended: every field compared with the other action's, shortcuts included. */
  function Equals(a: UiAction, b: UiAction): (r: bool)
    ensures r <==> a == b
  {
    a.code == b.code
    && a.context == b.context
    && a.title == b.title
    && a.description == b.description
    && a.iconCode == b.iconCode
    && a.checkable == b.checkable
    && a.shortcuts == b.shortcuts
  }

  /** The intended equality refines the written one, and the two differ exactly on the shortcuts. */
  lemma EqualsRefinesAsWritten(a: UiAction, b: UiAction)
    ensures Equals(a, b) ==> EqualsAsWritten(a, b)
    ensures EqualsAsWritten(a, b) ==> (Equals(a, b) <==> a.shortcuts == b.shortcuts)
  {
  }

  //---------------------------------------------------------------------------
  //   Action lists
  //---------------------------------------------------------------------------

  /**
   * indexOf(code) from position i on: the loop of uitypes.h:262-271 resumed at i. The answer is
   * the first position at or after i holding an action with the code, or None when none does.
   */
  function IndexFrom(actions: seq<UiAction>, code: ActionCode, i: nat): (r: Option<nat>)
    requires i <= |actions|
    ensures r.Some? ==> i <= r.value < |actions| && actions[r.value].code == code
    ensures r.Some? ==> forall j :: i <= j < r.value ==> actions[j].code != code
    ensures r.None? <==> forall j :: i <= j < |actions| ==> actions[j].code != code
    decreases |actions| - i
  {
    if i == |actions| then None
    else if actions[i].code == code then Some(i)
    else IndexFrom(actions, code, i + 1)
  }

  /** indexOf(code): the smallest index of an action with the code, or None when none has it. */
  function IndexOf(actions: seq<UiAction>, code: ActionCode): (r: Option<nat>)
    ensures r.Some? ==> r.value < |actions| && actions[r.value].code == code
    ensures r.Some? ==> forall j :: 0 <= j < r.value ==> actions[j].code != code
    ensures r.None? <==> forall a :: a in actions ==> a.code != code
  {
    IndexFrom(actions, code, 0)
  }

  /** contains(code): the linear search of std::find_if for an action with the code. */
  function Contains(actions: seq<UiAction>, code: ActionCode): (r: bool)
    ensures r <==> exists i :: 0 <= i < |actions| && actions[i].code == code
  {
    if actions == [] then false
    else actions[0].code == code || Contains(actions[1..], code)
  }

  /** contains and indexOf agree: the list contains the code exactly when indexOf finds it. */
  lemma ContainsAgreesWithIndexOf(actions: seq<UiAction>, code: ActionCode)
    ensures Contains(actions, code) <==> IndexOf(actions, code).Some?
  {
    if Contains(actions, code) {
      var i :| 0 <= i < |actions| && actions[i].code == code;
      assert actions[i] in actions;
    }
  }

  /** The first match does not move when actions are appended behind the list. */
  lemma {:induction false} IndexOfAppend(actions: seq<UiAction>, more: seq<UiAction>, code: ActionCode)
    requires IndexOf(actions, code).Some?
    ensures IndexOf(actions + more, code) == IndexOf(actions, code)
  {
    var i := IndexOf(actions, code).value;
    var r := IndexOf(actions + more, code);
    assert (actions + more)[i] in actions + more;
    assert r.value <= i;
    assert actions[r.value] == (actions + more)[r.value];
  }

  /** A list of valid actions never matches the empty code, which only separators carry. */
  lemma ValidActionsMissEmptyCode(actions: seq<UiAction>)
    requires forall a :: a in actions ==> IsValid(a)
    ensures IndexOf(actions, []) == None && !Contains(actions, [])
  {
    ContainsAgreesWithIndexOf(actions, []);
  }

  //---------------------------------------------------------------------------
  //   Action states
  //---------------------------------------------------------------------------

  /** UiActionState: whether an action is enabled and whether it is checked (uitypes.h:274-306). */
  datatype UiActionState = UiActionState(enabled: bool, checked: bool)

  /** operator==: both flags agree, which is equality of the states. */
  function StateEquals(s: UiActionState, t: UiActionState): (r: bool)
    ensures r <==> s == t
  {
    t.enabled == s.enabled && t.checked == s.checked
  }

  /** operator!=: the negation of operator==. */
  function StateNotEquals(s: UiActionState, t: UiActionState): (r: bool)
    ensures r <==> s != t
  {
    !StateEquals(s, t)
  }

  /** make_disabled(checked = false): a disabled state keeping the given checked flag. */
  function MakeDisabled(checked: bool := false): (r: UiActionState)
    ensures !r.enabled && r.checked == checked
  {
    UiActionState(false, checked)
  }

  /** make_enabled(checked = false): an enabled state keeping the given checked flag. */
  function MakeEnabled(checked: bool := false): (r: UiActionState)
    ensures r.enabled && r.checked == checked
  {
    UiActionState(true, checked)
  }

  /**
   * The two factories build every state, each exactly once: a state is make_enabled or
   * make_disabled of its own checked flag, and no enabled state equals a disabled one. Called
   * without an argument, both give an unchecked state.
   */
  lemma FactoriesCoverStates(s: UiActionState)
    ensures s == (if s.enabled then MakeEnabled(s.checked) else MakeDisabled(s.checked))
    ensures forall c, d :: StateNotEquals(MakeEnabled(c), MakeDisabled(d))
    ensures forall c, d :: StateEquals(MakeEnabled(c), MakeEnabled(d)) <==> c == d
    ensures !MakeEnabled().checked && !MakeDisabled().checked
  {
  }

  //---------------------------------------------------------------------------
  //   Tool configurations
  //---------------------------------------------------------------------------

  /** One entry of a tool configuration: an action code and whether it is shown (uitypes.h:310-329). */
  datatype Item = Item(action: ActionCode, show: bool)

  /** isSeparator: an entry without an action code separates groups. */
  function IsSeparator(item: Item): (r: bool)
    ensures r <==> |item.action| == 0
  {
    item.action == []
  }

  /** Item::operator==: action and visibility agree, which is equality of the items. */
  function ItemEquals(a: Item, b: Item): (r: bool)
    ensures r <==> a == b
  {
    a.action == b.action && a.show == b.show
  }

  /** A tool configuration: its entries in order (uitypes.h:308-334). */
  datatype ToolConfig = ToolConfig(items: seq<Item>)

  /** ToolConfig::isValid: the configuration has at least one entry. */
  function ToolConfigIsValid(cfg: ToolConfig): (r: bool)
    ensures r <==> |cfg.items| > 0
  {
    cfg.items != []
  }

  /**
   * A separator's action code names no valid action: looking it up in a list of valid actions
   * finds nothing, and an action carrying it is not valid.
   */
  lemma SeparatorNamesNoAction(item: Item, actions: seq<UiAction>)
    requires IsSeparator(item) && forall a :: a in actions ==> IsValid(a)
    ensures IndexOf(actions, item.action) == None && !Contains(actions, item.action)
    ensures forall a: UiAction :: a.code == item.action ==> !IsValid(a)
  {
    ValidActionsMissEmptyCode(actions);
  }

  /** Adding an entry makes any configuration valid, and only the empty configuration is invalid. */
  lemma ToolConfigValidity(cfg: ToolConfig, item: Item)
    ensures ToolConfigIsValid(ToolConfig(cfg.items + [item]))
    ensures !ToolConfigIsValid(cfg) <==> cfg == ToolConfig([])
  {
    assert |cfg.items + [item]| == |cfg.items| + 1;
  }
}
