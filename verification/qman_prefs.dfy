/**
 * The cue manager's preferences (QMan.js): the object that maps each cue
 * type to its colour and its enabled/highlight/hide flags, next to four
 * global settings; its validation; the built-in defaults; and the default
 * colour a new cue type gets from a 32-bit string hash.
 */
module QManPrefs {
  import opened JsText
  import opened JsValues

  const THEME: JsString := Str("theme")
  const SHOW_SCENE_CONTEXT: JsString := Str("showSceneContext")
  const GLOBAL_HIGHLIGHT: JsString := Str("globalHighlight")
  const GLOBAL_HIDE: JsString := Str("globalHide")
  const COLOR: JsString := Str("color")
  const ENABLED: JsString := Str("enabled")
  const HIGHLIGHT: JsString := Str("highlight")
  const HIDE: JsString := Str("hide")

  /** The four keys that hold global settings rather than a cue type's entry. */
  predicate IsReservedKey(k: JsString) {
    k == THEME || k == SHOW_SCENE_CONTEXT || k == GLOBAL_HIGHLIGHT || k == GLOBAL_HIDE
  }

  predicate IsThemeName(v: JsValue) {
    v == JString(Str("dark")) || v == JString(Str("light")) || v == JString(Str("system"))
  }

  /** `v !== undefined && typeof v !== "boolean"` fails. */
  predicate UndefinedOrBool(v: JsValue) { v.JUndefined? || v.JBool? }

  /**
   * A per-type entry passes when it is not an object at all (falsy or a
   * primitive is let through), or when its truthy colour is a string and
   * each defined flag is a boolean.
   */
  predicate EntryOk(p: JsValue) {
    !(Truthy(p) && TypeofObject(p))
    || ((!Truthy(Prop(p, COLOR)) || Prop(p, COLOR).JString?)
        && UndefinedOrBool(Prop(p, ENABLED))
        && UndefinedOrBool(Prop(p, HIGHLIGHT))
        && UndefinedOrBool(Prop(p, HIDE)))
  }

  /** What validatePreferences accepts. */
  predicate IsValidPreferences(prefs: JsValue)
    ensures IsValidPreferences(prefs) ==> prefs.JObject? || prefs.JArray?
  {
    Truthy(prefs) && TypeofObject(prefs)
    && (!Truthy(Prop(prefs, THEME)) || IsThemeName(Prop(prefs, THEME)))
    && forall k :: k in OwnProps(prefs) && !IsReservedKey(k) ==> EntryOk(OwnProps(prefs)[k])
  }

  /** validatePreferences: walks the keys and gives up at the first bad entry. */
  method ValidatePreferences(prefs: JsValue) returns (ok: bool)
    ensures ok <==> IsValidPreferences(prefs)
    ensures !(prefs.JObject? || prefs.JArray?) ==> !ok
  {
    if !Truthy(prefs) || !TypeofObject(prefs) {
      return false;
    }
    var theme := Prop(prefs, THEME);
    if Truthy(theme) && !IsThemeName(theme) {
      return false;
    }
    var props := OwnProps(prefs);
    var keys := props.Keys;
    while keys != {}
      invariant keys <= props.Keys
      invariant forall k :: k in props && k !in keys && !IsReservedKey(k) ==> EntryOk(props[k])
      decreases |keys|
    {
      var key :| key in keys;
      if !IsReservedKey(key) && !EntryOk(props[key]) {
        return false;
      }
      keys := keys - {key};
    }
    return true;
  }

  /** The global settings are never checked as cue-type entries: any value passes there. */
  lemma {:induction false} GlobalSettingsNotEntries(m: map<JsString, JsValue>, k: JsString, v: JsValue)
    requires k == SHOW_SCENE_CONTEXT || k == GLOBAL_HIGHLIGHT || k == GLOBAL_HIDE
    ensures IsValidPreferences(JObject(m[k := v])) <==> IsValidPreferences(JObject(m))
  {
    assert k != THEME;
    assert Prop(JObject(m[k := v]), THEME) == Prop(JObject(m), THEME);
  }

  /** Adding a passing entry under a cue-type key keeps the preferences valid. */
  lemma AddEntryValid(m: map<JsString, JsValue>, k: JsString, e: JsValue)
    requires IsValidPreferences(JObject(m)) && !IsReservedKey(k) && EntryOk(e)
    ensures IsValidPreferences(JObject(m[k := e]))
  {
    assert Prop(JObject(m[k := e]), THEME) == Prop(JObject(m), THEME);
  }

  /** A cue-type entry of the shape the plugin itself writes. */
  function TypeEntry(color: JsString, enabled: bool, highlightFlag: JsValue, hideFlag: JsValue): JsValue {
    JObject(map[COLOR := JString(color), ENABLED := JBool(enabled), HIGHLIGHT := highlightFlag, HIDE := hideFlag])
  }

  /** Entries the plugin writes pass validation whenever their two flags are booleans. */
  lemma TypeEntryOk(color: JsString, enabled: bool, highlightFlag: JsValue, hideFlag: JsValue)
    requires highlightFlag.JBool? && hideFlag.JBool?
    ensures EntryOk(TypeEntry(color, enabled, highlightFlag, hideFlag))
  {
    var m := OwnProps(TypeEntry(color, enabled, highlightFlag, hideFlag));
    assert m[COLOR] == JString(color);
    assert COLOR != ENABLED && COLOR != HIGHLIGHT && COLOR != HIDE;
    assert ENABLED != HIGHLIGHT && ENABLED != HIDE && HIGHLIGHT != HIDE;
  }

  const SOUND: JsString := Str("SOUND")
  const LIGHT: JsString := Str("LIGHT")
  const MUSIC: JsString := Str("MUSIC")
  const VIDEO: JsString := Str("VIDEO")
  const PROJECTION: JsString := Str("PROJECTION")

  /** The five built-in cue types and their fixed colours. */
  function BuiltinColor(t: JsString): Option<JsString> {
    if t == SOUND then Some(Str("#3498db"))
    else if t == LIGHT then Some(Str("#f39c12"))
    else if t == MUSIC then Some(Str("#e74c3c"))
    else if t == VIDEO then Some(Str("#9b59b6"))
    else if t == PROJECTION then Some(Str("#1abc9c"))
    else None
  }

  function BuiltinEntry(t: JsString): JsValue
    requires BuiltinColor(t).Some?
  {
    TypeEntry(BuiltinColor(t).value, true, JBool(false), JBool(false))
  }

  /** The preferences the plugin starts with. */
  function DefaultPreferences(): map<JsString, JsValue> {
    map[THEME := JString(Str("system")),
        SHOW_SCENE_CONTEXT := JBool(false),
        GLOBAL_HIGHLIGHT := JBool(false),
        GLOBAL_HIDE := JBool(false),
        SOUND := BuiltinEntry(SOUND),
        LIGHT := BuiltinEntry(LIGHT),
        MUSIC := BuiltinEntry(MUSIC),
        VIDEO := BuiltinEntry(VIDEO),
        PROJECTION := BuiltinEntry(PROJECTION)]
  }

  /** The defaults pass their own validation. */
  lemma DefaultsValid()
    ensures IsValidPreferences(JObject(DefaultPreferences()))
  {
    var m := DefaultPreferences();
    DefaultTheme();
    forall k | k in m && !IsReservedKey(k)
      ensures EntryOk(m[k])
    {
      DefaultEntry(k);
      TypeEntryOk(BuiltinColor(k).value, true, JBool(false), JBool(false));
    }
  }

  lemma DefaultTheme()
    ensures Prop(JObject(DefaultPreferences()), THEME) == JString(Str("system"))
  {
    assert THEME[0] == 't' as int && SOUND[0] == 'S' as int && LIGHT[0] == 'L' as int;
    assert MUSIC[0] == 'M' as int && VIDEO[0] == 'V' as int && PROJECTION[0] == 'P' as int;
  }

  /** Every default key other than the global settings is a built-in type with its built-in entry. */
  lemma DefaultEntry(k: JsString)
    requires k in DefaultPreferences() && !IsReservedKey(k)
    ensures BuiltinColor(k).Some? && DefaultPreferences()[k] == BuiltinEntry(k)
  {
    assert k == SOUND || k == LIGHT || k == MUSIC || k == VIDEO || k == PROJECTION;
  }

  // ---------------------------------------------------------------------
  // Default colour of a cue type
  // ---------------------------------------------------------------------

  const PALETTE: seq<JsString> := [
    Str("#3498db"), Str("#e74c3c"), Str("#f39c12"), Str("#9b59b6"), Str("#1abc9c"),
    Str("#e67e22"), Str("#16a085"), Str("#27ae60"), Str("#2980b9"), Str("#8e44ad"),
    Str("#c0392b"), Str("#d35400"), Str("#f39c12"), Str("#2ecc71"), Str("#3498db")]

  const TWO_32: int := 0x1_0000_0000
  const TWO_31: int := 0x8000_0000

  /** ECMAScript ToInt32 of an integral number. */
  function ToInt32(x: int): (r: int)
    ensures -TWO_31 <= r < TWO_31
    ensures (x - r) % TWO_32 == 0
  {
    var m := x % TWO_32;
    if m >= TWO_31 then m - TWO_32 else m
  }

  /**
   * The value of `hash` after the loop of getDefaultColorForType has run
   * over `s`: each step is `c + ((hash << 5) - hash)`, where only the shift
   * wraps to 32 bits. The hash grows by less than 2^31 + 2^16 per code unit,
   * so it stays an exact double (below 2^53) for every type name shorter
   * than 4,000,000 units.
   */
  function TypeHash(s: JsString): (r: int)
    ensures Abs(r) <= |s| * (TWO_31 + 0x1_0000)
  {
    if s == [] then 0
    else
      var h := TypeHash(s[..|s| - 1]);
      s[|s| - 1] + (ToInt32(h * 32) - h)
  }

  function Abs(x: int): nat { if x < 0 then -x else x }

  /** The colour getDefaultColorForType gives: a built-in type's own colour, otherwise the palette entry the hash picks. */
  function DefaultColor(t: JsString): (c: JsString)
    ensures c in PALETTE
  {
    match BuiltinColor(t)
    case Some(c) => assert c == PALETTE[0] || c == PALETTE[1] || c == PALETTE[2] || c == PALETTE[3] || c == PALETTE[4]; c
    case None => PALETTE[Abs(TypeHash(t)) % |PALETTE|]
  }

  /** getDefaultColorForType. */
  method DefaultColorForType(t: JsString) returns (color: JsString)
    ensures BuiltinColor(t).Some? ==> color == BuiltinColor(t).value
    ensures BuiltinColor(t).None? ==> color == PALETTE[Abs(TypeHash(t)) % |PALETTE|]
    ensures color == DefaultColor(t) && color in PALETTE
  {
    var builtin := BuiltinColor(t);
    if builtin.Some? {
      return builtin.value;
    }
    var hash := 0;
    var i := 0;
    while i < |t|
      invariant 0 <= i <= |t|
      invariant hash == TypeHash(t[..i])
    {
      assert t[..i + 1][..i] == t[..i];
      hash := t[i] + (ToInt32(hash * 32) - hash);
      i := i + 1;
    }
    assert t[..|t|] == t;
    color := PALETTE[Abs(hash) % |PALETTE|];
  }

  // ---------------------------------------------------------------------
  // Hide flags
  // ---------------------------------------------------------------------

  /** `prefs[t] && prefs[t].hide`. */
  function HideOf(prefs: map<JsString, JsValue>, t: JsString): JsValue {
    AndProp(Prop(JObject(prefs), t), HIDE)
  }

  /** The test of applyPreferences: some non-global key of the new preferences has a different hide value. */
  predicate HideChanged(oldPrefs: map<JsString, JsValue>, newPrefs: map<JsString, JsValue>)
    ensures !HideChanged(oldPrefs, newPrefs) ==>
              forall t :: t in newPrefs && !IsReservedKey(t) ==> Truthy(HideOf(oldPrefs, t)) == Truthy(HideOf(newPrefs, t))
  {
    exists t :: t in newPrefs && !IsReservedKey(t) && !StrictEq(HideOf(oldPrefs, t), HideOf(newPrefs, t))
  }

  /** `undefined` against `false` counts as a change: a new type with hide off still triggers a rewrite. */
  lemma UndefinedVersusFalseIsChange(oldPrefs: map<JsString, JsValue>, t: JsString, c: JsString)
    requires t !in oldPrefs && !IsReservedKey(t)
    ensures HideChanged(oldPrefs, oldPrefs[t := TypeEntry(c, true, JBool(false), JBool(false))])
  {
    var np := oldPrefs[t := TypeEntry(c, true, JBool(false), JBool(false))];
    assert HideOf(oldPrefs, t) == JUndefined;
    assert OwnProps(np[t])[HIDE] == JBool(false);
    assert HideOf(np, t) == JBool(false);
  }
}
