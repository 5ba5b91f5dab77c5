/** The settings reconciliation store of an extension: tagged setting values, UI
    descriptors, the per-request SettingStore session that reconciles a persisted
    `key -> {val, ui}` map against what the extension declares, and the load-time
    ExtensionSetting handle. */
module Settings {
  import opened Wrappers

  /** A JavaScript number. Only identity matters to the store, so it is an integer here. */
  type Number = int

  /** A JavaScript value as it reaches the store: a default an extension declares, or the
      `val` of a persisted entry (which came from JSON). */
  datatype JsValue =
    | JsString(s: string)
    | JsNumber(n: Number)
    | JsBoolean(b: bool)
    | JsUndefined         // a missing `val`
    | JsObject            // null, an array or an object

  /** What JavaScript's `typeof` answers for a value. */
  datatype JsType = StringType | NumberType | BooleanType | UndefinedType | ObjectType

  function TypeOf(v: JsValue): (t: JsType)
    ensures t == UndefinedType <==> v == JsUndefined
    ensures IsSettingValue(v) <==> t in {StringType, NumberType, BooleanType}
  {
    match v
    case JsString(_) => StringType
    case JsNumber(_) => NumberType
    case JsBoolean(_) => BooleanType
    case JsUndefined => UndefinedType
    case JsObject => ObjectType
  }

  /** The values a setting may hold: strings, numbers and booleans. */
  predicate IsSettingValue(v: JsValue) {
    v.JsString? || v.JsNumber? || v.JsBoolean?
  }

  /** The persisted `type` field of a setting value: "String", "Number" or "Boolean". */
  datatype Tag = StringTag | NumberTag | BooleanTag

  function TagType(t: Tag): JsType {
    match t
    case StringTag => StringType
    case NumberTag => NumberType
    case BooleanTag => BooleanType
  }

  /** A persisted `{type, val, default_val}` record. */
  datatype SettingValue = SettingValue(tag: Tag, val: JsValue, defaultVal: JsValue)

  /** The tag, the value and the default all agree on one type. */
  predicate WellFormed(v: SettingValue) {
    TypeOf(v.val) == TagType(v.tag) && TypeOf(v.defaultVal) == TagType(v.tag)
  }

  datatype SettingError =
    | InvalidType          // a default that is not a string, number or boolean
    | NotFound(key: string)

  /** `toSettingValue`: a fresh record whose value and default are both `v`, tagged with
      `v`'s type; anything but a string, number or boolean is an error. */
  function ToSettingValue(v: JsValue): (r: Result<SettingValue, SettingError>)
    ensures r.Success? <==> IsSettingValue(v)
    ensures r.Success? ==> r.value.val == v && r.value.defaultVal == v && WellFormed(r.value)
    ensures r.Failure? ==> r.error == InvalidType
  {
    match v
    case JsString(_) => Success(SettingValue(StringTag, v, v))
    case JsNumber(_) => Success(SettingValue(NumberTag, v, v))
    case JsBoolean(_) => Success(SettingValue(BooleanTag, v, v))
    case _ => Failure(InvalidType)
  }

  // ---------------------------------------------------------------------------
  // UI descriptors

  /** Whether a PathSelection picks a folder (the constructor's default) or a file. */
  datatype PickType = Folder | File

  datatype DropdownOption = DropdownOption(value: string, caption: string)

  /** The UI controls an extension attaches to a setting (the UI subclasses). */
  datatype Control =
    | PathSelection(caption: string, picktype: PickType)
    | Slider(min: Number, max: Number, step: Number, caption: string)
    | Checkbox(caption: string)
    | Textbox(caption: string)
    | Dropdown(options: seq<DropdownOption>, caption: string)

  /** The persisted JSON form of a control (`SettingUI`). */
  datatype SettingUI =
    | PathSelectionUI(caption: string, pickfolder: bool)
    | SliderUI(min: Number, max: Number, step: Number, caption: string)
    | CheckboxUI(caption: string)
    | TextboxUI(caption: string)
    | DropdownUI(options: seq<DropdownOption>, caption: string)

  /** Reads a control back from its persisted form. */
  function ControlOf(d: SettingUI): Control {
    match d
    case PathSelectionUI(caption, pickfolder) => PathSelection(caption, if pickfolder then Folder else File)
    case SliderUI(min, max, step, caption) => Slider(min, max, step, caption)
    case CheckboxUI(caption) => Checkbox(caption)
    case TextboxUI(caption) => Textbox(caption)
    case DropdownUI(options, caption) => Dropdown(options, caption)
  }

  /** `getDefinition`: the persisted form of a control. It loses nothing, so two controls
      have equal definitions only when they are equal. */
  function GetDefinition(c: Control): (d: SettingUI)
    ensures ControlOf(d) == c
  {
    match c
    case PathSelection(caption, picktype) => PathSelectionUI(caption, picktype == Folder)
    case Slider(min, max, step, caption) => SliderUI(min, max, step, caption)
    case Checkbox(caption) => CheckboxUI(caption)
    case Textbox(caption) => TextboxUI(caption)
    case Dropdown(options, caption) => DropdownUI(options, caption)
  }

  /** `ui?.getDefinition() ?? null`. */
  function Definition(ui: Option<Control>): (d: Option<SettingUI>)
    ensures d.None? <==> ui.None?
    ensures d.Some? ==> ControlOf(d.value) == ui.value
  {
    match ui
    case None => None
    case Some(c) => Some(GetDefinition(c))
  }

  /** Every persisted form is the definition of exactly one control. */
  lemma DefinitionRoundTrip(d: SettingUI)
    ensures GetDefinition(ControlOf(d)) == d
  {
  }

  /** Comparing definitions is comparing controls, including absent ones. */
  lemma DefinitionInjective(u: Option<Control>, v: Option<Control>)
    ensures Definition(u) == Definition(v) <==> u == v
  {
  }

  // ---------------------------------------------------------------------------
  // Reconciling one entry

  /** A persisted entry: a setting value and its UI descriptor, or null. */
  datatype Setting = Setting(val: SettingValue, ui: Option<SettingUI>)

  /** What declaring a setting yields: the entry to store and the value returned. */
  datatype Resolution = Resolution(entry: Setting, value: JsValue)

  function Find(m: map<string, Setting>, id: string): Option<Setting> {
    if id in m then Some(m[id]) else None
  }

  /** The stored value survives a declaration: there is one, and its runtime type is the
      type of the declared default. */
  predicate Keeps(stored: Option<Setting>, defaultval: JsValue) {
    && stored.Some?
    && !stored.value.val.val.JsUndefined?
    && TypeOf(stored.value.val.val) == TypeOf(defaultval)
  }

  /** The outcome of declaring a setting against what is stored for its key. A kept value
      is returned with its record untouched; otherwise the entry is rebuilt from the
      default. Either way the entry ends up with the declared UI, the returned value is
      the stored one and has the declared type, and an entry that already matches the
      declaration is left exactly as it was. */
  function Resolve(stored: Option<Setting>, defaultval: JsValue, ui: Option<Control>)
    : (r: Result<Resolution, SettingError>)
    ensures r.Failure? <==> !Keeps(stored, defaultval) && !IsSettingValue(defaultval)
    ensures r.Failure? ==> r.error == InvalidType
    ensures r.Success? ==> TypeOf(r.value.value) == TypeOf(defaultval)
    ensures r.Success? ==> r.value.value == r.value.entry.val.val
    ensures r.Success? ==> r.value.entry.ui == Definition(ui)
    ensures Keeps(stored, defaultval) ==> r.Success? && r.value.entry.val == stored.value.val
    ensures r.Success? && !Keeps(stored, defaultval) ==>
      && r.value.value == defaultval
      && r.value.entry.val.defaultVal == defaultval
      && WellFormed(r.value.entry.val)
    ensures Keeps(stored, defaultval) && stored.value.ui == Definition(ui) ==>
      r == Success(Resolution(stored.value, stored.value.val.val))
  {
    if !stored.Some? || stored.value.val.val.JsUndefined? then
      // not found: create
      match ToSettingValue(defaultval)
      case Failure(e) => Failure(e)
      case Success(sv) => Success(Resolution(Setting(sv, Definition(ui)), defaultval))
    else if TypeOf(stored.value.val.val) != TypeOf(defaultval) then
      // type changed: overwrite
      match ToSettingValue(defaultval)
      case Failure(e) => Failure(e)
      case Success(sv) => Success(Resolution(Setting(sv, Definition(ui)), defaultval))
    else if stored.value.ui != Definition(ui) && !(stored.value.ui.None? && ui.None?) then
      // UI changed: keep the value record, replace the UI
      Success(Resolution(Setting(stored.value.val, Definition(ui)), stored.value.val.val))
    else
      Success(Resolution(stored.value, stored.value.val.val))
  }

  /** The "both absent" clause of the UI check adds nothing to structural comparison: an
      absent control has an absent definition. */
  lemma BothAbsentIsEqual(stored: Option<SettingUI>, ui: Option<Control>)
    ensures (stored != Definition(ui) && !(stored.None? && ui.None?)) <==> stored != Definition(ui)
  {
  }

  /** Type drift wins over UI drift: when the stored value has another type, the entry is
      rebuilt from the default whatever the UI says, and the old value is gone. */
  lemma TypeDriftResets(stored: Setting, defaultval: JsValue, ui: Option<Control>)
    requires !stored.val.val.JsUndefined? && TypeOf(stored.val.val) != TypeOf(defaultval)
    requires IsSettingValue(defaultval)
    ensures var r := Resolve(Some(stored), defaultval, ui);
      r.Success? && r.value.value == defaultval
      && r.value.entry == Setting(ToSettingValue(defaultval).value, Definition(ui))
  {
  }

  /** Declaring twice with the same arguments: the second declaration returns the same
      value and changes nothing. */
  lemma ResolveIdempotent(stored: Option<Setting>, defaultval: JsValue, ui: Option<Control>)
    requires Resolve(stored, defaultval, ui).Success?
    ensures var first := Resolve(stored, defaultval, ui).value;
      Resolve(Some(first.entry), defaultval, ui) == Success(first)
  {
  }

  /** Reconciling keeps the store well formed: a well-formed or missing entry stays well
      formed. */
  lemma ResolveWellFormed(stored: Option<Setting>, defaultval: JsValue, ui: Option<Control>)
    requires stored.Some? ==> WellFormed(stored.value.val)
    requires Resolve(stored, defaultval, ui).Success?
    ensures WellFormed(Resolve(stored, defaultval, ui).value.entry.val)
  {
  }

  // ---------------------------------------------------------------------------
  // Touched keys

  predicate NoDuplicates(s: seq<string>) {
    forall i, j :: 0 <= i < j < |s| ==> s[i] != s[j]
  }

  /** Recording a declared key: appended the first time, left in place afterwards. */
  function Touch(touched: seq<string>, id: string): (r: seq<string>)
    ensures touched <= r && |r| <= |touched| + 1
    ensures forall k :: k in r <==> k in touched || k == id
    ensures NoDuplicates(touched) ==> NoDuplicates(r)
  {
    if id in touched then touched else touched + [id]
  }

  /** The touched keys after declaring `ids`, in that order, in a fresh session. */
  function TouchedAfter(ids: seq<string>): seq<string> {
    if ids == [] then [] else Touch(TouchedAfter(ids[..|ids| - 1]), ids[|ids| - 1])
  }

  /** Where `k` is first declared in `ids`. */
  function FirstIndex(ids: seq<string>, k: string): (i: nat)
    requires k in ids
    ensures i < |ids| && ids[i] == k && k !in ids[..i]
  {
    if ids[0] == k then 0 else 1 + FirstIndex(ids[1..], k)
  }

  lemma {:induction false} FirstIndexExtend(ids: seq<string>, x: string, k: string)
    requires k in ids
    ensures k in ids + [x] && FirstIndex(ids + [x], k) == FirstIndex(ids, k)
  {
    if ids[0] != k {
      assert (ids + [x])[1..] == ids[1..] + [x];
      FirstIndexExtend(ids[1..], x, k);
    }
  }

  /** The touched keys are exactly the declared ones, each once, in the order of their
      first declaration. */
  lemma {:induction false} TouchedOrder(ids: seq<string>)
    ensures NoDuplicates(TouchedAfter(ids))
    ensures forall k :: k in TouchedAfter(ids) <==> k in ids
    ensures forall i, j :: 0 <= i < j < |TouchedAfter(ids)| ==>
      FirstIndex(ids, TouchedAfter(ids)[i]) < FirstIndex(ids, TouchedAfter(ids)[j])
  {
    if ids != [] {
      var p, x := ids[..|ids| - 1], ids[|ids| - 1];
      assert ids == p + [x];
      TouchedOrder(p);
      var t := TouchedAfter(p);
      forall k | k in t ensures FirstIndex(ids, k) == FirstIndex(p, k) {
        FirstIndexExtend(p, x, k);
      }
      if x !in t {
        assert x !in p;
        assert FirstIndex(ids, x) == |p|;
      }
    }
  }

  /** Declaring "b", "a", "b" touches "b" then "a". */
  lemma TouchedExample()
    ensures TouchedAfter(["b", "a", "b"]) == ["b", "a"]
  {
    assert ["b", "a", "b"][..2] == ["b", "a"];
    assert ["b", "a"][..1] == ["b"];
    assert ["b"][..0] == [];
  }

  /** The entries of `m` whose keys are in `keys`. */
  function Restrict(m: map<string, Setting>, keys: seq<string>): (r: map<string, Setting>)
    ensures forall k :: k in r <==> k in m && k in keys
    ensures forall k :: k in r ==> r[k] == m[k]
  {
    map k | k in m && k in keys :: m[k]
  }

  /** The whole map is the touched view exactly when no entry lies outside the touched keys. */
  lemma RestrictIsWhole(m: map<string, Setting>, keys: seq<string>)
    ensures Restrict(m, keys) == m <==> forall k :: k in m ==> k in keys
  {
    if Restrict(m, keys) == m {
      forall k | k in m ensures k in keys {
        assert k in Restrict(m, keys);
      }
    }
  }

  // ---------------------------------------------------------------------------
  // The session

  /** A per-request reconciliation session over a snapshot of the persisted map. */
  class SettingStore {
    var settings: map<string, Setting>
    var touched: seq<string>

    ghost predicate Valid()
      reads this
    {
      NoDuplicates(touched)
    }

    /** Every touched key has an entry, so exporting cannot fail. */
    predicate TouchedDefined()
      reads this
    {
      forall k :: k in touched ==> k in settings
    }

    constructor (settings: map<string, Setting>)
      ensures Valid() && TouchedDefined()
      ensures this.settings == settings && touched == []
    {
      this.settings := settings;
      touched := [];
    }

    /** `getOrDefine`: records `id` as touched, reconciles its entry with the declaration
        and returns the effective value. Only the entry of `id` may change. */
    method GetOrDefine(id: string, defaultval: JsValue, ui: Option<Control>)
      returns (r: Result<JsValue, SettingError>)
      requires Valid()
      modifies this
      ensures Valid()
      ensures touched == Touch(old(touched), id)
      ensures match Resolve(Find(old(settings), id), defaultval, ui)
        case Success(o) => r == Success(o.value) && settings == old(settings)[id := o.entry]
        case Failure(e) => r == Failure(e) && settings == old(settings)
      ensures settings.Keys <= old(settings).Keys + {id}
      ensures forall k :: k in old(settings) && k != id ==> k in settings && settings[k] == old(settings)[k]
      ensures r.Success? ==> Get(id) == Success(r.value)
      ensures r.Success? && old(TouchedDefined()) ==> TouchedDefined()
    {
      ghost var stored := Find(settings, id);
      if id !in touched {
        touched := touched + [id];
      }
      if id !in settings || settings[id].val.val.JsUndefined? {
        // not found: create
        var sv := ToSettingValue(defaultval);
        if sv.Failure? {
          assert Resolve(stored, defaultval, ui) == Failure(sv.error);
          return Failure(sv.error);
        }
        var entry := Setting(sv.value, Definition(ui));
        assert Resolve(stored, defaultval, ui) == Success(Resolution(entry, defaultval));
        settings := settings[id := entry];
        return Success(defaultval);
      }
      var settingval := settings[id].val;
      var val := settingval.val;
      if TypeOf(val) != TypeOf(defaultval) {
        // type changed: overwrite
        var sv := ToSettingValue(defaultval);
        if sv.Failure? {
          assert Resolve(stored, defaultval, ui) == Failure(sv.error);
          return Failure(sv.error);
        }
        var entry := Setting(sv.value, Definition(ui));
        assert Resolve(stored, defaultval, ui) == Success(Resolution(entry, defaultval));
        settings := settings[id := entry];
        return Success(defaultval);
      }
      if settings[id].ui != Definition(ui) && !(settings[id].ui.None? && ui.None?) {
        // UI changed: keep the value record
        var entry := Setting(settingval, Definition(ui));
        assert Resolve(stored, defaultval, ui) == Success(Resolution(entry, val));
        settings := settings[id := entry];
        return Success(val);
      }
      assert Resolve(stored, defaultval, ui) == Success(Resolution(settings[id], val));
      assert settings == settings[id := settings[id]];
      return Success(val);
    }

    /** `get`: the stored value, or NotFound for a key without an entry. */
    function Get(id: string): (r: Result<JsValue, SettingError>)
      reads this
      ensures r.Success? <==> id in settings
      ensures r.Success? ==> r.value == settings[id].val.val
      ensures r.Failure? ==> r.error == NotFound(id)
    {
      if id in settings then Success(settings[id].val.val) else Failure(NotFound(id))
    }

    /** `tryGet`: the stored value, or undefined; it agrees with `get` wherever that succeeds. */
    function TryGet(id: string): (r: JsValue)
      reads this
      ensures r == Get(id).GetOr(JsUndefined)
      ensures id !in settings ==> r == JsUndefined
    {
      if id in settings then settings[id].val.val else JsUndefined
    }

    /** The touched-only view of the session: what exporting is meant to return. */
    function TouchedView(): (r: map<string, Setting>)
      reads this
      ensures TouchedDefined() ==> r.Keys == set k | k in touched
      ensures forall k :: k in r ==> k in settings && r[k] == settings[k]
    {
      Restrict(settings, touched)
    }

    /** The loop of `toMap`: walks the touched keys, failing on the first one without an
        entry, and collects their entries. */
    method CollectTouched() returns (r: Result<map<string, Setting>, SettingError>)
      ensures r.Success? <==> TouchedDefined()
      ensures r.Success? ==> r.value == TouchedView()
      ensures r.Failure? ==> r.error.NotFound? && r.error.key in touched && r.error.key !in settings
    {
      var m: map<string, Setting> := map[];
      var i := 0;
      while i < |touched|
        invariant 0 <= i <= |touched|
        invariant forall j :: 0 <= j < i ==> touched[j] in settings
        invariant m == Restrict(settings, touched[..i])
      {
        var key := touched[i];
        if key !in settings {
          return Failure(NotFound(key));
        }
        m := m[key := settings[key]];
        assert touched[..i + 1] == touched[..i] + [key];
        i := i + 1;
      }
      assert touched[..i] == touched;
      r := Success(m);
    }

    /** `toMap` as written: it checks every touched key but returns the whole map, untouched
        entries included. */
    method ToMap() returns (r: Result<map<string, Setting>, SettingError>)
      ensures r.Success? <==> TouchedDefined()
      ensures r.Success? ==> r.value == settings
      ensures r.Failure? ==> r.error.NotFound? && r.error.key in touched && r.error.key !in settings
    {
      var built := CollectTouched();
      if built.Failure? {
        return Failure(built.error);
      }
      r := Success(settings);
    }

    /** Export as intended: only the entries of the touched keys. */
    method ToMapFiltered() returns (r: Result<map<string, Setting>, SettingError>)
      ensures r.Success? <==> TouchedDefined()
      ensures r.Success? ==> r.value == TouchedView()
      ensures r.Success? ==> r.value.Keys == set k | k in touched
    {
      r := CollectTouched();
    }
  }

  /** A zombie entry survives `toMap`: over a raw map with keys x, y and z where only x and
      y are declared, the written export still holds z while the filtered one holds x and y
      only. */
  method ExportKeepsZombies() returns (whole: Result<map<string, Setting>, SettingError>,
                                       filtered: Result<map<string, Setting>, SettingError>)
    ensures whole.Success? && "z" in whole.value
    ensures filtered.Success? && filtered.value.Keys == {"x", "y"}
  {
    var entry := Setting(SettingValue(NumberTag, JsNumber(1), JsNumber(1)), None);
    var store := new SettingStore(map["x" := entry, "y" := entry, "z" := entry]);
    var x := store.GetOrDefine("x", JsNumber(1), None);
    var y := store.GetOrDefine("y", JsNumber(2), None);
    whole := store.ToMap();
    filtered := store.ToMapFiltered();
    assert store.touched == ["x", "y"];
    assert (set k | k in store.touched) == {"x", "y"};
  }

  /** A declaration that throws still leaves its key touched: with a non-primitive default
      for a missing key, `getOrDefine` fails and the export after it fails too. */
  method InvalidDefaultBreaksExport() returns (declared: Result<JsValue, SettingError>,
                                               exported: Result<map<string, Setting>, SettingError>)
    ensures declared == Failure(InvalidType)
    ensures exported == Failure(NotFound("k"))
  {
    var store := new SettingStore(map[]);
    declared := store.GetOrDefine("k", JsObject, None);
    exported := store.ToMap();
  }

  // ---------------------------------------------------------------------------
  // Load-time setting handles

  /** The entry `register` hands to the host, and what the host's `getSetting` returns. */
  datatype HostSetting = HostSetting(setting: Setting, settingtype: string)

  /** A `registerSetting(id, entry)` call. */
  datatype Registration = Registration(id: string, entry: HostSetting)

  /** A failed host call: the host's error, or data of the wrong shape. */
  type HostError = string

  /** A top-level setting an extension registers once at load time and reads later. */
  class ExtensionSetting {
    const id: string
    const settingType: string
    const defaultValue: JsValue
    var ui: Option<Control>

    constructor (id: string, defaultValue: JsValue, settingType: string)
      ensures this.id == id && this.defaultValue == defaultValue
      ensures this.settingType == settingType && ui == None
    {
      this.id := id;
      this.defaultValue := defaultValue;
      this.settingType := settingType;
      ui := None;
    }

    /** `setUI`: attaches a control and returns the handle itself, for chaining. */
    method SetUI(ui: Control) returns (self: ExtensionSetting)
      modifies this
      ensures this.ui == Some(ui) && self == this
    {
      this.ui := Some(ui);
      self := this;
    }

    /** The request `register` sends: under the handle's id, a fresh entry whose value and
        default are both the declared default, with the attached control's definition or
        null. */
    function Register(): (r: Result<Registration, SettingError>)
      reads this
      ensures r.Success? <==> IsSettingValue(defaultValue)
      ensures r.Success? ==>
        && r.value.id == id
        && r.value.entry.setting.val.val == defaultValue
        && r.value.entry.setting.val.defaultVal == defaultValue
        && WellFormed(r.value.entry.setting.val)
        && r.value.entry.setting.ui == Definition(ui)
        && r.value.entry.settingtype == settingType
    {
      match ToSettingValue(defaultValue)
      case Failure(e) => Failure(e)
      case Success(sv) => Success(Registration(id, HostSetting(Setting(sv, Definition(ui)), settingType)))
    }

    /** `get`, fail-soft: the host's stored value when the read succeeds, the declared
        default on any failure. */
    function Get(host: Result<HostSetting, HostError>): (v: JsValue)
      reads this
      ensures host.Failure? ==> v == defaultValue
      ensures host.Success? ==> v == host.value.setting.val.val
    {
      match host
      case Success(s) => s.setting.val.val
      case Failure(_) => defaultValue
    }
  }
}
