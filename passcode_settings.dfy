/**
 * The passcode presentation settings: a value with a default, two
 * functional updaters, equality, a key/value encoding, and the update of
 * the stored preferences entry inside a transaction.
 */
module PasscodeSettings {
  import opened Wrappers
  import opened Postbox

  datatype PresentationPasscodeSettings = PresentationPasscodeSettings(enableBiometrics: bool, autolockTimeout: Option<Int32>)
  {
    /** `withUpdatedEnableBiometrics`: only biometrics changes. */
    function WithUpdatedEnableBiometrics(enableBiometrics: bool): (r: PresentationPasscodeSettings)
      ensures r.enableBiometrics == enableBiometrics && r.autolockTimeout == this.autolockTimeout
    {
      PresentationPasscodeSettings(enableBiometrics, this.autolockTimeout)
    }

    /** `withUpdatedAutolockTimeout`: only the timeout changes. */
    function WithUpdatedAutolockTimeout(autolockTimeout: Option<Int32>): (r: PresentationPasscodeSettings)
      ensures r.enableBiometrics == this.enableBiometrics && r.autolockTimeout == autolockTimeout
    {
      PresentationPasscodeSettings(this.enableBiometrics, autolockTimeout)
    }
  }

  /** `defaultSettings`: biometrics off, no autolock timeout, which is what a coder holding nothing decodes to. */
  function DefaultSettings(): (r: PresentationPasscodeSettings)
    ensures r == Decode(map[])
  {
    PresentationPasscodeSettings(false, None)
  }

  /** The hand-written `==`: field by field. */
  function Equal(lhs: PresentationPasscodeSettings, rhs: PresentationPasscodeSettings): (r: bool)
    ensures r <==> lhs == rhs
  {
    lhs.enableBiometrics == rhs.enableBiometrics && lhs.autolockTimeout == rhs.autolockTimeout
  }

  /** A stored preferences entry: passcode settings, or an entry of another kind. */
  datatype PreferencesEntry = PasscodeEntry(settings: PresentationPasscodeSettings) | OtherEntry(kind: int)

  /** `isEqual(to:)`: equal only to a passcode-settings entry holding an equal value. */
  function IsEqual(self: PresentationPasscodeSettings, to: PreferencesEntry): (r: bool)
    ensures r <==> to == PasscodeEntry(self)
  {
    match to
    case PasscodeEntry(other) => Equal(self, other)
    case OtherEntry(_) => false
  }

  /** A value in the key/value coder: a 32-bit integer or an explicit nil. */
  datatype EncodedValue = Int32Value(value: Int32) | NilValue

  /** The encoder's or decoder's storage, keyed by field name. */
  type Coding = map<string, EncodedValue>

  /** `encode(_:)`: `"s"` holds 1 or 0, `"al"` the timeout or nil; other keys are left alone. */
  function Encode(settings: PresentationPasscodeSettings, encoder: Coding): (r: Coding)
    ensures r.Keys == encoder.Keys + {"s", "al"}
    ensures forall k :: k in encoder && k != "s" && k != "al" ==> r[k] == encoder[k]
    ensures r["s"] == Int32Value(if settings.enableBiometrics then 1 else 0)
    ensures r["al"] == if settings.autolockTimeout.Some? then Int32Value(settings.autolockTimeout.value) else NilValue
  {
    var withFlag := encoder["s" := Int32Value(if settings.enableBiometrics then 1 else 0)];
    match settings.autolockTimeout
    case Some(autolockTimeout) => withFlag["al" := Int32Value(autolockTimeout)]
    case None => withFlag["al" := NilValue]
  }

  /** `decodeInt32ForKey(key, orElse:)`: the stored integer, or the fallback when there is none. */
  function DecodeInt32(decoder: Coding, key: string, orElse: Int32): Int32 {
    if key in decoder && decoder[key].Int32Value? then decoder[key].value else orElse
  }

  /** `decodeOptionalInt32ForKey(key)`: the stored integer, or nil when there is none. */
  function DecodeOptionalInt32(decoder: Coding, key: string): Option<Int32> {
    if key in decoder && decoder[key].Int32Value? then Some(decoder[key].value) else None
  }

  /** `init(decoder:)`: biometrics on iff `"s"` holds a nonzero integer. */
  function Decode(decoder: Coding): (r: PresentationPasscodeSettings)
    ensures r.enableBiometrics ==> "s" in decoder && decoder["s"].Int32Value? && decoder["s"].value != 0
    ensures r.autolockTimeout.Some? <==> "al" in decoder && decoder["al"].Int32Value?
  {
    PresentationPasscodeSettings(DecodeInt32(decoder, "s", 0) != 0, DecodeOptionalInt32(decoder, "al"))
  }

  /** Decoding what was encoded gives the value back, whatever the encoder held before. */
  lemma DecodeEncode(settings: PresentationPasscodeSettings, encoder: Coding)
    ensures Decode(Encode(settings, encoder)) == settings
  {
    var coded := Encode(settings, encoder);
    assert "s" in coded && "al" in coded;
  }

  /** A missing or non-integer `"s"` reads as biometrics off; an integer reads as on iff it is nonzero. */
  lemma DecodeBiometrics(decoder: Coding)
    ensures !("s" in decoder && decoder["s"].Int32Value?) ==> !Decode(decoder).enableBiometrics
    ensures "s" in decoder && decoder["s"].Int32Value? ==> (Decode(decoder).enableBiometrics <==> decoder["s"].value != 0)
  {
  }

  /** The key under which the passcode settings are stored (`presentationPasscodeSettings`, raw value 1). */
  const PresentationPasscodeSettingsKey: int := 1

  /** The settings to update: the stored entry when it is passcode settings, the default otherwise. */
  function CurrentSettings(store: map<int, PreferencesEntry>): (r: PresentationPasscodeSettings)
    ensures PresentationPasscodeSettingsKey in store && store[PresentationPasscodeSettingsKey].PasscodeEntry? ==>
      r == store[PresentationPasscodeSettingsKey].settings
    ensures !(PresentationPasscodeSettingsKey in store && store[PresentationPasscodeSettingsKey].PasscodeEntry?) ==>
      r == DefaultSettings()
  {
    if PresentationPasscodeSettingsKey in store then
      match store[PresentationPasscodeSettingsKey]
      case PasscodeEntry(settings) => settings
      case OtherEntry(_) => DefaultSettings()
    else DefaultSettings()
  }

  /**
   * `updatePresentationPasscodeSettingsInternal`: store `f` of the current
   * settings under the passcode key, leaving every other entry alone.
   */
  function UpdatePresentationPasscodeSettingsInternal(
    store: map<int, PreferencesEntry>, f: PresentationPasscodeSettings -> PresentationPasscodeSettings): (r: map<int, PreferencesEntry>)
    ensures r.Keys == store.Keys + {PresentationPasscodeSettingsKey}
    ensures r[PresentationPasscodeSettingsKey] == PasscodeEntry(f(CurrentSettings(store)))
    ensures forall k :: k in store && k != PresentationPasscodeSettingsKey ==> r[k] == store[k]
  {
    store[PresentationPasscodeSettingsKey := PasscodeEntry(f(CurrentSettings(store)))]
  }

  /** Two updates in a row are one update by the composed function. */
  lemma UpdateTwice(store: map<int, PreferencesEntry>,
                    f: PresentationPasscodeSettings -> PresentationPasscodeSettings,
                    g: PresentationPasscodeSettings -> PresentationPasscodeSettings)
    ensures UpdatePresentationPasscodeSettingsInternal(UpdatePresentationPasscodeSettingsInternal(store, f), g)
         == UpdatePresentationPasscodeSettingsInternal(store, s => g(f(s)))
  {
    var once := UpdatePresentationPasscodeSettingsInternal(store, f);
    assert CurrentSettings(once) == f(CurrentSettings(store));
  }

  /** An update that keeps the value stores the current settings: the default when none were stored. */
  lemma UpdateWithIdentity(store: map<int, PreferencesEntry>)
    ensures var r := UpdatePresentationPasscodeSettingsInternal(store, s => s);
      r[PresentationPasscodeSettingsKey] == PasscodeEntry(CurrentSettings(store))
    ensures PresentationPasscodeSettingsKey !in store ==>
      UpdatePresentationPasscodeSettingsInternal(store, s => s)[PresentationPasscodeSettingsKey] == PasscodeEntry(DefaultSettings())
  {
  }

  /** The two updaters touch different fields, so they commute, and each undoes nothing of the other. */
  lemma UpdatersCommute(s: PresentationPasscodeSettings, enableBiometrics: bool, autolockTimeout: Option<Int32>)
    ensures s.WithUpdatedEnableBiometrics(enableBiometrics).WithUpdatedAutolockTimeout(autolockTimeout)
         == s.WithUpdatedAutolockTimeout(autolockTimeout).WithUpdatedEnableBiometrics(enableBiometrics)
    ensures s.WithUpdatedEnableBiometrics(s.enableBiometrics) == s
    ensures s.WithUpdatedAutolockTimeout(s.autolockTimeout) == s
  {
  }
}
