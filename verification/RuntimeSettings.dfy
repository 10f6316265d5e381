/** The on-device settings: the menu that changes them, the blob that stores them in four layouts, and the PIN check. */
module RuntimeSettings {
  import opened Words
  import opened Bytes

  const SCREEN_SLEEP_DEFAULT_S: u8 := 30
  const SCREEN_SLEEP_MAX_S: u8 := 120
  const BRIGHTNESS_DEFAULT_PCT: u8 := 100
  const BRIGHTNESS_MIN_PCT: u8 := 10
  const BRIGHTNESS_MAX_PCT: u8 := 100
  const LOCK_TIMEOUT_DEFAULT_S: u16 := 300
  const LOCK_TIMEOUT_MIN_S: u16 := 15
  const LOCK_TIMEOUT_MAX_S: u16 := 3_600

  type Flags16 = s: seq<bool> | |s| == MAX_CONTACTS witness seq(16, _ => false)

  datatype Settings = Settings(notifVisual: bool, notifAudible: bool, telemetry: Flags16, contactCount: u8,
                               lockFlags: u8, screenSleepS: u8, lockTimeoutS: u16, brightness: u8)

  function DefaultEnabled(): Settings {
    Settings(true, true, seq(16, _ => false), 0, 0, SCREEN_SLEEP_DEFAULT_S, LOCK_TIMEOUT_DEFAULT_S,
             BRIGHTNESS_DEFAULT_PCT)
  }

  function Clamp(x: int, lo: int, hi: int): int {
    if x < lo then lo else if x > hi then hi else x
  }

  // ── The menu ───────────────────────────────────────────────────────────────

  datatype MenuAction =
    | SetNotifVisual(on: bool)
    | SetNotifAudible(on: bool)
    | SetContactTelemetry(index: nat, on: bool)
    | SetLockFlags(flags: u8)
    | SetScreenSleepTimeout(secs: u8)
    | SetLockEnabled(on: bool)
    | SetLockTimeout(timeout: u16)
    | SetBacklightBrightness(pct: u8)

  /** Bit 0 is `LOCK_SCREEN_ENABLE`, bit 1 `LOCK_NO_DEVICE_DISABLE`; the other six are undefined. */
  function DefinedBits(flags: u8): u8 { flags % 4 }

  function WithScreenLock(flags: u8, on: bool): u8 {
    flags - flags % 2 + if on then 1 else 0
  }

  /** The settings after an action, field by field: every field not named by the action is kept. */
  function Applied(s: Settings, a: MenuAction): Settings {
    match a
    case SetNotifVisual(on) => s.(notifVisual := on)
    case SetNotifAudible(on) => s.(notifAudible := on)
    case SetContactTelemetry(i, on) => if i < MAX_CONTACTS then s.(telemetry := s.telemetry[i := on]) else s
    case SetLockFlags(flags) => s.(lockFlags := DefinedBits(flags))
    case SetScreenSleepTimeout(secs) => s.(screenSleepS := Min(secs, SCREEN_SLEEP_MAX_S))
    case SetLockEnabled(on) => s.(lockFlags := WithScreenLock(s.lockFlags, on))
    case SetLockTimeout(secs) => s.(lockTimeoutS := Clamp(secs, LOCK_TIMEOUT_MIN_S, LOCK_TIMEOUT_MAX_S))
    case SetBacklightBrightness(pct) => s.(brightness := Clamp(pct, BRIGHTNESS_MIN_PCT, BRIGHTNESS_MAX_PCT))
  }

  class Store {
    var notifVisual: bool
    var notifAudible: bool
    const telemetry: array<bool>
    var contactCount: u8
    var lockFlags: u8
    var screenSleepS: u8
    var lockTimeoutS: u16
    var brightness: u8

    ghost predicate Valid() {
      telemetry.Length == MAX_CONTACTS
    }

    ghost function View(): Settings
      requires Valid()
      reads this, telemetry
    {
      Settings(notifVisual, notifAudible, telemetry[..], contactCount, lockFlags, screenSleepS, lockTimeoutS,
               brightness)
    }

    constructor Default()
      ensures Valid() && fresh(telemetry) && View() == DefaultEnabled()
    {
      notifVisual, notifAudible := true, true;
      telemetry := new bool[MAX_CONTACTS](_ => false);
      contactCount, lockFlags := 0, 0;
      screenSleepS, lockTimeoutS, brightness := SCREEN_SLEEP_DEFAULT_S, LOCK_TIMEOUT_DEFAULT_S, BRIGHTNESS_DEFAULT_PCT;
      new;
      assert telemetry[..] == seq(16, _ => false);
    }

    method ApplyMenuAction(a: MenuAction)
      requires Valid()
      modifies this, telemetry
      ensures Valid() && View() == Applied(old(View()), a)
    {
      match a
      case SetNotifVisual(on) => notifVisual := on;
      case SetNotifAudible(on) => notifAudible := on;
      case SetContactTelemetry(i, on) =>
        if i < MAX_CONTACTS {
          telemetry[i] := on;
        }
      case SetLockFlags(flags) => lockFlags := DefinedBits(flags);
      case SetScreenSleepTimeout(secs) => screenSleepS := Min(secs, SCREEN_SLEEP_MAX_S);
      case SetLockEnabled(on) => lockFlags := WithScreenLock(lockFlags, on);
      case SetLockTimeout(secs) => lockTimeoutS := Clamp(secs, LOCK_TIMEOUT_MIN_S, LOCK_TIMEOUT_MAX_S);
      case SetBacklightBrightness(pct) => brightness := Clamp(pct, BRIGHTNESS_MIN_PCT, BRIGHTNESS_MAX_PCT);
    }

    /** Write the current layout into `out`. */
    method Serialize(out: array<u8>) returns (n: nat)
      requires Valid() && out.Length >= BLOB_LEN
      modifies out
      ensures n == BLOB_LEN && out[..n] == Encode(View())
      ensures forall i :: n <= i < out.Length ==> out[i] == old(out[i])
    {
      ghost var s := View();
      n := CopyInto(out, 0, [VERSION, BoolByte(notifVisual), BoolByte(notifAudible), contactCount, lockFlags]);
      for i := 0 to MAX_CONTACTS
        invariant n == 5 + i
        invariant out[..n] == [VERSION, BoolByte(s.notifVisual), BoolByte(s.notifAudible), s.contactCount, s.lockFlags]
                              + BoolBytes(s.telemetry[..i])
        invariant forall j :: BLOB_LEN <= j < out.Length ==> out[j] == old(out[j])
      {
        assert BoolBytes(s.telemetry[..i + 1]) == BoolBytes(s.telemetry[..i]) + [BoolByte(telemetry[i])];
        n := CopyInto(out, n, [BoolByte(telemetry[i])]);
      }
      assert s.telemetry[..MAX_CONTACTS] == s.telemetry;
      n := CopyInto(out, n, [Min(screenSleepS, SCREEN_SLEEP_MAX_S)]);
      var t: u16 := Clamp(lockTimeoutS, LOCK_TIMEOUT_MIN_S, LOCK_TIMEOUT_MAX_S);
      n := CopyInto(out, n, [t % 0x100, t / 0x100]);
      n := CopyInto(out, n, [Clamp(brightness, BRIGHTNESS_MIN_PCT, BRIGHTNESS_MAX_PCT)]);
    }
  }

  // ── The blob and its four layouts ──────────────────────────────────────────

  const VERSION: u8 := 2
  const VERSION_V1: u8 := 1
  const V1_LEGACY_BLOB_LEN := 21
  const V1_BLOB_LEN := 22
  const V2_LEGACY_BLOB_LEN := 24
  const BLOB_LEN := 25

  function BoolBytes(bs: seq<bool>): (out: seq<u8>)
    ensures |out| == |bs| && forall i :: 0 <= i < |bs| ==> out[i] == BoolByte(bs[i])
  {
    seq(|bs|, i requires 0 <= i < |bs| => BoolByte(bs[i]))
  }

  /** The fields that every layout stores, in the place where every layout stores them. */
  function Common(version: u8, s: Settings): (b: seq<u8>)
    ensures |b| == V1_LEGACY_BLOB_LEN
  {
    [version, BoolByte(s.notifVisual), BoolByte(s.notifAudible), s.contactCount, s.lockFlags] + BoolBytes(s.telemetry)
  }

  function LockBytes(timeout: u16): seq<u8> {
    [timeout % 0x100, timeout / 0x100]
  }

  function Encode(s: Settings): (b: seq<u8>)
    ensures |b| == BLOB_LEN
  {
    Common(VERSION, s) + [Min(s.screenSleepS, SCREEN_SLEEP_MAX_S)]
    + LockBytes(Clamp(s.lockTimeoutS, LOCK_TIMEOUT_MIN_S, LOCK_TIMEOUT_MAX_S))
    + [Clamp(s.brightness, BRIGHTNESS_MIN_PCT, BRIGHTNESS_MAX_PCT)]
  }

  /** What firmware of the first version wrote, before and after it knew the screen-sleep timeout. */
  function EncodeV1Legacy(s: Settings): seq<u8> { Common(VERSION_V1, s) }

  function EncodeV1(s: Settings): seq<u8> { Common(VERSION_V1, s) + [Min(s.screenSleepS, SCREEN_SLEEP_MAX_S)] }

  method ParseCommonFields(b: seq<u8>) returns (s: Settings)
    requires |b| >= V1_LEGACY_BLOB_LEN
    ensures s == DefaultEnabled().(notifVisual := s.notifVisual, notifAudible := s.notifAudible,
                                   telemetry := s.telemetry, contactCount := b[3], lockFlags := b[4])
    ensures (s.notifVisual <==> b[1] != 0) && (s.notifAudible <==> b[2] != 0)
    ensures forall i :: 0 <= i < MAX_CONTACTS ==> (s.telemetry[i] <==> b[5 + i] != 0)
  {
    s := DefaultEnabled();
    s := s.(notifVisual := b[1] != 0);
    s := s.(notifAudible := b[2] != 0);
    s := s.(contactCount := b[3]);
    s := s.(lockFlags := b[4]);
    ghost var t := s;
    for i := 0 to MAX_CONTACTS
      invariant s == t.(telemetry := s.telemetry)
      invariant forall j :: 0 <= j < i ==> (s.telemetry[j] <==> b[5 + j] != 0)
    {
      s := s.(telemetry := s.telemetry[i := b[5 + i] != 0]);
    }
  }

  /** The reader's answer for a blob that its version and length let through. */
  ghost predicate Reads(b: seq<u8>, s: Settings) {
    && |b| >= V1_LEGACY_BLOB_LEN
    && (s.notifVisual <==> b[1] != 0) && (s.notifAudible <==> b[2] != 0)
    && s.contactCount == b[3] && s.lockFlags == b[4]
    && (forall i :: 0 <= i < MAX_CONTACTS ==> (s.telemetry[i] <==> b[5 + i] != 0))
    && s.screenSleepS == (if |b| >= V1_BLOB_LEN then Min(b[21], SCREEN_SLEEP_MAX_S) else SCREEN_SLEEP_DEFAULT_S)
    && s.lockTimeoutS == (if b[0] == VERSION && |b| >= V2_LEGACY_BLOB_LEN
                          then Clamp(b[22] + 0x100 * Wide(b[23]), LOCK_TIMEOUT_MIN_S, LOCK_TIMEOUT_MAX_S)
                          else LOCK_TIMEOUT_DEFAULT_S)
    && s.brightness == (if b[0] == VERSION && |b| >= BLOB_LEN then Clamp(b[24], BRIGHTNESS_MIN_PCT, BRIGHTNESS_MAX_PCT)
                        else BRIGHTNESS_DEFAULT_PCT)
  }

  function Wide(b: u8): int { b }

  predicate Accepted(b: seq<u8>) {
    b != [] && ((b[0] == VERSION && |b| >= V2_LEGACY_BLOB_LEN) || (b[0] == VERSION_V1 && |b| >= V1_LEGACY_BLOB_LEN))
  }

  method Deserialize(b: seq<u8>) returns (r: Option<Settings>)
    ensures r.Some? <==> b != [] && ((b[0] == 2 && |b| >= 24) || (b[0] == 1 && |b| >= 21))
    ensures r.Some? <==> Accepted(b)
    ensures r.Some? ==> Reads(b, r.value)
  {
    if |b| == 0 {
      return None;
    }
    if b[0] == VERSION {
      if |b| < V2_LEGACY_BLOB_LEN {
        return None;
      }
      var s := ParseCommonFields(b);
      var raw := b[22] + 0x100 * Wide(b[23]);
      s := s.(screenSleepS := Min(b[21], SCREEN_SLEEP_MAX_S));
      s := s.(lockTimeoutS := Clamp(raw, LOCK_TIMEOUT_MIN_S, LOCK_TIMEOUT_MAX_S));
      s := s.(brightness := if |b| >= BLOB_LEN then Clamp(b[24], BRIGHTNESS_MIN_PCT, BRIGHTNESS_MAX_PCT)
                            else BRIGHTNESS_DEFAULT_PCT);
      return Some(s);
    }
    if b[0] == VERSION_V1 {
      if |b| < V1_LEGACY_BLOB_LEN {
        return None;
      }
      var s := ParseCommonFields(b);
      s := s.(screenSleepS := if |b| >= V1_BLOB_LEN then Min(b[21], SCREEN_SLEEP_MAX_S) else SCREEN_SLEEP_DEFAULT_S);
      s := s.(lockTimeoutS := LOCK_TIMEOUT_DEFAULT_S);
      s := s.(brightness := BRIGHTNESS_DEFAULT_PCT);
      return Some(s);
    }
    return None;
  }

  /** Which byte becomes what: a word kept within its range, or the default where the layout has no such byte. */
  lemma FieldsRead(b: seq<u8>, s: Settings)
    requires Reads(b, s)
    ensures (s.notifVisual <==> b[1] != 0) && (s.notifAudible <==> b[2] != 0)
    ensures s.contactCount == b[3] && s.lockFlags == b[4]
    ensures forall i :: 0 <= i < 16 ==> (s.telemetry[i] <==> b[5 + i] != 0)
    ensures s.screenSleepS == if |b| < 22 then 30 else if b[21] <= 120 then b[21] else 120
    ensures b[0] != 2 || |b| < 24 ==> s.lockTimeoutS == 300
    ensures b[0] == 2 && |b| >= 24 ==>
              var timeout := b[22] + 256 * Wide(b[23]);
              s.lockTimeoutS == if timeout < 15 then 15 else if timeout <= 3_600 then timeout else 3_600
    ensures b[0] != 2 || |b| < 25 ==> s.brightness == 100
    ensures b[0] == 2 && |b| >= 25 ==>
              s.brightness == if b[24] < 10 then 10 else if b[24] <= 100 then b[24] else 100
  {
  }

  /** Out of the box: both notifications on, nothing shared, nothing locked. */
  lemma Defaults()
    ensures var s := DefaultEnabled();
            && s.notifVisual && s.notifAudible && s.contactCount == 0 && s.lockFlags == 0
            && (forall i :: 0 <= i < 16 ==> !s.telemetry[i])
            && s.screenSleepS == 30 && s.lockTimeoutS == 300 && s.brightness == 100
  {
  }

  // ── What survives a save and a load ────────────────────────────────────────

  function Clamped(s: Settings): Settings {
    Settings(s.notifVisual, s.notifAudible, s.telemetry, s.contactCount, s.lockFlags,
             Min(s.screenSleepS, SCREEN_SLEEP_MAX_S),
             Clamp(s.lockTimeoutS, LOCK_TIMEOUT_MIN_S, LOCK_TIMEOUT_MAX_S),
             Clamp(s.brightness, BRIGHTNESS_MIN_PCT, BRIGHTNESS_MAX_PCT))
  }

  predicate InRange(s: Settings) {
    && s.screenSleepS <= SCREEN_SLEEP_MAX_S
    && LOCK_TIMEOUT_MIN_S <= s.lockTimeoutS <= LOCK_TIMEOUT_MAX_S
    && BRIGHTNESS_MIN_PCT <= s.brightness <= BRIGHTNESS_MAX_PCT
    && s.lockFlags < 4
  }

  lemma CommonFieldsRead(version: u8, s: Settings, rest: seq<u8>, r: Settings)
    requires Reads(Common(version, s) + rest, r)
    ensures r.notifVisual == s.notifVisual && r.notifAudible == s.notifAudible && r.telemetry == s.telemetry
    ensures r.contactCount == s.contactCount && r.lockFlags == s.lockFlags
  {
    var b := Common(version, s) + rest;
    forall i | 0 <= i < MAX_CONTACTS
      ensures r.telemetry[i] == s.telemetry[i]
    {
      assert b[5 + i] == BoolByte(s.telemetry[i]);
    }
  }

  /** Loading what was saved yields the clamped settings; the saved blob of those is the same blob. */
  lemma SaveLoad(s: Settings, junk: seq<u8>, r: Settings)
    requires Reads(Encode(s) + junk, r)
    ensures Accepted(Encode(s) + junk)
    ensures r == Clamped(s)
    ensures Encode(r) == Encode(s)
  {
    var rest := [Min(s.screenSleepS, SCREEN_SLEEP_MAX_S)]
      + LockBytes(Clamp(s.lockTimeoutS, LOCK_TIMEOUT_MIN_S, LOCK_TIMEOUT_MAX_S))
      + [Clamp(s.brightness, BRIGHTNESS_MIN_PCT, BRIGHTNESS_MAX_PCT)];
    assert Encode(s) + junk == Common(VERSION, s) + (rest + junk);
    CommonFieldsRead(VERSION, s, rest + junk, r);
  }

  /** A current blob cut to the length from before the brightness was stored loses the brightness and nothing else. */
  lemma LegacyV2LosesBrightnessOnly(s: Settings, r: Settings)
    requires Reads(Encode(s)[..V2_LEGACY_BLOB_LEN], r)
    ensures Accepted(Encode(s)[..V2_LEGACY_BLOB_LEN])
    ensures r == Clamped(s).(brightness := BRIGHTNESS_DEFAULT_PCT)
  {
    var rest := [Min(s.screenSleepS, SCREEN_SLEEP_MAX_S)]
      + LockBytes(Clamp(s.lockTimeoutS, LOCK_TIMEOUT_MIN_S, LOCK_TIMEOUT_MAX_S));
    assert Encode(s)[..V2_LEGACY_BLOB_LEN] == Common(VERSION, s) + rest;
    CommonFieldsRead(VERSION, s, rest, r);
  }

  /** Both layouts of version 1 keep every field they store; only the later ones take their defaults. */
  lemma V1KeepsWhatItStores(s: Settings, r: Settings, q: Settings)
    requires Reads(EncodeV1(s), r) && Reads(EncodeV1Legacy(s), q)
    ensures Accepted(EncodeV1(s)) && Accepted(EncodeV1Legacy(s))
    ensures r == Clamped(s).(lockTimeoutS := LOCK_TIMEOUT_DEFAULT_S, brightness := BRIGHTNESS_DEFAULT_PCT)
    ensures q == r.(screenSleepS := SCREEN_SLEEP_DEFAULT_S)
  {
    CommonFieldsRead(VERSION_V1, s, [Min(s.screenSleepS, SCREEN_SLEEP_MAX_S)], r);
    assert Common(VERSION_V1, s) + [] == Common(VERSION_V1, s);
    CommonFieldsRead(VERSION_V1, s, [], q);
  }

  /** The place in the settings that an action writes. */
  datatype Place = NotifVisual | NotifAudible | Telemetry(index: nat) | LockFlags | ScreenSleep | LockTimeout
    | Brightness

  function PlaceOf(a: MenuAction): Place {
    match a
    case SetNotifVisual(_) => NotifVisual
    case SetNotifAudible(_) => NotifAudible
    case SetContactTelemetry(i, _) => Telemetry(i)
    case SetLockFlags(_) => LockFlags
    case SetLockEnabled(_) => LockFlags
    case SetScreenSleepTimeout(_) => ScreenSleep
    case SetLockTimeout(_) => LockTimeout
    case SetBacklightBrightness(_) => Brightness
  }

  /** What each action sets, and to what; everything else stays. */
  lemma ActionSets(s: Settings, a: MenuAction)
    ensures var t := Applied(s, a);
            && (a.SetNotifVisual? ==> t.notifVisual == a.on && t == s.(notifVisual := t.notifVisual))
            && (a.SetNotifAudible? ==> t.notifAudible == a.on && t == s.(notifAudible := t.notifAudible))
            && (a.SetContactTelemetry? ==>
                  && (a.index < 16 ==> t.telemetry[a.index] == a.on)
                  && (forall i :: 0 <= i < 16 && i != a.index ==> t.telemetry[i] == s.telemetry[i])
                  && t == s.(telemetry := t.telemetry))
            && (a.SetLockFlags? ==>
                  && t.lockFlags < 4 && t.lockFlags % 2 == a.flags % 2 && t.lockFlags / 2 == a.flags / 2 % 2
                  && t == s.(lockFlags := t.lockFlags))
            && (a.SetLockEnabled? ==>
                  && t.lockFlags / 2 == s.lockFlags / 2 && t.lockFlags % 2 == (if a.on then 1 else 0)
                  && t == s.(lockFlags := t.lockFlags))
            && (a.SetScreenSleepTimeout? ==>
                  && t.screenSleepS == (if a.secs <= 120 then a.secs else 120)
                  && t == s.(screenSleepS := t.screenSleepS))
            && (a.SetLockTimeout? ==>
                  && (a.timeout < 15 ==> t.lockTimeoutS == 15) && (a.timeout > 3_600 ==> t.lockTimeoutS == 3_600)
                  && (15 <= a.timeout <= 3_600 ==> t.lockTimeoutS == a.timeout)
                  && t == s.(lockTimeoutS := t.lockTimeoutS))
            && (a.SetBacklightBrightness? ==>
                  && (a.pct < 10 ==> t.brightness == 10) && (a.pct > 100 ==> t.brightness == 100)
                  && (10 <= a.pct <= 100 ==> t.brightness == a.pct)
                  && t == s.(brightness := t.brightness))
  {
  }

  /** Actions on different places do not disturb each other; on the same place the last one wins. */
  lemma ActionsIndependent(s: Settings, a: MenuAction, b: MenuAction)
    ensures PlaceOf(a) != PlaceOf(b) ==> Applied(Applied(s, a), b) == Applied(Applied(s, b), a)
    ensures PlaceOf(a) == PlaceOf(b) && !b.SetLockEnabled? ==> Applied(Applied(s, a), b) == Applied(s, b)
    ensures a.SetLockFlags? && b.SetLockEnabled? ==>
              && Applied(Applied(s, a), b).lockFlags / 2 == DefinedBits(a.flags) / 2
              && (Applied(Applied(s, a), b).lockFlags % 2 == 1 <==> b.on)
  {
    if PlaceOf(a) == PlaceOf(b) {
      if !b.SetLockEnabled? {
        SamePlaceLastWins(s, a, b);
      }
    } else {
      OtherPlaceCommutes(s, a, b);
    }
  }

  lemma SamePlaceLastWins(s: Settings, a: MenuAction, b: MenuAction)
    requires PlaceOf(a) == PlaceOf(b) && !b.SetLockEnabled?
    ensures Applied(Applied(s, a), b) == Applied(s, b)
  {
    if a.SetContactTelemetry? && a.index < MAX_CONTACTS {
      assert s.telemetry[a.index := a.on][a.index := b.on] == s.telemetry[a.index := b.on];
    }
  }

  lemma OtherPlaceCommutes(s: Settings, a: MenuAction, b: MenuAction)
    requires PlaceOf(a) != PlaceOf(b)
    ensures Applied(Applied(s, a), b) == Applied(Applied(s, b), a)
  {
    if a.SetContactTelemetry? && b.SetContactTelemetry? && a.index < MAX_CONTACTS && b.index < MAX_CONTACTS {
      assert s.telemetry[a.index := a.on][b.index := b.on] == s.telemetry[b.index := b.on][a.index := a.on];
    }
  }

  function AppliedAll(actions: seq<MenuAction>): Settings {
    if actions == [] then DefaultEnabled()
    else Applied(AppliedAll(actions[..|actions| - 1]), actions[|actions| - 1])
  }

  lemma {:induction false} MenuKeepsInRange(actions: seq<MenuAction>)
    ensures InRange(AppliedAll(actions))
  {
    if actions != [] {
      MenuKeepsInRange(actions[..|actions| - 1]);
    }
  }

  /** Whatever the menu has done since the defaults, a save and a load restore it exactly. */
  lemma MenuSettingsSurvive(actions: seq<MenuAction>, r: Settings)
    requires Reads(Encode(AppliedAll(actions)), r)
    ensures InRange(r) && r == AppliedAll(actions)
  {
    MenuKeepsInRange(actions);
    var s := AppliedAll(actions);
    assert Encode(s) + [] == Encode(s);
    SaveLoad(s, [], r);
  }

  // ── The PIN ────────────────────────────────────────────────────────────────

  function Padded(entered: seq<bv8>, i: nat): bv8 {
    if i < |entered| then entered[i] else 0
  }

  /**
   * The OR over all differences is zero exactly when a PIN is set, the lengths agree and every stored byte is the
   * entered one, the entered PIN being padded with zeros.
   */
  method VerifyPin(entered: seq<bv8>, storedPin: seq<bv8>, storedPinLen: u8) returns (ok: bool)
    requires |storedPin| == MAX_PIN_LEN
    ensures ok <==>
            && storedPinLen != 0 && |entered| == storedPinLen
            && (forall i :: 0 <= i < 16 && i < |entered| ==> storedPin[i] == entered[i])
            && forall i :: |entered| <= i < 16 ==> storedPin[i] == 0
  {
    var slen := storedPinLen;
    if slen == 0 {
      return false;
    }
    var mismatch: bv8 := if |entered| != slen then 1 else 0;
    for i := 0 to MAX_PIN_LEN
      invariant mismatch == 0 <==> |entered| == slen && forall j :: 0 <= j < i ==> storedPin[j] == Padded(entered, j)
    {
      var a := Padded(entered, i);
      var b := storedPin[i];
      OrXorIsZero(mismatch, a, b);
      mismatch := mismatch | (a ^ b);
    }
    for i := Min(slen, |entered|) to |entered|
      invariant |entered| == slen ==>
                  (mismatch == 0 <==> forall j :: 0 <= j < MAX_PIN_LEN ==> storedPin[j] == Padded(entered, j))
      invariant |entered| != slen ==> mismatch != 0
    {
      OrKeepsNonZero(mismatch, entered[i]);
      mismatch := mismatch | entered[i];
    }
    ok := mismatch == 0;
    assert (forall i :: 0 <= i < MAX_PIN_LEN ==> storedPin[i] == Padded(entered, i)) <==>
           && (forall i :: 0 <= i < 16 && i < |entered| ==> storedPin[i] == Padded(entered, i))
           && forall i :: |entered| <= i < 16 ==> storedPin[i] == Padded(entered, i);
  }

  lemma OrXorIsZero(m: bv8, a: bv8, b: bv8)
    ensures m | (a ^ b) == 0 <==> m == 0 && a == b
  {
  }

  lemma OrKeepsNonZero(m: bv8, b: bv8)
    ensures m != 0 ==> m | b != 0
  {
  }
}
