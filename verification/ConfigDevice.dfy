/**
 * The provisioned device over whole runs: the lists in memory and those in flash, with saves that fail, edits that
 * are not saved, and reboots. Which rooms are orphaned in either, after any run.
 */
module ConfigDevice {
  import opened Words
  import opened KeyedList
  import opened Config
  import opened ConfigEdits
  import opened ConfigRollback
  import opened ConfigCodec

  /** A save writes the blob and then the flag beside it; it fails before the blob is written, or after. */
  datatype Save = Saved | BlobNotWritten | BlobWrittenOnly

  datatype Event =
    | AddContact(c: Contact, save: Save)
    | AddChannel(ch: Channel, save: Save)
    | AddRoom(c: Contact, r: RoomExtra, save: Save)
    | DelContact(pubkey: Bytes32, save: Save)
    | DelChannel(secret: Bytes32, save: Save)
    | DelRoom(pubkey: Bytes32, save: Save)
    | ChangeSetting(save: Save)
    | Reboot

  /** A write outside the room array halts the device until it is rebooted; a refused blob ends the run. */
  datatype Mode = Running | Halted | Refused

  datatype Device = Device(ram: Lists, flash: Lists, mode: Mode)

  /** What the reader accepts at boot. */
  predicate Loads(l: Lists) {
    |l.rooms| <= |l.contacts| && AllRoomLengthsOk(l.rooms)
  }

  /** The blob of a configuration is read back with its lists exactly when they load. */
  lemma LoadsIff(img: Image, junk: seq<u8>)
    ensures Decode(Encode(img) + junk) == if Loads(LiveLists(img)) then Some(Blanked(img)) else None
    ensures LiveLists(Blanked(img)) == LiveLists(img)
  {
    RoundTrip(img, junk);
  }

  /** The lists that an edit asks to be saved, and which counts are lowered if that fails. */
  datatype Saving = Saving(lists: Lists, kind: Option<ConfigKind>)

  predicate Known(l: Lists, pubkey: Bytes32) {
    IndexOf(l.contacts, ContactKey, pubkey) < |l.contacts|
  }

  /** What is asked to be saved; nothing by an edit that is refused or finds nothing. */
  function ToSave(l: Lists, e: Event): Option<Saving> {
    match e
    case AddContact(c, _) =>
      var (l', outcome) := AfterUpsertContact(l, c);
      if outcome == ListFull then None else Some(Saving(l', Some(KindContact)))
    case AddChannel(ch, _) =>
      var (l', outcome) := AfterUpsertChannel(l, ch);
      if outcome == ListFull then None else Some(Saving(l', Some(KindChannel)))
    case AddRoom(c, r, _) =>
      var (l', outcome) := AfterUpsertRoom(l, c, r);
      if outcome == ListFull then None else Some(Saving(l', Some(KindRoom)))
    case DelContact(pubkey, _) =>
      if Known(l, pubkey) then Some(Saving(AfterDelContact(l, pubkey), Some(KindContact))) else None
    case DelChannel(secret, _) =>
      if IndexOf(l.channels, ChannelKey, secret) < |l.channels|
      then Some(Saving(AfterDelChannel(l, secret), Some(KindChannel))) else None
    case DelRoom(pubkey, _) =>
      var (l', found) := AfterRemoveRoom(l, pubkey);
      if found then Some(Saving(l', Some(KindRoom))) else None
    case ChangeSetting(_) => Some(Saving(l, None))
    case Reboot => None
  }

  function SaveOf(e: Event): Save {
    match e
    case AddContact(_, save) => save
    case AddChannel(_, save) => save
    case AddRoom(_, _, save) => save
    case DelContact(_, save) => save
    case DelChannel(_, save) => save
    case DelRoom(_, save) => save
    case ChangeSetting(save) => save
    case Reboot => Saved
  }

  function Undone(s: Saving): Lists {
    if s.kind.None? then s.lists else RolledBack(s.lists, s.kind.value)
  }

  predicate LeavesArray(l: Lists, e: Event) {
    e.AddRoom? && !RoomFits(l, e.c)
  }

  /** An edit of a running device. A room that is answered "not found" is taken from memory all the same, unsaved. */
  function Served(d: Device, e: Event): Device {
    if LeavesArray(d.ram, e) then d.(mode := Halted)
    else
      match ToSave(d.ram, e)
      case Some(s) =>
        (match SaveOf(e)
         case Saved => Device(s.lists, s.lists, Running)
         case BlobNotWritten => Device(Undone(s), d.flash, Running)
         case BlobWrittenOnly => Device(Undone(s), s.lists, Running))
      case None => if e.DelRoom? then d.(ram := AfterRemoveRoom(d.ram, e.pubkey).0) else d
  }

  function Step(d: Device, e: Event): Device {
    if e.Reboot? then
      if d.mode != Refused && Loads(d.flash) then Device(d.flash, d.flash, Running) else d.(mode := Refused)
    else if d.mode == Running then Served(d, e)
    else d
  }

  /** The device after a run that begins with the first boot of a configuration. */
  function DeviceAfter(first: Lists, es: seq<Event>): Device {
    if es == [] then Device(first, first, Running) else Step(DeviceAfter(first, es[..|es| - 1]), es[|es| - 1])
  }

  // ── One edit ───────────────────────────────────────────────────────────────

  /** The edits that are answered without touching anything: no room for a new entry, or nothing to delete. */
  ghost predicate Unserved(l: Lists, e: Event) {
    match e
    case AddContact(c, _) => !HasKey(l.contacts, ContactKey, c.pubkey) && |l.contacts| >= 16
    case AddRoom(c, _, _) => !HasKey(l.contacts, ContactKey, c.pubkey) && |l.contacts| >= 16
    case AddChannel(ch, _) => !HasKey(l.channels, ChannelKey, ch.secret) && |l.channels| >= 8
    case DelContact(pubkey, _) => !HasKey(l.contacts, ContactKey, pubkey)
    case DelRoom(pubkey, _) => !HasKey(l.contacts, ContactKey, pubkey) && !HasKey(l.rooms, RoomKey, pubkey)
    case DelChannel(secret, _) => !HasKey(l.channels, ChannelKey, secret)
    case _ => false
  }

  lemma UnservedChangesNothing(d: Device, e: Event)
    requires d.mode == Running && Unserved(d.ram, e)
    ensures Step(d, e) == d
  {
  }

  /** A room outside its array halts the device; a reboot starts from flash if that loads, and is the only way on. */
  lemma HaltedUntilReboot(d: Device, e: Event)
    ensures d.mode == Running && e.AddRoom? && !RoomFits(d.ram, e.c) ==> Step(d, e) == d.(mode := Halted)
    ensures d.mode != Running && !e.Reboot? ==> Step(d, e) == d
    ensures e.Reboot? ==>
              var l := d.flash;
              if d.mode != Refused && |l.rooms| <= |l.contacts|
                 && forall i :: 0 <= i < |l.rooms| ==> l.rooms[i].passwordLen <= 16 && l.rooms[i].outPathLen <= 64
              then Step(d, e) == Device(l, l, Running)
              else Step(d, e) == d.(mode := Refused)
  {
    assert AllRoomLengthsOk(d.flash.rooms) <==>
           forall i :: 0 <= i < |d.flash.rooms| ==>
             d.flash.rooms[i].passwordLen <= 16 && d.flash.rooms[i].outPathLen <= 64;
  }

  /** Any other edit, an orphan's deletion aside. */
  ghost predicate Counted(d: Device, e: Event) {
    && d.mode == Running && !e.Reboot? && !Unserved(d.ram, e) && (e.AddRoom? ==> RoomFits(d.ram, e.c))
    && (e.DelRoom? ==> HasKey(d.ram.contacts, ContactKey, e.pubkey))
  }

  /** Flash holds the edited lists unless the blob was not written; memory agrees with it after a save. */
  lemma ServedInFlash(d: Device, e: Event)
    requires Counted(d, e)
    ensures Step(d, e).mode == Running
    ensures e.save == Saved ==> Step(d, e).ram == Step(d, e).flash
    ensures Step(d, e).flash ==
            if e.save == BlobNotWritten then d.flash
            else
              match e
              case AddContact(c, _) => AfterUpsertContact(d.ram, c).0
              case AddChannel(ch, _) => AfterUpsertChannel(d.ram, ch).0
              case AddRoom(c, r, _) => AfterUpsertRoom(d.ram, c, r).0
              case DelContact(pubkey, _) => AfterDelContact(d.ram, pubkey)
              case DelChannel(secret, _) => AfterDelChannel(d.ram, secret)
              case DelRoom(pubkey, _) => AfterRemoveRoom(d.ram, pubkey).0
              case ChangeSetting(_) => d.ram
  {
  }

  /** After a failed save memory holds the edited lists without the last entry of each list that was edited. */
  lemma ServedInMemory(d: Device, e: Event)
    requires Counted(d, e) && e.save != Saved
    ensures Step(d, e).ram ==
            var l := Step(d, WithSave(e, Saved)).ram;
            match e
            case AddContact(_, _) => l.(contacts := WithoutLast(l.contacts))
            case DelContact(_, _) => l.(contacts := WithoutLast(l.contacts))
            case AddChannel(_, _) => l.(channels := WithoutLast(l.channels))
            case DelChannel(_, _) => l.(channels := WithoutLast(l.channels))
            case ChangeSetting(_) => l
            case _ => l.(contacts := WithoutLast(l.contacts), rooms := WithoutLast(l.rooms))
  {
  }

  function WithSave(e: Event, save: Save): Event {
    if e.Reboot? then e else e.(save := save)
  }

  // ── Each list on its own ───────────────────────────────────────────────────

  ghost predicate InBounds(l: Lists) {
    Tidy(l) && |l.rooms| <= MAX_CONTACTS
  }

  lemma RolledBackInBounds(l: Lists, kind: ConfigKind)
    requires InBounds(l)
    ensures InBounds(RolledBack(l, kind))
  {
  }

  lemma SavedInBounds(l: Lists, e: Event)
    requires InBounds(l) && !LeavesArray(l, e) && ToSave(l, e).Some?
    ensures InBounds(ToSave(l, e).value.lists)
  {
    match e
    case AddContact(c, _) => ApplyKeepsTidy(l, OpUpsertContact(c));
    case AddChannel(ch, _) => ApplyKeepsTidy(l, OpUpsertChannel(ch));
    case AddRoom(c, r, _) => RoomInBounds(l, c, r);
    case DelContact(pubkey, _) => RemoveDistinct(l.contacts, ContactKey, pubkey);
    case DelChannel(secret, _) => RemoveDistinct(l.channels, ChannelKey, secret);
    case DelRoom(pubkey, _) => ApplyKeepsTidy(l, OpRemoveRoom(pubkey));
    case ChangeSetting(_) =>
  }

  lemma RoomInBounds(l: Lists, c: Contact, r: RoomExtra)
    requires InBounds(l) && RoomFits(l, c)
    ensures InBounds(AfterUpsertRoom(l, c, r).0)
  {
    RoomFitsIff(l, c);
    if AfterUpsertRoom(l, c, r).1 != ListFull {
      UpsertRoomKeys(l, c, r);
      RefusedIsUnknown(l, c);
    }
  }

  lemma UndoneInBounds(s: Saving)
    requires InBounds(s.lists)
    ensures InBounds(Undone(s))
  {
    if s.kind.Some? {
      RolledBackInBounds(s.lists, s.kind.value);
    }
  }

  lemma RemovedInBounds(l: Lists, pubkey: Bytes32)
    requires InBounds(l)
    ensures InBounds(AfterRemoveRoom(l, pubkey).0)
  {
    ApplyKeepsTidy(l, OpRemoveRoom(pubkey));
  }

  lemma ServedInBounds(d: Device, e: Event)
    requires InBounds(d.ram) && InBounds(d.flash) && !e.Reboot? && !LeavesArray(d.ram, e)
    ensures InBounds(Served(d, e).ram) && InBounds(Served(d, e).flash)
  {
    var saving := ToSave(d.ram, e);
    if saving.Some? {
      SavedInBounds(d.ram, e);
      UndoneInBounds(saving.value);
      assert Served(d, e).ram == saving.value.lists || Served(d, e).ram == Undone(saving.value);
      assert Served(d, e).flash == saving.value.lists || Served(d, e).flash == d.flash;
    } else if e.DelRoom? {
      RemovedInBounds(d.ram, e.pubkey);
    } else {
      assert Served(d, e) == d;
    }
  }

  lemma StepInBounds(d: Device, e: Event)
    requires InBounds(d.ram) && InBounds(d.flash)
    ensures InBounds(Step(d, e).ram) && InBounds(Step(d, e).flash)
  {
    if !e.Reboot? && !LeavesArray(d.ram, e) {
      ServedInBounds(d, e);
    }
  }

  /** In memory and in flash each list stays tidy on its own and within its array, whatever fails. */
  lemma {:induction false} DeviceStaysTidy(first: Lists, es: seq<Event>)
    requires InBounds(first)
    ensures InBounds(DeviceAfter(first, es).ram) && InBounds(DeviceAfter(first, es).flash)
  {
    if es != [] {
      DeviceStaysTidy(first, es[..|es| - 1]);
      StepInBounds(DeviceAfter(first, es[..|es| - 1]), es[|es| - 1]);
    }
  }

  // ── What each event does to the orphans, told from the device before it ────

  predicate Fails(e: Event) {
    SaveOf(e) != Saved
  }

  /** Adding a contact that is known and failing to save it costs the last contact, here `k`. */
  ghost predicate CostsContact(l: Lists, c: Contact, k: Bytes32) {
    HasKey(l.contacts, ContactKey, c.pubkey) && LastKey(l.contacts, ContactKey) == Some(k)
  }

  /** The event orphans the room `k` in memory. */
  ghost predicate RamOrphans(d: Device, e: Event, k: Bytes32) {
    var l := d.ram;
    match e
    case Reboot => d.mode != Refused && Loads(d.flash) && Orphaned(d.flash, k)
    case AddContact(c, _) =>
      && d.mode == Running && Fails(e) && CostsContact(l, c, k) && HasKey(l.rooms, RoomKey, k)
    case AddRoom(c, r, _) =>
      && d.mode == Running && !LeavesArray(l, e) && Fails(e) && CostsContact(l, c, k) && HasKey(l.rooms, RoomKey, k)
      && !(HasKey(l.rooms, RoomKey, c.pubkey) && LastKey(l.rooms, RoomKey) == Some(k))
    case DelContact(pubkey, _) =>
      && d.mode == Running && HasKey(l.contacts, ContactKey, pubkey) && HasKey(l.rooms, RoomKey, k)
      && (k == pubkey || (Fails(e) && LastOtherKey(l.contacts, ContactKey, pubkey) == Some(k)))
    case DelRoom(pubkey, _) =>
      && d.mode == Running && Fails(e) && HasKey(l.contacts, ContactKey, pubkey)
      && LastOtherKey(l.contacts, ContactKey, pubkey) == Some(k) && Remains(l.rooms, RoomKey, pubkey, k)
    case _ => false
  }

  /** The event makes the orphan `k` a contact again, or takes the room from memory. */
  ghost predicate RamSettles(d: Device, e: Event, k: Bytes32) {
    var l := d.ram;
    match e
    case Reboot => d.mode != Refused && Loads(d.flash) && !Orphaned(d.flash, k)
    case AddContact(c, _) =>
      d.mode == Running && AfterUpsertContact(l, c).1 != ListFull && !Fails(e) && c.pubkey == k
    case AddRoom(c, r, _) =>
      && d.mode == Running && !LeavesArray(l, e) && AfterUpsertRoom(l, c, r).1 != ListFull
      && if Fails(e) then HasKey(l.rooms, RoomKey, c.pubkey) && LastKey(l.rooms, RoomKey) == Some(k)
         else c.pubkey == k
    case DelRoom(pubkey, _) =>
      && d.mode == Running
      && if HasKey(l.contacts, ContactKey, pubkey)
         then Fails(e) && LastOtherKey(l.rooms, RoomKey, pubkey) == Some(k)
         else pubkey == k
    case _ => false
  }

  /** The event writes the blob. */
  predicate Writes(d: Device, e: Event) {
    && d.mode == Running && !LeavesArray(d.ram, e) && ToSave(d.ram, e).Some?
    && SaveOf(e) != BlobNotWritten
  }

  /** In the lists that the event asks to be saved, `k` is an orphan. */
  ghost predicate OrphanedAsSaved(l: Lists, e: Event, k: Bytes32) {
    match e
    case AddContact(c, _) => Orphaned(l, k) && c.pubkey != k
    case AddRoom(c, _, _) => Orphaned(l, k) && c.pubkey != k
    case DelContact(pubkey, _) => Orphaned(l, k) || (pubkey == k && HasKey(l.rooms, RoomKey, k))
    case _ => Orphaned(l, k)
  }

  ghost predicate FlashOrphans(d: Device, e: Event, k: Bytes32) {
    Writes(d, e) && OrphanedAsSaved(d.ram, e, k)
  }

  ghost predicate FlashSettles(d: Device, e: Event, k: Bytes32) {
    Writes(d, e) && !OrphanedAsSaved(d.ram, e, k)
  }

  lemma KnownIff(l: Lists, pubkey: Bytes32)
    ensures Known(l, pubkey) <==> HasKey(l.contacts, ContactKey, pubkey)
  {
  }

  lemma SavedOrphans(l: Lists, e: Event, k: Bytes32)
    requires Tidy(l) && ToSave(l, e).Some?
    ensures Orphaned(ToSave(l, e).value.lists, k) <==> OrphanedAsSaved(l, e, k)
  {
    match e
    case AddContact(c, _) => UpsertKeys(l.contacts, ContactKey, c);
    case AddRoom(c, r, _) => UpsertRoomKeys(l, c, r);
    case DelContact(pubkey, _) => RemoveDistinct(l.contacts, ContactKey, pubkey);
    case DelRoom(pubkey, _) =>
      KnownIff(l, pubkey);
      RemoveDistinct(l.contacts, ContactKey, pubkey);
      RemoveDistinct(l.rooms, RoomKey, pubkey);
    case _ =>
  }

  lemma UndoneContact(l: Lists, c: Contact, k: Bytes32)
    requires Tidy(l) && AfterUpsertContact(l, c).1 != ListFull
    ensures Orphaned(RolledBack(AfterUpsertContact(l, c).0, KindContact), k) <==>
            && HasKey(l.rooms, RoomKey, k)
            && (Orphaned(l, k) || CostsContact(l, c, k))
  {
    KeysAfterUpsertAndLoss(l.contacts, ContactKey, c, k);
    WithoutLastKeys(l.contacts, ContactKey, k);
  }

  lemma UndoneRoom(l: Lists, c: Contact, r: RoomExtra, k: Bytes32)
    requires Tidy(l) && AfterUpsertRoom(l, c, r).1 != ListFull
    ensures Orphaned(RolledBack(AfterUpsertRoom(l, c, r).0, KindRoom), k) <==>
            && HasKey(l.rooms, RoomKey, k)
            && !(HasKey(l.rooms, RoomKey, c.pubkey) && LastKey(l.rooms, RoomKey) == Some(k))
            && (Orphaned(l, k) || CostsContact(l, c, k))
  {
    var contact, extra := c.(role := ROLE_ROOM), r.(pubkey := c.pubkey);
    KeysAfterUpsertAndLoss(l.contacts, ContactKey, contact, k);
    KeysAfterUpsertAndLoss(l.rooms, RoomKey, extra, k);
    WithoutLastKeys(l.contacts, ContactKey, k);
    WithoutLastKeys(l.rooms, RoomKey, k);
  }

  lemma UndoneDelContact(l: Lists, pubkey: Bytes32, k: Bytes32)
    requires Tidy(l)
    ensures Orphaned(RolledBack(AfterDelContact(l, pubkey), KindContact), k) <==>
            HasKey(l.rooms, RoomKey, k) && !Remains(l.contacts, ContactKey, pubkey, k)
  {
    KeysAfterRemoveAndLoss(l.contacts, ContactKey, pubkey, k);
  }

  lemma UndoneDelRoom(l: Lists, pubkey: Bytes32, k: Bytes32)
    requires Tidy(l)
    ensures Orphaned(RolledBack(AfterRemoveRoom(l, pubkey).0, KindRoom), k) <==>
            Remains(l.rooms, RoomKey, pubkey, k) && !Remains(l.contacts, ContactKey, pubkey, k)
  {
    KeysAfterRemoveAndLoss(l.contacts, ContactKey, pubkey, k);
    KeysAfterRemoveAndLoss(l.rooms, RoomKey, pubkey, k);
  }

  lemma FailedStep(d: Device, e: Event, k: Bytes32)
    requires Tidy(d.ram) && d.mode == Running && !LeavesArray(d.ram, e) && Fails(e) && ToSave(d.ram, e).Some?
    ensures Orphaned(Undone(ToSave(d.ram, e).value), k) <==>
            RamOrphans(d, e, k) || (Orphaned(d.ram, k) && !RamSettles(d, e, k))
  {
    var l := d.ram;
    match e
    case AddContact(c, _) => UndoneContact(l, c, k);
    case AddChannel(_, _) =>
    case AddRoom(c, r, _) => UndoneRoom(l, c, r, k);
    case DelContact(pubkey, _) =>
      KnownIff(l, pubkey);
      UndoneDelContact(l, pubkey, k);
    case DelChannel(_, _) =>
    case DelRoom(pubkey, _) =>
      KnownIff(l, pubkey);
      UndoneDelRoom(l, pubkey, k);
    case ChangeSetting(_) =>
  }

  lemma UnsavedStep(d: Device, e: Event, k: Bytes32)
    requires Tidy(d.ram) && d.mode == Running && !e.Reboot? && !LeavesArray(d.ram, e) && ToSave(d.ram, e).None?
    ensures Orphaned(Step(d, e).ram, k) <==> RamOrphans(d, e, k) || (Orphaned(d.ram, k) && !RamSettles(d, e, k))
  {
    var l := d.ram;
    match e
    case DelRoom(pubkey, _) =>
      KnownIff(l, pubkey);
      RemoveDistinct(l.contacts, ContactKey, pubkey);
      RemoveDistinct(l.rooms, RoomKey, pubkey);
    case DelContact(pubkey, _) => KnownIff(l, pubkey);
    case AddContact(c, _) => RefusedIsUnknown(l, c);
    case AddRoom(c, _, _) => RefusedIsUnknown(l, c);
    case _ =>
  }

  lemma RefusedIsUnknown(l: Lists, c: Contact)
    ensures AfterUpsertContact(l, c).1 == ListFull ==> !HasKey(l.contacts, ContactKey, c.pubkey)
    ensures AfterUpsertContact(l, c.(role := ROLE_ROOM)).1 == ListFull ==> !HasKey(l.contacts, ContactKey, c.pubkey)
  {
    KnownIff(l, c.pubkey);
  }

  lemma RamStep(d: Device, e: Event, k: Bytes32)
    requires Tidy(d.ram)
    ensures Orphaned(Step(d, e).ram, k) <==> RamOrphans(d, e, k) || (Orphaned(d.ram, k) && !RamSettles(d, e, k))
  {
    if d.mode == Running && !e.Reboot? && !LeavesArray(d.ram, e) {
      if ToSave(d.ram, e).None? {
        UnsavedStep(d, e, k);
      } else if Fails(e) {
        FailedStep(d, e, k);
      } else {
        SavedStep(d, e, k);
      }
    }
  }

  lemma SavedStep(d: Device, e: Event, k: Bytes32)
    requires Tidy(d.ram) && d.mode == Running && !e.Reboot? && !LeavesArray(d.ram, e) && !Fails(e)
    requires ToSave(d.ram, e).Some?
    ensures Orphaned(ToSave(d.ram, e).value.lists, k) <==>
            RamOrphans(d, e, k) || (Orphaned(d.ram, k) && !RamSettles(d, e, k))
  {
    SavedOrphans(d.ram, e, k);
    if e.DelRoom? || e.DelContact? {
      KnownIff(d.ram, e.pubkey);
    }
  }

  lemma FlashStep(d: Device, e: Event, k: Bytes32)
    requires Tidy(d.ram)
    ensures Orphaned(Step(d, e).flash, k) <==> FlashOrphans(d, e, k) || (Orphaned(d.flash, k) && !FlashSettles(d, e, k))
  {
    if Writes(d, e) {
      SavedOrphans(d.ram, e, k);
    }
  }

  // ── Whole runs ─────────────────────────────────────────────────────────────

  /** Something was begun, and not ended by anything later. */
  ghost predicate StillOpen(begun: seq<bool>, ended: seq<bool>)
    requires |begun| == |ended|
  {
    exists i :: 0 <= i < |begun| && begun[i] && forall j :: i < j < |ended| ==> !ended[j]
  }

  lemma StillOpenNext(begun: seq<bool>, ended: seq<bool>, b: bool, e: bool)
    requires |begun| == |ended|
    ensures StillOpen(begun + [b], ended + [e]) <==> b || (StillOpen(begun, ended) && !e)
  {
    var begun', ended' := begun + [b], ended + [e];
    if b {
      assert begun'[|begun|];
    }
    if StillOpen(begun, ended) && !e {
      var i :| 0 <= i < |begun| && begun[i] && forall j :: i < j < |ended| ==> !ended[j];
      assert begun'[i] && forall j :: i < j < |ended'| ==> !ended'[j];
    }
    if StillOpen(begun', ended') && !b {
      var i :| 0 <= i < |begun'| && begun'[i] && forall j :: i < j < |ended'| ==> !ended'[j];
      assert begun[i] && !ended'[|ended|];
      assert forall j :: i < j < |ended| ==> ended[j] == ended'[j];
    }
  }

  /** For each event of the run, whether `what` is true of the device it found, the event and `k`. */
  ghost function Marks(first: Lists, es: seq<Event>, k: Bytes32, what: (Device, Event, Bytes32) -> bool):
    (marks: seq<bool>)
    ensures |marks| == |es|
  {
    if es == [] then []
    else Marks(first, es[..|es| - 1], k, what) + [what(DeviceAfter(first, es[..|es| - 1]), es[|es| - 1], k)]
  }

  /**
   * After any run from any first configuration, saves failing, unsaved edits and reboots included: the rooms orphaned
   * in memory, and those orphaned in flash, are exactly those that were so at first or were orphaned there by an
   * event, and have not been settled there by any event since.
   */
  lemma {:induction false} OrphanedIff(first: Lists, es: seq<Event>, k: Bytes32)
    requires InBounds(first)
    ensures Orphaned(DeviceAfter(first, es).ram, k) <==>
            StillOpen([Orphaned(first, k)] + Marks(first, es, k, RamOrphans),
                      [false] + Marks(first, es, k, RamSettles))
    ensures Orphaned(DeviceAfter(first, es).flash, k) <==>
            StillOpen([Orphaned(first, k)] + Marks(first, es, k, FlashOrphans),
                      [false] + Marks(first, es, k, FlashSettles))
  {
    if es == [] {
      OpenAtFirst(Orphaned(first, k));
    } else {
      var before, e := es[..|es| - 1], es[|es| - 1];
      var d := DeviceAfter(first, before);
      OrphanedIff(first, before, k);
      DeviceStaysTidy(first, before);
      RamStep(d, e, k);
      FlashStep(d, e, k);
      OpenStep(Orphaned(first, k), Marks(first, before, k, RamOrphans), Marks(first, before, k, RamSettles),
               RamOrphans(d, e, k), RamSettles(d, e, k));
      OpenStep(Orphaned(first, k), Marks(first, before, k, FlashOrphans), Marks(first, before, k, FlashSettles),
               FlashOrphans(d, e, k), FlashSettles(d, e, k));
    }
  }

  lemma OpenAtFirst(at0: bool)
    ensures StillOpen([at0] + [], [false] + []) <==> at0
  {
    assert ([at0] + [])[0] == at0;
  }

  lemma OpenStep(at0: bool, begun: seq<bool>, ended: seq<bool>, b: bool, e: bool)
    requires |begun| == |ended|
    ensures StillOpen([at0] + (begun + [b]), [false] + (ended + [e])) <==>
            b || (StillOpen([at0] + begun, [false] + ended) && !e)
  {
    StillOpenNext([at0] + begun, [false] + ended, b, e);
    assert [at0] + begun + [b] == [at0] + (begun + [b]);
    assert [false] + ended + [e] == [false] + (ended + [e]);
  }

  // ── Two ways in which memory and flash part ────────────────────────────────

  /** An orphan that is deleted as a room leaves the memory only: the answer is "not found", and nothing is saved. */
  lemma OrphanRemovalNotSaved(d: Device, pubkey: Bytes32, save: Save)
    requires Tidy(d.ram) && d.mode == Running && Orphaned(d.ram, pubkey)
    ensures var d' := Step(d, DelRoom(pubkey, save));
            d'.flash == d.flash && !HasKey(d'.ram.rooms, RoomKey, pubkey)
  {
    KnownIff(d.ram, pubkey);
    RemoveDistinct(d.ram.rooms, RoomKey, pubkey);
  }

  function Empty(): Lists {
    Lists([], [], [])
  }

  /** The two additions that the runs below begin with. */
  function Added(a: Contact, c: Contact, r: RoomExtra): seq<Event> {
    [AddContact(a, Saved), AddRoom(c, r, Saved)]
  }

  lemma AfterAdded(a: Contact, c: Contact, r: RoomExtra)
    requires a.pubkey != c.pubkey
    ensures var l := RunOf([OpUpsertContact(a), OpUpsertRoom(c, r)]);
            DeviceAfter(Empty(), Added(a, c, r)) == Device(l, l, Running)
  {
    var es := Added(a, c, r);
    assert es[..1] == [AddContact(a, Saved)] && es[..1][..0] == [];
    RunOfFirst(OpUpsertContact(a));
    var one := RunOf([OpUpsertContact(a)]);
    assert DeviceAfter(Empty(), es[..1]) == Device(one, one, Running);
    ReachableKeepsInv([OpUpsertContact(a)]);
    RoomAlwaysFits(one, c);
    assert [OpUpsertContact(a), OpUpsertRoom(c, r)][..1] == [OpUpsertContact(a)];
    ContactThenRoom(a, c, r);
  }

  lemma OneMoreEvent(first: Lists, es: seq<Event>, e: Event)
    ensures DeviceAfter(first, es + [e]) == Step(DeviceAfter(first, es), e)
  {
    assert (es + [e])[..|es|] == es;
  }

  /** Without any deletion: a contact is added again, its save fails, and the next save writes the orphan to flash. */
  lemma FailedSaveOrphansInFlash(a: Contact, c: Contact, r: RoomExtra)
    requires a.pubkey != c.pubkey
    ensures var l := Lists([a], [], [r.(pubkey := c.pubkey)]);
            && DeviceAfter(Empty(), Added(a, c, r) + [AddContact(a, BlobNotWritten)] + [ChangeSetting(Saved)])
               == Device(l, l, Running)
            && Orphaned(l, c.pubkey)
  {
    AfterAdded(a, c, r);
    OneMoreEvent(Empty(), Added(a, c, r), AddContact(a, BlobNotWritten));
    OneMoreEvent(Empty(), Added(a, c, r) + [AddContact(a, BlobNotWritten)], ChangeSetting(Saved));
    var l := RunOf([OpUpsertContact(a), OpUpsertRoom(c, r)]);
    ReAddRollbackOrphansRoom(a, c, r);
    ContactThenRoom(a, c, r);
    IndexOfFirst(l.contacts, ContactKey, a.pubkey, 0);
  }

  lemma AfterOrphaning(a: Contact, c: Contact, r: RoomExtra)
    requires a.pubkey != c.pubkey
    ensures var l := Lists([a], [], [r.(pubkey := c.pubkey)]);
            && DeviceAfter(Empty(), Added(a, c, r) + [DelContact(c.pubkey, Saved)]) == Device(l, l, Running)
            && Orphaned(l, c.pubkey)
  {
    AfterAdded(a, c, r);
    OneMoreEvent(Empty(), Added(a, c, r), DelContact(c.pubkey, Saved));
    var both := RunOf([OpUpsertContact(a), OpUpsertRoom(c, r)]);
    ContactThenRoom(a, c, r);
    assert ContactKey(both.contacts[1]) == c.pubkey;
    KnownIff(both, c.pubkey);
    OrphanLeft(a, c, r);
  }

  /** An orphaned room is deleted, and is back after a reboot. */
  lemma DeletedOrphanReturns(a: Contact, c: Contact, r: RoomExtra, save: Save)
    requires a.pubkey != c.pubkey && RoomLengthsOk(r)
    ensures var l := Lists([a], [], [r.(pubkey := c.pubkey)]);
            var es := Added(a, c, r) + [DelContact(c.pubkey, Saved)];
            && DeviceAfter(Empty(), es + [DelRoom(c.pubkey, save)]) == Device(Lists([a], [], []), l, Running)
            && DeviceAfter(Empty(), es + [DelRoom(c.pubkey, save)] + [Reboot]) == Device(l, l, Running)
            && Orphaned(l, c.pubkey)
  {
    var es := Added(a, c, r) + [DelContact(c.pubkey, Saved)];
    AfterOrphaning(a, c, r);
    OneMoreEvent(Empty(), es, DelRoom(c.pubkey, save));
    OneMoreEvent(Empty(), es + [DelRoom(c.pubkey, save)], Reboot);
    OrphanDeletedThenReboot(a, c, r, save);
  }

  lemma OrphanDeletedThenReboot(a: Contact, c: Contact, r: RoomExtra, save: Save)
    requires a.pubkey != c.pubkey && RoomLengthsOk(r)
    ensures var l := Lists([a], [], [r.(pubkey := c.pubkey)]);
            var removed := Device(Lists([a], [], []), l, Running);
            && Step(Device(l, l, Running), DelRoom(c.pubkey, save)) == removed
            && Step(removed, Reboot) == Device(l, l, Running)
  {
    OrphanAnsweredNotFound(a, c, r);
  }
}
