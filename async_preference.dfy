/** A persisted preference: a value kept in memory, read from a key-value
    store once on first use, and written back by a separate writer through
    an even/odd version counter.

    A value of the preference's type T is represented by the bytes the
    serializer moves: the object representation for a trivially copyable T,
    the contents of `data()` for a buffer-like T.  The two threads are
    modelled as step calls in sequence; where the writer's snapshot can be
    interleaved with updates, the steps are separate and the interleaving is
    stated over a list of update events. */
module AsyncPreference {
  import opened Bytes

  /** The storage behind `IAsyncPreferenceKV`: a byte string per (namespace, key). */
  class KVStore {
    var entries: map<(string, string), seq<byte>>

    constructor ()
      ensures entries == map[]
    {
      entries := map[];
    }

    /** The bytes under (ns, key); an absent key reads as no bytes. */
    function Stored(ns: string, key: string): seq<byte>
      reads this
    {
      if (ns, key) in entries then entries[(ns, key)] else []
    }

    /** `length`: 0 for an absent key. */
    function Length(ns: string, key: string): (n: nat)
      reads this
      ensures n == 0 <==> Stored(ns, key) == []
    {
      |Stored(ns, key)|
    }

    /** `write`: stores the bytes under (ns, key), replacing what was there. */
    method Write(ns: string, key: string, data: seq<byte>)
      modifies this
      ensures entries == old(entries)[(ns, key) := data]
    {
      entries := entries[(ns, key) := data];
    }

    /** `read`: fills the buffer with the first `buffer.Length` stored bytes. */
    method Read(ns: string, key: string, buffer: array<byte>)
      requires buffer.Length <= Length(ns, key)
      modifies buffer
      ensures buffer[..] == Stored(ns, key)[..buffer.Length]
    {
      var data := Stored(ns, key);
      forall i | 0 <= i < buffer.Length {
        buffer[i] := data[i];
      }
    }
  }

  /** How a value is moved to and from the store: as `sizeof(T)` raw bytes,
      or as the elements of a buffer, `elemSize` bytes each. */
  datatype Serializer = Trivial(size: nat) | Buffer(elemSize: nat) {
    predicate Valid() {
      match this
      case Trivial(n) => n > 0
      case Buffer(e) => e > 0
    }
  }

  /** The byte images a value of the type can have. */
  predicate Fits(ser: Serializer, v: seq<byte>)
    requires ser.Valid()
  {
    match ser
    case Trivial(n) => |v| == n
    case Buffer(e) => |v| % e == 0
  }

  /** `T()`: zero bytes for a trivially copyable type, an empty buffer otherwise. */
  function Default(ser: Serializer): (v: seq<byte>)
    requires ser.Valid()
    ensures Fits(ser, v)
  {
    match ser
    case Trivial(n) => seq(n, _ => 0)
    case Buffer(_) => []
  }

  /** What `load` leaves in the value: the stored bytes when there are some
      and their length suits the type, the current value otherwise. */
  function Loaded(ser: Serializer, stored: seq<byte>, current: seq<byte>): (v: seq<byte>)
    requires ser.Valid()
    ensures Fits(ser, current) ==> Fits(ser, v)
    ensures v == current || v == stored
  {
    if |stored| == 0 then current
    else match ser
      case Trivial(n) => if |stored| != n then current else stored
      case Buffer(e) => if |stored| % e != 0 then current else stored
  }

  /** `save`: writes the value's bytes under (ns, key). */
  method Save(kv: KVStore, ser: Serializer, ns: string, key: string, v: seq<byte>)
    requires ser.Valid() && Fits(ser, v)
    modifies kv
    ensures kv.entries == old(kv.entries)[(ns, key) := v]
  {
    match ser
    case Trivial(n) =>
      assert v[..n] == v;
      kv.Write(ns, key, v[..n]);
    case Buffer(e) =>
      assert |v| / e * e == |v|;
      assert v[..|v| / e * e] == v;
      kv.Write(ns, key, v[..|v| / e * e]);
  }

  /** `load`: nothing happens for an absent key or a length that does not
      suit the type; otherwise the value is resized to fit and read in. */
  method Load(kv: KVStore, ser: Serializer, ns: string, key: string, current: seq<byte>)
    returns (v: seq<byte>)
    requires ser.Valid()
    ensures v == Loaded(ser, kv.Stored(ns, key), current)
  {
    var size := kv.Length(ns, key);
    if size == 0 {
      return current;
    }
    match ser
    case Trivial(n) =>
      if size != n {
        return current;
      }
      var buffer := new byte[n];
      kv.Read(ns, key, buffer);
      v := buffer[..];
    case Buffer(e) =>
      if size % e != 0 {
        return current;
      }
      // resize to size / e elements, then read `size` bytes into them
      var buffer := new byte[size / e * e];
      kv.Read(ns, key, buffer);
      v := buffer[..];
  }

  /** Loading what was saved gives the value back, unless the value has no
      bytes at all: an empty buffer is stored with length 0, which reads as
      an absent key, and the load keeps the value it had. */
  lemma SaveLoadRoundTrip(ser: Serializer, v: seq<byte>, current: seq<byte>)
    requires ser.Valid() && Fits(ser, v)
    ensures v != [] ==> Loaded(ser, v, current) == v
    ensures v == [] ==> Loaded(ser, v, current) == current
    ensures ser.Trivial? ==> Loaded(ser, v, current) == v
  {
  }

  /** A stored length that does not suit the type is ignored. */
  lemma BrokenLengthIgnored(ser: Serializer, stored: seq<byte>, current: seq<byte>)
    requires ser.Valid() && !Fits(ser, stored)
    ensures Loaded(ser, stored, current) == current
  {
  }

  /** The fields of a preference, as a value. */
  datatype PrefState = PrefState(
    value: seq<byte>,
    snapshot: seq<byte>,
    version: uint32,
    lastAcceptedVersion: uint32,
    hasSnapshot: bool,
    isPreloaded: bool)

  function Bump(version: uint32): uint32 {
    (version + 1) % UINT32_MODULUS
  }

  /** `preload`: at most one load, and none for an absent key. */
  function PreloadState(ser: Serializer, s: PrefState, stored: seq<byte>): PrefState
    requires ser.Valid()
  {
    if s.isPreloaded || |stored| == 0 then s
    else s.(value := Loaded(ser, stored, s.value), isPreloaded := true)
  }

  /** `valueUpdateBegin`: disables a later load and makes the version odd. */
  function UpdateBegin(s: PrefState): PrefState {
    s.(isPreloaded := true, version := Bump(s.version))
  }

  /** `valueUpdateEnd`: makes the version even again. */
  function UpdateEnd(s: PrefState): PrefState {
    s.(version := Bump(s.version))
  }

  /** `set`. */
  function SetValue(s: PrefState, v: seq<byte>): PrefState {
    UpdateEnd(UpdateBegin(s).(value := v))
  }

  /** The condition under which the writer copies and may accept. */
  predicate IsNewStable(s: PrefState, versionBefore: uint32) {
    s.lastAcceptedVersion != versionBefore && versionBefore % 2 == 0
  }

  /** The copy step of `makeSnapshot`, after the version was loaded. */
  function SnapshotCopy(s: PrefState, versionBefore: uint32): PrefState {
    if IsNewStable(s, versionBefore) then s.(snapshot := s.value) else s
  }

  /** The check step of `makeSnapshot`: the copy is accepted only if the
      version has not moved since it was loaded. */
  function SnapshotCheck(s: PrefState, versionBefore: uint32): PrefState {
    if IsNewStable(s, versionBefore) && versionBefore == s.version then
      s.(lastAcceptedVersion := versionBefore, hasSnapshot := true)
    else s
  }

  /** `makeSnapshot` with no update in between its steps. */
  function SnapshotState(s: PrefState): PrefState {
    SnapshotCheck(SnapshotCopy(s, s.version), s.version)
  }

  /** `saveSnapshot`'s effect on the fields. */
  function SavedState(s: PrefState): PrefState {
    s.(hasSnapshot := false)
  }

  /** `saveSnapshot`'s effect on the store. */
  function Persist(s: PrefState, entries: map<(string, string), seq<byte>>, ns: string, key: string)
    : map<(string, string), seq<byte>>
  {
    if s.hasSnapshot then entries[(ns, key) := s.snapshot] else entries
  }

  /** What `tick` leaves under a preference's key: the snapshot it accepted
      and saved, or else what was stored before. */
  function TickStored(s: PrefState, stored: seq<byte>): seq<byte> {
    var t := SnapshotState(s);
    if t.hasSnapshot then t.snapshot else stored
  }

  /** A tick stores the current value exactly when its version is even and
      not yet accepted; otherwise the key keeps its bytes, or receives a
      snapshot accepted earlier and not yet saved. */
  lemma TickStoresNewStableValue(s: PrefState, stored: seq<byte>)
    ensures IsNewStable(s, s.version) ==> TickStored(s, stored) == s.value
    ensures !IsNewStable(s, s.version) && !s.hasSnapshot ==> TickStored(s, stored) == stored
    ensures !IsNewStable(s, s.version) && s.hasSnapshot ==> TickStored(s, stored) == s.snapshot
  {
  }

  /** `set` stores the value and advances the version by exactly two, so a
      version that was even stays even. */
  lemma SetAdvancesVersionByTwo(s: PrefState, v: seq<byte>)
    ensures SetValue(s, v).value == v
    ensures SetValue(s, v).version == (s.version + 2) % UINT32_MODULUS
    ensures SetValue(s, v).version % 2 == s.version % 2
    ensures SetValue(s, v).isPreloaded
    ensures SetValue(s, v).snapshot == s.snapshot && SetValue(s, v).hasSnapshot == s.hasSnapshot
  {
  }

  /** Without interference, `makeSnapshot` accepts exactly when the version
      is even and not the one already accepted; it then copies the value. */
  lemma MakeSnapshotAccepts(s: PrefState)
    ensures var t := SnapshotState(s);
      && (t.lastAcceptedVersion != s.lastAcceptedVersion || (t.hasSnapshot && !s.hasSnapshot)
          ==> IsNewStable(s, s.version))
      && (IsNewStable(s, s.version) ==>
            t == s.(snapshot := s.value, lastAcceptedVersion := s.version, hasSnapshot := true))
      && (!IsNewStable(s, s.version) ==> t == s)
  {
  }

  /** After a writer tick, the next tick with no update in between stores nothing. */
  lemma IdleTickStoresNothing(s: PrefState, entries: map<(string, string), seq<byte>>, ns: string, key: string)
    ensures var t := SavedState(SnapshotState(s));
      && SnapshotState(t) == t
      && Persist(SnapshotState(t), entries, ns, key) == entries
  {
  }

  /** A completed `set` is stored by the next writer tick, unless its version
      is the one accepted last, which takes 2^32 updates in between. */
  lemma SetThenTickStores(s: PrefState, v: seq<byte>, entries: map<(string, string), seq<byte>>,
                          ns: string, key: string)
    requires s.version % 2 == 0
    requires s.lastAcceptedVersion != (s.version + 2) % UINT32_MODULUS
    ensures var t := SnapshotState(SetValue(s, v));
      && t.hasSnapshot && t.snapshot == v
      && Persist(t, entries, ns, key) == entries[(ns, key) := v]
  {
  }

  /** `preload` loads at most once: once a load took place, later calls
      change nothing; an absent key leaves the value and does not count. */
  lemma PreloadOnce(ser: Serializer, s: PrefState, stored: seq<byte>, later: seq<byte>)
    requires ser.Valid()
    ensures PreloadState(ser, PreloadState(ser, s, stored), later)
         == (if stored == [] then PreloadState(ser, s, later) else PreloadState(ser, s, stored))
    ensures stored == [] ==> PreloadState(ser, s, stored) == s
  {
  }

  /** An update begun before the first `get` disables loading for good. */
  lemma UpdateBeforeGetDisablesLoad(ser: Serializer, s: PrefState, stored: seq<byte>)
    requires ser.Valid()
    ensures PreloadState(ser, UpdateBegin(s), stored) == UpdateBegin(s)
    ensures PreloadState(ser, SetValue(s, stored), stored) == SetValue(s, stored)
  {
  }

  /** What the other thread may do between the writer's steps: open an
      update, write the value inside it, close it. */
  datatype UserEvent = Begin | Write(v: seq<byte>) | End

  function Apply(s: PrefState, e: UserEvent): PrefState {
    match e
    case Begin => UpdateBegin(s)
    case Write(v) => s.(value := v)
    case End => UpdateEnd(s)
  }

  function Run(s: PrefState, es: seq<UserEvent>): PrefState
    decreases |es|
  {
    if es == [] then s else Run(Apply(s, es[0]), es[1..])
  }

  /** The value is written only inside an update, when the version is odd. */
  predicate Disciplined(s: PrefState, es: seq<UserEvent>)
    decreases |es|
  {
    es == [] || ((es[0].Write? ==> s.version % 2 == 1) && Disciplined(Apply(s, es[0]), es[1..]))
  }

  /** The number of version increments among the events. */
  function Bumps(es: seq<UserEvent>): (n: nat)
    ensures n <= |es|
    decreases |es|
  {
    if es == [] then 0 else (if es[0].Write? then 0 else 1) + Bumps(es[1..])
  }

  lemma {:induction false} RunFields(s: PrefState, es: seq<UserEvent>)
    ensures Run(s, es).version == (s.version + Bumps(es)) % UINT32_MODULUS
    ensures Run(s, es).snapshot == s.snapshot
    ensures Run(s, es).lastAcceptedVersion == s.lastAcceptedVersion
    ensures Run(s, es).hasSnapshot == s.hasSnapshot
    decreases |es|
  {
    if es != [] {
      var s1 := Apply(s, es[0]);
      RunFields(s1, es[1..]);
      if !es[0].Write? {
        ModAdd(s.version + 1, Bumps(es[1..]), UINT32_MODULUS);
      }
    }
  }

  /** Outside an update, events that do not move the version cannot write
      either: there are none. */
  lemma NoBumpNoEvents(s: PrefState, es: seq<UserEvent>)
    requires Disciplined(s, es) && Bumps(es) == 0 && s.version % 2 == 0
    ensures es == []
  {
  }

  /** The point of the check after the copy.  The writer loads the version
      at `s`, updates `before` run, it copies, updates `after` run, it checks.
      If the check accepts (and fewer than 2^32 events ran, so the version
      cannot come back round), no update began in between, and the accepted
      snapshot is the value as it stood at an even version when the writer
      loaded it: never a half-written one. */
  lemma {:induction false} AcceptedSnapshotIsStable(s: PrefState, before: seq<UserEvent>, after: seq<UserEvent>)
    requires Disciplined(s, before + after)
    requires |before| + |after| < UINT32_MODULUS
    ensures var versionBefore := s.version;
      var t := SnapshotCheck(Run(SnapshotCopy(Run(s, before), versionBefore), after), versionBefore);
      t.hasSnapshot && !s.hasSnapshot ==>
        && versionBefore % 2 == 0
        && before == [] && after == []
        && t.snapshot == s.value
        && t.value == s.value
        && t.lastAcceptedVersion == versionBefore
  {
    var vb := s.version;
    var s1 := Run(s, before);
    var s2 := SnapshotCopy(s1, vb);
    var s3 := Run(s2, after);
    var t := SnapshotCheck(s3, vb);
    RunFields(s, before);
    RunFields(s2, after);
    if t.hasSnapshot && !s.hasSnapshot {
      assert IsNewStable(s3, vb) && vb == s3.version;
      assert s3.lastAcceptedVersion == s1.lastAcceptedVersion == s.lastAcceptedVersion;
      var n := Bumps(before) + Bumps(after);
      assert n == 0 by {
        assert vb == (vb + n) % UINT32_MODULUS by {
          assert s3.version == ((vb + Bumps(before)) % UINT32_MODULUS + Bumps(after)) % UINT32_MODULUS;
          ModAdd(vb + Bumps(before), Bumps(after), UINT32_MODULUS);
        }
        SameAfterWrapIsZero(vb, n);
      }
      assert before == [] && after == [] by {
        DisciplinedSplit(s, before, after);
        NoBumpNoEvents(s, before);
        NoBumpNoEvents(s2, after);
      }
    }
  }

  lemma {:induction false} DisciplinedSplit(s: PrefState, a: seq<UserEvent>, b: seq<UserEvent>)
    requires Disciplined(s, a + b)
    ensures Disciplined(s, a) && Disciplined(Run(s, a), b)
    ensures Bumps(a + b) == Bumps(a) + Bumps(b)
    decreases |a|
  {
    if a != [] {
      assert (a + b)[0] == a[0] && (a + b)[1..] == a[1..] + b;
      DisciplinedSplit(Apply(s, a[0]), a[1..], b);
    } else {
      assert a + b == b;
    }
  }

  /** An `AsyncPreference<T>` object. */
  class Preference {
    var value: seq<byte>
    var snapshot: seq<byte>
    var version: uint32
    var lastAcceptedVersion: uint32
    var hasSnapshot: bool
    var isPreloaded: bool
    const kv: KVStore
    const ns: string
    const key: string
    const serializer: Serializer

    predicate Valid()
      reads this
    {
      serializer.Valid() && Fits(serializer, value) && Fits(serializer, snapshot)
    }

    function State(): PrefState
      reads this
    {
      PrefState(value, snapshot, version, lastAcceptedVersion, hasSnapshot, isPreloaded)
    }

    constructor (kv: KVStore, ns: string, key: string, serializer: Serializer, initial: seq<byte>)
      requires serializer.Valid() && Fits(serializer, initial)
      ensures Valid()
      ensures this.kv == kv && this.ns == ns && this.key == key && this.serializer == serializer
      ensures State() == PrefState(initial, Default(serializer), 0, 0, false, false)
    {
      value := initial;
      snapshot := Default(serializer);
      version := 0;
      lastAcceptedVersion := 0;
      hasSnapshot := false;
      this.kv := kv;
      this.ns := ns;
      this.key := key;
      this.serializer := serializer;
      isPreloaded := false;
    }

    /** `get`: loads on first use, then answers from memory. */
    method Get() returns (v: seq<byte>)
      requires Valid()
      modifies this
      ensures Valid()
      ensures State() == PreloadState(serializer, old(State()), kv.Stored(ns, key))
      ensures v == value
    {
      Preload();
      v := value;
    }

    method Preload()
      requires Valid()
      modifies this
      ensures Valid()
      ensures State() == PreloadState(serializer, old(State()), kv.Stored(ns, key))
    {
      if isPreloaded {
        return;
      }
      if kv.Length(ns, key) == 0 {
        return;
      }
      value := Load(kv, serializer, ns, key, value);
      isPreloaded := true;
    }

    method Set(v: seq<byte>)
      requires Valid() && Fits(serializer, v)
      modifies this
      ensures Valid()
      ensures State() == SetValue(old(State()), v)
    {
      ValueUpdateBegin();
      value := v;
      ValueUpdateEnd();
    }

    method ValueUpdateBegin()
      modifies this
      ensures State() == UpdateBegin(old(State()))
    {
      if !isPreloaded {
        isPreloaded := true;
      }
      version := Bump(version);
    }

    method ValueUpdateEnd()
      modifies this
      ensures State() == UpdateEnd(old(State()))
    {
      version := Bump(version);
    }

    /** The writer's entry point: snapshot, then store. */
    method Tick()
      requires Valid()
      modifies this, kv
      ensures Valid()
      ensures State() == SavedState(SnapshotState(old(State())))
      ensures kv.entries == Persist(SnapshotState(old(State())), old(kv.entries), ns, key)
    {
      MakeSnapshot();
      SaveSnapshot();
    }

    /** `makeSnapshot`, as its three steps in a row. */
    method MakeSnapshot()
      requires Valid()
      modifies this
      ensures Valid()
      ensures State() == SnapshotState(old(State()))
    {
      var versionBefore := LoadVersion();
      CopySnapshot(versionBefore);
      CheckSnapshot(versionBefore);
    }

    method LoadVersion() returns (v: uint32)
      ensures v == version
    {
      v := version;
    }

    method CopySnapshot(versionBefore: uint32)
      requires Valid()
      modifies this
      ensures Valid()
      ensures State() == SnapshotCopy(old(State()), versionBefore)
    {
      if lastAcceptedVersion != versionBefore && versionBefore % 2 == 0 {
        snapshot := value;
      }
    }

    method CheckSnapshot(versionBefore: uint32)
      modifies this
      ensures State() == SnapshotCheck(old(State()), versionBefore)
    {
      if lastAcceptedVersion != versionBefore && versionBefore % 2 == 0 {
        if versionBefore == version {
          lastAcceptedVersion := versionBefore;
          hasSnapshot := true;
        }
      }
    }

    method SaveSnapshot()
      requires Valid()
      modifies this, kv
      ensures Valid()
      ensures State() == SavedState(old(State()))
      ensures kv.entries == Persist(old(State()), old(kv.entries), ns, key)
    {
      if !hasSnapshot {
        return;
      }
      Save(kv, serializer, ns, key, snapshot);
      hasSnapshot := false;
    }
  }

  /** The writer's throttle: whether the preferences are ticked, and the new
      time of the last run. */
  datatype Throttled = Throttled(fires: bool, prevRunTs: uint32)

  /** `AsyncPreferenceWriter::tick` before the loop.  Without a clock every
      call runs; with one, a clock that went backwards restarts the period
      from now, and a run happens once `period` has passed since the last. */
  function Throttle(clocked: bool, prevRunTs: uint32, now: uint32, period: uint32): Throttled {
    if !clocked then Throttled(true, prevRunTs)
    else
      var base := if now < prevRunTs then now else prevRunTs;
      if now - base < period then Throttled(false, base) else Throttled(true, now)
  }

  /** Runs happen exactly when the period has passed (after a backwards
      clock, only with a zero period), and a run records the time. */
  lemma ThrottleFiresIff(clocked: bool, prevRunTs: uint32, now: uint32, period: uint32)
    ensures var r := Throttle(clocked, prevRunTs, now, period);
      && (!clocked ==> r == Throttled(true, prevRunTs))
      && (clocked && now >= prevRunTs ==> (r.fires <==> now - prevRunTs >= period))
      && (clocked && now < prevRunTs ==> (r.fires <==> period == 0) && r.prevRunTs == now)
      && (clocked && r.fires ==> r.prevRunTs == now)
      && (clocked && !r.fires ==> r.prevRunTs == Min(prevRunTs, now))
  {
  }

  /** After a run at `now`, a later tick at `now + d` (the clock not having
      wrapped) runs exactly when d reaches the period; a tick that does not
      run leaves the recorded time alone. */
  lemma ThrottleAfterRun(prevRunTs: uint32, now: uint32, d: nat, period: uint32)
    requires Throttle(true, prevRunTs, now, period).fires
    requires now + d < UINT32_MODULUS
    ensures var r := Throttle(true, Throttle(true, prevRunTs, now, period).prevRunTs, now + d, period);
      && (r.fires <==> d >= period)
      && (!r.fires ==> r.prevRunTs == now)
  {
  }

  /** The store entry a preference persists to. */
  function Slot(p: Preference): (KVStore, string, string) {
    (p.kv, p.ns, p.key)
  }

  /** `AsyncPreferenceWriter`: a throttle and the list of preferences it ticks. */
  class Writer {
    const msPeriod: uint32
    const clocked: bool
    var prevRunTs: uint32
    var preferences: seq<Preference>

    constructor (msPeriod: uint32, clocked: bool)
      ensures this.msPeriod == msPeriod && this.clocked == clocked
      ensures prevRunTs == 0 && preferences == []
    {
      this.msPeriod := msPeriod;
      this.clocked := clocked;
      prevRunTs := 0;
      preferences := [];
    }

    function Prefs(): set<object>
      reads this
    {
      set p | p in preferences
    }

    function Stores(): set<object>
      reads this
    {
      set p | p in preferences :: p.kv
    }

    /** The preferences are distinct objects on distinct keys, so no two of
        them race on one store entry. */
    predicate Distinct()
      reads this
    {
      forall i, j :: 0 <= i < j < |preferences| ==>
        preferences[i] != preferences[j] && Slot(preferences[i]) != Slot(preferences[j])
    }

    predicate Valid()
      reads this, Prefs()
    {
      Distinct() && forall p :: p in preferences ==> p.Valid()
    }

    method Add(pref: Preference)
      requires Valid() && pref.Valid()
      requires forall p :: p in preferences ==> p != pref && Slot(p) != Slot(pref)
      modifies this
      ensures preferences == old(preferences) + [pref]
      ensures prevRunTs == old(prevRunTs)
      ensures Valid()
    {
      ghost var before := preferences;
      preferences := preferences + [pref];
      forall i, j | 0 <= i < j < |preferences|
        ensures preferences[i] != preferences[j] && Slot(preferences[i]) != Slot(preferences[j])
      {
        assert preferences[i] == before[i] && before[i] in before;
        if j < |before| {
          assert preferences[j] == before[j];
        }
      }
    }

    /** `tick`; the clock reading is the parameter `now`, unused without a
        clock.  A throttled call changes nothing; a call that runs ticks
        every preference. */
    method Tick(now: uint32)
      requires Valid()
      modifies this, Prefs(), Stores()
      ensures preferences == old(preferences)
      ensures prevRunTs == Throttle(clocked, old(prevRunTs), now, msPeriod).prevRunTs
      ensures Valid()
      ensures !Throttle(clocked, old(prevRunTs), now, msPeriod).fires ==> unchanged(Prefs(), Stores())
      ensures Throttle(clocked, old(prevRunTs), now, msPeriod).fires ==>
        forall j :: 0 <= j < |preferences| ==>
          && preferences[j].State() == SavedState(SnapshotState(old(preferences[j].State())))
          && preferences[j].kv.Stored(preferences[j].ns, preferences[j].key)
             == TickStored(old(preferences[j].State()), old(preferences[j].kv.Stored(preferences[j].ns, preferences[j].key)))
      ensures Throttle(clocked, old(prevRunTs), now, msPeriod).fires ==>
        forall j :: 0 <= j < |preferences| ==>
          !preferences[j].hasSnapshot
          && (preferences[j].version % 2 == 0 ==> preferences[j].lastAcceptedVersion == preferences[j].version)
      ensures Throttle(clocked, old(prevRunTs), now, msPeriod).fires ==>
        forall kv: KVStore, ns, key ::
          kv in Stores() && (forall j :: 0 <= j < |preferences| ==> Slot(preferences[j]) != (kv, ns, key)) ==>
          kv.Stored(ns, key) == old(kv.Stored(ns, key))
    {
      if clocked {
        var timestamp := now;
        if timestamp < prevRunTs {
          prevRunTs := timestamp;
        }
        if timestamp - prevRunTs < msPeriod {
          return;
        }
        prevRunTs := timestamp;
      }
      TickAll();
      forall j | 0 <= j < |preferences|
        ensures !preferences[j].hasSnapshot
          && (preferences[j].version % 2 == 0 ==> preferences[j].lastAcceptedVersion == preferences[j].version)
      {
        MakeSnapshotCatchesUp(old(preferences[j].State()));
      }
    }

    /** The loop of `tick` over the registered preferences. */
    method TickAll()
      requires Valid()
      modifies Prefs(), Stores()
      ensures Valid()
      ensures preferences == old(preferences)
      ensures
        forall j :: 0 <= j < |preferences| ==>
          && preferences[j].State() == SavedState(SnapshotState(old(preferences[j].State())))
          && preferences[j].kv.Stored(preferences[j].ns, preferences[j].key)
             == TickStored(old(preferences[j].State()), old(preferences[j].kv.Stored(preferences[j].ns, preferences[j].key)))
      ensures
        forall kv: KVStore, ns, key ::
          kv in Stores() && (forall j :: 0 <= j < |preferences| ==> Slot(preferences[j]) != (kv, ns, key)) ==>
          kv.Stored(ns, key) == old(kv.Stored(ns, key))
    {
      var i := 0;
      while i < |preferences|
        invariant 0 <= i <= |preferences|
        invariant preferences == old(preferences)
        invariant Valid()
        invariant forall j :: 0 <= j < i ==>
          && preferences[j].State() == SavedState(SnapshotState(old(preferences[j].State())))
          && preferences[j].kv.Stored(preferences[j].ns, preferences[j].key)
             == TickStored(old(preferences[j].State()), old(preferences[j].kv.Stored(preferences[j].ns, preferences[j].key)))
        invariant forall j :: i <= j < |preferences| ==> preferences[j].State() == old(preferences[j].State())
        invariant forall kv: KVStore, ns, key ::
          kv in Stores() && (forall j :: 0 <= j < i ==> Slot(preferences[j]) != (kv, ns, key)) ==>
          kv.Stored(ns, key) == old(kv.Stored(ns, key))
      {
        TickAt(i);
        i := i + 1;
      }
    }

    /** Ticks the i-th preference: only it and its own key change. */
    method TickAt(i: nat)
      requires Valid() && i < |preferences|
      modifies preferences[i], preferences[i].kv
      ensures Valid()
      ensures preferences[i].State() == SavedState(SnapshotState(old(preferences[i].State())))
      ensures preferences[i].kv.Stored(preferences[i].ns, preferences[i].key)
        == TickStored(old(preferences[i].State()), old(preferences[i].kv.Stored(preferences[i].ns, preferences[i].key)))
      ensures forall j :: 0 <= j < |preferences| && j != i ==>
        && preferences[j].State() == old(preferences[j].State())
        && preferences[j].kv.Stored(preferences[j].ns, preferences[j].key)
           == old(preferences[j].kv.Stored(preferences[j].ns, preferences[j].key))
      ensures forall kv: KVStore, ns, key :: kv in Stores() && Slot(preferences[i]) != (kv, ns, key) ==>
        kv.Stored(ns, key) == old(kv.Stored(ns, key))
    {
      var p := preferences[i];
      p.Tick();
    }
  }

  /** After a snapshot without interference, an even version is the accepted one. */
  lemma MakeSnapshotCatchesUp(s: PrefState)
    ensures var t := SavedState(SnapshotState(s));
      !t.hasSnapshot && (t.version % 2 == 0 ==> t.lastAcceptedVersion == t.version)
  {
  }
}
