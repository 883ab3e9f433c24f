/** The table of paired BLE clients: a fixed number of slots, each holding a
    client id and its secret, with a last-seen timestamp per slot.  Two
    version counters, even when no update is under way, let a writer task
    persist each table without locking.

    Loading the tables from flash on first use and starting the writer task
    (`lazy_init`) are not part of this model; the persisted tables are
    fields of the store. */
module BleAuthStore {
  import opened Bytes

  const ID_SIZE: nat := 16
  const SECRET_SIZE: nat := 32
  const ONE_DAY_MS: uint32 := 24 * 60 * 60 * 1000

  type AuthId = s: seq<byte> | |s| == ID_SIZE witness seq(16, _ => 0)
  type AuthSecret = s: seq<byte> | |s| == SECRET_SIZE witness seq(32, _ => 0)

  /** `BleAuthId{}`: sixteen zero bytes. */
  const ZERO_ID: AuthId := [0, 0, 0, 0, 0, 0, 0, 0, 0, 0, 0, 0, 0, 0, 0, 0]
  const ZERO_SECRET: AuthSecret :=
    [0, 0, 0, 0, 0, 0, 0, 0, 0, 0, 0, 0, 0, 0, 0, 0, 0, 0, 0, 0, 0, 0, 0, 0, 0, 0, 0, 0, 0, 0, 0, 0]

  datatype Client = Client(id: AuthId, secret: AuthSecret)

  const EMPTY_CLIENT: Client := Client(ZERO_ID, ZERO_SECRET)

  /** `std::find_if` on the id: the first slot holding it, or `|clients|` (the end) when none does. */
  function FindClient(clients: seq<Client>, id: AuthId): (i: nat)
    ensures i <= |clients|
    ensures i < |clients| ==> clients[i].id == id
    ensures forall j :: 0 <= j < i ==> clients[j].id != id
    decreases |clients|
  {
    if clients == [] then 0
    else if clients[0].id == id then 0
    else 1 + FindClient(clients[1..], id)
  }

  /** `std::any_of` on the id. */
  predicate HasId(clients: seq<Client>, id: AuthId) {
    exists i :: 0 <= i < |clients| && clients[i].id == id
  }

  /** The search finds a slot exactly when some slot holds the id. */
  lemma FindClientIffHas(clients: seq<Client>, id: AuthId)
    ensures FindClient(clients, id) < |clients| <==> HasId(clients, id)
  {
  }

  /** `std::min_element`: the first slot with the smallest timestamp. */
  function FirstMin(ts: seq<uint32>): (i: nat)
    requires |ts| > 0
    ensures i < |ts|
    ensures forall j :: 0 <= j < |ts| ==> ts[i] <= ts[j]
    ensures forall j :: 0 <= j < i ==> ts[j] > ts[i]
    decreases |ts|
  {
    if |ts| == 1 then 0
    else
      var k := FirstMin(ts[1..]) + 1;
      if ts[0] <= ts[k] then 0 else k
  }

  /** Only one slot is the first with the smallest timestamp. */
  lemma FirstMinUnique(ts: seq<uint32>, i: nat)
    requires i < |ts|
    requires forall j :: 0 <= j < |ts| ==> ts[i] <= ts[j]
    requires forall j :: 0 <= j < i ==> ts[j] > ts[i]
    ensures i == FirstMin(ts)
  {
    var m := FirstMin(ts);
    if m < i {
      assert false;
    } else if i < m {
      assert false;
    }
  }

  /** The slot `create` writes: the one already holding the id, else the
      first with the smallest timestamp. */
  function CreateSlot(clients: seq<Client>, ts: seq<uint32>, id: AuthId): (i: nat)
    requires |clients| == |ts| > 0
    ensures i < |clients|
  {
    var found := FindClient(clients, id);
    if found < |clients| then found else FirstMin(ts)
  }

  /** The test in `set_timestamp` that decides whether the slot is rewritten:
      a reset to 0, a jump more than a day ahead (the sum wrapping at 2^32),
      or a clock that went back. */
  predicate ShouldWrite(current: uint32, timestamp: uint32) {
    timestamp == 0 || timestamp > Add32(current, ONE_DAY_MS) || current > timestamp
  }

  /** The timestamp table after a write of `timestamp` to slot `index`: every
      other nonzero timestamp more than a day past it is pulled back to it. */
  function Clamped(ts: seq<uint32>, index: nat, timestamp: uint32): (r: seq<uint32>)
    requires index < |ts|
    ensures |r| == |ts|
  {
    seq(|ts|, i requires 0 <= i < |ts| =>
      if i == index then timestamp
      else if ts[i] != 0 && ts[i] > Add32(timestamp, ONE_DAY_MS) then timestamp
      else ts[i])
  }

  /** After a write, the slot holds the new timestamp, every other slot either
      kept its value or took the new one, and no other nonzero slot is left
      more than a day past it. */
  lemma ClampedBounds(ts: seq<uint32>, index: nat, timestamp: uint32)
    requires index < |ts|
    ensures var r := Clamped(ts, index, timestamp);
      && r[index] == timestamp
      && (forall i :: 0 <= i < |ts| && i != index ==> r[i] == ts[i] || r[i] == timestamp)
      && (forall i :: 0 <= i < |ts| && r[i] != timestamp ==> r[i] == ts[i] && (r[i] == 0 || r[i] <= Add32(timestamp, ONE_DAY_MS)))
      && (forall i :: 0 <= i < |ts| && ts[i] == 0 ==> r[i] == 0 || i == index)
  {
  }

  /** A refresh that moves a slot forward by no more than a day (without the
      sum wrapping) rewrites nothing; in particular repeating the last call
      with a nonzero timestamp is not written again. */
  lemma RefreshWithinADayNotWritten(current: uint32, timestamp: uint32)
    requires timestamp != 0 && current <= timestamp
    requires current + ONE_DAY_MS < UINT32_MODULUS
    ensures ShouldWrite(current, timestamp) <==> timestamp > current + ONE_DAY_MS
    ensures !ShouldWrite(timestamp, timestamp) || timestamp + ONE_DAY_MS >= UINT32_MODULUS
  {
  }

  /** Slots holding an equal id hold the zero id: `create` never adds a
      second slot for a nonzero id. */
  predicate UniqueIds(clients: seq<Client>) {
    forall i, j :: 0 <= i < j < |clients| && clients[i].id == clients[j].id ==> clients[i].id == ZERO_ID
  }

  /** After `create`, on any table, the id is found in the slot it was
      written to, and that slot's secret is the new one. */
  lemma CreateThenGetSecret(clients: seq<Client>, ts: seq<uint32>, id: AuthId, secret: AuthSecret)
    requires |clients| == |ts| > 0
    ensures var i := CreateSlot(clients, ts, id);
      var after := clients[i := Client(id, secret)];
      && FindClient(after, id) == i
      && after[FindClient(after, id)].secret == secret
  {
    var i := CreateSlot(clients, ts, id);
    var after := clients[i := Client(id, secret)];
    if FindClient(clients, id) == |clients| {
      assert forall j :: 0 <= j < |clients| ==> clients[j].id != id;
    }
    FindClientAt(after, id, i);
  }

  /** `create` never adds a second slot for a nonzero id. */
  lemma CreateKeepsIdsUnique(clients: seq<Client>, ts: seq<uint32>, id: AuthId, secret: AuthSecret)
    requires |clients| == |ts| > 0
    requires UniqueIds(clients)
    ensures UniqueIds(clients[CreateSlot(clients, ts, id) := Client(id, secret)])
  {
    var i := CreateSlot(clients, ts, id);
    var after := clients[i := Client(id, secret)];
    var found := FindClient(clients, id);
    forall a, b | 0 <= a < b < |after| && after[a].id == after[b].id
      ensures after[a].id == ZERO_ID
    {
      if a == i {
        if found < |clients| {
          assert clients[i].id == clients[b].id;
        } else {
          assert false;
        }
      } else if b == i {
        assert false;
      }
    }
  }

  /** A slot holding the id with no earlier one holding it is what the search finds. */
  lemma FindClientAt(clients: seq<Client>, id: AuthId, i: nat)
    requires i < |clients| && clients[i].id == id
    requires forall j :: 0 <= j < i ==> clients[j].id != id
    ensures FindClient(clients, id) == i
  {
  }

  /** For an id not yet known, `create` evicts a least recently seen client;
      a client just created has timestamp 0, so on a fresh table a second
      new client replaces the first unless its timestamp was set in between. */
  lemma CreateEvictsOldest(clients: seq<Client>, ts: seq<uint32>, id: AuthId)
    requires |clients| == |ts| > 0
    requires !HasId(clients, id)
    ensures var i := CreateSlot(clients, ts, id);
      (forall j :: 0 <= j < |ts| ==> ts[i] <= ts[j]) && (forall j :: 0 <= j < i ==> ts[j] > ts[i])
    ensures ts[0] == 0 ==> CreateSlot(clients, ts, id) == 0
  {
    FindClientIffHas(clients, id);
  }

  /** A fresh table answers `has` for the all-zero id, and its secret is all zeros. */
  lemma FreshTableKnowsZeroId(n: nat)
    requires n > 0
    ensures var clients := seq(n, _ => EMPTY_CLIENT);
      HasId(clients, ZERO_ID) && FindClient(clients, ZERO_ID) == 0 && clients[0].secret == ZERO_SECRET
  {
    var clients := seq(n, _ => EMPTY_CLIENT);
    assert clients[0].id == ZERO_ID;
  }

  /** Whether the writer copies a table whose version it loaded as `versionBefore`. */
  predicate IsNewStable(lastAccepted: uint32, versionBefore: uint32) {
    lastAccepted != versionBefore && versionBefore % 2 == 0
  }

  /** `BleAuthStore`: the client and timestamp tables, their version
      counters, and the tables last persisted. */
  class AuthStore {
    const maxRecords: nat
    const clients: array<Client>
    const timestamps: array<uint32>
    var clientsVersion: uint32
    var lastAcceptedClientsVersion: uint32
    var timestampsVersion: uint32
    var lastAcceptedTimestampsVersion: uint32
    var storedClients: seq<Client>
    var storedTimestamps: seq<uint32>

    predicate Valid()
      reads this
    {
      maxRecords > 0 && clients.Length == maxRecords && timestamps.Length == maxRecords
    }

    constructor (maxRecords: nat)
      requires maxRecords > 0
      ensures Valid() && this.maxRecords == maxRecords
      ensures clients[..] == seq(maxRecords, _ => EMPTY_CLIENT)
      ensures timestamps[..] == seq(maxRecords, _ => 0)
      ensures clientsVersion == 0 && lastAcceptedClientsVersion == 0
      ensures timestampsVersion == 0 && lastAcceptedTimestampsVersion == 0
    {
      this.maxRecords := maxRecords;
      clients := new Client[maxRecords](_ => EMPTY_CLIENT);
      timestamps := new uint32[maxRecords](_ => 0);
      clientsVersion := 0;
      lastAcceptedClientsVersion := 0;
      timestampsVersion := 0;
      lastAcceptedTimestampsVersion := 0;
      storedClients := seq(maxRecords, _ => EMPTY_CLIENT);
      storedTimestamps := seq(maxRecords, _ => 0);
    }

    /** `has`. */
    method Has(id: AuthId) returns (b: bool)
      requires Valid()
      ensures b <==> HasId(clients[..], id)
    {
      var i := 0;
      while i < clients.Length
        invariant 0 <= i <= clients.Length
        invariant forall j :: 0 <= j < i ==> clients[j].id != id
      {
        if clients[i].id == id {
          assert clients[..][i].id == id;
          return true;
        }
        i := i + 1;
      }
      return false;
    }

    /** The `find_if` loop: the first slot holding the id, or the end. */
    method Find(id: AuthId) returns (index: nat)
      requires Valid()
      ensures index == FindClient(clients[..], id)
    {
      index := 0;
      while index < clients.Length && clients[index].id != id
        invariant 0 <= index <= clients.Length
        invariant forall j :: 0 <= j < index ==> clients[j].id != id
      {
        index := index + 1;
      }
      if index < clients.Length {
        FindClientAt(clients[..], id, index);
      } else {
        FindClientIffHas(clients[..], id);
      }
    }

    /** `get_secret`: the secret of the first slot holding the id; an
        unknown id reports false and leaves `secretOut` as it was. */
    method GetSecret(id: AuthId, secretOut: AuthSecret) returns (found: bool, secret: AuthSecret)
      requires Valid()
      ensures found <==> HasId(clients[..], id)
      ensures found ==> secret == clients[FindClient(clients[..], id)].secret
      ensures !found ==> secret == secretOut
    {
      var index := Find(id);
      FindClientIffHas(clients[..], id);
      if index == clients.Length {
        return false, secretOut;
      }
      return true, clients[index].secret;
    }

    /** The `min_element` loop over the timestamps. */
    method MinElement() returns (index: nat)
      requires Valid()
      ensures index == FirstMin(timestamps[..])
    {
      index := 0;
      var i := 1;
      while i < timestamps.Length
        invariant 1 <= i <= timestamps.Length && index < i
        invariant forall j :: 0 <= j < i ==> timestamps[index] <= timestamps[j]
        invariant forall j :: 0 <= j < index ==> timestamps[j] > timestamps[index]
      {
        if timestamps[i] < timestamps[index] {
          index := i;
        }
        i := i + 1;
      }
      FirstMinUnique(timestamps[..], index);
    }

    /** `set_timestamp`: false for an unknown id; otherwise, when the test
        asks for it, an update of the timestamp table under an odd version. */
    method SetTimestamp(id: AuthId, timestamp: uint32) returns (found: bool)
      requires Valid()
      modifies this, timestamps
      ensures Valid()
      ensures var i := FindClient(old(clients[..]), id);
        var write := i < maxRecords && ShouldWrite(old(timestamps[..])[i], timestamp);
        && (found <==> i < maxRecords)
        && timestamps[..] == (if write then Clamped(old(timestamps[..]), i, timestamp) else old(timestamps[..]))
        && timestampsVersion == (if write then Add32(Add32(old(timestampsVersion), 1), 1) else old(timestampsVersion))
      ensures clientsVersion == old(clientsVersion)
      ensures lastAcceptedClientsVersion == old(lastAcceptedClientsVersion)
      ensures lastAcceptedTimestampsVersion == old(lastAcceptedTimestampsVersion)
      ensures storedClients == old(storedClients) && storedTimestamps == old(storedTimestamps)
    {
      var index := Find(id);
      if index == clients.Length {
        return false;
      }
      var currentTs := timestamps[index];
      if timestamp == 0 || timestamp > Add32(currentTs, ONE_DAY_MS) || currentTs > timestamp {
        ghost var before := timestamps[..];
        timestampsVersion := Add32(timestampsVersion, 1);
        timestamps[index] := timestamp;
        var i := 0;
        while i < maxRecords
          invariant 0 <= i <= maxRecords
          invariant forall j :: 0 <= j < i ==> timestamps[j] == Clamped(before, index, timestamp)[j]
          invariant forall j :: i <= j < maxRecords ==> timestamps[j] == before[index := timestamp][j]
          invariant timestampsVersion == Add32(old(timestampsVersion), 1)
          invariant clientsVersion == old(clientsVersion)
          invariant lastAcceptedClientsVersion == old(lastAcceptedClientsVersion)
          invariant lastAcceptedTimestampsVersion == old(lastAcceptedTimestampsVersion)
          invariant storedClients == old(storedClients) && storedTimestamps == old(storedTimestamps)
        {
          if i != index && timestamps[i] != 0 && timestamps[i] > Add32(timestamp, ONE_DAY_MS) {
            timestamps[i] := timestamp;
          }
          i := i + 1;
        }
        timestampsVersion := Add32(timestampsVersion, 1);
        assert timestamps[..] == Clamped(before, index, timestamp);
      }
      return true;
    }

    /** `create`: writes the id and secret into the slot holding the id, or
        else into the first least recently seen slot, and zeroes its
        timestamp, both tables under odd versions meanwhile. */
    method Create(id: AuthId, secret: AuthSecret) returns (ok: bool)
      requires Valid()
      modifies this, clients, timestamps
      ensures Valid() && ok
      ensures var i := CreateSlot(old(clients[..]), old(timestamps[..]), id);
        && clients[..] == old(clients[..])[i := Client(id, secret)]
        && timestamps[..] == old(timestamps[..])[i := 0]
      ensures clientsVersion == Add32(Add32(old(clientsVersion), 1), 1)
      ensures timestampsVersion == Add32(Add32(old(timestampsVersion), 1), 1)
      ensures lastAcceptedClientsVersion == old(lastAcceptedClientsVersion)
      ensures lastAcceptedTimestampsVersion == old(lastAcceptedTimestampsVersion)
      ensures storedClients == old(storedClients) && storedTimestamps == old(storedTimestamps)
    {
      var index := Find(id);
      if index == clients.Length {
        index := MinElement();
      }
      clientsVersion := Add32(clientsVersion, 1);
      timestampsVersion := Add32(timestampsVersion, 1);
      clients[index] := Client(id, secret);
      timestamps[index] := 0;
      clientsVersion := Add32(clientsVersion, 1);
      timestampsVersion := Add32(timestampsVersion, 1);
      return true;
    }

    /** `writer_tick`, persisting the copy it checked (see `TickAsWritten`
        for the code as written, which persists the live table). */
    method WriterTick()
      requires Valid()
      modifies this
      ensures Valid()
      ensures IsNewStable(old(lastAcceptedClientsVersion), clientsVersion)
        ==> storedClients == clients[..] && lastAcceptedClientsVersion == clientsVersion
      ensures !IsNewStable(old(lastAcceptedClientsVersion), clientsVersion)
        ==> storedClients == old(storedClients) && lastAcceptedClientsVersion == old(lastAcceptedClientsVersion)
      ensures IsNewStable(old(lastAcceptedTimestampsVersion), timestampsVersion)
        ==> storedTimestamps == timestamps[..] && lastAcceptedTimestampsVersion == timestampsVersion
      ensures !IsNewStable(old(lastAcceptedTimestampsVersion), timestampsVersion)
        ==> storedTimestamps == old(storedTimestamps)
            && lastAcceptedTimestampsVersion == old(lastAcceptedTimestampsVersion)
      ensures clientsVersion == old(clientsVersion) && timestampsVersion == old(timestampsVersion)
    {
      var clientsVersionBefore := clientsVersion;
      var timestampsVersionBefore := timestampsVersion;
      var clientsUpdated := lastAcceptedClientsVersion != clientsVersionBefore && clientsVersionBefore % 2 == 0;
      var timestampsUpdated :=
        lastAcceptedTimestampsVersion != timestampsVersionBefore && timestampsVersionBefore % 2 == 0;
      if clientsUpdated {
        var clientsCopy := clients[..];
        if clientsVersionBefore == clientsVersion {
          storedClients := clientsCopy;
          lastAcceptedClientsVersion := clientsVersionBefore;
        }
      }
      if timestampsUpdated {
        var timestampsCopy := timestamps[..];
        if timestampsVersionBefore == timestampsVersion {
          storedTimestamps := timestampsCopy;
          lastAcceptedTimestampsVersion := timestampsVersionBefore;
        }
      }
    }
  }

  /** One versioned table as the writer sees it: the live table, its version,
      the version accepted last, and the table persisted. */
  datatype Table<T> = Table(live: T, version: uint32, lastAccepted: uint32, stored: T)

  /** What the updating side may do while the writer runs: open an update,
      write the table inside it, close it. */
  datatype TableEvent<T> = Begin | Write(v: T) | End

  function ApplyEvent<T>(s: Table<T>, e: TableEvent<T>): Table<T> {
    match e
    case Begin => s.(version := Add32(s.version, 1))
    case Write(v) => s.(live := v)
    case End => s.(version := Add32(s.version, 1))
  }

  function RunEvents<T>(s: Table<T>, es: seq<TableEvent<T>>): Table<T>
    decreases |es|
  {
    if es == [] then s else RunEvents(ApplyEvent(s, es[0]), es[1..])
  }

  /** The table is written only inside an update, when the version is odd. */
  predicate Disciplined<T>(s: Table<T>, es: seq<TableEvent<T>>)
    decreases |es|
  {
    es == [] || ((es[0].Write? ==> s.version % 2 == 1) && Disciplined(ApplyEvent(s, es[0]), es[1..]))
  }

  function Bumps<T>(es: seq<TableEvent<T>>): (n: nat)
    ensures n <= |es|
    decreases |es|
  {
    if es == [] then 0 else (if es[0].Write? then 0 else 1) + Bumps(es[1..])
  }

  /** One table's part of `writer_tick` as written.  The writer loads the
      version, `duringCopy` runs, it copies, `beforeCheck` runs, it checks the
      version, `afterCheck` runs, and it persists the LIVE table. */
  function TickAsWritten<T>(s: Table<T>, duringCopy: seq<TableEvent<T>>, beforeCheck: seq<TableEvent<T>>,
                            afterCheck: seq<TableEvent<T>>): Table<T>
  {
    var versionBefore := s.version;
    var s1 := RunEvents(s, duringCopy);
    var s2 := RunEvents(s1, beforeCheck);
    var s3 := RunEvents(s2, afterCheck);
    if IsNewStable(s.lastAccepted, versionBefore) && versionBefore == s2.version then
      s3.(stored := s3.live, lastAccepted := versionBefore)
    else s3
  }

  /** The same, persisting the copy that the version check vouched for. */
  function TickCorrected<T>(s: Table<T>, duringCopy: seq<TableEvent<T>>, beforeCheck: seq<TableEvent<T>>,
                            afterCheck: seq<TableEvent<T>>): Table<T>
  {
    var versionBefore := s.version;
    var s1 := RunEvents(s, duringCopy);
    var copy := s1.live;
    var s2 := RunEvents(s1, beforeCheck);
    var s3 := RunEvents(s2, afterCheck);
    if IsNewStable(s.lastAccepted, versionBefore) && versionBefore == s2.version then
      s3.(stored := copy, lastAccepted := versionBefore)
    else s3
  }

  lemma {:induction false} RunEventsFields<T>(s: Table<T>, es: seq<TableEvent<T>>)
    ensures RunEvents(s, es).version == (s.version + Bumps(es)) % UINT32_MODULUS
    ensures RunEvents(s, es).lastAccepted == s.lastAccepted
    ensures RunEvents(s, es).stored == s.stored
    decreases |es|
  {
    if es != [] {
      RunEventsFields(ApplyEvent(s, es[0]), es[1..]);
      var n := Bumps(es[1..]);
      var b := if es[0].Write? then 0 else 1;
      ModAdd(s.version + b, n, UINT32_MODULUS);
    }
  }

  lemma {:induction false} DisciplinedSplit<T>(s: Table<T>, a: seq<TableEvent<T>>, b: seq<TableEvent<T>>)
    requires Disciplined(s, a + b)
    ensures Disciplined(s, a) && Disciplined(RunEvents(s, a), b)
    ensures Bumps(a + b) == Bumps(a) + Bumps(b)
    decreases |a|
  {
    if a != [] {
      assert (a + b)[0] == a[0] && (a + b)[1..] == a[1..] + b;
      DisciplinedSplit(ApplyEvent(s, a[0]), a[1..], b);
    } else {
      assert a + b == b;
    }
  }

  /** Starting outside an update, events that leave the version where it was
      (fewer than 2^32 of them) are no events at all. */
  lemma NoBumpNoEvents<T>(s: Table<T>, es: seq<TableEvent<T>>)
    requires Disciplined(s, es) && s.version % 2 == 0
    requires |es| < UINT32_MODULUS
    requires RunEvents(s, es).version == s.version
    ensures es == []
  {
    RunEventsFields(s, es);
    SameAfterWrapIsZero(s.version, Bumps(es));
  }

  /** With the copy persisted, whatever happens after the check, a table the
      writer accepts is stored exactly as it stood at the even version it
      records: nothing ran between loading the version and the check. */
  lemma TickCorrectedStoresAcceptedVersion<T>(s: Table<T>, duringCopy: seq<TableEvent<T>>,
                                                beforeCheck: seq<TableEvent<T>>, afterCheck: seq<TableEvent<T>>)
    requires Disciplined(s, duringCopy + beforeCheck)
    requires |duringCopy| + |beforeCheck| < UINT32_MODULUS
    ensures var t := TickCorrected(s, duringCopy, beforeCheck, afterCheck);
      t.lastAccepted != s.lastAccepted ==>
        && s.version % 2 == 0
        && duringCopy == [] && beforeCheck == []
        && t.lastAccepted == s.version
        && t.stored == s.live
  {
    var t := TickCorrected(s, duringCopy, beforeCheck, afterCheck);
    var s1 := RunEvents(s, duringCopy);
    var s2 := RunEvents(s1, beforeCheck);
    RunEventsFields(s, duringCopy);
    RunEventsFields(s1, beforeCheck);
    RunEventsFields(s2, afterCheck);
    if t.lastAccepted != s.lastAccepted {
      DisciplinedSplit(s, duringCopy, beforeCheck);
      assert RunEvents(s, duringCopy + beforeCheck) == s2 by {
        RunEventsAppend(s, duringCopy, beforeCheck);
      }
      NoBumpNoEvents(s, duringCopy + beforeCheck);
      assert duringCopy == [] && beforeCheck == [];
    }
  }

  lemma {:induction false} RunEventsAppend<T>(s: Table<T>, a: seq<TableEvent<T>>, b: seq<TableEvent<T>>)
    ensures RunEvents(s, a + b) == RunEvents(RunEvents(s, a), b)
    decreases |a|
  {
    if a != [] {
      assert (a + b)[0] == a[0] && (a + b)[1..] == a[1..] + b;
      RunEventsAppend(ApplyEvent(s, a[0]), a[1..], b);
    } else {
      assert a + b == b;
    }
  }

  /** The code as written: an update that begins after the check and has
      written part of the table when the writer persists it gets that
      half-written table stored, recorded under the old, even version. */
  lemma TickAsWrittenStoresTornTable<T>(live: T, torn: T, stored: T)
    requires live != torn
    ensures var s := Table(live, 2, 0, stored);
      var t := TickAsWritten(s, [], [], [Begin, Write(torn)]);
      && t.stored == torn && t.stored != live
      && t.lastAccepted == 2
      && t.version == 3
      && TickCorrected(s, [], [], [Begin, Write(torn)]).stored == live
  {
    var s := Table(live, 2, 0, stored);
    var es: seq<TableEvent<T>> := [Begin, Write(torn)];
    var s1 := ApplyEvent(s, Begin);
    assert s1 == Table(live, 3, 0, stored);
    assert es[1..] == [Write(torn)] && [Write(torn)][1..] == [];
    assert RunEvents(s, es) == RunEvents(s1, [Write(torn)]);
    assert RunEvents(s1, [Write(torn)]) == RunEvents(Table(torn, 3, 0, stored), []);
  }
}
