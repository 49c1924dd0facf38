/** The allowlist of paired devices: a map kept in memory and rewritten to disk on every change. */
module Devices {
  import opened Text
  import opened GoTime
  import opened Primitives
  import opened Keys

  datatype DeviceInfo = DeviceInfo(pub: Str, name: Str, pairedAt: Time)

  /** A row of List: the info with its id filled in. */
  datatype Entry = Entry(id: Str, info: DeviceInfo)

  type Table = map<Str, DeviceInfo>

  /** What devices.json holds; Legacy is the old id-to-key format. */
  datatype Disk = Missing | Unreadable | Corrupt | Image(table: Table) | Legacy(pubs: map<Str, Str>)

  /** The outcome of one attempt to rewrite the file; a failure may leave anything behind. */
  datatype Write = Written | Failed(left: Disk)

  datatype StoreState = StoreState(devices: Table, disk: Disk)

  /** Go's zero time, which migrated devices carry. */
  const ZERO_TIME: Time := FromParts(0, 0)

  function Persisted(devices: Table, write: Write): StoreState {
    StoreState(devices, if write.Written? then Image(devices) else write.left)
  }

  /** Add: a key that does not decode changes nothing; a failed write leaves the device in memory. */
  function Added(s: StoreState, id: Str, info: DeviceInfo, write: Write): (r: (StoreState, bool)) {
    if DecodeKey(info.pub).None? then (s, false)
    else (Persisted(s.devices[id := info], write), write.Written?)
  }

  function Removed(s: StoreState, id: Str, write: Write): (r: (StoreState, bool)) {
    if id !in s.devices then (s, false)
    else (Persisted(s.devices - {id}, write), write.Written?)
  }

  function Lookup(devices: Table, id: Str): Option<Key> {
    if id in devices then DecodeKey(devices[id].pub) else None
  }

  function Loaded(disk: Disk): Option<Table> {
    match disk
    case Missing => Some(map[])
    case Image(table) => Some(table)
    case Legacy(pubs) => Some(map id | id in pubs :: DeviceInfo(pubs[id], [], ZERO_TIME))
    case _ => None
  }

  function Entries(devices: Table): set<Entry> {
    set id | id in devices :: Entry(id, devices[id])
  }

  predicate OldestFirst(s: seq<Entry>) {
    forall i, j :: 0 <= i < j < |s| ==> s[i].info.pairedAt <= s[j].info.pairedAt
  }

  class DeviceStore {
    var devices: Table
    var disk: Disk

    constructor (devices: Table, disk: Disk)
      ensures View() == StoreState(devices, disk)
    {
      this.devices, this.disk := devices, disk;
    }

    function View(): StoreState
      reads this
    {
      StoreState(devices, disk)
    }

    /** LoadDevices: a missing file is an empty store, the old format is migrated. */
    static method Load(disk: Disk) returns (store: DeviceStore?)
      ensures store == null <==> Loaded(disk).None?
      ensures store != null ==> fresh(store) && store.View() == StoreState(Loaded(disk).value, disk)
    {
      match disk
      case Missing =>
        store := new DeviceStore(map[], disk);
      case Image(table) =>
        store := new DeviceStore(table, disk);
      case Legacy(pubs) =>
        var migrated: Table := map[];
        var todo := pubs.Keys;
        while todo != {}
          invariant todo <= pubs.Keys
          invariant migrated == map id | id in pubs && id !in todo :: DeviceInfo(pubs[id], [], ZERO_TIME)
        {
          var id :| id in todo;
          todo := todo - {id};
          migrated := migrated[id := DeviceInfo(pubs[id], [], ZERO_TIME)];
        }
        store := new DeviceStore(migrated, disk);
      case _ =>
        store := null;
    }

    method Add(id: Str, pub: Str, name: Str, now: Time, write: Write) returns (ok: bool)
      modifies this
      ensures (View(), ok) == Added(old(View()), id, DeviceInfo(pub, name, now), write)
    {
      if DecodeKey(pub).None? {
        return false;
      }
      devices := devices[id := DeviceInfo(pub, name, now)];
      ok := PersistLocked(write);
    }

    method Remove(id: Str, write: Write) returns (ok: bool)
      modifies this
      ensures (View(), ok) == Removed(old(View()), id, write)
    {
      if id !in devices {
        return false;
      }
      devices := devices - {id};
      ok := PersistLocked(write);
    }

    method PersistLocked(write: Write) returns (ok: bool)
      modifies this`disk
      ensures View() == Persisted(devices, write) && ok == write.Written?
    {
      match write
      case Written =>
        disk := Image(devices);
        ok := true;
      case Failed(left) =>
        disk := left;
        ok := false;
    }

    method Get(id: Str) returns (key: Option<Key>)
      ensures key == Lookup(devices, id)
    {
      if id !in devices {
        return None;
      }
      key := DecodeKey(devices[id].pub);
    }

    /** Every device once, oldest first, whatever order the map is walked in. */
    method List() returns (out: seq<Entry>)
      ensures multiset(out) == multiset(Entries(devices))
      ensures OldestFirst(out)
    {
      out := [];
      var todo := devices.Keys;
      ghost var done: set<Entry> := {};
      while todo != {}
        invariant todo <= devices.Keys
        invariant done == set id | id in devices && id !in todo :: Entry(id, devices[id])
        invariant multiset(out) == multiset(done)
      {
        var id :| id in todo;
        todo := todo - {id};
        out := out + [Entry(id, devices[id])];
        done := done + {Entry(id, devices[id])};
      }
      assert done == Entries(devices);
      out := SortSlice(out);
    }

    method Count() returns (n: nat)
      ensures n == |devices|
    {
      n := |devices|;
    }
  }

  /** sort.Slice by PairedAt; ties come in any order. */
  method SortSlice(s: seq<Entry>) returns (r: seq<Entry>)
    ensures multiset(r) == multiset(s)
    ensures OldestFirst(r)
  {
    hide OldestFirst;
    r := [];
    NothingToSort();
    for i := 0 to |s|
      invariant multiset(r) == multiset(s[..i])
      invariant OldestFirst(r)
    {
      r := Insert(r, s[i]);
      assert s[..i + 1] == s[..i] + [s[i]];
    }
    assert s[..|s|] == s;
  }

  method Insert(r: seq<Entry>, e: Entry) returns (q: seq<Entry>)
    requires OldestFirst(r)
    ensures multiset(q) == multiset(r) + multiset{e}
    ensures OldestFirst(q)
  {
    hide OldestFirst;
    var at := |r|;
    while at > 0 && e.info.pairedAt < r[at - 1].info.pairedAt
      invariant 0 <= at <= |r|
      invariant at < |r| ==> e.info.pairedAt <= r[at].info.pairedAt
    {
      at := at - 1;
    }
    InsertionOrder(r, at, e);
    InsertionContents(r, at, e);
    q := r[..at] + [e] + r[at..];
  }

  lemma NothingToSort()
    ensures OldestFirst([])
  {
  }

  lemma InsertionOrder(r: seq<Entry>, at: nat, e: Entry)
    requires at <= |r| && OldestFirst(r)
    requires at > 0 ==> r[at - 1].info.pairedAt <= e.info.pairedAt
    requires at < |r| ==> e.info.pairedAt <= r[at].info.pairedAt
    ensures OldestFirst(r[..at] + [e] + r[at..])
  {
    var q := r[..at] + [e] + r[at..];
    forall i, j | 0 <= i < j < |q|
      ensures q[i].info.pairedAt <= q[j].info.pairedAt
    {
      assert q[i] == (if i < at then r[i] else if i == at then e else r[i - 1]);
      assert q[j] == (if j < at then r[j] else if j == at then e else r[j - 1]);
    }
  }

  lemma InsertionContents(r: seq<Entry>, at: nat, e: Entry)
    requires at <= |r|
    ensures multiset(r[..at] + [e] + r[at..]) == multiset(r) + multiset{e}
  {
    assert r == r[..at] + r[at..];
  }

  lemma TwiceInMultiset(s: seq<Entry>, i: nat, j: nat)
    requires i < j < |s| && s[i] == s[j]
    ensures multiset(s)[s[i]] >= 2
  {
    assert s == s[..i] + [s[i]] + s[i + 1..j] + [s[j]] + s[j + 1..];
  }

  /** A listing of the table names every id once, and is as long as the table. */
  lemma ListingFacts(devices: Table, out: seq<Entry>)
    requires multiset(out) == multiset(Entries(devices))
    ensures |out| == |devices|
    ensures forall i, j :: 0 <= i < j < |out| ==> out[i].id != out[j].id
    ensures forall id :: id in devices <==> exists i :: 0 <= i < |out| && out[i].id == id
  {
    EntriesSize(devices);
    assert |multiset(out)| == |out| && |multiset(Entries(devices))| == |Entries(devices)|;
    forall i, j | 0 <= i < j < |out|
      ensures out[i].id != out[j].id
    {
      assert out[i] in multiset(out) && out[j] in multiset(out);
      assert out[i] in Entries(devices) && out[j] in Entries(devices);
      if out[i] == out[j] {
        TwiceInMultiset(out, i, j);
        assert false;
      }
    }
    forall id
      ensures id in devices <==> exists i :: 0 <= i < |out| && out[i].id == id
    {
      if id in devices {
        assert Entry(id, devices[id]) in multiset(Entries(devices));
        assert Entry(id, devices[id]) in out;
      }
      if i :| 0 <= i < |out| && out[i].id == id {
        assert out[i] in multiset(out);
        assert out[i] in Entries(devices);
      }
    }
  }

  lemma {:induction false} EntriesSize(devices: Table)
    ensures |Entries(devices)| == |devices|
  {
    if devices == map[] {
      assert Entries(devices) == {};
    } else {
      var id :| id in devices;
      var rest := devices - {id};
      EntriesSize(rest);
      assert devices.Keys == rest.Keys + {id};
      assert Entries(devices) == Entries(rest) + {Entry(id, devices[id])};
    }
  }

  datatype Op = Add(id: Str, info: DeviceInfo, write: Write) | Remove(id: Str, write: Write)

  function Applied(s: StoreState, op: Op): (StoreState, bool) {
    match op
    case Add(id, info, write) => Added(s, id, info, write)
    case Remove(id, write) => Removed(s, id, write)
  }

  function RunOps(s: StoreState, ops: seq<Op>): StoreState {
    if |ops| == 0 then s else Applied(RunOps(s, ops[..|ops| - 1]), ops[|ops| - 1]).0
  }

  predicate AllKeysDecode(devices: Table) {
    forall id | id in devices :: DecodeKey(devices[id].pub).Some?
  }

  predicate InSync(s: StoreState) {
    Loaded(s.disk) == Some(s.devices)
  }

  /** From an empty store, every stored key stays usable, so Get answers exactly the ids in the
      table, whatever the writes did. */
  lemma {:induction false} StoredKeysDecode(ops: seq<Op>)
    ensures var s := RunOps(StoreState(map[], Missing), ops);
            && AllKeysDecode(s.devices)
            && forall id :: Lookup(s.devices, id).Some? <==> id in s.devices
  {
    if |ops| > 0 {
      StoredKeysDecode(ops[..|ops| - 1]);
    }
  }

  /** The operation gets as far as rewriting the file. */
  predicate Writes(s: StoreState, op: Op) {
    match op
    case Add(_, info, _) => DecodeKey(info.pub).Some?
    case Remove(id, _) => id in s.devices
  }

  /** The outcome of the last attempt of a run to rewrite the file, if it made any. */
  function LastWrite(s: StoreState, ops: seq<Op>): Option<Write> {
    if |ops| == 0 then None
    else
      var front, op := ops[..|ops| - 1], ops[|ops| - 1];
      if Writes(RunOps(s, front), op) then Some(op.write) else LastWrite(s, front)
  }

  /** From a store that agrees with its file, as every loaded one does, reloading after any run gives
      the same table exactly when the last write succeeded, or the debris of a failed one happens to
      load as that table; in particular after every operation that reports success, whatever failed
      before it. */
  lemma {:induction false} LastWriteDecidesReload(s0: StoreState, ops: seq<Op>)
    requires InSync(s0)
    ensures var s, last := RunOps(s0, ops), LastWrite(s0, ops);
            && (InSync(s) <==> last.None? || last.value.Written? || Loaded(last.value.left) == Some(s.devices))
            && (last.Some? && last.value.Failed? ==> s.disk == last.value.left)
            && (|ops| > 0 && Applied(RunOps(s0, ops[..|ops| - 1]), ops[|ops| - 1]).1 ==> InSync(s))
  {
    if |ops| > 0 {
      LastWriteDecidesReload(s0, ops[..|ops| - 1]);
    }
  }

  /** The two tables agree on every device but this one. */
  predicate AgreeExcept(devices: Table, devices': Table, id: Str) {
    && (forall other | other in devices && other != id :: other in devices' && devices'[other] == devices[other])
    && (forall other | other in devices' && other != id :: other in devices)
  }

  /** Removing a device removes that device and no other, whether or not the file can be written, and
      succeeds exactly if the device was there and the file could be written. */
  lemma RemovalSparesOthers(s: StoreState, id: Str, write: Write)
    ensures var (s', ok) := Removed(s, id, write);
            && id !in s'.devices && AgreeExcept(s.devices, s'.devices, id)
            && (ok <==> id in s.devices && write.Written?)
            && (id !in s.devices ==> s' == s)
            && (ok ==> s'.disk == Image(s'.devices))
            && (id in s.devices && write.Failed? ==> s'.disk == write.left)
  {
  }

  /** Adding a device touches no other, stores it exactly if its key decodes, and succeeds exactly if
      moreover the file could be written. */
  lemma AddingSparesOthers(s: StoreState, id: Str, info: DeviceInfo, write: Write)
    ensures var (s', ok) := Added(s, id, info, write);
            && AgreeExcept(s.devices, s'.devices, id)
            && (DecodeKey(info.pub).Some? ==> id in s'.devices && s'.devices[id] == info)
            && (DecodeKey(info.pub).None? ==> s' == s)
            && (ok <==> DecodeKey(info.pub).Some? && write.Written?)
            && (ok ==> s'.disk == Image(s'.devices))
            && (DecodeKey(info.pub).Some? && write.Failed? ==> s'.disk == write.left)
  {
  }

  /** What a start makes of the file: unreadable and corrupt files give no store; a missing one gives
      the empty store; a migrated one answers every id with the key it had. */
  lemma LoadsExactly(disk: Disk)
    ensures Loaded(disk).None? <==> disk.Unreadable? || disk.Corrupt?
    ensures disk.Missing? ==> Loaded(disk) == Some(map[])
    ensures disk.Image? ==> Loaded(disk) == Some(disk.table)
    ensures disk.Legacy? ==> forall id ::
              && (id in Loaded(disk).value <==> id in disk.pubs)
              && Lookup(Loaded(disk).value, id) == (if id in disk.pubs then DecodeKey(disk.pubs[id]) else None)
    ensures disk.Legacy? ==> forall id | id in disk.pubs ::
              Loaded(disk).value[id] == DeviceInfo(disk.pubs[id], [], ZERO_TIME)
  {
  }
}
