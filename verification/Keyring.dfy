// The keyring: a linked list of nodes that ends in one empty node, holding keys by
// the CRC of the strings that describe them.
module Keyring {
  import opened Results
  import opened Crc32

  const MAXLEN := 256

  const PK_PRIVATE := 0
  const PK_PUBLIC := 1
  const PK_PRIVATE_OPTIMIZED := 2

  const NON_KEY := 0
  const RSA_KEY := 1
  const DH_KEY := 2
  const ECC_KEY := 3

  // The bytes of a C string before its zero
  type Text = seq<bv8>

  function Cut(s: Text, n: nat): Text {
    if |s| < n then s else s[..n]
  }

  // The ID under which kr_add looks for a duplicate
  function Id(name: Text, email: Text, description: Text): bv32 {
    Crc(0, Cut(name, MAXLEN) + Cut(email, MAXLEN) + Cut(description, MAXLEN))
  }

  method KrCrc(name: Text, email: Text, description: Text) returns (crc: bv32)
    ensures crc == Id(name, email, description)
  {
    hide Crc;
    crc := Crc32.Crc32(0, []);
    crc := Crc32.Crc32(crc, Cut(name, MAXLEN));
    crc := Crc32.Crc32(crc, Cut(email, MAXLEN));
    crc := Crc32.Crc32(crc, Cut(description, MAXLEN));
    CrcConcat(0, [], Cut(name, MAXLEN));
    CrcConcat(0, [] + Cut(name, MAXLEN), Cut(email, MAXLEN));
    CrcConcat(0, [] + Cut(name, MAXLEN) + Cut(email, MAXLEN), Cut(description, MAXLEN));
    assert [] + Cut(name, MAXLEN) == Cut(name, MAXLEN);
  }

  // Strings that need no cut give the chained CRC of all their bytes.
  lemma ShortId(name: Text, email: Text, description: Text)
    requires |name| <= MAXLEN && |email| <= MAXLEN && |description| <= MAXLEN
    ensures Id(name, email, description) == Crc(Crc(Crc(0, name), email), description)
  {
    hide Crc;
    CrcConcat(0, name, email);
    CrcConcat(0, name + email, description);
    assert Cut(name, MAXLEN) == name && Cut(email, MAXLEN) == email && Cut(description, MAXLEN) == description;
  }

  // ---- The ring as a value ----

  datatype Entry = Entry(keyType: int, system: int, name: Text, email: Text, description: Text, id: bv32, key: seq<bv8>)

  // open: the list ends in an empty node
  datatype Ring = Ring(keys: seq<Entry>, open: bool)

  // The position of the first key with the ID, or the number of keys
  function IndexOf(keys: seq<Entry>, id: bv32): (i: nat)
    ensures i <= |keys|
    ensures i < |keys| ==> keys[i].id == id
    ensures forall j :: 0 <= j < i ==> keys[j].id != id
  {
    if keys == [] || keys[0].id == id then 0 else 1 + IndexOf(keys[1..], id)
  }

  predicate Has(keys: seq<Entry>, id: bv32) {
    IndexOf(keys, id) < |keys|
  }

  // The entry that kr_add makes: every string cut to the array less its last byte
  function Stored(keyType: int, system: int, name: Text, email: Text, description: Text, key: seq<bv8>): Entry {
    var n, e, d := Cut(name, MAXLEN - 1), Cut(email, MAXLEN - 1), Cut(description, MAXLEN - 1);
    Entry(keyType, system, n, e, d, Id(n, e, d), key)
  }

  predicate IsKeyType(t: int) {
    t == PK_PRIVATE || t == PK_PRIVATE_OPTIMIZED || t == PK_PUBLIC
  }

  predicate IsSystem(s: int) {
    s == RSA_KEY || s == DH_KEY || s == ECC_KEY
  }

  // What the arguments, the ring and the allocator make of an addition
  function Answer(r: Ring, keyType: int, sys: int, name: Text, email: Text, description: Text, memory: bool): Status {
    if !IsKeyType(keyType) then CryptPkInvalidType
    else if !IsSystem(sys) then CryptPkInvalidSystem
    else if Has(r.keys, Id(name, email, description)) then CryptPkDup
    else if !r.open then CryptError
    else if !memory then CryptMem
    else CryptOk
  }

  function Removed(keys: seq<Entry>, i: nat): seq<Entry>
    requires i < |keys|
  {
    keys[..i] + keys[i + 1..]
  }

  lemma Leftover(keys: seq<Entry>, i: nat)
    ensures i < |keys| ==> |Removed(keys, i)| == |keys| - 1
    ensures i < |keys| ==> forall j :: 0 <= j < |keys| - 1 ==> Removed(keys, i)[j] == keys[if j < i then j else j + 1]
  {
  }

  // ---- The ring as a finite map ----

  datatype KeyId = KeyId(crc: bv32)

  // The first key with each ID
  function AsMap(keys: seq<Entry>): map<KeyId, Entry> {
    if keys == [] then map[] else AsMap(keys[1..])[KeyId(keys[0].id) := keys[0]]
  }

  lemma {:induction false} MapLookup(keys: seq<Entry>, id: bv32)
    ensures Has(keys, id) <==> KeyId(id) in AsMap(keys)
    ensures Has(keys, id) ==> AsMap(keys)[KeyId(id)] == keys[IndexOf(keys, id)]
  {
    if keys != [] && keys[0].id != id {
      MapLookup(keys[1..], id);
    }
  }

  lemma {:induction false} MapAppend(keys: seq<Entry>, e: Entry)
    requires KeyId(e.id) !in AsMap(keys)
    ensures AsMap(keys + [e]) == AsMap(keys)[KeyId(e.id) := e]
  {
    if keys == [] {
      assert keys + [e] == [e];
    } else {
      assert (keys + [e])[1..] == keys[1..] + [e];
      MapAppend(keys[1..], e);
    }
  }

  ghost predicate Distinct(keys: seq<Entry>) {
    forall i, j :: 0 <= i < j < |keys| ==> keys[i].id != keys[j].id
  }

  lemma {:induction false} MapRemove(keys: seq<Entry>, i: nat)
    requires Distinct(keys) && i < |keys|
    ensures AsMap(Removed(keys, i)) == AsMap(keys) - {KeyId(keys[i].id)}
  {
    hide AsMap, IndexOf;
    MapFirst(keys);
    if i == 0 {
      assert Removed(keys, 0) == keys[1..];
      MapLookup(keys[1..], keys[0].id);
      FirstIsOnly(keys);
    } else {
      MapRemove(keys[1..], i - 1);
      var rest := Removed(keys[1..], i - 1);
      assert Removed(keys, i) == [keys[0]] + rest;
      MapFirst([keys[0]] + rest);
      assert ([keys[0]] + rest)[1..] == rest;
    }
  }

  lemma MapFirst(keys: seq<Entry>)
    requires keys != []
    ensures AsMap(keys) == AsMap(keys[1..])[KeyId(keys[0].id) := keys[0]]
  {
  }

  lemma FirstIsOnly(keys: seq<Entry>)
    requires Distinct(keys) && keys != []
    ensures !Has(keys[1..], keys[0].id)
  {
    var rest := keys[1..];
    assert forall j :: 0 <= j < |rest| ==> rest[j] == keys[1 + j];
  }

  // ---- Runs ----

  datatype Op =
    | AddKey(keyType: int, system: int, name: Text, email: Text, description: Text, key: seq<bv8>, memory: bool)
    | DeleteKey(id: bv32)

  function Step(r: Ring, op: Op): Ring {
    match op
    case AddKey(t, s, n, e, d, k, memory) =>
      if Answer(r, t, s, n, e, d, memory) == CryptOk then Ring(r.keys + [Stored(t, s, n, e, d, k)], true) else r
    case DeleteKey(id) =>
      if Has(r.keys, id) then Ring(Removed(r.keys, IndexOf(r.keys, id)), r.open) else Ring(r.keys, false)
  }

  // What an operation is meant to do to a map from IDs to keys
  function MapStep(m: map<KeyId, Entry>, op: Op): map<KeyId, Entry> {
    match op
    case AddKey(t, s, n, e, d, k, memory) =>
      if IsKeyType(t) && IsSystem(s) && KeyId(Id(n, e, d)) !in m && memory
      then m[KeyId(Id(n, e, d)) := Stored(t, s, n, e, d, k)]
      else m
    case DeleteKey(id) => m - {KeyId(id)}
  }

  function Run(r: Ring, ops: seq<Op>): Ring
    decreases |ops|
  {
    if ops == [] then r else Run(Step(r, ops[0]), ops[1..])
  }

  function MapRun(m: map<KeyId, Entry>, ops: seq<Op>): map<KeyId, Entry>
    decreases |ops|
  {
    if ops == [] then m else MapRun(MapStep(m, ops[0]), ops[1..])
  }

  // Every ID stands for the strings beside it, and no ID twice; one empty node ends
  // the list.
  ghost predicate Good(r: Ring) {
    && r.open && Distinct(r.keys)
    && forall e :: e in r.keys ==> IsSystem(e.system) && e.id == Id(e.name, e.email, e.description)
  }

  // Strings that the arrays hold whole, and deletions of keys that are there
  predicate LegalOp(r: Ring, op: Op) {
    match op
    case AddKey(_, _, n, e, d, _, _) => |n| < MAXLEN && |e| < MAXLEN && |d| < MAXLEN
    case DeleteKey(id) => Has(r.keys, id)
  }

  predicate Legal(r: Ring, ops: seq<Op>)
    decreases |ops|
  {
    ops == [] || (LegalOp(r, ops[0]) && Legal(Step(r, ops[0]), ops[1..]))
  }

  lemma AddDistinct(keys: seq<Entry>, e: Entry)
    requires Distinct(keys)
    ensures Distinct(keys + [e]) <==> !Has(keys, e.id)
  {
    var i := IndexOf(keys, e.id);
    assert (keys + [e])[|keys|] == e;
    if i < |keys| {
      assert (keys + [e])[i] == keys[i];
    }
  }

  lemma StoredWhole(t: int, s: int, n: Text, e: Text, d: Text, k: seq<bv8>)
    requires |n| < MAXLEN && |e| < MAXLEN && |d| < MAXLEN
    ensures Stored(t, s, n, e, d, k) == Entry(t, s, n, e, d, Id(n, e, d), k)
  {
    assert forall x: Text :: |x| < MAXLEN ==> x == x[..|x|];
    assert forall x: Text :: |x| < MAXLEN ==> Cut(x, MAXLEN - 1) == x;
  }

  lemma StepKeeps(r: Ring, op: Op)
    requires Good(r) && LegalOp(r, op)
    ensures Good(Step(r, op)) && AsMap(Step(r, op).keys) == MapStep(AsMap(r.keys), op)
  {
    hide Id, AsMap, IndexOf, Stored;
    match op
    case AddKey(t, s, n, e, d, k, memory) =>
      var entry := Stored(t, s, n, e, d, k);
      StoredWhole(t, s, n, e, d, k);
      MapLookup(r.keys, entry.id);
      if Answer(r, t, s, n, e, d, memory) == CryptOk {
        AddDistinct(r.keys, entry);
        MapAppend(r.keys, entry);
      }
    case DeleteKey(id) =>
      var i := IndexOf(r.keys, id);
      Leftover(r.keys, i);
      MapRemove(r.keys, i);
      MapLookup(r.keys, id);
  }

  // Over every run the list stays a finite map from IDs to keys.
  lemma {:induction false} RunKeeps(r: Ring, ops: seq<Op>)
    requires Good(r) && Legal(r, ops)
    ensures Good(Run(r, ops)) && AsMap(Run(r, ops).keys) == MapRun(AsMap(r.keys), ops)
    decreases |ops|
  {
    if ops != [] {
      hide Good, LegalOp, AsMap, Step, MapStep;
      StepKeeps(r, ops[0]);
      RunKeeps(Step(r, ops[0]), ops[1..]);
    }
  }

  // An addition keeps a good ring good exactly when it is refused or no key has the ID
  // of the strings as cut to the arrays, which is not the ID it looks for when one of
  // them is longer.
  lemma AddKeeps(r: Ring, t: int, s: int, n: Text, e: Text, d: Text, k: seq<bv8>, memory: bool)
    requires Good(r)
    ensures var next := Step(r, AddKey(t, s, n, e, d, k, memory));
      && (Good(next) <==> Distinct(next.keys))
      && (Good(next) <==> Answer(r, t, s, n, e, d, memory) != CryptOk
                          || !Has(r.keys, Id(Cut(n, MAXLEN - 1), Cut(e, MAXLEN - 1), Cut(d, MAXLEN - 1))))
  {
    hide Id, IndexOf, Cut, Has;
    var entry := Stored(t, s, n, e, d, k);
    AddDistinct(r.keys, entry);
  }

  // A deletion keeps a good ring good exactly when the ID is there.
  lemma DeleteKeeps(r: Ring, id: bv32)
    requires Good(r)
    ensures Good(Step(r, DeleteKey(id))) <==> Has(r.keys, id)
  {
    hide Id;
    if Has(r.keys, id) {
      Leftover(r.keys, IndexOf(r.keys, id));
    }
  }

  // Every deletion of a run finds its key.
  predicate AllFound(r: Ring, ops: seq<Op>)
    decreases |ops|
  {
    ops == [] || ((ops[0].DeleteKey? ==> Has(r.keys, ops[0].id)) && AllFound(Step(r, ops[0]), ops[1..]))
  }

  // The empty node is there after a run exactly when it was there before and no
  // deletion missed its key: once gone it never comes back.
  lemma {:induction false} RunOpen(r: Ring, ops: seq<Op>)
    ensures Run(r, ops).open <==> r.open && AllFound(r, ops)
    ensures !r.open ==> forall t, s, n, e, d, memory :: Answer(Run(r, ops), t, s, n, e, d, memory) != CryptOk
    decreases |ops|
  {
    if ops != [] {
      hide IndexOf, Id, Stored;
      RunOpen(Step(r, ops[0]), ops[1..]);
    }
  }

  // A name of 256 bytes can get past the search for duplicates: of two such names
  // that differ in the last byte, one at least does.
  lemma LongNamesCollide(r: Ring, name: Text, b: bv8, b': bv8, k: seq<bv8>)
    requires |name| == 255 && b != b'
    requires r == Ring([Stored(PK_PUBLIC, RSA_KEY, name, [], [], k)], true)
    ensures Answer(r, PK_PUBLIC, RSA_KEY, name + [b], [], [], true) == CryptOk
         || Answer(r, PK_PUBLIC, RSA_KEY, name + [b'], [], [], true) == CryptOk
    ensures !Distinct(r.keys + [Stored(PK_PUBLIC, RSA_KEY, name + [b], [], [], k)])
    ensures !Distinct(r.keys + [Stored(PK_PUBLIC, RSA_KEY, name + [b'], [], [], k)])
  {
    hide Crc;
    forall x | x in {b, b'}
      ensures Cut(name + [x], MAXLEN) + [] + [] == name + [x]
      ensures Stored(PK_PUBLIC, RSA_KEY, name + [x], [], [], k) == r.keys[0]
    {
      assert (name + [x])[..255] == name && (name + [x])[..256] == name + [x] && name[..255] == name;
    }
    if Id(name + [b], [], []) == Id(name + [b'], [], []) {
      LastByteCounts(0, name, b, b');
    }
    AddDistinct(r.keys, r.keys[0]);
  }

  // ---- The list ----

  class PkKey {
    var keyType: int
    var system: int
    var name: Text
    var email: Text
    var description: Text
    var ID: bv32
    var key: seq<bv8>
    var next: PkKey?

    // A zeroed node
    constructor ()
      ensures system == NON_KEY && next == null
    {
      keyType, system, ID := 0, NON_KEY, 0;
      name, email, description, key := [], [], [], [];
      next := null;
    }

    function AsEntry(): Entry
      reads this
    {
      Entry(keyType, system, name, email, description, ID, key)
    }
  }

  class KeyRing {
    var head: PkKey?
    ghost var nodes: seq<PkKey>
    ghost var ring: Ring

    ghost function Repr(): set<PkKey>
      reads this
    {
      set n | n in nodes
    }

    ghost function Following(ns: seq<PkKey>, i: int): PkKey?
      requires 0 <= i < |ns|
    {
      if i + 1 < |ns| then ns[i + 1] else null
    }

    lemma SkipsOne(ns: seq<PkKey>, i: int)
      requires 0 < i < |ns|
      ensures var r := ns[..i] + ns[i + 1..];
        && |r| == |ns| - 1 && r[i - 1] == ns[i - 1] && Following(r, i - 1) == Following(ns, i)
        && (forall j :: 0 <= j < i - 1 ==> r[j] == ns[j] && Following(r, j) == Following(ns, j))
        && (forall j :: i <= j < |r| ==> r[j] == ns[j + 1] && Following(r, j) == Following(ns, j + 1))
    {
    }

    ghost predicate Chained()
      reads this, Repr()
    {
      && head == (if nodes == [] then null else nodes[0])
      && (forall i, j :: 0 <= i < j < |nodes| ==> nodes[i] != nodes[j])
      && (forall i {:trigger nodes[i].next} :: 0 <= i < |nodes| ==> nodes[i].next == Following(nodes, i))
    }

    // The nodes form a chain without cycles. All of them hold the keys of the ring,
    // but for the last one when the ring is open.
    ghost predicate Valid()
      reads this, Repr()
    {
      && Chained()
      && |nodes| == |ring.keys| + (if ring.open then 1 else 0)
      && (forall i :: 0 <= i < |ring.keys| ==> nodes[i].AsEntry() == ring.keys[i] && nodes[i].system != NON_KEY)
      && (ring.open ==> nodes[|ring.keys|].system == NON_KEY)
    }

    // kr_init; without memory there is no ring.
    method Init(memory: bool) returns (res: Status)
      modifies this
      ensures res == if memory then CryptOk else CryptMem
      ensures memory ==> Valid() && ring == Ring([], true) && fresh(Repr())
      ensures !memory ==> head == null
    {
      if !memory {
        head := null;
        return CryptMem;
      }
      head := new PkKey();
      nodes := [head];
      ring := Ring([], true);
      return CryptOk;
    }

    method Find(id: bv32) returns (found: PkKey?)
      requires Valid()
      ensures found == if Has(ring.keys, id) then nodes[IndexOf(ring.keys, id)] else null
      ensures found != null ==> found.AsEntry() == ring.keys[IndexOf(ring.keys, id)]
    {
      hide IndexOf;
      ghost var at, i := IndexOf(ring.keys, id), 0;
      found := head;
      while found != null
        invariant 0 <= i <= |nodes| && found == (if i < |nodes| then nodes[i] else null)
        invariant i <= at || at == |ring.keys|
        decreases |nodes| - i
      {
        if found.system != NON_KEY && found.ID == id {
          assert ring.keys[i].id == id;
          return;
        }
        found := found.next;
        i := i + 1;
      }
    }

    // The empty node, if the list has one
    method Spot() returns (pk: PkKey?)
      requires Valid() && head != null
      ensures pk == if ring.open then nodes[|ring.keys|] else null
    {
      pk := head;
      ghost var i := 0;
      while pk.system != NON_KEY
        invariant 0 <= i < |nodes| && pk == nodes[i]
        decreases |nodes| - i
      {
        assert nodes[i].next == Following(nodes, i);
        if pk.next == null {
          return null;
        }
        pk := pk.next;
        i := i + 1;
      }
    }

    method IsDuplicate(name: Text, email: Text, description: Text) returns (dup: bool)
      requires Valid()
      ensures dup == Has(ring.keys, Id(name, email, description))
    {
      hide IndexOf, Id;
      var crc := KrCrc(name, email, description);
      var found := Find(crc);
      dup := found != null;
    }

    method Add(keyType: int, sys: int, name: Text, email: Text, description: Text, key: seq<bv8>, memory: bool)
      returns (res: Status)
      requires Valid() && head != null
      modifies this, Repr()
      ensures Valid() && head == old(head)
      ensures res == Answer(old(ring), keyType, sys, name, email, description, memory)
      ensures ring == Step(old(ring), AddKey(keyType, sys, name, email, description, key, memory))
      ensures fresh(Repr() - old(Repr()))
    {
      hide IndexOf, Id, Stored;
      if keyType != PK_PRIVATE && keyType != PK_PRIVATE_OPTIMIZED && keyType != PK_PUBLIC {
        return CryptPkInvalidType;
      }
      if sys != RSA_KEY && sys != DH_KEY && sys != ECC_KEY {
        return CryptPkInvalidSystem;
      }
      var dup := IsDuplicate(name, email, description);
      if dup {
        return CryptPkDup;
      }
      res := Place(keyType, sys, name, email, description, key, memory);
    }

    method Place(keyType: int, sys: int, name: Text, email: Text, description: Text, key: seq<bv8>, memory: bool)
      returns (res: Status)
      requires Valid() && head != null && sys != NON_KEY
      modifies this, Repr()
      ensures Valid() && head == old(head) && fresh(Repr() - old(Repr()))
      ensures res == if !old(ring.open) then CryptError else if !memory then CryptMem else CryptOk
      ensures ring == if res == CryptOk
                      then Ring(old(ring.keys) + [Stored(keyType, sys, name, email, description, key)], true)
                      else old(ring)
    {
      hide Stored;
      var pk := Spot();
      if pk == null {
        return CryptError;
      }
      if !memory {
        pk.next := null;
        return CryptMem;
      }
      Append(pk, keyType, sys, name, email, description, key);
      return CryptOk;
    }

    // The empty node takes the key, and a new empty node follows it.
    method Append(pk: PkKey, keyType: int, sys: int, name: Text, email: Text, description: Text, key: seq<bv8>)
      requires Valid() && ring.open && pk == nodes[|ring.keys|] && sys != NON_KEY
      modifies this, Repr()
      ensures Valid() && head == old(head)
      ensures ring == Ring(old(ring.keys) + [Stored(keyType, sys, name, email, description, key)], true)
      ensures fresh(Repr() - old(Repr()))
    {
      hide Cut, Id;
      pk.next := new PkKey();
      pk.next.system := NON_KEY;
      Fill(pk, keyType, sys, name, email, description, key);
      nodes := nodes + [pk.next];
      ring := Ring(ring.keys + [pk.AsEntry()], true);
    }

    method Fill(pk: PkKey, keyType: int, sys: int, name: Text, email: Text, description: Text, key: seq<bv8>)
      modifies pk
      ensures pk.AsEntry() == Stored(keyType, sys, name, email, description, key) && pk.next == old(pk.next)
    {
      hide Id;
      pk.keyType := keyType;
      pk.system := sys;
      pk.name := Cut(name, MAXLEN - 1);
      pk.email := Cut(email, MAXLEN - 1);
      pk.description := Cut(description, MAXLEN - 1);
      pk.ID := KrCrc(pk.name, pk.email, pk.description);
      pk.key := key;
    }

    // A missing ID costs an open ring its empty node.
    method Delete(id: bv32) returns (res: Status)
      requires Valid() && head != null
      modifies this, Repr()
      ensures Valid()
      ensures res == if Has(old(ring.keys), id) || old(ring.open) then CryptOk else CryptPkNotFound
      ensures ring == Step(old(ring), DeleteKey(id))
      ensures Repr() <= old(Repr())
    {
      hide IndexOf;
      var pk, ppk: PkKey? := head, null;
      ghost var i, at := 0, IndexOf(ring.keys, id);
      while pk.system != NON_KEY && pk.ID != id
        invariant Valid() && 0 <= i <= at && i < |nodes| && pk == nodes[i]
        invariant ppk == (if i == 0 then null else nodes[i - 1])
        decreases |nodes| - i
        modifies {}
      {
        assert nodes[i].next == Following(nodes, i);
        assert i < |ring.keys| && ring.keys[i].id == pk.ID;
        ppk := pk;
        pk := pk.next;
        i := i + 1;
        if pk == null {
          return CryptPkNotFound;
        }
      }
      if ppk == null {
        UnlinkFirst(pk);
      } else {
        UnlinkAfter(ppk, pk, i);
      }
      return CryptOk;
    }

    method UnlinkFirst(pk: PkKey)
      requires Valid() && nodes != [] && pk == nodes[0]
      modifies this
      ensures Valid() && Repr() <= old(Repr())
      ensures ring == if old(ring.keys) != [] then Ring(Removed(old(ring.keys), 0), old(ring.open)) else Ring([], false)
    {
      assert pk.next == Following(nodes, 0);
      head := pk.next;
      nodes := nodes[1..];
      ring := if ring.keys != [] then Ring(Removed(ring.keys, 0), ring.open) else Ring([], false);
    }

    method UnlinkAfter(ppk: PkKey, pk: PkKey, ghost i: nat)
      requires Valid() && 0 < i < |nodes| && ppk == nodes[i - 1] && pk == nodes[i]
      modifies this, ppk
      ensures Valid() && Repr() <= old(Repr())
      ensures ring == if i < |old(ring.keys)| then Ring(Removed(old(ring.keys), i), old(ring.open))
                      else Ring(old(ring.keys), false)
    {
      hide Following, Removed;
      ghost var was, keys := nodes, ring.keys;
      assert pk.next == Following(was, i);
      ppk.next := pk.next;
      assert forall j :: 0 <= j < |keys| ==> was[j].AsEntry() == keys[j] && was[j].system != NON_KEY;
      assert forall j :: 0 <= j < |was| && j != i - 1 ==> was[j].next == Following(was, j);
      SkipsOne(was, i);
      Leftover(keys, i);
      nodes := was[..i] + was[i + 1..];
      ring := if i < |keys| then Ring(Removed(keys, i), ring.open) else Ring(keys, false);
    }

    method Clear() returns (res: Status)
      requires Valid() && ring.open
      modifies this, Repr()
      ensures res == CryptOk && head == null
    {
      while head.system != NON_KEY
        invariant Valid() && ring.open
        invariant Repr() <= old(Repr())
        decreases |nodes|
      {
        res := Delete(head.ID);
        if res != CryptOk {
          return;
        }
      }
      head := null;
      nodes, ring := [], Ring([], false);
      return CryptOk;
    }
  }
}
