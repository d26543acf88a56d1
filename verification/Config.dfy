/** The stored key file, after src/config.rs and src/key/ser.rs. */
module Config {
  import opened Wrappers
  import opened Wire
  import opened Keys
  import opened Sequences

  datatype KeyType = RSA

  /** One table of the file: the key's name, its type and its PEM text. */
  datatype Entry = Entry(name: Bytes, keyType: KeyType, data: Bytes)

  /** The file, as the ordered tables its text holds. `Garbled` text is not a key file. */
  datatype StoredFile = Missing | Tables(entries: seq<Entry>) | Garbled

  /**
   How one `save` goes. The file is truncated before it is written, so a failed write may leave
   anything behind, while a file that could not be created is left alone.
   */
  datatype SaveOutcome = Saved | CreateFailed | WriteFailed(left: StoredFile)

  function Serialize(c: Crypto, keys: seq<KeyPair>): (entries: seq<Entry>)
    ensures |entries| == |keys|
    ensures forall i :: 0 <= i < |keys| ==> entries[i].name == keys[i].name
  {
    if keys == [] then []
    else [Entry(keys[0].name, RSA, c.toPem(keys[0].private))] + Serialize(c, keys[1..])
  }

  function Deserialize(c: Crypto, entries: seq<Entry>): (keys: Option<seq<KeyPair>>)
    ensures keys.Some? ==> |keys.value| == |entries| && Coherent(keys.value)
    ensures keys.Some? ==> forall i :: 0 <= i < |entries| ==> keys.value[i].name == entries[i].name
  {
    if entries == [] then Some([])
    else
      match c.fromPem(entries[0].data)
      case None => None
      case Some(private) =>
        match Deserialize(c, entries[1..])
        case None => None
        case Some(rest) => Some([NewPair(private, entries[0].name)] + rest)
  }

  /** TOML rejects a file that defines the same table twice. */
  predicate DistinctTables(entries: seq<Entry>) {
    forall i, j :: 0 <= i < j < |entries| ==> entries[i].name != entries[j].name
  }

  predicate DistinctNames(keys: seq<KeyPair>) {
    forall i, j :: 0 <= i < j < |keys| ==> keys[i].name != keys[j].name
  }

  /** Every public half is the public part of its private half. */
  predicate Coherent(keys: seq<KeyPair>) {
    forall i :: 0 <= i < |keys| ==> keys[i].public == Public(keys[i].private)
  }

  /** `load_config`: a missing file is an empty list; `readable` is false when opening or reading fails otherwise. */
  function Load(c: Crypto, file: StoredFile, readable: bool): (keys: Option<seq<KeyPair>>)
    ensures keys.Some? ==> Coherent(keys.value)
    ensures keys.Some? ==> DistinctNames(keys.value)
  {
    match file
    case Missing => Some([])
    case Garbled => None
    case Tables(entries) => if readable && DistinctTables(entries) then Deserialize(c, entries) else None
  }

  function FileAfterSave(c: Crypto, file: StoredFile, keys: seq<KeyPair>, outcome: SaveOutcome): StoredFile {
    match outcome
    case Saved => Tables(Serialize(c, keys))
    case CreateFailed => file
    case WriteFailed(left) => left
  }

  lemma {:induction false} DeserializeSerialize(c: Crypto, keys: seq<KeyPair>)
    requires c.PemRoundTrips()
    ensures Deserialize(c, Serialize(c, keys)).Some?
    ensures var loaded := Deserialize(c, Serialize(c, keys)).value;
            && |loaded| == |keys|
            && forall i :: 0 <= i < |keys| ==> loaded[i] == NewPair(keys[i].private, keys[i].name)
  {
    if keys != [] {
      var entries := Serialize(c, keys);
      assert entries[1..] == Serialize(c, keys[1..]);
      DeserializeSerialize(c, keys[1..]);
      assert c.fromPem(c.toPem(keys[0].private)) == Some(keys[0].private);
    }
  }

  /** A saved list loads back to itself exactly when its names are distinct and its public halves are right. */
  lemma LoadAfterSave(c: Crypto, keys: seq<KeyPair>, before: StoredFile)
    requires c.PemRoundTrips()
    ensures Load(c, FileAfterSave(c, before, keys, Saved), true) == Some(keys)
            <==> DistinctNames(keys) && Coherent(keys)
  {
    DeserializeSerialize(c, keys);
    var entries := Serialize(c, keys);
    var loaded := Deserialize(c, entries).value;
    if DistinctNames(keys) && Coherent(keys) {
      assert loaded == keys;
    }
  }

  // ------------------------------------------------------------ the objects

  class Disk {
    var file: StoredFile

    constructor (file: StoredFile)
      ensures this.file == file
    {
      this.file := file;
    }
  }

  method SerializeKeyPairs(c: Crypto, keys: seq<KeyPair>) returns (entries: seq<Entry>)
    ensures entries == Serialize(c, keys)
  {
    entries := [];
    for i := 0 to |keys|
      invariant Serialize(c, keys) == entries + Serialize(c, keys[i..])
    {
      TailOfDrop(keys, i);
      entries := entries + [Entry(keys[i].name, RSA, c.toPem(keys[i].private))];
    }
  }

  ghost function Prepend(v: seq<KeyPair>, rest: Option<seq<KeyPair>>): Option<seq<KeyPair>> {
    match rest
    case None => None
    case Some(keys) => Some(v + keys)
  }

  method DeserializeKeyPairs(c: Crypto, entries: seq<Entry>) returns (keys: Option<seq<KeyPair>>)
    ensures keys == Deserialize(c, entries)
  {
    var v: seq<KeyPair> := [];
    var i := 0;
    ghost var all := Deserialize(c, entries);
    assert entries[0..] == entries;
    Unit(if all.Some? then all.value else []);
    while i < |entries|
      invariant 0 <= i <= |entries|
      invariant Deserialize(c, entries) == Prepend(v, Deserialize(c, entries[i..]))
    {
      TailOfDrop(entries, i);
      var private := c.fromPem(entries[i].data);
      if private.None? {
        return None;
      }
      var pair := NewPair(private.value, entries[i].name);
      ghost var rest := Deserialize(c, entries[i + 1..]);
      Assoc(v, [pair], if rest.Some? then rest.value else []);
      v := v + [pair];
      i := i + 1;
    }
    Unit(v);
    keys := Some(v);
  }

  method LoadConfig(c: Crypto, disk: Disk, readable: bool) returns (keys: Option<seq<KeyPair>>)
    ensures keys == Load(c, disk.file, readable)
  {
    match disk.file {
      case Missing => return Some([]);
      case Garbled => return None;
      case Tables(entries) =>
        if !readable || !DistinctTables(entries) {
          return None;
        }
        keys := DeserializeKeyPairs(c, entries);
    }
  }

  class KeyConfig {
    var keys: seq<KeyPair>
    const disk: Disk

    constructor (keys: seq<KeyPair>, disk: Disk)
      ensures this.keys == keys && this.disk == disk
    {
      this.keys, this.disk := keys, disk;
    }

    method Save(c: Crypto, outcome: SaveOutcome) returns (ok: bool)
      modifies disk
      ensures ok == outcome.Saved?
      ensures disk.file == FileAfterSave(c, old(disk.file), keys, outcome)
    {
      match outcome {
        case CreateFailed => return false;
        case WriteFailed(left) =>
          disk.file := left;
          return false;
        case Saved =>
          var entries := SerializeKeyPairs(c, keys);
          disk.file := Tables(entries);
          return true;
      }
    }

    /** Replaces the key list by the stored one; on any failure the list stays as it is. */
    method Reload(c: Crypto, readable: bool) returns (ok: bool)
      modifies this
      ensures ok == Load(c, disk.file, readable).Some?
      ensures keys == if ok then Load(c, disk.file, readable).value else old(keys)
    {
      var loaded := LoadConfig(c, disk, readable);
      ok := loaded.Some?;
      if ok {
        keys := loaded.value;
      }
    }
  }
}
