/** The two-tier time-to-live cache of `src/utils/cacheManager.ts`: an
    in-memory map from key to entry, backed by one JSON file per key in a
    cache directory. The clock (`Date.now()`), the directory listing and the
    success of each file-system call are parameters. */
module CacheManager {
  import opened Wrappers
  import opened Json

  /** A cached value and its absolute expiry, in milliseconds. */
  datatype Entry = Entry(value: Json, expiry: int)

  /** A file of the cache directory as `get` reads it back: an entry, or a
      file whose reading or `JSON.parse` throws. */
  datatype DiskFile = Stored(entry: Entry) | Corrupt

  /** Both tiers: the memory map by key, the directory's files by name. */
  datatype Tiers = Tiers(mem: map<string, Entry>, disk: map<string, DiskFile>)

  /** The name of a key's file: the raw key followed by ".json". */
  function FileName(key: string): string {
    key + ".json"
  }

  /** Distinct keys never share a file. */
  lemma FileNameInjective(a: string, b: string)
    ensures FileName(a) == FileName(b) ==> a == b
  {
    if FileName(a) == FileName(b) {
      assert |a| == |b|;
      assert a == FileName(a)[..|a|] && b == FileName(b)[..|b|];
    }
  }

  function ExpiryOf(now: int, ttlSeconds: int): int {
    now + ttlSeconds * 1000
  }

  /** What `get(key)` at time `now` returns, and the tiers afterwards.
      `unlinkOk` says whether unlinking an expired file succeeds. */
  function GetSpec(t: Tiers, key: string, now: int, unlinkOk: bool): (out: (Option<Json>, Tiers))
    // a memory hit only when the entry expires strictly after now
    ensures key in t.mem && t.mem[key].expiry > now ==> out == (Some(t.mem[key].value), t)
    // an expired memory entry is gone afterwards, and fresh disk entries are the only other source
    ensures key in t.mem && t.mem[key].expiry <= now ==>
      out.0.Some? ==> FileName(key) in t.disk && t.disk[FileName(key)].Stored? &&
                      t.disk[FileName(key)].entry.expiry > now
    ensures out.0.Some? && !(key in t.mem && t.mem[key].expiry > now) ==>
      FileName(key) in t.disk && t.disk[FileName(key)].Stored? &&
      var e := t.disk[FileName(key)].entry;
      e.expiry > now && out.0.value == e.value && key in out.1.mem && out.1.mem[key] == e
    // a miss leaves no memory entry for the key
    ensures out.0.None? ==> key !in out.1.mem
    // an unexpired file is served, promoted with its expiry, and stays on disk
    ensures !(key in t.mem && t.mem[key].expiry > now) && FileName(key) in t.disk &&
            t.disk[FileName(key)].Stored? && t.disk[FileName(key)].entry.expiry > now ==>
      out == (Some(t.disk[FileName(key)].entry.value),
              Tiers((t.mem - {key})[key := t.disk[FileName(key)].entry], t.disk))
    // an expired file misses and goes exactly when the unlink succeeds
    ensures !(key in t.mem && t.mem[key].expiry > now) && FileName(key) in t.disk &&
            t.disk[FileName(key)].Stored? && t.disk[FileName(key)].entry.expiry <= now ==>
      out.0 == None && (FileName(key) in out.1.disk <==> !unlinkOk)
    // a missing or corrupt file misses and the directory is left as it is
    ensures !(key in t.mem && t.mem[key].expiry > now) &&
            (FileName(key) !in t.disk || t.disk[FileName(key)].Corrupt?) ==>
      out.0 == None && out.1.disk == t.disk
    // an unexpired memory entry is never dropped, no other key changes, and no file appears
    ensures out.1.mem - {key} == t.mem - {key}
    ensures out.1.disk - {FileName(key)} == t.disk - {FileName(key)}
    ensures out.1.disk.Keys <= t.disk.Keys
  {
    if key in t.mem && t.mem[key].expiry > now then
      (Some(t.mem[key].value), t)
    else
      var mem := t.mem - {key};
      var name := FileName(key);
      if name !in t.disk then (None, Tiers(mem, t.disk))
      else match t.disk[name]
        case Corrupt => (None, Tiers(mem, t.disk))
        case Stored(e) =>
          if e.expiry > now then (Some(e.value), Tiers(mem[key := e], t.disk))
          else (None, Tiers(mem, if unlinkOk then t.disk - {name} else t.disk))
  }

  /** The tiers after `set(key, value, ttlSeconds)` at time `now`; `writeOk`
      says whether the file write succeeds. */
  function SetSpec(t: Tiers, key: string, value: Json, ttlSeconds: int, now: int, writeOk: bool): (out: Tiers)
    // the memory write happens whether or not the file write fails
    ensures key in out.mem && out.mem[key] == Entry(value, ExpiryOf(now, ttlSeconds))
    ensures writeOk ==> FileName(key) in out.disk &&
                        out.disk[FileName(key)] == Stored(Entry(value, ExpiryOf(now, ttlSeconds)))
    ensures !writeOk ==> out.disk == t.disk
    ensures out.mem - {key} == t.mem - {key}
    ensures out.disk - {FileName(key)} == t.disk - {FileName(key)}
  {
    var e := Entry(value, ExpiryOf(now, ttlSeconds));
    Tiers(t.mem[key := e], if writeOk then t.disk[FileName(key) := Stored(e)] else t.disk)
  }

  /** The tiers after `delete(key)`; `unlinkOk` says whether the unlink succeeds. */
  function DeleteSpec(t: Tiers, key: string, unlinkOk: bool): (out: Tiers)
    ensures key !in out.mem
    ensures unlinkOk ==> FileName(key) !in out.disk
    ensures out.mem - {key} == t.mem - {key}
    ensures out.disk - {FileName(key)} == t.disk - {FileName(key)}
    ensures out.disk.Keys <= t.disk.Keys
  {
    var name := FileName(key);
    Tiers(t.mem - {key}, if name in t.disk && unlinkOk then t.disk - {name} else t.disk)
  }

  /** The set of the first `n` names of a listing. */
  function Listed(listing: seq<string>, n: nat): set<string>
    requires n <= |listing|
  {
    set i | 0 <= i < n :: listing[i]
  }

  function Min(a: nat, b: nat): nat {
    if a <= b then a else b
  }

  /** The tiers after `clear()`, given the directory listing in the order
      `readdirSync` returns it and the index of the first unlink that throws
      (`failAt >= |listing|` when none does). */
  function ClearSpec(t: Tiers, listing: seq<string>, failAt: nat): (out: Tiers)
    ensures out.mem == map[]
    ensures out.disk.Keys <= t.disk.Keys
    ensures forall i :: 0 <= i < |listing| && i < failAt ==> listing[i] !in out.disk
    ensures forall name :: name in out.disk ==> out.disk[name] == t.disk[name]
  {
    Tiers(map[], t.disk - Listed(listing, Min(failAt, |listing|)))
  }

  /** The cache object: its two tiers are the fields `get`, `set`,
      `delete` and `clear` update. */
  class Cache {
    var mem: map<string, Entry>
    var disk: map<string, DiskFile>

    /** A new cache starts with an empty memory tier over whatever files the
        directory already holds. */
    constructor (files: map<string, DiskFile>)
      ensures mem == map[] && disk == files
    {
      mem := map[];
      disk := files;
    }

    function State(): Tiers
      reads this
    {
      Tiers(mem, disk)
    }

    method Get(key: string, now: int, unlinkOk: bool) returns (r: Option<Json>)
      modifies this
      ensures (r, State()) == GetSpec(old(State()), key, now, unlinkOk)
    {
      if key in mem {
        if mem[key].expiry > now {
          return Some(mem[key].value);
        }
        mem := mem - {key};
      }
      assert mem == old(mem) - {key};
      var name := FileName(key);
      if name in disk {
        match disk[name]
        case Corrupt =>
        case Stored(e) =>
          if e.expiry > now {
            mem := mem[key := e];
            return Some(e.value);
          }
          if unlinkOk {
            disk := disk - {name};
          }
      }
      r := None;
    }

    method Set(key: string, value: Json, ttlSeconds: int, now: int, writeOk: bool)
      modifies this
      ensures State() == SetSpec(old(State()), key, value, ttlSeconds, now, writeOk)
    {
      var expiry := now + ttlSeconds * 1000;
      mem := mem[key := Entry(value, expiry)];
      if writeOk {
        disk := disk[FileName(key) := Stored(Entry(value, expiry))];
      }
    }

    method Delete(key: string, unlinkOk: bool)
      modifies this
      ensures State() == DeleteSpec(old(State()), key, unlinkOk)
    {
      mem := mem - {key};
      var name := FileName(key);
      if name in disk && unlinkOk {
        disk := disk - {name};
      }
    }

    method Clear(listing: seq<string>, failAt: nat)
      modifies this
      ensures State() == ClearSpec(old(State()), listing, failAt)
    {
      mem := map[];
      var i := 0;
      while i < |listing| && i < failAt
        invariant i <= |listing| && i <= failAt
        invariant mem == map[]
        invariant disk == old(disk) - Listed(listing, i)
      {
        assert Listed(listing, i + 1) == Listed(listing, i) + {listing[i]};
        disk := disk - {listing[i]};
        i := i + 1;
      }
    }
  }

  /** A value set with a positive time to live is served by `get` at any
      time before its expiry. */
  lemma SetThenGet(t: Tiers, key: string, v: Json, ttlSeconds: int, now: int, writeOk: bool,
                   later: int, unlinkOk: bool)
    requires later < ExpiryOf(now, ttlSeconds)
    ensures GetSpec(SetSpec(t, key, v, ttlSeconds, now, writeOk), key, later, unlinkOk).0 == Some(v)
  {
    var s := SetSpec(t, key, v, ttlSeconds, now, writeOk);
    assert key in s.mem && s.mem[key].expiry > later;
  }

  /** Once the memory tier is lost (a new process), a successfully written
      value is still served from its file until it expires, and is promoted
      back into memory with the same expiry. */
  lemma SetThenGetAfterRestart(t: Tiers, key: string, v: Json, ttlSeconds: int, now: int,
                               later: int, unlinkOk: bool)
    requires later < ExpiryOf(now, ttlSeconds)
    ensures var disk := SetSpec(t, key, v, ttlSeconds, now, true).disk;
            GetSpec(Tiers(map[], disk), key, later, unlinkOk) ==
              (Some(v), Tiers(map[key := Entry(v, ExpiryOf(now, ttlSeconds))], disk))
  {
    var e := Entry(v, ExpiryOf(now, ttlSeconds));
    assert (map[] - {key})[key := e] == map[key := e];
  }

  /** At or after the expiry both tiers have expired: `get` misses, the
      memory entry is dropped and the file is unlinked when unlinking succeeds. */
  lemma SetThenGetExpired(t: Tiers, key: string, v: Json, ttlSeconds: int, now: int,
                          later: int, unlinkOk: bool)
    requires later >= ExpiryOf(now, ttlSeconds)
    ensures var s := SetSpec(t, key, v, ttlSeconds, now, true);
            var out := GetSpec(s, key, later, unlinkOk);
            out.0 == None && key !in out.1.mem &&
            (unlinkOk ==> FileName(key) !in out.1.disk)
  {
    var s := SetSpec(t, key, v, ttlSeconds, now, true);
    assert key in s.mem && s.mem[key].expiry <= later;
    assert s.disk[FileName(key)].entry.expiry <= later;
  }

  /** Because a failed file write is swallowed, an older file can outlive a
      newer memory entry: once the newer entry expires, `get` serves the
      older value again from disk. */
  lemma StaleFileResurfaces(t: Tiers, key: string, old1: Json, ttl1: int, v: Json, ttl2: int,
                            now: int, later: int, unlinkOk: bool)
    requires ExpiryOf(now, ttl2) <= later < ExpiryOf(now, ttl1)
    ensures var s1 := SetSpec(t, key, old1, ttl1, now, true);
            var s2 := SetSpec(s1, key, v, ttl2, now, false);
            GetSpec(s2, key, later, unlinkOk).0 == Some(old1)
  {
    var s1 := SetSpec(t, key, old1, ttl1, now, true);
    var s2 := SetSpec(s1, key, v, ttl2, now, false);
    assert s2.mem[key].expiry <= later;
    assert s2.disk[FileName(key)] == Stored(Entry(old1, ExpiryOf(now, ttl1)));
  }

  /** A corrupt file yields a miss and is left in place. */
  lemma CorruptFileKept(t: Tiers, key: string, now: int, unlinkOk: bool)
    requires !(key in t.mem && t.mem[key].expiry > now)
    requires FileName(key) in t.disk && t.disk[FileName(key)] == Corrupt
    ensures GetSpec(t, key, now, unlinkOk).0 == None
    ensures GetSpec(t, key, now, unlinkOk).1.disk == t.disk
  {
  }

  /** Deleting an absent key changes nothing. */
  lemma DeleteAbsentIsNoOp(t: Tiers, key: string, unlinkOk: bool)
    requires key !in t.mem && FileName(key) !in t.disk
    ensures DeleteSpec(t, key, unlinkOk) == t
  {
  }

  /** After a successful delete, `get` misses at any time. */
  lemma DeleteThenGet(t: Tiers, key: string, now: int, unlinkOk: bool)
    ensures GetSpec(DeleteSpec(t, key, true), key, now, unlinkOk).0 == None
  {
  }

  /** When the listing names every file and no unlink throws, `clear` leaves
      both tiers empty, whatever the file names are. */
  lemma ClearEmptiesBoth(t: Tiers, listing: seq<string>, failAt: nat)
    requires forall name :: name in t.disk ==> name in listing
    requires failAt >= |listing|
    ensures ClearSpec(t, listing, failAt) == Tiers(map[], map[])
  {
    var out := ClearSpec(t, listing, failAt);
    forall name | name in t.disk ensures name !in out.disk {
      var i :| 0 <= i < |listing| && listing[i] == name;
    }
  }

  /** An unlink that throws stops `clear`: the files listed from that point on stay. */
  lemma ClearStopsAtFailure(t: Tiers, listing: seq<string>, failAt: nat, name: string)
    requires failAt < |listing|
    requires name in t.disk && name !in listing[..failAt]
    ensures name in ClearSpec(t, listing, failAt).disk
  {
    forall i | 0 <= i < failAt ensures listing[i] != name {
      assert listing[..failAt][i] == listing[i];
    }
  }
}
