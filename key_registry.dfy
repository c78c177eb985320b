/** PrcKeyRegistry (dtool/src/prc/prcKeyRegistry.cxx): the process-wide table of public
    keys used to validate signed configuration files. The `_keys` vector is a sequence
    field the methods reassign; the OpenSSL calls the source makes are modelled by two
    ghost logs (handles freed, definitions parsed) and by the parsing service passed to
    GetKey. */
module KeyRegistry {
  import opened KeySlots

  class PrcKeyRegistry {
    /** The `_keys` vector. */
    var keys: seq<Slot>
    /** Every handle passed to EVP_PKEY_free, in order. */
    ghost var released: seq<PKey>
    /** Every definition handed to PEM_read_bio_PUBKEY, in order. */
    ghost var parsed: seq<KeyDef>

    ghost predicate Valid()
      reads this
    {
      Consistent(keys, released)
    }

    constructor ()
      ensures Valid()
      ensures keys == [] && released == [] && parsed == []
    {
      keys := [];
      released := [];
      parsed := [];
    }

    /** record_keys(key_def, num_keys): merges the first numKeys entries of a compiled-in
        table into the slots, skipping entries without data. */
    method RecordKeys(table: seq<KeyDef>, numKeys: nat)
      requires Valid()
      requires numKeys <= |table|
      modifies this
      ensures Valid()
      ensures keys == Recorded(old(keys), table, numKeys)
      ensures released == old(released) + Evicted(old(keys), table, numKeys)
      ensures parsed == old(parsed)
    {
      var i := 0;
      while i < numKeys
        invariant i <= numKeys
        invariant keys == Recorded(old(keys), table, i)
        invariant released == old(released) + Evicted(old(keys), table, i)
        invariant parsed == old(parsed)
      {
        var def := table[i];
        if def.data.Some? {
          RecordStepEvicts(old(keys), table, i);
          RecordEntry(def, i);
        }
        i := i + 1;
      }
      RecordPreservesConsistent(old(keys), old(released), table, numKeys);
    }

    /** The body of record_keys' loop for an entry with data: grow to index i, and
        unless slot i already refers to `def`, free its cached handle and install
        `def` with the definition's timestamp. */
    method RecordEntry(def: KeyDef, i: nat)
      requires def.data.Some?
      modifies this
      ensures keys == RecordOne(old(keys), def, i)
      ensures released == old(released) + EvictedAt(old(keys), def, i)
      ensures parsed == old(parsed)
    {
      GrowTo(i);
      assert i < |old(keys)| ==> keys[i] == keys[..|old(keys)|][i];
      if keys[i].def != def {
        if keys[i].pkey != null {
          released := released + [keys[i].pkey];
        }
        keys := keys[i := Slot(def, null, def.generatedTime)];
      }
    }

    /** The "grow to index" loop of record_keys and set_key: push empty slots until
        index i exists. */
    method GrowTo(i: nat)
      modifies this
      ensures keys == Grown(old(keys), i)
      ensures released == old(released) && parsed == old(parsed)
    {
      while |keys| <= i
        invariant released == old(released) && parsed == old(parsed)
        invariant |old(keys)| <= |keys| <= Max(|old(keys)|, i + 1)
        invariant keys[..|old(keys)|] == old(keys)
        invariant forall j :: |old(keys)| <= j < |keys| ==> keys[j] == EmptySlot
        decreases i + 1 - |keys|
      {
        keys := keys + [EmptySlot];
      }
    }

    /** set_key(n, pkey, generated_time): pins a handle the caller owns into slot n,
        releasing the handle slot n held before. The handle must be owned by nobody
        else: no slot holds it and it has not been freed. */
    method SetKey(n: nat, pkey: PKey?, generatedTime: int)
      requires Valid()
      requires pkey != null ==> pkey !in released && forall i :: 0 <= i < |keys| ==> keys[i].pkey != pkey
      modifies this
      ensures Valid()
      ensures keys == Pinned(old(keys), n, pkey, generatedTime)
      ensures released == old(released) + EvictedByPin(old(keys), n)
      ensures parsed == old(parsed)
    {
      PinPreservesConsistent(keys, released, n, pkey, generatedTime);
      GrowTo(n);
      if keys[n].pkey != null {
        released := released + [keys[n].pkey];
      }
      keys := keys[n := Slot(null, pkey, generatedTime)];
    }

    /** get_num_keys(): the highest index ever touched plus one, holes included. */
    function NumKeys(): (r: nat)
      reads this
      ensures r == |keys|
    {
      |keys|
    }

    /** get_key(n): the handle in slot n, parsing the slot's definition on first use and
        caching the result. `accepts` is the key-parsing service's verdict on a
        definition's bytes; on success the service allocates a new handle. An index out
        of range gives null, which is the fallback of the source's assertion. */
    method GetKey(n: nat, accepts: seq<bv8> -> bool) returns (p: PKey?)
      requires Valid()
      modifies this
      ensures Valid()
      ensures n >= |old(keys)| ==> p == null && keys == old(keys) && parsed == old(parsed)
      ensures n < |old(keys)| ==> keys == old(keys)[n := Materialize(old(keys[n]), p)] && p == keys[n].pkey
      ensures n < |old(keys)| && NeedsParse(old(keys[n])) ==>
                && parsed == old(parsed) + [old(keys[n].def)]
                && (p != null <==> accepts(old(keys[n].def.data.value)))
                && (p != null ==> fresh(p))
      ensures n < |old(keys)| && !NeedsParse(old(keys[n])) ==> parsed == old(parsed)
      ensures released == old(released)
    {
      if n >= |keys| {
        return null;
      }
      if keys[n].def != null {
        if keys[n].pkey == null {
          var def := keys[n].def;
          parsed := parsed + [def];
          var pkey: PKey? := null;
          if accepts(def.data.value) {
            pkey := new PKey();
          }
          keys := keys[n := keys[n].(pkey := pkey)];
          if pkey == null {
            keys := keys[n := keys[n].(def := null)];
          }
        }
      }
      p := keys[n].pkey;
    }

    /** get_generated_time(n): the timestamp stored in slot n; 0 for an index out of
        range, which is the fallback of the source's assertion. */
    function GeneratedTime(n: nat): (t: int)
      reads this
      ensures n < |keys| ==> t == keys[n].generatedTime
      ensures n >= |keys| ==> t == 0
    {
      if n < |keys| then keys[n].generatedTime else 0
    }
  }

  /** The static `PrcKeyRegistry::_global_ptr`. */
  class Globals {
    var globalPtr: PrcKeyRegistry?

    constructor ()
      ensures globalPtr == null
    {
      globalPtr := null;
    }

    /** get_global_ptr(): the one registry, created empty on the first call. */
    method GetGlobalPtr() returns (r: PrcKeyRegistry)
      modifies this
      ensures globalPtr == r
      ensures old(globalPtr) != null ==> r == old(globalPtr)
      ensures old(globalPtr) == null ==>
                fresh(r) && r.Valid() && r.keys == [] && r.released == [] && r.parsed == []
    {
      if globalPtr == null {
        globalPtr := new PrcKeyRegistry();
      }
      r := globalPtr;
    }
  }

  /** Two calls of get_global_ptr() give the same registry. */
  method GlobalPtrIsStable(g: Globals) returns (first: PrcKeyRegistry, second: PrcKeyRegistry)
    modifies g
    ensures first == second == g.globalPtr
  {
    first := g.GetGlobalPtr();
    second := g.GetGlobalPtr();
  }

  /** get_key caches: a second call on the same slot returns the handle of the first,
      leaves the slots as the first call left them and parses nothing more. */
  method GetKeyTwice(reg: PrcKeyRegistry, n: nat, accepts: seq<bv8> -> bool) returns (first: PKey?, second: PKey?)
    requires reg.Valid()
    modifies reg
    ensures reg.Valid()
    ensures first == second
    ensures |reg.parsed| <= |old(reg.parsed)| + 1
  {
    first := reg.GetKey(n, accepts);
    ghost var afterFirst, parsedFirst := reg.keys, reg.parsed;
    second := reg.GetKey(n, accepts);
    if n < |afterFirst| {
      assert !NeedsParse(afterFirst[n]);
    }
    assert reg.parsed == parsedFirst;
  }

  /** A compiled-in table with one valid key at index 0 imported into a fresh registry:
      one slot, its timestamp is the definition's, and repeated get_key calls return
      one and the same non-null handle. */
  method ImportOneKey(def: KeyDef, accepts: seq<bv8> -> bool) returns (reg: PrcKeyRegistry, first: PKey?, second: PKey?)
    requires def.data.Some? && accepts(def.data.value)
    ensures reg.NumKeys() == 1
    ensures reg.GeneratedTime(0) == def.generatedTime
    ensures first != null && first == second
  {
    reg := new PrcKeyRegistry();
    reg.RecordKeys([def], 1);
    assert reg.keys == [Slot(def, null, def.generatedTime)];
    first := reg.GetKey(0, accepts);
    second := reg.GetKey(0, accepts);
  }

  /** A definition that the parsing service rejects: get_key returns null, drops the
      definition and keeps the timestamp, and a later call returns null without parsing. */
  method RejectedKey(reg: PrcKeyRegistry, n: nat, accepts: seq<bv8> -> bool) returns (first: PKey?, second: PKey?)
    requires reg.Valid()
    requires n < |reg.keys| && NeedsParse(reg.keys[n])
    requires !accepts(reg.keys[n].def.data.value)
    modifies reg
    ensures first == null && second == null
    ensures |reg.keys| == |old(reg.keys)|
    ensures reg.keys[n] == Slot(null, null, old(reg.keys[n].generatedTime))
    ensures |reg.parsed| == |old(reg.parsed)| + 1
  {
    first := reg.GetKey(n, accepts);
    second := reg.GetKey(n, accepts);
  }

  /** A handle pinned with set_key(3, h, t) is what get_key(3) returns, without any
      parse, and get_generated_time(3) gives t. */
  method PinThenFetch(reg: PrcKeyRegistry, h: PKey?, t: int, accepts: seq<bv8> -> bool) returns (p: PKey?)
    requires reg.Valid()
    requires h != null ==> h !in reg.released && forall i :: 0 <= i < |reg.keys| ==> reg.keys[i].pkey != h
    modifies reg
    ensures reg.Valid()
    ensures p == h
    ensures reg.parsed == old(reg.parsed)
    ensures reg.GeneratedTime(3) == t
  {
    reg.SetKey(3, h, t);
    p := reg.GetKey(3, accepts);
  }

  /** Importing a definition with a new identity at an index whose slot has a cached
      handle frees that handle, and the next get_key parses the new definition rather
      than returning the stale handle. */
  method ReplaceDefinition(reg: PrcKeyRegistry, table: seq<KeyDef>, n: nat, accepts: seq<bv8> -> bool) returns (p: PKey?)
    requires reg.Valid()
    requires n < |table| && table[n].data.Some?
    requires n < |reg.keys| && reg.keys[n].pkey != null && reg.keys[n].def != table[n]
    modifies reg
    ensures reg.Valid()
    ensures old(reg.keys[n].pkey) in reg.released
    ensures reg.parsed == old(reg.parsed) + [table[n]]
    ensures p != null <==> accepts(table[n].data.value)
    ensures p != old(reg.keys[n].pkey)
    ensures reg.GeneratedTime(n) == table[n].generatedTime
  {
    ghost var before := reg.keys;
    reg.RecordKeys(table, |table|);
    RecordedMatchesReference(before, table, |table|);
    EvictedMembers(before, table, |table|, before[n].pkey);
    assert reg.keys[n] == ExpectedSlot(before, table, |table|, n);
    p := reg.GetKey(n, accepts);
  }

  /** Importing a table, fetching a key it defines, and importing the same table again
      keeps the cached handle: the second import frees nothing and the next get_key
      returns the same handle. */
  method ReimportKeepsCache(reg: PrcKeyRegistry, table: seq<KeyDef>, n: nat, accepts: seq<bv8> -> bool)
    returns (first: PKey?, second: PKey?)
    requires reg.Valid()
    requires n < |table| && table[n].data.Some? && accepts(table[n].data.value)
    modifies reg
    ensures reg.Valid()
    ensures first != null && first == second
    ensures reg.released == old(reg.released) + Evicted(old(reg.keys), table, |table|)
    ensures |reg.parsed| <= |old(reg.parsed)| + 1
  {
    ghost var k := reg.keys;
    reg.RecordKeys(table, |table|);
    ghost var imported, releasedAfterImport := reg.keys, reg.released;
    RecordedMatchesReference(k, table, |table|);
    assert n < Reach(table, |table|);
    assert imported[n] == ExpectedSlot(k, table, |table|, n);
    first := reg.GetKey(n, accepts);
    ghost var fetched := reg.keys;
    forall j | 0 <= j < |table| && table[j].data.Some?
      ensures j < |fetched| && fetched[j].def == table[j]
    {
      assert j < Reach(table, |table|);
      assert imported[j] == ExpectedSlot(k, table, |table|, j);
    }
    reg.RecordKeys(table, |table|);
    RecordFixedPoint(fetched, table, |table|);
    assert reg.keys == fetched;
    assert reg.released == releasedAfterImport;
    second := reg.GetKey(n, accepts);
  }
}
