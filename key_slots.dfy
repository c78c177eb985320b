/** Value-level model of the slots of PrcKeyRegistry (dtool/src/prc/prcKeyRegistry.cxx):
    what a slot holds, the state record_keys and set_key produce, which handles they
    release, what get_key does to one slot, and the ownership invariant they keep. */
module KeySlots {

  datatype Option<+T> = None | Some(value: T)

  /** A compiled-in key definition (KeyDef). The registry only ever compares these by
      identity, so it is a class; `data` is None where the table holds a null `_data`,
      and `_length` is the length of the byte sequence. */
  class KeyDef {
    const data: Option<seq<bv8>>
    const generatedTime: int

    constructor (data: Option<seq<bv8>>, generatedTime: int)
      ensures this.data == data && this.generatedTime == generatedTime
    {
      this.data := data;
      this.generatedTime := generatedTime;
    }
  }

  /** An OpenSSL EVP_PKEY handle; only its identity matters here. */
  class PKey {
    constructor () { }
  }

  /** One entry of the registry's `_keys` vector. */
  datatype Slot = Slot(def: KeyDef?, pkey: PKey?, generatedTime: int)

  /** The slot pushed when the vector grows: no definition, no handle, time 0. */
  const EmptySlot := Slot(null, null, 0)

  function Max(a: nat, b: nat): nat { if a < b then b else a }

  /** No handle occurs twice in `s`. */
  ghost predicate Distinct(s: seq<PKey>) {
    forall i, j :: 0 <= i < j < |s| ==> s[i] != s[j]
  }

  /** The registry's invariant: a slot that refers to a definition refers to one with
      data and carries its timestamp; no two slots hold the same handle; no held handle
      has been released; and no handle has been released twice. */
  ghost predicate Consistent(keys: seq<Slot>, released: seq<PKey>) {
    && (forall i :: 0 <= i < |keys| && keys[i].def != null ==>
          keys[i].def.data.Some? && keys[i].generatedTime == keys[i].def.generatedTime)
    && (forall i, j :: 0 <= i < |keys| && 0 <= j < |keys| && i != j && keys[i].pkey != null ==>
          keys[i].pkey != keys[j].pkey)
    && (forall i :: 0 <= i < |keys| && keys[i].pkey != null ==> keys[i].pkey !in released)
    && Distinct(released)
  }

  // ---------------------------------------------------------------- growth

  /** The vector after "while (_keys.size() <= i) push_back(empty)": at least i + 1
      slots, the old ones kept, the new ones empty. */
  function Grown(keys: seq<Slot>, i: nat): (r: seq<Slot>)
    ensures |r| == Max(|keys|, i + 1)
    ensures r[..|keys|] == keys
    ensures forall j :: |keys| <= j < |r| ==> r[j] == EmptySlot
  {
    if i < |keys| then keys else keys + seq(i + 1 - |keys|, _ => EmptySlot)
  }

  // ---------------------------------------------------------------- record_keys

  /** One iteration of record_keys' loop, for the entry `d` at index `i`. */
  function RecordOne(keys: seq<Slot>, d: KeyDef, i: nat): (r: seq<Slot>)
    ensures d.data.None? ==> r == keys
    ensures d.data.Some? ==> |r| == Max(|keys|, i + 1)
    ensures d.data.Some? && i < |keys| && keys[i].def == d ==> r[i] == keys[i]
    ensures d.data.Some? && !(i < |keys| && keys[i].def == d) ==> r[i] == Slot(d, null, d.generatedTime)
  {
    if d.data.None? then keys
    else
      var g := Grown(keys, i);
      assert i < |keys| ==> g[i] == g[..|keys|][i];
      if g[i].def == d then g else g[i := Slot(d, null, d.generatedTime)]
  }

  /** The vector after the first k iterations of record_keys over `table`. */
  function Recorded(keys: seq<Slot>, table: seq<KeyDef>, k: nat): (r: seq<Slot>)
    requires k <= |table|
    ensures |keys| <= |r| <= Max(|keys|, k)
  {
    if k == 0 then keys else RecordOne(Recorded(keys, table, k - 1), table[k - 1], k - 1)
  }

  /** The handle that the entry `d` at index `i` makes record_keys release from the
      original vector `keys`: the cached handle of a slot whose definition changes. */
  function EvictedAt(keys: seq<Slot>, d: KeyDef, i: nat): (r: seq<PKey>)
    ensures |r| <= 1
    ensures forall h :: h in r ==> d.data.Some? && i < |keys| && keys[i].def != d && keys[i].pkey == h
  {
    if d.data.Some? && i < |keys| && keys[i].def != d && keys[i].pkey != null
    then [keys[i].pkey] else []
  }

  /** The handles the first k iterations of record_keys release, in order. */
  function Evicted(keys: seq<Slot>, table: seq<KeyDef>, k: nat): (r: seq<PKey>)
    requires k <= |table|
    ensures |r| <= k
  {
    if k == 0 then [] else Evicted(keys, table, k - 1) + EvictedAt(keys, table[k - 1], k - 1)
  }

  /** One more than the highest index below k whose entry has data, or 0. */
  function Reach(table: seq<KeyDef>, k: nat): (r: nat)
    requires k <= |table|
    ensures r <= k
    ensures r > 0 ==> table[r - 1].data.Some?
    ensures forall j :: r <= j < k ==> table[j].data.None?
  {
    if k == 0 then 0
    else if table[k - 1].data.Some? then k
    else Reach(table, k - 1)
  }

  /** Reference definition of slot j after record_keys(table, k), stated slot by slot:
      an entry with data installs its definition with a cleared handle and the
      definition's timestamp, unless the slot already refers to that very object; any
      other slot is left as it was (or empty, if the vector only now reaches it). */
  function ExpectedSlot(keys: seq<Slot>, table: seq<KeyDef>, k: nat, j: nat): (r: Slot)
    requires k <= |table|
    ensures j < k && table[j].data.Some? ==> r.def == table[j]
    ensures r.pkey != null ==> j < |keys| && r == keys[j]
  {
    if j < k && table[j].data.Some? then
      if j < |keys| && keys[j].def == table[j] then keys[j]
      else Slot(table[j], null, table[j].generatedTime)
    else if j < |keys| then keys[j]
    else EmptySlot
  }

  /** One iteration of record_keys touches no slot but slot i: every other slot keeps
      its value, or is empty if the vector only now reaches it. */
  lemma RecordOneElsewhere(keys: seq<Slot>, d: KeyDef, i: nat, j: nat)
    requires j != i && j < |RecordOne(keys, d, i)|
    ensures RecordOne(keys, d, i)[j] == if j < |keys| then keys[j] else EmptySlot
  {
    if d.data.Some? && j < |keys| {
      var g := Grown(keys, i);
      assert g[j] == g[..|keys|][j];
    }
  }

  /** record_keys agrees with the slot-by-slot reference: the vector ends with
      max(old size, 1 + highest index with data) slots, each as ExpectedSlot says. */
  lemma {:induction false} RecordedMatchesReference(keys: seq<Slot>, table: seq<KeyDef>, k: nat)
    requires k <= |table|
    ensures |Recorded(keys, table, k)| == Max(|keys|, Reach(table, k))
    ensures forall j :: 0 <= j < |Recorded(keys, table, k)| ==>
              Recorded(keys, table, k)[j] == ExpectedSlot(keys, table, k, j)
  {
    if k > 0 {
      RecordedMatchesReference(keys, table, k - 1);
      var prev := Recorded(keys, table, k - 1);
      var d, i := table[k - 1], k - 1;
      var r := Recorded(keys, table, k);
      assert r == RecordOne(prev, d, i);
      forall j | 0 <= j < |r|
        ensures r[j] == ExpectedSlot(keys, table, k, j)
      {
        var e := ExpectedSlot(keys, table, k, j);
        if j != i {
          assert e == ExpectedSlot(keys, table, k - 1, j);
          RecordOneElsewhere(prev, d, i, j);
          if j < |prev| {
            assert r[j] == prev[j];
          } else {
            assert j >= |keys| && j >= Reach(table, k - 1);
            assert r[j] == EmptySlot;
          }
        } else {
          var before := if i < |keys| then keys[i] else EmptySlot;
          if i < |prev| {
            assert prev[i] == ExpectedSlot(keys, table, k - 1, i) == before;
          }
          if d.data.None? {
            assert r[i] == prev[i] == before == e;
          } else if i < |keys| && keys[i].def == d {
            assert r[i] == keys[i] == e;
          } else {
            assert r[i] == Slot(d, null, d.generatedTime) == e;
          }
        }
      }
    }
  }

  /** record_keys(table, k) leaves slot j >= k as it was, or empty if it is new. */
  lemma UntouchedSlot(keys: seq<Slot>, table: seq<KeyDef>, k: nat, j: nat)
    requires k <= j && k <= |table|
    ensures j < |keys| ==> j < |Recorded(keys, table, k)|
    ensures j < |Recorded(keys, table, k)| ==>
              Recorded(keys, table, k)[j] == if j < |keys| then keys[j] else EmptySlot
  {
    RecordedMatchesReference(keys, table, k);
  }

  /** The handle iteration i of record_keys frees from the vector it has built so far is
      the one it would free from the original vector: no earlier iteration touched
      slot i. */
  lemma RecordStepEvicts(keys: seq<Slot>, table: seq<KeyDef>, i: nat)
    requires i < |table|
    ensures EvictedAt(Recorded(keys, table, i), table[i], i) == EvictedAt(keys, table[i], i)
  {
    UntouchedSlot(keys, table, i, i);
  }

  /** A handle is released by record_keys exactly when some slot below k held it and
      that slot's entry has data and a different identity. */
  lemma {:induction false} EvictedMembers(keys: seq<Slot>, table: seq<KeyDef>, k: nat, h: PKey)
    requires k <= |table|
    ensures h in Evicted(keys, table, k) <==>
              exists j :: 0 <= j < k && j < |keys| && table[j].data.Some? &&
                          keys[j].def != table[j] && keys[j].pkey == h
  {
    if k > 0 {
      EvictedMembers(keys, table, k - 1, h);
    }
  }

  /** When no two slots share a handle, record_keys releases each handle at most once. */
  lemma {:induction false} EvictedDistinct(keys: seq<Slot>, released: seq<PKey>, table: seq<KeyDef>, k: nat)
    requires k <= |table|
    requires Consistent(keys, released)
    ensures Distinct(Evicted(keys, table, k))
  {
    if k > 0 {
      EvictedDistinct(keys, released, table, k - 1);
      var e := Evicted(keys, table, k - 1);
      var x := EvictedAt(keys, table[k - 1], k - 1);
      if x != [] {
        EvictedMembers(keys, table, k - 1, x[0]);
        assert x[0] !in e;
      }
      assert Evicted(keys, table, k) == e + x;
    }
  }

  /** record_keys keeps the registry's invariant, with the released log extended by
      exactly the handles it evicts. */
  lemma RecordPreservesConsistent(keys: seq<Slot>, released: seq<PKey>, table: seq<KeyDef>, k: nat)
    requires k <= |table|
    requires Consistent(keys, released)
    ensures Consistent(Recorded(keys, table, k), released + Evicted(keys, table, k))
  {
    RecordedMatchesReference(keys, table, k);
    EvictedDistinct(keys, released, table, k);
    var r := Recorded(keys, table, k);
    var e := Evicted(keys, table, k);
    forall h | h in e
      ensures h !in released
      ensures forall j :: 0 <= j < |r| ==> r[j].pkey != h
    {
      EvictedMembers(keys, table, k, h);
      var m :| 0 <= m < k && m < |keys| && table[m].data.Some? && keys[m].def != table[m] && keys[m].pkey == h;
      forall j | 0 <= j < |r| ensures r[j].pkey != h {
        assert r[j] == ExpectedSlot(keys, table, k, j);
      }
    }
    forall i | 0 <= i < |r| && r[i].pkey != null
      ensures i < |keys| && r[i] == keys[i]
    {
      assert r[i] == ExpectedSlot(keys, table, k, i);
    }
    assert Distinct(released + e) by {
      forall a, b | 0 <= a < b < |released + e| ensures (released + e)[a] != (released + e)[b] {
        if b >= |released| && a < |released| {
          assert (released + e)[b] in e;
        }
      }
    }
  }

  /** A vector whose every slot below k already refers to its table entry's definition
      (where that entry has data) is left as it is by record_keys, and nothing is
      released: the identity test skips every entry. */
  lemma RecordFixedPoint(keys: seq<Slot>, table: seq<KeyDef>, k: nat)
    requires k <= |table|
    requires forall j :: 0 <= j < k && table[j].data.Some? ==> j < |keys| && keys[j].def == table[j]
    ensures Recorded(keys, table, k) == keys
    ensures Evicted(keys, table, k) == []
  {
    RecordedMatchesReference(keys, table, k);
    var r := Recorded(keys, table, k);
    if Reach(table, k) > 0 {
      assert Reach(table, k) - 1 < |keys|;
    }
    forall j | 0 <= j < |r| ensures r[j] == keys[j] {
      assert r[j] == ExpectedSlot(keys, table, k, j);
    }
    var e := Evicted(keys, table, k);
    if e != [] {
      EvictedMembers(keys, table, k, e[0]);
      assert false;
    }
  }

  /** Calling record_keys twice with the same table is the same as calling it once,
      and the second call releases nothing. */
  lemma RecordIdempotent(keys: seq<Slot>, table: seq<KeyDef>, k: nat)
    requires k <= |table|
    ensures Recorded(Recorded(keys, table, k), table, k) == Recorded(keys, table, k)
    ensures Evicted(Recorded(keys, table, k), table, k) == []
  {
    var once := Recorded(keys, table, k);
    RecordedMatchesReference(keys, table, k);
    forall j | 0 <= j < k && table[j].data.Some?
      ensures j < |once| && once[j].def == table[j]
    {
      assert j < Reach(table, k);
      assert once[j] == ExpectedSlot(keys, table, k, j);
    }
    RecordFixedPoint(once, table, k);
  }

  /** An import whose only entries with data sit at indices 0 and 5, into an empty
      registry: six slots, slot 0 and slot 5 hold their definitions with no handle
      yet, and slots 1 to 4 are holes. */
  lemma SparseImport(table: seq<KeyDef>)
    requires |table| == 6
    requires table[0].data.Some? && table[5].data.Some?
    requires forall j :: 1 <= j <= 4 ==> table[j].data.None?
    ensures |Recorded([], table, 6)| == 6
    ensures Recorded([], table, 6)[0] == Slot(table[0], null, table[0].generatedTime)
    ensures Recorded([], table, 6)[5] == Slot(table[5], null, table[5].generatedTime)
    ensures forall j :: 1 <= j <= 4 ==> Recorded([], table, 6)[j] == EmptySlot
  {
    RecordedMatchesReference([], table, 6);
  }

  // ---------------------------------------------------------------- set_key

  /** The vector after set_key(n, p, t): grown to reach n, slot n pinned to p and t. */
  function Pinned(keys: seq<Slot>, n: nat, p: PKey?, t: int): (r: seq<Slot>)
    ensures |r| == Max(|keys|, n + 1)
    ensures r[n] == Slot(null, p, t)
    ensures forall j :: 0 <= j < |keys| && j != n ==> r[j] == keys[j]
    ensures forall j :: |keys| <= j < |r| && j != n ==> r[j] == EmptySlot
  {
    var g := Grown(keys, n);
    assert forall j :: 0 <= j < |keys| ==> g[j] == g[..|keys|][j];
    g[n := Slot(null, p, t)]
  }

  /** The handle set_key(n, ...) releases: the one slot n held before, if any. */
  function EvictedByPin(keys: seq<Slot>, n: nat): (r: seq<PKey>)
    ensures r == [] <==> n >= |keys| || keys[n].pkey == null
    ensures forall h :: h in r ==> n < |keys| && keys[n].pkey == h
  {
    if n < |keys| && keys[n].pkey != null then [keys[n].pkey] else []
  }

  /** set_key keeps the registry's invariant when the handle it is given is owned by
      nobody else: no slot holds it and it has not been released. */
  lemma PinPreservesConsistent(keys: seq<Slot>, released: seq<PKey>, n: nat, p: PKey?, t: int)
    requires Consistent(keys, released)
    requires p != null ==> p !in released && forall i :: 0 <= i < |keys| ==> keys[i].pkey != p
    ensures Consistent(Pinned(keys, n, p, t), released + EvictedByPin(keys, n))
  {
  }

  /** set_key with the very handle slot n already holds frees that handle and then
      stores it: the slot is left holding a released handle, which breaks ownership. */
  lemma PinningHeldHandleFreesIt(keys: seq<Slot>, released: seq<PKey>, n: nat, p: PKey, t: int)
    requires n < |keys| && keys[n].pkey == p
    ensures !Consistent(Pinned(keys, n, p, t), released + EvictedByPin(keys, n))
  {
  }

  // ---------------------------------------------------------------- get_key

  /** get_key would parse this slot: it has a definition and no cached handle. */
  predicate NeedsParse(s: Slot) {
    s.def != null && s.pkey == null
  }

  /** Slot n after get_key(n), where `parsed` is what the key-parsing service returns
      for the definition's bytes (null for a failure). get_key returns the handle of
      the resulting slot. */
  function Materialize(s: Slot, parsed: PKey?): (r: Slot)
    ensures r.generatedTime == s.generatedTime
    ensures !NeedsParse(r)
    ensures !NeedsParse(s) ==> r == s
    ensures NeedsParse(s) ==> r.pkey == parsed
    ensures NeedsParse(s) && parsed == null ==> r.def == null
    ensures r.def != null ==> r.def == s.def
    ensures NeedsParse(s) && parsed != null ==> r == s.(pkey := parsed)
  {
    if NeedsParse(s) then
      if parsed == null then s.(def := null) else s.(pkey := parsed)
    else s
  }

  /** Once get_key has run on a slot, running it again changes nothing and returns the
      same handle, whatever the parsing service would answer. */
  lemma MaterializeSettles(s: Slot, first: PKey?, second: PKey?)
    ensures Materialize(Materialize(s, first), second) == Materialize(s, first)
  {
  }
}
