/** `cmd_map_t`: the open-addressing table of root commands. Commands are
    stored by value in an array of slots (`None` is a slot whose `name` is
    NULL), placed by linear probing with wrap-around from the hash of their
    name, and the table doubles when an insertion finds it full. */
module CmdMaps {
  import opened CStrings
  import opened Hashing
  import opened Commands
  import opened ArrayLists

  type Slots = seq<Option<Cmd>>

  // ---------------------------------------------------------------------
  // Contents of a slot array

  /** How many slots hold `c`. */
  function Copies(slots: Slots, c: Cmd): nat
    decreases |slots|
  {
    if slots == [] then 0
    else Copies(slots[..|slots| - 1], c) + Ind(slots[|slots| - 1] == Some(c))
  }

  /** The number of occupied slots. */
  function Occupied(slots: Slots): nat
    decreases |slots|
  {
    if slots == [] then 0
    else Occupied(slots[..|slots| - 1]) + Ind(slots[|slots| - 1].Some?)
  }

  function Ind(b: bool): nat {
    if b then 1 else 0
  }

  /** No more occupied slots than slots; all of them occupied exactly when
      the count reaches the length. */
  lemma {:induction false} OccupiedBound(slots: Slots)
    ensures Occupied(slots) <= |slots|
    ensures Occupied(slots) == |slots| <==> forall j :: 0 <= j < |slots| ==> slots[j].Some?
    decreases |slots|
  {
    if slots != [] {
      var init := slots[..|slots| - 1];
      OccupiedBound(init);
      if forall j :: 0 <= j < |slots| ==> slots[j].Some? {
        assert forall j :: 0 <= j < |init| ==> init[j].Some? by {
          forall j | 0 <= j < |init| ensures init[j].Some? { assert init[j] == slots[j]; }
        }
      }
      if Occupied(slots) == |slots| {
        forall j | 0 <= j < |slots| ensures slots[j].Some? {
          if j < |init| { assert init[j] == slots[j]; }
        }
      }
    }
  }

  /** Overwriting one slot swaps that slot's command for the new one, in
      the number of occupied slots and in the number of copies of every
      command. */
  lemma {:induction false} SlotUpdate(slots: Slots, j: nat, v: Option<Cmd>)
    requires j < |slots|
    ensures Occupied(slots[j := v]) + Ind(slots[j].Some?) == Occupied(slots) + Ind(v.Some?)
    ensures forall x :: Copies(slots[j := v], x) + Ind(slots[j] == Some(x))
                        == Copies(slots, x) + Ind(v == Some(x))
    decreases |slots|
  {
    var s := slots[j := v];
    var init := slots[..|slots| - 1];
    if j < |slots| - 1 {
      SlotUpdate(init, j, v);
      assert s[..|s| - 1] == init[j := v];
      assert s[|s| - 1] == slots[|slots| - 1];
      assert init[j] == slots[j];
    } else {
      assert s[..|s| - 1] == init;
    }
  }

  lemma {:induction false} EmptyCounts(slots: Slots)
    requires forall j :: 0 <= j < |slots| ==> slots[j].None?
    ensures Occupied(slots) == 0 && forall x :: Copies(slots, x) == 0
    decreases |slots|
  {
    if slots != [] {
      EmptyCounts(slots[..|slots| - 1]);
    }
  }

  // ---------------------------------------------------------------------
  // Probing

  /** `hash(name) % size`: the slot a name's probe starts from. */
  function Home(name: string, n: nat): (i: nat)
    requires n > 0
    ensures i < n
  {
    (HashOf(name) as int) % n
  }

  /** The slot `k` steps after `base`, wrapping around past the end. */
  function Idx(base: nat, k: nat, n: nat): (j: nat)
    requires base < n && k < n
    ensures j < n
  {
    if base + k < n then base + k else base + k - n
  }

  /** The number of steps from `base` forward to `j`. */
  function Dist(base: nat, j: nat, n: nat): (k: nat)
    requires base < n && j < n
    ensures k < n && Idx(base, k, n) == j
  {
    if base <= j then j - base else j + n - base
  }

  /** `(i + 1) % size` for an index of the table. */
  lemma Wrap(i: nat, n: nat)
    requires i < n
    ensures (i + 1) % n == if i + 1 < n then i + 1 else 0
  {
  }

  /** Steps, from step `k` on, before the probe from `start` meets an empty
      slot; the length of the table if it meets none. */
  function FirstFree(slots: Slots, start: nat, k: nat): (m: nat)
    requires start < |slots| && k <= |slots|
    ensures k <= m <= |slots|
    ensures m < |slots| ==> slots[Idx(start, m, |slots|)].None?
    ensures forall i :: k <= i < m ==> slots[Idx(start, i, |slots|)].Some?
    decreases |slots| - k
  {
    if k == |slots| || slots[Idx(start, k, |slots|)].None? then k
    else FirstFree(slots, start, k + 1)
  }

  /** A table that is not full has an empty slot on every probe. */
  lemma FreeSlotFound(slots: Slots, start: nat)
    requires start < |slots| && Occupied(slots) < |slots|
    ensures FirstFree(slots, start, 0) < |slots|
  {
    OccupiedBound(slots);
    if FirstFree(slots, start, 0) == |slots| {
      forall j | 0 <= j < |slots|
        ensures slots[j].Some?
      {
        assert slots[Idx(start, Dist(start, j, |slots|), |slots|)].Some?;
      }
    }
  }

  /** The slot an insertion probing from `start` writes: the first empty
      slot met going forward with wrap-around. */
  function InsertPos(slots: Slots, start: nat): (p: nat)
    requires start < |slots| && Occupied(slots) < |slots|
    ensures p < |slots| && slots[p].None?
    ensures forall i :: 0 <= i < Dist(start, p, |slots|) ==> slots[Idx(start, i, |slots|)].Some?
  {
    FreeSlotFound(slots, start);
    Idx(start, FirstFree(slots, start, 0), |slots|)
  }

  /** The slots after storing `c` by probing from `start`. */
  function Insert(slots: Slots, start: nat, c: Cmd): (r: Slots)
    requires start < |slots| && Occupied(slots) < |slots|
    ensures |r| == |slots|
    ensures Occupied(r) == Occupied(slots) + 1
    ensures forall x :: Copies(r, x) == Copies(slots, x) + Ind(x == c)
    ensures forall j :: 0 <= j < |r| && j != InsertPos(slots, start) ==> r[j] == slots[j]
  {
    var p := InsertPos(slots, start);
    SlotUpdate(slots, p, Some(c));
    slots[p := Some(c)]
  }

  function EmptySlots(n: nat): (r: Slots)
    ensures |r| == n && Occupied(r) == 0 && forall x :: Copies(r, x) == 0
  {
    var r := seq(n, _ => None);
    EmptyCounts(r);
    r
  }

  /** The doubled table after the first `i` old slots were re-added, in
      index order, each from its home under the new size. */
  function Rehashed(prev: Slots, i: nat): (r: Slots)
    requires 0 < |prev| && i <= |prev|
    ensures |r| == 2 * |prev|
    ensures Occupied(r) == Occupied(prev[..i])
    ensures forall x :: Copies(r, x) == Copies(prev[..i], x)
    decreases i
  {
    if i == 0 then EmptySlots(2 * |prev|)
    else
      var acc := Rehashed(prev, i - 1);
      assert prev[..i][..i - 1] == prev[..i - 1];
      OccupiedBound(prev[..i - 1]);
      if prev[i - 1].None? then acc
      else Insert(acc, Home(prev[i - 1].value.name, 2 * |prev|), prev[i - 1].value)
  }

  /** Re-adding one more old slot is one more add into a table that is
      not full (or nothing, for an empty slot). */
  lemma RehashedStep(prev: Slots, i: nat)
    requires i < |prev|
    ensures Occupied(Rehashed(prev, i)) < |Rehashed(prev, i)|
    ensures Rehashed(prev, i + 1) ==
      if prev[i].None? then Rehashed(prev, i) else AddSlots(Rehashed(prev, i), prev[i].value)
  {
    assert prev[..i + 1][..i] == prev[..i];
    OccupiedBound(prev[..i]);
  }

  /** The table the growth step of `cmd_map_add` builds from a full one. */
  function Grown(prev: Slots): (r: Slots)
    requires 0 < |prev|
    ensures |r| == 2 * |prev| && Occupied(r) == Occupied(prev)
    ensures forall x :: Copies(r, x) == Copies(prev, x)
  {
    assert prev[..|prev|] == prev;
    Rehashed(prev, |prev|)
  }

  /** What `cmd_map_add` probes: the grown table when the old one was full. */
  function AddBase(slots: Slots): (r: Slots)
    requires 0 < |slots|
    ensures |r| == (if Occupied(slots) == |slots| then 2 * |slots| else |slots|)
    ensures Occupied(r) == Occupied(slots) < |r|
    ensures forall x :: Copies(r, x) == Copies(slots, x)
  {
    OccupiedBound(slots);
    if Occupied(slots) == |slots| then Grown(slots) else slots
  }

  /** Where `cmd_map_add` stores the command: probing starts from
      `hash % size` taken with the size from before any growth. */
  function AddPos(slots: Slots, c: Cmd): (p: nat)
    requires 0 < |slots|
    ensures p < |AddBase(slots)|
  {
    InsertPos(AddBase(slots), Home(c.name, |slots|))
  }

  function AddSlots(slots: Slots, c: Cmd): (r: Slots)
    requires 0 < |slots|
    ensures |r| == |AddBase(slots)|
  {
    AddBase(slots)[AddPos(slots, c) := Some(c)]
  }

  /** Adding stores exactly one more command; the table doubles exactly
      when it was full, and the result always has room for the next add. */
  lemma AddStoresOneMore(slots: Slots, c: Cmd)
    requires 0 < |slots|
    ensures var r := AddSlots(slots, c);
      (forall x :: Copies(r, x) == Copies(slots, x) + Ind(x == c))
      && Occupied(r) == Occupied(slots) + 1 <= |r|
      && |r| == (if Occupied(slots) == |slots| then 2 * |slots| else |slots|)
      && r[AddPos(slots, c)] == Some(c)
  {
    var base := AddBase(slots);
    assert AddSlots(slots, c) == Insert(base, Home(c.name, |slots|), c);
  }

  /** Into a table that is not full, adding fills the first empty slot on
      the probe from the command's home and changes no other slot. */
  lemma AddToRoomyTable(slots: Slots, c: Cmd)
    requires 0 < |slots| && Occupied(slots) < |slots|
    ensures var r := AddSlots(slots, c); var h := Home(c.name, |slots|); var p := AddPos(slots, c);
      |r| == |slots| && slots[p].None? && r[p] == Some(c)
      && (forall i :: 0 <= i < Dist(h, p, |slots|) ==> slots[Idx(h, i, |slots|)].Some?)
      && (forall j :: 0 <= j < |slots| && j != p ==> r[j] == slots[j])
  {
  }

  // ---------------------------------------------------------------------
  // Lookup

  /** The slot `cmd_map_find`'s loop stops at, having checked step `k`
      onwards: an empty slot, a slot holding the key, or, once the probe has
      come back round, the home slot. */
  function ProbeFind(slots: Slots, key: string, base: nat, k: nat): (j: nat)
    requires base < |slots| && k < |slots|
    ensures j < |slots|
    decreases |slots| - k
  {
    var j := Idx(base, k, |slots|);
    if slots[j].None? || slots[j].value.name == key then j
    else if k + 1 == |slots| then base
    else ProbeFind(slots, key, base, k + 1)
  }

  /** `cmd_map_find`: the slot where the probe stopped, if it is occupied. */
  function FindSlot(slots: Slots, key: string): Option<nat>
    requires 0 < |slots|
  {
    var j := ProbeFind(slots, key, Home(key, |slots|), 0);
    if slots[j].Some? then Some(j) else None
  }

  /** A stored command can be found from its home: every slot on the probe
      from its home up to it is occupied. */
  predicate Reachable(slots: Slots, j: nat)
    requires j < |slots| && slots[j].Some?
  {
    var n := |slots|;
    var h := Home(slots[j].value.name, n);
    forall i :: 0 <= i < Dist(h, j, n) ==> slots[Idx(h, i, n)].Some?
  }

  /** Every stored command is reachable. */
  predicate ProbeInvariant(slots: Slots) {
    forall j :: 0 <= j < |slots| && slots[j].Some? ==> Reachable(slots, j)
  }

  /** `cmd_map_find` returns NULL or an occupied slot; an occupied slot
      with another name is returned only when the table is full, the key is
      stored nowhere, and the slot is the key's home. */
  lemma FindResult(slots: Slots, key: string)
    requires 0 < |slots|
    ensures FindSlot(slots, key).Some? ==>
      var j := FindSlot(slots, key).value;
      j < |slots| && slots[j].Some?
      && (slots[j].value.name != key ==>
            Occupied(slots) == |slots| && j == Home(key, |slots|)
            && forall i :: 0 <= i < |slots| && slots[i].Some? ==> slots[i].value.name != key)
  {
    var h := Home(key, |slots|);
    var j := ProbeFind(slots, key, h, 0);
    if slots[j].Some? && slots[j].value.name != key {
      ProbeMissesAll(slots, key, h, 0);
      forall i | 0 <= i < |slots|
        ensures slots[i].Some? && slots[i].value.name != key
      {
        assert i == Idx(h, Dist(h, i, |slots|), |slots|);
      }
      OccupiedBound(slots);
    }
  }

  /** A probe that stops at an occupied slot of another name has met only
      occupied slots of other names on the way round. */
  lemma {:induction false} ProbeMissesAll(slots: Slots, key: string, base: nat, k: nat)
    requires base < |slots| && k < |slots|
    requires var j := ProbeFind(slots, key, base, k); slots[j].Some? && slots[j].value.name != key
    ensures ProbeFind(slots, key, base, k) == base
    ensures forall i :: k <= i < |slots| ==>
      slots[Idx(base, i, |slots|)].Some? && slots[Idx(base, i, |slots|)].value.name != key
    decreases |slots| - k
  {
    if k + 1 < |slots| {
      var j := Idx(base, k, |slots|);
      if !(slots[j].None? || slots[j].value.name == key) {
        ProbeMissesAll(slots, key, base, k + 1);
      }
    }
  }

  /** A full table without the key answers with the key's home slot, which
      holds some other command. */
  lemma FullTableMiss(slots: Slots, key: string)
    requires 0 < |slots| && Occupied(slots) == |slots|
    requires forall i :: 0 <= i < |slots| && slots[i].Some? ==> slots[i].value.name != key
    ensures FindSlot(slots, key) == Some(Home(key, |slots|))
  {
    OccupiedBound(slots);
    ProbeAllOccupied(slots, key, Home(key, |slots|), 0);
  }

  lemma {:induction false} ProbeAllOccupied(slots: Slots, key: string, base: nat, k: nat)
    requires base < |slots| && k < |slots|
    requires forall i :: 0 <= i < |slots| ==> slots[i].Some? && slots[i].value.name != key
    ensures ProbeFind(slots, key, base, k) == base
    decreases |slots| - k
  {
    if k + 1 < |slots| {
      ProbeAllOccupied(slots, key, base, k + 1);
    }
  }

  /** If a slot holding the key is reachable, the lookup returns a slot
      holding the key, and that very slot when no slot probed before it
      holds the key. */
  lemma FindReachable(slots: Slots, key: string, j: nat)
    requires j < |slots| && slots[j].Some? && slots[j].value.name == key
    requires Reachable(slots, j)
    ensures FindSlot(slots, key).Some?
    ensures slots[FindSlot(slots, key).value].value.name == key
    ensures var n := |slots|; var h := Home(key, n);
      (forall i :: 0 <= i < Dist(h, j, n) ==> slots[Idx(h, i, n)].value.name != key)
      ==> FindSlot(slots, key) == Some(j)
  {
    var h := Home(key, |slots|);
    ProbeReaches(slots, key, h, 0, Dist(h, j, |slots|));
  }

  lemma {:induction false} ProbeReaches(slots: Slots, key: string, base: nat, k: nat, d: nat)
    requires base < |slots| && k <= d < |slots|
    requires forall i :: k <= i < d ==> slots[Idx(base, i, |slots|)].Some?
    requires slots[Idx(base, d, |slots|)].Some? && slots[Idx(base, d, |slots|)].value.name == key
    ensures var j := ProbeFind(slots, key, base, k); slots[j].Some? && slots[j].value.name == key
    ensures (forall i :: k <= i < d ==> slots[Idx(base, i, |slots|)].value.name != key)
      ==> ProbeFind(slots, key, base, k) == Idx(base, d, |slots|)
    decreases d - k
  {
    if k < d {
      ProbeReaches(slots, key, base, k + 1, d);
    }
  }

  /** In a table where every command is reachable, NULL means the key is
      stored nowhere. */
  lemma FindNoneMeansAbsent(slots: Slots, key: string)
    requires 0 < |slots| && ProbeInvariant(slots)
    requires FindSlot(slots, key).None?
    ensures forall i :: 0 <= i < |slots| && slots[i].Some? ==> slots[i].value.name != key
  {
    forall i | 0 <= i < |slots| && slots[i].Some?
      ensures slots[i].value.name != key
    {
      if slots[i].value.name == key {
        FindReachable(slots, key, i);
      }
    }
  }

  // ---------------------------------------------------------------------
  // What insertion does to reachability

  /** Filling an empty slot keeps every stored command reachable. */
  lemma FillKeepsReachable(slots: Slots, p: nat, c: Cmd)
    requires p < |slots| && slots[p].None?
    ensures forall j :: 0 <= j < |slots| && slots[j].Some? && Reachable(slots, j) ==>
      Reachable(slots[p := Some(c)], j)
  {
    var r := slots[p := Some(c)];
    forall j | 0 <= j < |slots| && slots[j].Some? && Reachable(slots, j)
      ensures Reachable(r, j)
    {
      assert r[j] == slots[j];
    }
  }

  /** Inserting from the command's own home keeps every command reachable. */
  lemma InsertAtHomeKeepsInvariant(slots: Slots, c: Cmd)
    requires 0 < |slots| && Occupied(slots) < |slots| && ProbeInvariant(slots)
    ensures ProbeInvariant(Insert(slots, Home(c.name, |slots|), c))
  {
    FillKeepsReachable(slots, InsertPos(slots, Home(c.name, |slots|)), c);
  }

  /** The grown table keeps every re-added command reachable. */
  lemma {:induction false} RehashedInvariant(prev: Slots, i: nat)
    requires 0 < |prev| && i <= |prev|
    ensures ProbeInvariant(Rehashed(prev, i))
    decreases i
  {
    if i > 0 {
      RehashedInvariant(prev, i - 1);
      if prev[i - 1].Some? {
        assert prev[..i][..i - 1] == prev[..i - 1];
        OccupiedBound(prev[..i - 1]);
        InsertAtHomeKeepsInvariant(Rehashed(prev, i - 1), prev[i - 1].value);
      }
    }
  }

  /** After an add every command that was already stored stays reachable;
      the added one is reachable too unless the add doubled the table and
      the pre-growth home differs from the new one. */
  lemma AddKeepsReachable(slots: Slots, c: Cmd)
    requires 0 < |slots| && ProbeInvariant(slots)
    ensures var r := AddSlots(slots, c); var p := AddPos(slots, c);
      forall j :: 0 <= j < |r| && j != p && r[j].Some? ==> Reachable(r, j)
    ensures Occupied(slots) < |slots| || Home(c.name, 2 * |slots|) == Home(c.name, |slots|) ==>
      ProbeInvariant(AddSlots(slots, c))
  {
    var base := AddBase(slots);
    if Occupied(slots) == |slots| {
      RehashedInvariant(slots, |slots|);
      assert slots[..|slots|] == slots;
    }
    assert ProbeInvariant(base);
    var p := AddPos(slots, c);
    FillKeepsReachable(base, p, c);
    var r := AddSlots(slots, c);
    assert forall j :: 0 <= j < |r| && j != p ==> r[j] == base[j];
  }

  /** The stale index in action: when the add doubled the table and the
      slot the key's new home names is still empty, the command just added
      cannot be looked up. */
  lemma AddedButLost(slots: Slots, c: Cmd)
    requires 0 < |slots| && Occupied(slots) == |slots|
    requires AddSlots(slots, c)[Home(c.name, 2 * |slots|)].None?
    ensures Home(c.name, 2 * |slots|) != AddPos(slots, c)
    ensures AddSlots(slots, c)[AddPos(slots, c)] == Some(c)
    ensures FindSlot(AddSlots(slots, c), c.name).None?
  {
  }

  /** Commands named by one letter, with nothing else to them. */
  function Named(c: char): Cmd {
    Cmd([c], 0, [], None, [])
  }

  /** `d` and then `e` added to a fresh table fill both of its slots, and
      adding `a` to that full table loses it: the probe starts from
      `hash("a") % 2 == 0`, taken before the growth, and stores `a` in slot
      1, while its home in the grown table is the empty slot 2, so
      `cmd_map_find` answers NULL for it. */
  lemma StaleIndexExample()
    ensures var full := [Some(Named('e')), Some(Named('d'))];
      AddSlots(AddSlots(EmptySlots(InitSize), Named('d')), Named('e')) == full
      && AddSlots(full, Named('a')) == [Some(Named('d')), Some(Named('a')), None, Some(Named('e'))]
      && FindSlot(AddSlots(full, Named('a')), ['a']).None?
  {
    LetterHomes();
    LostExample(Named('a'), Named('d'), Named('e'));
  }

  /** The homes of `a`, `d` and `e` in tables of two and four slots. */
  lemma LetterHomes()
    ensures Home(['a'], 2) == 0 && Home(['a'], 4) == 2
    ensures Home(['d'], 2) == 1 && Home(['d'], 4) == 3
    ensures Home(['e'], 2) == 1 && Home(['e'], 4) == 3
  {
    HashOfA();
    HashOfD();
    HashOfE();
    assert (0x734d9046 as bv32) as int == 0x734d9046;
    assert (0xcfe27a57 as bv32) as int == 0xcfe27a57;
    assert (0xb6bda97f as bv32) as int == 0xb6bda97f;
  }

  /** The first round of `hash` rotates the seed by 6. */
  lemma SeedTurn()
    ensures Rol(Seed, (Seed % 8) as bv8 + 3) == 0xe728cad4
  {
    assert (Seed % 8) as bv8 + 3 == 6;
  }

  lemma HashOfA()
    ensures HashOf(['a']) == 0x734d9046
  {
    var x: bv32 := 0xe728cab5;
    assert x as int == 0xe728cab5 && 4 + 0xe728cab5 % 6 == 7;
    assert Rol(x, 7) == 0x94655af3;
    assert SignedChar('a') == 97;
    assert (SignedChar('a') + 0x1_0000_0000) % 0x1_0000_0000 == 97;
    assert CharBits('a') == 97 as bv32;
    SeedTurn();
    assert ['a'][..0] == [];
    assert HashOf(['a']) == Mix(x);
  }

  lemma HashOfD()
    ensures HashOf(['d']) == 0xcfe27a57
  {
    var x: bv32 := 0xe728cab0;
    assert x as int == 0xe728cab0 && 4 + 0xe728cab0 % 6 == 8;
    assert Rol(x, 8) == 0x28cab0e7;
    assert SignedChar('d') == 100;
    assert (SignedChar('d') + 0x1_0000_0000) % 0x1_0000_0000 == 100;
    assert CharBits('d') == 100 as bv32;
    SeedTurn();
    assert ['d'][..0] == [];
    assert HashOf(['d']) == Mix(x);
  }

  lemma HashOfE()
    ensures HashOf(['e']) == 0xb6bda97f
  {
    var x: bv32 := 0xe728cab1;
    assert x as int == 0xe728cab1 && 4 + 0xe728cab1 % 6 == 9;
    assert Rol(x, 9) == 0x519563ce;
    assert SignedChar('e') == 101;
    assert (SignedChar('e') + 0x1_0000_0000) % 0x1_0000_0000 == 101;
    assert CharBits('e') == 101 as bv32;
    SeedTurn();
    assert ['e'][..0] == [];
    assert HashOf(['e']) == Mix(x);
  }

  /** The example for any three commands placed as `a`, `d` and `e` are. */
  lemma LostExample(a: Cmd, d: Cmd, e: Cmd)
    requires Home(a.name, 2) == 0 && Home(a.name, 4) == 2
    requires Home(d.name, 2) == 1 && Home(d.name, 4) == 3
    requires Home(e.name, 2) == 1 && Home(e.name, 4) == 3
    ensures var full := [Some(e), Some(d)];
      AddSlots(AddSlots(EmptySlots(InitSize), d), e) == full
      && AddSlots(full, a) == [Some(d), Some(a), None, Some(e)]
      && FindSlot(AddSlots(full, a), a.name).None?
  {
    FillExample(d, e);
    GrowExample(d, e);
    var full := [Some(e), Some(d)];
    assert Occupied(full) == 2 by { assert full[..1] == [Some(e)]; }
    var g := [Some(d), None, None, Some(e)];
    assert AddBase(full) == g;
    assert FirstFree(g, 0, 0) == 1;
    var r := AddSlots(full, a);
    assert r == [Some(d), Some(a), None, Some(e)];
    assert ProbeFind(r, a.name, 2, 0) == 2;
  }

  lemma FillExample(d: Cmd, e: Cmd)
    requires Home(d.name, 2) == 1 && Home(e.name, 2) == 1
    ensures AddSlots(AddSlots(EmptySlots(InitSize), d), e) == [Some(e), Some(d)]
  {
    var s0 := EmptySlots(InitSize);
    assert s0 == [None, None];
    assert FirstFree(s0, 1, 0) == 0;
    var s1 := AddSlots(s0, d);
    assert s1 == [None, Some(d)];
    assert Occupied(s1) == 1 by { assert s1[..1] == [None]; }
    assert FirstFree(s1, 1, 0) == 1;
  }

  lemma GrowFirst(d: Cmd, e: Cmd)
    requires Home(e.name, 4) == 3
    ensures Rehashed([Some(e), Some(d)], 1) == [None, None, None, Some(e)]
  {
    var g0 := Rehashed([Some(e), Some(d)], 0);
    assert g0 == [None, None, None, None];
    assert FirstFree(g0, 3, 0) == 0;
  }

  lemma GrowExample(d: Cmd, e: Cmd)
    requires Home(d.name, 4) == 3 && Home(e.name, 4) == 3
    ensures Grown([Some(e), Some(d)]) == [Some(d), None, None, Some(e)]
  {
    var prev := [Some(e), Some(d)];
    GrowFirst(d, e);
    var g1 := [None, None, None, Some(e)];
    assert FirstFree(g1, 3, 0) == 1;
    assert Rehashed(prev, 2) == Insert(g1, 3, d);
    assert prev[..2] == prev;
  }

  // ---------------------------------------------------------------------
  // The table as evidently intended

  /** The add `cmd_map_add` evidently means: the probe starts from the
      command's home in the table it runs in, after any growth. */
  function RehomedAddSlots(slots: Slots, c: Cmd): (r: Slots)
    requires 0 < |slots|
    ensures |r| == |AddBase(slots)|
    ensures forall x :: Copies(r, x) == Copies(slots, x) + Ind(x == c)
  {
    var base := AddBase(slots);
    Insert(base, Home(c.name, |base|), c)
  }

  /** That add keeps every command reachable, the new one included, so the
      lookup finds what was added. */
  lemma RehomedAddFinds(slots: Slots, c: Cmd)
    requires 0 < |slots| && ProbeInvariant(slots)
    ensures ProbeInvariant(RehomedAddSlots(slots, c))
    ensures FindKey(RehomedAddSlots(slots, c), c.name).Some?
  {
    var base := AddBase(slots);
    if Occupied(slots) == |slots| {
      RehashedInvariant(slots, |slots|);
      assert slots[..|slots|] == slots;
    }
    InsertAtHomeKeepsInvariant(base, c);
    var r := RehomedAddSlots(slots, c);
    var p := InsertPos(base, Home(c.name, |base|));
    FindReachable(r, c.name, p);
  }

  /** The lookup `cmd_map_find` evidently means: a slot holding the key, or
      NULL when the probe meets an empty slot or comes back round. */
  function FindKey(slots: Slots, key: string): (r: Option<nat>)
    requires 0 < |slots|
    ensures r.Some? ==> r.value < |slots| && slots[r.value].Some? && slots[r.value].value.name == key
  {
    var j := ProbeFind(slots, key, Home(key, |slots|), 0);
    if slots[j].Some? && slots[j].value.name == key then Some(j) else None
  }

  /** It differs from `cmd_map_find` only where that answers with a slot of
      another name, and in a table whose commands are all reachable it
      answers NULL exactly when the key is stored nowhere. */
  lemma FindKeySpec(slots: Slots, key: string)
    requires 0 < |slots|
    ensures FindSlot(slots, key).None? ==> FindKey(slots, key).None?
    ensures FindSlot(slots, key).Some? ==>
      FindKey(slots, key)
      == if slots[FindSlot(slots, key).value].value.name == key then FindSlot(slots, key) else None
    ensures ProbeInvariant(slots) ==>
      (FindKey(slots, key).None? <==>
        forall i :: 0 <= i < |slots| && slots[i].Some? ==> slots[i].value.name != key)
  {
    if ProbeInvariant(slots) && FindKey(slots, key).None? {
      forall i | 0 <= i < |slots| && slots[i].Some?
        ensures slots[i].value.name != key
      {
        if slots[i].value.name == key {
          FindReachable(slots, key, i);
        }
      }
    }
  }

  // ---------------------------------------------------------------------
  // The table object

  class CmdMap {
    /** `map`: the slot array. */
    var slots: array<Option<Cmd>>
    var size: nat
    var count: nat

    ghost predicate Valid()
      reads this, slots
    {
      slots.Length == size && 0 < size && count == Occupied(slots[..])
      && forall j :: 0 <= j < size && slots[j].Some? ==> GoodName(slots[j].value.name)
    }

    /** `cmd_map_make`: two empty slots. */
    constructor ()
      ensures Valid() && fresh(slots)
      ensures size == InitSize && count == 0
      ensures forall j :: 0 <= j < size ==> slots[j].None?
    {
      slots := new Option<Cmd>[InitSize](_ => None);
      size := InitSize;
      count := 0;
      new;
      EmptyCounts(slots[..]);
    }

    /** `cmd_map_add`: take `hash % size`, double a full table, then probe
        forward from the index taken before the growth and store a copy of
        the command. */
    method Add(cmd: Cmd)
      requires Valid() && GoodName(cmd.name)
      modifies this, slots
      ensures Valid()
      ensures slots[..] == AddSlots(old(slots[..]), cmd)
      ensures count == old(count) + 1
      ensures old(count) < old(size) ==> slots == old(slots)
      ensures slots == old(slots) || fresh(slots)
      decreases if count == size then 2 else 0, 0
    {
      var h := CmdHash(cmd);
      var index := (h as int) % size;
      ghost var before := slots[..];
      OccupiedBound(before);
      if count == size {
        Grow();
      }
      assert slots[..] == AddBase(before);
      index := FreeSlotFrom(index);
      Store(index, cmd);
    }

    /** The store at the end of `cmd_map_add`: a copy of the command goes
        into the empty slot the probe found, and the count goes up. */
    method Store(index: nat, cmd: Cmd)
      requires Valid() && GoodName(cmd.name)
      requires index < size && slots[index].None?
      modifies this, slots
      ensures Valid() && slots == old(slots) && size == old(size)
      ensures slots[..] == old(slots[..])[index := Some(cmd)]
      ensures count == old(count) + 1
    {
      SlotUpdate(slots[..], index, Some(cmd));
      slots[index] := Some(cmd);
      count := count + 1;
    }

    /** The probing loop of `cmd_map_add`: step forward from `start`,
        wrapping at the end, until a slot is empty. */
    method FreeSlotFrom(start: nat) returns (index: nat)
      requires Valid() && start < size && count < size
      ensures index == InsertPos(slots[..], start)
    {
      ghost var base := slots[..];
      FreeSlotFound(base, start);
      index := start;
      ghost var k := 0;
      while slots[index].Some?
        invariant k <= FirstFree(base, start, 0) < size
        invariant index == Idx(start, k, size)
        decreases FirstFree(base, start, 0) - k
      {
        Wrap(index, size);
        index := (index + 1) % size;
        k := k + 1;
      }
    }

    /** The growth step of `cmd_map_add`: a zeroed array twice the size,
        into which every old entry is re-added, in index order, through
        `cmd_map_add` itself. */
    method Grow()
      requires Valid() && count == size
      modifies this
      ensures Valid() && fresh(slots)
      ensures slots[..] == Grown(old(slots[..]))
      ensures size == 2 * old(size) && count == old(count)
      decreases 1, 0
    {
      var prev := slots;
      var prevSize := size;
      ghost var before := slots[..];
      slots := new Option<Cmd>[2 * size](_ => None);
      count := 0;
      size := 2 * size;
      EmptyCounts(slots[..]);
      for i := 0 to prevSize
        invariant fresh(slots) && size == 2 * prevSize
        invariant prev[..] == before && |before| == prevSize
        invariant forall j :: 0 <= j < prevSize && before[j].Some? ==> GoodName(before[j].value.name)
        invariant Valid()
        invariant slots[..] == Rehashed(before, i)
      {
        ReAdd(prev[i], before, i);
      }
      assert before[..prevSize] == before;
    }

    /** One round of the growth loop: the old entry `i`, if any, is added
        to the doubled table, which has room for it. */
    method ReAdd(entry: Option<Cmd>, ghost before: Slots, ghost i: nat)
      requires Valid() && i < |before| && entry == before[i]
      requires entry.Some? ==> GoodName(entry.value.name)
      requires slots[..] == Rehashed(before, i)
      modifies this, slots
      ensures Valid() && slots == old(slots) && size == old(size)
      ensures slots[..] == Rehashed(before, i + 1)
      decreases 0, 1
    {
      RehashedStep(before, i);
      if entry.Some? {
        Add(entry.value);
      }
    }

    /** `cmd_map_find`: probe from `hash(key) % size` past occupied slots of
        other names, giving up when the probe comes back to where it began;
        the slot reached is the answer if it is occupied. */
    method Find(key: string) returns (r: Option<nat>)
      requires Valid() && GoodName(key)
      ensures r == FindSlot(slots[..], key)
    {
      CStrOfPlain(key);
      forall j | 0 <= j < size && slots[j].Some?
        ensures StrEq(slots[j].value.name, key) <==> slots[j].value.name == key
      {
        CStrOfPlain(slots[j].value.name);
      }
      var h := Hash(key);
      var base := (h as int) % size;
      var index := base;
      ghost var k := 0;
      while slots[index].Some? && !StrEq(slots[index].value.name, key)
        invariant k < size && index == Idx(base, k, size)
        invariant ProbeFind(slots[..], key, base, k) == ProbeFind(slots[..], key, base, 0)
        decreases size - k
      {
        Wrap(index, size);
        index := (index + 1) % size;
        k := k + 1;
        if index == base {
          break;
        }
      }
      r := if slots[index].Some? then Some(index) else None;
    }
  }
}
