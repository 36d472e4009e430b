/**
  The open-addressing hash table of the C Two Sum: HASH_SIZE slots, each a
  HashEntry struct, filled by linear probing from abs(key) % HASH_SIZE and
  never emptied. The C field `exists` is named `present` here, since
  `exists` is a Dafny keyword; like the C field it is an int read as a truth
  value. The table starts as calloc leaves it: every field zero.
*/
module LinearProbing {
  import opened PairSum

  const HASH_SIZE: int := 10007
  const INT_MIN: int := -0x8000_0000
  const INT_MAX: int := 0x7fff_ffff

  /** x fits a C int. */
  predicate IsInt(x: int)
  {
    INT_MIN <= x <= INT_MAX
  }

  datatype HashEntry = HashEntry(key: int, value: int, present: int)

  /** An entry as calloc leaves it. */
  const Vacant := HashEntry(0, 0, 0)

  /** hash: abs(key) % HASH_SIZE. abs(INT_MIN) overflows, so that key is excluded. */
  function Hash(key: int): (h: int)
    requires IsInt(key) && key != INT_MIN
    ensures 0 <= h < HASH_SIZE
    ensures h == key % HASH_SIZE || h == (-key) % HASH_SIZE
  {
    (if key < 0 then -key else key) % HASH_SIZE
  }

  /** The slot reached after d steps of (index + 1) % HASH_SIZE from start. */
  function Probe(start: int, d: int): (s: int)
    requires 0 <= start < HASH_SIZE && 0 <= d < HASH_SIZE
    ensures 0 <= s < HASH_SIZE
  {
    if start + d < HASH_SIZE then start + d else start + d - HASH_SIZE
  }

  /** The number of probe steps from start to s: the inverse of Probe. */
  function Dist(start: int, s: int): (d: int)
    requires 0 <= start < HASH_SIZE && 0 <= s < HASH_SIZE
    ensures 0 <= d < HASH_SIZE && Probe(start, d) == s
  {
    if start <= s then s - start else s - start + HASH_SIZE
  }

  lemma DistProbe(start: int, d: int)
    requires 0 <= start < HASH_SIZE && 0 <= d < HASH_SIZE
    ensures Dist(start, Probe(start, d)) == d
  {
  }

  /** One step of the C probe loop is one more step of Probe. */
  lemma ProbeNext(start: int, d: int)
    requires 0 <= start < HASH_SIZE && 0 <= d && d + 1 < HASH_SIZE
    ensures (Probe(start, d) + 1) % HASH_SIZE == Probe(start, d + 1)
  {
  }

  /**
    Every occupied slot is reached from the hash of its key through occupied
    slots only. Inserting by linear probing keeps this, and nothing is ever
    removed.
  */
  ghost predicate Closed(t: seq<HashEntry>)
  {
    |t| == HASH_SIZE &&
    forall s :: 0 <= s < HASH_SIZE && t[s].present != 0 ==>
      IsInt(t[s].key) && t[s].key != INT_MIN &&
      forall d :: 0 <= d < Dist(Hash(t[s].key), s) ==> t[Probe(Hash(t[s].key), d)].present != 0
  }

  /**
    hashInsert: probe from hash(key) past the occupied slots and fill the
    first empty one. The C loop only ends if an empty slot exists. The ghost
    result names the slot written.
  */
  method HashInsert(table: array<HashEntry>, key: int, value: int) returns (ghost slot: int)
    requires table.Length == HASH_SIZE && IsInt(key) && key != INT_MIN
    requires exists s :: 0 <= s < HASH_SIZE && table[s].present == 0
    modifies table
    ensures 0 <= slot < HASH_SIZE && old(table[slot]).present == 0
    ensures forall d :: 0 <= d < Dist(Hash(key), slot) ==> old(table[Probe(Hash(key), d)]).present != 0
    ensures table[..] == old(table[..])[slot := HashEntry(key, value, 1)]
  {
    var index := Hash(key);
    ghost var free :| 0 <= free < HASH_SIZE && table[free].present == 0;
    ghost var d := 0;
    while table[index].present != 0
      invariant 0 <= d <= Dist(Hash(key), free) && index == Probe(Hash(key), d)
      invariant forall d' :: 0 <= d' < d ==> table[Probe(Hash(key), d')].present != 0
      invariant table[..] == old(table[..])
      decreases Dist(Hash(key), free) - d
    {
      ProbeNext(Hash(key), d);
      index := (index + 1) % HASH_SIZE;
      d := d + 1;
    }
    DistProbe(Hash(key), d);
    table[index] := HashEntry(key, value, 1);
    slot := index;
  }

  /** The value of the first entry with this key on the probe sequence from
      start, looking from step d on and stopping at an empty slot; -1 if none. */
  ghost function Find(t: seq<HashEntry>, key: int, start: int, d: int): int
    requires |t| == HASH_SIZE && 0 <= start < HASH_SIZE && 0 <= d <= HASH_SIZE
    decreases HASH_SIZE - d
  {
    if d == HASH_SIZE then -1
    else if t[Probe(start, d)].present == 0 then -1
    else if t[Probe(start, d)].key == key then t[Probe(start, d)].value
    else Find(t, key, start, d + 1)
  }

  /** hashSearch: probe from hash(key) until the key or an empty slot. */
  method HashSearch(table: array<HashEntry>, key: int) returns (r: int)
    requires table.Length == HASH_SIZE && IsInt(key) && key != INT_MIN
    requires exists s :: 0 <= s < HASH_SIZE && table[s].present == 0
    ensures r == Find(table[..], key, Hash(key), 0)
  {
    var index := Hash(key);
    ghost var free :| 0 <= free < HASH_SIZE && table[free].present == 0;
    ghost var d := 0;
    while table[index].present != 0
      invariant 0 <= d <= Dist(Hash(key), free) && index == Probe(Hash(key), d)
      invariant Find(table[..], key, Hash(key), 0) == Find(table[..], key, Hash(key), d)
      decreases Dist(Hash(key), free) - d
    {
      if table[index].key == key {
        return table[index].value;
      }
      DistProbe(Hash(key), d);
      ProbeNext(Hash(key), d);
      index := (index + 1) % HASH_SIZE;
      d := d + 1;
    }
    return -1;
  }

  /**
    The table after inserting nums[j] with value j for every j < i, in that
    order, at slots[j]: it is closed, holds exactly those entries, and two
    equal keys sit on their probe sequence in insertion order.
  */
  ghost predicate Holds(t: seq<HashEntry>, nums: seq<int>, i: int, slots: seq<int>)
  {
    Closed(t) && 0 <= i <= |nums| && |slots| == i &&
    (forall j :: 0 <= j < i ==> IsInt(nums[j]) && nums[j] != INT_MIN) &&
    (forall j :: 0 <= j < i ==> 0 <= slots[j] < HASH_SIZE && t[slots[j]] == HashEntry(nums[j], j, 1)) &&
    (forall s :: 0 <= s < HASH_SIZE && t[s].present != 0 ==> 0 <= t[s].value < i && slots[t[s].value] == s) &&
    (forall j1, j2 :: 0 <= j1 < j2 < i && nums[j1] == nums[j2] ==>
      Dist(Hash(nums[j1]), slots[j1]) < Dist(Hash(nums[j1]), slots[j2]))
  }

  /** The zeroed table holds no entry. */
  lemma EmptyHolds(nums: seq<int>)
    ensures Holds(seq(HASH_SIZE, _ => Vacant), nums, 0, [])
  {
  }

  /** Filling an empty slot reached from its key's hash through occupied slots
      keeps the table closed. */
  lemma InsertClosed(t: seq<HashEntry>, key: int, value: int, slot: int)
    requires Closed(t) && IsInt(key) && key != INT_MIN
    requires 0 <= slot < HASH_SIZE && t[slot].present == 0
    requires forall d :: 0 <= d < Dist(Hash(key), slot) ==> t[Probe(Hash(key), d)].present != 0
    ensures Closed(t[slot := HashEntry(key, value, 1)])
  {
  }

  /** Inserting nums[i] with value i where hashInsert puts it keeps the table
      holding the positions so far. */
  lemma InsertHolds(t: seq<HashEntry>, nums: seq<int>, i: int, slots: seq<int>, slot: int)
    requires Holds(t, nums, i, slots) && i < |nums| && IsInt(nums[i]) && nums[i] != INT_MIN
    requires 0 <= slot < HASH_SIZE && t[slot].present == 0
    requires forall d :: 0 <= d < Dist(Hash(nums[i]), slot) ==> t[Probe(Hash(nums[i]), d)].present != 0
    ensures Holds(t[slot := HashEntry(nums[i], i, 1)], nums, i + 1, slots + [slot])
  {
    var h := Hash(nums[i]);
    forall j | 0 <= j < i && nums[j] == nums[i]
      ensures Dist(h, slots[j]) < Dist(h, slot)
    {
      var s := slots[j];
      assert t[s].present != 0 && t[s].key == nums[i];
      DistProbe(h, Dist(h, slot));
    }
    InsertClosed(t, nums[i], i, slot);
  }

  /** There are fewer positions than slots, so a slot is still empty. */
  lemma FreeSlot(t: seq<HashEntry>, nums: seq<int>, i: int, slots: seq<int>)
    requires Holds(t, nums, i, slots) && i < HASH_SIZE
    ensures exists s :: 0 <= s < HASH_SIZE && t[s].present == 0
  {
    if forall s :: 0 <= s < HASH_SIZE ==> t[s].present != 0 {
      forall s | 0 <= s < HASH_SIZE
        ensures s in slots
      {
        assert slots[t[s].value] == s;
      }
      Covers(slots, HASH_SIZE);
    }
  }

  /** xs without any occurrence of v. */
  function Without(xs: seq<int>, v: int): (r: seq<int>)
    ensures forall x :: x in r <==> x in xs && x != v
    ensures |r| <= |xs| && (v in xs ==> |r| < |xs|)
  {
    if xs == [] then []
    else (if xs[0] == v then [] else [xs[0]]) + Without(xs[1..], v)
  }

  /** A sequence holding each of 0 .. n-1 is at least n long. */
  lemma {:induction false} Covers(xs: seq<int>, n: nat)
    requires forall s :: 0 <= s < n ==> s in xs
    ensures n <= |xs|
    decreases n
  {
    if n > 0 {
      Covers(Without(xs, n - 1), n - 1);
    }
  }

  /**
    On a table holding the first i positions, the search from step d, past
    slots that hold other keys, finds the first position of nums holding the
    key, or -1 if none of the first i does.
  */
  lemma {:induction false} FindFirst(t: seq<HashEntry>, nums: seq<int>, i: int, slots: seq<int>, key: int, free: int, d: int)
    requires Holds(t, nums, i, slots) && IsInt(key) && key != INT_MIN
    requires 0 <= free < HASH_SIZE && t[free].present == 0
    requires 0 <= d <= Dist(Hash(key), free)
    requires forall d' :: 0 <= d' < d ==>
      t[Probe(Hash(key), d')].present != 0 && t[Probe(Hash(key), d')].key != key
    ensures var r := Find(t, key, Hash(key), d);
      (r == -1 <==> forall j :: 0 <= j < i ==> nums[j] != key) &&
      (r != -1 ==> 0 <= r < i && nums[r] == key && FirstOccurrence(nums, r))
    decreases HASH_SIZE - d
  {
    var h := Hash(key);
    var e := t[Probe(h, d)];
    DistProbe(h, d);
    if e.present == 0 {
      forall j | 0 <= j < i
        ensures nums[j] != key
      {
        var s := slots[j];
        var ds := Dist(Hash(nums[j]), s);
      }
    } else if e.key == key {
      var v := e.value;
      forall j | 0 <= j < v
        ensures nums[j] != key
      {
        var ds := Dist(h, slots[j]);
      }
    } else {
      FindFirst(t, nums, i, slots, key, free, d + 1);
    }
  }
}
