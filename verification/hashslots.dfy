/**
 * The closed hash table of HashTable.py, as values: the key/value pair, the
 * slots of the record array, the string-folding hash, quadratic probing, and
 * the table operations as pure functions over a sequence of slots. The
 * `HashTables` module runs the same operations in place on an array and is
 * proved against these functions; `HashFacts` proves what they promise.
 */
module HashSlots {
  import opened Wrappers

  /** `MINIMUM_SIZE`: no table is smaller. */
  const MinimumSize := 2
  /** A search that has taken this many probes doubles the table (`step >= 10`). */
  const ProbeLimit := 10

  /** Python's `<` on strings: lexicographic by code point, a proper prefix first. */
  predicate StrLess(a: string, b: string)
  {
    if |a| == 0 then |b| > 0
    else if |b| == 0 then false
    else if a[0] != b[0] then a[0] < b[0]
    else StrLess(a[1..], b[1..])
  }

  lemma {:induction false} StrLessIrreflexive(a: string)
    ensures !StrLess(a, a)
  {
    if |a| > 0 {
      StrLessIrreflexive(a[1..]);
    }
  }

  /** `KVPair`: a key, its value, and the tombstone mark that deletion sets. */
  datatype KVPair<V> = KVPair(key: string, value: V, tombstone: bool)
  {
    /** `compareTo`: 1, 0 or -1 as this key is above, equal to or below the other's. */
    function CompareTo(other: KVPair<V>): (r: int)
      ensures -1 <= r <= 1
      ensures r == 0 <==> key == other.key
    {
      StrLessIrreflexive(key);
      if StrLess(other.key, key) then 1
      else if key == other.key then 0
      else -1
    }
  }

  /** A record slot: `None` in the source, or a pair (live or a tombstone). */
  datatype Slot<V> = Empty | Full(pair: KVPair<V>)

  predicate Live<V>(slot: Slot<V>)
  {
    slot.Full? && !slot.pair.tombstone
  }

  predicate NoTombstones<V>(s: seq<Slot<V>>)
  {
    forall i :: 0 <= i < |s| && s[i].Full? ==> !s[i].pair.tombstone
  }

  // ---------------------------------------------------------------- hashing

  function Pow256(k: nat): (r: nat)
    ensures r >= 1
  {
    if k == 0 then 1 else 256 * Pow256(k - 1)
  }

  /**
   * The string fold of `hash`: the string is cut into blocks of four
   * characters, and the character at position i weighs 256^(i mod 4).
   */
  function FoldSum(s: string): nat
  {
    if |s| == 0 then 0
    else FoldSum(s[..|s| - 1]) + (s[|s| - 1] as nat) * Pow256((|s| - 1) % 4)
  }

  /** The home slot of a key in a table of `m` slots. */
  function Home(key: string, m: nat): (h: nat)
    requires m > 0
    ensures h < m
  {
    FoldSum(key) % m
  }

  /** `__quadraticProbe`: the slot a probe sequence visits at step `step`. */
  function Probe(home: nat, step: nat, n: nat): (r: nat)
    requires n > 0
    ensures r < n
  {
    (home + step * step) % n
  }

  /** `__isHalfFull`. */
  predicate HalfFull(size: int, occupied: int)
  {
    size - occupied <= occupied
  }

  // ------------------------------------------------------ abstract contents

  function EntryOf<V(==)>(slot: Slot<V>): multiset<(string, V)>
  {
    if Live(slot) then multiset{(slot.pair.key, slot.pair.value)} else multiset{}
  }

  /** The live records of a slot array, as (key, value) pairs. */
  function Entries<V(==)>(s: seq<Slot<V>>): multiset<(string, V)>
  {
    if |s| == 0 then multiset{}
    else Entries(s[..|s| - 1]) + EntryOf(s[|s| - 1])
  }

  /** How many live records a slot array holds: what `__occupied` counts. */
  function LiveCount<V>(s: seq<Slot<V>>): nat
  {
    if |s| == 0 then 0
    else LiveCount(s[..|s| - 1]) + (if Live(s[|s| - 1]) then 1 else 0)
  }

  /** Some live record has this key. */
  ghost predicate HasKey<V>(e: multiset<(string, V)>, key: string)
  {
    key in (set p | p in e :: p.0)
  }

  /** Every key occurs once at most, with a single value. */
  ghost predicate UniqueKeys<V>(e: multiset<(string, V)>)
  {
    (forall p :: p in e ==> e[p] == 1) &&
    (forall p, q :: p in e && q in e && p.0 == q.0 ==> p == q)
  }

  /** The probe sequence from `home` meets no empty slot before step `t`. */
  ghost predicate Clear<V>(s: seq<Slot<V>>, home: nat, t: nat)
    requires |s| > 0
  {
    forall u :: 0 <= u < t ==> s[Probe(home, u, |s|)].Full?
  }

  /** Slot `i` lies on the probe sequence of `key`, with no empty slot before it. */
  ghost predicate Reaches<V>(s: seq<Slot<V>>, key: string, i: nat)
    requires |s| > 0
  {
    exists t: nat :: Probe(Home(key, |s|), t, |s|) == i && Clear(s, Home(key, |s|), t)
  }

  /** Every live record can be found by probing from its home. */
  ghost predicate AllReach<V>(s: seq<Slot<V>>)
    requires |s| > 0
  {
    forall i :: 0 <= i < |s| && Live(s[i]) ==> Reaches(s, s[i].pair.key, i)
  }

  /** What every operation keeps: a table at least `MINIMUM_SIZE` slots, every
      live record findable, and never more than half full (plus one). */
  ghost predicate WellFormed<V>(s: seq<Slot<V>>)
  {
    |s| >= MinimumSize && AllReach(s) && 2 * LiveCount(s) <= |s| + 1
  }

  // -------------------------------------------------------- probe loops

  /**
   * The `__transfer` loop: the first empty slot on the probe sequence from
   * `home`, looking at steps `t` up to one full period. `None` means the
   * sequence never meets an empty slot.
   */
  function FirstEmpty<V>(s: seq<Slot<V>>, home: nat, t: nat): (r: Option<nat>)
    requires |s| > 0
    ensures r.Some? ==> r.value < |s| && s[r.value].Empty?
    decreases |s| - t
  {
    if t >= |s| then None
    else if s[Probe(home, t, |s|)].Empty? then Some(Probe(home, t, |s|))
    else FirstEmpty(s, home, t + 1)
  }

  /**
   * The insertion loop of `hashtable_add`: walk the probe sequence to the
   * first empty slot, remembering the first tombstone on the way; the pair
   * goes to that tombstone if there was one, else to the empty slot.
   */
  function ScanInsert<V>(s: seq<Slot<V>>, home: nat, t: nat, tomb: Option<nat>): (r: Option<nat>)
    requires |s| > 0
    requires tomb.Some? ==> tomb.value < |s| && s[tomb.value].Full? && s[tomb.value].pair.tombstone
    ensures r.Some? ==> r.value < |s| && !Live(s[r.value])
    decreases |s| - t
  {
    if t >= |s| then None
    else
      var c := Probe(home, t, |s|);
      if s[c].Empty? then Some(if tomb.Some? then tomb.value else c)
      else ScanInsert(s, home, t + 1, if s[c].pair.tombstone && tomb.None? then Some(c) else tomb)
  }

  // ---------------------------------------------------- table operations

  /** `__transfer`: place `pair` at the first empty slot of its probe sequence. */
  function Transferred<V>(dest: seq<Slot<V>>, pair: KVPair<V>): (r: Option<seq<Slot<V>>>)
    requires |dest| > 0
    ensures r.Some? ==> |r.value| == |dest|
  {
    match FirstEmpty(dest, Home(pair.key, |dest|), 0)
    case None => None
    case Some(p) => Some(dest[p := Full(pair)])
  }

  /** `__rehash` from record `i` on: transfer each live record, in index order. */
  function RehashFrom<V>(src: seq<Slot<V>>, i: nat, dest: seq<Slot<V>>): (r: Option<seq<Slot<V>>>)
    requires |dest| > 0 && i <= |src|
    ensures r.Some? ==> |r.value| == |dest|
    decreases |src| - i
  {
    if i == |src| then Some(dest)
    else if Live(src[i]) then
      match Transferred(dest, src[i].pair)
      case None => None
      case Some(d) => RehashFrom(src, i + 1, d)
    else RehashFrom(src, i + 1, dest)
  }

  /** `__doubleTable`: the live records rehashed into twice as many slots. */
  function Doubled<V>(s: seq<Slot<V>>): (r: Option<seq<Slot<V>>>)
    requires |s| > 0
    ensures r.Some? ==> |r.value| == 2 * |s|
  {
    RehashFrom(s, 0, seq(2 * |s|, _ => Empty))
  }

  /**
   * Where a search ends: a slot, not there (`-1`), or `Stuck` when the
   * source would not return within the doubling bound, or not at all.
   */
  datatype Found = At(index: nat) | Absent | Stuck

  /**
   * The result of an operation, or `NoReturn` when the source would not
   * return within the model's bound, or not at all.
   */
  datatype Outcome<T> = Returned(value: T) | NoReturn

  /**
   * The loop of `hashtable_exist_by_key` / `hashtable_exist`, from slot
   * `curr` at step `step`. After `ProbeLimit` probes it doubles the table,
   * restarts from the key's home in the new table, and then goes on probing
   * from the OLD `home`. `fuel` is the number of doublings allowed; `Stuck`
   * means the fuel ran out or a doubling never finished.
   */
  function SearchFrom<V>(s: seq<Slot<V>>, key: string, home: nat, curr: nat, step: nat, fuel: nat)
    : (r: (seq<Slot<V>>, Found))
    requires |s| > 0 && curr < |s| && 1 <= step <= ProbeLimit
    ensures |r.0| >= |s|
    ensures |r.0| == |s| ==> r.0 == s
    ensures r.1.At? ==> r.1.index < |r.0| && Live(r.0[r.1.index]) && r.0[r.1.index].pair.key == key
    decreases fuel, ProbeLimit - step
  {
    if s[curr].Empty? then (s, Absent)
    else if Live(s[curr]) && s[curr].pair.key == key then (s, At(curr))
    else if step >= ProbeLimit then
      if fuel == 0 then (s, Stuck)
      else
        match Doubled(s)
        case None => (s, Stuck)
        case Some(d) => SearchFrom(d, key, home, Home(key, |d|), 1, fuel - 1)
    else SearchFrom(s, key, home, Probe(home, step, |s|), step + 1, fuel)
  }

  /** A search for `key` from its home slot. */
  function Search<V>(s: seq<Slot<V>>, key: string, fuel: nat): (r: (seq<Slot<V>>, Found))
    requires |s| > 0
    ensures |r.0| >= |s|
    ensures r.1.At? ==> r.1.index < |r.0| && Live(r.0[r.1.index]) && r.0[r.1.index].pair.key == key
  {
    SearchFrom(s, key, Home(key, |s|), Home(key, |s|), 1, fuel)
  }

  /**
   * `hashtable_add`: nothing if the key is found (`Returned(false)`); else
   * double when half full and store the pair (`Returned(true)`).
   */
  function Added<V(==)>(s: seq<Slot<V>>, pair: KVPair<V>, fuel: nat): (r: (seq<Slot<V>>, Outcome<bool>))
    requires |s| > 0
    ensures |r.0| >= |s|
  {
    var (s1, f) := Search(s, pair.key, fuel);
    if f.Stuck? then (s1, NoReturn)
    else if f.At? then (s1, Returned(false))
    else Inserted(s1, pair)
  }

  /**
   * The part of `hashtable_add` after the key was not found: double when half
   * full, then store the pair at the first tombstone of its probe sequence,
   * or else at the first empty slot.
   */
  function Inserted<V(==)>(s: seq<Slot<V>>, pair: KVPair<V>): (r: (seq<Slot<V>>, Outcome<bool>))
    requires |s| > 0
    ensures |r.0| >= |s|
  {
    var grown := if HalfFull(|s|, LiveCount(s)) then Doubled(s) else Some(s);
    if grown.None? then (s, NoReturn)
    else
      var s2 := grown.value;
      match ScanInsert(s2, Home(pair.key, |s2|), 0, None)
      case None => (s2, NoReturn)
      case Some(p) => (s2[p := Full(pair)], Returned(true))
  }

  /** `hashtable_lookup_value`: the value of the record found, or `None`. */
  function LookedUp<V>(s: seq<Slot<V>>, key: string, fuel: nat): (r: (seq<Slot<V>>, Outcome<Option<V>>))
    requires |s| > 0
    ensures |r.0| >= |s|
  {
    var (s1, f) := Search(s, key, fuel);
    match f
    case Stuck => (s1, NoReturn)
    case Absent => (s1, Returned(None))
    case At(i) => (s1, Returned(Some(s1[i].pair.value)))
  }

  /** `hashtable_edit_value`: give the record found the new value. */
  function Edited<V>(s: seq<Slot<V>>, key: string, newValue: V, fuel: nat): (r: (seq<Slot<V>>, Outcome<bool>))
    requires |s| > 0
    ensures |r.0| >= |s|
  {
    var (s1, f) := Search(s, key, fuel);
    match f
    case Stuck => (s1, NoReturn)
    case Absent => (s1, Returned(false))
    case At(i) => (s1[i := Full(s1[i].pair.(value := newValue))], Returned(true))
  }

  /** `hashtable_delete`: mark the record found as a tombstone. */
  function Deleted<V>(s: seq<Slot<V>>, token: KVPair<V>, fuel: nat): (r: (seq<Slot<V>>, Outcome<bool>))
    requires |s| > 0
    ensures |r.0| >= |s|
  {
    var (s1, f) := Search(s, token.key, fuel);
    match f
    case Stuck => (s1, NoReturn)
    case Absent => (s1, Returned(false))
    case At(i) => (s1[i := Full(s1[i].pair.(tombstone := true))], Returned(true))
  }
}
