/**
 * What the hash table of HashTable.py promises, proved about the pure
 * operations of `HashSlots`: key order, the string fold, periodic probing,
 * the live contents each operation keeps or changes, and when a search finds
 * what is there.
 */
module HashFacts {
  import opened Wrappers
  import opened HashSlots

  // ------------------------------------------------------------ key order

  lemma {:induction false} StrLessAsymmetric(a: string, b: string)
    ensures !(StrLess(a, b) && StrLess(b, a))
  {
    if |a| > 0 && |b| > 0 && a[0] == b[0] {
      StrLessAsymmetric(a[1..], b[1..]);
    }
  }

  lemma {:induction false} StrLessTotal(a: string, b: string)
    ensures a == b || StrLess(a, b) || StrLess(b, a)
  {
    if |a| > 0 && |b| > 0 && a[0] == b[0] {
      StrLessTotal(a[1..], b[1..]);
      assert a == [a[0]] + a[1..] && b == [b[0]] + b[1..];
    }
  }

  /** `compareTo` is antisymmetric: swapping the two pairs negates the answer. */
  lemma CompareAntisymmetric<V>(p: KVPair<V>, q: KVPair<V>)
    ensures p.CompareTo(q) == -q.CompareTo(p)
  {
    StrLessAsymmetric(p.key, q.key);
    StrLessTotal(p.key, q.key);
  }

  // ------------------------------------------------------------ the fold

  lemma FoldStep(s: string, i: nat)
    requires i < |s|
    ensures FoldSum(s[..i + 1]) == FoldSum(s[..i]) + (s[i] as nat) * Pow256(i % 4)
  {
    assert s[..i + 1][..i] == s[..i];
  }

  /** The same step, for the character `k` places into a block that starts at `start`. */
  lemma FoldStepInBlock(s: string, start: nat, k: nat)
    requires start % 4 == 0 && k < 4 && start + k < |s|
    ensures FoldSum(s[..start + k + 1]) == FoldSum(s[..start + k]) + (s[start + k] as nat) * Pow256(k)
  {
    assert (start + k) % 4 == k;
    FoldStep(s, start + k);
  }

  /** The fold works block by block: a whole number of blocks adds up on its own. */
  lemma {:induction false} FoldBlocks(a: string, b: string)
    requires |a| % 4 == 0
    ensures FoldSum(a + b) == FoldSum(a) + FoldSum(b)
    decreases |b|
  {
    if |b| == 0 {
      assert a + b == a;
    } else {
      var b' := b[..|b| - 1];
      assert (a + b)[..|a + b| - 1] == a + b';
      FoldBlocks(a, b');
      var q := |a| / 4;
      assert |a| + |b| - 1 == (|b| - 1) + 4 * q;
      ModShift(|b| - 1, 4, q);
    }
  }

  // ------------------------------------------------------------ probing

  lemma MulAtLeast(n: nat, k: int)
    requires k >= 1
    ensures n * k >= n
  {
  }

  lemma ModUnique(x: int, n: int, q: int, r: int)
    requires n > 0 && 0 <= r < n && x == n * q + r
    ensures x % n == r
  {
    var q', r' := x / n, x % n;
    assert x == n * q' + r';
    if q < q' {
      var d := q' - q;
      assert n * q' == n * q + n * d;
      MulAtLeast(n, d);
    } else if q > q' {
      var d := q - q';
      assert n * q == n * q' + n * d;
      MulAtLeast(n, d);
    }
  }

  lemma ModShift(a: nat, n: nat, k: nat)
    requires n > 0
    ensures (a + n * k) % n == a % n
  {
    var q, r := a / n, a % n;
    assert a + n * k == n * (q + k) + r;
    ModUnique(a + n * k, n, q + k, r);
  }

  /** The probe sequence repeats with period `n`. */
  lemma ProbePeriodic(home: nat, step: nat, n: nat)
    requires n > 0
    ensures Probe(home, step + n, n) == Probe(home, step, n)
  {
    assert (step + n) * (step + n) == step * step + n * (2 * step + n);
    ModShift(home + step * step, n, 2 * step + n);
  }

  /** Every step of the probe sequence lands where some step below `n` does. */
  lemma {:induction false} ProbeWithinPeriod(home: nat, step: nat, n: nat) returns (t: nat)
    requires n > 0
    ensures t < n && Probe(home, step, n) == Probe(home, t, n)
    decreases step
  {
    if step < n {
      t := step;
    } else {
      var r := step - n;
      t := ProbeWithinPeriod(home, r, n);
      ProbePeriodic(home, r, n);
      assert r + n == step;
    }
  }

  /** Step 0 of the probe sequence is the home slot itself. */
  lemma ProbeStart(home: nat, n: nat)
    requires home < n
    ensures Probe(home, 0, n) == home
  {
    ModUnique(home, n, 0, home);
  }

  // ------------------------------------------------------------ contents

  lemma {:induction false} EntriesConcat<V>(a: seq<Slot<V>>, b: seq<Slot<V>>)
    ensures Entries(a + b) == Entries(a) + Entries(b)
    decreases |b|
  {
    if |b| == 0 {
      assert a + b == a;
    } else {
      assert (a + b)[..|a + b| - 1] == a + b[..|b| - 1];
      EntriesConcat(a, b[..|b| - 1]);
    }
  }

  lemma EntriesSingle<V>(x: Slot<V>)
    ensures Entries([x]) == EntryOf(x)
  {
    assert [x][..0] == [];
  }

  /** Overwriting one slot swaps that slot's entry for the new one. */
  lemma EntriesUpdate<V>(s: seq<Slot<V>>, i: nat, x: Slot<V>)
    requires i < |s|
    ensures Entries(s[i := x]) + EntryOf(s[i]) == Entries(s) + EntryOf(x)
  {
    var a, c := s[..i], s[i + 1..];
    assert s == (a + [s[i]]) + c;
    assert s[i := x] == (a + [x]) + c;
    EntriesConcat(a + [s[i]], c);
    EntriesConcat(a, [s[i]]);
    EntriesConcat(a + [x], c);
    EntriesConcat(a, [x]);
    EntriesSingle(x);
    EntriesSingle(s[i]);
  }

  lemma {:induction false} LiveInEntries<V>(s: seq<Slot<V>>, i: nat)
    requires i < |s| && Live(s[i])
    ensures (s[i].pair.key, s[i].pair.value) in Entries(s)
  {
    if i < |s| - 1 {
      LiveInEntries(s[..|s| - 1], i);
    }
  }

  /** Every entry comes from a live slot. */
  lemma {:induction false} SlotOf<V>(s: seq<Slot<V>>, e: (string, V)) returns (i: nat)
    requires e in Entries(s)
    ensures i < |s| && Live(s[i]) && (s[i].pair.key, s[i].pair.value) == e
  {
    var s' := s[..|s| - 1];
    if e in Entries(s') {
      i := SlotOf(s', e);
    } else {
      i := |s| - 1;
    }
  }

  lemma EntriesCons<V>(s: seq<Slot<V>>, i: nat)
    requires i < |s|
    ensures Entries(s[i..]) == EntryOf(s[i]) + Entries(s[i + 1..])
  {
    assert s[i..] == [s[i]] + s[i + 1..];
    EntriesConcat([s[i]], s[i + 1..]);
    EntriesSingle(s[i]);
  }

  lemma EntriesNoLive<V>(s: seq<Slot<V>>)
    requires forall i :: 0 <= i < |s| ==> !Live(s[i])
    ensures Entries(s) == multiset{}
  {
    if |s| > 0 {
      EntriesNoLive(s[..|s| - 1]);
    }
  }

  /** The live-record count is the number of entries. */
  lemma {:induction false} CountIsSize<V>(s: seq<Slot<V>>)
    ensures LiveCount(s) == |Entries(s)|
  {
    if |s| > 0 {
      CountIsSize(s[..|s| - 1]);
      assert |Entries(s[..|s| - 1]) + EntryOf(s[|s| - 1])| == |Entries(s[..|s| - 1])| + |EntryOf(s[|s| - 1])|;
    }
  }

  /** Counting from slot `i` on: slot `i`, then the rest. */
  lemma LiveCountCons<V>(s: seq<Slot<V>>, i: nat)
    requires i < |s|
    ensures LiveCount(s[i..]) == (if Live(s[i]) then 1 else 0) + LiveCount(s[i + 1..])
  {
    EntriesCons(s, i);
    CountIsSize(s[i..]);
    CountIsSize(s[i + 1..]);
    assert |EntryOf(s[i]) + Entries(s[i + 1..])| == |EntryOf(s[i])| + |Entries(s[i + 1..])|;
  }

  /** The keys of the live slots are exactly the keys of the entries. */
  lemma KeyNotLive<V>(s: seq<Slot<V>>, key: string)
    requires forall i :: 0 <= i < |s| && Live(s[i]) ==> s[i].pair.key != key
    ensures !HasKey(Entries(s), key)
  {
    forall p | p in Entries(s)
      ensures p.0 != key
    {
      var i := SlotOf(s, p);
    }
  }

  /** A new key keeps the keys unique. */
  lemma UniqueAddFresh<V>(e: multiset<(string, V)>, key: string, value: V)
    requires UniqueKeys(e) && !HasKey(e, key)
    ensures UniqueKeys(e + multiset{(key, value)})
  {
    var e' := e + multiset{(key, value)};
    forall p | p in e' ensures e'[p] == 1 {
      if p == (key, value) {
        assert p.0 in (set q | q in e :: q.0) <==> p in e || exists q :: q in e && q.0 == p.0;
      }
    }
  }

  // ------------------------------------------------------------ reachability

  ghost predicate Grows<V>(s: seq<Slot<V>>, s': seq<Slot<V>>)
  {
    |s| == |s'| && forall j :: 0 <= j < |s| && s[j].Full? ==> s'[j].Full?
  }

  lemma ReachesGrows<V>(s: seq<Slot<V>>, s': seq<Slot<V>>, key: string, i: nat)
    requires |s| > 0 && Grows(s, s') && Reaches(s, key, i)
    ensures Reaches(s', key, i)
  {
    var h := Home(key, |s|);
    var t: nat :| Probe(h, t, |s|) == i && Clear(s, h, t);
    assert Clear(s', h, t);
  }

  /** A slot overwritten without emptying anything keeps every other record findable. */
  lemma AllReachUpdate<V>(s: seq<Slot<V>>, p: nat, y: Slot<V>)
    requires |s| > 0 && p < |s| && AllReach(s)
    requires Grows(s, s[p := y])
    requires Live(y) ==> Reaches(s[p := y], y.pair.key, p)
    ensures AllReach(s[p := y])
  {
    var s' := s[p := y];
    forall i | 0 <= i < |s'| && Live(s'[i])
      ensures Reaches(s', s'[i].pair.key, i)
    {
      if i != p {
        ReachesGrows(s, s', s[i].pair.key, i);
      }
    }
  }

  /** A pair stored at step `w` of its own clear probe sequence is findable. */
  lemma StoredReaches<V>(s: seq<Slot<V>>, pair: KVPair<V>, w: nat)
    requires |s| > 0 && Clear(s, Home(pair.key, |s|), w)
    ensures Reaches(s[Probe(Home(pair.key, |s|), w, |s|) := Full(pair)], pair.key, Probe(Home(pair.key, |s|), w, |s|))
  {
    var p := Probe(Home(pair.key, |s|), w, |s|);
    var s' := s[p := Full(pair)];
    assert Clear(s', Home(pair.key, |s|), w);
  }

  // ------------------------------------------------------------ probe loops

  lemma {:induction false} FirstEmptySpot<V>(s: seq<Slot<V>>, home: nat, t: nat) returns (w: nat)
    requires |s| > 0 && Clear(s, home, t) && FirstEmpty(s, home, t).Some?
    ensures Probe(home, w, |s|) == FirstEmpty(s, home, t).value && Clear(s, home, w)
    decreases |s| - t
  {
    if s[Probe(home, t, |s|)].Empty? {
      w := t;
    } else {
      w := FirstEmptySpot(s, home, t + 1);
    }
  }

  lemma {:induction false} FirstEmptyNone<V>(s: seq<Slot<V>>, home: nat, t: nat)
    requires |s| > 0 && FirstEmpty(s, home, t).None?
    ensures forall u :: t <= u < |s| ==> s[Probe(home, u, |s|)].Full?
    decreases |s| - t
  {
    if t < |s| {
      FirstEmptyNone(s, home, t + 1);
    }
  }

  /**
   * When `FirstEmpty` gives up after one period, every step of the probe
   * sequence, however far, lands on a full slot: the `__transfer` loop of the
   * source never ends.
   */
  lemma TransferNeverEnds<V>(s: seq<Slot<V>>, home: nat)
    requires |s| > 0 && FirstEmpty(s, home, 0).None?
    ensures forall u: nat :: s[Probe(home, u, |s|)].Full?
  {
    FirstEmptyNone(s, home, 0);
    forall u: nat
      ensures s[Probe(home, u, |s|)].Full?
    {
      var t := ProbeWithinPeriod(home, u, |s|);
    }
  }

  lemma {:induction false} ScanInsertSpot<V>(s: seq<Slot<V>>, home: nat, t: nat, tomb: Option<nat>, t0: nat)
    returns (w: nat)
    requires |s| > 0 && Clear(s, home, t)
    requires tomb.Some? ==> tomb.value < |s| && s[tomb.value].Full? && s[tomb.value].pair.tombstone
    requires tomb.Some? ==> t0 < t && Probe(home, t0, |s|) == tomb.value
    requires ScanInsert(s, home, t, tomb).Some?
    ensures Probe(home, w, |s|) == ScanInsert(s, home, t, tomb).value && Clear(s, home, w)
    decreases |s| - t
  {
    var c := Probe(home, t, |s|);
    if s[c].Empty? {
      w := if tomb.Some? then t0 else t;
    } else if s[c].pair.tombstone && tomb.None? {
      w := ScanInsertSpot(s, home, t + 1, Some(c), t);
    } else {
      w := ScanInsertSpot(s, home, t + 1, tomb, t0);
    }
  }

  lemma {:induction false} ScanInsertNone<V>(s: seq<Slot<V>>, home: nat, t: nat, tomb: Option<nat>)
    requires |s| > 0
    requires tomb.Some? ==> tomb.value < |s| && s[tomb.value].Full? && s[tomb.value].pair.tombstone
    requires ScanInsert(s, home, t, tomb).None?
    ensures forall u :: t <= u < |s| ==> s[Probe(home, u, |s|)].Full?
    decreases |s| - t
  {
    if t < |s| {
      var c := Probe(home, t, |s|);
      ScanInsertNone(s, home, t + 1, if s[c].pair.tombstone && tomb.None? then Some(c) else tomb);
    }
  }

  /** Likewise the insertion loop of `hashtable_add` never ends when `ScanInsert` gives up. */
  lemma InsertNeverEnds<V>(s: seq<Slot<V>>, home: nat)
    requires |s| > 0 && ScanInsert(s, home, 0, None).None?
    ensures forall u: nat :: s[Probe(home, u, |s|)].Full?
  {
    ScanInsertNone(s, home, 0, None);
    forall u: nat
      ensures s[Probe(home, u, |s|)].Full?
    {
      var t := ProbeWithinPeriod(home, u, |s|);
    }
  }

  /** Storing a live pair where `ScanInsert` says keeps every record findable and adds one entry. */
  lemma InsertKeeps<V>(s: seq<Slot<V>>, pair: KVPair<V>)
    requires |s| > 0 && AllReach(s) && !pair.tombstone
    requires ScanInsert(s, Home(pair.key, |s|), 0, None).Some?
    ensures var s' := s[ScanInsert(s, Home(pair.key, |s|), 0, None).value := Full(pair)];
      AllReach(s') && Entries(s') == Entries(s) + multiset{(pair.key, pair.value)}
  {
    var h := Home(pair.key, |s|);
    var p := ScanInsert(s, h, 0, None).value;
    var w := ScanInsertSpot(s, h, 0, None, 0);
    StoredReaches(s, pair, w);
    AllReachUpdate(s, p, Full(pair));
    EntriesUpdate(s, p, Full(pair));
  }

  // ------------------------------------------------------------ doubling

  lemma TransferKeeps<V>(dest: seq<Slot<V>>, pair: KVPair<V>)
    requires |dest| > 0 && AllReach(dest) && NoTombstones(dest) && !pair.tombstone
    requires Transferred(dest, pair).Some?
    ensures var d := Transferred(dest, pair).value;
      AllReach(d) && NoTombstones(d) && Entries(d) == Entries(dest) + multiset{(pair.key, pair.value)}
  {
    var h := Home(pair.key, |dest|);
    var p := FirstEmpty(dest, h, 0).value;
    var w := FirstEmptySpot(dest, h, 0);
    StoredReaches(dest, pair, w);
    AllReachUpdate(dest, p, Full(pair));
    EntriesUpdate(dest, p, Full(pair));
  }

  lemma {:induction false} RehashKeeps<V>(src: seq<Slot<V>>, i: nat, dest: seq<Slot<V>>)
    requires |dest| > 0 && i <= |src|
    requires AllReach(dest) && NoTombstones(dest) && Entries(dest) == Entries(src[..i])
    requires RehashFrom(src, i, dest).Some?
    ensures var d := RehashFrom(src, i, dest).value;
      AllReach(d) && NoTombstones(d) && Entries(d) == Entries(src)
    decreases |src| - i
  {
    if i == |src| {
      assert src[..i] == src;
    } else {
      assert src[..i + 1][..i] == src[..i];
      if Live(src[i]) {
        TransferKeeps(dest, src[i].pair);
        RehashKeeps(src, i + 1, Transferred(dest, src[i].pair).value);
      } else {
        RehashKeeps(src, i + 1, dest);
      }
    }
  }

  /** Once no live record is left, the rest of `__rehash` transfers nothing. */
  lemma {:induction false} NothingLeft<V>(src: seq<Slot<V>>, i: nat, dest: seq<Slot<V>>)
    requires |dest| > 0 && i <= |src| && LiveCount(src[i..]) == 0
    ensures RehashFrom(src, i, dest) == Some(dest)
    decreases |src| - i
  {
    if i < |src| {
      LiveCountCons(src, i);
      NothingLeft(src, i + 1, dest);
    }
  }

  /**
   * `__doubleTable`: twice the slots, no tombstones, the same live records
   * with the same values, every one of them findable.
   */
  lemma DoubledKeeps<V>(s: seq<Slot<V>>)
    requires |s| > 0 && Doubled(s).Some?
    ensures var d := Doubled(s).value;
      |d| == 2 * |s| && NoTombstones(d) && AllReach(d) && Entries(d) == Entries(s)
  {
    var e: seq<Slot<V>> := seq(2 * |s|, _ => Empty);
    EntriesNoLive(e);
    assert s[..0] == [];
    RehashKeeps(s, 0, e);
  }

  /** What `__doubleTable` keeps, in terms of the count `__occupied` tracks. */
  lemma DoubledCount<V>(s: seq<Slot<V>>)
    requires |s| > 0 && Doubled(s).Some?
    ensures var d := Doubled(s).value;
      |d| == 2 * |s| && AllReach(d) && LiveCount(d) == LiveCount(s)
  {
    DoubledKeeps(s);
    CountIsSize(s);
    CountIsSize(Doubled(s).value);
  }

  // ------------------------------------------------------------ searching

  /** One step of the search loop at a slot that neither ends it nor needs a resize. */
  lemma SearchFromProbe<V>(s: seq<Slot<V>>, key: string, home: nat, curr: nat, step: nat, fuel: nat)
    requires |s| > 0 && curr < |s| && 1 <= step < ProbeLimit
    requires s[curr].Full? && !(Live(s[curr]) && s[curr].pair.key == key)
    ensures SearchFrom(s, key, home, curr, step, fuel) == SearchFrom(s, key, home, Probe(home, step, |s|), step + 1, fuel)
  {
  }

  /** At the probe limit the search goes on in the doubled table, from the key's new home. */
  lemma SearchFromResize<V>(s: seq<Slot<V>>, key: string, home: nat, curr: nat, fuel: nat)
    requires |s| > 0 && curr < |s| && fuel > 0 && Doubled(s).Some?
    requires s[curr].Full? && !(Live(s[curr]) && s[curr].pair.key == key)
    ensures SearchFrom(s, key, home, curr, ProbeLimit, fuel)
      == SearchFrom(Doubled(s).value, key, home, Home(key, 2 * |s|), 1, fuel - 1)
  {
  }

  /**
   * At the probe limit, with no resize left or a failed one, the search is
   * `Stuck`: the source would not return within that bound, or not at all.
   */
  lemma SearchFromStuck<V>(s: seq<Slot<V>>, key: string, home: nat, curr: nat, fuel: nat)
    requires |s| > 0 && curr < |s| && (fuel == 0 || Doubled(s).None?)
    requires s[curr].Full? && !(Live(s[curr]) && s[curr].pair.key == key)
    ensures SearchFrom(s, key, home, curr, ProbeLimit, fuel) == (s, Stuck)
  {
  }

  /**
   * A search either leaves the slots as they are, or ends in a doubled table
   * in which every live record is reachable and the entries are the same.
   */
  lemma {:induction false} SearchFromKeeps<V>(s: seq<Slot<V>>, key: string, home: nat, curr: nat, step: nat, fuel: nat)
    requires |s| > 0 && curr < |s| && 1 <= step <= ProbeLimit
    ensures var t := SearchFrom(s, key, home, curr, step, fuel).0;
      t == s || (AllReach(t) && Entries(t) == Entries(s))
    decreases fuel, ProbeLimit - step
  {
    var t := SearchFrom(s, key, home, curr, step, fuel).0;
    if s[curr].Empty? || (Live(s[curr]) && s[curr].pair.key == key) {
    } else if step >= ProbeLimit {
      if fuel > 0 && Doubled(s).Some? {
        var d := Doubled(s).value;
        var h := Home(key, |d|);
        SearchFromResize(s, key, home, curr, fuel);
        assert t == SearchFrom(d, key, home, h, 1, fuel - 1).0;
        SearchFromKeeps(d, key, home, h, 1, fuel - 1);
        DoubledKeeps(s);
      }
    } else {
      var next := Probe(home, step, |s|);
      SearchFromProbe(s, key, home, curr, step, fuel);
      assert t == SearchFrom(s, key, home, next, step + 1, fuel).0;
      SearchFromKeeps(s, key, home, next, step + 1, fuel);
    }
  }

  /** A search, resizing or not, keeps the table well formed and its live-record count. */
  lemma SearchKeeps<V>(s: seq<Slot<V>>, key: string, fuel: nat)
    requires WellFormed(s)
    ensures WellFormed(Search(s, key, fuel).0)
    ensures LiveCount(Search(s, key, fuel).0) == LiveCount(s)
  {
    var t := Search(s, key, fuel).0;
    SearchFromKeeps(s, key, Home(key, |s|), Home(key, |s|), 1, fuel);
    CountIsSize(s);
    CountIsSize(t);
  }

  /** A search, resizing or not, keeps the live records and their values. */
  lemma SearchSameEntries<V>(s: seq<Slot<V>>, key: string, fuel: nat)
    requires |s| > 0
    ensures Entries(Search(s, key, fuel).0) == Entries(s)
  {
    SearchFromKeeps(s, key, Home(key, |s|), Home(key, |s|), 1, fuel);
  }

  lemma {:induction false} SearchFromComplete<V>(s: seq<Slot<V>>, key: string, home: nat, curr: nat, step: nat, fuel: nat)
    requires |s| > 0 && 1 <= step <= ProbeLimit && AllReach(s)
    requires home == Home(key, |s|) && curr == Probe(home, step - 1, |s|)
    requires forall u :: 0 <= u < step - 1 ==>
      s[Probe(home, u, |s|)].Full? && !(Live(s[Probe(home, u, |s|)]) && s[Probe(home, u, |s|)].pair.key == key)
    requires |SearchFrom(s, key, home, curr, step, fuel).0| == |s|
    requires SearchFrom(s, key, home, curr, step, fuel).1.Absent?
    ensures forall i :: 0 <= i < |s| && Live(s[i]) ==> s[i].pair.key != key
    decreases ProbeLimit - step
  {
    if s[curr].Empty? {
      forall i | 0 <= i < |s| && Live(s[i])
        ensures s[i].pair.key != key
      {
        var k := s[i].pair.key;
        var t: nat :| Probe(Home(k, |s|), t, |s|) == i && Clear(s, Home(k, |s|), t);
      }
    } else if Live(s[curr]) && s[curr].pair.key == key {
    } else if step >= ProbeLimit {
    } else {
      SearchFromComplete(s, key, home, Probe(home, step, |s|), step + 1, fuel);
    }
  }

  /**
   * A search that neither resized nor got stuck is exact: it finds a slot
   * if and only if the key is live in the table.
   */
  lemma SearchNoResize<V>(s: seq<Slot<V>>, key: string, fuel: nat)
    requires |s| > 0 && AllReach(s)
    requires |Search(s, key, fuel).0| == |s| && !Search(s, key, fuel).1.Stuck?
    ensures Search(s, key, fuel).1.At? <==> HasKey(Entries(s), key)
  {
    var h := Home(key, |s|);
    var f := Search(s, key, fuel).1;
    if f.At? {
      LiveInEntries(s, f.index);
    } else {
      ProbeStart(h, |s|);
      SearchFromComplete(s, key, h, h, 1, fuel);
      KeyNotLive(s, key);
    }
  }

  // ------------------------------------------------------------ operations

  /**
   * `hashtable_add` keeps the table well formed; a stored pair adds exactly
   * its entry, and an add that stores nothing found the key live.
   */
  lemma AddedKeeps<V>(s: seq<Slot<V>>, pair: KVPair<V>, fuel: nat)
    requires WellFormed(s) && !pair.tombstone
    ensures WellFormed(Added(s, pair, fuel).0)
    ensures Added(s, pair, fuel).1 == Returned(true) ==>
      Entries(Added(s, pair, fuel).0) == Entries(s) + multiset{(pair.key, pair.value)}
    ensures Added(s, pair, fuel).1 != Returned(true) ==> Entries(Added(s, pair, fuel).0) == Entries(s)
    ensures Added(s, pair, fuel).1 == Returned(false) ==> HasKey(Entries(s), pair.key)
  {
    var (s1, f) := Search(s, pair.key, fuel);
    SearchKeeps(s, pair.key, fuel);
    SearchSameEntries(s, pair.key, fuel);
    if f.At? {
      LiveInEntries(s1, f.index);
    } else if f.Absent? {
      InsertedKeeps(s1, pair);
      InsertedCount(s1, pair);
    }
  }

  /** Storing a pair keeps every live key reachable and adds exactly its entry. */
  lemma InsertedKeeps<V>(s: seq<Slot<V>>, pair: KVPair<V>)
    requires |s| > 0 && AllReach(s) && !pair.tombstone
    ensures AllReach(Inserted(s, pair).0)
    ensures Inserted(s, pair).1 == Returned(true) ==>
      Entries(Inserted(s, pair).0) == Entries(s) + multiset{(pair.key, pair.value)}
    ensures Inserted(s, pair).1 != Returned(true) ==> Entries(Inserted(s, pair).0) == Entries(s)
  {
    var half := HalfFull(|s|, LiveCount(s));
    var grown := if half then Doubled(s) else Some(s);
    if grown.Some? {
      var s2 := grown.value;
      if half {
        DoubledKeeps(s);
      }
      if ScanInsert(s2, Home(pair.key, |s2|), 0, None).Some? {
        InsertKeeps(s2, pair);
      }
    }
  }

  /**
   * Storing a pair keeps the table well formed, at most half full plus one;
   * the count `__occupied` tracks grows by one exactly when it returns `true`.
   */
  lemma InsertedCount<V>(s: seq<Slot<V>>, pair: KVPair<V>)
    requires WellFormed(s) && !pair.tombstone
    ensures WellFormed(Inserted(s, pair).0)
    ensures LiveCount(Inserted(s, pair).0) == LiveCount(s) + (if Inserted(s, pair).1 == Returned(true) then 1 else 0)
  {
    var half := HalfFull(|s|, LiveCount(s));
    var grown := if half then Doubled(s) else Some(s);
    if grown.Some? {
      var s2 := grown.value;
      if half {
        DoubledCount(s);
      }
      if ScanInsert(s2, Home(pair.key, |s2|), 0, None).Some? {
        InsertKeeps(s2, pair);
        var s3 := Inserted(s, pair).0;
        CountIsSize(s2);
        CountIsSize(s3);
        assert |Entries(s2) + multiset{(pair.key, pair.value)}| == |Entries(s2)| + 1;
      }
    }
  }

  /** Adding a key that is live changes nothing, when its search does not resize. */
  lemma AddExisting<V>(s: seq<Slot<V>>, pair: KVPair<V>, fuel: nat)
    requires WellFormed(s) && HasKey(Entries(s), pair.key)
    requires |Search(s, pair.key, fuel).0| == |s| && !Search(s, pair.key, fuel).1.Stuck?
    ensures Added(s, pair, fuel) == (s, Returned(false))
  {
    SearchNoResize(s, pair.key, fuel);
  }

  /** An add whose search did not resize cannot create a second record for a key. */
  lemma AddedUnique<V>(s: seq<Slot<V>>, pair: KVPair<V>, fuel: nat)
    requires WellFormed(s) && !pair.tombstone && UniqueKeys(Entries(s))
    requires |Search(s, pair.key, fuel).0| == |s|
    ensures UniqueKeys(Entries(Added(s, pair, fuel).0))
  {
    AddedKeeps(s, pair, fuel);
    if Added(s, pair, fuel).1 == Returned(true) {
      SearchNoResize(s, pair.key, fuel);
      UniqueAddFresh(Entries(s), pair.key, pair.value);
    }
  }

  // ------------------------------------------ a search that misses a key

  /**
   * A table of 23 slots: "s" live at slot 0, "E" live at slot 8, which is
   * probe step 10 from their common home 0, and tombstones on probe steps 1
   * to 9 in between. It is a well-formed state, but not one the source's
   * own operations build: a table of odd size only comes from the
   * constructor, and the add that put "E" that far out would have doubled
   * the table during its search.
   */
  function MissSample(): (s: seq<Slot<int>>)
    ensures |s| == 23
  {
    seq(23, i =>
      if i == 0 then Full(KVPair("s", 0, false))
      else if i == 8 then Full(KVPair("E", 1, false))
      else if i in {1, 2, 3, 4, 9, 12, 13, 16, 18} then Full(KVPair("t", 2, true))
      else Empty)
  }

  /** Rehashing passes over slots without a live record. */
  lemma {:induction false} RehashSkips<V>(src: seq<Slot<V>>, i: nat, j: nat, dest: seq<Slot<V>>)
    requires |dest| > 0 && i <= j <= |src|
    requires forall k :: i <= k < j ==> !Live(src[k])
    ensures RehashFrom(src, i, dest) == RehashFrom(src, j, dest)
    decreases j - i
  {
    if i < j {
      RehashSkips(src, i + 1, j, dest);
    }
  }

  /** Counting passes over slots without a live record. */
  lemma {:induction false} LiveCountSkips<V>(s: seq<Slot<V>>, i: nat, j: nat)
    requires i <= j <= |s|
    requires forall k :: i <= k < j ==> !Live(s[k])
    ensures LiveCount(s[i..]) == LiveCount(s[j..])
    decreases j - i
  {
    if i < j {
      LiveCountCons(s, i);
      LiveCountSkips(s, i + 1, j);
    }
  }

  /** The homes in the sample and in its doubling. */
  lemma MissSampleHomes()
    ensures Home("s", 23) == 0 && Home("E", 23) == 0
    ensures Home("s", 46) == 23 && Home("E", 46) == 23
  {
    assert FoldSum("E") == 69 && FoldSum("s") == 115;
  }

  /** What the sample holds, slot by slot. */
  lemma MissSampleSlots()
    ensures MissSample()[0] == Full(KVPair("s", 0, false))
    ensures MissSample()[8] == Full(KVPair("E", 1, false))
    ensures forall i :: 0 <= i < 23 && Live(MissSample()[i]) ==> i == 0 || i == 8
    ensures forall i :: i in {1, 2, 3, 4, 9, 12, 13, 16, 18} ==> MissSample()[i].Full? && MissSample()[i].pair.tombstone
  {
  }

  /** The sample holds two live records. */
  lemma MissSampleCount()
    ensures LiveCount(MissSample()) == 2
  {
    var s := MissSample();
    MissSampleSlots();
    LiveCountCons(s, 0);
    LiveCountSkips(s, 1, 8);
    LiveCountCons(s, 8);
    LiveCountSkips(s, 9, 23);
    assert s[0..] == s && s[23..] == [];
  }

  /** The sample is a well-formed table holding "s" and "E" once each. */
  lemma MissSampleWellFormed()
    ensures WellFormed(MissSample())
    ensures HasKey(Entries(MissSample()), "E")
  {
    var s := MissSample();
    MissSampleReach();
    MissSampleCount();
    MissSampleSlots();
    LiveInEntries(s, 8);
    assert ("E", 1).0 == "E";
  }

  /** "s" sits on its home slot and "E" on probe step 10, behind full slots. */
  lemma MissSampleReach()
    ensures AllReach(MissSample())
  {
    var s := MissSample();
    MissSampleHomes();
    MissSampleSlots();
    assert Reaches(s, "s", 0) by {
      assert Probe(0, 0, 23) == 0 && Clear(s, 0, 0);
    }
    assert Reaches(s, "E", 8) by {
      forall u | 0 <= u < 10
        ensures s[Probe(0, u, 23)].Full?
      {
        assert u in {0, 1, 2, 3, 4, 5, 6, 7, 8, 9};
      }
      assert Probe(0, 10, 23) == 8;
    }
  }

  /** The sample, doubled: "s" moves to its new home 23 and "E" to the next probe, 24. */
  lemma MissSampleDoubled()
    ensures Doubled(MissSample()) ==
      Some(seq(46, _ => Empty)[23 := Full(KVPair("s", 0, false))][24 := Full(KVPair("E", 1, false))])
  {
    var s := MissSample();
    MissSampleHomes();
    MissSampleSlots();
    var e: seq<Slot<int>> := seq(46, _ => Empty);
    var d1 := e[23 := Full(KVPair("s", 0, false))];
    var d2 := d1[24 := Full(KVPair("E", 1, false))];
    assert FirstEmpty(e, 23, 0) == Some(23);
    assert Transferred(e, s[0].pair) == Some(d1);
    assert Probe(23, 1, 46) == 24;
    assert FirstEmpty(d1, 23, 1) == Some(24);
    assert FirstEmpty(d1, 23, 0) == Some(24);
    assert Transferred(d1, s[8].pair) == Some(d2);
    RehashSkips(s, 1, 8, d1);
    RehashSkips(s, 9, 23, d2);
  }

  /**
   * A search that doubles the table can miss a live key: the search for "E"
   * in the sample reaches the probe limit, doubles, and then probes around
   * the old home 0 in the new table, where "E" now sits elsewhere.
   */
  lemma SearchMissesAfterResize()
    ensures WellFormed(MissSample()) && HasKey(Entries(MissSample()), "E")
    ensures Doubled(MissSample()).Some?
    ensures Search(MissSample(), "E", 1) == (Doubled(MissSample()).value, Absent)
  {
    MissSampleWellFormed();
    MissSearch();
  }

  /** The search of the sample for "E", step by step. */
  lemma MissSearch()
    ensures Doubled(MissSample()).Some?
    ensures Search(MissSample(), "E", 1) == (Doubled(MissSample()).value, Absent)
  {
    var s := MissSample();
    MissFirstProbes();
    // at step 10 the tombstone on slot 12 triggers the doubling
    assert s[12].Full? && s[12].pair.tombstone && Doubled(s).Some? by {
      MissSampleSlots();
      MissSampleDoubled();
    }
    SearchFromResize(s, "E", 0, 12, 1);
    MissSampleHomes();
    // in the doubled table: "s" on slot 23, then the empty slot 1
    var d := Doubled(s).value;
    MissDoubledSlots();
    assert Probe(0, 1, 46) == 1;
    SearchEndsAtSecondProbe(d, "E", 0, 23, 0);
  }

  /** A search whose first slot does not match and whose next probe is empty reports absent. */
  lemma SearchEndsAtSecondProbe<V>(s: seq<Slot<V>>, key: string, home: nat, curr: nat, fuel: nat)
    requires |s| > 0 && curr < |s| && s[curr].Full? && !(Live(s[curr]) && s[curr].pair.key == key)
    requires s[Probe(home, 1, |s|)].Empty?
    ensures SearchFrom(s, key, home, curr, 1, fuel) == (s, Absent)
  {
    SearchFromProbe(s, key, home, curr, 1, fuel);
  }

  /** The slots of the doubled sample that the search and the add look at. */
  lemma MissDoubledSlots()
    ensures Doubled(MissSample()).Some?
    ensures var d := Doubled(MissSample()).value;
      |d| == 46 && d[23] == Full(KVPair("s", 0, false)) && d[24] == Full(KVPair("E", 1, false)) &&
      d[1].Empty? && d[27].Empty?
  {
    MissSampleDoubled();
  }

  /** Probe steps 1 to 9 for "E" pass "s" and the tombstones on slots 0, 1, 4, 9, 16, 2, 13, 3, 18. */
  lemma MissFirstProbes()
    ensures Search(MissSample(), "E", 1) == SearchFrom(MissSample(), "E", 0, 12, ProbeLimit, 1)
  {
    MissSampleHomes();
    MissSampleSlots();
    var s := MissSample();
    var probes := [0, 1, 4, 9, 16, 2, 13, 3, 18, 12];
    assert forall k :: 0 <= k < 10 ==> probes[k] == Probe(0, k, 23);
    SearchFromProbe(s, "E", 0, 0, 1, 1);
    SearchFromProbe(s, "E", 0, 1, 2, 1);
    SearchFromProbe(s, "E", 0, 4, 3, 1);
    SearchFromProbe(s, "E", 0, 9, 4, 1);
    SearchFromProbe(s, "E", 0, 16, 5, 1);
    SearchFromProbe(s, "E", 0, 2, 6, 1);
    SearchFromProbe(s, "E", 0, 13, 7, 1);
    SearchFromProbe(s, "E", 0, 3, 8, 1);
    SearchFromProbe(s, "E", 0, 18, 9, 1);
  }

  /** So an add of "E" to the sample stores a second live record under that key. */
  lemma AddDuplicatesAfterResize()
    ensures var s2 := Added(MissSample(), KVPair("E", 5, false), 1).0;
      ("E", 1) in Entries(s2) && ("E", 5) in Entries(s2)
  {
    MissSearch();
    var d := Doubled(MissSample()).value;
    MissInsert();
    var d3 := d[27 := Full(KVPair("E", 5, false))];
    assert Added(MissSample(), KVPair("E", 5, false), 1).0 == d3;
    MissDoubledSlots();
    LiveInEntries(d3, 24);
    LiveInEntries(d3, 27);
  }

  /** The doubled sample is not half full, and "E" goes to the first empty probe of its home 23: slot 27. */
  lemma MissInsert()
    ensures Doubled(MissSample()).Some?
    ensures var d := Doubled(MissSample()).value;
      Inserted(d, KVPair("E", 5, false)) == (d[27 := Full(KVPair("E", 5, false))], Returned(true))
  {
    var s := MissSample();
    MissDoubledSlots();
    var d := Doubled(s).value;
    MissSampleCount();
    DoubledCount(s);
    assert !HalfFull(46, LiveCount(d));
    MissSampleHomes();
    assert Probe(23, 2, 46) == 27 && Probe(23, 1, 46) == 24 && Probe(23, 0, 46) == 23;
    InsertAtThirdProbe(d, KVPair("E", 5, false));
  }

  /**
   * An insertion into a table that is not half full, whose first two probes
   * hold live records and whose third is empty, stores the pair at the third.
   */
  lemma InsertAtThirdProbe<V>(s: seq<Slot<V>>, pair: KVPair<V>)
    requires |s| > 0 && !HalfFull(|s|, LiveCount(s))
    requires var h := Home(pair.key, |s|);
      Live(s[Probe(h, 0, |s|)]) && Live(s[Probe(h, 1, |s|)]) && s[Probe(h, 2, |s|)].Empty?
    ensures Inserted(s, pair) == (s[Probe(Home(pair.key, |s|), 2, |s|) := Full(pair)], Returned(true))
  {
    var h := Home(pair.key, |s|);
    assert ScanInsert(s, h, 2, None) == Some(Probe(h, 2, |s|));
    assert ScanInsert(s, h, 1, None) == ScanInsert(s, h, 2, None);
  }

  /**
   * After adding a new key, a lookup of that key returns the added value
   * whenever it returns a value, and it does return one unless its own
   * search resizes or gets stuck.
   */
  lemma AddThenLookup<V>(s: seq<Slot<V>>, pair: KVPair<V>, fuel: nat, fuel': nat)
    requires WellFormed(s) && !pair.tombstone
    requires Added(s, pair, fuel).1 == Returned(true)
    requires |Search(s, pair.key, fuel).0| == |s|
    ensures var s1 := Added(s, pair, fuel).0;
      var r := LookedUp(s1, pair.key, fuel');
      (r.1.Returned? && r.1.value.Some? ==> r.1.value.value == pair.value) &&
      (|r.0| == |s1| && r.1.Returned? ==> r.1 == Returned(Some(pair.value)))
  {
    var s1 := Added(s, pair, fuel).0;
    AddedKeeps(s, pair, fuel);
    SearchNoResize(s, pair.key, fuel);
    var (s2, f) := Search(s1, pair.key, fuel');
    SearchSameEntries(s1, pair.key, fuel');
    if f.At? {
      LiveInEntries(s2, f.index);
      assert (pair.key, s2[f.index].pair.value) !in Entries(s);
    } else if f.Absent? && |s2| == |s1| {
      assert (pair.key, pair.value) in Entries(s1);
      SearchNoResize(s1, pair.key, fuel');
    }
  }

  /** `hashtable_lookup_value`: a value returned is the key's; `None` without a resize means the key is absent. */
  lemma LookedUpFinds<V>(s: seq<Slot<V>>, key: string, fuel: nat)
    requires WellFormed(s)
    ensures WellFormed(LookedUp(s, key, fuel).0)
    ensures Entries(LookedUp(s, key, fuel).0) == Entries(s)
    ensures LookedUp(s, key, fuel).1.Returned? && LookedUp(s, key, fuel).1.value.Some? ==>
      (key, LookedUp(s, key, fuel).1.value.value) in Entries(s)
    ensures LookedUp(s, key, fuel).1.Returned? && |LookedUp(s, key, fuel).0| == |s| ==>
      (LookedUp(s, key, fuel).1.value.None? <==> !HasKey(Entries(s), key))
  {
    var (s1, f) := Search(s, key, fuel);
    SearchKeeps(s, key, fuel);
    SearchSameEntries(s, key, fuel);
    if f.At? {
      LiveInEntries(s1, f.index);
    }
    if !f.Stuck? && |s1| == |s| {
      SearchNoResize(s, key, fuel);
    }
  }

  /**
   * Overwriting a live record without emptying its slot or changing a live
   * key keeps the table well formed; the count drops by one exactly when the
   * new record is a tombstone.
   */
  lemma OverwriteKeeps<V>(s: seq<Slot<V>>, i: nat, y: Slot<V>)
    requires WellFormed(s) && i < |s| && Live(s[i]) && y.Full?
    requires Live(y) ==> y.pair.key == s[i].pair.key
    ensures WellFormed(s[i := y])
    ensures LiveCount(s[i := y]) + 1 == LiveCount(s) + (if Live(y) then 1 else 0)
  {
    var s' := s[i := y];
    assert Grows(s, s');
    if Live(y) {
      ReachesGrows(s, s', y.pair.key, i);
    }
    AllReachUpdate(s, i, y);
    EntriesUpdate(s, i, y);
    CountIsSize(s);
    CountIsSize(s');
    assert |EntryOf(s[i])| == 1 && |EntryOf(y)| == (if Live(y) then 1 else 0);
    assert |Entries(s') + EntryOf(s[i])| == |Entries(s')| + |EntryOf(s[i])|;
    assert |Entries(s) + EntryOf(y)| == |Entries(s)| + |EntryOf(y)|;
  }

  /**
   * `hashtable_edit_value`: on success exactly one entry of the key trades
   * its old value `w` for the new one; otherwise the contents are unchanged,
   * and without a resize the key was absent and nothing changed at all.
   */
  lemma EditedKeeps<V>(s: seq<Slot<V>>, key: string, newValue: V, fuel: nat) returns (w: V)
    requires WellFormed(s)
    ensures var r := Edited(s, key, newValue, fuel);
      WellFormed(r.0) &&
      (r.1 == Returned(true) ==>
        (key, w) in Entries(s) && Entries(r.0) + multiset{(key, w)} == Entries(s) + multiset{(key, newValue)}) &&
      (r.1 != Returned(true) ==> Entries(r.0) == Entries(s)) &&
      (r.1 == Returned(false) && |r.0| == |s| ==> r.0 == s && !HasKey(Entries(s), key))
  {
    var (s1, f) := Search(s, key, fuel);
    SearchKeeps(s, key, fuel);
    SearchSameEntries(s, key, fuel);
    w := newValue;
    if f.At? {
      var i := f.index;
      w := s1[i].pair.value;
      LiveInEntries(s1, i);
      OverwriteKeeps(s1, i, Full(s1[i].pair.(value := newValue)));
      EntriesUpdate(s1, i, Full(s1[i].pair.(value := newValue)));
    } else if f.Absent? && |s1| == |s| {
      SearchNoResize(s, key, fuel);
    }
  }

  /**
   * `hashtable_delete`: on success one entry `w` of the key is gone, so
   * occupied drops by one; otherwise nothing changes, and without a resize
   * the key was absent.
   */
  lemma DeletedKeeps<V>(s: seq<Slot<V>>, token: KVPair<V>, fuel: nat) returns (w: V)
    requires WellFormed(s)
    ensures var r := Deleted(s, token, fuel);
      WellFormed(r.0) &&
      (r.1 == Returned(true) ==> Entries(r.0) + multiset{(token.key, w)} == Entries(s)) &&
      (r.1 != Returned(true) ==> Entries(r.0) == Entries(s)) &&
      (r.1 == Returned(false) && |r.0| == |s| ==> !HasKey(Entries(s), token.key))
  {
    var (s1, f) := Search(s, token.key, fuel);
    SearchKeeps(s, token.key, fuel);
    SearchSameEntries(s, token.key, fuel);
    w := token.value;
    if f.At? {
      var i := f.index;
      w := s1[i].pair.value;
      OverwriteKeeps(s1, i, Full(s1[i].pair.(tombstone := true)));
      EntriesUpdate(s1, i, Full(s1[i].pair.(tombstone := true)));
    } else if f.Absent? && |s1| == |s| {
      SearchNoResize(s, token.key, fuel);
    }
  }

  /** Taking one entry of a key out of a table with unique keys leaves no entry of that key. */
  lemma UniqueRemove<V>(e: multiset<(string, V)>, e': multiset<(string, V)>, key: string, w: V)
    requires UniqueKeys(e) && e' + multiset{(key, w)} == e
    ensures !HasKey(e', key) && UniqueKeys(e')
  {
    forall p | p in e'
      ensures p.0 != key
    {
      assert p in e && (key, w) in e;
      assert e'[(key, w)] + 1 == e[(key, w)];
    }
    forall p | p in e'
      ensures e'[p] == 1
    {
      assert e'[p] <= e[p];
    }
  }

  /** With unique keys, a deleted key is gone: no later search finds it. */
  lemma DeleteThenSearch<V>(s: seq<Slot<V>>, token: KVPair<V>, fuel: nat, fuel': nat)
    requires WellFormed(s) && UniqueKeys(Entries(s))
    requires Deleted(s, token, fuel).1 == Returned(true)
    ensures !HasKey(Entries(Deleted(s, token, fuel).0), token.key)
    ensures UniqueKeys(Entries(Deleted(s, token, fuel).0))
    ensures !Search(Deleted(s, token, fuel).0, token.key, fuel').1.At?
  {
    var s2 := Deleted(s, token, fuel).0;
    var w := DeletedKeeps(s, token, fuel);
    UniqueRemove(Entries(s), Entries(s2), token.key, w);
    var (s3, g) := Search(s2, token.key, fuel');
    SearchSameEntries(s2, token.key, fuel');
    if g.At? {
      LiveInEntries(s3, g.index);
    }
  }
}
