/**
 * `HashTable` of HashTable.py as an object: a record array updated in place,
 * its size and its occupied count. Each method runs the source's loops on the
 * array and is proved to leave the table exactly as the matching function of
 * `HashSlots` says; `HashFacts` proves what those functions promise.
 *
 * Every search takes `fuel`, the number of mid-search doublings it may make;
 * a result `Stuck` / `NoReturn` means the source would not return within
 * that bound or not at all (a probe loop that cycles through full slots).
 */
module HashTables {
  import opened Wrappers
  import opened HashSlots
  import opened HashFacts

  class HashTable<V(==)> {
    var size: int
    var records: array<Slot<V>>
    var occupied: int

    /** `__size` is the array's length and `__occupied` counts the live records. */
    ghost predicate Counted()
      reads this, records
    {
      size == records.Length > 0 && occupied == LiveCount(records[..])
    }

    /** Besides, every live record is reachable from its home and at most about half the slots are live. */
    ghost predicate Valid()
      reads this, records
    {
      Counted() && WellFormed(records[..])
    }

    /** `__init__`: `max(size, MINIMUM_SIZE)` empty slots and nothing occupied. */
    constructor(size: int)
      ensures Valid() && fresh(records)
      ensures this.size == if size > MinimumSize then size else MinimumSize
      ensures occupied == 0 && forall i :: 0 <= i < records.Length ==> records[i].Empty?
    {
      var n := if size > MinimumSize then size else MinimumSize;
      this.size := n;
      records := new Slot<V>[n](_ => Empty);
      occupied := 0;
      new;
      EntriesNoLive(records[..]);
      CountIsSize(records[..]);
    }

    /** `hash`: the string fold of `s`, taken modulo `m`. */
    static method Hash(s: string, m: int) returns (h: nat)
      requires m > 0
      ensures h == Home(s, m)
    {
      var intLength := |s| / 4;
      var sum := 0;
      for j := 0 to intLength
        invariant sum == FoldSum(s[..4 * j])
      {
        sum := FoldBlock(s, j * 4, sum);
      }
      var index := intLength * 4;
      sum := FoldBlock(s, index, sum);
      assert s[..|s|] == s;
      // `abs` leaves the remainder as it is: the fold is never negative.
      h := sum % m;
    }

    /**
     * One block of `hash`'s fold: the characters from `start` up to four
     * further, or up to the end of `s`, weighted 1, 256, 256^2, 256^3.
     */
    static method FoldBlock(s: string, start: nat, sum0: nat) returns (sum: nat)
      requires start <= |s| && start % 4 == 0 && sum0 == FoldSum(s[..start])
      ensures sum == FoldSum(s[..if start + 4 <= |s| then start + 4 else |s|])
    {
      var end := if start + 4 <= |s| then start + 4 else |s|;
      var c := s[start..end];
      var mult := 1;
      sum := sum0;
      for k := 0 to |c|
        invariant sum == FoldSum(s[..start + k]) && mult == Pow256(k)
      {
        FoldStepInBlock(s, start, k);
        sum := sum + (c[k] as int) * mult;
        mult := mult * 256;
      }
    }

    /** `__isHalfFull`. */
    predicate IsHalfFull()
      reads this
    {
      HalfFull(size, occupied)
    }

    /**
     * `__transfer`: store `src` at the first empty slot of its probe sequence
     * in `dest`. After one whole period without an empty slot the source
     * would probe forever; this reports `false` instead.
     */
    method Transfer(dest: array<Slot<V>>, src: KVPair<V>) returns (ok: bool)
      requires dest.Length > 0
      modifies dest
      ensures ok == Transferred(old(dest[..]), src).Some?
      ensures ok ==> dest[..] == Transferred(old(dest[..]), src).value
      ensures !ok ==> dest[..] == old(dest[..])
    {
      var n := dest.Length;
      var home := Hash(src.key, n);
      var curr := home;
      var step := 1;
      ProbeStart(home, n);
      while step <= n && dest[curr].Full?
        invariant 1 <= step <= n + 1 && curr == Probe(home, step - 1, n)
        invariant FirstEmpty(dest[..], home, 0) == FirstEmpty(dest[..], home, step - 1)
      {
        curr := Probe(home, step, n);
        step := step + 1;
      }
      if step > n {
        return false;
      }
      dest[curr] := Full(src);
      ok := true;
    }

    /** `__rehash`: transfer the live records into `dest`, stopping after the last one. */
    method Rehash(dest: array<Slot<V>>) returns (ok: bool)
      requires Counted() && dest.Length > 0 && dest != records
      modifies dest
      ensures ok == RehashFrom(records[..], 0, old(dest[..])).Some?
      ensures ok ==> dest[..] == RehashFrom(records[..], 0, old(dest[..])).value
    {
      var remain := occupied;
      var i := 0;
      assert records[0..] == records[..];
      while remain > 0
        invariant 0 <= i <= records.Length
        invariant remain == LiveCount(records[i..])
        invariant i == records.Length ==> remain == 0
        invariant RehashFrom(records[..], 0, old(dest[..])) == RehashFrom(records[..], i, dest[..])
        decreases records.Length - i
      {
        LiveCountCons(records[..], i);
        assert records[..][i..] == records[i..] && records[..][i + 1..] == records[i + 1..];
        if records[i].Full? && !records[i].pair.tombstone {
          ok := Transfer(dest, records[i].pair);
          if !ok {
            return;
          }
          remain := remain - 1;
        }
        if i + 1 == records.Length {
          assert records[i + 1..] == [];
        }
        i := i + 1;
      }
      assert records[..][i..] == records[i..];
      NothingLeft(records[..], i, dest[..]);
      ok := true;
    }

    /** `__doubleTable`: rehash into a fresh array of twice the size. */
    method DoubleTable() returns (ok: bool)
      requires Counted()
      modifies this
      ensures Counted() && occupied == old(occupied)
      ensures ok ==> AllReach(records[..])
      ensures ok == Doubled(old(records[..])).Some?
      ensures ok ==> records[..] == Doubled(old(records[..])).value && fresh(records)
      ensures !ok ==> records == old(records) && size == old(size)
    {
      var newRecords := new Slot<V>[size * 2](_ => Empty);
      assert newRecords[..] == seq(2 * size, _ => Empty);
      ok := Rehash(newRecords);
      if ok {
        DoubledCount(records[..]);
        records := newRecords;
        size := newRecords.Length;
      }
    }

    /**
     * `hashtable_exist_by_key`: probe from the key's home; after
     * `ProbeLimit` probes double the table, restart at the key's home in the
     * new table and go on probing from the old `home`.
     */
    method ExistByKey(searchKey: string, fuel: nat) returns (f: Found)
      requires Valid()
      modifies this
      ensures Valid() && occupied == old(occupied)
      ensures (records[..], f) == Search(old(records[..]), searchKey, fuel)
      ensures records == old(records) || fresh(records)
    {
      ghost var s0 := records[..];
      var home := Hash(searchKey, size);
      var curr: nat := home;
      var step: nat := 1;
      var fuelLeft: nat := fuel;
      f := Absent;
      while records[curr].Full?
        invariant Counted() && occupied == old(occupied)
        invariant 1 <= step <= ProbeLimit && curr < size
        invariant records == old(records) || fresh(records)
        invariant Search(s0, searchKey, fuel) == SearchFrom(records[..], searchKey, home, curr, step, fuelLeft)
        decreases fuelLeft, ProbeLimit - step
      {
        ghost var s := records[..];
        if !records[curr].pair.tombstone && records[curr].pair.key == searchKey {
          assert SearchFrom(s, searchKey, home, curr, step, fuelLeft) == (s, At(curr));
          f := At(curr);
          break;
        }
        if step >= ProbeLimit {
          if fuelLeft == 0 {
            SearchFromStuck(s, searchKey, home, curr, fuelLeft);
            f := Stuck;
            break;
          }
          var ok := ResizeMidSearch(searchKey, home, curr, fuelLeft);
          if !ok {
            f := Stuck;
            break;
          }
          fuelLeft := fuelLeft - 1;
          step := 1;
          curr := Hash(searchKey, size);
        } else {
          SearchFromProbe(s, searchKey, home, curr, step, fuelLeft);
          curr := Probe(home, step, size);
          step := step + 1;
        }
      }
      assert Search(s0, searchKey, fuel) == (records[..], f);
      SearchKeeps(s0, searchKey, fuel);
    }

    /**
     * The doubling `hashtable_exist_by_key` makes after `ProbeLimit` probes:
     * on success the search goes on in the doubled table from the key's new
     * home; a failed doubling leaves a search that would not return.
     */
    method ResizeMidSearch(searchKey: string, home: nat, ghost curr: nat, fuelLeft: nat) returns (ok: bool)
      requires Counted() && curr < size && fuelLeft > 0
      requires records[curr].Full? && !(Live(records[curr]) && records[curr].pair.key == searchKey)
      modifies this
      ensures Counted() && occupied == old(occupied)
      ensures records == old(records) || fresh(records)
      ensures ok ==>
        SearchFrom(old(records[..]), searchKey, home, curr, ProbeLimit, fuelLeft)
        == SearchFrom(records[..], searchKey, home, Home(searchKey, size), 1, fuelLeft - 1)
      ensures !ok ==>
        records == old(records) &&
        SearchFrom(records[..], searchKey, home, curr, ProbeLimit, fuelLeft) == (records[..], Stuck)
    {
      ghost var s := records[..];
      ok := DoubleTable();
      if ok {
        SearchFromResize(s, searchKey, home, curr, fuelLeft);
      } else {
        SearchFromStuck(s, searchKey, home, curr, fuelLeft);
      }
    }

    /** `hashtable_exist`: the same search, matching on `compareTo(token) == 0`, i.e. on the key. */
    method Exist(token: KVPair<V>, fuel: nat) returns (f: Found)
      requires Valid()
      modifies this
      ensures Valid() && occupied == old(occupied)
      ensures (records[..], f) == Search(old(records[..]), token.key, fuel)
      ensures records == old(records) || fresh(records)
    {
      f := ExistByKey(token.key, fuel);
    }

    /**
     * `hashtable_add`: nothing when the key is found; otherwise double when
     * half full, then store the pair at the first tombstone on its probe
     * sequence, or else at the first empty slot.
     */
    method Add(pair: KVPair<V>, fuel: nat) returns (r: Outcome<bool>)
      requires Valid() && !pair.tombstone
      modifies this, records
      ensures Valid()
      ensures (records[..], r) == Added(old(records[..]), pair, fuel)
    {
      ghost var s0 := records[..];
      var f := Exist(pair, fuel);
      assert Search(s0, pair.key, fuel) == (records[..], f);
      match f
      case Stuck => r := NoReturn;
      case At(_) => r := Returned(false);
      case Absent => r := Insert(pair);
    }

    /**
     * `hashtable_add` once the key was not found: double when half full, then
     * store the pair through the insertion loop.
     */
    method Insert(pair: KVPair<V>) returns (r: Outcome<bool>)
      requires Valid() && !pair.tombstone
      modifies this, records
      ensures Valid()
      ensures (records[..], r) == Inserted(old(records[..]), pair)
    {
      ghost var s1 := records[..];
      InsertedCount(s1, pair);
      ghost var grown: Option<seq<Slot<V>>> := Some(s1);
      if IsHalfFull() {
        grown := Doubled(s1);
        var ok := DoubleTable();
        if !ok {
          return NoReturn;
        }
      }
      ghost var s2 := records[..];
      assert grown == Some(s2);
      var ok := Store(pair);
      if !ok {
        return NoReturn;
      }
      occupied := occupied + 1;
      r := Returned(true);
    }

    /**
     * The insertion loop of `hashtable_add`: probe from the pair's home,
     * remembering the first tombstone, up to the first empty slot; store the
     * pair at the tombstone if there was one, else at the empty slot.
     */
    method Store(pair: KVPair<V>) returns (ok: bool)
      requires size == records.Length > 0
      modifies records
      ensures ok == ScanInsert(old(records[..]), Home(pair.key, size), 0, None).Some?
      ensures ok ==> records[..] == old(records[..])[ScanInsert(old(records[..]), Home(pair.key, size), 0, None).value := Full(pair)]
      ensures !ok ==> records[..] == old(records[..])
    {
      ghost var s2 := records[..];
      var home := Hash(pair.key, size);
      var tombstone: Option<nat> := None;
      var curr: nat := home;
      var step: nat := 1;
      ProbeStart(home, size);
      while step <= size && records[curr].Full?
        invariant 1 <= step <= size + 1 && curr == Probe(home, step - 1, size)
        invariant tombstone.Some? ==> tombstone.value < size && s2[tombstone.value].Full? && s2[tombstone.value].pair.tombstone
        invariant ScanInsert(s2, home, 0, None) == ScanInsert(s2, home, step - 1, tombstone)
      {
        if records[curr].pair.tombstone && tombstone.None? {
          tombstone := Some(curr);
        }
        curr := Probe(home, step, size);
        step := step + 1;
      }
      if step > size {
        return false;
      }
      var pos := if tombstone.Some? then tombstone.value else curr;
      assert ScanInsert(s2, home, 0, None) == Some(pos);
      records[pos] := Full(pair);
      ok := true;
    }

    /** `hashtable_lookup_value`: the value of the record found, or `None`. */
    method LookupValue(searchKey: string, fuel: nat) returns (r: Outcome<Option<V>>)
      requires Valid()
      modifies this
      ensures Valid()
      ensures (records[..], r) == LookedUp(old(records[..]), searchKey, fuel)
    {
      var index := ExistByKey(searchKey, fuel);
      match index
      case Stuck => r := NoReturn;
      case Absent => r := Returned(None);
      case At(i) => r := Returned(Some(records[i].pair.value));
    }

    /** `hashtable_edit_value`: give the record found the new value; `false` if there is none. */
    method EditValue(searchKey: string, newValue: V, fuel: nat) returns (r: Outcome<bool>)
      requires Valid()
      modifies this, records
      ensures Valid()
      ensures (records[..], r) == Edited(old(records[..]), searchKey, newValue, fuel)
    {
      ghost var s0 := records[..];
      var index := ExistByKey(searchKey, fuel);
      ghost var s1 := records[..];
      assert Search(s0, searchKey, fuel) == (s1, index);
      match index
      case Stuck => r := NoReturn;
      case Absent => r := Returned(false);
      case At(i) =>
        assert Edited(s0, searchKey, newValue, fuel) == (s1[i := Full(s1[i].pair.(value := newValue))], Returned(true));
        OverwriteKeeps(s1, i, Full(s1[i].pair.(value := newValue)));
        records[i] := Full(records[i].pair.(value := newValue));
        r := Returned(true);
    }

    /** `hashtable_delete`: mark the record found as a tombstone and count it off. */
    method Delete(token: KVPair<V>, fuel: nat) returns (r: Outcome<bool>)
      requires Valid()
      modifies this, records
      ensures Valid()
      ensures (records[..], r) == Deleted(old(records[..]), token, fuel)
    {
      ghost var s0 := records[..];
      var pos := Exist(token, fuel);
      ghost var s1 := records[..];
      assert Search(s0, token.key, fuel) == (s1, pos);
      match pos
      case Stuck => r := NoReturn;
      case Absent => r := Returned(false);
      case At(i) =>
        assert Deleted(s0, token, fuel) == (s1[i := Full(s1[i].pair.(tombstone := true))], Returned(true));
        OverwriteKeeps(s1, i, Full(s1[i].pair.(tombstone := true)));
        records[i] := Full(records[i].pair.(tombstone := true));
        occupied := occupied - 1;
        r := Returned(true);
    }

    /** `hashtable_getSize`: the number of slots. */
    method GetSize() returns (n: int)
      requires Valid()
      ensures n == records.Length && n >= MinimumSize
    {
      n := size;
    }

    /** `hashtable_getOccupied`: the number of live records. */
    method GetOccupied() returns (n: int)
      requires Valid()
      ensures n == |Entries(records[..])| && 2 * n <= records.Length + 1
    {
      n := occupied;
      CountIsSize(records[..]);
    }
  }
}
