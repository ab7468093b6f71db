/** The image list (slideshow/src/imglist.c): a growable array of path
    entries, each either a path or a tombstone (NULL) left by a skipped file,
    and a cursor that walks the array cyclically, skipping tombstones and
    reshuffling the array in place every time it passes the end. */
module ImgList {
  import opened Memory

  type Path = string

  /** A slot of the list: a path, or None for a tombstone. */
  type Entry = Option<Path>

  /** rand(): an arbitrary sequence of naturals, consumed one per call. */
  class Random {
    const values: nat -> nat
    var drawn: nat

    constructor (values: nat -> nat)
      ensures this.values == values && drawn == 0
    {
      this.values := values;
      drawn := 0;
    }

    method Rand() returns (v: nat)
      modifies this
      ensures v == values(old(drawn)) && drawn == old(drawn) + 1
    {
      v := values(drawn);
      drawn := drawn + 1;
    }
  }

  /** `s` with the entries at `i` and `j` exchanged. */
  function Swap(s: seq<Entry>, i: nat, j: nat): (r: seq<Entry>)
    requires i < |s| && j < |s|
    ensures |r| == |s|
  {
    s[i := s[j]][j := s[i]]
  }

  /** The first `n` steps of shuffle: step `i` exchanges position `i` with
      position `values(drawn + i) % |s|` unless they coincide. The whole
      shuffle is `Shuffled(s, |s|, values, drawn)`. */
  function Shuffled(s: seq<Entry>, n: nat, values: nat -> nat, drawn: nat): (r: seq<Entry>)
    requires n <= |s|
    ensures |r| == |s|
  {
    if n == 0 then s
    else
      var t := Shuffled(s, n - 1, values, drawn);
      var j := values(drawn + n - 1) % |s|;
      if n - 1 != j then Swap(t, n - 1, j) else t
  }

  /** Whatever rand() returns, the shuffle keeps the entries, tombstones
      included: it only rearranges them. */
  lemma {:induction false} ShufflePermutes(s: seq<Entry>, n: nat, values: nat -> nat, drawn: nat)
    requires n <= |s|
    ensures multiset(Shuffled(s, n, values, drawn)) == multiset(s)
  {
    if n > 0 {
      assert multiset(Shuffled(s, n - 1, values, drawn)) == multiset(s) by {
        ShufflePermutes(s, n - 1, values, drawn);
      }
      assert multiset(Shuffled(s, n, values, drawn)) == multiset(Shuffled(s, n - 1, values, drawn)) by {
        ShuffleStep(s, n, values, drawn);
      }
    }
  }

  /** Step `n - 1` of the shuffle keeps the entries. */
  lemma ShuffleStep(s: seq<Entry>, n: nat, values: nat -> nat, drawn: nat)
    requires 0 < n <= |s|
    ensures multiset(Shuffled(s, n, values, drawn)) == multiset(Shuffled(s, n - 1, values, drawn))
  {
    var t := Shuffled(s, n - 1, values, drawn);
    var j := values(drawn + n - 1) % |s|;
    if n - 1 != j {
      SwapPermutes(t, n - 1, j);
    }
  }

  lemma SwapPermutes(s: seq<Entry>, i: nat, j: nat)
    requires i < |s| && j < |s|
    ensures multiset(Swap(s, i, j)) == multiset(s)
  {
  }

  /** The number of entries that are not tombstones. */
  function LiveCount(s: seq<Entry>): nat {
    if s == [] then 0 else (if s[0].Some? then 1 else 0) + LiveCount(s[1..])
  }

  /** The live entries and the tombstones together make up the list. */
  lemma {:induction false} LiveCountTombstones(s: seq<Entry>)
    ensures LiveCount(s) + multiset(s)[None] == |s|
  {
    if s != [] {
      assert s == [s[0]] + s[1..];
      assert multiset(s) == multiset{s[0]} + multiset(s[1..]);
      LiveCountTombstones(s[1..]);
    }
  }

  /** A rearrangement keeps the number of live entries. */
  lemma LiveCountPermuted(s: seq<Entry>, t: seq<Entry>)
    requires multiset(s) == multiset(t)
    ensures LiveCount(s) == LiveCount(t)
  {
    LiveCountTombstones(s);
    LiveCountTombstones(t);
    assert |s| == |multiset(s)| == |multiset(t)| == |t|;
  }

  /** Tombstoning a live slot removes exactly one live entry. */
  lemma {:induction false} TombstoneDropsOne(s: seq<Entry>, c: nat)
    requires c < |s| && s[c].Some?
    ensures LiveCount(s[c := None]) == LiveCount(s) - 1
  {
    if c == 0 {
      assert s[c := None][1..] == s[1..];
    } else {
      assert s[c := None][1..] == s[1..][c - 1 := None];
      TombstoneDropsOne(s[1..], c - 1);
    }
  }

  /** No live entry means every slot is a tombstone. */
  lemma {:induction false} NoLiveAllTombstones(s: seq<Entry>)
    ensures LiveCount(s) == 0 <==> forall k :: 0 <= k < |s| ==> s[k].None?
  {
    if s != [] {
      NoLiveAllTombstones(s[1..]);
      if LiveCount(s) == 0 {
        forall k | 0 <= k < |s| ensures s[k].None? {
          if k > 0 { assert s[k] == s[1..][k - 1]; }
        }
      }
      if forall k :: 0 <= k < |s| ==> s[k].None? {
        assert forall k :: 0 <= k < |s| - 1 ==> s[1..][k] == s[k + 1];
      }
    }
  }

  /** One file handed to add_file and the outcome of its two allocations:
      growing the array (only asked for when it is full) and copying the
      path. */
  datatype Attempt = Attempt(path: Path, growOk: bool, copyOk: bool)

  /** The entries gathered so far and the capacity of the array. */
  datatype Gathered = Gathered(entries: seq<Entry>, capacity: nat)

  /** add_file on a gathered state: when `count + 1 >= capacity` the array
      grows by 256, and if that fails nothing happens; the path is appended
      when its copy could be allocated. */
  function AddStep(g: Gathered, a: Attempt): Gathered {
    var grow := |g.entries| + 1 >= g.capacity;
    if grow && !a.growOk then g
    else
      Gathered(if a.copyOk then g.entries + [Some(a.path)] else g.entries,
               if grow then g.capacity + 256 else g.capacity)
  }

  /** The list add_file builds from the attempts, in order, starting from
      the zeroed context. */
  function Gather(attempts: seq<Attempt>): Gathered {
    if attempts == [] then Gathered([], 0)
    else AddStep(Gather(attempts[..|attempts| - 1]), attempts[|attempts| - 1])
  }

  /** The paths offered, as live entries. */
  function Offered(attempts: seq<Attempt>): (r: seq<Entry>)
    ensures |r| == |attempts|
    ensures forall k :: 0 <= k < |attempts| ==> r[k] == Some(attempts[k].path)
  {
    if attempts == [] then [] else Offered(attempts[..|attempts| - 1]) + [Some(attempts[|attempts| - 1].path)]
  }

  /** There is always a free slot once the array exists: the count stays
      below the capacity, and both are zero before the first growth. */
  lemma AddStepRoom(g: Gathered, a: Attempt)
    requires |g.entries| < g.capacity || (g.capacity == 0 && g.entries == [])
    ensures var r := AddStep(g, a); |r.entries| < r.capacity || (r.capacity == 0 && r.entries == [])
  {
  }

  /** Gathering keeps only offered paths, in the order offered, and every
      gathered entry is live. */
  lemma {:induction false} GatherKeepsOffered(attempts: seq<Attempt>)
    ensures multiset(Gather(attempts).entries) <= multiset(Offered(attempts))
    ensures forall k :: 0 <= k < |Gather(attempts).entries| ==> Gather(attempts).entries[k].Some?
  {
    if attempts != [] {
      var n := |attempts| - 1;
      GatherKeepsOffered(attempts[..n]);
      assert Offered(attempts) == Offered(attempts[..n]) + [Some(attempts[n].path)];
    }
  }

  /** When every allocation succeeds, the list holds exactly the offered
      paths, in the order offered. */
  lemma {:induction false} GatherAll(attempts: seq<Attempt>)
    requires forall k :: 0 <= k < |attempts| ==> attempts[k].growOk && attempts[k].copyOk
    ensures Gather(attempts).entries == Offered(attempts)
  {
    if attempts != [] {
      var n := |attempts| - 1;
      GatherAll(attempts[..n]);
    }
  }

  /** The state of the do-while of imglist_next before its body runs for
      the `taken`-th time (counting from 0), in the array `s`, with the old
      cursor `current`. With `current < |s|` the index walks cyclically from
      `current` and the loop runs at most `|s|` times; with `current == |s|`
      (right after init) the first body wraps to 0, and a live entry lies
      ahead of the index. */
  ghost predicate Scanning(s: seq<Entry>, current: nat, index: nat, taken: nat) {
    && 1 <= |s| && current <= |s|
    && (current < |s| ==> taken < |s| && index == Wrap(current + taken, |s|))
    && (current == |s| ==>
          if taken == 0 then index == |s| && exists k :: 0 <= k < |s| && s[k].Some?
          else index == taken - 1 && exists k :: index < k < |s| && s[k].Some?)
  }

  /** The do-while of imglist_next is under way at `index` and will stop
      at `goal`. */
  ghost predicate Seeking(s: seq<Entry>, current: nat, index: nat, values: nat -> nat, drawn: nat, taken: nat, goal: Cursor) {
    Scanning(s, current, index, taken) && Scan(s, current, index, values, drawn, taken) == goal
  }

  /** imglist_next starts from the cursor of a list after init. */
  lemma ScanStarts(s: seq<Entry>, current: nat)
    requires 1 <= |s| && current <= |s|
    requires current == |s| ==> exists k :: 0 <= k < |s| && s[k].Some?
    ensures Scanning(s, current, current, 0)
  {
  }

  function Wrap(x: nat, n: nat): nat {
    if x < n then x else x - n
  }

  /** Where imglist_next stops: the array after its reshuffles, the new
      cursor and the number of rand() values drawn so far. */
  datatype Cursor = Cursor(entries: seq<Entry>, index: nat, drawn: nat)

  /** The do-while of imglist_next: `++index`; past the end, reshuffle and
      restart at 0; go on while the slot is a tombstone and the index is not
      back at `current`. */
  function Scan(s: seq<Entry>, current: nat, index: nat, values: nat -> nat, drawn: nat, taken: nat): (r: Cursor)
    requires Scanning(s, current, index, taken)
    decreases |s| - taken
    ensures |r.entries| == |s|
    ensures r.index < |s| && (r.entries[r.index].Some? || r.index == current)
  {
    var wraps := index + 1 >= |s|;
    var t := if wraps then Shuffled(s, |s|, values, drawn) else s;
    ShufflePermutes(s, |s|, values, drawn);
    var i := if wraps then 0 else index + 1;
    var d := if wraps then drawn + |s| else drawn;
    if t[i].None? && i != current then
      ScanGoesOn(s, t, current, index, taken, i);
      Scan(t, current, i, values, d, taken + 1)
    else
      Cursor(t, i, d)
  }

  /** The slot after `index`, wrapping at the end, is a slot of the list. */
  lemma ScanIndex(s: seq<Entry>, current: nat, index: nat, taken: nat, i: nat)
    requires Scanning(s, current, index, taken)
    requires i == (if index + 1 >= |s| then 0 else index + 1)
    ensures i < |s|
  {
  }

  /** One turn of the do-while that goes on: the scan from `index` is the
      scan from the next slot of the (possibly reshuffled) entries. */
  lemma ScanOn(s: seq<Entry>, current: nat, index: nat, values: nat -> nat, drawn: nat, taken: nat,
               t: seq<Entry>, i: nat, d: nat)
    requires Scanning(s, current, index, taken)
    requires t == (if index + 1 >= |s| then Shuffled(s, |s|, values, drawn) else s)
    requires i == (if index + 1 >= |s| then 0 else index + 1)
    requires d == (if index + 1 >= |s| then drawn + |s| else drawn)
    requires i < |t| && t[i].None? && i != current
    ensures taken + 1 <= |s| && Scanning(t, current, i, taken + 1)
    ensures Scan(s, current, index, values, drawn, taken) == Scan(t, current, i, values, d, taken + 1)
  {
    if index + 1 >= |s| {
      ScanWraps(s, current, index, values, drawn, taken);
    } else {
      ScanGoesOn(s, t, current, index, taken, i);
    }
  }

  /** The turn that passes the end reshuffles and goes on from slot 0. */
  lemma ScanWraps(s: seq<Entry>, current: nat, index: nat, values: nat -> nat, drawn: nat, taken: nat)
    requires Scanning(s, current, index, taken) && index + 1 >= |s|
    requires var t := Shuffled(s, |s|, values, drawn); t[0].None? && 0 != current
    ensures taken + 1 <= |s| && Scanning(Shuffled(s, |s|, values, drawn), current, 0, taken + 1)
    ensures Scan(s, current, index, values, drawn, taken) == Scan(Shuffled(s, |s|, values, drawn), current, 0, values, drawn + |s|, taken + 1)
  {
    ShufflePermutes(s, |s|, values, drawn);
    ScanGoesOn(s, Shuffled(s, |s|, values, drawn), current, index, taken, 0);
  }

  /** One turn of the do-while that stops: the scan ends at the next slot. */
  lemma ScanStop(s: seq<Entry>, current: nat, index: nat, values: nat -> nat, drawn: nat, taken: nat,
                 t: seq<Entry>, i: nat, d: nat)
    requires Scanning(s, current, index, taken)
    requires t == (if index + 1 >= |s| then Shuffled(s, |s|, values, drawn) else s)
    requires i == (if index + 1 >= |s| then 0 else index + 1)
    requires d == (if index + 1 >= |s| then drawn + |s| else drawn)
    requires i < |t| && (t[i].Some? || i == current)
    ensures Scan(s, current, index, values, drawn, taken) == Cursor(t, i, d)
  {
  }

  /** The loop condition holding again keeps the scan within its bounds. */
  lemma ScanGoesOn(s: seq<Entry>, t: seq<Entry>, current: nat, index: nat, taken: nat, i: nat)
    requires Scanning(s, current, index, taken)
    requires |t| == |s| && multiset(t) == multiset(s)
    requires i == (if index + 1 >= |s| then 0 else index + 1)
    requires index + 1 < |s| ==> t == s
    requires i < |t| && t[i].None? && i != current
    ensures Scanning(t, current, i, taken + 1) && taken + 1 <= |s|
  {
    if current == |s| && taken == 0 {
      var k :| 0 <= k < |s| && s[k].Some?;
      assert s[k] in multiset(t);
      var k' :| 0 <= k' < |t| && t[k'] == s[k];
      assert i < k';
    }
  }

  /** When a live entry follows the cursor, imglist_next moves to the first
      such entry and neither reshuffles nor draws. */
  lemma {:induction false} ScanFindsNextLive(s: seq<Entry>, current: nat, index: nat, values: nat -> nat, drawn: nat, taken: nat, k: nat)
    requires Scanning(s, current, index, taken) && current < |s|
    requires current <= index < k < |s| && s[k].Some?
    requires forall m :: index < m < k ==> s[m].None?
    ensures Scan(s, current, index, values, drawn, taken) == Cursor(s, k, drawn)
    decreases k - index
  {
    if index + 1 < k {
      ScanOn(s, current, index, values, drawn, taken, s, index + 1, drawn);
      ScanFindsNextLive(s, current, index + 1, values, drawn, taken + 1, k);
    } else {
      ScanStop(s, current, index, values, drawn, taken, s, k, drawn);
    }
  }

  /** The scan from `index` ended at `r` without wrapping: same entries,
      no rand() drawn, and every slot it passed was a tombstone. */
  ghost predicate StaysOn(s: seq<Entry>, index: nat, drawn: nat, r: Cursor) {
    && r.entries == s && r.drawn == drawn && index < r.index <= |s|
    && forall m :: index < m < r.index ==> s[m].None?
  }

  /** The scan from `index` ended at `r` after wrapping once: every slot
      after `index` was a tombstone, the entries were reshuffled with |s|
      rand() values, and every slot of the reshuffled array before the stop
      was a tombstone too. */
  ghost predicate WrapsOnce(s: seq<Entry>, index: nat, values: nat -> nat, drawn: nat, r: Cursor)
    requires 1 <= |s|
  {
    && r.entries == Shuffled(s, |s|, values, drawn) && r.drawn == drawn + |s|
    && (forall m :: index < m < |s| ==> s[m].None?)
    && forall m :: 0 <= m < r.index && m < |r.entries| ==> r.entries[m].None?
  }

  /** A live entry or the old cursor lies after `index`, before the end. */
  ghost predicate Ahead(s: seq<Entry>, index: nat, current: nat) {
    index < current < |s| || exists k :: index < k < |s| && s[k].Some?
  }

  /** How a scan from `index` may end at `r`: without wrapping, or wrapping
      once; and without wrapping when a stop lies ahead before the end. */
  ghost predicate Passes(s: seq<Entry>, current: nat, index: nat, values: nat -> nat, drawn: nat, r: Cursor)
    requires 1 <= |s|
  {
    && (StaysOn(s, index, drawn, r) || WrapsOnce(s, index, values, drawn, r))
    && (Ahead(s, index, current) ==> StaysOn(s, index, drawn, r))
  }

  /** Every slot imglist_next passes over is a tombstone of the array it is
      scanning, and it wraps, reshuffling, at most once; it does not wrap
      when a live entry or the old cursor lies ahead before the end. */
  lemma {:induction false} ScanPath(s: seq<Entry>, current: nat, index: nat, values: nat -> nat, drawn: nat, taken: nat)
    requires Scanning(s, current, index, taken)
    ensures Passes(s, current, index, values, drawn, Scan(s, current, index, values, drawn, taken))
    decreases |s| - taken, 1
  {
    if index + 1 >= |s| {
      var t := Shuffled(s, |s|, values, drawn);
      if t[0].Some? || 0 == current {
        ScanStop(s, current, index, values, drawn, taken, t, 0, drawn + |s|);
      } else {
        PathWraps(s, current, index, values, drawn, taken);
      }
    } else if s[index + 1].Some? || index + 1 == current {
      ScanStop(s, current, index, values, drawn, taken, s, index + 1, drawn);
    } else {
      PathGoesOn(s, current, index, values, drawn, taken);
    }
  }

  /** ScanPath when the slot after `index`, before the end, is a tombstone
      the scan passes. */
  lemma {:induction false} PathGoesOn(s: seq<Entry>, current: nat, index: nat, values: nat -> nat, drawn: nat, taken: nat)
    requires Scanning(s, current, index, taken)
    requires index + 1 < |s| && s[index + 1].None? && index + 1 != current
    ensures Passes(s, current, index, values, drawn, Scan(s, current, index, values, drawn, taken))
    decreases |s| - taken, 0
  {
    ScanOn(s, current, index, values, drawn, taken, s, index + 1, drawn);
    ScanPath(s, current, index + 1, values, drawn, taken + 1);
    PassedOne(s, current, index, values, drawn, Scan(s, current, index + 1, values, drawn, taken + 1));
  }

  /** ScanPath when the scan passes the end and slot 0 of the reshuffled
      array is a tombstone. */
  lemma {:induction false} PathWraps(s: seq<Entry>, current: nat, index: nat, values: nat -> nat, drawn: nat, taken: nat)
    requires Scanning(s, current, index, taken) && index + 1 >= |s|
    requires Shuffled(s, |s|, values, drawn)[0].None? && 0 != current
    ensures WrapsOnce(s, index, values, drawn, Scan(s, current, index, values, drawn, taken))
    decreases |s| - taken, 0
  {
    var t := Shuffled(s, |s|, values, drawn);
    ScanWraps(s, current, index, values, drawn, taken);
    var r := Scan(t, current, 0, values, drawn + |s|, taken + 1);
    assert StaysOn(t, 0, drawn + |s|, r) by {
      ScanPath(t, current, 0, values, drawn + |s|, taken + 1);
      RestartAhead(t, current, taken + 1);
      AheadStays(t, current, 0, values, drawn + |s|, r);
    }
    WrappedOnce(s, index, values, drawn, t, r);
  }

  /** With a stop ahead, the scan does not wrap. */
  lemma AheadStays(s: seq<Entry>, current: nat, index: nat, values: nat -> nat, drawn: nat, r: Cursor)
    requires 1 <= |s| && Passes(s, current, index, values, drawn, r) && Ahead(s, index, current)
    ensures StaysOn(s, index, drawn, r)
  {
  }

  /** After a wrap to slot 0, a stop lies ahead: the old cursor, or, right
      after init, the live entry the scan is bound to find. */
  lemma RestartAhead(t: seq<Entry>, current: nat, taken: nat)
    requires Scanning(t, current, 0, taken) && 0 != current
    ensures Ahead(t, 0, current)
  {
    if current == |t| {
      var k :| 0 < k < |t| && t[k].Some?;
    }
  }

  /** A tombstone passed before the end: the scan from the next slot ends
      the same way. */
  lemma PassedOne(s: seq<Entry>, current: nat, index: nat, values: nat -> nat, drawn: nat, r: Cursor)
    requires index + 1 < |s| && s[index + 1].None? && index + 1 != current
    requires Passes(s, current, index + 1, values, drawn, r)
    ensures Passes(s, current, index, values, drawn, r)
  {
    if !(index < current < |s|) && Ahead(s, index, current) {
      var k :| index < k < |s| && s[k].Some?;
      assert index + 1 < k;
    }
  }

  /** The end passed and slot 0 of the reshuffled array a tombstone: the
      scan from slot 0 does not wrap again, so the whole scan wraps once. */
  lemma WrappedOnce(s: seq<Entry>, index: nat, values: nat -> nat, drawn: nat, t: seq<Entry>, r: Cursor)
    requires 1 <= |s| && index + 1 >= |s| && t == Shuffled(s, |s|, values, drawn)
    requires t[0].None? && StaysOn(t, 0, drawn + |s|, r)
    ensures WrapsOnce(s, index, values, drawn, r)
  {
  }

  /** The reshuffles of the do-while only permute the entries. */
  lemma {:induction false} ScanPermutes(s: seq<Entry>, current: nat, index: nat, values: nat -> nat, drawn: nat, taken: nat)
    requires Scanning(s, current, index, taken)
    ensures multiset(Scan(s, current, index, values, drawn, taken).entries) == multiset(s)
    decreases |s| - taken
  {
    var wraps := index + 1 >= |s|;
    var t := if wraps then Shuffled(s, |s|, values, drawn) else s;
    var i := if wraps then 0 else index + 1;
    var d := if wraps then drawn + |s| else drawn;
    var r := Scan(s, current, index, values, drawn, taken);
    assert multiset(t) == multiset(s) by {
      ShufflePermutes(s, |s|, values, drawn);
    }
    if t[i].None? && i != current {
      assert taken + 1 <= |s| && Scanning(t, current, i, taken + 1) && r == Scan(t, current, i, values, d, taken + 1) by {
        ScanOn(s, current, index, values, drawn, taken, t, i, d);
      }
      ScanPermutes(t, current, i, values, d, taken + 1);
    } else {
      assert r.entries == t by {
        ScanStop(s, current, index, values, drawn, taken, t, i, d);
      }
    }
  }

  /** imglist_next only rearranges the entries: the live count stays. */
  lemma NextKeepsLive(s: seq<Entry>, current: nat, values: nat -> nat, drawn: nat)
    requires Scanning(s, current, current, 0)
    ensures LiveCount(Scan(s, current, current, values, drawn, 0).entries) == LiveCount(s)
  {
    ScanPermutes(s, current, current, values, drawn, 0);
    LiveCountPermuted(s, Scan(s, current, current, values, drawn, 0).entries);
  }

  /** imglist_skip on a live slot leaves one live entry fewer. */
  lemma SkipDropsOne(s: seq<Entry>, current: nat, values: nat -> nat, drawn: nat)
    requires current < |s| && s[current].Some?
    ensures Scanning(s[current := None], current, current, 0)
    ensures LiveCount(Scan(s[current := None], current, current, values, drawn, 0).entries) == LiveCount(s) - 1
  {
    TombstoneDropsOne(s, current);
    NextKeepsLive(s[current := None], current, values, drawn);
  }

  /** When every entry is a tombstone, imglist_next returns NULL: the scan
      comes back to the old cursor, whose slot is a tombstone too. */
  lemma AllTombstonesYieldNull(s: seq<Entry>, current: nat, values: nat -> nat, drawn: nat)
    requires current < |s| && LiveCount(s) == 0
    ensures Scanning(s, current, current, 0)
    ensures var r := Scan(s, current, current, values, drawn, 0);
      r.index == current && r.entries[r.index].None?
  {
    var r := Scan(s, current, current, values, drawn, 0);
    NoLiveAllTombstones(s);
    ScanPermutes(s, current, current, values, drawn, 0);
    LiveCountPermuted(s, r.entries);
    NoLiveAllTombstones(r.entries);
  }

  /** The converse does not hold: with [a, NULL], cursor 0 and rand()
      always 1, the scan passes the end, the reshuffle moves `a` to slot 1,
      and the scan stops on the tombstone now at the old cursor, although a
      live entry remains. */
  lemma NullDespiteLive()
    ensures var s := [Some("a"), None];
      && Scanning(s, 0, 0, 0) && LiveCount(s) == 1
      && var r := Scan(s, 0, 0, k => 1, 0, 0);
         r.index == 0 && r.entries == [None, Some("a")] && r.entries[r.index].None?
  {
    var s: seq<Entry> := [Some("a"), None];
    var values: nat -> nat := k => 1;
    assert Shuffled(s, 2, values, 0) == [None, Some("a")] by {
      assert Shuffled(s, 1, values, 0) == Swap(s, 0, 1) == [None, Some("a")];
    }
    assert Scanning(s, 0, 1, 1);
    assert Scan(s, 0, 1, values, 0, 1) == Cursor([None, Some("a")], 0, 2);
  }

  /** The list context. While files are gathered `size` is the capacity of
      `files`; from init on it is the number of entries, and `current` is
      the cursor. */
  class List {
    var files: array<Entry>
    var size: nat
    var current: nat

    /** calloc of the context. */
    constructor ()
      ensures Gathering() && current == 0 && size == 0 && fresh(files)
    {
      files := new Entry[0];
      size, current := 0, 0;
    }

    /** While gathering: the array holds `size` slots and the first
        `current` hold the files added. */
    ghost predicate Gathering()
      reads this
    {
      size == files.Length && current <= size
    }

    /** From init on: at least one entry, a cursor within bounds or at
        `size` right after init, when some entry is live. */
    ghost predicate Valid()
      reads this, files
    {
      && 1 <= size <= files.Length && current <= size
      && (current == size ==> exists k :: 0 <= k < size && files[k].Some?)
    }

    /** The state of the list as gathering sees it. */
    ghost function Contents(): Gathered
      reads this, files
      requires current <= files.Length
    {
      Gathered(files[..current], size)
    }

    /** add_file: grows the array by 256 slots when `current + 1 >= size`
        (giving up if that fails), then stores a copy of the path at
        `current` and advances `current` when the copy could be allocated;
        a failed copy leaves NULL in the slot. */
    method AddFile(path: Path, growOk: bool, copyOk: bool)
      requires Gathering()
      modifies this, files
      ensures Gathering() && (files == old(files) || fresh(files))
      ensures Contents() == AddStep(old(Contents()), Attempt(path, growOk, copyOk))
      ensures current == old(current) + 1 ==> current < size
    {
      if current + 1 >= size {
        if !growOk {
          return;
        }
        var grown := new Entry[size + 256](_ => None);
        forall k | 0 <= k < size {
          grown[k] := files[k];
        }
        assert grown[..current] == files[..current];
        files := grown;
        size := size + 256;
      }
      files[current] := if copyOk then Some(path) else None;
      if copyOk {
        current := current + 1;
      }
    }

    /** shuffle: for each position in turn, exchanges it with position
        `rand() % size`; the result is Shuffled of the old entries and the
        entries are only rearranged. */
    method Shuffle(rng: Random)
      requires size <= files.Length
      modifies files, rng
      ensures files[..size] == Shuffled(old(files[..size]), size, rng.values, old(rng.drawn))
      ensures multiset(files[..size]) == multiset(old(files[..size]))
      ensures files[size..] == old(files[size..])
      ensures rng.drawn == old(rng.drawn) + size
    {
      ghost var s0 := files[..size];
      var i := 0;
      while i < size
        invariant 0 <= i <= size
        invariant rng.drawn == old(rng.drawn) + i
        invariant files[..size] == Shuffled(s0, i, rng.values, old(rng.drawn))
        invariant files[size..] == old(files[size..])
      {
        var r := rng.Rand();
        var j := r % size;
        if i != j {
          files[i], files[j] := files[j], files[i];
        }
        i := i + 1;
      }
      ShufflePermutes(s0, size, rng.values, old(rng.drawn));
    }

    /** imglist_init over the files add_dir would find: adds each in turn;
        no list when none was added; otherwise `size` becomes the number
        added, the array is shuffled, and the cursor stays at `size`. */
    static method Init(attempts: seq<Attempt>, rng: Random) returns (list: List?)
      modifies rng
      ensures list == null <==> Gather(attempts).entries == []
      ensures list != null ==>
        && fresh(list) && fresh(list.files) && list.Valid() && list.current == list.size
        && list.size == |Gather(attempts).entries|
        && list.files[..list.size] == Shuffled(Gather(attempts).entries, list.size, rng.values, old(rng.drawn))
        && multiset(list.files[..list.size]) == multiset(Gather(attempts).entries)
    {
      var l := new List();
      l.AddAll(attempts);
      if l.current == 0 {
        return null;
      }
      GatherKeepsOffered(attempts);
      l.Seal(rng);
      return l;
    }

    /** The add_dir walk: add_file on every file in turn. */
    method AddAll(attempts: seq<Attempt>)
      requires Gathering() && current == 0 && size == 0
      modifies this, files
      ensures Gathering() && (files == old(files) || fresh(files))
      ensures Contents() == Gather(attempts)
    {
      var k := 0;
      while k < |attempts|
        invariant 0 <= k <= |attempts|
        invariant Gathering() && (files == old(files) || fresh(files))
        invariant Contents() == Gather(attempts[..k])
      {
        var a := attempts[k];
        AddFile(a.path, a.growOk, a.copyOk);
        assert attempts[..k + 1][..k] == attempts[..k];
        k := k + 1;
      }
      assert attempts[..|attempts|] == attempts;
    }

    /** The end of imglist_init once files were added: `size` becomes the
        number of files, the array is shuffled and the cursor stays at
        `size`. */
    method Seal(rng: Random)
      requires Gathering() && 0 < current
      requires forall k :: 0 <= k < current ==> files[k].Some?
      modifies this, files, rng
      ensures files == old(files) && size == old(current) && current == size && Valid()
      ensures files[..size] == Shuffled(old(files[..current]), size, rng.values, old(rng.drawn))
      ensures multiset(files[..size]) == multiset(old(files[..current]))
    {
      size := current;
      ghost var g := files[..size];
      Shuffle(rng);
      assert g[0] in multiset(g);
      ghost var live :| 0 <= live < size && files[..size][live] == g[0];
    }

    /** The head of the do-while: the slot after `index`, or the first slot
        of the reshuffled entries once the end is passed. */
    method Advance(rng: Random, index: nat) returns (next: nat)
      requires 1 <= size <= files.Length
      modifies files, rng
      ensures next == (if index + 1 >= size then 0 else index + 1)
      ensures files[..size] == (if index + 1 >= size then Shuffled(old(files[..size]), size, rng.values, old(rng.drawn))
                                else old(files[..size]))
      ensures rng.drawn == (if index + 1 >= size then old(rng.drawn) + size else old(rng.drawn))
    {
      next := index + 1;
      if next >= size {
        Shuffle(rng);
        next := 0;
      }
    }

    /** imglist_next: the do-while that moves the cursor to the next live
        slot (reshuffling whenever it passes the end) or back to the old
        cursor, and returns the slot there. */
    method Next(rng: Random) returns (entry: Entry)
      requires Valid()
      modifies this`current, files, rng
      ensures Valid() && current < size
      ensures Scanning(old(files[..size]), old(current), old(current), 0)
      ensures Cursor(files[..size], current, rng.drawn)
           == Scan(old(files[..size]), old(current), old(current), rng.values, old(rng.drawn), 0)
      ensures entry == files[current]
    {
      ScanStarts(files[..size], current);
      var index := Seek(rng, Scan(files[..size], current, current, rng.values, rng.drawn, 0));
      current := index;
      entry := files[index];
    }

    /** The do-while of imglist_next, from the cursor: where it stops. */
    method Seek(rng: Random, ghost goal: Cursor) returns (index: nat)
      requires 1 <= size <= files.Length
      requires Seeking(files[..size], current, current, rng.values, rng.drawn, 0, goal)
      modifies files, rng
      ensures index < size && Cursor(files[..size], index, rng.drawn) == goal
    {
      index := current;
      ghost var taken: nat := 0;
      while true
        invariant Seeking(files[..size], current, index, rng.values, rng.drawn, taken, goal)
        decreases size - taken
      {
        index := Turn(rng, index, taken, goal);
        if files[index].Some? || index == current {
          return;
        }
        taken := taken + 1;
      }
    }

    /** One turn of the do-while: the next slot, and the scan from there
        still ends where the scan from `index` ends. */
    method Turn(rng: Random, index: nat, ghost taken: nat, ghost goal: Cursor) returns (next: nat)
      requires 1 <= size <= files.Length
      requires Seeking(files[..size], current, index, rng.values, rng.drawn, taken, goal)
      modifies files, rng
      ensures next < size
      ensures files[next].Some? || next == current ==> Cursor(files[..size], next, rng.drawn) == goal
      ensures files[next].None? && next != current ==>
        taken + 1 <= size && Seeking(files[..size], current, next, rng.values, rng.drawn, taken + 1, goal)
    {
      ghost var before, drawn := files[..size], rng.drawn;
      next := Advance(rng, index);
      ScanIndex(before, current, index, taken, next);
      if files[next].None? && next != current {
        ScanOn(before, current, index, rng.values, drawn, taken, files[..size], next, rng.drawn);
      } else {
        ScanStop(before, current, index, rng.values, drawn, taken, files[..size], next, rng.drawn);
      }
    }

    /** imglist_skip: turns the current slot into a tombstone, then moves
        on as imglist_next does. */
    method Skip(rng: Random) returns (entry: Entry)
      requires Valid() && current < size
      modifies this`current, files, rng
      ensures Valid() && current < size
      ensures Scanning(old(files[..size])[old(current) := None], old(current), old(current), 0)
      ensures Cursor(files[..size], current, rng.drawn)
           == Scan(old(files[..size])[old(current) := None], old(current), old(current), rng.values, old(rng.drawn), 0)
      ensures entry == files[current]
    {
      files[current] := None;
      assert files[..size] == old(files[..size])[old(current) := None];
      entry := Next(rng);
    }
  }
}
