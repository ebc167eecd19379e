/** Mounting DrvFs volumes from a bitmap of drive letters, and remounting the automounted ones under a
    new owner. */
module DrvFs {

  datatype Option<+T> = None | Some(value: T)

  // ---------------------------------------------------------------------
  // Bitmaps
  // ---------------------------------------------------------------------

  /** Volume `i` is in the bitmap. */
  predicate Bit(v: nat, i: nat)
    decreases i
  {
    if i == 0 then v % 2 == 1 else Bit(v / 2, i - 1)
  }

  function Pow2(i: nat): nat {
    if i == 0 then 1 else 2 * Pow2(i - 1)
  }

  function Xor(a: nat, b: nat): nat
    decreases a + b
  {
    if a == 0 && b == 0 then 0 else 2 * Xor(a / 2, b / 2) + (if a % 2 == b % 2 then 0 else 1)
  }

  /** __builtin_ffsll: one-based index of the lowest set bit, zero when there is none. */
  function FindFirstSet(v: nat): nat {
    if v == 0 then 0 else if v % 2 == 1 then 1 else 1 + FindFirstSet(v / 2)
  }

  function BitCount(v: nat): nat {
    if v == 0 then 0 else BitCount(v / 2) + v % 2
  }

  lemma {:induction false} PowIsPositive(i: nat)
    ensures Pow2(i) > 0
  {
    if i > 0 {
      PowIsPositive(i - 1);
    }
  }

  lemma {:induction false} NoBitsOfZero(i: nat)
    ensures !Bit(0, i)
  {
    if i > 0 {
      NoBitsOfZero(i - 1);
    }
  }

  lemma {:induction false} XorZero(v: nat)
    ensures Xor(v, 0) == v
  {
    if v > 0 {
      XorZero(v / 2);
    }
  }

  lemma {:induction false} XorBit(v: nat, i: nat, j: nat)
    ensures Bit(Xor(v, Pow2(i)), j) <==> (Bit(v, j) != (i == j))
    decreases i, j
  {
    PowIsPositive(i);
    var x := Xor(v, Pow2(i));
    if i == 0 {
      assert Pow2(0) / 2 == 0;
      XorZero(v / 2);
      assert x == 2 * (v / 2) + (if v % 2 == 1 then 0 else 1);
    } else {
      assert Pow2(i) / 2 == Pow2(i - 1) && Pow2(i) % 2 == 0;
      assert x == 2 * Xor(v / 2, Pow2(i - 1)) + v % 2;
      if j > 0 {
        XorBit(v / 2, i - 1, j - 1);
      }
    }
  }

  lemma {:induction false} FindsLowestBit(v: nat)
    requires v > 0
    ensures FindFirstSet(v) > 0 && Bit(v, FindFirstSet(v) - 1)
    ensures forall j :: 0 <= j < FindFirstSet(v) - 1 ==> !Bit(v, j)
  {
    if v % 2 == 0 {
      FindsLowestBit(v / 2);
      forall j | 0 <= j < FindFirstSet(v) - 1
        ensures !Bit(v, j)
      {
        if j > 0 {
          assert !Bit(v / 2, j - 1);
        }
      }
    }
  }

  /** Flipping the lowest bit, and a higher one. */
  lemma FlipLowest(v: nat)
    requires v % 2 == 1
    ensures Xor(v, Pow2(0)) == 2 * (v / 2)
  {
    XorZero(v / 2);
    assert Pow2(0) == 1;
  }

  lemma FlipHigher(v: nat, i: nat)
    requires i > 0
    ensures Xor(v, Pow2(i)) == 2 * Xor(v / 2, Pow2(i - 1)) + v % 2
  {
    PowIsPositive(i - 1);
    assert Pow2(i) / 2 == Pow2(i - 1) && Pow2(i) % 2 == 0;
  }

  lemma CountHalves(h: nat, b: nat)
    requires b < 2
    ensures BitCount(2 * h + b) == BitCount(h) + b
  {
    assert (2 * h + b) / 2 == h && (2 * h + b) % 2 == b;
  }

  lemma {:induction false} ClearingDropsCount(v: nat, i: nat)
    requires Bit(v, i)
    ensures BitCount(Xor(v, Pow2(i))) == BitCount(v) - 1
    decreases i
  {
    hide Xor, Pow2, BitCount;
    CountHalves(v / 2, v % 2);
    if i == 0 {
      FlipLowest(v);
      CountHalves(v / 2, 0);
    } else {
      ClearingDropsCount(v / 2, i - 1);
      FlipHigher(v, i);
      CountHalves(Xor(v / 2, Pow2(i - 1)), v % 2);
    }
  }

  lemma NoneFoundMeansZero(v: nat)
    ensures FindFirstSet(v) == 0 <==> v == 0
  {
  }

  /** The bitmap is an `unsigned int`. */
  ghost predicate Fits(v: nat) {
    forall i: nat :: Bit(v, i) ==> i < 32
  }

  /** Clearing the lowest bit leaves the higher ones. */
  lemma ClearLowest(v: nat)
    requires v > 0
    ensures FindFirstSet(v) > 0
    ensures BitCount(Xor(v, Pow2(FindFirstSet(v) - 1))) == BitCount(v) - 1
    ensures forall j :: 0 <= j ==>
              (Bit(Xor(v, Pow2(FindFirstSet(v) - 1)), j) <==> Bit(v, j) && j > FindFirstSet(v) - 1)
  {
    FindsLowestBit(v);
    var i := FindFirstSet(v) - 1;
    ClearingDropsCount(v, i);
    forall j | 0 <= j
      ensures Bit(Xor(v, Pow2(i)), j) <==> Bit(v, j) && j > i
    {
      XorBit(v, i, j);
    }
  }

  lemma FitsWithoutLowest(v: nat)
    requires v > 0 && Fits(v)
    ensures FindFirstSet(v) > 0 && Fits(Xor(v, Pow2(FindFirstSet(v) - 1)))
  {
    ClearLowest(v);
    hide Bit, Xor, Pow2, FindFirstSet;
    var rest := Xor(v, Pow2(FindFirstSet(v) - 1));
    forall i: nat | Bit(rest, i)
      ensures i < 32
    {
      assert Bit(v, i);
    }
  }

  // ---------------------------------------------------------------------
  // Mounting
  // ---------------------------------------------------------------------

  datatype Owner = Owner(uid: int, gid: int)

  /** What happens for one drive letter: skipped because already mounted, no directory, no mount, a
      mount, or an exception that ends the whole routine. */
  datatype Attempt = AlreadyMounted | NoDirectory | MountFails | Mounts | Throws

  type Attempts = nat -> Attempt

  datatype Mounted = Mounted(volumes: map<nat, Owner>, visited: seq<nat>)

  /** The loop over the bitmap. `recorded` says that the mount namespace is known. */
  function MountLoop(v: nat, volumes: map<nat, Owner>, owner: Owner, recorded: bool, attempts: Attempts): Mounted
    decreases BitCount(v)
  {
    if FindFirstSet(v) == 0 then Mounted(volumes, [])
    else
      ClearLowest(v);
      var i := FindFirstSet(v) - 1;
      if attempts(i).Throws? then Mounted(volumes, [i])
      else
        var volumes' := if attempts(i).Mounts? && recorded then volumes[i := owner] else volumes;
        var rest := MountLoop(Xor(v, Pow2(i)), volumes', owner, recorded, attempts);
        Mounted(rest.volumes, [i] + rest.visited)
  }

  /** The routine gets to this volume without an exception. */
  ghost predicate Reaches(v: nat, attempts: Attempts, i: nat) {
    forall j :: 0 <= j <= i && Bit(v, j) ==> !attempts(j).Throws?
  }

  ghost predicate Mounts(v: nat, attempts: Attempts, i: nat) {
    Bit(v, i) && attempts(i).Mounts? && Reaches(v, attempts, i)
  }

  /** What the loop does after its first turn. */
  function Later(v: nat, volumes: map<nat, Owner>, owner: Owner, recorded: bool, attempts: Attempts): Mounted
    requires v > 0
  {
    ClearLowest(v);
    var i := FindFirstSet(v) - 1;
    if attempts(i).Throws? then Mounted(volumes, [])
    else
      var volumes' := if attempts(i).Mounts? && recorded then volumes[i := owner] else volumes;
      MountLoop(Xor(v, Pow2(i)), volumes', owner, recorded, attempts)
  }

  lemma OneTurn(v: nat, volumes: map<nat, Owner>, owner: Owner, recorded: bool, attempts: Attempts)
    requires v > 0
    ensures FindFirstSet(v) > 0
    ensures var later := Later(v, volumes, owner, recorded, attempts);
            MountLoop(v, volumes, owner, recorded, attempts) == Mounted(later.volumes, [FindFirstSet(v) - 1] + later.visited)
  {
    ClearLowest(v);
    hide Bit, Xor, Pow2, FindFirstSet, BitCount;
    assert [FindFirstSet(v) - 1] + [] == [FindFirstSet(v) - 1];
  }

  lemma NoTurn(volumes: map<nat, Owner>, owner: Owner, recorded: bool, attempts: Attempts)
    ensures MountLoop(0, volumes, owner, recorded, attempts) == Mounted(volumes, [])
  {
  }

  ghost predicate Ascends(v: nat, visited: seq<nat>) {
    && (forall k :: 0 <= k < |visited| ==> Bit(v, visited[k]))
    && (forall i, j :: 0 <= i < j < |visited| ==> visited[i] < visited[j])
  }

  lemma AscendsFrom(v: nat, rest: nat, low: nat, visited: seq<nat>)
    requires Bit(v, low) && Ascends(rest, visited)
    requires forall j :: 0 <= j ==> (Bit(rest, j) <==> Bit(v, j) && j > low)
    ensures Ascends(v, [low] + visited)
  {
    hide Bit;
    var all := [low] + visited;
    assert forall k :: 0 < k < |all| ==> all[k] == visited[k - 1];
  }

  lemma {:induction false} VisitsAscend(v: nat, volumes: map<nat, Owner>, owner: Owner, recorded: bool, attempts: Attempts)
    ensures Ascends(v, MountLoop(v, volumes, owner, recorded, attempts).visited)
    decreases BitCount(v)
  {
    if v > 0 {
      ClearLowest(v);
      FindsLowestBit(v);
      OneTurn(v, volumes, owner, recorded, attempts);
      var i := FindFirstSet(v) - 1;
      if !attempts(i).Throws? {
        var volumes' := if attempts(i).Mounts? && recorded then volumes[i := owner] else volumes;
        VisitsAscend(Xor(v, Pow2(i)), volumes', owner, recorded, attempts);
      }
      hide Bit, Xor, Pow2, FindFirstSet, BitCount;
      AscendsFrom(v, Xor(v, Pow2(i)), i, Later(v, volumes, owner, recorded, attempts).visited);
    }
  }

  /** No volume below this one throws. */
  ghost predicate Clear(v: nat, attempts: Attempts, i: nat) {
    forall j :: 0 <= j < i && Bit(v, j) ==> !attempts(j).Throws?
  }

  ghost predicate AllClear(v: nat, attempts: Attempts) {
    forall j :: 0 <= j && Bit(v, j) ==> !attempts(j).Throws?
  }

  lemma ClearRest(v: nat, rest: nat, attempts: Attempts, low: nat, i: nat)
    requires Bit(v, low) && forall j :: 0 <= j < low ==> !Bit(v, j)
    requires forall j :: 0 <= j ==> (Bit(rest, j) <==> Bit(v, j) && j > low)
    ensures i <= low ==> Clear(v, attempts, i)
    ensures i > low ==> (Clear(v, attempts, i) <==> Clear(rest, attempts, i) && !attempts(low).Throws?)
    ensures AllClear(v, attempts) <==> AllClear(rest, attempts) && !attempts(low).Throws?
  {
    hide Bit;
  }

  /** The loop takes at most as many turns as there are set bits, and exactly as many without a throw. */
  lemma {:induction false} CountsTurns(v: nat, volumes: map<nat, Owner>, owner: Owner, recorded: bool, attempts: Attempts)
    ensures var visited := MountLoop(v, volumes, owner, recorded, attempts).visited;
            |visited| <= BitCount(v) && (AllClear(v, attempts) ==> |visited| == BitCount(v))
    decreases BitCount(v)
  {
    hide Bit, Xor, Pow2, FindFirstSet, BitCount, MountLoop, AllClear, Clear;
    if v == 0 {
      NoTurn(volumes, owner, recorded, attempts);
      CountOfZero();
    } else {
      ClearLowest(v);
      FindsLowestBit(v);
      OneTurn(v, volumes, owner, recorded, attempts);
      var low := FindFirstSet(v) - 1;
      var rest := Xor(v, Pow2(low));
      ClearRest(v, rest, attempts, low, 0);
      if !attempts(low).Throws? {
        var volumes' := if attempts(low).Mounts? && recorded then volumes[low := owner] else volumes;
        CountsTurns(rest, volumes', owner, recorded, attempts);
      }
    }
  }

  lemma CountOfZero()
    ensures BitCount(0) == 0
  {
  }

  /** A bit is visited exactly when it is set and none below it throws. */
  lemma {:induction false} VisitsEveryBit(v: nat, volumes: map<nat, Owner>, owner: Owner, recorded: bool, attempts: Attempts,
                                          i: nat)
    ensures i in MountLoop(v, volumes, owner, recorded, attempts).visited <==> Bit(v, i) && Clear(v, attempts, i)
    decreases BitCount(v)
  {
    hide Bit, Xor, Pow2, FindFirstSet, BitCount, MountLoop, AllClear, Clear;
    if v == 0 {
      NoTurn(volumes, owner, recorded, attempts);
      NoBitsOfZero(i);
    } else {
      ClearLowest(v);
      FindsLowestBit(v);
      OneTurn(v, volumes, owner, recorded, attempts);
      var low := FindFirstSet(v) - 1;
      var rest := Xor(v, Pow2(low));
      ClearRest(v, rest, attempts, low, i);
      if !attempts(low).Throws? {
        var volumes' := if attempts(low).Mounts? && recorded then volumes[low := owner] else volumes;
        VisitsEveryBit(rest, volumes', owner, recorded, attempts, i);
      }
    }
  }

  /** The table afterwards, volume by volume. */
  lemma {:induction false} MountIsPointwise(v: nat, volumes: map<nat, Owner>, owner: Owner, recorded: bool,
                                            attempts: Attempts, i: nat)
    ensures var out := MountLoop(v, volumes, owner, recorded, attempts).volumes;
            var mounts := recorded && Mounts(v, attempts, i);
            && (i in out <==> i in volumes || mounts)
            && (i in out ==> out[i] == if mounts then owner else volumes[i])
    decreases BitCount(v)
  {
    hide Bit, Xor, Pow2, FindFirstSet, BitCount, MountLoop;
    if v == 0 {
      NoTurn(volumes, owner, recorded, attempts);
      NoBitsOfZero(i);
    } else {
      ClearLowest(v);
      FindsLowestBit(v);
      OneTurn(v, volumes, owner, recorded, attempts);
      var low := FindFirstSet(v) - 1;
      if attempts(low).Throws? {
        assert Bit(v, i) ==> i >= low;
      } else {
        var rest := Xor(v, Pow2(low));
        var volumes' := if attempts(low).Mounts? && recorded then volumes[low := owner] else volumes;
        MountIsPointwise(rest, volumes', owner, recorded, attempts, i);
        ReachesRest(v, rest, attempts, low, i);
      }
    }
  }

  lemma ReachesRest(v: nat, rest: nat, attempts: Attempts, low: nat, i: nat)
    requires Bit(v, low) && !attempts(low).Throws?
    requires forall j :: 0 <= j < low ==> !Bit(v, j)
    requires forall j :: 0 <= j ==> (Bit(rest, j) <==> Bit(v, j) && j > low)
    ensures Reaches(v, attempts, i) <==> Reaches(rest, attempts, i)
    ensures Mounts(v, attempts, low) <==> attempts(low).Mounts?
  {
    hide Bit;
  }

  // ---------------------------------------------------------------------
  // Refreshing the owner
  // ---------------------------------------------------------------------

  /** What the refresh meets: whether automount is on and the namespace known; whether the namespace can
      be entered and its mounts listed; in which order the hash table is walked; for which volume naming
      the target throws; which volumes are still mounted at their target, whether each unmounts, and how
      each remount goes. */
  datatype World = World(autoMount: bool, hasNamespace: bool, canEnter: bool, rank: nat -> int, nameThrows: nat -> bool,
                         isMounted: nat -> bool, unmounts: nat -> bool, attempts: Attempts)

  /** Past the early exit. */
  predicate Proceeds(w: World, volumes: map<nat, Owner>) {
    w.autoMount && w.hasNamespace && volumes != map[]
  }

  /** Still mounted at its target, under another owner. */
  predicate Stale(w: World, volumes: map<nat, Owner>, owner: Owner, k: nat) {
    k in volumes && w.isMounted(k) && volumes[k] != owner
  }

  /** The volumes tracked before and still mounted, all under the new owner. */
  ghost predicate Refreshed(w: World, before: map<nat, Owner>, after: map<nat, Owner>, owner: Owner) {
    forall k: nat :: (k in after <==> k in before && w.isMounted(k)) && (k in after ==> after[k] == owner)
  }

  /** The order in which the hash table is walked; erasing keeps it for the entries that remain. */
  predicate Before(w: World, j: nat, k: nat) {
    w.rank(j) < w.rank(k) || (w.rank(j) == w.rank(k) && j < k)
  }

  /** No exception ends the walk at this volume or ahead of it. */
  ghost predicate Processed(w: World, volumes: map<nat, Owner>, k: nat) {
    forall j: nat :: j in volumes && (j == k || Before(w, j, k)) ==> !w.nameThrows(j)
  }

  /** The bitmap of the stale volumes that were unmounted. */
  ghost predicate Remounts(w: World, volumes: map<nat, Owner>, owner: Owner, v: nat) {
    forall k: nat :: Bit(v, k) <==> Stale(w, volumes, owner, k) && w.unmounts(k)
  }

  /** The walk takes this entry off the table. */
  predicate Goes(w: World, volumes: map<nat, Owner>, owner: Owner, k: nat) {
    k in volumes && (!w.isMounted(k) || (Stale(w, volumes, owner, k) && w.unmounts(k)))
  }

  /** The table after the first loop, whole or cut short. */
  ghost predicate Swept(w: World, before: map<nat, Owner>, after: map<nat, Owner>, owner: Owner) {
    forall k: nat ::
      && (k in after <==> k in before && !(Goes(w, before, owner, k) && Processed(w, before, k)))
      && (k in after ==> after[k] == before[k])
  }

  // ---------------------------------------------------------------------
  // Walking the table
  // ---------------------------------------------------------------------

  /** The first entry of a table in walking order, among those behind `last`. */
  ghost predicate IsNext(w: World, volumes: map<nat, Owner>, last: Option<nat>, next: Option<nat>) {
    match next
    case None => forall k: nat :: k in volumes ==> !IsBehind(w, last, k)
    case Some(n) =>
      && n in volumes && IsBehind(w, last, n)
      && forall k: nat :: k in volumes && IsBehind(w, last, k) && k != n ==> Before(w, n, k)
  }

  predicate IsBehind(w: World, last: Option<nat>, k: nat) {
    last.None? || Before(w, last.value, k)
  }

  /** `begin()`, and what `++it` and `erase(it)` lead to, in the table as it is now. */
  method Next(w: World, volumes: map<nat, Owner>, last: Option<nat>) returns (next: Option<nat>)
    ensures IsNext(w, volumes, last, next)
  {
    next := None;
    var rest := volumes.Keys;
    while rest != {}
      invariant rest <= volumes.Keys
      invariant next.Some? ==> next.value in volumes && next.value !in rest && IsBehind(w, last, next.value)
      invariant forall k: nat :: k in volumes && k !in rest && IsBehind(w, last, k) ==>
                  next.Some? && (k == next.value || Before(w, next.value, k))
      decreases rest
    {
      var k: nat :| k in rest;
      if IsBehind(w, last, k) && (next.None? || Before(w, k, next.value)) {
        next := Some(k);
      }
      rest := rest - {k};
    }
  }

  lemma SetBit(v: nat, i: nat)
    requires !Bit(v, i)
    ensures forall j: nat :: Bit(Xor(v, Pow2(i)), j) <==> Bit(v, j) || j == i
  {
    forall j: nat
      ensures Bit(Xor(v, Pow2(i)), j) <==> Bit(v, j) || j == i
    {
      XorBit(v, i, j);
    }
  }

  class AutomountTable {
    /** The automounted volumes of one mount namespace and their owners. */
    var volumes: map<nat, Owner>

    constructor ()
      ensures volumes == map[]
    {
      volumes := map[];
    }

    ghost predicate Valid()
      reads this
    {
      forall k: nat :: k in volumes ==> k < 32
    }

    /** ConfigMountDrvFsVolumes. */
    method MountVolumes(drvFsVolumes: nat, owner: Owner, recorded: bool, attempts: Attempts) returns (visited: seq<nat>)
      requires Valid() && Fits(drvFsVolumes)
      modifies this
      ensures Valid()
      ensures Mounted(volumes, visited) == MountLoop(drvFsVolumes, old(volumes), owner, recorded, attempts)
    {
      hide Bit, Xor, Pow2, FindFirstSet, BitCount, MountLoop;
      visited := [];
      var rest := drvFsVolumes;
      ghost var goal := MountLoop(rest, volumes, owner, recorded, attempts);
      var index := FindFirstSet(rest);
      while index != 0
        invariant index == FindFirstSet(rest) && Valid() && Fits(rest)
        invariant MountLoop(rest, volumes, owner, recorded, attempts).volumes == goal.volumes
        invariant visited + MountLoop(rest, volumes, owner, recorded, attempts).visited == goal.visited
        decreases BitCount(rest)
      {
        NoneFoundMeansZero(rest);
        ClearLowest(rest);
        FindsLowestBit(rest);
        OneTurn(rest, volumes, owner, recorded, attempts);
        ghost var later := Later(rest, volumes, owner, recorded, attempts).visited;
        index := index - 1;
        assert visited + ([index] + later) == (visited + [index]) + later;
        assert Bit(rest, index);
        FitsWithoutLowest(rest);
        rest := Xor(rest, Pow2(index));
        visited := visited + [index];
        if attempts(index).Throws? {
          return;
        }
        if attempts(index).Mounts? && recorded {
          volumes := volumes[index := owner];
        }
        index := FindFirstSet(rest);
      }
      NoneFoundMeansZero(rest);
      NoTurn(volumes, owner, recorded, attempts);
      assert visited + [] == visited;
    }

    /** One turn of the first loop of ConfigRefreshDrvFsOwner, for the volume the iterator is at. */
    method SweepOne(w: World, owner: Owner, k: nat, toRemount: nat) returns (ok: bool, bits: nat)
      requires k in volumes && !Bit(toRemount, k)
      modifies this
      ensures volumes == if Goes(w, old(volumes), owner, k) then old(volumes) - {k} else old(volumes)
      ensures ok <==> !(Stale(w, old(volumes), owner, k) && !w.unmounts(k))
      ensures forall j: nat :: Bit(bits, j) <==>
                Bit(toRemount, j) || (j == k && Stale(w, old(volumes), owner, k) && w.unmounts(k))
    {
      hide Bit, Xor, Pow2;
      ok, bits := true, toRemount;
      if !w.isMounted(k) {
        volumes := volumes - {k};
      } else if volumes[k] == owner {
      } else if !w.unmounts(k) {
        ok := false;
      } else {
        SetBit(toRemount, k);
        bits := Xor(toRemount, Pow2(k));
        volumes := volumes - {k};
      }
    }

    /** The first loop of ConfigRefreshDrvFsOwner: it walks the table it erases from. An exception leaves
        the rest of the walk undone. */
    method Sweep(w: World, owner: Owner) returns (ok: bool, toRemount: nat, threw: bool)
      requires Valid()
      modifies this
      ensures Valid() && Swept(w, old(volumes), volumes, owner)
      ensures threw <==> exists k: nat :: k in old(volumes) && w.nameThrows(k)
      ensures !threw ==> Fits(toRemount) && Remounts(w, old(volumes), owner, toRemount)
      ensures !threw ==> (ok <==> forall k: nat :: Stale(w, old(volumes), owner, k) ==> w.unmounts(k))
    {
      NoBitsAtAll();
      hide Bit, Goes, Stale, Before, Processed, IsBehind;
      ok, toRemount, threw := true, 0, false;
      ghost var all, done := volumes, {};
      var it := Next(w, volumes, None);
      SweepStarts(w, all, owner, it);
      while it.Some?
        invariant Valid() && all == old(volumes) && done <= all.Keys
        invariant it.Some? ==> it.value in volumes
        invariant Progress(w, all, volumes, owner, done, it)
        invariant forall k: nat :: Bit(toRemount, k) <==> k in done && Stale(w, all, owner, k) && w.unmounts(k)
        invariant ok <==> forall k: nat :: k in done && Stale(w, all, owner, k) ==> w.unmounts(k)
        decreases all.Keys - done
      {
        var k := it.value;
        ghost var now := volumes;
        SweepAt(w, all, now, owner, done, k);
        if w.nameThrows(k) {
          SweepThrows(w, all, now, owner, done, k);
          threw := true;
          return;
        }
        var fine, bits := SweepOne(w, owner, k, toRemount);
        ok, toRemount := ok && fine, bits;
        it := Next(w, volumes, Some(k));
        SweepGoesOn(w, all, now, volumes, owner, done, k, it);
        done := done + {k};
      }
      SweepEnds(w, all, volumes, owner, done);
    }

    /** ConfigRefreshDrvFsOwner. Past the early exit, zero means refreshed, and it is returned exactly
        when every stale volume was unmounted and mounted again. On a zero result the table is refreshed
        exactly when the routine went past its early exit or there was nothing to refresh. */
    method RefreshOwner(w: World, owner: Owner) returns (result: int)
      requires Valid()
      modifies this
      ensures Valid() && (result == 0 || result == -1)
      ensures !Proceeds(w, old(volumes)) ==> result == 0 && volumes == old(volumes)
      ensures Proceeds(w, old(volumes)) && !w.canEnter ==> result == -1 && volumes == old(volumes)
      ensures Proceeds(w, old(volumes)) && w.canEnter && Throwing(w, old(volumes)) ==>
                result == -1 && Swept(w, old(volumes), volumes, owner)
      ensures Proceeds(w, old(volumes)) && w.canEnter && !Throwing(w, old(volumes)) ==>
                && (result == 0 <==>
                      forall k: nat :: Stale(w, old(volumes), owner, k) ==> Returns(w, old(volumes), owner, k))
                && Settled(w, old(volumes), volumes, owner)
      ensures result == 0 ==>
                (Refreshed(w, old(volumes), volumes, owner) <==>
                 Proceeds(w, old(volumes)) || UpToDate(w, old(volumes), owner))
    {
      hide Bit, MountLoop, Stale, Swept, Remounts, Refreshed, Returns, Settled, UpToDate;
      ghost var before := volumes;
      UnchangedIsUpToDate(w, before, owner);
      if !w.autoMount || !w.hasNamespace || volumes == map[] {
        return 0;
      }
      if !w.canEnter {
        return -1;
      }
      var ok, toRemount, threw := Sweep(w, owner);
      if threw {
        return -1;
      }
      ghost var swept := volumes;
      var visited := MountVolumes(toRemount, owner, true, w.attempts);
      var missing := false;
      var index := 0;
      while index < 32 && !missing
        invariant 0 <= index <= 32
        invariant missing ==> exists k: nat :: Bit(toRemount, k) && k !in volumes
        invariant !missing ==> forall k: nat :: k < index && Bit(toRemount, k) ==> k in volumes
        decreases 32 - index, !missing
      {
        if Bit(toRemount, index) && index !in volumes {
          missing := true;
        } else {
          index := index + 1;
        }
      }
      result := if ok && !missing then 0 else -1;
      assert !missing <==> forall k: nat :: Bit(toRemount, k) ==> k in volumes;
      MountedMeansReturned(w, before, swept, volumes, owner, toRemount);
    }
  }

  /** With automount turned off since, a refresh to another owner reports success and changes nothing. */
  method EarlyExitExample(w: World, was: Owner, owner: Owner) returns (result: int, table: AutomountTable)
    requires !w.autoMount && was != owner
    ensures result == 0 && fresh(table)
    ensures table.volumes == map[2 := was] && !Refreshed(w, map[2 := was], table.volumes, owner)
  {
    table := new AutomountTable();
    table.volumes := map[2 := was];
    result := table.RefreshOwner(w, owner);
    assert 2 in table.volumes;
  }

  // ---------------------------------------------------------------------
  // The walk visits each entry once
  // ---------------------------------------------------------------------

  /** Exactly the entries of `done` have been dealt with; they are the ones ahead of the iterator, and
      the entries from the iterator on are as they were. */
  ghost predicate Progress(w: World, all: map<nat, Owner>, now: map<nat, Owner>, owner: Owner, done: set<nat>,
                           it: Option<nat>)
  {
    && (forall k: nat :: k in now <==> k in all && !(k in done && Goes(w, all, owner, k)))
    && (forall k: nat :: k in now ==> now[k] == all[k])
    && (forall k: nat :: k in done ==> !w.nameThrows(k))
    && (forall k: nat :: k in all ==> (k !in done <==> it.Some? && (k == it.value || Before(w, it.value, k))))
  }

  lemma SweepStarts(w: World, all: map<nat, Owner>, owner: Owner, it: Option<nat>)
    requires IsNext(w, all, None, it)
    ensures Progress(w, all, all, owner, {}, it)
  {
    hide Goes, Before;
  }

  lemma SweepAt(w: World, all: map<nat, Owner>, now: map<nat, Owner>, owner: Owner, done: set<nat>, k: nat)
    requires Progress(w, all, now, owner, done, Some(k)) && k in now
    ensures k in all && k !in done
    ensures Goes(w, now, owner, k) <==> Goes(w, all, owner, k)
    ensures Stale(w, now, owner, k) <==> Stale(w, all, owner, k)
  {
  }

  /** The next entry of the table as it is now is the next one of the table as it was. */
  lemma SweepGoesOn(w: World, all: map<nat, Owner>, now: map<nat, Owner>, next: map<nat, Owner>, owner: Owner,
                    done: set<nat>, k: nat, it: Option<nat>)
    requires Progress(w, all, now, owner, done, Some(k)) && k in now && !w.nameThrows(k)
    requires next == if Goes(w, now, owner, k) then now - {k} else now
    requires IsNext(w, next, Some(k), it)
    ensures Progress(w, all, next, owner, done + {k}, it)
    ensures it.Some? ==> it.value in next
  {
    SweepAt(w, all, now, owner, done, k);
    hide Goes;
    forall j: nat | j in all
      ensures j !in done + {k} <==> it.Some? && (j == it.value || Before(w, it.value, j))
    {
      assert j !in done <==> j == k || Before(w, k, j);
      if j !in done && j != k {
        assert j in next;
      } else if it.Some? {
        assert Before(w, k, it.value);
      }
    }
  }

  lemma BeforeIsTransitive(w: World, i: nat, j: nat, k: nat)
    requires Before(w, i, j) && Before(w, j, k)
    ensures Before(w, i, k)
  {
  }

  lemma DoneIsProcessed(w: World, all: map<nat, Owner>, now: map<nat, Owner>, owner: Owner, done: set<nat>, k: nat, j: nat)
    requires Progress(w, all, now, owner, done, Some(k)) && k in all && w.nameThrows(k) && j in all
    ensures Processed(w, all, j) <==> j in done
  {
    hide Goes, Before;
    if j in done {
      forall i: nat | i in all && (i == j || Before(w, i, j))
        ensures !w.nameThrows(i)
      {
        if Before(w, i, j) && Before(w, k, i) {
          BeforeIsTransitive(w, k, i, j);
        }
      }
    }
  }

  lemma SweepThrows(w: World, all: map<nat, Owner>, now: map<nat, Owner>, owner: Owner, done: set<nat>, k: nat)
    requires Progress(w, all, now, owner, done, Some(k)) && k in now && w.nameThrows(k)
    ensures Swept(w, all, now, owner) && k in all
  {
    hide Goes, Before, Processed;
    forall j: nat | j in all
      ensures Processed(w, all, j) <==> j in done
    {
      DoneIsProcessed(w, all, now, owner, done, k, j);
    }
  }

  lemma SweepEnds(w: World, all: map<nat, Owner>, now: map<nat, Owner>, owner: Owner, done: set<nat>)
    requires Progress(w, all, now, owner, done, None)
    ensures Swept(w, all, now, owner)
    ensures forall k: nat :: k in all ==> k in done && !w.nameThrows(k)
    ensures forall k: nat :: Stale(w, all, owner, k) ==> k in done
  {
    hide Goes, Before;
    assert forall k: nat :: k in all ==> k in done;
  }

  lemma NoBitsAtAll()
    ensures forall k: nat :: !Bit(0, k)
  {
    forall k: nat
      ensures !Bit(0, k)
    {
      NoBitsOfZero(k);
    }
  }

  /** Every tracked volume is mounted under this owner already. */
  ghost predicate UpToDate(w: World, volumes: map<nat, Owner>, owner: Owner) {
    forall k: nat :: k in volumes ==> w.isMounted(k) && volumes[k] == owner
  }

  lemma UnchangedIsUpToDate(w: World, volumes: map<nat, Owner>, owner: Owner)
    ensures Refreshed(w, volumes, volumes, owner) <==> UpToDate(w, volumes, owner)
  {
  }

  /** Naming some target throws, so the walk does not get to its end. */
  ghost predicate Throwing(w: World, volumes: map<nat, Owner>) {
    exists k: nat :: k in volumes && w.nameThrows(k)
  }

  /** A stale volume comes back: it unmounts, it mounts again, and no exception comes before it. */
  ghost predicate Returns(w: World, volumes: map<nat, Owner>, owner: Owner, k: nat) {
    && w.unmounts(k) && w.attempts(k).Mounts?
    && forall j: nat :: j <= k && Stale(w, volumes, owner, j) && w.unmounts(j) ==> !w.attempts(j).Throws?
  }

  /** The table afterwards, volume by volume, whatever failed: a stale volume stays under its old owner
      if it would not unmount, and otherwise is there only if it came back. */
  ghost predicate Settled(w: World, before: map<nat, Owner>, after: map<nat, Owner>, owner: Owner) {
    forall k: nat ::
      && (k in after <==>
            k in before && w.isMounted(k) && (before[k] == owner || !w.unmounts(k) || Returns(w, before, owner, k)))
      && (k in after ==> after[k] == if w.unmounts(k) then owner else before[k])
  }

  lemma MountedMeansReturned(w: World, before: map<nat, Owner>, swept: map<nat, Owner>, after: map<nat, Owner>,
                             owner: Owner, v: nat)
    requires Swept(w, before, swept, owner) && Remounts(w, before, owner, v) && !Throwing(w, before)
    requires after == MountLoop(v, swept, owner, true, w.attempts).volumes
    ensures (forall k: nat :: Stale(w, before, owner, k) ==> Returns(w, before, owner, k)) <==>
            && (forall k: nat :: Stale(w, before, owner, k) ==> w.unmounts(k))
            && (forall k: nat :: Bit(v, k) ==> k in after)
    ensures (forall k: nat :: Stale(w, before, owner, k) ==> w.unmounts(k)) && (forall k: nat :: Bit(v, k) ==> k in after) ==>
            Refreshed(w, before, after, owner)
    ensures Settled(w, before, after, owner)
  {
    hide Bit, MountLoop, Before;
    assert forall k: nat :: Processed(w, before, k);
    hide Processed;
    forall k: nat
      ensures k in after <==> k in swept || Mounts(v, w.attempts, k)
      ensures k in after ==> after[k] == if Mounts(v, w.attempts, k) then owner else swept[k]
      ensures Mounts(v, w.attempts, k) <==> Stale(w, before, owner, k) && Returns(w, before, owner, k)
      ensures Bit(v, k) ==> k !in swept
    {
      MountIsPointwise(v, swept, owner, true, w.attempts, k);
      assert Bit(v, k) <==> Stale(w, before, owner, k) && w.unmounts(k);
    }
  }
}
