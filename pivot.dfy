/**
 * The column pivoting tool (pivot_gui.py): the check boxes that mark
 * columns as fixed or pivotable, the partner menus that pair pivotable
 * columns, the grouping of pivotable columns and the row expansion that
 * produces the pivoted table.
 */
module Pivot {
  import opened Tables

  /** The menu entry meaning "no partner". */
  const NONE: string := "Ninguno"

  /** Column name to the partner its menu shows. */
  type PairMap = map<string, string>

  // ---------------------------------------------------------------------
  // Pairing rules on values
  // ---------------------------------------------------------------------

  /** Whether `v` is in the partner menu of column `x`: "Ninguno" or another checked pivot column. */
  predicate Offered(pivot: map<string, bool>, x: string, v: string)
  {
    v == NONE || (v in pivot && pivot[v] && v != x)
  }

  /** Pairs are mutual and irreflexive, and "Ninguno" is not itself a column. */
  predicate Symmetric(pair: PairMap)
  {
    && NONE !in pair
    && forall x :: x in pair && pair[x] != NONE ==> pair[x] in pair && pair[x] != x && pair[pair[x]] == x
  }

  /** Symmetric, and every partner is offered, so both ends of every pair are checked. */
  predicate Consistent(pair: PairMap, pivot: map<string, bool>)
  {
    Symmetric(pair) && forall x :: x in pair ==> Offered(pivot, x, pair[x])
  }

  /** No column is its own partner. */
  predicate NoSelf(pair: PairMap)
  {
    forall x :: x in pair && pair[x] != NONE ==> pair[x] != x
  }

  /** `c` and everything pointing at `c` lose their partner. */
  function Unpair(pair: PairMap, c: string): (r: PairMap)
    ensures r.Keys == pair.Keys
  {
    map x | x in pair :: if x == c || pair[x] == c then NONE else pair[x]
  }

  /** `c` and `v` become partners; whatever pointed at either of them loses its partner. */
  function Repair(pair: PairMap, c: string, v: string): (r: PairMap)
    requires c in pair && v in pair
    ensures r.Keys == pair.Keys
  {
    map x | x in pair :: if x == c then v else if x == v then c else if pair[x] == c || pair[x] == v then NONE else pair[x]
  }

  /** The pair `x`, `pair[x]` survives a refresh: each end is in the other's menu. */
  predicate Kept(pivot: map<string, bool>, pair: PairMap, x: string)
    requires x in pair
  {
    pair[x] != NONE && Offered(pivot, x, pair[x]) && Offered(pivot, pair[x], x)
  }

  /** Only the pairs whose two ends are offered to each other remain. */
  function Prune(pair: PairMap, pivot: map<string, bool>): (r: PairMap)
    ensures r.Keys == pair.Keys
  {
    map x | x in pair :: if Kept(pivot, pair, x) then pair[x] else NONE
  }

  /**
   * `_set_pair(c, v)` with `_apply_pair_change`: nothing when `v` is already
   * shown; otherwise show `v`, release the previous partner's back reference,
   * and, for a real partner, either fall back to "Ninguno" when `v` is not a
   * checked pivot column, or detach `v` from its own partner and point `v`
   * back at `c`.
   */
  function SetPairEffect(pair: PairMap, pivot: map<string, bool>, c: string, v: string): (r: PairMap)
    requires c in pair
    ensures r.Keys == pair.Keys
  {
    var previous := pair[c];
    if previous == v then pair else PairChangeEffect(pair[c := v], pivot, c, previous, v)
  }

  /** `_apply_pair_change(c, previous, v)`, on the pairing that already shows `v` for `c`. */
  function PairChangeEffect(pair: PairMap, pivot: map<string, bool>, c: string, previous: string, v: string): (r: PairMap)
    requires c in pair
    ensures r.Keys == pair.Keys
  {
    var released := ReleasePrevious(pair, c, previous);
    if v == NONE then released
    else if v !in released || !(v in pivot && pivot[v]) then released[c := NONE]
    else LinkPartner(released, c, v)
  }

  /** The previous partner stops pointing at `c`. */
  function ReleasePrevious(pair: PairMap, c: string, previous: string): (r: PairMap)
    ensures r.Keys == pair.Keys
  {
    if previous != NONE && previous in pair && pair[previous] == c then pair[previous := NONE] else pair
  }

  /** `v` drops a partner other than `c`, and then points at `c`. */
  function LinkPartner(pair: PairMap, c: string, v: string): (r: PairMap)
    requires v in pair
    ensures r.Keys == pair.Keys
  {
    var current := pair[v];
    var detached := if current != NONE && current != c then DetachPartner(pair, v, current) else pair;
    if detached[v] != c then detached[v := c] else detached
  }

  /** `v` loses its partner `other`, and `other` stops pointing at `v`. */
  function DetachPartner(pair: PairMap, v: string, other: string): (r: PairMap)
    requires v in pair
    ensures r.Keys == pair.Keys
  {
    var q := pair[v := NONE];
    if other in q && q[other] == v then q[other := NONE] else q
  }

  lemma UnpairSymmetric(pair: PairMap, c: string)
    requires Symmetric(pair)
    ensures Symmetric(Unpair(pair, c))
  {
  }

  lemma RepairSymmetric(pair: PairMap, c: string, v: string)
    requires Symmetric(pair) && c in pair && v in pair && v != c && v != NONE
    ensures Symmetric(Repair(pair, c, v))
  {
    var r := Repair(pair, c, v);
    forall x | x in r && r[x] != NONE
      ensures r[x] in r && r[x] != x && r[r[x]] == x
    {
      if x != c && x != v {
        var y := pair[x];
        assert y != c && y != v;
        assert pair[y] == x;
        assert pair[y] != c && pair[y] != v;
      }
    }
  }

  /** Choosing a checked pivot column `v` for `c` on a symmetric pairing pairs the two. */
  lemma SetPairRepairs(pair: PairMap, pivot: map<string, bool>, c: string, v: string)
    requires Symmetric(pair) && c in pair && v != pair[c] && v != c
    requires v != NONE && v in pair && v in pivot && pivot[v]
    ensures SetPairEffect(pair, pivot, c, v) == Repair(pair, c, v)
  {
    SetPairRepairSteps(pair, pivot, c, v);
    RepairPointwise(pair, c, v);
  }

  /**
   * The map updates `_set_pair` and `_apply_pair_change` make, in order,
   * when `c` takes `v`: `c` shows `v`, the previous partner is released,
   * `v` drops its own partner, which is released too, and `v` points at `c`.
   */
  function RepairSteps(pair: PairMap, c: string, v: string): PairMap
    requires c in pair && v in pair
  {
    var previous := pair[c];
    var current := pair[v];
    var p2 := if previous != NONE then pair[c := v][previous := NONE] else pair[c := v];
    var p3 := if current != NONE then p2[v := NONE][current := NONE] else p2;
    p3[v := c]
  }

  /** The updates `_set_pair` and `_apply_pair_change` make when `c` takes a checked partner `v`. */
  lemma SetPairRepairSteps(pair: PairMap, pivot: map<string, bool>, c: string, v: string)
    requires Symmetric(pair) && c in pair && v != pair[c] && v != c
    requires v != NONE && v in pair && v in pivot && pivot[v]
    ensures SetPairEffect(pair, pivot, c, v) == RepairSteps(pair, c, v)
  {
    var previous := pair[c];
    var current := pair[v];
    assert current != c;
    var p1 := pair[c := v];
    var p2 := if previous != NONE then p1[previous := NONE] else p1;
    assert ReleasePrevious(p1, c, previous) == p2;
    assert p2[v] == current;
    var p3 := if current != NONE then p2[v := NONE][current := NONE] else p2;
    if current != NONE {
      assert p2[current] == v;
      assert DetachPartner(p2, v, current) == p3;
    }
    assert LinkPartner(p2, c, v) == p3[v := c];
  }

  /** On a symmetric pairing the step-by-step updates give the same pairing as `Repair`. */
  lemma RepairPointwise(pair: PairMap, c: string, v: string)
    requires Symmetric(pair) && c in pair && v in pair && v != pair[c] && v != c && v != NONE
    ensures RepairSteps(pair, c, v) == Repair(pair, c, v)
  {
    var r := RepairSteps(pair, c, v);
    var e := Repair(pair, c, v);
    forall x | x in pair
      ensures r[x] == e[x]
    {
      RepairAt(pair, c, v, x);
    }
    assert pair[c] != NONE ==> pair[c] in pair;
    assert pair[v] != NONE ==> pair[v] in pair;
    assert r.Keys == e.Keys;
  }

  lemma RepairAt(pair: PairMap, c: string, v: string, x: string)
    requires Symmetric(pair) && c in pair && v in pair && v != pair[c] && v != c && v != NONE
    requires x in pair
    ensures x in RepairSteps(pair, c, v) && RepairSteps(pair, c, v)[x] == Repair(pair, c, v)[x]
  {
    var previous := pair[c];
    var current := pair[v];
    assert current != c && previous != c;
    RepairStepsAt(pair, c, v, x);
    if x == v || x == c {
    } else if current != NONE && x == current {
      assert pair[x] == v;
    } else if previous != NONE && x == previous {
      assert pair[x] == c;
    } else {
      assert pair[x] != c && pair[x] != v;
    }
  }

  /** Where the steps of a repair leave column `x`: the last assignment to `x` wins. */
  lemma RepairStepsAt(pair: PairMap, c: string, v: string, x: string)
    requires c in pair && v in pair && x in pair
    ensures x in RepairSteps(pair, c, v)
    ensures RepairSteps(pair, c, v)[x] ==
      if x == v then c
      else if pair[v] != NONE && x == pair[v] then NONE
      else if pair[c] != NONE && x == pair[c] then NONE
      else if x == c then v
      else pair[x]
  {
  }


  /** Choosing "Ninguno", or a column that is not a checked pivot column, for `c` on a symmetric pairing unpairs `c`. */
  lemma SetPairUnpairs(pair: PairMap, pivot: map<string, bool>, c: string, v: string)
    requires Symmetric(pair) && c in pair && v != pair[c]
    requires !(v != NONE && v in pair && v in pivot && pivot[v])
    ensures SetPairEffect(pair, pivot, c, v) == Unpair(pair, c)
  {
    var previous := pair[c];
    var p1 := pair[c := v];
    var p2 := if previous != NONE then p1[previous := NONE] else p1;
    assert ReleasePrevious(p1, c, previous) == p2;
    assert SetPairEffect(pair, pivot, c, v) == UnpairSteps(pair, c, v);
    var r := UnpairSteps(pair, c, v);
    var e := Unpair(pair, c);
    forall x | x in pair
      ensures r[x] == e[x]
    {
      UnpairAt(pair, c, v, x);
    }
  }

  /** The pairing after the steps of `_on_option_menu_select` for a choice that links nothing. */
  function UnpairSteps(pair: PairMap, c: string, v: string): PairMap
    requires c in pair
  {
    var previous := pair[c];
    var p2 := if previous != NONE then pair[c := v][previous := NONE] else pair[c := v];
    if v == NONE then p2 else p2[c := NONE]
  }

  lemma UnpairAt(pair: PairMap, c: string, v: string, x: string)
    requires Symmetric(pair) && c in pair && v != pair[c] && x in pair
    ensures x in UnpairSteps(pair, c, v) && UnpairSteps(pair, c, v)[x] == Unpair(pair, c)[x]
  {
    if x != c && pair[x] == c {
      assert x == pair[c];
    }
  }

  /**
   * On a symmetric pairing, choosing `v` for `c` either pairs the two
   * (when `v` is a checked pivot column) or unpairs `c`; the result is
   * symmetric again, so no stale back reference remains.
   */
  lemma SetPairSymmetric(pair: PairMap, pivot: map<string, bool>, c: string, v: string)
    requires Symmetric(pair) && c in pair && v != pair[c] && v != c
    ensures SetPairEffect(pair, pivot, c, v) ==
      (if v != NONE && v in pair && v in pivot && pivot[v] then Repair(pair, c, v) else Unpair(pair, c))
    ensures Symmetric(SetPairEffect(pair, pivot, c, v))
  {
    if v != NONE && v in pair && v in pivot && pivot[v] {
      SetPairRepairs(pair, pivot, c, v);
      RepairSymmetric(pair, c, v);
    } else {
      SetPairUnpairs(pair, pivot, c, v);
      UnpairSymmetric(pair, c);
    }
  }

  /** One step of `_refresh_pair_options`: a partner missing from the column's menu is reset through `_set_pair`. */
  function RefreshOne(pair: PairMap, pivot: map<string, bool>, x: string): (r: PairMap)
    requires x in pair
    ensures r.Keys == pair.Keys
  {
    if Offered(pivot, x, pair[x]) then pair else SetPairEffect(pair, pivot, x, NONE)
  }

  /** `_refresh_pair_options` over the menus of `cols`, in order. */
  function RefreshSteps(pair: PairMap, pivot: map<string, bool>, cols: seq<string>): (r: PairMap)
    requires forall x :: x in cols ==> x in pair
    ensures r.Keys == pair.Keys
    decreases |cols|
  {
    if cols == [] then pair
    else RefreshOne(RefreshSteps(pair, pivot, cols[..|cols| - 1]), pivot, cols[|cols| - 1])
  }

  /** After a refresh every menu shows an entry it offers, and partners were only ever cleared. */
  lemma {:induction false} RefreshOffered(pair: PairMap, pivot: map<string, bool>, cols: seq<string>)
    requires forall x :: x in cols ==> x in pair
    ensures var r := RefreshSteps(pair, pivot, cols);
      && (forall x :: x in cols ==> Offered(pivot, x, r[x]))
      && (forall x :: x in pair ==> r[x] == pair[x] || r[x] == NONE)
    decreases |cols|
  {
    if cols != [] {
      var init := cols[..|cols| - 1];
      RefreshOffered(pair, pivot, init);
      var r0 := RefreshSteps(pair, pivot, init);
      var r := RefreshSteps(pair, pivot, cols);
      assert forall x :: x in cols <==> x in init || x == cols[|cols| - 1];
    }
  }

  /** On a symmetric pairing a refresh keeps it symmetric and never breaks a pair whose ends are offered to each other. */
  lemma {:induction false} RefreshSymmetric(pair: PairMap, pivot: map<string, bool>, cols: seq<string>)
    requires Symmetric(pair)
    requires forall x :: x in cols ==> x in pair
    ensures var r := RefreshSteps(pair, pivot, cols);
      && Symmetric(r)
      && forall x :: x in pair && Kept(pivot, pair, x) ==> r[x] == pair[x]
    decreases |cols|
  {
    if cols != [] {
      var init := cols[..|cols| - 1];
      var x := cols[|cols| - 1];
      RefreshSymmetric(pair, pivot, init);
      RefreshOffered(pair, pivot, init);
      var r0 := RefreshSteps(pair, pivot, init);
      if !Offered(pivot, x, r0[x]) {
        SetPairSymmetric(r0, pivot, x, NONE);
        assert RefreshSteps(pair, pivot, cols) == Unpair(r0, x);
        forall y | y in pair && Kept(pivot, pair, y)
          ensures Unpair(r0, x)[y] == pair[y]
        {
        }
      }
    }
  }

  /** A refresh of a symmetric pairing over all columns prunes exactly the pairs whose ends are not offered to each other. */
  lemma RefreshPrunes(pair: PairMap, pivot: map<string, bool>, cols: seq<string>)
    requires Symmetric(pair)
    requires forall x :: x in pair <==> x in cols
    ensures RefreshSteps(pair, pivot, cols) == Prune(pair, pivot)
    ensures Consistent(Prune(pair, pivot), pivot)
  {
    RefreshSymmetric(pair, pivot, cols);
    RefreshOffered(pair, pivot, cols);
    var r := RefreshSteps(pair, pivot, cols);
    var e := Prune(pair, pivot);
    forall x | x in pair
      ensures r[x] == e[x]
    {
      PruneAt(pair, pivot, r, x);
    }
    assert r == e;
  }

  /** A symmetric pairing with offered partners that only cleared partners, and kept every kept pair, agrees with `Prune` at `x`. */
  lemma PruneAt(pair: PairMap, pivot: map<string, bool>, r: PairMap, x: string)
    requires Symmetric(r) && r.Keys == pair.Keys && x in pair
    requires forall y :: y in pair ==> Offered(pivot, y, r[y])
    requires forall y :: y in pair ==> r[y] == pair[y] || r[y] == NONE
    requires forall y :: y in pair && Kept(pivot, pair, y) ==> r[y] == pair[y]
    ensures r[x] == Prune(pair, pivot)[x]
  {
    if r[x] != NONE {
      var y := r[x];
      assert r[y] == x;
      assert Offered(pivot, x, y) && Offered(pivot, y, x);
      assert Kept(pivot, pair, x);
    }
  }

  /** Pruning a consistent pairing changes nothing. */
  lemma PruneConsistent(pair: PairMap, pivot: map<string, bool>)
    requires Consistent(pair, pivot)
    ensures Prune(pair, pivot) == pair
  {
    forall x | x in pair
      ensures Prune(pair, pivot)[x] == pair[x]
    {
      if pair[x] != NONE {
        assert Offered(pivot, pair[x], pair[pair[x]]);
      }
    }
  }

  /** One step of the loop of `_on_pivot_toggle`: a column whose partner is `c` is reset through `_set_pair`. */
  function ClearOne(pair: PairMap, pivot: map<string, bool>, c: string, x: string): (r: PairMap)
    requires x in pair
    ensures r.Keys == pair.Keys
  {
    if pair[x] == c then SetPairEffect(pair, pivot, x, NONE) else pair
  }

  function ClearSteps(pair: PairMap, pivot: map<string, bool>, c: string, cols: seq<string>): (r: PairMap)
    requires forall x :: x in cols ==> x in pair
    ensures r.Keys == pair.Keys
    decreases |cols|
  {
    if cols == [] then pair
    else ClearOne(ClearSteps(pair, pivot, c, cols[..|cols| - 1]), pivot, c, cols[|cols| - 1])
  }

  /** Unpairing either end of a pair gives the same pairing. */
  lemma UnpairMutual(pair: PairMap, x: string, c: string)
    requires Symmetric(pair) && x in pair && pair[x] == c && c != NONE
    ensures Unpair(pair, x) == Unpair(pair, c)
  {
    forall y | y in pair
      ensures Unpair(pair, x)[y] == Unpair(pair, c)[y]
    {
      if pair[y] == x {
        assert y == c;
      } else if pair[y] == c {
        assert y == x;
      }
    }
  }

  /** On a symmetric pairing the loop unpairs `c` once it has met `c`'s partner, and changes nothing before. */
  lemma {:induction false} ClearStepsSymmetric(pair: PairMap, pivot: map<string, bool>, c: string, cols: seq<string>)
    requires Symmetric(pair) && c in pair
    requires forall x :: x in cols ==> x in pair
    ensures ClearSteps(pair, pivot, c, cols) == (if pair[c] != NONE && pair[c] in cols then Unpair(pair, c) else pair)
    decreases |cols|
  {
    if cols != [] {
      var init := cols[..|cols| - 1];
      var x := cols[|cols| - 1];
      ClearStepsSymmetric(pair, pivot, c, init);
      var r0 := ClearSteps(pair, pivot, c, init);
      assert ClearSteps(pair, pivot, c, cols) == ClearOne(r0, pivot, c, x);
      assert forall y :: y in cols <==> y in init || y == x;
      if pair[c] != NONE && pair[c] in init {
        assert r0 == Unpair(pair, c);
        assert r0[x] != c;
      } else if pair[x] == c {
        assert r0 == pair;
        assert x == pair[c];
        SetPairUnpairs(pair, pivot, x, NONE);
        UnpairMutual(pair, x, c);
      } else {
        assert r0 == pair;
        assert x != pair[c];
      }
    }
  }

  /**
   * Unchecking `c` on a symmetric pairing and refreshing leaves exactly the
   * pairs whose two ends are still checked; `c` ends up unpaired and nobody
   * points at it.
   */
  lemma ToggleOffPrunes(pair: PairMap, pivot: map<string, bool>, c: string, cols: seq<string>)
    requires Symmetric(pair) && c in pair && c in pivot && !pivot[c]
    requires forall x :: x in pair <==> x in cols
    ensures var cleared := ClearSteps(pair, pivot, c, cols);
      RefreshSteps(SetPairEffect(cleared, pivot, c, NONE), pivot, cols) == Prune(pair, pivot)
  {
    ClearStepsSymmetric(pair, pivot, c, cols);
    var u := Unpair(pair, c);
    if pair[c] == NONE {
      UnpairUnpaired(pair, c);
    }
    assert ClearSteps(pair, pivot, c, cols) == u;
    assert SetPairEffect(u, pivot, c, NONE) == u;
    UnpairSymmetric(pair, c);
    RefreshPrunes(u, pivot, cols);
    PruneUnpair(pair, pivot, c);
  }

  /** Unpairing a column without partner changes nothing on a symmetric pairing. */
  lemma UnpairUnpaired(pair: PairMap, c: string)
    requires Symmetric(pair) && c in pair && pair[c] == NONE
    ensures Unpair(pair, c) == pair
  {
    forall y | y in pair
      ensures Unpair(pair, c)[y] == pair[y]
    {
    }
  }

  /** Pairs of an unchecked column are pruned anyway, so unpairing it first makes no difference. */
  lemma PruneUnpair(pair: PairMap, pivot: map<string, bool>, c: string)
    requires c in pivot && !pivot[c] && c != NONE
    ensures Prune(Unpair(pair, c), pivot) == Prune(pair, pivot)
  {
    var u := Unpair(pair, c);
    forall x | x in pair
      ensures Prune(u, pivot)[x] == Prune(pair, pivot)[x]
    {
    }
  }

  /**
   * Choosing partner `v` in the menu of checked column `c` on a consistent
   * pairing, followed by the refresh: "Ninguno" unpairs `c`, a checked
   * column pairs `c` and `v` both ways and unpairs their former partners,
   * the current partner changes nothing; the pairing stays consistent.
   */
  lemma SelectPartnerSpec(pair: PairMap, pivot: map<string, bool>, c: string, v: string, cols: seq<string>)
    requires Consistent(pair, pivot) && c in pair && c in pivot && pivot[c]
    requires forall x :: x in pair <==> x in cols
    requires v == NONE || (v in pair && v in pivot && pivot[v] && v != c)
    ensures var r := RefreshSteps(SetPairEffect(pair, pivot, c, v), pivot, cols);
      && r == (if v == pair[c] then pair else if v == NONE then Unpair(pair, c) else Repair(pair, c, v))
      && Consistent(r, pivot)
  {
    var s := SetPairEffect(pair, pivot, c, v);
    if v == pair[c] {
      RefreshPrunes(pair, pivot, cols);
      PruneConsistent(pair, pivot);
    } else {
      SetPairSymmetric(pair, pivot, c, v);
      SetPairOffered(pair, pivot, c, v);
      RefreshPrunes(s, pivot, cols);
      PruneConsistent(s, pivot);
    }
  }

  /** A choice offered by the menu of a pivotable column keeps the pairing consistent. */
  lemma SetPairOffered(pair: PairMap, pivot: map<string, bool>, c: string, v: string)
    requires Consistent(pair, pivot) && c in pair && c in pivot && pivot[c]
    requires v == NONE || (v in pair && v in pivot && pivot[v] && v != c)
    requires v != pair[c]
    ensures Consistent(SetPairEffect(pair, pivot, c, v), pivot)
  {
    var s := SetPairEffect(pair, pivot, c, v);
    SetPairSymmetric(pair, pivot, c, v);
    forall x | x in s
      ensures Offered(pivot, x, s[x])
    {
      if s[x] != NONE && x != c && x != v {
        assert s[x] == pair[x];
      }
    }
  }

  /** The menu of column `c`: "Ninguno", then the checked pivot columns other than `c`, in column order. */
  function Options(columns: seq<string>, pivot: map<string, bool>, c: string): (r: seq<string>)
    requires forall k :: 0 <= k < |columns| ==> columns[k] in pivot
    ensures |r| >= 1 && r[0] == NONE
    ensures forall x :: x in r <==> x == NONE || (x in columns && pivot[x] && x != c)
  {
    [NONE] + Filter(Selected(columns, pivot), (x: string) => x != c)
  }

  /** With the menus built over all columns, membership in a menu is `Offered`. */
  lemma OptionsOffered(columns: seq<string>, pivot: map<string, bool>, c: string, v: string)
    requires forall x :: x in pivot <==> x in columns
    ensures v in Options(columns, pivot, c) <==> Offered(pivot, c, v)
  {
  }

  /** `[column for column, var in vars.items() if var.get()]`. */
  function Selected(columns: seq<string>, checked: map<string, bool>): (r: seq<string>)
    requires forall k :: 0 <= k < |columns| ==> columns[k] in checked
    ensures IsSubsequence(r, columns)
    ensures forall x :: x in r <==> x in columns && checked[x]
    ensures Distinct(columns) ==> Distinct(r)
  {
    FilterDistinctIf(columns, (x: string) => x in checked && checked[x]);
    Filter(columns, (x: string) => x in checked && checked[x])
  }

  lemma FilterDistinctIf(s: seq<string>, keep: string -> bool)
    ensures Distinct(s) ==> Distinct(Filter(s, keep))
  {
    if Distinct(s) {
      FilterDistinct(s, keep);
    }
  }

  // ---------------------------------------------------------------------
  // Groups of pivot columns (_build_groups)
  // ---------------------------------------------------------------------

  /**
   * The test `_build_groups` applies to the partner of `c`: a real partner
   * that is a selected pivot column pointing back at `c`. With
   * `guardVisited` the partner must also not be grouped yet.
   */
  predicate PairedWith(pair: PairMap, pcs: seq<string>, visited: set<string>, c: string, guardVisited: bool)
    requires c in pair
  {
    var partner := pair[c];
    && partner != NONE && partner in pcs && partner in pair && pair[partner] == c
    && (guardVisited ==> partner !in visited)
  }

  /** The loop of `_build_groups` over the columns `rest` still to visit. */
  function GroupsLoop(rest: seq<string>, pcs: seq<string>, pair: PairMap, visited: set<string>, guardVisited: bool): (r: seq<seq<string>>)
    requires forall x :: x in rest ==> x in pair
    ensures forall k :: 0 <= k < |r| ==> 1 <= |r[k]| <= 2
    decreases |rest|
  {
    if rest == [] then []
    else
      var c := rest[0];
      if c in visited then GroupsLoop(rest[1..], pcs, pair, visited, guardVisited)
      else if PairedWith(pair, pcs, visited, c, guardVisited) then
        [[c, pair[c]]] + GroupsLoop(rest[1..], pcs, pair, visited + {c, pair[c]}, guardVisited)
      else [[c]] + GroupsLoop(rest[1..], pcs, pair, visited + {c}, guardVisited)
  }

  /** `_build_groups(pcs)` as written. */
  function GroupsAsWritten(pcs: seq<string>, pair: PairMap): seq<seq<string>>
    requires forall x :: x in pcs ==> x in pair
  {
    GroupsLoop(pcs, pcs, pair, {}, false)
  }

  /** `_build_groups(pcs)` with the partner also required not to be grouped already. */
  function Groups(pcs: seq<string>, pair: PairMap): seq<seq<string>>
    requires forall x :: x in pcs ==> x in pair
  {
    GroupsLoop(pcs, pcs, pair, {}, true)
  }

  function Flatten(groups: seq<seq<string>>): seq<string>
    decreases |groups|
  {
    if groups == [] then [] else groups[0] + Flatten(groups[1..])
  }

  /** A singleton, or two columns that name each other as partners. */
  predicate GroupShape(pair: PairMap, g: seq<string>)
  {
    |g| == 1 || (|g| == 2 && g[0] in pair && g[1] in pair && pair[g[0]] == g[1] && pair[g[1]] == g[0])
  }

  function Heads(groups: seq<seq<string>>): seq<string>
    requires forall k :: 0 <= k < |groups| ==> |groups[k]| >= 1
  {
    seq(|groups|, k requires 0 <= k < |groups| => groups[k][0])
  }

  lemma FlattenMembers(groups: seq<seq<string>>)
    ensures forall y :: y in Flatten(groups) <==> exists k :: 0 <= k < |groups| && y in groups[k]
    decreases |groups|
  {
    if groups != [] {
      FlattenMembers(groups[1..]);
      assert forall k :: 0 <= k < |groups| - 1 ==> groups[1..][k] == groups[k + 1];
    }
  }

  /** The loop (with the guard) covers every unvisited column of `rest` exactly once. */
  lemma {:induction false} GroupsLoopCover(rest: seq<string>, pcs: seq<string>, pair: PairMap, visited: set<string>)
    requires Distinct(rest) && NoSelf(pair)
    requires forall x :: x in rest ==> x in pair
    requires forall x :: x in pcs ==> x in rest || x in visited
    ensures var g := GroupsLoop(rest, pcs, pair, visited, true);
      && Distinct(Flatten(g))
      && forall y :: y in Flatten(g) <==> y in rest && y !in visited
    decreases |rest|
  {
    if rest != [] {
      var c := rest[0];
      assert forall x :: x in rest <==> x == c || x in rest[1..];
      assert c !in rest[1..];
      if c in visited {
        GroupsLoopCover(rest[1..], pcs, pair, visited);
      } else if PairedWith(pair, pcs, visited, c, true) {
        var v2 := visited + {c, pair[c]};
        GroupsLoopCover(rest[1..], pcs, pair, v2);
        var tail := GroupsLoop(rest[1..], pcs, pair, v2, true);
        assert Flatten([[c, pair[c]]] + tail) == [c, pair[c]] + Flatten(tail);
        DistinctAppend([c, pair[c]], Flatten(tail));
      } else {
        var v2 := visited + {c};
        GroupsLoopCover(rest[1..], pcs, pair, v2);
        var tail := GroupsLoop(rest[1..], pcs, pair, v2, true);
        assert Flatten([[c]] + tail) == [c] + Flatten(tail);
        DistinctAppend([c], Flatten(tail));
      }
    }
  }

  /** Every group of the loop is a singleton or a mutual pair headed by an unvisited column of `rest`. */
  lemma {:induction false} GroupsLoopShape(rest: seq<string>, pcs: seq<string>, pair: PairMap, visited: set<string>, guardVisited: bool)
    requires forall x :: x in rest ==> x in pair
    ensures forall g :: g in GroupsLoop(rest, pcs, pair, visited, guardVisited) ==>
      GroupShape(pair, g) && g[0] in rest && g[0] !in visited
    decreases |rest|
  {
    if rest != [] {
      var c := rest[0];
      var paired := c !in visited && PairedWith(pair, pcs, visited, c, guardVisited);
      var v2 := if c in visited then visited else if paired then visited + {c, pair[c]} else visited + {c};
      GroupsLoopShape(rest[1..], pcs, pair, v2, guardVisited);
      var tail := GroupsLoop(rest[1..], pcs, pair, v2, guardVisited);
      var g := GroupsLoop(rest, pcs, pair, visited, guardVisited);
      assert forall x :: x in rest[1..] ==> x in rest;
      if c !in visited {
        var head := if paired then [c, pair[c]] else [c];
        assert g == [head] + tail;
        assert GroupShape(pair, head);
      } else {
        assert g == tail;
      }
    }
  }

  /** The heads of the loop's groups follow the order of `rest`. */
  lemma {:induction false} GroupsLoopHeads(rest: seq<string>, pcs: seq<string>, pair: PairMap, visited: set<string>, guardVisited: bool)
    requires forall x :: x in rest ==> x in pair
    ensures IsSubsequence(Heads(GroupsLoop(rest, pcs, pair, visited, guardVisited)), rest)
    decreases |rest|
  {
    if rest != [] {
      var c := rest[0];
      var paired := c !in visited && PairedWith(pair, pcs, visited, c, guardVisited);
      var v2 := if c in visited then visited else if paired then visited + {c, pair[c]} else visited + {c};
      GroupsLoopHeads(rest[1..], pcs, pair, v2, guardVisited);
      var tail := GroupsLoop(rest[1..], pcs, pair, v2, guardVisited);
      var g := GroupsLoop(rest, pcs, pair, visited, guardVisited);
      if c in visited {
        assert g == tail;
        if Heads(g) != [] {
          GroupsLoopShape(rest[1..], pcs, pair, v2, guardVisited);
          assert tail[0] in tail;
        }
      } else {
        assert g[1..] == tail;
        assert Heads(g)[1..] == Heads(tail);
      }
    }
  }

  /**
   * `Groups` puts every selected pivot column in exactly one group; each
   * group is a singleton or a mutual pair, and groups come in the order of
   * their first column.
   */
  lemma GroupsPartition(pcs: seq<string>, pair: PairMap)
    requires Distinct(pcs) && NoSelf(pair)
    requires forall x :: x in pcs ==> x in pair
    ensures var g := Groups(pcs, pair);
      && Distinct(Flatten(g))
      && (forall y :: y in Flatten(g) <==> y in pcs)
      && (forall k :: 0 <= k < |g| ==> GroupShape(pair, g[k]))
      && IsSubsequence(Heads(g), pcs)
  {
    GroupsLoopCover(pcs, pcs, pair, {});
    GroupsLoopShape(pcs, pcs, pair, {}, true);
    GroupsLoopHeads(pcs, pcs, pair, {}, true);
  }

  lemma {:induction false} GroupsLoopMutual(rest: seq<string>, pcs: seq<string>, pair: PairMap, visited: set<string>, i: int, j: int)
    requires Distinct(rest)
    requires forall x :: x in rest ==> x in pair
    requires 0 <= i < j < |rest|
    requires pair[rest[i]] == rest[j] && pair[rest[j]] == rest[i] && rest[j] != NONE && rest[j] in pcs
    requires rest[i] !in visited && rest[j] !in visited
    ensures [rest[i], rest[j]] in GroupsLoop(rest, pcs, pair, visited, true)
    decreases |rest|
  {
    var c := rest[0];
    if i > 0 {
      assert c != rest[i] && c != rest[j];
      var v2 := if c in visited then visited else if PairedWith(pair, pcs, visited, c, true) then visited + {c, pair[c]} else visited + {c};
      assert rest[1..][i - 1] == rest[i] && rest[1..][j - 1] == rest[j];
      GroupsLoopMutual(rest[1..], pcs, pair, v2, i - 1, j - 1);
    }
  }

  /** Two selected pivot columns (the later one not "Ninguno") that name each other form a group. */
  lemma MutualPairsGrouped(pcs: seq<string>, pair: PairMap, i: int, j: int)
    requires Distinct(pcs)
    requires forall x :: x in pcs ==> x in pair
    requires 0 <= i < j < |pcs|
    requires pair[pcs[i]] == pcs[j] && pair[pcs[j]] == pcs[i] && pcs[j] != NONE
    ensures [pcs[i], pcs[j]] in Groups(pcs, pair)
  {
    GroupsLoopMutual(pcs, pcs, pair, {}, i, j);
  }

  /** No visited column is half of a mutual pair whose other half is still unvisited. */
  predicate NoHalfVisited(pair: PairMap, pcs: seq<string>, visited: set<string>)
  {
    forall b, c :: b in visited && c in pcs && c !in visited && c in pair && pair[c] == b && b in pair ==> pair[b] != c
  }

  lemma {:induction false} GroupsLoopAgree(rest: seq<string>, pcs: seq<string>, pair: PairMap, visited: set<string>)
    requires NONE !in pcs
    requires forall x :: x in rest ==> x in pcs
    requires forall x :: x in pcs ==> x in pair
    requires NoHalfVisited(pair, pcs, visited)
    ensures GroupsLoop(rest, pcs, pair, visited, false) == GroupsLoop(rest, pcs, pair, visited, true)
    decreases |rest|
  {
    if rest != [] {
      var c := rest[0];
      assert forall x :: x in rest[1..] ==> x in rest;
      if c in visited {
        GroupsLoopAgree(rest[1..], pcs, pair, visited);
      } else {
        assert PairedWith(pair, pcs, visited, c, false) == PairedWith(pair, pcs, visited, c, true);
        if PairedWith(pair, pcs, visited, c, true) {
          var v2 := visited + {c, pair[c]};
          GroupsLoopAgree(rest[1..], pcs, pair, v2);
        } else {
          var v2 := visited + {c};
          forall b, d | b in v2 && d in pcs && d !in v2 && d in pair && pair[d] == b && b in pair
            ensures pair[b] != d
          {
            if b == c && pair[c] == d {
              assert PairedWith(pair, pcs, visited, c, false);
            }
          }
          GroupsLoopAgree(rest[1..], pcs, pair, v2);
        }
      }
    }
  }

  /** When no column is called "Ninguno", the extra guard never changes the groups. */
  lemma GroupsAgreeWithoutNinguno(pcs: seq<string>, pair: PairMap)
    requires NONE !in pcs
    requires forall x :: x in pcs ==> x in pair
    ensures GroupsAsWritten(pcs, pair) == Groups(pcs, pair)
  {
    GroupsLoopAgree(pcs, pcs, pair, {});
  }

  /**
   * A column literally named "Ninguno" that picked `X` as partner, with `X`
   * listed first: as written, `X` lands in two groups; with the guard every
   * column is in one group.
   */
  lemma GroupsAsWrittenRepeats()
    ensures var pcs := ["X", NONE];
      var pair := map["X" := NONE, NONE := "X"];
      && GroupsAsWritten(pcs, pair) == [["X"], [NONE, "X"]]
      && !Distinct(Flatten(GroupsAsWritten(pcs, pair)))
      && Groups(pcs, pair) == [["X"], [NONE]]
  {
    var pcs := ["X", NONE];
    var pair := map["X" := NONE, NONE := "X"];
    assert pcs[1..] == [NONE] && pcs[1..][1..] == [];
    assert !PairedWith(pair, pcs, {}, "X", false) && !PairedWith(pair, pcs, {}, "X", true);
    assert PairedWith(pair, pcs, {"X"}, NONE, false);
    assert !PairedWith(pair, pcs, {"X"}, NONE, true);
    assert GroupsLoop([NONE], pcs, pair, {"X"}, false) == [[NONE, "X"]];
    assert GroupsLoop([NONE], pcs, pair, {"X"}, true) == [[NONE]];
    var none: set<string> := {};
    assert none + {"X"} == {"X"};
    assert GroupsLoop(pcs, pcs, pair, {}, false) == [["X"]] + GroupsLoop([NONE], pcs, pair, {"X"}, false);
    assert GroupsLoop(pcs, pcs, pair, {}, true) == [["X"]] + GroupsLoop([NONE], pcs, pair, {"X"}, true);
    var w := [["X"], [NONE, "X"]];
    assert Flatten(w[1..][1..]) == [];
    assert Flatten(w) == ["X", NONE, "X"];
    assert Flatten(w)[0] == Flatten(w)[2];
  }

  /** With at least one selected pivot column there is at least one group. */
  lemma GroupsNonempty(pcs: seq<string>, pair: PairMap)
    requires forall x :: x in pcs ==> x in pair
    requires pcs != []
    ensures |Groups(pcs, pair)| >= 1
  {
  }

  /**
   * The pairing of the lemma above is reachable: with columns "X" and
   * "Ninguno" both checked and nothing paired, choosing "X" in the menu of
   * "Ninguno" yields it, and the menus then show only offered entries.
   */
  lemma NingunoPairingReachable()
    ensures var cols := ["X", NONE];
      var pivot := map["X" := true, NONE := true];
      var start := map["X" := NONE, NONE := NONE];
      var reached := RefreshSteps(SetPairEffect(start, pivot, NONE, "X"), pivot, cols);
      && (forall x :: x in cols ==> Offered(pivot, x, start[x]))
      && Offered(pivot, NONE, "X")
      && reached == map["X" := NONE, NONE := "X"]
      && Selected(cols, pivot) == cols
      && GroupsAsWritten(Selected(cols, pivot), reached) == [["X"], [NONE, "X"]]
  {
    var cols := ["X", NONE];
    var pivot := map["X" := true, NONE := true];
    var start := map["X" := NONE, NONE := NONE];
    var target := map["X" := NONE, NONE := "X"];
    var shown := start[NONE := "X"];
    assert shown == target;
    assert ReleasePrevious(shown, NONE, NONE) == shown;
    assert LinkPartner(shown, NONE, "X") == shown;
    assert SetPairEffect(start, pivot, NONE, "X") == target;
    assert cols[..1] == ["X"] && cols[..1][..0] == [];
    assert RefreshSteps(target, pivot, cols[..1]) == target;
    assert RefreshSteps(target, pivot, cols) == target;
    assert Selected(cols, pivot) == cols by {
      var keep := (x: string) => x in pivot && pivot[x];
      assert cols[1..] == [NONE] && cols[1..][1..] == [];
      assert Filter(cols[1..], keep) == [NONE];
    }
    GroupsAsWrittenRepeats();
  }

  // ---------------------------------------------------------------------
  // The pivoted table (generate_pivoted_file)
  // ---------------------------------------------------------------------

  const BASE_COLUMN: string := "Columna_base"
  const VALUE_A: string := "Valor_A"
  const VALUE_B: string := "Valor_B"

  /** The output row for one input row and one group: fixed values, the group's first column name and its one or two values. */
  function PivotRow(row: Row, fixedCols: seq<string>, g: seq<string>): Row
    requires |g| >= 1
  {
    var fixedValues := map c | c in fixedCols :: CellOf(row, c);
    fixedValues[BASE_COLUMN := Some(Text(g[0]))][VALUE_A := CellOf(row, g[0])][VALUE_B := if |g| == 2 then CellOf(row, g[1]) else None]
  }

  /**
   * An output row has the fixed columns and the three new ones; it copies
   * the fixed values, names the group's first column, holds that column's
   * value and, for a pair, the partner's value (missing for a singleton).
   */
  lemma PivotRowSpec(row: Row, fixedCols: seq<string>, g: seq<string>)
    requires |g| >= 1
    ensures var r := PivotRow(row, fixedCols, g);
      && r.Keys == ColumnSet(fixedCols) + {BASE_COLUMN, VALUE_A, VALUE_B}
      && (forall c :: c in fixedCols && c != BASE_COLUMN && c != VALUE_A && c != VALUE_B ==> r[c] == CellOf(row, c))
      && r[BASE_COLUMN] == Some(Text(g[0])) && r[VALUE_A] == CellOf(row, g[0])
      && r[VALUE_B] == (if |g| == 2 then CellOf(row, g[1]) else None)
  {
  }

  /** The output rows of one input row, one per group in group order. */
  function Expand(row: Row, fixedCols: seq<string>, gs: seq<seq<string>>): (r: seq<Row>)
    requires forall k :: 0 <= k < |gs| ==> |gs[k]| >= 1
    ensures |r| == |gs|
    ensures forall j :: 0 <= j < |gs| ==> r[j] == PivotRow(row, fixedCols, gs[j])
    decreases |gs|
  {
    if gs == [] then [] else Expand(row, fixedCols, gs[..|gs| - 1]) + [PivotRow(row, fixedCols, gs[|gs| - 1])]
  }

  /** All output rows: the expansions of the input rows, in row order. */
  function ExpandRows(rows: seq<Row>, fixedCols: seq<string>, gs: seq<seq<string>>): seq<Row>
    requires forall k :: 0 <= k < |gs| ==> |gs[k]| >= 1
    decreases |rows|
  {
    if rows == [] then [] else ExpandRows(rows[..|rows| - 1], fixedCols, gs) + Expand(rows[|rows| - 1], fixedCols, gs)
  }

  /** `i * m`, counted up one block of `m` at a time, so that row offsets need no multiplication. */
  function Offset(i: nat, m: nat): nat
  {
    if i == 0 then 0 else Offset(i - 1, m) + m
  }

  lemma {:induction false} OffsetProduct(i: nat, m: nat)
    ensures Offset(i, m) == i * m
  {
    if i > 0 {
      OffsetProduct(i - 1, m);
      assert (i - 1) * m + m == i * m;
    }
  }

  /** The output rows of the first `n` input rows fill `n` blocks of `|gs|` rows. */
  lemma {:induction false} ExpandRowsBlocks(rows: seq<Row>, fixedCols: seq<string>, gs: seq<seq<string>>)
    requires forall k :: 0 <= k < |gs| ==> |gs[k]| >= 1
    ensures |ExpandRows(rows, fixedCols, gs)| == Offset(|rows|, |gs|)
    decreases |rows|
  {
    if rows != [] {
      ExpandRowsBlocks(rows[..|rows| - 1], fixedCols, gs);
    }
  }

  /** One output row per input row and group. */
  lemma ExpandRowsLength(rows: seq<Row>, fixedCols: seq<string>, gs: seq<seq<string>>)
    requires forall k :: 0 <= k < |gs| ==> |gs[k]| >= 1
    ensures |ExpandRows(rows, fixedCols, gs)| == |rows| * |gs|
  {
    ExpandRowsBlocks(rows, fixedCols, gs);
    OffsetProduct(|rows|, |gs|);
  }

  lemma MulMonotone(a: int, b: int, m: int)
    requires 0 <= a <= b && 0 <= m
    ensures a * m <= b * m
  {
  }

  /** Output row `Offset(i, |gs|) + j`, that is row `i * |gs| + j` by `OffsetProduct`, is the row of input row `i` and group `j`. */
  lemma {:induction false} ExpandRowsIndex(rows: seq<Row>, fixedCols: seq<string>, gs: seq<seq<string>>, i: nat, j: nat)
    requires forall k :: 0 <= k < |gs| ==> |gs[k]| >= 1
    requires i < |rows| && j < |gs|
    ensures Offset(i, |gs|) + j < |ExpandRows(rows, fixedCols, gs)|
    ensures ExpandRows(rows, fixedCols, gs)[Offset(i, |gs|) + j] == PivotRow(rows[i], fixedCols, gs[j])
    decreases |rows|, 1
  {
    if i < |rows| - 1 {
      ExpandRowsIndexEarlier(rows, fixedCols, gs, i, j);
    } else {
      ExpandRowsIndexLast(rows, fixedCols, gs, i, j);
    }
  }

  /** An input row before the last one: its output rows sit where they sat before the last row was added. */
  lemma {:induction false} ExpandRowsIndexEarlier(rows: seq<Row>, fixedCols: seq<string>, gs: seq<seq<string>>, i: nat, j: nat)
    requires forall k :: 0 <= k < |gs| ==> |gs[k]| >= 1
    requires i < |rows| - 1 && j < |gs|
    ensures Offset(i, |gs|) + j < |ExpandRows(rows, fixedCols, gs)|
    ensures ExpandRows(rows, fixedCols, gs)[Offset(i, |gs|) + j] == PivotRow(rows[i], fixedCols, gs[j])
    decreases |rows|, 0
  {
    var init := rows[..|rows| - 1];
    ExpandRowsIndex(init, fixedCols, gs, i, j);
    ExpandRowsEarlier(rows, fixedCols, gs, Offset(i, |gs|) + j);
    assert init[i] == rows[i];
  }

  /** Adding an input row keeps the earlier output rows in place. */
  lemma ExpandRowsEarlier(rows: seq<Row>, fixedCols: seq<string>, gs: seq<seq<string>>, k: int)
    requires forall k :: 0 <= k < |gs| ==> |gs[k]| >= 1
    requires rows != [] && 0 <= k < |ExpandRows(rows[..|rows| - 1], fixedCols, gs)|
    ensures k < |ExpandRows(rows, fixedCols, gs)|
    ensures ExpandRows(rows, fixedCols, gs)[k] == ExpandRows(rows[..|rows| - 1], fixedCols, gs)[k]
  {
  }

  /** The last input row's output rows come last, one per group. */
  lemma ExpandRowsLast(rows: seq<Row>, fixedCols: seq<string>, gs: seq<seq<string>>, j: int)
    requires forall k :: 0 <= k < |gs| ==> |gs[k]| >= 1
    requires rows != [] && 0 <= j < |gs|
    ensures var start := |ExpandRows(rows[..|rows| - 1], fixedCols, gs)|;
      && start + j < |ExpandRows(rows, fixedCols, gs)|
      && ExpandRows(rows, fixedCols, gs)[start + j] == PivotRow(rows[|rows| - 1], fixedCols, gs[j])
  {
  }

  /** The last input row: its output rows follow the `Offset(i, |gs|)` rows of the others. */
  lemma ExpandRowsIndexLast(rows: seq<Row>, fixedCols: seq<string>, gs: seq<seq<string>>, i: nat, j: nat)
    requires forall k :: 0 <= k < |gs| ==> |gs[k]| >= 1
    requires i == |rows| - 1 && j < |gs|
    ensures Offset(i, |gs|) + j < |ExpandRows(rows, fixedCols, gs)|
    ensures ExpandRows(rows, fixedCols, gs)[Offset(i, |gs|) + j] == PivotRow(rows[i], fixedCols, gs[j])
  {
    ExpandRowsBlocks(rows[..|rows| - 1], fixedCols, gs);
    ExpandRowsLast(rows, fixedCols, gs, j);
  }

  /** Every output row has exactly the output columns. */
  lemma {:induction false} ExpandRowsKeys(rows: seq<Row>, fixedCols: seq<string>, gs: seq<seq<string>>)
    requires forall k :: 0 <= k < |gs| ==> |gs[k]| >= 1
    ensures forall k :: 0 <= k < |ExpandRows(rows, fixedCols, gs)| ==>
      ExpandRows(rows, fixedCols, gs)[k].Keys == ColumnSet(PivotColumns(fixedCols))
    decreases |rows|
  {
    if rows != [] {
      ExpandRowsKeys(rows[..|rows| - 1], fixedCols, gs);
      forall j | 0 <= j < |gs| {
        PivotRowSpec(rows[|rows| - 1], fixedCols, gs[j]);
      }
    }
  }

  /** The columns of the result: the fixed columns, then the three new ones (a name already present keeps its place). */
  function PivotColumns(fixedCols: seq<string>): (r: seq<string>)
    ensures ColumnSet(r) == ColumnSet(fixedCols) + {BASE_COLUMN, VALUE_A, VALUE_B}
    ensures Distinct(fixedCols) ==> Distinct(r)
    ensures |r| >= |fixedCols| && r[..|fixedCols|] == fixedCols
  {
    AddColumn(AddColumn(AddColumn(fixedCols, BASE_COLUMN), VALUE_A), VALUE_B)
  }

  /** The expansion of every row by every group, as one statement. */
  lemma ExpandRowsSpec(rows: seq<Row>, fixedCols: seq<string>, gs: seq<seq<string>>)
    requires forall k :: 0 <= k < |gs| ==> |gs[k]| >= 1
    ensures var e := ExpandRows(rows, fixedCols, gs);
      && (forall k :: 0 <= k < |e| ==> e[k].Keys == ColumnSet(PivotColumns(fixedCols)))
      && |e| == |rows| * |gs|
      && (|rows| > 0 && |gs| > 0 ==> |e| > 0)
  {
    ExpandRowsKeys(rows, fixedCols, gs);
    ExpandRowsLength(rows, fixedCols, gs);
    if |rows| > 0 {
      MulMonotone(1, |rows|, |gs|);
    }
  }

  /** The warnings `generate_pivoted_file` can show before it writes a result. */
  datatype PivotError = NoData | NoFixedColumn | NoPivotColumn | FixedAndPivot

  /**
   * `generate_pivoted_file` up to the spreadsheet it writes: the four
   * guards in order, then every input row expanded once per group.
   */
  function Pivoted(data: Option<Table>, fixedCols: seq<string>, pcs: seq<string>, pair: PairMap): Result<Table, PivotError>
    requires forall x :: x in pcs ==> x in pair
  {
    if data.None? then Err(NoData)
    else if fixedCols == [] then Err(NoFixedColumn)
    else if pcs == [] then Err(NoPivotColumn)
    else if exists x :: x in fixedCols && x in pcs then Err(FixedAndPivot)
    else
      Ok(Table(PivotColumns(fixedCols), ExpandRows(data.value.rows, fixedCols, Groups(pcs, pair))))
  }

  /**
   * A successful transformation yields a well-formed table with one row per
   * input row and group, in row-major order (`ExpandRowsIndex` places each
   * one), and at least one row when
   * the input has one; so the "no groups" and "no rows" warnings of the
   * source never fire.
   */
  lemma PivotedSpec(data: Option<Table>, fixedCols: seq<string>, pcs: seq<string>, pair: PairMap)
    requires forall x :: x in pcs ==> x in pair
    requires Distinct(fixedCols)
    ensures var r := Pivoted(data, fixedCols, pcs, pair);
      && (r.Err? <==> data.None? || fixedCols == [] || pcs == [] || exists x :: x in fixedCols && x in pcs)
      && (r.Ok? ==>
            var gs := Groups(pcs, pair);
            && WellFormed(r.value)
            && |gs| >= 1
            && |r.value.rows| == |data.value.rows| * |gs|
            && (|data.value.rows| > 0 ==> |r.value.rows| > 0)
            && r.value.rows == ExpandRows(data.value.rows, fixedCols, gs))
  {
    var r := Pivoted(data, fixedCols, pcs, pair);
    if r.Ok? {
      var gs := Groups(pcs, pair);
      var e := ExpandRows(data.value.rows, fixedCols, gs);
      assert r.value == Table(PivotColumns(fixedCols), e);
      GroupsNonempty(pcs, pair);
      ExpandRowsSpec(data.value.rows, fixedCols, gs);
    }
  }

  /** Once the four guards pass, the result is the expansion of the rows by the groups. */
  lemma PivotedAccepted(data: Option<Table>, fixedCols: seq<string>, pcs: seq<string>, pair: PairMap)
    requires forall x :: x in pcs ==> x in pair
    requires data.Some? && fixedCols != [] && pcs != []
    requires forall x :: x in fixedCols ==> x !in pcs
    ensures Pivoted(data, fixedCols, pcs, pair) == Ok(Table(PivotColumns(fixedCols), ExpandRows(data.value.rows, fixedCols, Groups(pcs, pair))))
  {
  }

  /** A refresh changes nothing when every menu already shows an offered entry. */
  lemma {:induction false} RefreshStable(pair: PairMap, pivot: map<string, bool>, cols: seq<string>)
    requires forall x :: x in cols ==> x in pair && Offered(pivot, x, pair[x])
    ensures RefreshSteps(pair, pivot, cols) == pair
    decreases |cols|
  {
    if cols != [] {
      RefreshStable(pair, pivot, cols[..|cols| - 1]);
    }
  }

  /** On a consistent pairing an unchecked column has no partner and is nobody's partner. */
  lemma UncheckedUnpaired(pair: PairMap, pivot: map<string, bool>, c: string)
    requires Consistent(pair, pivot) && c in pair && c in pivot && !pivot[c]
    ensures pair[c] == NONE
    ensures forall x :: x in pair ==> pair[x] != c
  {
  }

  /**
   * The state of the partner menus between two events: one check box and
   * one menu per column, every menu shows an entry it offers, and unless a
   * column is literally named "Ninguno" the pairing is mutual.
   */
  ghost predicate Menus(columns: seq<string>, pivot: map<string, bool>, pair: PairMap)
  {
    && pivot.Keys == ColumnSet(columns)
    && pair.Keys == ColumnSet(columns)
    && (forall x :: x in pair ==> Offered(pivot, x, pair[x]))
    && (NONE !in columns ==> Consistent(pair, pivot))
  }

  /** The result of a click on the "pivotable" box of `column`, as `_on_pivot_toggle` leaves it. */
  function AfterToggle(columns: seq<string>, pivot: map<string, bool>, pair: PairMap, column: string): PairMap
    requires forall x :: x in pair <==> x in columns
    requires column in pair && column in pivot
  {
    var flipped := pivot[column := !pivot[column]];
    if flipped[column] then RefreshSteps(pair, flipped, columns)
    else RefreshSteps(SetPairEffect(ClearSteps(pair, flipped, column, columns), flipped, column, NONE), flipped, columns)
  }

  /** A click on a "pivotable" box keeps the menus in their invariant state and, on a mutual pairing, prunes it. */
  lemma ToggleKeepsMenus(columns: seq<string>, pivot: map<string, bool>, pair: PairMap, column: string)
    requires Menus(columns, pivot, pair) && column in pivot
    ensures var flipped := pivot[column := !pivot[column]];
      var r := AfterToggle(columns, pivot, pair, column);
      && Menus(columns, flipped, r)
      && (NONE !in columns ==> r == Prune(pair, flipped))
  {
    var flipped := pivot[column := !pivot[column]];
    var r := AfterToggle(columns, pivot, pair, column);
    var start := if flipped[column] then pair else SetPairEffect(ClearSteps(pair, flipped, column, columns), flipped, column, NONE);
    assert r == RefreshSteps(start, flipped, columns);
    RefreshOffered(start, flipped, columns);
    if NONE !in columns {
      RefreshPrunes(pair, flipped, columns);
      if !flipped[column] {
        ToggleOffPrunes(pair, flipped, column, columns);
      }
    }
  }

  /** A choice in the enabled menu of `column` keeps the menus in their invariant state. */
  lemma SelectKeepsMenus(columns: seq<string>, pivot: map<string, bool>, pair: PairMap, column: string, selection: string)
    requires Menus(columns, pivot, pair) && column in pivot && pivot[column] && Offered(pivot, column, selection)
    ensures var r := RefreshSteps(SetPairEffect(pair, pivot, column, selection), pivot, columns);
      && Menus(columns, pivot, r)
      && (NONE !in columns ==>
            r == (if selection == pair[column] then pair
                  else if selection == NONE then Unpair(pair, column)
                  else Repair(pair, column, selection)))
  {
    var s := SetPairEffect(pair, pivot, column, selection);
    RefreshOffered(s, pivot, columns);
    if NONE !in columns {
      SelectPartnerSpec(pair, pivot, column, selection, columns);
    }
  }

  /** A loaded table has the window's columns and at least one row and one column. */
  predicate LoadedTable(data: Option<Table>, columns: seq<string>)
  {
    data.Some? ==> data.value.columns == columns && |data.value.rows| > 0 && |columns| > 0
  }

  /** Every column unchecked. */
  function Unchecked(columns: seq<string>): (r: map<string, bool>)
    ensures forall x :: x in r <==> x in columns
    ensures forall x :: x in r ==> !r[x]
  {
    map x | x in columns :: false
  }

  /** One more column: one more unchecked box and one more menu on "Ninguno". */
  lemma UncheckedSnoc(cols: seq<string>, i: int)
    requires 0 <= i < |cols|
    ensures Unchecked(cols[..i + 1]) == Unchecked(cols[..i])[cols[i] := false]
    ensures Unpaired(cols[..i + 1]) == Unpaired(cols[..i])[cols[i] := NONE]
  {
    assert forall x :: x in cols[..i + 1] <==> x in cols[..i] || x == cols[i];
  }

  /** Every menu on "Ninguno". */
  function Unpaired(columns: seq<string>): (r: PairMap)
    ensures forall x :: x in r <==> x in columns
    ensures forall x :: x in r ==> r[x] == NONE
  {
    map x | x in columns :: NONE
  }

  /** The loop over the groups for one row in `generate_pivoted_file`. */
  method ExpandRow(row: Row, fixedCols: seq<string>, groups: seq<seq<string>>) returns (out: seq<Row>)
    requires forall k :: 0 <= k < |groups| ==> |groups[k]| >= 1
    ensures out == Expand(row, fixedCols, groups)
  {
    out := [];
    var j := 0;
    while j < |groups|
      invariant 0 <= j <= |groups|
      invariant out == Expand(row, fixedCols, groups[..j])
    {
      var group := groups[j];
      var newRow := map c | c in fixedCols :: CellOf(row, c);
      newRow := newRow[BASE_COLUMN := Some(Text(group[0]))];
      newRow := newRow[VALUE_A := CellOf(row, group[0])];
      if |group| == 2 {
        newRow := newRow[VALUE_B := CellOf(row, group[1])];
      } else {
        newRow := newRow[VALUE_B := None];
      }
      out := out + [newRow];
      assert groups[..j + 1][..j] == groups[..j];
      j := j + 1;
    }
    assert groups[..j] == groups;
  }

  /** The loop over the rows in `generate_pivoted_file`. */
  method ExpandAll(rows: seq<Row>, fixedCols: seq<string>, groups: seq<seq<string>>) returns (transformed: seq<Row>)
    requires forall k :: 0 <= k < |groups| ==> |groups[k]| >= 1
    ensures transformed == ExpandRows(rows, fixedCols, groups)
  {
    transformed := [];
    var i := 0;
    while i < |rows|
      invariant 0 <= i <= |rows|
      invariant transformed == ExpandRows(rows[..i], fixedCols, groups)
    {
      var expanded := ExpandRow(rows[i], fixedCols, groups);
      transformed := transformed + expanded;
      assert rows[..i + 1][..i] == rows[..i];
      i := i + 1;
    }
    assert rows[..i] == rows;
  }

  /**
   * The window of the pivoting tool: the loaded table, its columns, the
   * "fixed" and "pivotable" check boxes and the partner menus.
   */
  class PivotApp {
    var data: Option<Table>
    var columns: seq<string>
    var fixed: map<string, bool>
    var pivot: map<string, bool>
    var pair: PairMap

    /** One check box of each kind and one menu per column, in the state `Menus` describes; a loaded table is non-empty. */
    ghost predicate Valid()
      reads this
    {
      Layout() && Menus(columns, pivot, pair)
    }

    /** The parts of `Valid` that only loading a table changes. */
    ghost predicate Layout()
      reads this`data, this`columns, this`fixed
    {
      && Distinct(columns)
      && (forall x :: x in fixed <==> x in columns)
      && LoadedTable(data, columns)
    }

    constructor()
      ensures Valid() && data == None && columns == []
    {
      data := None;
      columns := [];
      fixed := map[];
      pivot := map[];
      pair := map[];
    }

    /**
     * `load_excel` once the sheet is read: an empty sheet is refused and
     * changes nothing; otherwise `_populate_checkboxes` builds unchecked
     * boxes and "Ninguno" menus for its columns and refreshes the menus.
     */
    method LoadTable(t: Table) returns (loaded: bool)
      requires Valid() && Distinct(t.columns)
      modifies this
      ensures loaded <==> |t.rows| > 0 && |t.columns| > 0
      ensures !loaded ==> data == old(data) && columns == old(columns) && fixed == old(fixed) && pivot == old(pivot) && pair == old(pair)
      ensures loaded ==> data == Some(t) && columns == t.columns
      ensures loaded ==> fixed == Unchecked(t.columns) && pivot == Unchecked(t.columns) && pair == Unpaired(t.columns)
      ensures Valid()
    {
      if |t.rows| == 0 || |t.columns| == 0 {
        return false;
      }
      data := Some(t);
      PopulateCheckboxes(t.columns);
      loaded := true;
    }

    /** `_populate_checkboxes`: fresh unchecked boxes and "Ninguno" menus for `cols`, then a refresh. */
    method PopulateCheckboxes(cols: seq<string>)
      requires Distinct(cols)
      modifies this`columns, this`fixed, this`pivot, this`pair
      ensures columns == cols
      ensures fixed == Unchecked(cols) && pivot == Unchecked(cols) && pair == Unpaired(cols)
    {
      columns := cols;
      fixed := map[];
      pivot := map[];
      pair := map[];
      var i := 0;
      while i < |cols|
        invariant 0 <= i <= |cols| && columns == cols
        invariant fixed == Unchecked(cols[..i]) && pivot == Unchecked(cols[..i]) && pair == Unpaired(cols[..i])
      {
        UncheckedSnoc(cols, i);
        fixed := fixed[cols[i] := false];
        pivot := pivot[cols[i] := false];
        pair := pair[cols[i] := NONE];
        i := i + 1;
      }
      assert cols[..i] == cols;
      RefreshStable(pair, pivot, cols);
      Refresh();
    }

    /** A click on a "fixed" check box flips it. */
    method ToggleFixed(column: string)
      requires Valid() && column in fixed
      modifies this`fixed
      ensures fixed == old(fixed)[column := !old(fixed)[column]]
      ensures Valid()
    {
      fixed := fixed[column := !fixed[column]];
    }

    /**
     * `_set_pair(column, value, update_relations)`: nothing when the menu
     * already shows `value`; otherwise show it and, when asked, repair the
     * other menus through `_apply_pair_change`.
     */
    method SetPair(column: string, value: string, updateRelations: bool)
      requires column in pair
      modifies this`pair
      ensures updateRelations ==> pair == SetPairEffect(old(pair), pivot, column, value)
      ensures !updateRelations ==> pair == old(pair)[column := value]
      decreases if updateRelations then 1 else 0, 1
    {
      var previous := pair[column];
      if previous == value {
        assert pair[column := value] == pair;
        return;
      }
      pair := pair[column := value];
      if updateRelations {
        ApplyPairChange(column, previous, value);
      }
    }

    /**
     * `_apply_pair_change`: release the previous partner; refuse a partner
     * that is not a checked pivot column; detach the new partner from its
     * own partner and point it back at `column`.
     */
    method ApplyPairChange(column: string, previous: string, newPartner: string)
      requires column in pair
      modifies this`pair
      ensures pair == PairChangeEffect(old(pair), pivot, column, previous, newPartner)
      decreases 1, 0
    {
      if previous != NONE && previous in pair {
        if pair[previous] == column {
          SetPair(previous, NONE, false);
        }
      }
      if newPartner == NONE {
        return;
      }
      if newPartner !in pair || !(newPartner in pivot && pivot[newPartner]) {
        SetPair(column, NONE, false);
        return;
      }
      var partnerCurrent := pair[newPartner];
      if partnerCurrent != NONE && partnerCurrent != column {
        var other := partnerCurrent;
        SetPair(newPartner, NONE, false);
        if other in pair && pair[other] == newPartner {
          SetPair(other, NONE, false);
        }
      }
      if pair[newPartner] != column {
        SetPair(newPartner, column, false);
      }
    }

    /** `_refresh_pair_options`: every menu whose entry is no longer offered is reset to "Ninguno". */
    method Refresh()
      requires forall x :: x in pair <==> x in columns
      requires forall x :: x in pivot <==> x in columns
      modifies this`pair
      ensures pair == RefreshSteps(old(pair), pivot, columns)
      ensures forall x :: x in pair ==> Offered(pivot, x, pair[x])
    {
      var i := 0;
      while i < |columns|
        invariant 0 <= i <= |columns|
        invariant pair == RefreshSteps(old(pair), pivot, columns[..i])
      {
        var column := columns[i];
        var options := Options(columns, pivot, column);
        OptionsOffered(columns, pivot, column, pair[column]);
        if pair[column] !in options {
          SetPair(column, NONE, true);
        }
        assert columns[..i + 1][..i] == columns[..i];
        i := i + 1;
      }
      assert columns[..i] == columns;
      RefreshOffered(old(pair), pivot, columns);
    }

    /**
     * A click on a "pivotable" check box: the box flips, then
     * `_on_pivot_toggle` runs. Unchecking clears every menu that shows the
     * column and the column's own menu; the menus are refreshed either way.
     * On a mutual pairing exactly the pairs whose two ends stay checked
     * remain.
     */
    method OnPivotToggle(column: string)
      requires Valid() && column in pivot
      modifies this`pivot, this`pair
      ensures pivot == old(pivot)[column := !old(pivot)[column]]
      ensures pair == AfterToggle(columns, old(pivot), old(pair), column)
      ensures NONE !in columns ==> pair == Prune(old(pair), pivot)
      ensures Valid()
    {
      ToggleKeepsMenus(columns, pivot, pair, column);
      FlipPivot(column);
    }

    /** The box flips, and `_on_pivot_toggle` updates the menus. */
    method FlipPivot(column: string)
      requires column in pivot
      requires forall x :: x in pair <==> x in columns
      requires forall x :: x in pivot <==> x in columns
      modifies this`pivot, this`pair
      ensures pivot == old(pivot)[column := !old(pivot)[column]]
      ensures pair == AfterToggle(columns, old(pivot), old(pair), column)
    {
      pivot := pivot[column := !pivot[column]];
      if !pivot[column] {
        ReleaseColumn(column);
      }
      Refresh();
    }

    /** The unchecking branch of `_on_pivot_toggle`: every menu showing `column`, then its own menu, is set to "Ninguno". */
    method ReleaseColumn(column: string)
      requires column in pair
      requires forall x :: x in pair <==> x in columns
      modifies this`pair
      ensures pair == SetPairEffect(ClearSteps(old(pair), pivot, column, columns), pivot, column, NONE)
    {
      var i := 0;
      while i < |columns|
        invariant 0 <= i <= |columns|
        invariant pair == ClearSteps(old(pair), pivot, column, columns[..i])
      {
        var other := columns[i];
        if pair[other] == column {
          SetPair(other, NONE, true);
        }
        assert columns[..i + 1][..i] == columns[..i];
        i := i + 1;
      }
      assert columns[..i] == columns;
      SetPair(column, NONE, true);
    }

    /**
     * `_on_option_menu_select`: the entry chosen in the (enabled) menu of
     * `column` goes through `_set_pair`, then the menus are refreshed. On a
     * mutual pairing the result is `column` unpaired, or paired both ways
     * with the chosen column, whose former partners are unpaired.
     */
    method OnOptionMenuSelect(column: string, selection: string)
      requires Valid() && column in pivot && pivot[column] && Offered(pivot, column, selection)
      modifies this`pair
      ensures pair == RefreshSteps(SetPairEffect(old(pair), pivot, column, selection), pivot, columns)
      ensures NONE !in columns ==>
        pair == (if selection == old(pair)[column] then old(pair)
                 else if selection == NONE then Unpair(old(pair), column)
                 else Repair(old(pair), column, selection))
      ensures Valid()
    {
      SelectKeepsMenus(columns, pivot, pair, column, selection);
      SetPair(column, selection, true);
      Refresh();
    }

    /**
     * `_build_groups`, with the partner also required not to be grouped
     * yet: each selected pivot column opens a group, joined by its partner
     * when the two name each other.
     */
    method BuildGroups(pcs: seq<string>) returns (groups: seq<seq<string>>)
      requires forall x :: x in pcs ==> x in pair
      ensures groups == Groups(pcs, pair)
    {
      groups := [];
      var visited: set<string> := {};
      var i := 0;
      while i < |pcs|
        invariant 0 <= i <= |pcs|
        invariant groups + GroupsLoop(pcs[i..], pcs, pair, visited, true) == Groups(pcs, pair)
      {
        var column := pcs[i];
        assert pcs[i..][1..] == pcs[i + 1..];
        if column !in visited {
          var partner := pair[column];
          if partner != NONE && partner in pcs && partner in pair && pair[partner] == column && partner !in visited {
            groups := groups + [[column, partner]];
            visited := visited + {column, partner};
          } else {
            groups := groups + [[column]];
            visited := visited + {column};
          }
        }
        i := i + 1;
      }
    }

    /**
     * `generate_pivoted_file` up to writing the spreadsheet: the guards, the
     * groups, and for each row of the table one output row per group.
     */
    method GeneratePivoted() returns (r: Result<Table, PivotError>)
      requires Valid()
      ensures r == Pivoted(data, Selected(columns, fixed), Selected(columns, pivot), pair)
    {
      if data.None? {
        return Err(NoData);
      }
      var fixedColumns := Selected(columns, fixed);
      var pivotColumns := Selected(columns, pivot);
      if fixedColumns == [] {
        return Err(NoFixedColumn);
      }
      if pivotColumns == [] {
        return Err(NoPivotColumn);
      }
      // `set(fixed_columns) & set(pivot_columns)` is not empty
      if exists x :: x in fixedColumns && x in pivotColumns {
        return Err(FixedAndPivot);
      }
      var groups := BuildGroups(pivotColumns);
      PivotedAccepted(data, fixedColumns, pivotColumns, pair);
      var transformed := ExpandAll(data.value.rows, fixedColumns, groups);
      return Ok(Table(PivotColumns(fixedColumns), transformed));
    }
  }
}
