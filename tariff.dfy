/**
 * The processing step of the spreadsheet processor (`_apply_business_logic`
 * in data_processor_gui.py): exclusion filters, plan validation, the
 * age-range lookup and the final tariff.
 */
module Tariff {
  import opened Tables
  import opened Text
  import opened ProcessorConfig

  // ---------------------------------------------------------------------
  // Exclusion filters
  // ---------------------------------------------------------------------

  /** One `(column, exclusions)` entry of the filter list. */
  datatype ExclusionFilter = ExclusionFilter(column: string, exclusions: seq<string>)

  /** The three filters, in the order the source applies them. */
  function Filters(config: AppConfig): seq<ExclusionFilter>
  {
    [ ExclusionFilter("Parentesco", config.parentescosExcluir),
      ExclusionFilter("Tipo", config.tiposExcluir),
      ExclusionFilter("Estado", config.estadosExcluir) ]
  }

  /** A filter runs only when its list is non-empty and its column exists. */
  predicate Active(columns: seq<string>, f: ExclusionFilter)
  {
    |f.exclusions| > 0 && f.column in columns
  }

  /** `row[column].isin(exclusions)`: the cell is text listed among the exclusions. */
  predicate Excluded(row: Row, f: ExclusionFilter)
  {
    var cell := CellOf(row, f.column);
    cell.Some? && cell.value.Text? && cell.value.s in f.exclusions
  }

  /** One iteration of the filter loop: `result[~result[column].isin(exclusions)]` when active. */
  function FilterStep(rows: seq<Row>, columns: seq<string>, f: ExclusionFilter): seq<Row>
  {
    if Active(columns, f) then Filter(rows, (row: Row) => !Excluded(row, f)) else rows
  }

  /** The rows left after applying the filters `fs` in order. */
  function ApplyFilters(rows: seq<Row>, columns: seq<string>, fs: seq<ExclusionFilter>): seq<Row>
    decreases |fs|
  {
    if fs == [] then rows
    else FilterStep(ApplyFilters(rows, columns, fs[..|fs| - 1]), columns, fs[|fs| - 1])
  }

  /** No active filter among `fs` excludes `row`. */
  predicate KeptByAll(row: Row, columns: seq<string>, fs: seq<ExclusionFilter>)
  {
    forall k :: 0 <= k < |fs| ==> !(Active(columns, fs[k]) && Excluded(row, fs[k]))
  }

  lemma {:induction false} FilterSame<T(!new)>(s: seq<T>, p: T -> bool, q: T -> bool)
    requires forall x :: p(x) == q(x)
    ensures Filter(s, p) == Filter(s, q)
    decreases |s|
  {
    if s != [] {
      FilterSame(s[1..], p, q);
    }
  }

  /** Filtering twice is filtering once by the conjunction. */
  lemma {:induction false} FilterTwice<T(!new)>(s: seq<T>, p: T -> bool, q: T -> bool, both: T -> bool)
    requires forall x :: both(x) == (p(x) && q(x))
    ensures Filter(Filter(s, p), q) == Filter(s, both)
    decreases |s|
  {
    if s != [] {
      FilterTwice(s[1..], p, q, both);
      if p(s[0]) {
        assert Filter(s, p) == [s[0]] + Filter(s[1..], p);
        assert Filter(s, p)[1..] == Filter(s[1..], p);
      }
    }
  }

  /** Applying the filters one after another keeps exactly the rows no active filter excludes. */
  lemma {:induction false} ApplyFiltersKeeps(rows: seq<Row>, columns: seq<string>, fs: seq<ExclusionFilter>)
    ensures ApplyFilters(rows, columns, fs) == Filter(rows, (row: Row) => KeptByAll(row, columns, fs))
    decreases |fs|
  {
    if fs == [] {
      FilterAllKept(rows, (row: Row) => KeptByAll(row, columns, fs));
    } else {
      var init := fs[..|fs| - 1];
      var f := fs[|fs| - 1];
      ApplyFiltersKeeps(rows, columns, init);
      assert forall row: Row :: KeptByAll(row, columns, fs) == (KeptByAll(row, columns, init) && !(Active(columns, f) && Excluded(row, f))) by {
        forall row: Row
          ensures KeptByAll(row, columns, fs) == (KeptByAll(row, columns, init) && !(Active(columns, f) && Excluded(row, f)))
        {
          if KeptByAll(row, columns, init) && !(Active(columns, f) && Excluded(row, f)) {
            forall k | 0 <= k < |fs|
              ensures !(Active(columns, fs[k]) && Excluded(row, fs[k]))
            {
              if k < |fs| - 1 {
                assert fs[k] == init[k];
              }
            }
          }
          if KeptByAll(row, columns, fs) {
            forall k | 0 <= k < |init|
              ensures !(Active(columns, init[k]) && Excluded(row, init[k]))
            {
              assert init[k] == fs[k];
            }
          }
        }
      }
      if Active(columns, f) {
        FilterTwice(rows, (row: Row) => KeptByAll(row, columns, init), (row: Row) => !Excluded(row, f),
                    (row: Row) => KeptByAll(row, columns, fs));
      } else {
        FilterSame(rows, (row: Row) => KeptByAll(row, columns, init), (row: Row) => KeptByAll(row, columns, fs));
      }
    }
  }

  /** The rows that survive the three exclusion filters of `config`. */
  function Survivors(t: Table, config: AppConfig): seq<Row>
  {
    ApplyFilters(t.rows, t.columns, Filters(config))
  }

  /**
   * After filtering no row carries an excluded value in a filtered column,
   * every row no filter excludes survives, and survivors keep their order.
   */
  lemma SurvivorsSpec(t: Table, config: AppConfig)
    ensures IsSubsequence(Survivors(t, config), t.rows)
    ensures forall row :: row in Survivors(t, config) <==> row in t.rows && KeptByAll(row, t.columns, Filters(config))
  {
    ApplyFiltersKeeps(t.rows, t.columns, Filters(config));
  }

  /** A filter with an empty list or a missing column leaves the rows as they are. */
  lemma InactiveFilterKeepsRows(rows: seq<Row>, columns: seq<string>, f: ExclusionFilter)
    requires |f.exclusions| == 0 || f.column !in columns
    ensures ApplyFilters(rows, columns, [f]) == rows
  {
    assert [f][..0] == [];
  }

  // ---------------------------------------------------------------------
  // Age ranges: sorting and first match
  // ---------------------------------------------------------------------

  /** `(a.edad_min, a.edad_max) <= (b.edad_min, b.edad_max)` on tuples. */
  predicate KeyLe(a: AgeRange, b: AgeRange)
  {
    a.edadMin < b.edadMin || (a.edadMin == b.edadMin && a.edadMax <= b.edadMax)
  }

  predicate SortedByKey(rs: seq<AgeRange>)
  {
    forall i, j :: 0 <= i < j < |rs| ==> KeyLe(rs[i], rs[j])
  }

  /** Insert `x` after every element whose key does not exceed its own. */
  function Insert(x: AgeRange, s: seq<AgeRange>): (r: seq<AgeRange>)
    ensures multiset(r) == multiset(s) + multiset{x}
    decreases |s|
  {
    if s == [] || !KeyLe(s[0], x) then [x] + s
    else
      assert s == [s[0]] + s[1..];
      [s[0]] + Insert(x, s[1..])
  }

  lemma {:induction false} InsertSorted(x: AgeRange, s: seq<AgeRange>)
    requires SortedByKey(s)
    ensures SortedByKey(Insert(x, s))
    decreases |s|
  {
    if s != [] && KeyLe(s[0], x) {
      InsertSorted(x, s[1..]);
      var tail := Insert(x, s[1..]);
      forall z | z in tail
        ensures KeyLe(s[0], z)
      {
        assert z in multiset(tail);
        assert z == x || z in multiset(s[1..]);
      }
      var r := [s[0]] + tail;
      forall i, j | 0 <= i < j < |r|
        ensures KeyLe(r[i], r[j])
      {
        if i > 0 {
          assert r[i] == tail[i - 1] && r[j] == tail[j - 1];
        } else {
          assert r[j] in tail;
        }
      }
    }
  }

  /** Python's `sorted(rangos, key=lambda r: (r.edad_min, r.edad_max))`, a stable sort. */
  function SortRanges(rs: seq<AgeRange>): (r: seq<AgeRange>)
    ensures multiset(r) == multiset(rs)
    ensures SortedByKey(r)
    decreases |rs|
  {
    if rs == [] then []
    else
      assert rs == rs[..|rs| - 1] + [rs[|rs| - 1]];
      InsertSorted(rs[|rs| - 1], SortRanges(rs[..|rs| - 1]));
      Insert(rs[|rs| - 1], SortRanges(rs[..|rs| - 1]))
  }

  /** `edad_min <= age <= edad_max`. */
  predicate Contains(r: AgeRange, age: real)
  {
    r.edadMin <= age <= r.edadMax
  }

  /** The first range of `rs`, in order, that contains `age`. */
  function FirstMatch(rs: seq<AgeRange>, age: real): (m: Option<AgeRange>)
    ensures m.None? <==> forall k :: 0 <= k < |rs| ==> !Contains(rs[k], age)
    ensures m.Some? ==> m.value in rs && Contains(m.value, age)
    decreases |rs|
  {
    if rs == [] then None
    else if Contains(rs[0], age) then Some(rs[0])
    else FirstMatch(rs[1..], age)
  }

  /** The range `FirstMatch` returns sits at an index before which no range contains the age. */
  lemma {:induction false} FirstMatchIsFirst(rs: seq<AgeRange>, age: real)
    requires FirstMatch(rs, age).Some?
    ensures exists i :: 0 <= i < |rs| && rs[i] == FirstMatch(rs, age).value
                        && forall k :: 0 <= k < i ==> !Contains(rs[k], age)
    decreases |rs|
  {
    if !Contains(rs[0], age) {
      FirstMatchIsFirst(rs[1..], age);
      var i :| 0 <= i < |rs[1..]| && rs[1..][i] == FirstMatch(rs, age).value
               && forall k :: 0 <= k < i ==> !Contains(rs[1..][k], age);
      assert rs[i + 1] == FirstMatch(rs, age).value;
      assert forall k :: 0 <= k < i + 1 ==> !Contains(rs[k], age) by {
        forall k | 0 <= k < i + 1
          ensures !Contains(rs[k], age)
        {
          if k > 0 {
            assert rs[k] == rs[1..][k - 1];
          }
        }
      }
    } else {
      assert rs[0] == FirstMatch(rs, age).value;
    }
  }

  /**
   * Reference definition of the range the lookup picks, read off the
   * unsorted list from left to right.
   */
  function Best(rs: seq<AgeRange>, age: real): (b: Option<AgeRange>)
    ensures b.None? <==> forall k :: 0 <= k < |rs| ==> !Contains(rs[k], age)
    decreases |rs|
  {
    if rs == [] then None
    else Pick(Best(rs[..|rs| - 1], age), rs[|rs| - 1], age)
  }

  /**
   * `Best` is, among the ranges containing `age`, one with the least key,
   * and among those the earliest listed.
   */
  lemma {:induction false} BestSpec(rs: seq<AgeRange>, age: real)
    requires Best(rs, age).Some?
    ensures exists i :: 0 <= i < |rs| && rs[i] == Best(rs, age).value && Contains(rs[i], age)
                        && (forall k :: 0 <= k < |rs| && Contains(rs[k], age) ==> KeyLe(rs[i], rs[k]))
                        && (forall k :: 0 <= k < i && Contains(rs[k], age) ==> !KeyLe(rs[k], rs[i]))
    decreases |rs|
  {
    var init := rs[..|rs| - 1];
    var x := rs[|rs| - 1];
    var prev := Best(init, age);
    var b := Best(rs, age);
    if prev.Some? {
      BestSpec(init, age);
    }
    if prev.Some? && b == prev {
      var i :| 0 <= i < |init| && init[i] == prev.value && Contains(init[i], age)
               && (forall k :: 0 <= k < |init| && Contains(init[k], age) ==> KeyLe(init[i], init[k]))
               && (forall k :: 0 <= k < i && Contains(init[k], age) ==> !KeyLe(init[k], init[i]));
      assert rs[i] == init[i];
      assert KeyLe(prev.value, x) || !Contains(x, age);
      assert forall k :: 0 <= k < |rs| && Contains(rs[k], age) ==> KeyLe(rs[i], rs[k]) by {
        forall k | 0 <= k < |rs| && Contains(rs[k], age)
          ensures KeyLe(rs[i], rs[k])
        {
          if k < |init| {
            assert rs[k] == init[k];
          }
        }
      }
      assert forall k :: 0 <= k < i && Contains(rs[k], age) ==> !KeyLe(rs[k], rs[i]) by {
        forall k | 0 <= k < i && Contains(rs[k], age)
          ensures !KeyLe(rs[k], rs[i])
        {
          assert rs[k] == init[k];
        }
      }
    } else {
      var i := |rs| - 1;
      assert b.value == x && Contains(x, age);
      assert forall k :: 0 <= k < i && Contains(rs[k], age) ==> !KeyLe(rs[k], x) by {
        forall k | 0 <= k < i && Contains(rs[k], age)
          ensures !KeyLe(rs[k], x)
        {
          assert rs[k] == init[k];
          var j :| 0 <= j < |init| && init[j] == prev.value && Contains(init[j], age)
                   && (forall k :: 0 <= k < |init| && Contains(init[k], age) ==> KeyLe(init[j], init[k]))
                   && (forall k :: 0 <= k < j && Contains(init[k], age) ==> !KeyLe(init[k], init[j]));
          assert KeyLe(prev.value, init[k]);
        }
      }
      assert forall k :: 0 <= k < |rs| && Contains(rs[k], age) ==> KeyLe(x, rs[k]) by {
        forall k | 0 <= k < |rs| && Contains(rs[k], age)
          ensures KeyLe(x, rs[k])
        {
          if k < i {
            assert !KeyLe(rs[k], x);
          }
        }
      }
    }
  }

  /** One step of `Best`: keep the earlier choice unless `x` contains `age` with a strictly smaller key. */
  function Pick(prev: Option<AgeRange>, x: AgeRange, age: real): Option<AgeRange>
  {
    if !Contains(x, age) then prev
    else if prev.Some? && KeyLe(prev.value, x) then prev
    else Some(x)
  }

  lemma {:induction false} FirstMatchInsert(x: AgeRange, s: seq<AgeRange>, age: real)
    requires SortedByKey(s)
    ensures FirstMatch(Insert(x, s), age) == Pick(FirstMatch(s, age), x, age)
    decreases |s|
  {
    if s == [] {
    } else if !KeyLe(s[0], x) {
      assert Insert(x, s) == [x] + s;
      assert ([x] + s)[1..] == s;
    } else {
      assert s[1..] == s[1..];
      FirstMatchInsert(x, s[1..], age);
      var r := Insert(x, s);
      assert r == [s[0]] + Insert(x, s[1..]);
      assert r[1..] == Insert(x, s[1..]);
    }
  }

  /** The first match in the sorted list is the `Best` range of the unsorted list. */
  lemma {:induction false} FirstMatchSorted(rs: seq<AgeRange>, age: real)
    ensures FirstMatch(SortRanges(rs), age) == Best(rs, age)
    decreases |rs|
  {
    if rs != [] {
      FirstMatchSorted(rs[..|rs| - 1], age);
      FirstMatchInsert(rs[|rs| - 1], SortRanges(rs[..|rs| - 1]), age);
    }
  }

  /** `float(edad)`; `None` where Python raises or the value is missing (NaN never lies in a range). */
  function AgeOf(cell: Cell): Option<real>
  {
    match cell
    case None => None
    case Some(Num(x)) => Some(x)
    case Some(Flag(b)) => Some(if b then 1.0 else 0.0)
    case Some(Text(s)) => ParseNumber(s)
  }

  /** `obtener_valor(edad)` over the already sorted ranges. */
  function RangeValue(sorted: seq<AgeRange>, edad: Cell): Option<real>
  {
    match AgeOf(edad)
    case None => None
    case Some(age) =>
      match FirstMatch(sorted, age)
      case None => None
      case Some(r) => Some(r.valor)
  }

  /**
   * The lookup on the sorted ranges yields the `valor` of a range of the
   * configuration that contains the age, has the least `(edad_min, edad_max)`
   * key and is the earliest listed among those; none when the age is not a
   * number or no range contains it.
   */
  lemma RangeValueSpec(rangos: seq<AgeRange>, edad: Cell)
    ensures RangeValue(SortRanges(rangos), edad).None? <==>
      AgeOf(edad).None? || forall k :: 0 <= k < |rangos| ==> !Contains(rangos[k], AgeOf(edad).value)
    ensures RangeValue(SortRanges(rangos), edad).Some? ==>
      var age := AgeOf(edad).value;
      exists i :: 0 <= i < |rangos| && Contains(rangos[i], age)
                  && rangos[i].valor == RangeValue(SortRanges(rangos), edad).value
                  && (forall k :: 0 <= k < |rangos| && Contains(rangos[k], age) ==> KeyLe(rangos[i], rangos[k]))
                  && (forall k :: 0 <= k < i && Contains(rangos[k], age) ==> !KeyLe(rangos[k], rangos[i]))
  {
    if AgeOf(edad).Some? {
      FirstMatchSorted(rangos, AgeOf(edad).value);
      if Best(rangos, AgeOf(edad).value).Some? {
        BestSpec(rangos, AgeOf(edad).value);
      }
    }
  }

  /** `obtener_valor`: a loop over the sorted ranges that returns at the first one containing the age. */
  method ComputeRangeValue(sorted: seq<AgeRange>, edad: Cell) returns (v: Option<real>)
    ensures v == RangeValue(sorted, edad)
  {
    var age := AgeOf(edad);
    if age.None? {
      return None;
    }
    var i := 0;
    while i < |sorted|
      invariant 0 <= i <= |sorted|
      invariant FirstMatch(sorted, age.value) == FirstMatch(sorted[i..], age.value)
    {
      if sorted[i].edadMin <= age.value <= sorted[i].edadMax {
        return Some(sorted[i].valor);
      }
      assert sorted[i..][1..] == sorted[i + 1..];
      i := i + 1;
    }
    return None;
  }

  // ---------------------------------------------------------------------
  // Derived columns
  // ---------------------------------------------------------------------

  /** `result["Plan"].isin(planes)`, or `True` for every row when no plans are configured. */
  predicate PlanValid(plan: Cell, planes: seq<string>)
  {
    |planes| == 0 || (plan.Some? && plan.value.Text? && plan.value.s in planes)
  }

  /** `cobro_fm.lower() == "si"`. */
  predicate IsSi(cobroFm: string)
  {
    LowerAscii(cobroFm) == "si"
  }

  /** The `cobroFM` texts that switch on the frozen rate: exactly the four casings of "si". */
  lemma IsSiSpellings(cobroFm: string)
    ensures IsSi(cobroFm) <==> cobroFm in {"si", "Si", "sI", "SI"}
  {
    var l := LowerAscii(cobroFm);
    if IsSi(cobroFm) {
      assert l[0] == 's' && l[1] == 'i';
      assert cobroFm[0] == 's' || cobroFm[0] == 'S';
      assert cobroFm[1] == 'i' || cobroFm[1] == 'I';
      assert cobroFm == [cobroFm[0], cobroFm[1]];
    }
  }

  function NumCell(v: Option<real>): Cell
  {
    if v.Some? then Some(Num(v.value)) else None
  }

  /** `valor * (1 + t_congelada)`: a tariff at the frozen rate. */
  function Frozen(valor: real, tCongelada: real): real
  {
    valor * (1.0 + tCongelada)
  }

  /** `Tarifa_Final` for a row whose `Valor_Rango` is `valor`; `fillna(0)` turns a missing value into 0. */
  function TariffCell(valor: Option<real>, config: AppConfig): Cell
  {
    if IsSi(config.cobroFm) then Some(Num(Frozen(if valor.Some? then valor.value else 0.0, config.tCongelada)))
    else NumCell(valor)
  }

  function OutputColumns(columns: seq<string>): seq<string>
  {
    var withPlan := if "Plan" in columns then AddColumn(columns, "Plan_Valido") else columns;
    AddColumn(AddColumn(withPlan, "Valor_Rango"), "Tarifa_Final")
  }

  /** Whether the age lookup runs: there are ranges and an `Edad` column. */
  predicate RangesApply(columns: seq<string>, config: AppConfig)
  {
    |config.rangos| > 0 && "Edad" in columns
  }

  /** A surviving row with the derived columns written into it. */
  function AugmentRow(row: Row, columns: seq<string>, config: AppConfig, sorted: seq<AgeRange>): Row
  {
    var withPlan := if "Plan" in columns then row["Plan_Valido" := Some(Flag(PlanValid(CellOf(row, "Plan"), config.planes)))] else row;
    var valor := if RangesApply(columns, config) then RangeValue(sorted, CellOf(row, "Edad")) else None;
    withPlan["Valor_Rango" := NumCell(valor)]["Tarifa_Final" := TariffCell(valor, config)]
  }

  /** The table `_apply_business_logic` returns (rows renumbered from zero, which a sequence does by itself). */
  function Process(t: Table, config: AppConfig): Table
  {
    var kept := Survivors(t, config);
    var sorted := SortRanges(config.rangos);
    Table(OutputColumns(t.columns),
          seq(|kept|, k requires 0 <= k < |kept| => AugmentRow(kept[k], t.columns, config, sorted)))
  }

  /** `_apply_business_logic`: the filter loop, then the derived columns row by row. */
  method ApplyBusinessLogic(df: Table, config: AppConfig) returns (result: Table)
    ensures result == Process(df, config)
  {
    var filters := Filters(config);
    var rows := df.rows;
    var i := 0;
    while i < |filters|
      invariant 0 <= i <= |filters|
      invariant rows == ApplyFilters(df.rows, df.columns, filters[..i])
    {
      assert filters[..i + 1][..i] == filters[..i];
      rows := FilterStep(rows, df.columns, filters[i]);
      i := i + 1;
    }
    assert filters[..|filters|] == filters;

    var sorted := SortRanges(config.rangos);
    var out: seq<Row> := [];
    var j := 0;
    while j < |rows|
      invariant 0 <= j <= |rows|
      invariant |out| == j
      invariant forall k :: 0 <= k < j ==> out[k] == AugmentRow(rows[k], df.columns, config, sorted)
    {
      var row := rows[j];
      if "Plan" in df.columns {
        row := row["Plan_Valido" := Some(Flag(PlanValid(CellOf(rows[j], "Plan"), config.planes)))];
      }
      var valor: Option<real> := None;
      if |config.rangos| > 0 && "Edad" in df.columns {
        valor := ComputeRangeValue(sorted, CellOf(rows[j], "Edad"));
      }
      row := row["Valor_Rango" := NumCell(valor)];
      row := row["Tarifa_Final" := TariffCell(valor, config)];
      assert row == AugmentRow(rows[j], df.columns, config, sorted);
      out := out + [row];
      j := j + 1;
    }
    assert rows == Survivors(df, config);
    assert out == seq(|rows|, k requires 0 <= k < |rows| => AugmentRow(rows[k], df.columns, config, sorted));
    result := Table(OutputColumns(df.columns), out);
  }

  /**
   * What a surviving row keeps: its own cells outside the derived columns,
   * and `Plan_Valido` is the plan check exactly when the table has a `Plan`
   * column.
   */
  lemma AugmentRowCells(row: Row, columns: seq<string>, config: AppConfig, sorted: seq<AgeRange>)
    ensures var out := AugmentRow(row, columns, config, sorted);
      && (forall c :: c in row && c != "Plan_Valido" && c != "Valor_Rango" && c != "Tarifa_Final" ==> c in out && out[c] == row[c])
      && ("Plan" in columns ==> CellOf(out, "Plan_Valido") == Some(Flag(PlanValid(CellOf(row, "Plan"), config.planes))))
      && ("Plan" !in columns ==> CellOf(out, "Plan_Valido") == CellOf(row, "Plan_Valido"))
  {
  }

  /**
   * `Valor_Rango` is the age lookup (missing for every row when there are no
   * ranges or no `Edad` column) and `Tarifa_Final` follows the `cobroFM`
   * switch: the lookup itself, or the lookup (a missing one counting as 0)
   * scaled by `1 + T_Congelada`.
   */
  lemma AugmentRowTariff(row: Row, columns: seq<string>, config: AppConfig, sorted: seq<AgeRange>)
    ensures var out := AugmentRow(row, columns, config, sorted);
      var v := if RangesApply(columns, config) then RangeValue(sorted, CellOf(row, "Edad")) else None;
      && (!RangesApply(columns, config) ==> CellOf(out, "Valor_Rango") == None)
      && CellOf(out, "Valor_Rango") == (if v.Some? then Some(Num(v.value)) else None)
      && (!IsSi(config.cobroFm) ==> CellOf(out, "Tarifa_Final") == CellOf(out, "Valor_Rango"))
      && (IsSi(config.cobroFm) ==>
            CellOf(out, "Tarifa_Final") == Some(Num(Frozen(if v.Some? then v.value else 0.0, config.tCongelada))))
  {
    var out := AugmentRow(row, columns, config, sorted);
    var valor := if RangesApply(columns, config) then RangeValue(sorted, CellOf(row, "Edad")) else None;
    assert CellOf(out, "Valor_Rango") == NumCell(valor);
    assert CellOf(out, "Tarifa_Final") == TariffCell(valor, config);
  }

  /** Output row `k` is surviving row `k` with the derived columns; there is one per survivor. */
  lemma ProcessRows(t: Table, config: AppConfig)
    ensures |Process(t, config).rows| == |Survivors(t, config)|
    ensures forall k :: 0 <= k < |Survivors(t, config)| ==>
      Process(t, config).rows[k] == AugmentRow(Survivors(t, config)[k], t.columns, config, SortRanges(config.rangos))
  {
  }

  /** The derived columns `_apply_business_logic` adds to a table with columns `columns`. */
  function DerivedColumns(columns: seq<string>): set<string>
  {
    {"Valor_Rango", "Tarifa_Final"} + (if "Plan" in columns then {"Plan_Valido"} else {})
  }

  /** The output columns are the input columns, in order, followed by the new derived ones. */
  lemma OutputColumnsSpec(columns: seq<string>)
    ensures ColumnSet(OutputColumns(columns)) == ColumnSet(columns) + DerivedColumns(columns)
    ensures Distinct(columns) ==> Distinct(OutputColumns(columns))
    ensures |OutputColumns(columns)| >= |columns| && OutputColumns(columns)[..|columns|] == columns
  {
    var withPlan := if "Plan" in columns then AddColumn(columns, "Plan_Valido") else columns;
    var v := AddColumn(withPlan, "Valor_Rango");
    var o := AddColumn(v, "Tarifa_Final");
    assert o == OutputColumns(columns);
    assert |withPlan| >= |columns| && withPlan[..|columns|] == columns;
    PrefixOfPrefix(columns, withPlan, v);
    PrefixOfPrefix(columns, v, o);
  }

  /** An augmented row has the row's own keys plus the derived columns. */
  lemma AugmentRowKeys(row: Row, columns: seq<string>, config: AppConfig, sorted: seq<AgeRange>)
    ensures AugmentRow(row, columns, config, sorted).Keys == row.Keys + DerivedColumns(columns)
  {
  }

  /** Every surviving row of a well-formed table has exactly the table's columns. */
  lemma SurvivorsKeys(t: Table, config: AppConfig)
    requires WellFormed(t)
    ensures forall k :: 0 <= k < |Survivors(t, config)| ==> Survivors(t, config)[k].Keys == ColumnSet(t.columns)
  {
    var kept := Survivors(t, config);
    SurvivorsSpec(t, config);
    forall k | 0 <= k < |kept|
      ensures kept[k].Keys == ColumnSet(t.columns)
    {
      assert kept[k] in t.rows;
    }
  }

  /** Processing a well-formed table gives a well-formed table with the derived columns. */
  lemma ProcessWellFormed(t: Table, config: AppConfig)
    requires WellFormed(t)
    ensures WellFormed(Process(t, config))
    ensures ColumnSet(Process(t, config).columns) == ColumnSet(t.columns) + DerivedColumns(t.columns)
  {
    var kept := Survivors(t, config);
    var sorted := SortRanges(config.rangos);
    var p := Process(t, config);
    SurvivorsKeys(t, config);
    OutputColumnsSpec(t.columns);
    ProcessRows(t, config);
    forall k | 0 <= k < |p.rows|
      ensures p.rows[k].Keys == ColumnSet(p.columns)
    {
      AugmentRowKeys(kept[k], t.columns, config, sorted);
    }
  }
}
