/**
 * The configuration of the spreadsheet processor (data_processor_gui.py):
 * age ranges, the application configuration and its JSON form, the
 * comma-separated exclusion lists of the administration form, and the two
 * dialogs that add a plan or an age range.
 */
module ProcessorConfig {
  import opened Tables
  import opened Text

  /** One tariff bracket: ages `edadMin..edadMax` (inclusive) cost `valor`. */
  datatype AgeRange = AgeRange(edadMin: real, edadMax: real, valor: real)

  datatype AppConfig = AppConfig(
    parentescosExcluir: seq<string>,
    tiposExcluir: seq<string>,
    estadosExcluir: seq<string>,
    cobroFm: string,
    tCongelada: real,
    tablaTarifacong: string,
    tablaEdad: string,
    masculino: string,
    femenino: string,
    titulosPlan: string,
    planes: seq<string>,
    rangos: seq<AgeRange>)

  /** The dataclass defaults: `AppConfig()`. */
  function DefaultConfig(): AppConfig
  {
    AppConfig([], [], [], "No", 0.0, "", "", "", "", "", [], [])
  }

  // ---------------------------------------------------------------------
  // JSON form (to_dict / from_dict)
  // ---------------------------------------------------------------------

  /** A value as `json.load` returns it. */
  datatype Json =
    | JNull
    | JBool(b: bool)
    | JNum(x: real)
    | JStr(s: string)
    | JArr(items: seq<Json>)
    | JObj(fields: map<string, Json>)

  /**
   * What `from_dict` raises: Python's `TypeError`, `ValueError` and
   * `KeyError` for the offending key, and `Unmodelled` for the inputs Python
   * accepts through a conversion this model does not carry out (`str()` of a
   * number, a list or a dict; `list()` of a dict's keys; non-text list items).
   */
  datatype ConfigError =
    | TypeError(key: string)
    | ValueError(key: string)
    | KeyError(key: string)
    | Unmodelled(key: string)

  function RangeToJson(r: AgeRange): Json
  {
    JObj(map["edad_min" := JNum(r.edadMin), "edad_max" := JNum(r.edadMax), "valor" := JNum(r.valor)])
  }

  function TextsToJson(xs: seq<string>): (j: seq<Json>)
    ensures |j| == |xs|
    ensures forall k :: 0 <= k < |xs| ==> j[k] == JStr(xs[k])
  {
    seq(|xs|, k requires 0 <= k < |xs| => JStr(xs[k]))
  }

  function RangesToJson(rs: seq<AgeRange>): (j: seq<Json>)
    ensures |j| == |rs|
    ensures forall k :: 0 <= k < |rs| ==> j[k] == RangeToJson(rs[k])
  {
    seq(|rs|, k requires 0 <= k < |rs| => RangeToJson(rs[k]))
  }

  /** `AppConfig.to_dict`. */
  function ToDict(c: AppConfig): map<string, Json>
  {
    map[
      "Parentescos_Excluir" := JArr(TextsToJson(c.parentescosExcluir)),
      "Tipos_Excluir" := JArr(TextsToJson(c.tiposExcluir)),
      "Estados_Excluir" := JArr(TextsToJson(c.estadosExcluir)),
      "cobroFM" := JStr(c.cobroFm),
      "T_Congelada" := JNum(c.tCongelada),
      "Tabla_TarifaCong" := JStr(c.tablaTarifacong),
      "Tabla_Edad" := JStr(c.tablaEdad),
      "Masculino_" := JStr(c.masculino),
      "Femenino_" := JStr(c.femenino),
      "Titulos_Plan" := JStr(c.titulosPlan),
      "Planes" := JArr(TextsToJson(c.planes)),
      "Rangos" := JArr(RangesToJson(c.rangos))
    ]
  }

  /** `data.get(key, default)`. */
  function Get(data: map<string, Json>, key: string, default: Json): Json
  {
    if key in data then data[key] else default
  }

  /** Python's truth value of a JSON value. */
  predicate Truthy(j: Json)
  {
    match j
    case JNull => false
    case JBool(b) => b
    case JNum(x) => x != 0.0
    case JStr(s) => s != ""
    case JArr(items) => items != []
    case JObj(fields) => fields != map[]
  }

  /** `float(j)`. */
  function FloatOf(j: Json, key: string): Result<real, ConfigError>
  {
    match j
    case JNum(x) => Ok(x)
    case JBool(b) => Ok(if b then 1.0 else 0.0)
    case JStr(s) =>
      (match ParseNumber(s)
       case Some(x) => Ok(x)
       case None => Err(ValueError(key)))
    case _ => Err(TypeError(key))
  }

  /** `float(j or 0)`. */
  function FloatOrZero(j: Json, key: string): Result<real, ConfigError>
  {
    if Truthy(j) then FloatOf(j, key) else Ok(0.0)
  }

  /** `str(j)` for the values whose text this model knows. */
  function StrOf(j: Json, key: string): Result<string, ConfigError>
  {
    match j
    case JStr(s) => Ok(s)
    case JNull => Ok("None")
    case JBool(b) => Ok(if b then "True" else "False")
    case _ => Err(Unmodelled(key))
  }

  function AllTexts(items: seq<Json>): bool
  {
    forall k :: 0 <= k < |items| ==> items[k].JStr?
  }

  /** `list(j)` where the items are expected to be text. */
  function ListOf(j: Json, key: string): Result<seq<string>, ConfigError>
  {
    match j
    case JArr(items) =>
      if AllTexts(items) then Ok(seq(|items|, k requires 0 <= k < |items| => items[k].s))
      else Err(Unmodelled(key))
    case JStr(s) => Ok(seq(|s|, k requires 0 <= k < |s| => [s[k]]))
    case JObj(fields) => if fields == map[] then Ok([]) else Err(Unmodelled(key))
    case _ => Err(TypeError(key))
  }

  /** `AgeRange.from_dict(j)`. */
  function RangeFromJson(j: Json): Result<AgeRange, ConfigError>
  {
    if !j.JObj? then Err(TypeError("Rangos"))
    else if "edad_min" !in j.fields then Err(KeyError("edad_min"))
    else
      match FloatOf(j.fields["edad_min"], "edad_min")
      case Err(e) => Err(e)
      case Ok(lo) =>
        if "edad_max" !in j.fields then Err(KeyError("edad_max"))
        else
          match FloatOf(j.fields["edad_max"], "edad_max")
          case Err(e) => Err(e)
          case Ok(hi) =>
            if "valor" !in j.fields then Err(KeyError("valor"))
            else
              match FloatOf(j.fields["valor"], "valor")
              case Err(e) => Err(e)
              case Ok(v) => Ok(AgeRange(lo, hi, v))
  }

  /** `[AgeRange.from_dict(r) for r in items]`: the first failing item decides the error. */
  function RangesFromJson(items: seq<Json>): Result<seq<AgeRange>, ConfigError>
    decreases |items|
  {
    if items == [] then Ok([])
    else
      match RangeFromJson(items[0])
      case Err(e) => Err(e)
      case Ok(r) =>
        match RangesFromJson(items[1..])
        case Err(e) => Err(e)
        case Ok(rs) => Ok([r] + rs)
  }

  /** Iterating `data.get("Rangos", [])` and converting each item. */
  function RangesOf(j: Json): Result<seq<AgeRange>, ConfigError>
  {
    match j
    case JArr(items) => RangesFromJson(items)
    case JStr(s) => if s == "" then Ok([]) else Err(TypeError("Rangos"))
    case JObj(fields) => if fields == map[] then Ok([]) else Err(TypeError("Rangos"))
    case _ => Err(TypeError("Rangos"))
  }

  /** `AppConfig.from_dict`: fields are read in declaration order; the first failure is raised. */
  function FromDict(data: map<string, Json>): Result<AppConfig, ConfigError>
  {
    var parentescos := ListOf(Get(data, "Parentescos_Excluir", JArr([])), "Parentescos_Excluir");
    var tipos := ListOf(Get(data, "Tipos_Excluir", JArr([])), "Tipos_Excluir");
    var estados := ListOf(Get(data, "Estados_Excluir", JArr([])), "Estados_Excluir");
    var cobro := StrOf(Get(data, "cobroFM", JStr("No")), "cobroFM");
    var t := FloatOrZero(Get(data, "T_Congelada", JNum(0.0)), "T_Congelada");
    var tarifa := StrOf(Get(data, "Tabla_TarifaCong", JStr("")), "Tabla_TarifaCong");
    var edad := StrOf(Get(data, "Tabla_Edad", JStr("")), "Tabla_Edad");
    var masc := StrOf(Get(data, "Masculino_", JStr("")), "Masculino_");
    var fem := StrOf(Get(data, "Femenino_", JStr("")), "Femenino_");
    var titulos := StrOf(Get(data, "Titulos_Plan", JStr("")), "Titulos_Plan");
    var planes := ListOf(Get(data, "Planes", JArr([])), "Planes");
    var rangos := RangesOf(Get(data, "Rangos", JArr([])));
    if parentescos.Err? then Err(parentescos.error)
    else if tipos.Err? then Err(tipos.error)
    else if estados.Err? then Err(estados.error)
    else if cobro.Err? then Err(cobro.error)
    else if t.Err? then Err(t.error)
    else if tarifa.Err? then Err(tarifa.error)
    else if edad.Err? then Err(edad.error)
    else if masc.Err? then Err(masc.error)
    else if fem.Err? then Err(fem.error)
    else if titulos.Err? then Err(titulos.error)
    else if planes.Err? then Err(planes.error)
    else if rangos.Err? then Err(rangos.error)
    else Ok(AppConfig(parentescos.value, tipos.value, estados.value, cobro.value, t.value,
                      tarifa.value, edad.value, masc.value, fem.value, titulos.value,
                      planes.value, rangos.value))
  }

  lemma ListOfTexts(xs: seq<string>, key: string)
    ensures ListOf(JArr(TextsToJson(xs)), key) == Ok(xs)
  {
    var items := TextsToJson(xs);
    assert AllTexts(items);
    assert seq(|items|, k requires 0 <= k < |items| => items[k].s) == xs;
  }

  lemma {:induction false} RangesRoundTrip(rs: seq<AgeRange>)
    ensures RangesFromJson(RangesToJson(rs)) == Ok(rs)
    decreases |rs|
  {
    if rs != [] {
      RangesRoundTrip(rs[1..]);
      assert RangesToJson(rs)[1..] == RangesToJson(rs[1..]);
      assert [rs[0]] + rs[1..] == rs;
    }
  }

  /** Every key `from_dict` reads is present in `to_dict`'s output, holding the field it was written from. */
  lemma ToDictFields(c: AppConfig)
    ensures var d := ToDict(c);
      && Get(d, "Parentescos_Excluir", JArr([])) == JArr(TextsToJson(c.parentescosExcluir))
      && Get(d, "Tipos_Excluir", JArr([])) == JArr(TextsToJson(c.tiposExcluir))
      && Get(d, "Estados_Excluir", JArr([])) == JArr(TextsToJson(c.estadosExcluir))
      && Get(d, "cobroFM", JStr("No")) == JStr(c.cobroFm)
      && Get(d, "T_Congelada", JNum(0.0)) == JNum(c.tCongelada)
      && Get(d, "Tabla_TarifaCong", JStr("")) == JStr(c.tablaTarifacong)
      && Get(d, "Tabla_Edad", JStr("")) == JStr(c.tablaEdad)
      && Get(d, "Masculino_", JStr("")) == JStr(c.masculino)
      && Get(d, "Femenino_", JStr("")) == JStr(c.femenino)
      && Get(d, "Titulos_Plan", JStr("")) == JStr(c.titulosPlan)
      && Get(d, "Planes", JArr([])) == JArr(TextsToJson(c.planes))
      && Get(d, "Rangos", JArr([])) == JArr(RangesToJson(c.rangos))
  {
  }

  /** `AppConfig.from_dict(c.to_dict())` gives back `c`, for every configuration. */
  lemma FromDictToDict(c: AppConfig)
    ensures FromDict(ToDict(c)) == Ok(c)
  {
    ToDictFields(c);
    ListOfTexts(c.parentescosExcluir, "Parentescos_Excluir");
    ListOfTexts(c.tiposExcluir, "Tipos_Excluir");
    ListOfTexts(c.estadosExcluir, "Estados_Excluir");
    ListOfTexts(c.planes, "Planes");
    RangesRoundTrip(c.rangos);
  }

  /** An empty JSON object loads as the default configuration. */
  lemma FromEmptyDict()
    ensures FromDict(map[]) == Ok(DefaultConfig())
  {
    ListOfTexts([], "Parentescos_Excluir");
    ListOfTexts([], "Tipos_Excluir");
    ListOfTexts([], "Estados_Excluir");
    ListOfTexts([], "Planes");
    RangesRoundTrip([]);
  }

  // ---------------------------------------------------------------------
  // Exclusion lists typed as comma-separated text
  // ---------------------------------------------------------------------

  /** `split_values(text)` of `_gather_config_from_ui`: stripped, non-empty items in order. */
  function SplitValues(text: string): seq<string>
  {
    var pieces := Split(text, ',');
    var stripped := seq(|pieces|, k requires 0 <= k < |pieces| => Strip(pieces[k]));
    Filter(stripped, (item: string) => item != "")
  }

  /** `join_values(values)` of `_populate_config_ui`. */
  function JoinValues(values: seq<string>): string
  {
    Join(values, ", ")
  }

  lemma StripKeepsOut(s: string, c: char)
    requires c !in s
    ensures c !in Strip(s)
  {
    var l := StripLeft(s);
    assert c !in l by {
      forall k | 0 <= k < |l|
        ensures l[k] != c
      {
        assert l[k] == s[|s| - |l| + k];
      }
    }
    var r := StripRight(l);
    forall k | 0 <= k < |r|
      ensures r[k] != c
    {
      assert r[k] == l[k];
    }
  }

  /** Every item of `split_values` is non-empty, stripped and free of commas. */
  lemma SplitValuesItems(text: string)
    ensures forall item :: item in SplitValues(text) ==> item != "" && Trimmed(item) && ',' !in item
  {
    var pieces := Split(text, ',');
    forall k | 0 <= k < |pieces|
      ensures Trimmed(Strip(pieces[k])) && ',' !in Strip(pieces[k])
    {
      StripIsTrimmed(pieces[k]);
      StripKeepsOut(pieces[k], ',');
    }
  }

  /** Items written with `join_values` read back unchanged with `split_values`. */
  lemma SplitJoinValues(items: seq<string>)
    requires forall k :: 0 <= k < |items| ==> items[k] != "" && Trimmed(items[k]) && ',' !in items[k]
    ensures SplitValues(JoinValues(items)) == items
  {
    if items == [] {
      assert Split("", ',') == [""];
    } else {
      var parts := Spaced(items);
      JoinSpaced(items);
      assert [','] == ",";
      SplitJoin(parts, ',');
      assert Split(JoinValues(items), ',') == parts;
      StripSpaced(items);
      FilterAllKept(items, (item: string) => item != "");
    }
  }

  /** The items of a `", "`-join seen as a `","`-join: every item after the first gains a leading space. */
  function Spaced(items: seq<string>): (r: seq<string>)
    requires items != []
    ensures |r| == |items| && r[0] == items[0]
    ensures forall k :: 0 < k < |items| ==> r[k] == " " + items[k]
  {
    [items[0]] + seq(|items| - 1, k requires 0 <= k < |items| - 1 => " " + items[k + 1])
  }

  /** Stripping the spaced items gives the items back. */
  lemma StripSpaced(items: seq<string>)
    requires items != []
    requires forall k :: 0 <= k < |items| ==> items[k] != "" && Trimmed(items[k])
    ensures seq(|items|, k requires 0 <= k < |items| => Strip(Spaced(items)[k])) == items
  {
    var parts := Spaced(items);
    forall k | 0 <= k < |items|
      ensures Strip(parts[k]) == items[k]
    {
      if k == 0 {
        StripTrimmed(items[0]);
      } else {
        StripSpacePrefix(items[k]);
      }
    }
  }

  lemma {:induction false} FilterAllKept<T(!new)>(s: seq<T>, keep: T -> bool)
    requires forall k :: 0 <= k < |s| ==> keep(s[k])
    ensures Filter(s, keep) == s
    decreases |s|
  {
    if s != [] {
      FilterAllKept(s[1..], keep);
      assert [s[0]] + s[1..] == s;
    }
  }

  /** Joining with ", " equals joining, with ",", the items after the first prefixed by a space. */
  lemma {:induction false} JoinSpaced(items: seq<string>)
    requires items != []
    ensures Join(items, ", ") == Join(Spaced(items), ",")
    decreases |items|
  {
    var parts := Spaced(items);
    if |items| > 1 {
      var rest := items[1..];
      JoinSpaced(rest);
      var tail := [" " + rest[0]] + Spaced(rest)[1..];
      assert parts[1..] == tail;
      JoinSpacedHead(rest);
      assert Join(parts, ",") == items[0] + "," + Join(tail, ",");
    }
  }

  /** Prefixing the first of several parts with a space prefixes their join. */
  lemma JoinSpacedHead(rest: seq<string>)
    requires rest != []
    ensures Join([" " + rest[0]] + Spaced(rest)[1..], ",") == " " + Join(Spaced(rest), ",")
  {
    var tl := Spaced(rest)[1..];
    var a := [" " + rest[0]] + tl;
    var b := Spaced(rest);
    if |rest| > 1 {
      assert a[1..] == tl && b[1..] == tl;
    }
  }

  // ---------------------------------------------------------------------
  // The "add plan" and "add age range" dialogs
  // ---------------------------------------------------------------------

  datatype PlanOutcome = PlanAdded | BlankPlanName | DuplicatePlan
  datatype RangeOutcome = RangeAdded | NotNumeric | MinAboveMax

  /** Every stored range is well ordered. */
  predicate RangesOrdered(ranges: seq<AgeRange>)
  {
    forall k :: 0 <= k < |ranges| ==> ranges[k].edadMin <= ranges[k].edadMax
  }

  /** The plan list box and the age-range table of the administration tab. */
  class AdminLists {
    var plans: seq<string>
    var ranges: seq<AgeRange>

    /** `_populate_config_ui`: the lists show the loaded configuration. */
    constructor (config: AppConfig)
      ensures plans == config.planes && ranges == config.rangos
    {
      plans := config.planes;
      ranges := config.rangos;
    }

    /** `confirm` of `add_plan`: the stripped name is appended unless blank or already listed. */
    method AddPlan(name: string) returns (outcome: PlanOutcome)
      modifies this`plans
      ensures var value := Strip(name);
        && (value == "" ==> outcome == BlankPlanName)
        && (value != "" && value in old(plans) ==> outcome == DuplicatePlan)
        && (value != "" && value !in old(plans) ==> outcome == PlanAdded)
        && plans == (if outcome == PlanAdded then old(plans) + [value] else old(plans))
      ensures Distinct(old(plans)) ==> Distinct(plans)
      ensures forall p :: p in plans && p !in old(plans) ==> p != "" && Trimmed(p)
    {
      var value := Strip(name);
      StripIsTrimmed(name);
      if value == "" {
        return BlankPlanName;
      }
      if value in plans {
        return DuplicatePlan;
      }
      if Distinct(plans) {
        DistinctAppend(plans, [value]);
      }
      plans := plans + [value];
      outcome := PlanAdded;
    }

    /** `confirm` of `add_range`: the three fields must be numbers and the minimum must not exceed the maximum. */
    method AddRange(minText: string, maxText: string, valorText: string) returns (outcome: RangeOutcome)
      modifies this`ranges
      ensures var lo, hi, v := ParseNumber(minText), ParseNumber(maxText), ParseNumber(valorText);
        && (lo.None? || hi.None? || v.None? ==> outcome == NotNumeric)
        && (lo.Some? && hi.Some? && v.Some? && lo.value > hi.value ==> outcome == MinAboveMax)
        && (lo.Some? && hi.Some? && v.Some? && lo.value <= hi.value ==> outcome == RangeAdded)
        && ranges == (if outcome == RangeAdded then old(ranges) + [AgeRange(lo.value, hi.value, v.value)] else old(ranges))
      ensures RangesOrdered(old(ranges)) ==> RangesOrdered(ranges)
    {
      var lo, hi, v := ParseNumber(minText), ParseNumber(maxText), ParseNumber(valorText);
      if lo.None? || hi.None? || v.None? {
        return NotNumeric;
      }
      if lo.value > hi.value {
        return MinAboveMax;
      }
      ranges := ranges + [AgeRange(lo.value, hi.value, v.value)];
      outcome := RangeAdded;
    }
  }
}
