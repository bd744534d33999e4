/** Field rules of the schema registry: type names read from the configuration
    are normalised into a closed set of field types, and a built-in schema for
    the `food_consumption` table stands in when no configuration can be read. */
module SchemaRules {
  import opened Wrappers
  import opened Dicts

  datatype FieldType =
    | StrType | FloatType | IntType | BoolType | DateType | DateTimeType
    | Unrecognised(name: string)  // a type name the loader does not know, kept as written

  /** `required` defaults to false; `min` and `max` are optional bounds. */
  datatype Rule = Rule(ty: Option<FieldType>, required: bool, min: Option<real>, max: Option<real>)

  /** A rule as the configuration file states it, type given by name. */
  datatype RawRule = RawRule(typeName: Option<string>, required: bool, min: Option<real>, max: Option<real>)

  /** Fields in declaration order; validation visits them in this order. */
  type TableSchema = Dict<Rule>

  type Schemas = map<string, TableSchema>

  type RawSchemas = map<string, Dict<RawRule>>

  const FoodConsumption := "food_consumption"

  const ConsumptionFields := ["mean_consumption_chronic", "mean_consumption_acute",
                              "percentile_97_chronic", "percentile_97_acute"]

  const KnownTypeNames := ["str", "string", "float", "int", "integer",
                           "bool", "boolean", "date", "datetime"]

  function LowerChar(c: char): char
  {
    if 'A' <= c <= 'Z' then (c as int + 32) as char else c
  }

  function ToLower(s: string): string
  {
    seq(|s|, i requires 0 <= i < |s| => LowerChar(s[i]))
  }

  /** The type-name mapping of the loader. */
  function NormalizeType(name: string): (t: FieldType)
    ensures t == StrType <==> ToLower(name) in ["str", "string"]
    ensures t == FloatType <==> ToLower(name) == "float"
    ensures t == IntType <==> ToLower(name) in ["int", "integer"]
    ensures t == BoolType <==> ToLower(name) in ["bool", "boolean"]
    ensures t == DateType <==> ToLower(name) == "date"
    ensures t == DateTimeType <==> ToLower(name) == "datetime"
    ensures t.Unrecognised? <==> ToLower(name) !in KnownTypeNames
    ensures t.Unrecognised? ==> t.name == name
  {
    var lower := ToLower(name);
    if lower == "str" || lower == "string" then StrType
    else if lower == "float" then FloatType
    else if lower == "int" || lower == "integer" then IntType
    else if lower == "bool" || lower == "boolean" then BoolType
    else if lower == "date" then DateType
    else if lower == "datetime" then DateTimeType
    else Unrecognised(name)
  }

  /** Type names are matched without regard to case: two spellings that agree
      once lower-cased name the same type, unless neither is known, in which
      case each keeps its own spelling. */
  lemma NormalizeTypeIgnoresCase(a: string, b: string)
    requires ToLower(a) == ToLower(b)
    ensures NormalizeType(a).Unrecognised? == NormalizeType(b).Unrecognised?
    ensures !NormalizeType(a).Unrecognised? ==> NormalizeType(a) == NormalizeType(b)
  {
  }

  function ProcessRule(raw: RawRule): (r: Rule)
    ensures r.required == raw.required && r.min == raw.min && r.max == raw.max
    ensures r.ty.Some? <==> raw.typeName.Some?
    ensures raw.typeName.Some? ==> r.ty == Some(NormalizeType(raw.typeName.value))
  {
    Rule(if raw.typeName.Some? then Some(NormalizeType(raw.typeName.value)) else None,
         raw.required, raw.min, raw.max)
  }

  /** Every table and field of the configuration is kept, in order; only the
      type names are converted. */
  function ProcessSchema(raw: RawSchemas): (s: Schemas)
    ensures s.Keys == raw.Keys
    ensures forall t :: t in s ==> |s[t]| == |raw[t]| && Keys(s[t]) == Keys(raw[t])
    ensures forall t, i :: t in s && 0 <= i < |s[t]| ==> s[t][i].1 == ProcessRule(raw[t][i].1)
  {
    map t | t in raw :: seq(|raw[t]|, i requires 0 <= i < |raw[t]| => (raw[t][i].0, ProcessRule(raw[t][i].1)))
  }

  function DefaultSchema(): (s: Schemas)
    ensures s.Keys == {FoodConsumption}
    ensures Keys(s[FoodConsumption]) == ["commodity", "age_group"] + ConsumptionFields + ["notes"]
    ensures UniqueKeys(s[FoodConsumption])
    ensures forall i :: 0 <= i < 7 ==>
              (s[FoodConsumption][i].1.required <==> s[FoodConsumption][i].0 in ["commodity", "age_group"])
    ensures forall i :: 0 <= i < 7 ==>
              var rule := s[FoodConsumption][i].1;
              if s[FoodConsumption][i].0 in ConsumptionFields
              then rule.ty == Some(FloatType) && rule.min == Some(0.0) && rule.max == None
              else rule.ty == Some(StrType) && rule.min == None && rule.max == None
  {
    map[FoodConsumption := [
      ("commodity", Rule(Some(StrType), true, None, None)),
      ("age_group", Rule(Some(StrType), true, None, None)),
      ("mean_consumption_chronic", Rule(Some(FloatType), false, Some(0.0), None)),
      ("mean_consumption_acute", Rule(Some(FloatType), false, Some(0.0), None)),
      ("percentile_97_chronic", Rule(Some(FloatType), false, Some(0.0), None)),
      ("percentile_97_acute", Rule(Some(FloatType), false, Some(0.0), None)),
      ("notes", Rule(Some(StrType), false, None, None))
    ]]
  }

  /** A configuration that could not be found, read or parsed (`None`) yields
      the built-in schema; loading never fails. */
  function LoadSchema(source: Option<RawSchemas>): (s: Schemas)
    ensures source.None? ==> s == DefaultSchema()
    ensures source.Some? ==> s == ProcessSchema(source.value)
  {
    match source
    case None => DefaultSchema()
    case Some(raw) => ProcessSchema(raw)
  }

  /** The schema registry must hold, for every table, each field once. */
  ghost predicate WellFormedSchemas(s: Schemas)
  {
    forall t :: t in s ==> UniqueKeys(s[t])
  }

  lemma {:induction false} LoadedSchemaWellFormed(source: Option<RawSchemas>)
    requires source.Some? ==> forall t :: t in source.value ==> UniqueKeys(source.value[t])
    ensures WellFormedSchemas(LoadSchema(source))
  {
    var s := LoadSchema(source);
    forall t | t in s ensures UniqueKeys(s[t]) {
      if source.Some? {
        assert Keys(s[t]) == Keys(source.value[t]);
        forall i, j | 0 <= i < j < |s[t]| ensures s[t][i].0 != s[t][j].0 {
          assert Keys(s[t])[i] == Keys(source.value[t])[i];
          assert Keys(s[t])[j] == Keys(source.value[t])[j];
        }
      }
    }
  }
}
