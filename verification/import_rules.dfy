/**
 The rule import of the admin editor: the parsed JSON document must be an
 array, and every rule in it is given the defaults the editor relies on
 (`importRules` and `validateImportedRules`). The editor code runs in strict
 mode, so writing a property on a primitive, or reading one from `null`, throws.
 */
module ImportRules {
  import opened Wrappers
  import opened PhpStrings

  /** A parsed JSON value. Objects are key/value maps (key order is not kept). */
  datatype Json =
    | JNull
    | JBool(b: bool)
    | JNum(n: real)
    | JStr(s: string)
    | JArr(items: seq<Json>)
    | JObj(fields: map<string, Json>)

  /** Why an import is refused. */
  datatype ImportError =
    | NotAnArray
    | RuleNotObject(position: nat)
    | TypeError

  /** The message shown for a refused import. */
  function ErrorMessage(e: ImportError): string {
    match e
    case NotAnArray => "无效的规则格式：必须是数组"
    case RuleNotObject(n) => "规则 " + NatToString(n) + " 格式错误：必须是对象"
    case TypeError => "TypeError"
  }

  /** JavaScript truthiness of a JSON value: `null`, `false`, `0` and `""` are falsy, every array and object is truthy. */
  predicate Truthy(j: Json) {
    match j
    case JNull => false
    case JBool(b) => b
    case JNum(n) => n != 0.0
    case JStr(s) => s != ""
    case JArr(_) => true
    case JObj(_) => true
  }

  predicate IsPrimitive(j: Json) {
    j.JBool? || j.JNum? || j.JStr?
  }

  /** Whether an object condition already has what the editor needs: it is an `else`, or it has a truthy logic. */
  predicate ConditionNormal(m: map<string, Json>) {
    ("type" in m && m["type"] == JStr("else")) || ("logic" in m && Truthy(m["logic"]))
  }

  /**
   One condition: an object that is not an `else` and has no truthy logic gets
   logic `and`; any other object, and an array, is left as it is; `null` and
   primitives make the editor throw.
   */
  function NormalizeCondition(c: Json): (r: Result<Json, ImportError>)
    ensures (c.JNull? || IsPrimitive(c)) <==> r == Failure(TypeError)
    ensures c.JArr? ==> r == Success(c)
    ensures c.JObj? ==> r.Success? && r.value.JObj? && ConditionNormal(r.value.fields)
    ensures c.JObj? && ConditionNormal(c.fields) ==> r == Success(c)
    ensures c.JObj? && !ConditionNormal(c.fields) ==>
              && "logic" in r.value.fields && r.value.fields["logic"] == JStr("and")
              && forall k :: k in c.fields && k != "logic" ==> k in r.value.fields && r.value.fields[k] == c.fields[k]
    ensures c.JObj? && !ConditionNormal(c.fields) ==> r.value.fields.Keys == c.fields.Keys + {"logic"}
  {
    match c
    case JArr(_) => Success(c)
    case JObj(m) =>
      if ConditionNormal(m) then Success(c)
      else
        var m' := m["logic" := JStr("and")];
        assert "logic" in m' && Truthy(m'["logic"]);
        Success(JObj(m'))
    case _ => Failure(TypeError)
  }

  /** The conditions in order; the first one that throws ends the import. */
  function NormalizeConditions(cs: seq<Json>): (r: Result<seq<Json>, ImportError>)
    ensures r.Success? <==> forall i :: 0 <= i < |cs| ==> NormalizeCondition(cs[i]).Success?
    ensures r.Success? ==> |r.value| == |cs|
    ensures r.Success? ==> forall i :: 0 <= i < |cs| ==> r.value[i] == NormalizeCondition(cs[i]).value
    ensures r.Failure? ==> r.error == TypeError
    decreases |cs|
  {
    if |cs| == 0 then Success([])
    else
      var first := NormalizeCondition(cs[0]);
      if first.Failure? then Failure(TypeError)
      else
        var rest := NormalizeConditions(cs[1..]);
        assert forall i :: 1 <= i < |cs| ==> cs[i] == cs[1..][i - 1];
        if rest.Failure? then Failure(TypeError)
        else Success([first.value] + rest.value)
  }

  /** The name a rule at position `index` (from 0) gets when it has no usable name. */
  function DefaultName(index: nat): string {
    "导入的规则 " + NatToString(index + 1)
  }

  /** A usable name: a non-empty string. */
  predicate HasValidName(m: map<string, Json>) {
    "name" in m && m["name"].JStr? && m["name"].s != ""
  }

  /** The conditions a rule object's conditions are normalised from: its `conditions` array, or none when that is missing or not an array. */
  function ConditionsOf(m: map<string, Json>): seq<Json> {
    if "conditions" in m && m["conditions"].JArr? then m["conditions"].items else []
  }

  /** What a normalised rule object looks like. */
  predicate RuleNormal(m: map<string, Json>) {
    && HasValidName(m)
    && "enable" in m
    && "conditions" in m && m["conditions"].JArr?
    && forall c :: c in m["conditions"].items ==> c.JArr? || (c.JObj? && ConditionNormal(c.fields))
  }

  /** The name and `enable` defaults of a rule object; every other property is kept. */
  function WithDefaults(m: map<string, Json>, index: nat): (m2: map<string, Json>)
    ensures HasValidName(m2) && "enable" in m2
    ensures HasValidName(m) ==> m2["name"] == m["name"]
    ensures !HasValidName(m) ==> m2["name"] == JStr(DefaultName(index))
    ensures "enable" in m ==> m2["enable"] == m["enable"]
    ensures "enable" !in m ==> m2["enable"] == JBool(true)
    ensures m2.Keys == m.Keys + {"name", "enable"}
    ensures forall k :: k in m && k != "name" && k != "enable" ==> m2[k] == m[k]
  {
    var m1 := if HasValidName(m) then m else m["name" := JStr(DefaultName(index))];
    assert m1.Keys == m.Keys + {"name"};
    if "enable" in m1 then m1 else m1["enable" := JBool(true)]
  }

  /** Normalised conditions are all in the form the editor needs. */
  lemma NormalizedConditionsNormal(cs: seq<Json>)
    requires NormalizeConditions(cs).Success?
    ensures forall c :: c in NormalizeConditions(cs).value ==> c.JArr? || (c.JObj? && ConditionNormal(c.fields))
  {
    var out := NormalizeConditions(cs).value;
    forall c | c in out
      ensures c.JArr? || (c.JObj? && ConditionNormal(c.fields))
    {
      var i :| 0 <= i < |out| && out[i] == c;
      assert NormalizeCondition(cs[i]).Success?;
    }
  }

  /**
   One rule at position `index`: a primitive is refused with its position (from
   1), `null` makes the editor throw, an array is left as it is (properties set
   on it are not part of its JSON). An object keeps a non-empty string name and
   otherwise gets the default name, gets `enable: true` only when it has no
   `enable` at all, gets `[]` for conditions that are not an array, and has its
   conditions normalised.
   */
  function NormalizeRule(rule: Json, index: nat): (r: Result<Json, ImportError>)
    ensures IsPrimitive(rule) <==> r == Failure(RuleNotObject(index + 1))
    ensures rule.JNull? ==> r == Failure(TypeError)
    ensures rule.JArr? ==> r == Success(rule)
    ensures r.Success? && rule.JObj? ==> r.value.JObj?
    ensures r.Success? && rule.JObj? && r.value.JObj? ==>
              var m, m' := rule.fields, r.value.fields;
              && RuleNormal(m')
              && (HasValidName(m) ==> m'["name"] == m["name"])
              && (!HasValidName(m) ==> m'["name"] == JStr(DefaultName(index)))
              && ("enable" in m ==> m'["enable"] == m["enable"])
              && ("enable" !in m ==> m'["enable"] == JBool(true))
              && (("conditions" !in m || !m["conditions"].JArr?) ==> m'["conditions"] == JArr([]))
              && (forall k :: k in m && k !in {"name", "enable", "conditions"} ==> k in m' && m'[k] == m[k])
    ensures r.Failure? && rule.JObj? ==> r.error == TypeError
    ensures rule.JObj? ==> (r.Success? <==> NormalizeConditions(ConditionsOf(rule.fields)).Success?)
    ensures rule.JObj? && r.Success? ==>
              && r.value.JObj?
              && r.value.fields["conditions"] == JArr(NormalizeConditions(ConditionsOf(rule.fields)).value)
              && r.value.fields.Keys == rule.fields.Keys + {"name", "enable", "conditions"}
  {
    match rule
    case JNull => Failure(TypeError)
    case JArr(_) => Success(rule)
    case JObj(m) =>
      var m2 := WithDefaults(m, index);
      var cs := if "conditions" in m2 && m2["conditions"].JArr? then m2["conditions"].items else [];
      assert cs == ConditionsOf(m);
      var normalized := NormalizeConditions(cs);
      if normalized.Failure? then Failure(TypeError)
      else
        NormalizedConditionsNormal(cs);
        var m3 := m2["conditions" := JArr(normalized.value)];
        assert m3.Keys == m2.Keys + {"conditions"};
        assert HasValidName(m3);
        Success(JObj(m3))
    case _ => Failure(RuleNotObject(index + 1))
  }

  /** Each rule's own outcome, by position. */
  function Outcomes(rules: seq<Json>): (r: seq<Result<Json, ImportError>>)
    ensures |r| == |rules|
    ensures forall i :: 0 <= i < |rules| ==> r[i] == NormalizeRule(rules[i], i)
  {
    seq(|rules|, i requires 0 <= i < |rules| => NormalizeRule(rules[i], i))
  }

  /** The outcomes taken in order: all values when every one succeeded, otherwise the first error. */
  function FirstErrorOrAll<T>(os: seq<Result<T, ImportError>>): (r: Result<seq<T>, ImportError>)
    ensures r.Success? <==> forall i :: 0 <= i < |os| ==> os[i].Success?
    ensures r.Success? ==> |r.value| == |os|
    ensures r.Success? ==> forall i :: 0 <= i < |os| ==> r.value[i] == os[i].value
    decreases |os|
  {
    if |os| == 0 then Success([])
    else if os[0].Failure? then Failure(os[0].error)
    else
      var rest := FirstErrorOrAll(os[1..]);
      assert forall i :: 1 <= i < |os| ==> os[i] == os[1..][i - 1];
      if rest.Failure? then Failure(rest.error) else Success([os[0].value] + rest.value)
  }

  /** The error reported is that of the first failing outcome. */
  lemma {:induction false} FirstErrorReported<T>(os: seq<Result<T, ImportError>>)
    requires FirstErrorOrAll(os).Failure?
    ensures exists i :: (0 <= i < |os| && os[i] == Failure(FirstErrorOrAll(os).error)
                         && forall j :: 0 <= j < i ==> os[j].Success?)
    decreases |os|
  {
    if os[0].Success? {
      var tail := os[1..];
      FirstErrorReported(tail);
      var i :| 0 <= i < |tail| && tail[i] == Failure(FirstErrorOrAll(tail).error)
               && forall j :: 0 <= j < i ==> tail[j].Success?;
      assert os[i + 1] == tail[i];
      assert forall j :: 0 <= j < i + 1 ==> os[j].Success? by {
        forall j | 0 <= j < i + 1 ensures os[j].Success? {
          if j > 0 { assert os[j] == tail[j - 1]; }
        }
      }
    }
  }

  /**
   `validateImportedRules`: the rules in order, positions counted from 0; every
   rule is normalised when none is refused, and otherwise the first refusal is
   the error.
   */
  function ValidateImportedRules(rules: seq<Json>): (r: Result<seq<Json>, ImportError>)
    ensures r.Success? ==> |r.value| == |rules|
    ensures r.Success? <==> forall i :: 0 <= i < |rules| ==> NormalizeRule(rules[i], i).Success?
    ensures r.Success? ==> forall i :: 0 <= i < |rules| ==> r.value[i] == NormalizeRule(rules[i], i).value
    ensures r.Failure? ==> exists i :: (0 <= i < |rules|
              && NormalizeRule(rules[i], i) == Failure(r.error)
              && forall j :: 0 <= j < i ==> NormalizeRule(rules[j], j).Success?)
  {
    var os := Outcomes(rules);
    var r := FirstErrorOrAll(os);
    assert r.Failure? ==> exists i :: (0 <= i < |rules|
              && NormalizeRule(rules[i], i) == Failure(r.error)
              && forall j :: 0 <= j < i ==> NormalizeRule(rules[j], j).Success?) by {
      if r.Failure? { FirstErrorReported(os); }
    }
    r
  }

  /** `importRules` after parsing: anything but an array is refused, an array is validated rule by rule. */
  function ImportRules(parsed: Json): (r: Result<seq<Json>, ImportError>)
    ensures !parsed.JArr? <==> r == Failure(NotAnArray)
    ensures parsed.JArr? && r.Success? ==> |r.value| == |parsed.items|
    ensures r.Failure? && r.error.RuleNotObject? ==>
              && 1 <= r.error.position <= |parsed.items|
              && IsPrimitive(parsed.items[r.error.position - 1])
  {
    if !parsed.JArr? then Failure(NotAnArray)
    else ValidateImportedRules(parsed.items)
  }

  // ---------------------------------------------------------------------------
  // Idempotence
  // ---------------------------------------------------------------------------

  lemma NormalizeConditionIdempotent(c: Json)
    requires NormalizeCondition(c).Success?
    ensures NormalizeCondition(NormalizeCondition(c).value) == NormalizeCondition(c)
  {
  }

  /** A rule object already in normal form is left exactly as it is. */
  lemma NormalRuleUnchanged(m: map<string, Json>, index: nat)
    requires RuleNormal(m)
    ensures NormalizeRule(JObj(m), index) == Success(JObj(m))
  {
    var cs := m["conditions"].items;
    var n := NormalizeConditions(cs);
    assert forall i :: 0 <= i < |cs| ==> NormalizeCondition(cs[i]) == Success(cs[i]) by {
      forall i | 0 <= i < |cs| ensures NormalizeCondition(cs[i]) == Success(cs[i]) {
        assert cs[i] in cs;
      }
    }
    assert n.value == cs;
    assert m["conditions" := JArr(cs)] == m;
  }

  /** Normalising a rule a second time changes nothing. */
  lemma NormalizeRuleIdempotent(rule: Json, index: nat)
    requires NormalizeRule(rule, index).Success?
    ensures NormalizeRule(NormalizeRule(rule, index).value, index) == NormalizeRule(rule, index)
  {
    if rule.JObj? {
      NormalRuleUnchanged(NormalizeRule(rule, index).value.fields, index);
    }
  }

  /** An import that succeeds is a fixed point: validating its result again gives the same rules. */
  lemma ValidateIdempotent(rules: seq<Json>)
    requires ValidateImportedRules(rules).Success?
    ensures ValidateImportedRules(ValidateImportedRules(rules).value) == ValidateImportedRules(rules)
  {
    var out := ValidateImportedRules(rules).value;
    forall i | 0 <= i < |rules|
      ensures NormalizeRule(out[i], i) == Success(out[i])
    {
      NormalizeRuleIdempotent(rules[i], i);
    }
    var again := ValidateImportedRules(out);
    assert again.Success?;
    assert again.value == out;
  }

  /** An explicit `enable: false` survives the import. */
  lemma ExplicitDisableKept(m: map<string, Json>, index: nat)
    requires "enable" in m && m["enable"] == JBool(false)
    requires NormalizeRule(JObj(m), index).Success?
    ensures NormalizeRule(JObj(m), index).value.fields["enable"] == JBool(false)
  {
  }
}
