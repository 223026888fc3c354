/** The request-validation middleware and the schemas the routes use. A
    schema lists the keys it knows, each with its rule and whether it is
    required, optional or defaulted; unknown keys are dropped (stripUnknown)
    and every failing key is reported (abortEarly off). On success the
    request's body and query objects are rewritten in place to hold exactly
    the validated values. Joi's reading of text as a number and its ISO
    8601 date conversion are parameters. */
module ValidateMiddleware {
  import opened Base
  import opened Text

  /** A request value as the JSON or query parser left it. */
  datatype Value = Number(x: real) | Text(s: string) | Bool(b: bool) | Null

  type Record = map<string, Value>

  /** Joi's conversion of text to a number (`convert: true`); `None` when
      the text is not a number. */
  type NumericReader = string -> Option<real>

  /** Joi's `isoDate()` under `convert: true`: `None` when the text is not an
      ISO 8601 date, otherwise the text it converts to,
      `new Date(text).toISOString()`. That text is itself an ISO date which
      converts to itself. */
  type IsoDateReader = iso: string -> Option<string> | IsoStable(iso) witness (s: string) => None

  ghost predicate IsoStable(iso: string -> Option<string>) {
    forall s :: iso(s).Some? ==> iso(s).value != "" && iso(iso(s).value) == iso(s)
  }

  datatype Rule =
    | IntegerRule(min: Option<int>, max: Option<int>)   // number().integer().min().max()
    | NumberRule(atLeast: int)                          // number().min()
    | TextRule(minLength: nat, allowed: seq<string>)    // string().min().valid(...); no `valid` when empty
    | DateRule                                          // YYYY-MM-DD or an ISO 8601 date
    | BooleanRule

  datatype Presence = Required | Optional | Default(value: Value)

  datatype Field = Field(key: string, rule: Rule, presence: Presence)

  /** A `Joi.object({...})`: its keys, each once. */
  type ObjectSchema = seq<Field>

  predicate DistinctKeys(fields: ObjectSchema) {
    forall i, j :: 0 <= i < j < |fields| ==> fields[i].key != fields[j].key
  }

  // ---- One value against one rule

  predicate IsInteger(x: real) {
    x.Floor as real == x
  }

  /** `Number.MIN_SAFE_INTEGER <= x <= Number.MAX_SAFE_INTEGER`: Joi's
      `number()` refuses any other number (`number.unsafe`), whether it
      arrived as a number or was read from text. */
  predicate IsSafeNumber(x: real) {
    -9007199254740991.0 <= x <= 9007199254740991.0
  }

  function AsNumber(v: Value, numeric: NumericReader): Option<real> {
    match v
    case Number(x) => Some(x)
    case Text(s) => numeric(s)
    case _ => None
  }

  /** `boolean()` with conversion: a boolean, or the text `true` or `false`
      in any letter case. */
  function AsBool(v: Value): (r: Option<bool>)
    ensures v.Bool? ==> r == Some(v.b)
    ensures r.Some? ==> v.Bool? || v.Text?
  {
    match v
    case Bool(b) => Some(b)
    case Text(s) => if ToLowerAscii(s) == "true" then Some(true) else if ToLowerAscii(s) == "false" then Some(false) else None
    case _ => None
  }

  predicate IsDigit4Pattern(s: string) {
    |s| == 10 && s[4] == '-' && s[7] == '-'
    && forall i :: 0 <= i < 10 && i != 4 && i != 7 ==> IsDigit(s[i])
  }

  /** What a value that passed the rule is like, once converted. */
  predicate Satisfies(rule: Rule, v: Value, isoDate: IsoDateReader) {
    match rule
    case IntegerRule(min, max) =>
      v.Number? && IsSafeNumber(v.x) && IsInteger(v.x) && (min.None? || min.value as real <= v.x) && (max.None? || v.x <= max.value as real)
    case NumberRule(atLeast) => v.Number? && IsSafeNumber(v.x) && atLeast as real <= v.x
    case TextRule(minLength, allowed) =>
      v.Text? && v.s != "" && |v.s| >= minLength && (allowed == [] || v.s in allowed)
    case DateRule => v.Text? && v.s != "" && (IsDigit4Pattern(v.s) || isoDate(v.s) == Some(v.s))
    case BooleanRule => v.Bool?
  }

  /** One present value against its rule: the converted value, or `None`
      when the rule refuses it. Joi's `string()` refuses the empty text. */
  function Check(rule: Rule, v: Value, numeric: NumericReader, isoDate: IsoDateReader): (r: Option<Value>)
    ensures r.Some? ==> Satisfies(rule, r.value, isoDate)
    ensures Satisfies(rule, v, isoDate) ==> r == Some(v)
    ensures (rule.IntegerRule? || rule.NumberRule?) ==>
              (r.Some? <==> AsNumber(v, numeric).Some? && Satisfies(rule, Number(AsNumber(v, numeric).value), isoDate))
              && (r.Some? ==> r.value == Number(AsNumber(v, numeric).value))
    ensures rule.TextRule? ==> (r.Some? <==> Satisfies(rule, v, isoDate))
    ensures rule.DateRule? ==>
              (r.Some? <==> v.Text? && v.s != "" && (IsDigit4Pattern(v.s) || isoDate(v.s).Some?))
              && (r.Some? ==> r.value == if IsDigit4Pattern(v.s) then v else Text(isoDate(v.s).value))
    ensures rule.BooleanRule? ==> (r.Some? <==> AsBool(v).Some?) && (r.Some? ==> r.value == Bool(AsBool(v).value))
  {
    match rule
    case IntegerRule(min, max) =>
      var n := AsNumber(v, numeric);
      if n.Some? && Satisfies(rule, Number(n.value), isoDate) then Some(Number(n.value)) else None
    case NumberRule(_) =>
      var n := AsNumber(v, numeric);
      if n.Some? && Satisfies(rule, Number(n.value), isoDate) then Some(Number(n.value)) else None
    case TextRule(_, _) => if Satisfies(rule, v, isoDate) then Some(v) else None
    case DateRule =>
      if v.Text? && v.s != "" && IsDigit4Pattern(v.s) then Some(v)
      else if v.Text? && v.s != "" && isoDate(v.s).Some? then Some(Text(isoDate(v.s).value))
      else None
    case BooleanRule => var b := AsBool(v); if b.Some? then Some(Bool(b.value)) else None
  }

  // ---- One object against its schema

  /** A field fails when it is present and refused, or required and absent. */
  predicate Fails(f: Field, record: Record, numeric: NumericReader, isoDate: IsoDateReader) {
    if f.key in record then Check(f.rule, record[f.key], numeric, isoDate).None? else f.presence.Required?
  }

  /** What the field contributes to the validated object: the converted
      value, the default for an absent key, or nothing. */
  function FieldValue(f: Field, record: Record, numeric: NumericReader, isoDate: IsoDateReader): Option<Value> {
    if f.key in record then Check(f.rule, record[f.key], numeric, isoDate)
    else if f.presence.Default? then Some(f.presence.value)
    else None
  }

  /** The failing keys in schema order, and the validated object. */
  datatype Checked = Checked(failures: seq<string>, value: Record)

  predicate KeyFails(fields: ObjectSchema, k: string, record: Record, numeric: NumericReader, isoDate: IsoDateReader) {
    exists i :: 0 <= i < |fields| && fields[i].key == k && Fails(fields[i], record, numeric, isoDate)
  }

  predicate KeyKept(fields: ObjectSchema, k: string, record: Record, numeric: NumericReader, isoDate: IsoDateReader) {
    exists i :: 0 <= i < |fields| && fields[i].key == k && FieldValue(fields[i], record, numeric, isoDate).Some?
  }

  lemma DistinctTail(fields: ObjectSchema)
    requires |fields| >= 1 && DistinctKeys(fields)
    ensures DistinctKeys(fields[1..])
    ensures forall i :: 0 <= i < |fields[1..]| ==> fields[1..][i].key != fields[0].key
  {
    forall i, j | 0 <= i < j < |fields[1..]| ensures fields[1..][i].key != fields[1..][j].key {
      assert fields[1..][i] == fields[i + 1] && fields[1..][j] == fields[j + 1];
    }
    forall i | 0 <= i < |fields[1..]| ensures fields[1..][i].key != fields[0].key {
      assert fields[1..][i] == fields[i + 1];
    }
  }

  /** A key fails in a schema when it fails at its head or in the rest. */
  lemma KeyFailsCons(fields: ObjectSchema, k: string, record: Record, numeric: NumericReader, isoDate: IsoDateReader)
    requires |fields| >= 1
    ensures KeyFails(fields, k, record, numeric, isoDate) <==>
            (fields[0].key == k && Fails(fields[0], record, numeric, isoDate)) || KeyFails(fields[1..], k, record, numeric, isoDate)
  {
    if KeyFails(fields, k, record, numeric, isoDate) {
      var i :| 0 <= i < |fields| && fields[i].key == k && Fails(fields[i], record, numeric, isoDate);
      if i > 0 {
        assert fields[1..][i - 1] == fields[i];
      }
    }
    if KeyFails(fields[1..], k, record, numeric, isoDate) {
      var i :| 0 <= i < |fields[1..]| && fields[1..][i].key == k && Fails(fields[1..][i], record, numeric, isoDate);
      assert fields[i + 1] == fields[1..][i];
    }
  }

  /** A key is kept by a schema when its head or the rest keeps it. */
  lemma KeyKeptCons(fields: ObjectSchema, k: string, record: Record, numeric: NumericReader, isoDate: IsoDateReader)
    requires |fields| >= 1
    ensures KeyKept(fields, k, record, numeric, isoDate) <==>
            (fields[0].key == k && FieldValue(fields[0], record, numeric, isoDate).Some?)
            || KeyKept(fields[1..], k, record, numeric, isoDate)
  {
    if KeyKept(fields, k, record, numeric, isoDate) {
      var i :| 0 <= i < |fields| && fields[i].key == k && FieldValue(fields[i], record, numeric, isoDate).Some?;
      if i > 0 {
        assert fields[1..][i - 1] == fields[i];
      }
    }
    if KeyKept(fields[1..], k, record, numeric, isoDate) {
      var i :| 0 <= i < |fields[1..]| && fields[1..][i].key == k && FieldValue(fields[1..][i], record, numeric, isoDate).Some?;
      assert fields[i + 1] == fields[1..][i];
    }
  }

  /** `schema.validate(record, { abortEarly: false, stripUnknown: true,
      convert: true })`: every failing key is reported once, in schema
      order; the object holds exactly the known keys that have a value,
      each the field's converted value or its default, and no unknown key. */
  function ValidateObject(fields: ObjectSchema, record: Record, numeric: NumericReader, isoDate: IsoDateReader)
      : (r: Checked)
    requires DistinctKeys(fields)
    ensures |r.failures| <= |fields|
    ensures forall k :: k in r.failures <==> KeyFails(fields, k, record, numeric, isoDate)
    ensures forall k :: k in r.value <==> KeyKept(fields, k, record, numeric, isoDate)
    ensures forall i :: 0 <= i < |fields| && fields[i].key in r.value ==>
              Some(r.value[fields[i].key]) == FieldValue(fields[i], record, numeric, isoDate)
  {
    if fields == [] then Checked([], map[])
    else
      var f := fields[0];
      DistinctTail(fields);
      var rest := ValidateObject(fields[1..], record, numeric, isoDate);
      var failures := if Fails(f, record, numeric, isoDate) then [f.key] + rest.failures else rest.failures;
      var v := FieldValue(f, record, numeric, isoDate);
      var value := if v.Some? then rest.value[f.key := v.value] else rest.value;
      assert forall k :: k in failures <==> KeyFails(fields, k, record, numeric, isoDate) by {
        forall k ensures k in failures <==> KeyFails(fields, k, record, numeric, isoDate) {
          KeyFailsCons(fields, k, record, numeric, isoDate);
        }
      }
      assert forall k :: k in value <==> KeyKept(fields, k, record, numeric, isoDate) by {
        forall k ensures k in value <==> KeyKept(fields, k, record, numeric, isoDate) {
          KeyKeptCons(fields, k, record, numeric, isoDate);
        }
      }
      assert forall i :: 1 <= i < |fields| ==> fields[i] == fields[1..][i - 1];
      Checked(failures, value)
  }

  /** Validation succeeds exactly when no field fails; the failures are
      then none, and otherwise each failing key is reported. */
  lemma ValidObjectHasNoFailingKey(fields: ObjectSchema, record: Record, numeric: NumericReader, isoDate: IsoDateReader)
    requires DistinctKeys(fields)
    ensures ValidateObject(fields, record, numeric, isoDate).failures == [] <==>
            forall i :: 0 <= i < |fields| ==> !Fails(fields[i], record, numeric, isoDate)
  {
    var r := ValidateObject(fields, record, numeric, isoDate);
    if r.failures != [] {
      assert r.failures[0] in r.failures;
    }
    forall i | 0 <= i < |fields| && Fails(fields[i], record, numeric, isoDate) ensures r.failures != [] {
      assert KeyFails(fields, fields[i].key, record, numeric, isoDate);
    }
  }

  /** On success a required key is always in the validated object, and a
      kept value satisfies its field's rule (or is the field's default). */
  lemma ValidObjectFields(fields: ObjectSchema, record: Record, numeric: NumericReader, isoDate: IsoDateReader, i: int)
    requires DistinctKeys(fields) && 0 <= i < |fields|
    requires ValidateObject(fields, record, numeric, isoDate).failures == []
    ensures var value := ValidateObject(fields, record, numeric, isoDate).value;
            && (fields[i].key in value <==> fields[i].key in record || !fields[i].presence.Optional?)
            && (fields[i].key in record ==> Satisfies(fields[i].rule, value[fields[i].key], isoDate))
            && (fields[i].key !in record && fields[i].presence.Default? ==> value[fields[i].key] == fields[i].presence.value)
  {
    ValidObjectHasNoFailingKey(fields, record, numeric, isoDate);
    assert !Fails(fields[i], record, numeric, isoDate);
    if fields[i].key in record || fields[i].presence.Default? {
      assert KeyKept(fields, fields[i].key, record, numeric, isoDate);
    }
  }

  /** Every default passes its own field's rule. */
  predicate DefaultsConform(fields: ObjectSchema, isoDate: IsoDateReader) {
    forall i :: 0 <= i < |fields| && fields[i].presence.Default? ==> Satisfies(fields[i].rule, fields[i].presence.value, isoDate)
  }

  /** One field of a validated object, validated again: it does not fail,
      and it yields the value it holds, or nothing when it holds none. */
  lemma RevalidateField(fields: ObjectSchema, record: Record, numeric: NumericReader, isoDate: IsoDateReader, i: int)
    requires DistinctKeys(fields) && DefaultsConform(fields, isoDate) && 0 <= i < |fields|
    requires ValidateObject(fields, record, numeric, isoDate).failures == []
    ensures var v := ValidateObject(fields, record, numeric, isoDate).value;
            && !Fails(fields[i], v, numeric, isoDate)
            && (fields[i].key in v ==> FieldValue(fields[i], v, numeric, isoDate) == Some(v[fields[i].key]))
            && (fields[i].key !in v ==> FieldValue(fields[i], v, numeric, isoDate).None?)
  {
    var v := ValidateObject(fields, record, numeric, isoDate).value;
    ValidObjectFields(fields, record, numeric, isoDate, i);
    var k := fields[i].key;
    ValidObjectHasNoFailingKey(fields, record, numeric, isoDate);
    assert k in record || fields[i].presence.Default? ==> KeyKept(fields, k, record, numeric, isoDate);
    if k in v {
      assert Some(v[k]) == FieldValue(fields[i], record, numeric, isoDate);
      assert Satisfies(fields[i].rule, v[k], isoDate);
    }
  }

  /** A key is in a validated object, validated again, exactly when it was
      in the object, and with the same value. */
  lemma RevalidateKey(fields: ObjectSchema, record: Record, numeric: NumericReader, isoDate: IsoDateReader, k: string)
    requires DistinctKeys(fields) && DefaultsConform(fields, isoDate)
    requires ValidateObject(fields, record, numeric, isoDate).failures == []
    ensures var v := ValidateObject(fields, record, numeric, isoDate).value;
            var w := ValidateObject(fields, v, numeric, isoDate).value;
            (k in w <==> k in v) && (k in v ==> w[k] == v[k])
  {
    var v := ValidateObject(fields, record, numeric, isoDate).value;
    var w := ValidateObject(fields, v, numeric, isoDate).value;
    if k in v {
      assert KeyKept(fields, k, record, numeric, isoDate);
      var i :| 0 <= i < |fields| && fields[i].key == k && FieldValue(fields[i], record, numeric, isoDate).Some?;
      RevalidateField(fields, record, numeric, isoDate, i);
      assert KeyKept(fields, k, v, numeric, isoDate);
    }
    if k in w {
      var i :| 0 <= i < |fields| && fields[i].key == k && FieldValue(fields[i], v, numeric, isoDate).Some?;
      RevalidateField(fields, record, numeric, isoDate, i);
    }
  }

  /** A validated object, validated again, keeps the same keys with the
      same values. */
  lemma RevalidateEntries(fields: ObjectSchema, record: Record, numeric: NumericReader, isoDate: IsoDateReader)
    requires DistinctKeys(fields) && DefaultsConform(fields, isoDate)
    requires ValidateObject(fields, record, numeric, isoDate).failures == []
    ensures var v := ValidateObject(fields, record, numeric, isoDate).value;
            ValidateObject(fields, v, numeric, isoDate).value == v
  {
    var v := ValidateObject(fields, record, numeric, isoDate).value;
    var w := ValidateObject(fields, v, numeric, isoDate).value;
    forall k ensures (k in w <==> k in v) && (k in v ==> w[k] == v[k]) {
      RevalidateKey(fields, record, numeric, isoDate, k);
    }
  }

  /** Validating what validation produced changes nothing: the object the
      middleware leaves on the request passes the same schema again, as it
      is. */
  lemma ValidateIdempotent(fields: ObjectSchema, record: Record, numeric: NumericReader, isoDate: IsoDateReader)
    requires DistinctKeys(fields) && DefaultsConform(fields, isoDate)
    requires ValidateObject(fields, record, numeric, isoDate).failures == []
    ensures var v := ValidateObject(fields, record, numeric, isoDate).value;
            ValidateObject(fields, v, numeric, isoDate) == Checked([], v)
  {
    var v := ValidateObject(fields, record, numeric, isoDate).value;
    forall i | 0 <= i < |fields| ensures !Fails(fields[i], v, numeric, isoDate) {
      RevalidateField(fields, record, numeric, isoDate, i);
    }
    ValidObjectHasNoFailingKey(fields, v, numeric, isoDate);
    RevalidateEntries(fields, record, numeric, isoDate);
  }

  // ---- The request objects, rewritten in place

  /** A plain JavaScript object (`req.body`, `req.query`), shared by
      reference with the rest of the request's handling. */
  class JsObject {
    var entries: map<string, Value>

    constructor(entries: map<string, Value>)
      ensures this.entries == entries
    {
      this.entries := entries;
    }

    /** The loop over `Object.keys(current)` deleting each key the
        validated object lacks. */
    method DeleteKeysNotIn(next: Record)
      modifies this
      ensures forall k :: k in entries <==> k in old(entries) && k in next
      ensures forall k :: k in entries ==> entries[k] == old(entries)[k]
    {
      var keys := entries.Keys;
      while keys != {}
        invariant forall k :: k in entries <==> k in old(entries) && (k in keys || k in next)
        invariant forall k :: k in entries ==> entries[k] == old(entries)[k]
        decreases keys
      {
        var k :| k in keys;
        if k !in next {
          entries := entries - {k};
        }
        keys := keys - {k};
      }
    }

    /** `Object.assign(current, next)`. */
    method Assign(next: Record)
      modifies this
      ensures entries == old(entries) + next
    {
      entries := entries + next;
    }

    /** The delete loop followed by the assignment: the object ends up
        holding exactly the validated keys and values. */
    method ReplaceWith(next: Record)
      modifies this
      ensures entries == next
    {
      DeleteKeysNotIn(next);
      Assign(next);
      assert entries.Keys == next.Keys;
    }
  }

  // ---- The middleware

  /** `{ body?, query? }`: the schemas of the two request parts. */
  datatype SchemaDef = SchemaDef(body: Option<ObjectSchema>, query: Option<ObjectSchema>)

  predicate WellFormed(def: SchemaDef) {
    (def.body.Some? ==> DistinctKeys(def.body.value)) && (def.query.Some? ==> DistinctKeys(def.query.value))
  }

  /** A part without a schema is stripped from the composed result and
      reports nothing. */
  function PartCheck(schema: Option<ObjectSchema>, part: Record, numeric: NumericReader, isoDate: IsoDateReader)
      : (r: Checked)
    requires schema.Some? ==> DistinctKeys(schema.value)
    ensures schema.None? ==> r.failures == []
  {
    if schema.None? then Checked([], map[]) else ValidateObject(schema.value, part, numeric, isoDate)
  }

  /** The details of the composed validation: the body's failures, then the query's. */
  function Details(def: SchemaDef, body: Record, query: Record, numeric: NumericReader, isoDate: IsoDateReader)
      : seq<string>
    requires WellFormed(def)
  {
    PartCheck(def.body, body, numeric, isoDate).failures + PartCheck(def.query, query, numeric, isoDate).failures
  }

  datatype Outcome = BadRequest(status: Status, details: seq<string>) | Next

  /** `validate(schema)`: 400 with one detail per failing key of either part,
      leaving both objects as they were and not calling `next`; otherwise
      each part that has a schema is rewritten in place to exactly its
      validated object, a part without one is untouched, and `next` runs. */
  method Validate(def: SchemaDef, body: JsObject, query: JsObject, numeric: NumericReader, isoDate: IsoDateReader)
      returns (r: Outcome)
    requires WellFormed(def) && body != query
    modifies body, query
    ensures r.BadRequest? <==> Details(def, old(body.entries), old(query.entries), numeric, isoDate) != []
    ensures r.BadRequest? ==>
              && r == BadRequest(BAD_REQUEST, Details(def, old(body.entries), old(query.entries), numeric, isoDate))
              && body.entries == old(body.entries) && query.entries == old(query.entries)
    ensures r.Next? ==>
              && body.entries == (if def.body.Some? then ValidateObject(def.body.value, old(body.entries), numeric, isoDate).value
                                  else old(body.entries))
              && query.entries == (if def.query.Some? then ValidateObject(def.query.value, old(query.entries), numeric, isoDate).value
                                   else old(query.entries))
  {
    var b := PartCheck(def.body, body.entries, numeric, isoDate);
    var q := PartCheck(def.query, query.entries, numeric, isoDate);
    if b.failures + q.failures != [] {
      return BadRequest(BAD_REQUEST, b.failures + q.failures);
    }
    assert b.failures == [] && q.failures == [] by {
      assert |b.failures + q.failures| == |b.failures| + |q.failures|;
    }
    if def.body.Some? {
      body.ReplaceWith(b.value);
    }
    if def.query.Some? {
      query.ReplaceWith(q.value);
    }
    r := Next;
  }

  // ---- The route schemas

  /** `transactions.list` query. */
  const LIST_QUERY: ObjectSchema := [
    Field("groupId", IntegerRule(None, None), Required),
    Field("limit", IntegerRule(Some(1), Some(200)), Default(Number(50.0))),
    Field("page", IntegerRule(Some(1), None), Default(Number(1.0)))
  ]

  /** `transactions.create` body. */
  const CREATE_BODY: ObjectSchema := [
    Field("groupId", IntegerRule(None, None), Required),
    Field("type", TextRule(0, ["income", "expense"]), Required),
    Field("amount", NumberRule(1), Required),
    Field("description", TextRule(1, []), Required),
    Field("date", DateRule, Required),
    Field("receiptUrl", TextRule(0, []), Optional)
  ]

  /** `transactions.update` body: the same rules with everything but the group optional. */
  const UPDATE_BODY: ObjectSchema := [
    Field("groupId", IntegerRule(None, None), Required),
    Field("type", TextRule(0, ["income", "expense"]), Optional),
    Field("amount", NumberRule(1), Optional),
    Field("description", TextRule(1, []), Optional),
    Field("date", DateRule, Optional),
    Field("receiptUrl", TextRule(0, []), Optional)
  ]

  /** `transactions.delete`, `dues.list` query. */
  const GROUP_QUERY: ObjectSchema := [Field("groupId", IntegerRule(None, None), Required)]

  /** `uploads.presignPut` body. */
  const PRESIGN_PUT_BODY: ObjectSchema := [
    Field("filename", TextRule(1, []), Required),
    Field("contentType", TextRule(1, []), Required)
  ]

  /** `uploads.presignGet` query. */
  const PRESIGN_GET_QUERY: ObjectSchema := [Field("key", TextRule(1, []), Required)]

  /** `dues.update` body. */
  const DUES_UPDATE_BODY: ObjectSchema := [
    Field("groupId", IntegerRule(None, None), Required),
    Field("userId", IntegerRule(None, None), Required),
    Field("isPaid", BooleanRule, Required)
  ]

  /** `invitations.accept` body. */
  const ACCEPT_BODY: ObjectSchema := [Field("code", TextRule(4, []), Required)]

  /** `groups.create` body. */
  const GROUP_CREATE_BODY: ObjectSchema := [Field("name", TextRule(1, []), Required)]

  lemma ListQueryWellFormed()
    ensures DistinctKeys(LIST_QUERY) && DefaultsConform(LIST_QUERY, (s: string) => None)
  {
    assert "groupId"[0] == 'g' && "limit"[0] == 'l' && "page"[0] == 'p';
  }

  /** `transactions.list`: on success the query holds exactly `groupId`,
      `limit` and `page`, and nothing else. */
  lemma ListQueryKeys(record: Record, numeric: NumericReader, isoDate: IsoDateReader)
    requires (ListQueryWellFormed(); ValidateObject(LIST_QUERY, record, numeric, isoDate).failures == [])
    ensures (ListQueryWellFormed(); var v := ValidateObject(LIST_QUERY, record, numeric, isoDate).value;
             forall k :: k in v <==> k == "groupId" || k == "limit" || k == "page")
  {
    ListQueryWellFormed();
    var v := ValidateObject(LIST_QUERY, record, numeric, isoDate).value;
    ValidObjectFields(LIST_QUERY, record, numeric, isoDate, 0);
    ValidObjectFields(LIST_QUERY, record, numeric, isoDate, 1);
    ValidObjectFields(LIST_QUERY, record, numeric, isoDate, 2);
    forall k | k in v ensures k == "groupId" || k == "limit" || k == "page" {
      assert KeyKept(LIST_QUERY, k, record, numeric, isoDate);
    }
  }

  /** `transactions.list`: on success `groupId` is an integer, `limit` an
      integer from 1 to 200 that is 50 when not given, and `page` an integer
      of at least 1 that is 1 when not given. */
  lemma ListQueryBounds(record: Record, numeric: NumericReader, isoDate: IsoDateReader)
    requires (ListQueryWellFormed(); ValidateObject(LIST_QUERY, record, numeric, isoDate).failures == [])
    ensures (ListQueryWellFormed(); var v := ValidateObject(LIST_QUERY, record, numeric, isoDate).value;
             && "groupId" in v && "limit" in v && "page" in v
             && v["groupId"].Number? && IsInteger(v["groupId"].x)
             && v["limit"].Number? && IsInteger(v["limit"].x) && 1.0 <= v["limit"].x <= 200.0
             && v["page"].Number? && IsInteger(v["page"].x) && 1.0 <= v["page"].x
             && ("limit" !in record ==> v["limit"] == Number(50.0))
             && ("page" !in record ==> v["page"] == Number(1.0)))
  {
    ListQueryWellFormed();
    ValidObjectFields(LIST_QUERY, record, numeric, isoDate, 0);
    ValidObjectFields(LIST_QUERY, record, numeric, isoDate, 1);
    ValidObjectFields(LIST_QUERY, record, numeric, isoDate, 2);
  }

  lemma CreateBodyWellFormed()
    ensures DistinctKeys(CREATE_BODY)
  {
    assert "groupId"[0] == 'g' && "type"[0] == 't' && "amount"[0] == 'a' && "receiptUrl"[0] == 'r';
    assert "description"[1] == 'e' && "date"[1] == 'a' && "description"[0] == 'd' && "date"[0] == 'd';
  }

  /** `transactions.create`: on success the body has an integer `groupId`,
      a `type` of `income` or `expense`, an `amount` of at least 1, a
      non-empty `description`, and a `date` that is `YYYY-MM-DD` or an ISO
      8601 date. */
  lemma CreateBodyBounds(record: Record, numeric: NumericReader, isoDate: IsoDateReader)
    requires (CreateBodyWellFormed(); ValidateObject(CREATE_BODY, record, numeric, isoDate).failures == [])
    ensures (CreateBodyWellFormed(); var v := ValidateObject(CREATE_BODY, record, numeric, isoDate).value;
             && "groupId" in v && v["groupId"].Number? && IsInteger(v["groupId"].x)
             && "type" in v && (v["type"] == Text("income") || v["type"] == Text("expense"))
             && "amount" in v && v["amount"].Number? && 1.0 <= v["amount"].x
             && "description" in v && v["description"].Text? && v["description"].s != ""
             && "date" in v && v["date"].Text? && (IsDigit4Pattern(v["date"].s) || isoDate(v["date"].s) == Some(v["date"].s)))
  {
    CreateBodyWellFormed();
    ValidObjectFields(CREATE_BODY, record, numeric, isoDate, 0);
    ValidObjectFields(CREATE_BODY, record, numeric, isoDate, 1);
    ValidObjectFields(CREATE_BODY, record, numeric, isoDate, 2);
    ValidObjectFields(CREATE_BODY, record, numeric, isoDate, 3);
    ValidObjectFields(CREATE_BODY, record, numeric, isoDate, 4);
  }

  /** A body without an amount is refused, and `amount` is among the details. */
  lemma CreateBodyNeedsAmount(record: Record, numeric: NumericReader, isoDate: IsoDateReader)
    requires "amount" !in record
    ensures (CreateBodyWellFormed(); "amount" in ValidateObject(CREATE_BODY, record, numeric, isoDate).failures)
  {
    CreateBodyWellFormed();
    assert Fails(CREATE_BODY[2], record, numeric, isoDate);
  }

  /** A JSON amount beyond the safe integers is refused at validation
      (`number.unsafe`), however large the amount's minimum allows. */
  lemma CreateBodyUnsafeAmount(record: Record, numeric: NumericReader, isoDate: IsoDateReader)
    requires "amount" in record && record["amount"].Number? && !IsSafeNumber(record["amount"].x)
    ensures (CreateBodyWellFormed(); "amount" in ValidateObject(CREATE_BODY, record, numeric, isoDate).failures)
  {
    CreateBodyWellFormed();
    assert Fails(CREATE_BODY[2], record, numeric, isoDate);
  }

  /** `dues.update`: on success `isPaid` is a boolean. */
  lemma DuesUpdateBounds(record: Record, numeric: NumericReader, isoDate: IsoDateReader)
    requires DistinctKeys(DUES_UPDATE_BODY) && ValidateObject(DUES_UPDATE_BODY, record, numeric, isoDate).failures == []
    ensures var v := ValidateObject(DUES_UPDATE_BODY, record, numeric, isoDate).value;
            "isPaid" in v && v["isPaid"].Bool?
  {
    ValidObjectFields(DUES_UPDATE_BODY, record, numeric, isoDate, 2);
  }

  /** `invitations.accept`: on success the code has at least 4 characters. */
  lemma AcceptBodyBounds(record: Record, numeric: NumericReader, isoDate: IsoDateReader)
    requires ValidateObject(ACCEPT_BODY, record, numeric, isoDate).failures == []
    ensures var v := ValidateObject(ACCEPT_BODY, record, numeric, isoDate).value;
            "code" in v && v["code"].Text? && |v["code"].s| >= 4
  {
    ValidObjectFields(ACCEPT_BODY, record, numeric, isoDate, 0);
  }
}

