/**
 * What the loggers do to a log call's extra data before handing it to the
 * logging library. Both the Winston and the Pino logger share this code: the
 * metadata is copied and five sensitive keys are masked, and an error is
 * turned into plain fields, which the metadata then overrides.
 */
module Logging {
  import opened Wrappers
  import opened Decimal

  /** The JavaScript values a log call can carry; numbers are taken to be integers. */
  datatype JsValue =
    | Undefined
    | Null
    | Bool(b: bool)
    | Number(n: int)
    | Str(s: string)
    | Obj(fields: map<string, JsValue>)
    | Error(name: string, message: string, stack: Option<string>, cause: JsValue)

  predicate Truthy(v: JsValue) {
    match v
    case Undefined => false
    case Null => false
    case Bool(b) => b
    case Number(n) => n != 0
    case Str(s) => s != ""
    case Obj(_) => true
    case Error(_, _, _, _) => true
  }

  /** `String(v)` for the values that reach it: truthy values that are not errors. */
  function JsString(v: JsValue): string {
    match v
    case Bool(b) => if b then "true" else "false"
    case Number(n) => IntToString(n)
    case Str(s) => s
    case Undefined => "undefined"
    case Null => "null"
    case Obj(_) => "[object Object]"
    case Error(name, message, _, _) => name + ": " + message
  }

  const Redaction := Str("[REDACTED]")
  const SensitiveKeys := ["password", "token", "secret", "key", "authorization"]

  /** The metadata with every sensitive key that is present masked. */
  function Redacted(meta: map<string, JsValue>): map<string, JsValue> {
    map k | k in meta :: if k in SensitiveKeys then Redaction else meta[k]
  }

  /** `sanitizeMeta(meta)` as a value; `None` stands for a missing argument. */
  function Sanitized(meta: Option<map<string, JsValue>>): map<string, JsValue> {
    match meta
    case None => map[]
    case Some(m) => Redacted(m)
  }

  /**
   * Copies the metadata and masks each sensitive key it holds. Nothing is
   * masked in the caller's map, which is a value here.
   */
  method SanitizeMeta(meta: Option<map<string, JsValue>>) returns (sanitized: map<string, JsValue>)
    ensures sanitized.Keys == (if meta.None? then {} else meta.value.Keys)
    ensures meta.Some? ==> forall k :: k in sanitized ==>
              sanitized[k] == (if k in SensitiveKeys then Redaction else meta.value[k])
    ensures sanitized == Sanitized(meta)
  {
    if meta.None? {
      return map[];
    }
    sanitized := meta.value;
    for i := 0 to |SensitiveKeys|
      invariant sanitized.Keys == meta.value.Keys
      invariant forall k :: k in sanitized ==>
                  sanitized[k] == (if k in SensitiveKeys[..i] then Redaction else meta.value[k])
    {
      var key := SensitiveKeys[i];
      if key in sanitized {
        sanitized := sanitized[key := Redaction];
      }
      assert SensitiveKeys[..i + 1] == SensitiveKeys[..i] + [key];
    }
    assert SensitiveKeys[..|SensitiveKeys|] == SensitiveKeys;
  }

  /**
   * Sanitizing keeps exactly the keys it was given, masks each present
   * sensitive key (case-sensitively) and leaves every other value alone;
   * missing metadata gives an empty map.
   */
  lemma SanitizedShape(meta: Option<map<string, JsValue>>)
    ensures meta.None? ==> Sanitized(meta) == map[]
    ensures meta.Some? ==>
              Sanitized(meta).Keys == meta.value.Keys &&
              (forall k :: k in meta.value && k in SensitiveKeys ==> Sanitized(meta)[k] == Redaction) &&
              (forall k :: k in meta.value && k !in SensitiveKeys ==> Sanitized(meta)[k] == meta.value[k])
    ensures meta == Some(map["Password" := Str("p")]) ==> Sanitized(meta) == map["Password" := Str("p")]
  {
    if meta == Some(map["Password" := Str("p")]) {
      assert "Password" !in SensitiveKeys;
    }
  }

  /** Sanitizing sanitized metadata changes nothing. */
  lemma SanitizeIdempotent(meta: Option<map<string, JsValue>>)
    ensures Sanitized(Some(Sanitized(meta))) == Sanitized(meta)
  {
  }

  /** `formatError(error)`: no fields for a falsy error, the error's fields for an Error, its text otherwise. */
  function FormatError(error: JsValue): map<string, JsValue> {
    if !Truthy(error) then map[]
    else match error
      case Error(name, message, stack, cause) =>
        var fields := map["name" := Str(name), "message" := Str(message),
                          "stack" := if stack.Some? then Str(stack.value) else Undefined];
        if Truthy(cause) then map["error" := Obj(fields["cause" := cause])]
        else map["error" := Obj(fields)]
      case _ => map["error" := Str(JsString(error))]
  }

  /**
   * A falsy error adds nothing; any other error adds the one field `error`,
   * which for an Error holds its name, message and stack, and its cause only
   * when the cause is truthy, and for anything else holds its text.
   */
  lemma FormatErrorShape(error: JsValue)
    ensures !Truthy(error) <==> FormatError(error) == map[]
    ensures Truthy(error) ==> FormatError(error).Keys == {"error"}
    ensures error.Error? ==>
              FormatError(error)["error"].Obj? &&
              var fields := FormatError(error)["error"].fields;
              fields.Keys == {"name", "message", "stack"} + (if Truthy(error.cause) then {"cause"} else {}) &&
              fields["name"] == Str(error.name) && fields["message"] == Str(error.message) &&
              fields["stack"] == (if error.stack.Some? then Str(error.stack.value) else Undefined) &&
              ("cause" in fields ==> fields["cause"] == error.cause)
    ensures Truthy(error) && !error.Error? ==> FormatError(error)["error"] == Str(JsString(error))
  {
  }

  /** The object `error(message, error, meta)` logs: `{...errorMeta, ...sanitizeMeta(meta)}`. */
  function ErrorEntry(error: JsValue, meta: Option<map<string, JsValue>>): map<string, JsValue> {
    FormatError(error) + Sanitized(meta)
  }

  /**
   * An error entry holds the keys of both parts; where they share a key the
   * sanitized metadata wins, so metadata carrying an `error` key hides the
   * formatted error, and sensitive keys stay masked.
   */
  lemma ErrorEntryMerge(error: JsValue, meta: Option<map<string, JsValue>>)
    ensures var entry := ErrorEntry(error, meta);
            entry.Keys == FormatError(error).Keys + Sanitized(meta).Keys &&
            (forall k :: k in Sanitized(meta) ==> entry[k] == Sanitized(meta)[k]) &&
            (forall k :: k in FormatError(error) && k !in Sanitized(meta) ==> entry[k] == FormatError(error)[k]) &&
            (forall k :: k in entry && k in SensitiveKeys && meta.Some? && k in meta.value ==> entry[k] == Redaction)
  {
  }
}
