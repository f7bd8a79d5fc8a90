/**
 * The declarations of WebAPI.h: the value kinds a keyword can expose, the
 * keyword-table entry, and the response the dispatcher returns.
 *
 * The header binds each entry to its variable through a `void *` and a kind
 * tag, and leaves it to the caller to make them agree. Here a variable holds
 * a `Value`, a tagged union whose constructor is its kind, and the table's
 * validity condition (WebApi.WebAPI.Valid) states the agreement.
 */
module WebApiTypes {
  import opened ArduinoString

  /** `valueTypes`: exactly five kinds. */
  datatype ValueType = PBool | PUInt | PInt | PFloat | PString

  /** The number the enumeration gives each kind, which is what the
      `uint8_t valueType` field of an entry holds. */
  function KindCode(t: ValueType): (n: UInt8)
    ensures n < 5
  {
    match t
    case PBool => 0
    case PUInt => 1
    case PInt => 2
    case PFloat => 3
    case PString => 4
  }

  /** The kind a `uint8_t` tag names: none for a number past the last
      enumerator, which no switch on the tag handles. */
  function KindOfCode(n: UInt8): (t: Option<ValueType>)
    ensures t.None? <==> n >= 5
    ensures t.Some? ==> KindCode(t.value) == n
  {
    if n == 0 then Some(PBool)
    else if n == 1 then Some(PUInt)
    else if n == 2 then Some(PInt)
    else if n == 3 then Some(PFloat)
    else if n == 4 then Some(PString)
    else None
  }

  /** Every kind survives the trip through its tag. */
  lemma KindCodeRoundTrip(t: ValueType)
    ensures KindOfCode(KindCode(t)) == Some(t)
  {
  }

  /** The bits of an IEEE single; the dispatcher never looks inside one. */
  type Float32 = bv32

  /** The current content of a user variable, tagged with its kind. */
  datatype Value =
    | BoolValue(b: bool)
    | UIntValue(u: UInt32)
    | IntValue(i: Int32)
    | FloatValue(f: Float32)
    | StringValue(s: string)
  {
    function Type(): ValueType
    {
      match this
      case BoolValue(_) => PBool
      case UIntValue(_) => PUInt
      case IntValue(_) => PInt
      case FloatValue(_) => PFloat
      case StringValue(_) => PString
    }
  }

  /** A user variable the table points at. It belongs to the application;
      the dispatcher reads it and overwrites it. */
  class Variable {
    var value: Value

    constructor (value: Value)
      ensures this.value == value
    {
      this.value := value;
    }
  }

  /** The identity of an `onSetCallback` function; its body is foreign code. */
  type CallbackId = string

  datatype Option<T> = None | Some(value: T)

  /** `apiKeyword`: one row of the keyword table. */
  datatype ApiKeyword = ApiKeyword(
    requestKeyword: string,
    htmlPlaceholder: string,
    valueType: ValueType,
    valuePointer: Variable,
    callback: Option<CallbackId>)

  /** `apiResponse`: a 16-bit status code and a text body. */
  datatype ApiResponse = ApiResponse(responseCode: UInt16, responseText: string)

  const NotFoundReply := ApiResponse(404, "Not found")
  const OkReply := ApiResponse(200, "Ok")
}
