/**
 * WebAPI.cpp: the keyword-table dispatcher.
 *
 * A request token `name` reads a variable and `name=value` writes one; the
 * entry is the first one in table order whose request keyword occurs
 * anywhere inside `name`. The HTML template processor looks up placeholder
 * names the same way and renders the variable as a read would.
 */
module WebApi {
  import opened ArduinoString
  import opened WebApiTypes

  // ---------------------------------------------------------------------------
  // Lookup: first entry whose name occurs in the token
  // ---------------------------------------------------------------------------

  /** Which of an entry's two names a lookup compares against the token. */
  datatype NameField = RequestKeyword | HtmlPlaceholder

  function NameOf(e: ApiKeyword, field: NameField): string
  {
    match field
    case RequestKeyword => e.requestKeyword
    case HtmlPlaceholder => e.htmlPlaceholder
  }

  /** The test of WebAPI.cpp:137 and :161, `token.indexOf(name) >= 0`. */
  predicate Matches(token: string, e: ApiKeyword, field: NameField)
  {
    Contains(token, NameOf(e, field))
  }

  /** The scan of the lookup loops from entry `from` on. */
  function FirstMatchFrom(entries: seq<ApiKeyword>, field: NameField, token: string, from: nat): (r: int)
    requires from <= |entries|
    ensures r == -1 || (from <= r < |entries| && Matches(token, entries[r], field))
    decreases |entries| - from
  {
    if from == |entries| then -1
    else if Matches(token, entries[from], field) then from
    else FirstMatchFrom(entries, field, token, from + 1)
  }

  /** The scan skips no matching entry. */
  lemma {:induction false} FirstMatchFromIsFirst(entries: seq<ApiKeyword>, field: NameField, token: string, from: nat)
    requires from <= |entries|
    ensures FirstMatchFrom(entries, field, token, from) >= 0 ==>
              forall j :: from <= j < FirstMatchFrom(entries, field, token, from) ==> !Matches(token, entries[j], field)
    ensures FirstMatchFrom(entries, field, token, from) == -1 ==>
              forall j :: from <= j < |entries| ==> !Matches(token, entries[j], field)
    decreases |entries| - from
  {
    if from < |entries| && !Matches(token, entries[from], field) {
      FirstMatchFromIsFirst(entries, field, token, from + 1);
    }
  }

  /** The index of the first entry whose name occurs in `token`, or -1. */
  function FirstMatch(entries: seq<ApiKeyword>, field: NameField, token: string): (r: int)
    ensures -1 <= r < |entries|
    ensures r >= 0 ==> Matches(token, entries[r], field)
  {
    FirstMatchFrom(entries, field, token, 0)
  }

  /** `FirstMatch` picks the first matching entry in table order, and
      reports -1 exactly when no entry matches. */
  lemma FirstMatchIsFirst(entries: seq<ApiKeyword>, field: NameField, token: string)
    ensures FirstMatch(entries, field, token) >= 0 ==>
              forall j :: 0 <= j < FirstMatch(entries, field, token) ==> !Matches(token, entries[j], field)
    ensures FirstMatch(entries, field, token) == -1 <==>
              forall j :: 0 <= j < |entries| ==> !Matches(token, entries[j], field)
  {
    FirstMatchFromIsFirst(entries, field, token, 0);
  }

  /** An entry is found by its own name unless an earlier entry's name occurs
      inside that name; an empty name is never found by itself. */
  lemma OwnNameFindsEntry(entries: seq<ApiKeyword>, field: NameField, k: nat)
    requires k < |entries|
    requires NameOf(entries[k], field) != []
    requires forall j :: 0 <= j < k ==> !Contains(NameOf(entries[k], field), NameOf(entries[j], field))
    ensures FirstMatch(entries, field, NameOf(entries[k], field)) == k
  {
    ContainsSelf(NameOf(entries[k], field));
    FirstMatchIsFirst(entries, field, NameOf(entries[k], field));
  }

  /** The overlap hazard: an entry declared after one whose name occurs inside
      its own name (`led` before `ledColor`) is never selected, by any token. */
  lemma ShadowedEntryIsUnreachable(entries: seq<ApiKeyword>, field: NameField, j: nat, k: nat, token: string)
    requires j < k < |entries|
    requires Contains(NameOf(entries[k], field), NameOf(entries[j], field))
    ensures FirstMatch(entries, field, token) != k
  {
    if FirstMatch(entries, field, token) == k {
      FirstMatchIsFirst(entries, field, token);
      ContainsTransitive(token, NameOf(entries[k], field), NameOf(entries[j], field));
      assert false;
    }
  }

  /** The empty token matches no entry, not even one with an empty name. */
  lemma EmptyTokenMatchesNothing(entries: seq<ApiKeyword>, field: NameField)
    ensures FirstMatch(entries, field, []) == -1
  {
    FirstMatchIsFirst(entries, field, []);
  }

  /** An entry with an empty name catches every non-empty token that no
      earlier entry claims. */
  lemma EmptyNameMatchesNonEmptyTokens(entries: seq<ApiKeyword>, field: NameField, k: nat, token: string)
    requires k < |entries| && NameOf(entries[k], field) == []
    requires token != []
    ensures 0 <= FirstMatch(entries, field, token) <= k
  {
    IndexOfIsFirst(token, []);
    assert OccursAt(token, [], 0);
    assert Matches(token, entries[k], field);
    FirstMatchIsFirst(entries, field, token);
  }

  // ---------------------------------------------------------------------------
  // Splitting a request token at its first '='
  // ---------------------------------------------------------------------------

  datatype Request = GetRequest(keyword: string) | SetRequest(keyword: string, value: string)

  lemma IndexOfEquals(url: string)
    ensures IndexOf(url, "=") >= 0 <==> '=' in url
    ensures IndexOf(url, "=") >= 0 ==> url[IndexOf(url, "=")] == '=' && '=' !in url[..IndexOf(url, "=")]
  {
    IndexOfIsFirst(url, "=");
    forall k | 0 <= k < |url| ensures OccursAt(url, "=", k) <==> url[k] == '=' {
      assert url[k..k + 1] == [url[k]];
    }
  }

  /** The decision of WebAPI.cpp:48-60: the keyword is everything before the
      first '=', the value everything after it. */
  function SplitRequest(url: string): (r: Request)
    ensures r.SetRequest? <==> '=' in url
    ensures r.GetRequest? ==> r.keyword == url
    ensures r.SetRequest? ==> url == r.keyword + "=" + r.value && '=' !in r.keyword
  {
    IndexOfEquals(url);
    var equalsIndex := IndexOf(url, "=");
    if equalsIndex >= 0 then SetRequest(url[..equalsIndex], url[equalsIndex + 1..])
    else GetRequest(url)
  }

  /** Splitting undoes joining: the split is determined by the keyword and
      value, whatever '=' characters the value holds. */
  lemma {:induction false} SplitRequestOfJoin(keyword: string, value: string)
    requires '=' !in keyword
    ensures SplitRequest(keyword + "=" + value) == SetRequest(keyword, value)
  {
    var url := keyword + "=" + value;
    IndexOfEquals(url);
    assert url[|keyword|] == '=';
    var r := SplitRequest(url);
    var n := |r.keyword|;
    assert r.keyword == url[..n] == keyword;
    assert r.value == url[n + 1..] == value;
  }

  /** In a set request only the text before the first '=' is searched: a
      name that occurs only in the value part selects nothing. */
  lemma NameOnlyInValueIsNotFound(entries: seq<ApiKeyword>, keyword: string, value: string, j: nat)
    requires '=' !in keyword
    requires j < |entries| && !Contains(keyword, entries[j].requestKeyword)
    ensures FirstMatch(entries, RequestKeyword, SplitRequest(keyword + "=" + value).keyword) != j
  {
    SplitRequestOfJoin(keyword, value);
  }

  // ---------------------------------------------------------------------------
  // Rendering and parsing values by kind
  // ---------------------------------------------------------------------------

  /** The text `String(x)` gives for the variable's value (WebAPI.cpp:212-228). */
  function Rendered(v: Value, floatText: Float32 -> string): (text: string)
    ensures v.BoolValue? ==> text == if v.b then "1" else "0"
    ensures v.BoolValue? || v.UIntValue? ==> text != [] && AllDigits(text)
    ensures v.IntValue? ==> text != [] && (text[0] == '-' <==> v.i < 0)
  {
    match v
    case BoolValue(b) => IntText(if b then 1 else 0)
    case UIntValue(u) => IntText(u)
    case IntValue(i) => IntText(i)
    case FloatValue(f) => floatText(f)
    case StringValue(s) => s
  }

  /** How each kind reads as text: a boolean as "1" or "0", an integer as
      decimal text that reads back as the same number (digits only for an
      unsigned one), a string verbatim. */
  lemma RenderedMeaning(v: Value, floatText: Float32 -> string)
    ensures v.BoolValue? ==> Rendered(v, floatText) == if v.b then "1" else "0"
    ensures v.UIntValue? ==> AllDigits(Rendered(v, floatText)) && LeadingNumber(Rendered(v, floatText)) == v.u
    ensures v.IntValue? ==> LeadingNumber(Rendered(v, floatText)) == v.i
    ensures v.StringValue? ==> Rendered(v, floatText) == v.s
  {
    match v
    case BoolValue(b) =>
      assert IntText(1) == "1" && IntText(0) == "0";
    case UIntValue(u) =>
      LeadingNumberOfIntText(u);
    case IntValue(i) =>
      LeadingNumberOfIntText(i);
    case FloatValue(_) =>
    case StringValue(_) =>
  }

  /** The value a set request stores for `text` (WebAPI.cpp:256-281), on a
      target whose `long` has width `width`. */
  function Parsed(t: ValueType, text: string, width: LongWidth, toFloat: string -> Float32): (v: Value)
    ensures v.Type() == t
  {
    match t
    case PBool => BoolValue(ReadLong(width, text) != 0)
    case PUInt => UIntValue(ToUInt32(ToInt32(ReadLong(width, text))))
    case PInt => IntValue(ToInt32(ToUInt32(ReadLong(width, text))))
    case PFloat => FloatValue(toFloat(text))
    case PString => StringValue(text)
  }

  /** What a boolean keeps of the text: true exactly when the text starts
      with a non-zero number, whatever the width of `long`. */
  lemma ParsedBoolMeaning(text: string, width: LongWidth, toFloat: string -> Float32)
    ensures Parsed(PBool, text, width, toFloat).b <==> LeadingNumber(text) != 0
  {
  }

  /** What an unsigned integer keeps of the text: the number `toInt()`
      returned, modulo 2^32. That is the number read when it fits both
      `long` and `uint32_t`; a number above the range of `long` is stored as
      the largest `long`, reduced modulo 2^32. */
  lemma ParsedUIntMeaning(text: string, width: LongWidth, toFloat: string -> Float32)
    ensures (Parsed(PUInt, text, width, toFloat).u - ReadLong(width, text)) % TWO_32 == 0
    ensures 0 <= LeadingNumber(text) <= LongMax(width) && LeadingNumber(text) < TWO_32 ==>
              Parsed(PUInt, text, width, toFloat).u == LeadingNumber(text)
    ensures LeadingNumber(text) > LongMax(width) ==>
              Parsed(PUInt, text, width, toFloat).u == ToUInt32(LongMax(width))
  {
    UIntThroughInt32Cast(ReadLong(width, text));
    UIntThroughInt32Cast(LongMax(width));
  }

  /** What a signed integer keeps of the text: the number `toInt()`
      returned, modulo 2^32, and exactly the number read when it fits
      `int32_t`. Where `long` is 32 bits nothing wraps: the value stored is
      the one `toInt()` returned. */
  lemma ParsedIntMeaning(text: string, width: LongWidth, toFloat: string -> Float32)
    ensures (Parsed(PInt, text, width, toFloat).i - ReadLong(width, text)) % TWO_32 == 0
    ensures INT32_MIN <= LeadingNumber(text) <= INT32_MAX ==> Parsed(PInt, text, width, toFloat).i == LeadingNumber(text)
    ensures width == Long32 ==> Parsed(PInt, text, width, toFloat).i == ReadLong(width, text)
  {
    IntThroughUInt32Cast(ReadLong(width, text));
  }

  /** The values that a read followed by a write of the same text restores:
      every value but a float, except that where `long` is 32 bits an
      unsigned value above 2^31 - 1 does not survive. */
  predicate ReadsBack(v: Value, width: LongWidth)
  {
    !v.FloatValue? && (v.UIntValue? && width == Long32 ==> v.u <= INT32_MAX)
  }

  /** Writing back what a read returned restores the value exactly for the
      values `ReadsBack` admits; every other non-float value changes. */
  lemma RenderParseRoundTrip(v: Value, width: LongWidth, toFloat: string -> Float32, floatText: Float32 -> string)
    ensures ReadsBack(v, width) ==> Parsed(v.Type(), Rendered(v, floatText), width, toFloat) == v
    ensures !v.FloatValue? && !ReadsBack(v, width) ==> Parsed(v.Type(), Rendered(v, floatText), width, toFloat) != v
  {
    match v
    case FloatValue(_) =>
    case BoolValue(b) =>
      ReadLongOfIntText(width, if b then 1 else 0);
    case UIntValue(u) =>
      UIntReadBack(u, width);
    case IntValue(i) =>
      IntReadBack(i, width);
    case StringValue(s) =>
  }

  /** The decimal text of a `uint32_t` is stored back as the same number
      exactly when `long` can hold it. */
  lemma UIntReadBack(u: UInt32, width: LongWidth)
    ensures ToUInt32(ToInt32(ReadLong(width, IntText(u)))) == u <==> width == Long64 || u <= INT32_MAX
  {
    if width == Long64 || u <= INT32_MAX {
      ReadLongOfIntText(width, u);
      UInt32CastRoundTrip(u);
    } else {
      UIntRoundTripFailsOn32BitLong(u);
    }
  }

  /** The decimal text of an `int32_t` is stored back as the same number. */
  lemma IntReadBack(i: Int32, width: LongWidth)
    ensures ToInt32(ToUInt32(ReadLong(width, IntText(i)))) == i
  {
    ReadLongOfIntText(width, i);
    Int32CastRoundTrip(i);
  }

  /** Setting canonical text and reading it back gives the same text: for
      strings always, for integers when the text is the decimal form of a
      value that reads back. */
  lemma ParseRenderRoundTrip(t: ValueType, text: string, width: LongWidth,
                             toFloat: string -> Float32, floatText: Float32 -> string)
    requires t == PString
          || (t == PUInt && exists u: UInt32 :: text == IntText(u) && ReadsBack(UIntValue(u), width))
          || (t == PInt && exists i: Int32 :: text == IntText(i))
    ensures Rendered(Parsed(t, text, width, toFloat), floatText) == text
  {
    if t == PUInt {
      var u: UInt32 :| text == IntText(u) && ReadsBack(UIntValue(u), width);
      RenderParseRoundTrip(UIntValue(u), width, toFloat, floatText);
    } else if t == PInt {
      var i: Int32 :| text == IntText(i);
      RenderParseRoundTrip(IntValue(i), width, toFloat, floatText);
    }
  }

  lemma BoolReadsBackAsDigit(text: string, width: LongWidth, toFloat: string -> Float32, floatText: Float32 -> string)
    ensures Rendered(Parsed(PBool, text, width, toFloat), floatText) == if LeadingNumber(text) != 0 then "1" else "0"
  {
    ParsedBoolMeaning(text, width, toFloat);
    assert IntText(1) == "1" && IntText(0) == "0";
  }

  /** On the ESP32 `String::toInt()` returns a 32-bit `long`, so the decimal
      text of any `uint32_t` above 2^31 - 1 is stored as 2^31 - 1. */
  lemma UIntRoundTripFailsOn32BitLong(u: UInt32)
    requires u > INT32_MAX
    ensures ToUInt32(ToInt32(ToIntOn32BitLong(IntText(u)))) == INT32_MAX != u
  {
    LeadingNumberOfIntText(u);
    assert ToIntOn32BitLong(IntText(u)) == INT32_MAX;
    UIntThroughInt32Cast(INT32_MAX);
  }

  /** For a signed entry the two readings part on text above 2^31 - 1 that a
      64-bit number can hold: with a 32-bit `long` the entry receives
      2^31 - 1, with a 64-bit one the number wrapped into `int32_t`, so
      "2147483648" stores -2^31. */
  lemma IntTextAboveInt32Parts(n: int)
    requires INT32_MAX < n <= INT64_MAX
    ensures ToInt32(ToUInt32(ToIntOn32BitLong(IntText(n)))) == INT32_MAX
    ensures ToInt32(ToUInt32(ToInt(IntText(n)))) == ToInt32(n)
    ensures n == INT32_MAX + 1 ==> ToInt32(n) == INT32_MIN
  {
    LeadingNumberOfIntText(n);
    IntThroughUInt32Cast(INT32_MAX);
    IntThroughUInt32Cast(n);
  }

  // ---------------------------------------------------------------------------
  // The dispatcher
  // ---------------------------------------------------------------------------

  /** One invocation of an entry's `onSetCallback`, with the value its
      variable held when the callback ran. */
  datatype CallbackCall = Invoked(callback: CallbackId, observed: Value)

  /** The invocations a successful write makes: one when a callback is
      registered, none otherwise. */
  function CallbacksFired(callback: Option<CallbackId>, observed: Value): (calls: seq<CallbackCall>)
    ensures |calls| == if callback.Some? then 1 else 0
    ensures callback.Some? ==> calls[0] == Invoked(callback.value, observed)
  {
    if callback.Some? then [Invoked(callback.value, observed)] else []
  }

  class WebAPI {
    /** The application's keyword array and the number of entries in use. */
    const apiKeywords: array<ApiKeyword>
    const keywords: UInt8
    /** The width of `long` on the target, which bounds `String::toInt()`. */
    const longWidth: LongWidth
    /** `String::toFloat` and `String(float)`, supplied by the platform. */
    const toFloat: string -> Float32
    const floatText: Float32 -> string
    /** Every callback invocation so far, in order. */
    var callbackTrace: seq<CallbackCall>

    /** The user variables the table points at: the footprint of writes. */
    ghost const variables: set<Variable>
    /** For each variable of the footprint, an entry that points at it. */
    ghost const entryOf: Variable -> nat

    /** The `keywords` entries exist, their variables are in `variables`,
        and each entry's variable holds a value of the entry's declared kind. */
    ghost predicate Valid()
      reads apiKeywords, variables
    {
      && Covered()
      && forall i :: 0 <= i < keywords ==> apiKeywords[i].valuePointer.value.Type() == apiKeywords[i].valueType
    }

    /** The `keywords` entries exist and their variables are in `variables`. */
    ghost predicate Covered()
      reads apiKeywords
    {
      && keywords <= apiKeywords.Length
      && (forall i :: 0 <= i < keywords ==> apiKeywords[i].valuePointer in variables)
    }

    /** Every variable in `variables` is one an entry points at. It reads
        only the table, which no method writes, so once the constructor
        establishes it, it holds for the life of the object. */
    ghost predicate OnlyTableVariables()
      reads apiKeywords
    {
      && keywords <= apiKeywords.Length
      && forall x :: x in variables ==> entryOf(x) < keywords && apiKeywords[entryOf(x)].valuePointer == x
    }

    constructor (apiKeywords: array<ApiKeyword>, keywords: UInt8, longWidth: LongWidth,
                 toFloat: string -> Float32, floatText: Float32 -> string)
      requires keywords <= apiKeywords.Length
      requires forall i :: 0 <= i < keywords ==>
                 apiKeywords[i].valuePointer.value.Type() == apiKeywords[i].valueType
      ensures Valid() && OnlyTableVariables()
      ensures this.apiKeywords == apiKeywords && this.keywords == keywords
      ensures this.longWidth == longWidth
      ensures this.toFloat == toFloat && this.floatText == floatText
      ensures variables == set i | 0 <= i < keywords :: apiKeywords[i].valuePointer
      ensures callbackTrace == []
    {
      this.apiKeywords := apiKeywords;
      this.keywords := keywords;
      this.longWidth := longWidth;
      this.toFloat := toFloat;
      this.floatText := floatText;
      ghost var table := apiKeywords[..keywords];
      variables := set i | 0 <= i < keywords :: apiKeywords[i].valuePointer;
      entryOf := x =>
        if exists i :: 0 <= i < |table| && table[i].valuePointer == x
        then var i :| 0 <= i < |table| && table[i].valuePointer == x; i
        else 0;
      callbackTrace := [];
      new;
      forall x | x in variables
        ensures entryOf(x) < keywords && apiKeywords[entryOf(x)].valuePointer == x
      {
        var i :| 0 <= i < keywords && apiKeywords[i].valuePointer == x;
        assert table[i].valuePointer == x;
      }
    }

    /** The footprint is exactly the set of variables the entries point at. */
    lemma VariablesAreTableVariables()
      requires Covered() && OnlyTableVariables()
      ensures variables == set i | 0 <= i < keywords :: apiKeywords[i].valuePointer
    {
      forall x | x in variables
        ensures x in set i | 0 <= i < keywords :: apiKeywords[i].valuePointer
      {
        var i := entryOf(x);
        assert apiKeywords[i].valuePointer == x;
      }
    }

    /** The header lets two entries point at the same variable; they then
        declare the same kind. */
    lemma SharedVariableSameKind(i: nat, j: nat)
      requires Valid() && i < keywords && j < keywords
      requires apiKeywords[i].valuePointer == apiKeywords[j].valuePointer
      ensures apiKeywords[i].valueType == apiKeywords[j].valueType
    {
    }

    ghost function Table(): seq<ApiKeyword>
      reads apiKeywords
      requires keywords <= apiKeywords.Length
    {
      apiKeywords[..keywords]
    }

    ghost function KeywordIndex(keyword: string): int
      reads apiKeywords
      requires keywords <= apiKeywords.Length
    {
      FirstMatch(Table(), RequestKeyword, keyword)
    }

    ghost function PlaceholderIndex(placeholder: string): int
      reads apiKeywords
      requires keywords <= apiKeywords.Length
    {
      FirstMatch(Table(), HtmlPlaceholder, placeholder)
    }

    /** `findKeywordIndex`: the first entry whose request keyword occurs in
        `keyword`, or -1. */
    method FindKeywordIndex(keyword: string) returns (index: int)
      requires Valid()
      ensures -1 <= index < keywords
      ensures index == KeywordIndex(keyword)
    {
      ghost var table := Table();
      for i := 0 to keywords
        invariant KeywordIndex(keyword) == FirstMatchFrom(table, RequestKeyword, keyword, i)
      {
        assert table[i] == apiKeywords[i];
        if IndexOf(keyword, apiKeywords[i].requestKeyword) >= 0 {
          return i;
        }
      }
      return -1;
    }

    /** `findPlaceholderIndex`: the same scan over the HTML placeholders. */
    method FindPlaceholderIndex(placeholder: string) returns (index: int)
      requires Valid()
      ensures -1 <= index < keywords
      ensures index == PlaceholderIndex(placeholder)
    {
      ghost var table := Table();
      for i := 0 to keywords
        invariant PlaceholderIndex(placeholder) == FirstMatchFrom(table, HtmlPlaceholder, placeholder, i)
      {
        assert table[i] == apiKeywords[i];
        if IndexOf(placeholder, apiKeywords[i].htmlPlaceholder) >= 0 {
          return i;
        }
      }
      return -1;
    }

    /** `getValueByType`: status 200 and the variable's value as text, which
        a set request turns back into the same value exactly when the value
        reads back on this target. */
    function GetValueByType(index: nat): (reply: ApiResponse)
      reads apiKeywords, variables
      requires Valid() && index < keywords
      ensures reply.responseCode == 200
      ensures reply.responseText == Rendered(apiKeywords[index].valuePointer.value, floatText)
      ensures apiKeywords[index].valueType != PFloat ==>
                (Parsed(apiKeywords[index].valueType, reply.responseText, longWidth, toFloat)
                   == apiKeywords[index].valuePointer.value
                 <==> ReadsBack(apiKeywords[index].valuePointer.value, longWidth))
    {
      var v := apiKeywords[index].valuePointer.value;
      RenderParseRoundTrip(v, longWidth, toFloat, floatText);
      ApiResponse(200, Rendered(v, floatText))
    }

    /** `processPlaceholderByType`: exactly the body a get on the entry returns. */
    function ProcessPlaceholderByType(index: nat): (text: string)
      reads apiKeywords, variables
      requires Valid() && index < keywords
      ensures text == GetValueByType(index).responseText
    {
      Rendered(apiKeywords[index].valuePointer.value, floatText)
    }

    /** The effect of a set request on entry `index` with value text `text`:
        when `index` names an entry, its variable now holds the parsed value,
        every other variable is as before, and the callback (if any) has been
        invoked once, seeing the new value; otherwise nothing changed. */
    twostate predicate WroteEntry(index: int, text: string)
      reads this, apiKeywords, variables
      requires Covered()
    {
      if 0 <= index < keywords then
        var e := apiKeywords[index];
        var v := Parsed(e.valueType, text, longWidth, toFloat);
        && e.valuePointer.value == v
        && (forall i :: 0 <= i < keywords && apiKeywords[i].valuePointer != e.valuePointer ==>
              apiKeywords[i].valuePointer.value == old(apiKeywords[i].valuePointer.value))
        && callbackTrace == old(callbackTrace) + CallbacksFired(e.callback, v)
      else
        && (forall i :: 0 <= i < keywords ==>
              apiKeywords[i].valuePointer.value == old(apiKeywords[i].valuePointer.value))
        && callbackTrace == old(callbackTrace)
    }

    /** `setValueByType`: convert, write in place, then run the callback. */
    method SetValueByType(index: nat, value: string) returns (reply: ApiResponse)
      requires Valid() && index < keywords
      modifies this`callbackTrace, apiKeywords[index].valuePointer
      ensures Valid()
      ensures reply == OkReply
      ensures WroteEntry(index, value)
    {
      var entry := apiKeywords[index];
      var newValue: Value;
      match entry.valueType {
        case PBool =>
          newValue := BoolValue(ReadLong(longWidth, value) != 0);
          reply := OkReply;
        case PUInt =>
          newValue := UIntValue(ToUInt32(ToInt32(ReadLong(longWidth, value))));
          reply := OkReply;
        case PInt =>
          newValue := IntValue(ToInt32(ToUInt32(ReadLong(longWidth, value))));
          reply := OkReply;
        case PFloat =>
          newValue := FloatValue(toFloat(value));
          reply := OkReply;
        case PString =>
          newValue := StringValue(value);
          reply := OkReply;
      }
      assert newValue == Parsed(entry.valueType, value, longWidth, toFloat);
      entry.valuePointer.value := newValue;
      if reply.responseCode != 404 && entry.callback.Some? {
        callbackTrace := callbackTrace + [Invoked(entry.callback.value, entry.valuePointer.value)];
      }
    }

    /** `apiGet`: the value of the matching entry, or 404. */
    method ApiGet(keyword: string) returns (reply: ApiResponse)
      requires Valid()
      ensures KeywordIndex(keyword) == -1 ==> reply == NotFoundReply
      ensures KeywordIndex(keyword) >= 0 ==> reply == GetValueByType(KeywordIndex(keyword))
    {
      var index := FindKeywordIndex(keyword);
      if index >= 0 {
        return GetValueByType(index);
      }
      return NotFoundReply;
    }

    /** `apiSet`: write the matching entry and answer "Ok", or change nothing
        and answer 404. */
    method ApiSet(keyword: string, value: string) returns (reply: ApiResponse)
      requires Valid()
      modifies this`callbackTrace, variables
      ensures Valid()
      ensures reply == if KeywordIndex(keyword) >= 0 then OkReply else NotFoundReply
      ensures WroteEntry(KeywordIndex(keyword), value)
    {
      var index := FindKeywordIndex(keyword);
      if index >= 0 {
        reply := SetValueByType(index, value);
        return;
      }
      return NotFoundReply;
    }

    /** `apiHandler`: split the token at its first '=', leave the keyword in
        `requestURL`, and dispatch to set or get. */
    method ApiHandler(requestURL: StringRef) returns (reply: ApiResponse)
      requires Valid()
      modifies requestURL, this`callbackTrace, variables
      ensures Valid()
      ensures reply.responseCode == 200 || reply == NotFoundReply
      ensures requestURL.text == SplitRequest(old(requestURL.text)).keyword
      ensures match SplitRequest(old(requestURL.text))
        case GetRequest(keyword) =>
          && reply == (if KeywordIndex(keyword) >= 0 then GetValueByType(KeywordIndex(keyword)) else NotFoundReply)
          && WroteEntry(-1, "")
        case SetRequest(keyword, value) =>
          && reply == (if KeywordIndex(keyword) >= 0 then OkReply else NotFoundReply)
          && WroteEntry(KeywordIndex(keyword), value)
    {
      ghost var request := SplitRequest(requestURL.text);
      var equalsIndex := IndexOf(requestURL.text, "=");
      if IndexOf(requestURL.text, "=") >= 0 {
        var value := requestURL.text[equalsIndex + 1..];
        requestURL.text := requestURL.text[..equalsIndex];
        assert request == SetRequest(requestURL.text, value);
        label Split:
        reply := ApiSet(requestURL.text, value);
        assert old@Split(callbackTrace) == old(callbackTrace);
        assert forall i :: 0 <= i < keywords ==>
          old@Split(apiKeywords[i].valuePointer.value) == old(apiKeywords[i].valuePointer.value);
      } else {
        assert request == GetRequest(requestURL.text);
        reply := ApiGet(requestURL.text);
      }
    }

    /** `htmlProcessor`: the rendered value of the first entry whose
        placeholder occurs in `placeholder`, or the empty string. */
    method HtmlProcessor(placeholder: string) returns (text: string)
      requires Valid()
      ensures PlaceholderIndex(placeholder) == -1 ==> text == ""
      ensures PlaceholderIndex(placeholder) >= 0 ==>
                text == GetValueByType(PlaceholderIndex(placeholder)).responseText
    {
      var index := FindPlaceholderIndex(placeholder);
      if index >= 0 {
        return ProcessPlaceholderByType(index);
      }
      return "";
    }
  }
}
