/**
 * What a caller of the dispatcher can rely on, in the shape the
 * LEDs_from_Web example page uses it: a button sends `/api/LED1State=1`
 * (the page puts `/api/` in front of every token), then the page is
 * reloaded and shows the variable again.
 */
module ApiClient {
  import opened ArduinoString
  import opened WebApiTypes
  import opened WebApi

  /** The example page puts `/api/` (any prefix, in fact) in front of a
      request keyword: the token still selects that keyword's entry unless
      an earlier entry's keyword occurs in the prefixed token. */
  lemma PrefixedTokenFindsEntry(entries: seq<ApiKeyword>, prefix: string, k: nat)
    requires k < |entries| && entries[k].requestKeyword != []
    requires forall j :: 0 <= j < k ==> !Contains(prefix + entries[k].requestKeyword, entries[j].requestKeyword)
    ensures FirstMatch(entries, RequestKeyword, prefix + entries[k].requestKeyword) == k
  {
    var name := entries[k].requestKeyword;
    var token := prefix + name;
    assert token[|prefix|..|prefix| + |name|] == name;
    assert OccursAt(token, name, |prefix|);
    IndexOfIsFirst(token, name);
    FirstMatchIsFirst(entries, RequestKeyword, token);
  }

  /**
   * A set request `keyword=value` followed by a get request on the string
   * the handler left behind (which is `keyword`): when the keyword names an
   * entry, the get returns what was set, for a string entry always and for
   * an integer entry when `value` is the canonical decimal text of a number
   * in the entry's range; a boolean entry reads back as "1" exactly when
   * `value` starts with a non-zero number.
   */
  method SetThenGet(api: WebAPI, url: StringRef, keyword: string, value: string)
    returns (setReply: ApiResponse, getReply: ApiResponse)
    requires api.Valid()
    requires '=' !in keyword && url.text == keyword + "=" + value
    requires api.KeywordIndex(keyword) >= 0
    modifies url, api`callbackTrace, api.variables
    ensures api.Valid()
    ensures setReply == OkReply && url.text == keyword
    ensures var t := api.apiKeywords[api.KeywordIndex(keyword)].valueType;
            t == PString
            || (t == PUInt && exists u: UInt32 :: value == IntText(u) && ReadsBack(UIntValue(u), api.longWidth))
            || (t == PInt && exists i: Int32 :: value == IntText(i))
            ==> getReply == ApiResponse(200, value)
    ensures api.apiKeywords[api.KeywordIndex(keyword)].valueType == PUInt && api.longWidth == Long32
            && (exists u: UInt32 :: value == IntText(u) && u > INT32_MAX)
            ==> getReply == ApiResponse(200, IntText(INT32_MAX))
    ensures api.apiKeywords[api.KeywordIndex(keyword)].valueType == PBool ==>
              getReply == ApiResponse(200, if LeadingNumber(value) != 0 then "1" else "0")
  {
    SplitRequestOfJoin(keyword, value);
    setReply := api.ApiHandler(url);
    ghost var e := api.apiKeywords[api.KeywordIndex(keyword)];
    assert e.valuePointer.value == Parsed(e.valueType, value, api.longWidth, api.toFloat);
    getReply := api.ApiHandler(url);
    assert getReply == ApiResponse(200, Rendered(Parsed(e.valueType, value, api.longWidth, api.toFloat), api.floatText));
    TextAfterWrite(e.valueType, value, api.longWidth, api.toFloat, api.floatText);
  }

  /** The text a read returns after a write of `text` to an entry of kind
      `t`, case by case. */
  lemma TextAfterWrite(t: ValueType, text: string, width: LongWidth,
                       toFloat: string -> Float32, floatText: Float32 -> string)
    ensures t == PString
            || (t == PUInt && exists u: UInt32 :: text == IntText(u) && ReadsBack(UIntValue(u), width))
            || (t == PInt && exists i: Int32 :: text == IntText(i))
            ==> Rendered(Parsed(t, text, width, toFloat), floatText) == text
    ensures t == PUInt && width == Long32 && (exists u: UInt32 :: text == IntText(u) && u > INT32_MAX)
            ==> Rendered(Parsed(t, text, width, toFloat), floatText) == IntText(INT32_MAX)
    ensures t == PBool ==>
              Rendered(Parsed(t, text, width, toFloat), floatText) == if LeadingNumber(text) != 0 then "1" else "0"
  {
    match t
    case PUInt =>
      if width == Long32 && exists u: UInt32 :: text == IntText(u) && u > INT32_MAX {
        var u: UInt32 :| text == IntText(u) && u > INT32_MAX;
        UIntRoundTripFailsOn32BitLong(u);
        forall u': UInt32 | text == IntText(u')
          ensures u' == u
        {
          IntTextInjective(u', u);
        }
      } else if exists u: UInt32 :: text == IntText(u) && ReadsBack(UIntValue(u), width) {
        ParseRenderRoundTrip(t, text, width, toFloat, floatText);
      }
    case PInt =>
      if exists i: Int32 :: text == IntText(i) {
        ParseRenderRoundTrip(t, text, width, toFloat, floatText);
      }
    case PString =>
    case PBool =>
      BoolReadsBackAsDigit(text, width, toFloat, floatText);
    case PFloat =>
  }

  /** A set request changes no variable but the one the matched entry points
      at: any other variable of the footprint keeps its value. */
  method SetLeavesOtherVariables(api: WebAPI, x: Variable, keyword: string, value: string)
    returns (reply: ApiResponse)
    requires api.Valid() && api.OnlyTableVariables() && x in api.variables
    requires api.KeywordIndex(keyword) >= 0 ==> api.apiKeywords[api.KeywordIndex(keyword)].valuePointer != x
    modifies api`callbackTrace, api.variables
    ensures x.value == old(x.value) && api.OnlyTableVariables()
  {
    reply := api.ApiSet(keyword, value);
    assert api.apiKeywords[api.entryOf(x)].valuePointer == x;
  }
}
