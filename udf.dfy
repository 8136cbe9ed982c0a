/**
 * The http_post user-defined function: its option parsing and the choice of
 * response fields it returns (`httpRaw`), and the argument-count check of
 * `http_post_init`. The HTTP transport is a parameter, and so are the
 * base64 and hex codecs; the final JSON encoding of the result is not
 * modelled, the result record is returned as it is.
 */
module Udf {
  import Text
  import opened Wrappers

  /** Request or response headers: each name with its values, in the order they were added. */
  type Headers = map<string, seq<string>>

  /** The locals the option loop updates. */
  datatype Settings = Settings(
    headers: Headers,          // reqHeader
    bodyOption: string,        // -B: how the response body is returned
    inputBodyOption: string,   // -b: how the request body is given
    outputOption: string,      // -O: which response fields to return
    sslSkip: bool)             // -s: skip certificate verification

  /** The values before any option is read. */
  const Defaults: Settings := Settings(map[], "txt", "txt", "BODY", false)

  /** The options that set one value from the word that follows them. */
  const SettingFlags: set<string> := {"-B", "-b", "-O", "-s"}

  datatype UdfError =
    | InvalidHeaderOption
    | MissingArgument(flag: string)              // option[1] is out of range: a run-time panic in the source
    | BodyDecodeFailed(inputBodyOption: string)  // the request body is not valid base64 or hex
    | TransportFailed(message: string)           // building, sending or reading the request failed
    | InvalidBodyOption
    | InvalidOutputOption(requested: seq<string>)

  /** The encoders and decoders of the body options b64 and hex. */
  datatype Codecs = Codecs(
    b64Encode: string -> string, hexEncode: string -> string,
    b64Decode: string -> Option<string>, hexDecode: string -> Option<string>)

  /** contains: a linear search of the slice. */
  function Contains(slice: seq<string>, s: string): (r: bool)
    ensures r <==> s in slice
  {
    if slice == [] then false
    else slice[0] == s || Contains(slice[1..], s)
  }

  /** http.Header.Add: a further value for the name. */
  function AddHeader(h: Headers, name: string, value: string): Headers
  {
    h[name := (if name in h then h[name] else []) + [value]]
  }

  /** The value one of -B, -b, -O, -s sets; -s enables skipping only for the word `true`. */
  function WithSetting(st: Settings, flag: string, word: string): Settings
    requires flag in SettingFlags
  {
    if flag == "-B" then st.(bodyOption := word)
    else if flag == "-b" then st.(inputBodyOption := word)
    else if flag == "-O" then st.(outputOption := word)
    else st.(sslSkip := word == "true")
  }

  /**
   * One option string, split on " ": -H rejoins the rest with " " and needs
   * it to split on ":" into exactly a name and a value; the setting options
   * take the next word; anything else is ignored.
   */
  function ApplyOption(st: Settings, opt: string): Result<Settings, UdfError>
  {
    var option := Text.Split(opt, " ");
    if option[0] == "-H" then
      var header := Text.Split(Text.Join(option[1..], " "), ":");
      if |header| != 2 then Err(InvalidHeaderOption)
      else Ok(st.(headers := AddHeader(st.headers, header[0], header[1])))
    else if option[0] in SettingFlags then
      if |option| < 2 then Err(MissingArgument(option[0]))
      else Ok(WithSetting(st, option[0], option[1]))
    else Ok(st)
  }

  /** The option loop over `opts`, from the defaults, stopping at the first error. */
  function ParseAll(opts: seq<string>): Result<Settings, UdfError>
  {
    if opts == [] then Ok(Defaults)
    else
      match ParseAll(opts[..|opts| - 1])
      case Err(e) => Err(e)
      case Ok(st) => ApplyOption(st, opts[|opts| - 1])
  }

  /** The option loop of httpRaw. */
  method ParseOptions(opts: seq<string>) returns (r: Result<Settings, UdfError>)
    ensures r == ParseAll(opts)
  {
    var reqHeader: Headers := map[];
    var bodyOption := "txt";
    var iBodyOption := "txt";
    var outputOption := "BODY";
    var sslSkip := false;
    for i := 0 to |opts|
      invariant ParseAll(opts[..i]) == Ok(Settings(reqHeader, bodyOption, iBodyOption, outputOption, sslSkip))
    {
      assert opts[..i + 1][..i] == opts[..i];
      var option := Text.Split(opts[i], " ");
      if option[0] == "-H" {
        var header := Text.Split(Text.Join(option[1..], " "), ":");
        if |header| != 2 {
          ErrorPersists(opts, i + 1);
          return Err(InvalidHeaderOption);
        }
        reqHeader := AddHeader(reqHeader, header[0], header[1]);
      } else if option[0] in SettingFlags {
        if |option| < 2 {
          ErrorPersists(opts, i + 1);
          return Err(MissingArgument(option[0]));
        }
        if option[0] == "-B" {
          bodyOption := option[1];
        } else if option[0] == "-b" {
          iBodyOption := option[1];
        } else if option[0] == "-O" {
          outputOption := option[1];
        } else {
          sslSkip := option[1] == "true";
        }
      }
    }
    assert opts[..|opts|] == opts;
    r := Ok(Settings(reqHeader, bodyOption, iBodyOption, outputOption, sslSkip));
  }

  // ---------------------------------------------------------------------
  // The request

  datatype Request = Request(
    httpMethod: string, url: string, headers: Headers,
    body: Option<string>,   // None: the request has no body
    skipVerify: bool)

  /**
   * The request body: none for an empty body; otherwise the body as text or
   * decoded from base64 or hex. An unknown -b value leaves the body out.
   */
  function RequestBody(body: string, inputBodyOption: string, codecs: Codecs): Result<Option<string>, UdfError>
  {
    if |body| == 0 then Ok(None)
    else if inputBodyOption == "txt" then Ok(Some(body))
    else if inputBodyOption == "b64" then
      match codecs.b64Decode(body)
      case None => Err(BodyDecodeFailed("b64"))
      case Some(data) => Ok(Some(data))
    else if inputBodyOption == "hex" then
      match codecs.hexDecode(body)
      case None => Err(BodyDecodeFailed("hex"))
      case Some(data) => Ok(Some(data))
    else Ok(None)
  }

  /**
   * The request httpRaw sends: the method and URL as given; a body that is
   * the text itself, its base64 or hex decoding (a decoding failure is an
   * error) or nothing for an unknown input option; the parsed headers, with
   * Content-Type set (replacing any given with -H, keeping the others) only
   * when there is a body and a content type.
   */
  function BuildRequest(httpMethod: string, url: string, contentType: string, body: string,
                        st: Settings, codecs: Codecs): (r: Result<Request, UdfError>)
    ensures |body| == 0 ==> r == Ok(Request(httpMethod, url, st.headers, None, st.sslSkip))
    ensures |body| > 0 && st.inputBodyOption == "txt" ==> r.Ok? && r.value.body == Some(body)
    ensures |body| > 0 && st.inputBodyOption == "b64" ==>
              (r.Ok? <==> codecs.b64Decode(body).Some?) &&
              (r.Ok? ==> r.value.body == codecs.b64Decode(body)) &&
              (r.Err? ==> r.error == BodyDecodeFailed("b64"))
    ensures |body| > 0 && st.inputBodyOption == "hex" ==>
              (r.Ok? <==> codecs.hexDecode(body).Some?) &&
              (r.Ok? ==> r.value.body == codecs.hexDecode(body)) &&
              (r.Err? ==> r.error == BodyDecodeFailed("hex"))
    ensures |body| > 0 && st.inputBodyOption !in {"txt", "b64", "hex"} ==> r.Ok? && r.value.body.None?
    ensures r.Ok? ==> r.value.httpMethod == httpMethod && r.value.url == url && r.value.skipVerify == st.sslSkip
    ensures r.Ok? && r.value.body.Some? && |contentType| != 0 ==>
              r.value.headers == st.headers["Content-Type" := [contentType]]
    ensures r.Ok? && (r.value.body.None? || |contentType| == 0) ==> r.value.headers == st.headers
  {
    match RequestBody(body, st.inputBodyOption, codecs)
    case Err(e) => Err(e)
    case Ok(rBody) =>
      var headers := if rBody.Some? && |contentType| != 0 then st.headers["Content-Type" := [contentType]] else st.headers;
      Ok(Request(httpMethod, url, headers, rBody, st.sslSkip))
  }

  // ---------------------------------------------------------------------
  // The result

  datatype HttpResponse = HttpResponse(proto: string, status: string, statusCode: int, header: Headers, body: string)

  /** respResult; a field left at its zero value is omitted from the JSON the UDF returns. */
  datatype RespResult = RespResult(proto: string, status: string, statusCode: int, header: Headers, body: string)

  const EmptyResult: RespResult := RespResult("", "", 0, map[], "")

  /** The output fields -O asks for: "|"-separated, FULL alone standing for all four. */
  function OutputFields(outputOption: string): seq<string>
  {
    var fields := Text.Split(outputOption, "|");
    if |fields| == 1 && fields[0] == "FULL" then ["PROTO", "STATUS", "HEADER", "BODY"] else fields
  }

  /** Whether -B names a known body encoding. */
  predicate KnownBodyOption(bodyOption: string)
  {
    bodyOption == "txt" || bodyOption == "b64" || bodyOption == "hex"
  }

  /** Whether any field httpRaw knows is requested. */
  predicate AnyKnownField(fields: seq<string>)
  {
    "PROTO" in fields || "STATUS" in fields || "STATUS_CODE" in fields || "HEADER" in fields || "BODY" in fields
  }

  /** The response body as -B asks for it. */
  function EncodeBody(bodyOption: string, body: string, codecs: Codecs): string
    requires KnownBodyOption(bodyOption)
  {
    if bodyOption == "txt" then body
    else if bodyOption == "b64" then codecs.b64Encode(body)
    else codecs.hexEncode(body)
  }

  /**
   * The result of httpRaw for the requested fields: each requested field is
   * copied from the response, STATUS taking precedence over STATUS_CODE;
   * BODY with an unknown body option is an error, and so is asking for no
   * known field at all.
   */
  function Projection(fields: seq<string>, bodyOption: string, resp: HttpResponse, codecs: Codecs)
    : (r: Result<RespResult, UdfError>)
    ensures r.Err? <==> !AnyKnownField(fields) || ("BODY" in fields && !KnownBodyOption(bodyOption))
    ensures r.Err? && "BODY" in fields ==> r.error == InvalidBodyOption
    ensures r.Err? && "BODY" !in fields ==> r.error == InvalidOutputOption(fields)
    ensures r.Ok? ==> r.value.proto == (if "PROTO" in fields then resp.proto else "")
    ensures r.Ok? ==> r.value.status == (if "STATUS" in fields then resp.status else "")
    ensures r.Ok? ==> r.value.statusCode == (if "STATUS" !in fields && "STATUS_CODE" in fields then resp.statusCode else 0)
    ensures r.Ok? ==> r.value.header == (if "HEADER" in fields then resp.header else map[])
    ensures r.Ok? && "BODY" in fields ==> r.value.body == EncodeBody(bodyOption, resp.body, codecs)
    ensures r.Ok? && "BODY" !in fields ==> r.value.body == ""
  {
    if "BODY" in fields && !KnownBodyOption(bodyOption) then Err(InvalidBodyOption)
    else if !AnyKnownField(fields) then Err(InvalidOutputOption(fields))
    else
      Ok(RespResult(
        if "PROTO" in fields then resp.proto else "",
        if "STATUS" in fields then resp.status else "",
        if "STATUS" !in fields && "STATUS_CODE" in fields then resp.statusCode else 0,
        if "HEADER" in fields then resp.header else map[],
        if "BODY" in fields then EncodeBody(bodyOption, resp.body, codecs) else ""))
  }

  /**
   * The PROTO, STATUS / STATUS_CODE and HEADER checks of httpRaw: copy each
   * requested part of the response, STATUS taking precedence over
   * STATUS_CODE; `selected` tells whether any of them was requested.
   */
  method SelectFields(outputOptions: seq<string>, resp: HttpResponse) returns (ret: RespResult, selected: bool)
    ensures selected <==> "PROTO" in outputOptions || "STATUS" in outputOptions || "STATUS_CODE" in outputOptions
                          || "HEADER" in outputOptions
    ensures ret == RespResult(
              if "PROTO" in outputOptions then resp.proto else "",
              if "STATUS" in outputOptions then resp.status else "",
              if "STATUS" !in outputOptions && "STATUS_CODE" in outputOptions then resp.statusCode else 0,
              if "HEADER" in outputOptions then resp.header else map[],
              "")
  {
    ret := EmptyResult;
    selected := false;
    if Contains(outputOptions, "PROTO") {
      selected := true;
      ret := ret.(proto := resp.proto);
    }
    if Contains(outputOptions, "STATUS") {
      selected := true;
      ret := ret.(status := resp.status);
    } else if Contains(outputOptions, "STATUS_CODE") {
      selected := true;
      ret := ret.(statusCode := resp.statusCode);
    }
    if Contains(outputOptions, "HEADER") {
      selected := true;
      ret := ret.(header := resp.header);
    }
  }

  /** The output selection of httpRaw, filling the result one field at a time. */
  method ProjectOutput(outputOption: string, bodyOption: string, resp: HttpResponse, codecs: Codecs)
    returns (r: Result<RespResult, UdfError>)
    ensures r == Projection(OutputFields(outputOption), bodyOption, resp, codecs)
  {
    var ret := EmptyResult;
    var outputOptions := Text.Split(outputOption, "|");
    // Split never gives zero parts, so the source's "Zero Option" branch cannot be taken.
    var invalidOption := true;
    if |outputOptions| == 1 && outputOptions[0] == "FULL" {
      invalidOption := false;
      outputOptions := ["PROTO", "STATUS", "HEADER", "BODY"];
    }
    var selected;
    ret, selected := SelectFields(outputOptions, resp);
    invalidOption := invalidOption && !selected;
    if Contains(outputOptions, "BODY") {
      invalidOption := false;
      if bodyOption == "txt" {
        ret := ret.(body := resp.body);
      } else if bodyOption == "b64" {
        ret := ret.(body := codecs.b64Encode(resp.body));
      } else if bodyOption == "hex" {
        ret := ret.(body := codecs.hexEncode(resp.body));
      } else {
        return Err(InvalidBodyOption);
      }
    }
    if invalidOption {
      return Err(InvalidOutputOption(outputOptions));
    }
    r := Ok(ret);
  }

  /**
   * httpRaw: parse the options, build and send the request, then select the
   * output fields; each stage's error ends the call.
   */
  method HttpRaw(httpMethod: string, url: string, contentType: string, body: string, options: seq<string>,
                 codecs: Codecs, transport: Request -> Result<HttpResponse, string>)
    returns (r: Result<RespResult, UdfError>)
    ensures ParseAll(options).Err? ==> r == Err(ParseAll(options).error)
    ensures ParseAll(options).Ok? ==>
              var st := ParseAll(options).value;
              var req := BuildRequest(httpMethod, url, contentType, body, st, codecs);
              r == if req.Err? then Err(req.error)
                   else if transport(req.value).Err? then Err(TransportFailed(transport(req.value).error))
                   else Projection(OutputFields(st.outputOption), st.bodyOption, transport(req.value).value, codecs)
  {
    var parsed := ParseOptions(options);
    if parsed.Err? {
      return Err(parsed.error);
    }
    var st := parsed.value;
    var req := BuildRequest(httpMethod, url, contentType, body, st, codecs);
    if req.Err? {
      return Err(req.error);
    }
    var resp := transport(req.value);
    if resp.Err? {
      return Err(TransportFailed(resp.error));
    }
    r := ProjectOutput(st.outputOption, st.bodyOption, resp.value, codecs);
  }

  /** http_post_init refuses (returns true) a call with fewer than the three required arguments. */
  function HttpPostInit(argCount: int): (refused: bool)
    ensures refused <==> argCount < 3
  {
    argCount < 3
  }

  // ---------------------------------------------------------------------
  // Lemmas

  /** Once an option fails, the loop's result is that error whatever follows. */
  lemma {:induction false} ErrorPersists(opts: seq<string>, i: int)
    requires 0 <= i <= |opts| && ParseAll(opts[..i]).Err?
    ensures ParseAll(opts) == ParseAll(opts[..i])
    decreases |opts| - i
  {
    if i < |opts| {
      assert opts[..i + 1][..i] == opts[..i];
      ErrorPersists(opts, i + 1);
    } else {
      assert opts[..i] == opts;
    }
  }

  /** The words of "flag rest": the flag, then the words of `rest`. */
  lemma OptionWords(flag: string, rest: string)
    requires ' ' !in flag
    ensures Text.Split(flag + " " + rest, " ") == [flag] + Text.Split(rest, " ")
  {
    Text.SplitFirst(flag, ' ', rest);
  }

  /** After `-H`, the words of the option joined back are the header text. */
  lemma HeaderWords(text: string)
    ensures var option := Text.Split("-H " + text, " ");
            option[0] == "-H" && Text.Join(option[1..], " ") == text
  {
    assert "-H " + text == "-H" + " " + text;
    OptionWords("-H", text);
    var option := Text.Split("-H " + text, " ");
    assert option[1..] == Text.Split(text, " ");
    Text.JoinSplit(text, " ");
  }

  /**
   * -H is accepted exactly when the text after it has one ':', and then
   * adds the name before it and the value after it (a value with a ':' in
   * it is refused).
   */
  lemma HeaderRule(st: Settings, text: string)
    ensures ApplyOption(st, "-H " + text).Ok? <==> Text.CountChar(text, ':') == 1
    ensures ApplyOption(st, "-H " + text).Err? ==> ApplyOption(st, "-H " + text) == Err(InvalidHeaderOption)
    ensures ApplyOption(st, "-H " + text).Ok? ==>
              var h := Text.Split(text, ":");
              |h| == 2 && h[0] + ":" + h[1] == text
              && ApplyOption(st, "-H " + text) == Ok(st.(headers := AddHeader(st.headers, h[0], h[1])))
  {
    HeaderWords(text);
    Text.SplitCount(text, ':');
    var h := Text.Split(text, ":");
    if |h| == 2 {
      Text.JoinSplit(text, ":");
      assert h[1..] == [h[1]];
    }
  }

  /**
   * -B, -b, -O and -s take the first word after them; with no word at all
   * the source indexes past the end of the option.
   */
  lemma SettingRule(st: Settings, flag: string, rest: string)
    requires flag in SettingFlags
    ensures ApplyOption(st, flag + " " + rest) == Ok(WithSetting(st, flag, Text.Split(rest, " ")[0]))
    ensures ApplyOption(st, flag) == Err(MissingArgument(flag))
  {
    FlagHasNoSpace(flag);
    OptionWords(flag, rest);
    FlagAlone(flag);
  }

  lemma FlagHasNoSpace(flag: string)
    requires flag in SettingFlags
    ensures ' ' !in flag && flag != "-H"
  {
  }

  lemma FlagAlone(flag: string)
    requires ' ' !in flag && |flag| > 0
    ensures Text.Split(flag, " ") == [flag]
  {
    Text.NotContainsFirst(flag, " ");
    Text.SplitWithout(flag, " ");
  }

  /** Setting a value twice keeps the second. */
  lemma SettingOverrides(st: Settings, flag: string, first: string, second: string)
    requires flag in SettingFlags
    ensures WithSetting(WithSetting(st, flag, first), flag, second) == WithSetting(st, flag, second)
  {
  }

  /** A later setting option overrides an earlier one of the same kind. */
  lemma LaterSettingWins(st: Settings, flag: string, first: string, second: string)
    requires flag in SettingFlags
    ensures ApplyOption(st, flag + " " + first).Ok?
    ensures ApplyOption(ApplyOption(st, flag + " " + first).value, flag + " " + second)
            == ApplyOption(st, flag + " " + second)
  {
    var w1 := Text.Split(first, " ")[0];
    var w2 := Text.Split(second, " ")[0];
    var mid := WithSetting(st, flag, w1);
    SettingRule(st, flag, first);
    SettingRule(mid, flag, second);
    SettingRule(st, flag, second);
    SettingOverrides(st, flag, w1, w2);
  }

  /** The field that a setting flag controls agrees in `a` and `b`. */
  predicate SameSetting(a: Settings, b: Settings, flag: string)
    requires flag in SettingFlags
  {
    if flag == "-B" then a.bodyOption == b.bodyOption
    else if flag == "-b" then a.inputBodyOption == b.inputBodyOption
    else if flag == "-O" then a.outputOption == b.outputOption
    else a.sslSkip == b.sslSkip
  }

  /** The word after `flag` in the last option of `opts` that starts with that flag, if any. */
  function LastSettingWord(opts: seq<string>, flag: string): Option<string>
  {
    if opts == [] then None
    else
      var option := Text.Split(opts[|opts| - 1], " ");
      if option[0] == flag && |option| >= 2 then Some(option[1])
      else LastSettingWord(opts[..|opts| - 1], flag)
  }

  /** An option that does not start with `flag` leaves the field `flag` controls as it was. */
  lemma OtherOptionKeepsSetting(st: Settings, opt: string, flag: string)
    requires flag in SettingFlags
    requires Text.Split(opt, " ")[0] != flag
    requires ApplyOption(st, opt).Ok?
    ensures SameSetting(ApplyOption(st, opt).value, st, flag)
  {
    var option := Text.Split(opt, " ");
    var next := ApplyOption(st, opt).value;
    if option[0] == "-H" {
      assert next == st.(headers := next.headers);
    } else if option[0] in SettingFlags {
      assert next == WithSetting(st, option[0], option[1]);
      WithOtherSetting(st, option[0], option[1], flag);
    } else {
      assert next == st;
    }
  }

  lemma WithOtherSetting(st: Settings, other: string, word: string, flag: string)
    requires other in SettingFlags && flag in SettingFlags && other != flag
    ensures SameSetting(WithSetting(st, other, word), st, flag)
  {
  }

  /**
   * Over a whole option list, each setting is decided by the last option
   * that starts with its flag, whatever options come in between; with none,
   * the setting keeps its default.
   */
  lemma {:induction false} LastSettingWins(opts: seq<string>, flag: string)
    requires flag in SettingFlags
    requires ParseAll(opts).Ok?
    ensures LastSettingWord(opts, flag).None? ==> SameSetting(ParseAll(opts).value, Defaults, flag)
    ensures LastSettingWord(opts, flag).Some? ==>
              SameSetting(ParseAll(opts).value, WithSetting(Defaults, flag, LastSettingWord(opts, flag).value), flag)
  {
    if opts != [] {
      var front := opts[..|opts| - 1];
      var last := opts[|opts| - 1];
      assert ParseAll(front).Ok?;
      if Text.Split(last, " ")[0] != flag {
        LastSettingWins(front, flag);
        OtherOptionKeepsSetting(ParseAll(front).value, last, flag);
      }
    }
  }

  /**
   * A header option between two `-B` options does not stop the second from
   * overriding the first (`-B hex`, `-H a:b`, `-B txt` ends with `txt`).
   */
  lemma InterleavedSettingWins(first: string, header: string, second: string)
    requires ' ' !in first && ' ' !in second && |second| > 0
    requires Text.CountChar(header, ':') == 1
    ensures ParseAll(["-B " + first, "-H " + header, "-B " + second]).Ok?
    ensures ParseAll(["-B " + first, "-H " + header, "-B " + second]).value.bodyOption == second
  {
    var opts := ["-B " + first, "-H " + header, "-B " + second];
    assert opts[..1] == ["-B " + first] && opts[..1][..0] == [];
    assert opts[..2] == ["-B " + first, "-H " + header] && opts[..2][..1] == opts[..1];
    assert opts[..3] == opts;
    assert "-B " + first == "-B" + " " + first;
    assert "-B " + second == "-B" + " " + second;
    SettingRule(Defaults, "-B", first);
    assert ParseAll(opts[..1]) == ApplyOption(Defaults, "-B " + first);
    var s1 := ParseAll(opts[..1]).value;
    HeaderRule(s1, header);
    var s2 := ParseAll(opts[..2]).value;
    SettingRule(s2, "-B", second);
    FlagAlone(second);
  }

  /** -s skips verification only when its word is exactly `true`. */
  lemma SkipOnlyForTrue(st: Settings, word: string)
    requires ' ' !in word
    ensures ApplyOption(st, "-s " + word).Ok?
    ensures ApplyOption(st, "-s " + word).value.sslSkip <==> word == "true"
  {
    assert "-s " + word == "-s" + " " + word;
    SettingRule(st, "-s", word);
    Text.NotContainsFirst(word, " ");
    Text.SplitWithout(word, " ");
  }

  /** An empty body sends no body and sets no Content-Type, whatever the content type and -b. */
  lemma EmptyBodyNoContentType(httpMethod: string, url: string, contentType: string, st: Settings, codecs: Codecs)
    ensures BuildRequest(httpMethod, url, contentType, "", st, codecs).Ok?
    ensures BuildRequest(httpMethod, url, contentType, "", st, codecs).value.body.None?
    ensures BuildRequest(httpMethod, url, contentType, "", st, codecs).value.headers == st.headers
  {
  }

  /** A -b value other than txt, b64 or hex silently sends the request without its body. */
  lemma UnknownInputOptionDropsBody(httpMethod: string, url: string, contentType: string, body: string,
                                    st: Settings, codecs: Codecs)
    requires |body| > 0 && st.inputBodyOption !in {"txt", "b64", "hex"}
    ensures BuildRequest(httpMethod, url, contentType, body, st, codecs)
            == Ok(Request(httpMethod, url, st.headers, None, st.sslSkip))
  {
  }

  /** -O FULL alone asks for the protocol, the status, the headers and the body. */
  lemma FullExpands()
    ensures OutputFields("FULL") == ["PROTO", "STATUS", "HEADER", "BODY"]
  {
    Text.NotContainsFirst("FULL", "|");
    Text.SplitWithout("FULL", "|");
  }

  /** With FULL, every field but the status code is filled from the response. */
  lemma FullResult(bodyOption: string, resp: HttpResponse, codecs: Codecs)
    requires KnownBodyOption(bodyOption)
    ensures Projection(OutputFields("FULL"), bodyOption, resp, codecs)
            == Ok(RespResult(resp.proto, resp.status, 0, resp.header, EncodeBody(bodyOption, resp.body, codecs)))
  {
    FullExpands();
  }

  /** By default (-O BODY, -B txt) the result is the response body unchanged and nothing else. */
  lemma DefaultResult(resp: HttpResponse, codecs: Codecs)
    ensures Projection(OutputFields(Defaults.outputOption), Defaults.bodyOption, resp, codecs)
            == Ok(RespResult("", "", 0, map[], resp.body))
  {
    Text.NotContainsFirst("BODY", "|");
    Text.SplitWithout("BODY", "|");
  }
}
