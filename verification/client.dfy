/** The `ZebraBrowserPrintWrapper` class of src/index.ts: the agent's base
    URL and the selected printer, the endpoints formed from the URL, and the
    status check once the printer's answer has been read. */
module Client {
  import opened Wrappers
  import opened JsString
  import opened DefaultPrinter
  import opened Status

  /** The base URL as stored: a "/" is appended unless the last character
      already is one. */
  function NormalizeApiUrl(url: string): (r: string)
    ensures |r| > 0 && r[|r| - 1] == '/'
    ensures |url| <= |r| <= |url| + 1 && r[..|url|] == url
    ensures r == url <==> |url| > 0 && url[|url| - 1] == '/'
  {
    if SliceLast(url) != "/" then
      assert !(|url| > 0 && url[|url| - 1] == '/') by {
        if |url| > 0 { assert SliceLast(url) == [url[|url| - 1]]; }
      }
      url + "/"
    else
      assert |url| > 0 && url[|url| - 1] == '/' by {
        assert SliceLast(url) == [url[|url| - 1]] == "/";
      }
      url
  }

  /** Normalising twice is normalising once. */
  lemma NormalizeIdempotent(url: string)
    ensures NormalizeApiUrl(NormalizeApiUrl(url)) == NormalizeApiUrl(url)
  {
  }

  /** The four endpoints of the agent. */
  datatype Endpoint = Available | Default | Write | Read
  {
    /** The path of the endpoint relative to the base URL. */
    function Path(): string
    {
      match this
      case Available => "available"
      case Default => "default"
      case Write => "write"
      case Read => "read"
    }
  }

  /** The result of a status check. */
  datatype StatusReport = StatusReport(isReadyToPrint: bool, errors: string)

  /** The media `switch` of `checkPrinterStatus`: appends the message of a
      known media error code and leaves `errors` alone otherwise. */
  method AddMediaError(errors: seq<string>, code: string) returns (r: seq<string>)
    ensures r == errors + Messages(AsSeq(MediaFault(code)))
  {
    r := errors;
    match code {
      case "1" => r := r + ["Paper out"];
      case "2" => r := r + ["Ribbon Out"];
      case "4" => r := r + ["Media Door Open"];
      case "8" => r := r + ["Cutter Fault"];
      case _ =>
    }
  }

  /** The print head `switch` of `checkPrinterStatus`: appends the message of a
      known head error code and leaves `errors` alone otherwise. */
  method AddHeadError(errors: seq<string>, code: string) returns (r: seq<string>)
    ensures r == errors + Messages(AsSeq(HeadFault(code)))
  {
    r := errors;
    match code {
      case "1" => r := r + ["Printhead Overheating"];
      case "2" => r := r + ["Motor Overheating"];
      case "4" => r := r + ["Printhead Fault"];
      case "8" => r := r + ["Incorrect Printhead"];
      case _ =>
    }
  }

  class ZebraBrowserPrintWrapper {
    /** The selected printer; `None` stands for the empty placeholder object
        the field starts with. */
    var device: Option<Device>
    /** The base URL of the agent. */
    var apiUrl: string

    /** The base URL ends with "/", so every endpoint is a path below it. */
    predicate Valid()
      reads this
    {
      |apiUrl| > 0 && apiUrl[|apiUrl| - 1] == '/'
    }

    /** `defaultApiUrl` is the preconfigured agent URL; it is stored as it is,
        while an override is normalised. */
    constructor (defaultApiUrl: string, apiUrlOverride: Option<string>)
      ensures device == None
      ensures apiUrl == if apiUrlOverride.Some? then NormalizeApiUrl(apiUrlOverride.value) else defaultApiUrl
      ensures apiUrlOverride.Some? || SliceLast(defaultApiUrl) == "/" ==> Valid()
    {
      device := None;
      apiUrl := defaultApiUrl;
      if apiUrlOverride.Some? {
        apiUrl := NormalizeApiUrl(apiUrlOverride.value);
      }
    }

    method SetApiUrl(url: string)
      modifies this`apiUrl
      ensures apiUrl == NormalizeApiUrl(url)
      ensures Valid()
      ensures device == old(device)
    {
      apiUrl := NormalizeApiUrl(url);
    }

    method SetPrinter(d: Device)
      modifies this`device
      ensures device == Some(d)
      ensures apiUrl == old(apiUrl)
    {
      device := Some(d);
    }

    method GetPrinter() returns (d: Option<Device>)
      ensures d == device
    {
      d := device;
    }

    /** The URL a request to endpoint `e` goes to: once the base URL ends with
        "/", the endpoint's path is a separate segment right after that "/". */
    function EndpointUrl(e: Endpoint): (r: string)
      reads this
      ensures |r| == |apiUrl| + |e.Path()|
      ensures r[..|apiUrl|] == apiUrl && r[|apiUrl|..] == e.Path()
      ensures Valid() ==> r[|apiUrl| - 1] == '/' && '/' !in r[|apiUrl|..]
    {
      apiUrl + e.Path()
    }

    /** `checkPrinterStatus` after the `~HQES` query has been written and the
        printer's answer `response` read back. */
    method CheckPrinterStatus(response: string) returns (report: StatusReport)
      ensures report.isReadyToPrint <==> |response| > ReadyOffset && response[ReadyOffset] == '0'
      ensures report.errors == ErrorText(response)
      ensures !report.isReadyToPrint ==> report.errors != ""
    {
      var errors: seq<string> := [];
      var isReadyToPrint := false;

      var isError := CharAt(response, ReadyOffset);
      var media := CharAt(response, MediaOffset);
      var head := CharAt(response, HeadOffset);
      var pause := CharAt(response, PauseOffset);

      isReadyToPrint := isError == "0";

      errors := AddMediaError(errors, media);
      assert errors == Messages(AsSeq(MediaFault(media)));
      errors := AddHeadError(errors, head);
      ghost var before := errors;
      if pause == "1" {
        errors := errors + ["Printer Paused"];
      }
      assert errors == before + Messages(AsSeq(PauseFault(pause)));
      SpecificMessages(response);
      assert errors == Messages(SpecificFaults(response));

      assert isReadyToPrint == IsReady(response);
      FaultsFromChecks(response);
      if !isReadyToPrint && |errors| == 0 {
        errors := errors + ["Error: Unknown Error"];
      }

      report := StatusReport(isReadyToPrint, Join(errors, ErrorSeparator));

      UnknownErrorRule(response);
    }
  }

  /** The endpoints of one client are pairwise different URLs. */
  lemma EndpointUrlsDistinct(c: ZebraBrowserPrintWrapper, e1: Endpoint, e2: Endpoint)
    requires e1 != e2
    ensures c.EndpointUrl(e1) != c.EndpointUrl(e2)
  {
    assert c.EndpointUrl(e1)[|c.apiUrl|..] == e1.Path();
    assert c.EndpointUrl(e2)[|c.apiUrl|..] == e2.Path();
  }

  /** After `setApiUrl(url)` every endpoint is `url`, a single "/" when `url`
      lacks one, and the endpoint's path. */
  method SetApiUrlThenRequest(c: ZebraBrowserPrintWrapper, url: string, e: Endpoint) returns (target: string)
    modifies c
    ensures c.Valid() && c.device == old(c.device)
    ensures target == (if |url| > 0 && url[|url| - 1] == '/' then url else url + "/") + e.Path()
  {
    c.SetApiUrl(url);
    target := c.EndpointUrl(e);
  }

  /** `setPrinter(d)` followed by `getPrinter()` yields `d` and leaves the base
      URL alone. */
  method SetPrinterThenGet(c: ZebraBrowserPrintWrapper, d: Device) returns (got: Option<Device>)
    modifies c
    ensures got == Some(d)
    ensures c.apiUrl == old(c.apiUrl)
  {
    c.SetPrinter(d);
    got := c.GetPrinter();
  }
}
