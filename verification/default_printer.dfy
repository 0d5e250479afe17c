/** The default-printer response of the local print agent and the `Device`
    record parsed from it (`getDefaultPrinter` after its HTTP request, and
    `cleanUpString`, in src/index.ts). */
module DefaultPrinter {
  import opened Wrappers
  import opened JsString

  /** A printer as the agent describes it. `version` is always 0 when the
      record comes from the default-printer response. */
  datatype Device = Device(
    name: string,
    deviceType: string,
    connection: string,
    uid: string,
    provider: string,
    manufacturer: string,
    version: int)

  /** Why parsing fails. `NoDefaultPrinter` is the error thrown with the
      message "There's no default printer"; `FieldWithoutColon(i)` is the
      exception raised when segment `i` has no ':' and `cleanUpString` calls
      `trim` on the missing second piece. */
  datatype ParseError = NoDefaultPrinter | FieldWithoutColon(segment: nat)

  /** The message of the `NoDefaultPrinter` error. */
  const NoDefaultPrinterMessage := "There's no default printer"

  /** Separator between the segments of the response: a newline and a tab. */
  const FieldSeparator := "\n\t"

  /** Number of segments a well-formed response has: a header and six fields. */
  const FieldCount := 7

  /** `cleanUpString`: the second ':'-separated piece of `str`, trimmed; there
      is none (the source reads `undefined`) when `str` has no ':'. */
  function CleanUpString(str: string): (r: Option<string>)
    ensures r.None? <==> ':' !in str
  {
    var arr := Split(str, ":");
    if |arr| < 2 then
      assert ':' !in str by { SplitAvoidsOnlyPiece(str, ':'); }
      None
    else
      assert ':' in str by { JoinSplit(str, ":"); JoinHasSeparator(arr, ":"); }
      Some(Trim(arr[1]))
  }

  /** A one-piece split means the separator character is absent. */
  lemma SplitAvoidsOnlyPiece(str: string, c: char)
    requires |Split(str, [c])| < 2
    ensures c !in str
  {
    SplitPiecesAvoidSeparator(str, [c]);
    assert Split(str, [c]) == [str];
    forall k | 0 <= k < |str| ensures str[k] != c {
      assert !OccursAt(Split(str, [c])[0], [c], k);
      assert str[k..k + 1] == [str[k]];
    }
  }

  /** A join of two or more pieces contains the separator. */
  lemma JoinHasSeparator(xs: seq<string>, sep: string)
    requires |xs| >= 2 && |sep| > 0
    ensures sep[0] in Join(xs, sep)
  {
    assert Join(xs, sep) == xs[0] + sep + Join(xs[1..], sep);
    assert Join(xs, sep)[|xs[0]|] == sep[0];
  }

  /** `cleanUpString` returns the trimmed text strictly between the first and
      the second ':' of its input, or up to the end when there is only one. */
  lemma CleanUpStringBetweenColons(p: string, m: string, q: string)
    requires ':' !in p && ':' !in m
    requires q == "" || q[0] == ':'
    ensures CleanUpString(p + ":" + m + q) == Some(Trim(m))
  {
    var str := p + ":" + (m + q);
    assert p + ":" + m + q == str;
    SplitAfter(p, ":", m + q);
    if q == "" {
      assert m + q == m;
      SplitWhole(m, ":");
    } else {
      assert m + q == m + ":" + q[1..];
      SplitAfter(m, ":", q[1..]);
    }
    assert Split(str, ":")[1] == m;
  }

  /** Segment `i` of the response as a field value, or the exception
      `cleanUpString` raises on it. */
  function CleanField(raw: seq<string>, i: nat): (r: Result<string, ParseError>)
    requires i < |raw|
    ensures r.Success? <==> ':' in raw[i]
    ensures r.Failure? ==> r.error == FieldWithoutColon(i)
    ensures r.Success? ==> CleanUpString(raw[i]) == Some(r.value)
  {
    match CleanUpString(raw[i])
    case None => Failure(FieldWithoutColon(i))
    case Some(v) => Success(v)
  }

  /** The default-printer response text as `getDefaultPrinter` parses it:
      exactly seven segments separated by newline-tab, the first ignored and
      the next six giving, in order, name, deviceType, connection, uid,
      provider and manufacturer. The fields are extracted left to right, so
      the first segment without ':' is the one reported. */
  function ParseDefaultPrinter(data: string): (r: Result<Device, ParseError>)
    ensures r == Failure(NoDefaultPrinter) <==> |Split(data, FieldSeparator)| != FieldCount
    ensures r.Success? ==> r.value.version == 0
  {
    var raw := Split(data, FieldSeparator);
    if data == "" then
      assert |raw| == 1 by { assert IndexOf(data, FieldSeparator) == None; }
      Failure(NoDefaultPrinter)
    else if |raw| != FieldCount then Failure(NoDefaultPrinter)
    else DeviceFromSegments(raw)
  }

  /** The six field extractions of `getDefaultPrinter`, in source order. */
  function DeviceFromSegments(raw: seq<string>): (r: Result<Device, ParseError>)
    requires |raw| == FieldCount
    ensures r.Failure? ==> r.error.FieldWithoutColon?
    ensures r.Success? ==> r.value.version == 0
  {
    var name :- CleanField(raw, 1);
    var deviceType :- CleanField(raw, 2);
    var connection :- CleanField(raw, 3);
    var uid :- CleanField(raw, 4);
    var provider :- CleanField(raw, 5);
    var manufacturer :- CleanField(raw, 6);
    Success(Device(name, deviceType, connection, uid, provider, manufacturer, 0))
  }

  /** Parsing succeeds exactly when the response has seven segments and each
      of the six field segments has a ':'. When a field segment lacks one,
      the error names the first such segment. */
  lemma ParseOutcome(data: string)
    ensures var raw := Split(data, FieldSeparator);
      ParseDefaultPrinter(data).Success? <==>
        |raw| == FieldCount && forall j :: 1 <= j <= 6 ==> ':' in raw[j]
    ensures var raw := Split(data, FieldSeparator);
      var r := ParseDefaultPrinter(data);
      r.Failure? && r.error.FieldWithoutColon? ==>
        var i := r.error.segment;
        && |raw| == FieldCount
        && 1 <= i <= 6
        && ':' !in raw[i]
        && ColonsBefore(raw, i)
  {
    var raw := Split(data, FieldSeparator);
    if data == "" {
      assert |raw| == 1;
    } else if |raw| == FieldCount {
      SegmentsSucceed(raw);
      SegmentsFirstError(raw);
    }
  }

  /** The field extractions succeed exactly when every field segment has a ':'. */
  lemma SegmentsSucceed(raw: seq<string>)
    requires |raw| == FieldCount
    ensures DeviceFromSegments(raw).Success? <==> forall j :: 1 <= j <= 6 ==> ':' in raw[j]
  {
    if forall j :: 1 <= j <= 6 ==> ':' in raw[j] {
      assert CleanField(raw, 1).Success? && CleanField(raw, 2).Success? && CleanField(raw, 3).Success?;
      assert CleanField(raw, 4).Success? && CleanField(raw, 5).Success? && CleanField(raw, 6).Success?;
    } else {
      var j :| 1 <= j <= 6 && ':' !in raw[j];
      assert CleanField(raw, j).Failure?;
      assert j == 1 || j == 2 || j == 3 || j == 4 || j == 5 || j == 6;
    }
  }

  /** Field segments 1 up to but excluding `k` all have a ':'. */
  predicate ColonsBefore(raw: seq<string>, k: nat)
    requires k <= |raw|
  {
    forall j :: 1 <= j < k ==> ':' in raw[j]
  }

  /** One step of the left-to-right scan in `SegmentsFirstError`. */
  lemma ColonsBeforeStep(raw: seq<string>, k: nat)
    requires 1 <= k < |raw| && ColonsBefore(raw, k) && ':' in raw[k]
    ensures ColonsBefore(raw, k + 1)
  {
  }

  /** A failed extraction names the first field segment without a ':'. */
  lemma SegmentsFirstError(raw: seq<string>)
    requires |raw| == FieldCount
    ensures DeviceFromSegments(raw).Failure? ==>
      var i := DeviceFromSegments(raw).error.segment;
      1 <= i <= 6 && ':' !in raw[i] && ColonsBefore(raw, i)
  {
    var r := DeviceFromSegments(raw);
    assert ColonsBefore(raw, 1);
    if CleanField(raw, 1).Failure? {
      assert r == Failure(FieldWithoutColon(1));
      return;
    }
    ColonsBeforeStep(raw, 1);
    if CleanField(raw, 2).Failure? {
      assert r == Failure(FieldWithoutColon(2));
      return;
    }
    ColonsBeforeStep(raw, 2);
    if CleanField(raw, 3).Failure? {
      assert r == Failure(FieldWithoutColon(3));
      return;
    }
    ColonsBeforeStep(raw, 3);
    if CleanField(raw, 4).Failure? {
      assert r == Failure(FieldWithoutColon(4));
      return;
    }
    ColonsBeforeStep(raw, 4);
    if CleanField(raw, 5).Failure? {
      assert r == Failure(FieldWithoutColon(5));
      return;
    }
    ColonsBeforeStep(raw, 5);
    if CleanField(raw, 6).Failure? {
      assert r == Failure(FieldWithoutColon(6));
    }
  }

  /** Whenever parsing gets past the segment count and every field segment
      has a ':', the device holds, in order, what `cleanUpString` returns for
      segments 1 to 6, and version 0. With `CleanUpStringBetweenColons` this
      fixes every field of every such response, whatever its values contain. */
  lemma ParseFields(data: string)
    requires |Split(data, FieldSeparator)| == FieldCount
    requires forall j :: 1 <= j <= 6 ==> ':' in Split(data, FieldSeparator)[j]
    ensures var raw := Split(data, FieldSeparator);
      ParseDefaultPrinter(data) == Success(Device(
        CleanUpString(raw[1]).value, CleanUpString(raw[2]).value,
        CleanUpString(raw[3]).value, CleanUpString(raw[4]).value,
        CleanUpString(raw[5]).value, CleanUpString(raw[6]).value, 0))
  {
    var raw := Split(data, FieldSeparator);
    assert ParseDefaultPrinter(data) == DeviceFromSegments(raw);
    assert ':' in raw[1] && ':' in raw[2] && ':' in raw[3];
    assert ':' in raw[4] && ':' in raw[5] && ':' in raw[6];
  }

  /** A response whose seven segments contain no newline, and whose six
      field segments are each a key, a ':' and a value (neither containing
      ':'), parses to the device whose fields are the six values, trimmed, in
      order, with version 0: parsing inverts the agent's rendering. */
  lemma ParseResponse(segs: seq<string>, keys: seq<string>, values: seq<string>)
    requires |segs| == FieldCount && |keys| == 6 && |values| == 6
    requires forall i :: 0 <= i < |segs| ==> '\n' !in segs[i]
    requires forall i :: 0 <= i < 6 ==> ':' !in keys[i] && ':' !in values[i]
    requires forall i :: 0 <= i < 6 ==> segs[i + 1] == keys[i] + ":" + values[i]
    ensures ParseDefaultPrinter(Join(segs, FieldSeparator)) ==
      Success(Device(Trim(values[0]), Trim(values[1]), Trim(values[2]),
                     Trim(values[3]), Trim(values[4]), Trim(values[5]), 0))
  {
    SplitJoin(segs, FieldSeparator);
    var data := Join(segs, FieldSeparator);
    assert data != "" by { JoinHasSeparator(segs, FieldSeparator); }
    forall i | 1 <= i < 7 ensures CleanField(segs, i) == Success(Trim(values[i - 1])) {
      assert segs[i] == keys[i - 1] + ":" + values[i - 1] + "";
      CleanUpStringBetweenColons(keys[i - 1], values[i - 1], "");
    }
  }

  /** Trimming one leading space off a two-character value; used by the
      example below. */
  lemma TrimSpaceBeforeTwo(c: char, d: char)
    requires !IsWhiteSpace(c) && !IsWhiteSpace(d)
    ensures Trim([' ', c, d]) == [c, d]
  {
    assert [' '] + [c, d] + [] == [' ', c, d];
    TrimUnique([' '], [c, d], []);
  }

  /** A value that itself contains ':' is cut at it: only the text up to the
      second ':' of the segment is kept. */
  lemma CleanUpStringStopsAtSecondColon()
    ensures CleanUpString("uid: 00:07:4D") == Some("00")
  {
    assert "uid" + ":" + " 00" + ":07:4D" == "uid: 00:07:4D";
    CleanUpStringBetweenColons("uid", " 00", ":07:4D");
    TrimSpaceBeforeTwo('0', '0');
  }
}
