# ZebraBrowserPrintWrapper — a Dafny model

`ZebraBrowserPrintWrapper` is a small TypeScript client for Zebra's
Browser Print agent. The agent is a local HTTP service that relays data to
label printers. The client keeps two fields:

- the agent's base URL;
- the selected printer, a `Device` record.

It builds the agent's endpoint URLs from the base URL. It also interprets
two text answers from the agent:

- the default-printer description, a newline-tab separated list of
  `key: value` segments;
- the printer's answer to the `~HQES` host-status query, where four fixed
  character offsets encode readiness and the current errors.

The model has five modules:

- `Wrappers` holds `Option` and `Result`.
- `JsString` writes out the JavaScript string primitives the client
  relies on: `charAt`, `slice(-1)`, `split` on a string separator,
  `Array.prototype.join` and `trim`, with their edge cases stated
  explicitly. Examples are `charAt` past the end giving `""`, `"".split(x)`
  giving `[""]`, and `[].join()` giving `""`. The module proves:
  - split/join round trips;
  - that `trim` is characterised by its shape, and that it is idempotent.
- `DefaultPrinter` holds `cleanUpString` and the parsing half of
  `getDefaultPrinter`. Parsing either yields a `Device` or one of the two
  exceptions the source can raise, modelled as a `Result`.
- `Status` decodes a `~HQES` answer into the list of faults it reports,
  each with its message, and into the joined `errors` string.
- `Client` holds the class, with its `apiUrl` and `device` fields:
  - the constructor and the setters and getters;
  - the endpoint URLs;
  - `checkPrinterStatus`, written imperatively. Its method body accumulates
    the error messages the way the source does, and it is proved against
    the `Status` specification. Its two `switch` statements are the methods
    `AddMediaError` and `AddHeadError`. Each appends to the list it is given,
    as the inline `switch` does.

## Model

| member | source | states |
|---|---|---|
| Client.NormalizeApiUrl | src/index.ts:14-16 | the stored URL ends with "/"; it starts with the given URL and is at most one character longer; it equals the given URL exactly when that already ends with "/" |
| Client.NormalizeIdempotent | src/index.ts:15 | normalising an already normalised URL changes nothing |
| Client.ZebraBrowserPrintWrapper.constructor | src/index.ts:5-12 | the device starts as the empty placeholder; an override URL is stored normalised; without one, the preconfigured URL is stored unchanged |
| Client.ZebraBrowserPrintWrapper.SetApiUrl | src/index.ts:14-16 | the new base URL is the normalised argument and ends with "/"; the device is untouched |
| Client.ZebraBrowserPrintWrapper.SetPrinter | src/index.ts:84-86 | the device becomes the argument; the base URL is untouched |
| Client.ZebraBrowserPrintWrapper.GetPrinter | src/index.ts:88-90 | returns the stored device |
| Client.SetPrinterThenGet | src/index.ts:84-90 | setting a printer and then reading it back gives that printer, and the base URL does not change |
| Client.ZebraBrowserPrintWrapper.EndpointUrl | src/index.ts:26 | an endpoint URL is the base URL followed by the endpoint's path ("available", "default", "write" or "read"; also lines 51, 161, 184, 207 and 232); when the base URL ends with "/", that "/" is the last one and the path follows it as its own segment |
| Client.EndpointUrlsDistinct | src/index.ts:51 | the four endpoints of one client are pairwise different URLs |
| Client.SetApiUrlThenRequest | src/index.ts:14-16 | after `setApiUrl(url)` a request goes to `url`, plus "/" when `url` lacks one, plus the endpoint's path |
| Client.AddMediaError | src/index.ts:115-130 | the media switch appends the message of the fault that the media code names, and nothing for any other code |
| Client.AddHeadError | src/index.ts:132-147 | the print head switch appends the message of the fault that the head code names, and nothing for any other code |
| Client.ZebraBrowserPrintWrapper.CheckPrinterStatus | src/index.ts:105-156 | ready exactly when the character at offset 70 exists and is '0'; the errors string is the join of the messages of `Faults(response)`; a printer that is not ready always reports at least one error |
| Status.IsReady | src/index.ts:108-113 | ready exactly when the response reaches offset 70 and the character there is '0'; a response of 70 characters or fewer is never ready |
| Status.MediaFault | src/index.ts:115-130 | the media check reports a fault exactly for the codes "1", "2", "4" and "8", and only faults of the media group |
| Status.HeadFault | src/index.ts:132-147 | the print head check reports a fault exactly for the codes "1", "2", "4" and "8", and only faults of the print head group |
| Status.PauseFault | src/index.ts:149 | the pause check reports "Printer Paused" exactly when the flag is "1", and nothing else |
| Status.SpecificFaults | src/index.ts:115-149 | the three checks together report at most three faults, none of them the fallback |
| Status.Faults | src/index.ts:115-151 | the reported faults are those of the three checks or the fallback alone; a printer that is not ready reports at least one |
| Status.ErrorText | src/index.ts:155 | the errors string is empty exactly when no fault is reported |
| Status.Fault.Message | src/index.ts:117-151 | each of the ten messages reads back as the fault that produced it |
| Status.FaultsInCheckOrder | src/index.ts:115-149 | faults appear in check order (media, head, pause, fallback), at most one per check; a media or head fault is reported exactly when the code at its offset names it, and it is that fault; "Printer Paused" is reported exactly when offset 84 is '1' |
| Status.UnknownErrorRule | src/index.ts:151 | "Error: Unknown Error" is reported exactly when the printer is not ready and no check found anything, and then it is the only entry; a printer that is not ready reports at least one fault and a non-empty errors string |
| Status.ShortResponse | src/index.ts:108-111 | a response too short to reach offset 84 has no specific fault, so it reports either nothing (ready) or only the unknown error; up to 70 characters it is always the latter |
| Status.MessagesDistinct | src/index.ts:117-151 | the ten messages are pairwise different, non-empty and free of "," |
| Status.MessageHasNoSeparator | src/index.ts:117-151 | no message is empty or contains the "," that `join()` puts between messages |
| Status.MessagesInjective | src/index.ts:115-151 | equal message lists come from equal fault lists |
| Status.ErrorTextRoundTrip | src/index.ts:155 | the joined errors string is empty exactly when no fault is reported; otherwise splitting it on "," gives back the messages in order |
| Status.ErrorTextDeterminesFaults | src/index.ts:155 | two answers with the same errors string report the same faults |
| Status.ReadyWithThreeFaults | src/index.ts:108-155 | a ready printer with media code '2', head code '2' and the pause flag set reports "Ribbon Out,Motor Overheating,Printer Paused" |
| DefaultPrinter.CleanUpString | src/index.ts:92-96 | there is no result (the source throws) exactly when the segment has no ':' |
| DefaultPrinter.CleanUpStringBetweenColons | src/index.ts:92-96 | the result is the trimmed text strictly between the first ':' and the second one (or the end of the segment) |
| DefaultPrinter.CleanUpStringStopsAtSecondColon | src/index.ts:93-94 | a value that itself contains ':' is cut at that ':' ("uid: 00:07:4D" gives "00") |
| DefaultPrinter.ParseDefaultPrinter | src/index.ts:57-78 | fails with "There's no default printer" exactly when the text does not split into seven newline-tab segments; a parsed device always has version 0 |
| DefaultPrinter.CleanField | src/index.ts:60-65 | extracting a field succeeds exactly when its segment has a ':', and yields what `cleanUpString` returns; otherwise it fails naming that segment |
| DefaultPrinter.DeviceFromSegments | src/index.ts:60-75 | the six field extractions fail only with a missing-colon error |
| DefaultPrinter.ParseOutcome | src/index.ts:57-65 | parsing succeeds exactly when there are seven segments and each of segments 1 to 6 has a ':'; otherwise a missing-colon error names the first such segment |
| DefaultPrinter.ParseFields | src/index.ts:57-75 | for every text of seven segments whose segments 1 to 6 each have a ':', the device holds the `cleanUpString` results of segments 1 to 6 as name, deviceType, connection, uid, provider and manufacturer, with version 0 |
| DefaultPrinter.ParseResponse | src/index.ts:57-75 | a well-formed response of a header and six `key:value` segments parses to the device whose fields are the trimmed values, in order name, deviceType, connection, uid, provider, manufacturer, with version 0 |
| JsString.SliceLast | src/index.ts:10 | `slice(-1)` is "" exactly for the empty string, and otherwise the last character |
| JsString.CharAt | src/index.ts:108-111 | `charAt` is "" exactly past the end, and otherwise the one character at that offset |
| JsString.IndexOf | src/index.ts:58 | the offset found is an occurrence of the separator, and no earlier offset is |
| JsString.Split | src/index.ts:58 | a split always has at least one piece (also line 93) |
| JsString.Join | src/index.ts:155 | joining nothing gives ""; otherwise the result starts with the first element |
| JsString.JoinSplit | src/index.ts:58 | joining the pieces of a split with the same separator gives back the text |
| JsString.SplitPiecesAvoidSeparator | src/index.ts:93 | no piece of a split contains the separator |
| JsString.SplitJoin | src/index.ts:58 | splitting a join gives back the pieces when none contains the separator's first character |
| JsString.TrimStart | src/index.ts:94 | removes exactly a white-space prefix and leaves a string that does not start with white space |
| JsString.TrimEnd | src/index.ts:94 | removes exactly a white-space suffix and leaves a string that does not end with white space |
| JsString.Trim | src/index.ts:94 | what `trim` returns neither starts nor ends with white space |
| JsString.TrimStartUnique | src/index.ts:94 | removing the leading white space from white space followed by a string that does not start with white space gives that string |
| JsString.TrimEndUnique | src/index.ts:94 | removing the trailing white space from a string that does not end with white space, followed by white space, gives that string |
| JsString.TrimUnique | src/index.ts:94 | `trim` of white space, a core and white space is the core, when the core neither starts nor ends with white space |
| JsString.TrimIdempotent | src/index.ts:94 | trimming twice is trimming once |

## Left out

- HTTP: `getAvailablePrinters`, `getDefaultPrinter`, `write`, `writeBlob`, `writeUrl`, `read`, and the `print`, `printBlob` and `printUrl` wrappers all go through `fetch`. Only the URLs they address (`EndpointUrl`) are modelled. `getDefaultPrinter` is modelled from the response text on (`ParseDefaultPrinter`). `checkPrinterStatus` is modelled from the answer read back after writing `~HQES` (`CheckPrinterStatus` takes that answer as a parameter).
- Request bodies: `JSON.stringify` of `{device, data}`, `FormData` and `Blob` are serialisation and I/O, and are not modelled.
- `getAvailablePrinters`: the check on the shape of the JSON answer and its "No printers available" error depend on parsed JSON and are not modelled.
- The `catch` blocks rethrow every error as `new Error(error)`, whose message is the caught error converted to text: its name, ": " and its message. That is "Error: There's no default printer" for the error thrown at line 78, and a "TypeError: " text whose wording depends on the JavaScript engine for a segment without ':'. `ParseError` names the original exception (`NoDefaultPrinter` or `FieldWithoutColon(i)`); the rethrown text is not modelled.
- The preconfigured agent URL is a constant of another file (src/constants.ts is not part of this model). The constructor takes it as the parameter `defaultApiUrl`.
- Asynchrony and concurrent calls on one instance are not modelled. Every method runs to completion before the next one starts.
- Strings are sequences of characters, with one character standing for one UTF-16 code unit. Surrogate pairs are not modelled.
- `typeof data !== 'object'` on the default-printer response is always true for the text of a response, so it is not modelled. The truthiness test on `data` is modelled as `data != ""`. It never changes the outcome, because `"".split("\n\t")` has one segment.
- DefaultPrinter.ParseResponse: states the parsed device only for responses built from `key:value` segments without '\n' and values without ':'. `DefaultPrinter.ParseFields` covers every text of seven segments, and `DefaultPrinter.CleanUpStringBetweenColons` gives each field's value for any segment.
- Client.ZebraBrowserPrintWrapper.constructor: `device` is `Option<Device>`, and `None` stands for the `{}` placeholder the field starts with. Reading that placeholder's fields (all `undefined`) is not modelled.

## Notes

- Media code '1' reports "Paper out" and media code '2' reports "Ribbon Out" (src/index.ts:116-120). `Status.ReadyWithThreeFaults` uses media code '2' for that reason.
- The fallback message is "Error: Unknown Error", with the "Error: " prefix as part of the literal (src/index.ts:151).
- The field `apiUrl` starts as the preconfigured URL without normalisation (src/index.ts:6). So `Valid()` (the base URL ends with "/") is guaranteed after an override or `setApiUrl`, or when that constant already ends with "/".
