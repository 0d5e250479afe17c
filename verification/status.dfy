/** Decoding of the printer's answer to the `~HQES` host query, as
    `checkPrinterStatus` in src/index.ts does it once the answer has been read:
    four fixed character offsets decide readiness and which error messages are
    reported, and the messages are joined with ",". */
module Status {
  import opened Wrappers
  import opened JsString

  /** Offset of the flag that is '0' when the printer has no error. */
  const ReadyOffset: nat := 70
  /** Offset of the media error code. */
  const MediaOffset: nat := 88
  /** Offset of the print head error code. */
  const HeadOffset: nat := 87
  /** Offset of the pause flag. */
  const PauseOffset: nat := 84

  /** Separator `Array.prototype.join` uses when it is given none. */
  const ErrorSeparator := ","

  /** Every error the decoder can report. */
  datatype Fault =
    | PaperOut | RibbonOut | MediaDoorOpen | CutterFault
    | PrintheadOverheating | MotorOverheating | PrintheadFault | IncorrectPrinthead
    | PrinterPaused
    | UnknownError
  {
    /** The text reported for the fault; it reads back as the fault. */
    function Message(): (r: string)
      ensures FaultOfMessage(r) == Some(this)
    {
      match this
      case PaperOut => "Paper out"
      case RibbonOut => "Ribbon Out"
      case MediaDoorOpen => "Media Door Open"
      case CutterFault => "Cutter Fault"
      case PrintheadOverheating => "Printhead Overheating"
      case MotorOverheating => "Motor Overheating"
      case PrintheadFault => "Printhead Fault"
      case IncorrectPrinthead => "Incorrect Printhead"
      case PrinterPaused => "Printer Paused"
      case UnknownError => "Error: Unknown Error"
    }

    /** Which check reports the fault, in the order the checks run: media (0),
        print head (1), pause (2), and the fallback (3). */
    function Group(): nat
    {
      match this
      case PaperOut | RibbonOut | MediaDoorOpen | CutterFault => 0
      case PrintheadOverheating | MotorOverheating | PrintheadFault | IncorrectPrinthead => 1
      case PrinterPaused => 2
      case UnknownError => 3
    }
  }

  /** The media fault for the character at the media offset, if it is a known code. */
  function MediaFault(code: string): (r: Option<Fault>)
    ensures r.Some? <==> code == "1" || code == "2" || code == "4" || code == "8"
    ensures r.Some? ==> r.value.Group() == 0
  {
    if code == "1" then Some(PaperOut)
    else if code == "2" then Some(RibbonOut)
    else if code == "4" then Some(MediaDoorOpen)
    else if code == "8" then Some(CutterFault)
    else None
  }

  /** The print head fault for the character at the head offset, if it is a known code. */
  function HeadFault(code: string): (r: Option<Fault>)
    ensures r.Some? <==> code == "1" || code == "2" || code == "4" || code == "8"
    ensures r.Some? ==> r.value.Group() == 1
  {
    if code == "1" then Some(PrintheadOverheating)
    else if code == "2" then Some(MotorOverheating)
    else if code == "4" then Some(PrintheadFault)
    else if code == "8" then Some(IncorrectPrinthead)
    else None
  }

  /** The pause fault for the character at the pause offset. */
  function PauseFault(code: string): (r: Option<Fault>)
    ensures r.Some? <==> code == "1"
    ensures r.Some? ==> r.value == PrinterPaused
  {
    if code == "1" then Some(PrinterPaused) else None
  }

  function AsSeq(f: Option<Fault>): seq<Fault>
  {
    if f.Some? then [f.value] else []
  }

  /** The printer is ready when the character at offset 70 is '0'; a
      response of 70 characters or fewer has no such character and is never
      ready. */
  predicate IsReady(response: string)
    ensures IsReady(response) <==> |response| > ReadyOffset && response[ReadyOffset] == '0'
  {
    CharAt(response, ReadyOffset) == "0"
  }

  /** The faults the three code checks find, in the order they run. */
  function SpecificFaults(response: string): (r: seq<Fault>)
    ensures |r| <= 3
    ensures forall f :: f in r ==> f.Group() < 3
  {
    AsSeq(MediaFault(CharAt(response, MediaOffset)))
    + AsSeq(HeadFault(CharAt(response, HeadOffset)))
    + AsSeq(PauseFault(CharAt(response, PauseOffset)))
  }

  /** The reported faults: the specific ones, or the unknown error alone when
      the printer is not ready and no check found anything. */
  function Faults(response: string): (r: seq<Fault>)
    ensures r == SpecificFaults(response) || r == [UnknownError]
    ensures !IsReady(response) ==> r != []
  {
    var specific := SpecificFaults(response);
    if !IsReady(response) && specific == [] then [UnknownError] else specific
  }

  /** The messages of a list of faults, in order. */
  function Messages(fs: seq<Fault>): (ms: seq<string>)
    ensures |ms| == |fs|
    ensures forall i :: 0 <= i < |fs| ==> ms[i] == fs[i].Message()
  {
    if fs == [] then [] else [fs[0].Message()] + Messages(fs[1..])
  }

  lemma MessagesAppend(fs: seq<Fault>, gs: seq<Fault>)
    ensures Messages(fs + gs) == Messages(fs) + Messages(gs)
  {
  }

  /** The messages of the specific faults are those of the three checks, one
      after the other. */
  lemma SpecificMessages(response: string)
    ensures Messages(SpecificFaults(response))
            == Messages(AsSeq(MediaFault(CharAt(response, MediaOffset))))
               + Messages(AsSeq(HeadFault(CharAt(response, HeadOffset))))
               + Messages(AsSeq(PauseFault(CharAt(response, PauseOffset))))
  {
    var m := AsSeq(MediaFault(CharAt(response, MediaOffset)));
    var h := AsSeq(HeadFault(CharAt(response, HeadOffset)));
    var p := AsSeq(PauseFault(CharAt(response, PauseOffset)));
    MessagesAppend(m, h);
    MessagesAppend(m + h, p);
  }

  /** The report's error list is built by appending the unknown error to the
      messages of the three checks when the printer is not ready and they
      found nothing. */
  lemma FaultsFromChecks(response: string)
    ensures Messages(Faults(response))
            == if !IsReady(response) && |Messages(SpecificFaults(response))| == 0
               then Messages(SpecificFaults(response)) + [UnknownError.Message()]
               else Messages(SpecificFaults(response))
  {
  }

  /** The `errors` string of the status report. */
  function ErrorText(response: string): (r: string)
    ensures r == "" <==> Faults(response) == []
  {
    var ms := Messages(Faults(response));
    if ms != [] then
      MessageHasNoSeparator(Faults(response)[0]);
      JoinNonEmpty(ms, ErrorSeparator);
      Join(ms, ErrorSeparator)
    else
      Join(ms, ErrorSeparator)
  }

  // ---------------------------------------------------------------------------
  // Properties of the decoding
  // ---------------------------------------------------------------------------

  /** The faults of `fs` come from strictly later checks as the list goes on. */
  predicate InCheckOrder(fs: seq<Fault>)
  {
    forall i, j :: 0 <= i < j < |fs| ==> fs[i].Group() < fs[j].Group()
  }

  lemma InCheckOrderAppend(xs: seq<Fault>, ys: seq<Fault>)
    requires InCheckOrder(xs) && InCheckOrder(ys)
    requires forall x, y :: x in xs && y in ys ==> x.Group() < y.Group()
    ensures InCheckOrder(xs + ys)
  {
    var zs := xs + ys;
    forall i, j | 0 <= i < j < |zs| ensures zs[i].Group() < zs[j].Group() {
      if j < |xs| {
        assert zs[i] == xs[i] && zs[j] == xs[j];
      } else if i >= |xs| {
        assert zs[i] == ys[i - |xs|] && zs[j] == ys[j - |xs|];
      } else {
        assert zs[i] == xs[i] && zs[j] == ys[j - |xs|];
      }
    }
  }

  /** The outcomes of the three checks, concatenated, come in check order. */
  lemma PartsInCheckOrder(media: Option<Fault>, head: Option<Fault>, pause: Option<Fault>)
    requires media.Some? ==> media.value.Group() == 0
    requires head.Some? ==> head.value.Group() == 1
    requires pause.Some? ==> pause.value == PrinterPaused
    ensures InCheckOrder(AsSeq(media) + AsSeq(head) + AsSeq(pause))
    ensures |AsSeq(media) + AsSeq(head) + AsSeq(pause)| <= 3
  {
    var m, h, p := AsSeq(media), AsSeq(head), AsSeq(pause);
    InCheckOrderAppend(m, h);
    InCheckOrderAppend(m + h, p);
  }

  /** A fault of a check's group in the concatenated outcomes can only come
      from that check. */
  lemma PartsProvenance(media: Option<Fault>, head: Option<Fault>, pause: Option<Fault>)
    requires media.Some? ==> media.value.Group() == 0
    requires head.Some? ==> head.value.Group() == 1
    requires pause.Some? ==> pause.value == PrinterPaused
    ensures forall f :: f in AsSeq(media) + AsSeq(head) + AsSeq(pause) && f.Group() == 0 ==> media == Some(f)
    ensures forall f :: f in AsSeq(media) + AsSeq(head) + AsSeq(pause) && f.Group() == 1 ==> head == Some(f)
    ensures PrinterPaused in AsSeq(media) + AsSeq(head) + AsSeq(pause) <==> pause.Some?
    ensures media.Some? ==> media.value in AsSeq(media) + AsSeq(head) + AsSeq(pause)
    ensures head.Some? ==> head.value in AsSeq(media) + AsSeq(head) + AsSeq(pause)
  {
    var m, h, p := AsSeq(media), AsSeq(head), AsSeq(pause);
    forall f: Fault | f in m + h + p && f.Group() == 0 ensures media == Some(f) {
      assert f !in h && f !in p;
    }
    forall f: Fault | f in m + h + p && f.Group() == 1 ensures head == Some(f) {
      assert f !in m && f !in p;
    }
  }

  /** Reported faults come in check order, at most one per check; a media or
      print head fault is reported exactly when the code at its offset names
      it, and the pause fault exactly when the pause flag is set. */
  lemma FaultsInCheckOrder(response: string)
    ensures InCheckOrder(Faults(response))
    ensures forall f :: f in Faults(response) && f.Group() == 0 ==>
              MediaFault(CharAt(response, MediaOffset)) == Some(f)
    ensures forall f :: f in Faults(response) && f.Group() == 1 ==>
              HeadFault(CharAt(response, HeadOffset)) == Some(f)
    ensures MediaFault(CharAt(response, MediaOffset)).Some? ==>
              MediaFault(CharAt(response, MediaOffset)).value in Faults(response)
    ensures HeadFault(CharAt(response, HeadOffset)).Some? ==>
              HeadFault(CharAt(response, HeadOffset)).value in Faults(response)
    ensures PrinterPaused in Faults(response) <==> CharAt(response, PauseOffset) == "1"
  {
    var media := MediaFault(CharAt(response, MediaOffset));
    var head := HeadFault(CharAt(response, HeadOffset));
    var pause := PauseFault(CharAt(response, PauseOffset));
    PartsInCheckOrder(media, head, pause);
    PartsProvenance(media, head, pause);
    assert pause.Some? <==> CharAt(response, PauseOffset) == "1";
  }

  /** The unknown error is reported exactly when the printer is not ready and
      no check found anything, and then it is the only entry. */
  lemma UnknownErrorRule(response: string)
    ensures UnknownError in Faults(response) <==> !IsReady(response) && SpecificFaults(response) == []
    ensures UnknownError in Faults(response) ==> Faults(response) == [UnknownError]
    ensures !IsReady(response) ==> Faults(response) != [] && ErrorText(response) != ""
  {
    assert UnknownError !in SpecificFaults(response);
  }

  /** A response too short to reach the pause flag has no specific fault: it
      reports either ready with no error, or not ready with the unknown error
      only; up to 70 characters it is always the latter. */
  lemma ShortResponse(response: string)
    requires |response| <= PauseOffset
    ensures |response| <= ReadyOffset ==> !IsReady(response)
    ensures SpecificFaults(response) == []
    ensures IsReady(response) ==> Faults(response) == []
    ensures !IsReady(response) ==> Faults(response) == [UnknownError]
  {
  }

  /** The fault whose message `m` is, if any. */
  function FaultOfMessage(m: string): Option<Fault>
  {
    match m
    case "Paper out" => Some(PaperOut)
    case "Ribbon Out" => Some(RibbonOut)
    case "Media Door Open" => Some(MediaDoorOpen)
    case "Cutter Fault" => Some(CutterFault)
    case "Printhead Overheating" => Some(PrintheadOverheating)
    case "Motor Overheating" => Some(MotorOverheating)
    case "Printhead Fault" => Some(PrintheadFault)
    case "Incorrect Printhead" => Some(IncorrectPrinthead)
    case "Printer Paused" => Some(PrinterPaused)
    case "Error: Unknown Error" => Some(UnknownError)
    case _ => None
  }

  /** Different faults have different messages, and no message contains the
      separator. */
  lemma MessagesDistinct(f: Fault, g: Fault)
    ensures f.Message() == g.Message() ==> f == g
    ensures ',' !in f.Message() && f.Message() != ""
  {
    MessageHasNoSeparator(f);
  }

  /** No message contains the separator, and none is empty; the ten literals
      are checked one group of faults at a time. */
  lemma MessageHasNoSeparator(f: Fault)
    ensures forall i :: 0 <= i < |f.Message()| ==> f.Message()[i] != ','
    ensures f.Message() != ""
  {
    if f.Group() == 0 {
      MediaMessageHasNoSeparator(f);
    } else if f.Group() == 1 {
      HeadMessageHasNoSeparator(f);
    } else {
      OtherMessageHasNoSeparator(f);
    }
  }

  /** `MessageHasNoSeparator` for the four media faults. */
  lemma MediaMessageHasNoSeparator(f: Fault)
    requires f.Group() == 0
    ensures forall i :: 0 <= i < |f.Message()| ==> f.Message()[i] != ','
    ensures f.Message() != ""
  {
  }

  /** `MessageHasNoSeparator` for the four print head faults. */
  lemma HeadMessageHasNoSeparator(f: Fault)
    requires f.Group() == 1
    ensures forall i :: 0 <= i < |f.Message()| ==> f.Message()[i] != ','
    ensures f.Message() != ""
  {
  }

  /** `MessageHasNoSeparator` for the pause fault and the unknown error. */
  lemma OtherMessageHasNoSeparator(f: Fault)
    requires f.Group() >= 2
    ensures forall i :: 0 <= i < |f.Message()| ==> f.Message()[i] != ','
    ensures f.Message() != ""
  {
  }

  lemma {:induction false} MessagesInjective(fs: seq<Fault>, gs: seq<Fault>)
    requires Messages(fs) == Messages(gs)
    ensures fs == gs
  {
    assert |fs| == |gs|;
    forall i | 0 <= i < |fs| ensures fs[i] == gs[i] {
      MessagesDistinct(fs[i], gs[i]);
    }
  }

  /** A non-empty join of non-empty strings is non-empty. */
  lemma JoinNonEmpty(xs: seq<string>, sep: string)
    requires |xs| >= 1 && xs[0] != ""
    ensures Join(xs, sep) != ""
  {
    if |xs| > 1 {
      assert Join(xs, sep) == xs[0] + sep + Join(xs[1..], sep);
    }
  }

  /** The joined `errors` string loses nothing: it is empty exactly when no
      fault is reported, and otherwise splitting it on "," gives back the
      messages in order. */
  lemma ErrorTextRoundTrip(response: string)
    ensures ErrorText(response) == "" <==> Faults(response) == []
    ensures Faults(response) != [] ==>
              Split(ErrorText(response), ErrorSeparator) == Messages(Faults(response))
  {
    var ms := Messages(Faults(response));
    if Faults(response) != [] {
      forall i | 0 <= i < |ms| ensures ErrorSeparator[0] !in ms[i] && ms[i] != "" {
        MessagesDistinct(Faults(response)[i], Faults(response)[i]);
      }
      SplitJoin(ms, ErrorSeparator);
      JoinNonEmpty(ms, ErrorSeparator);
    }
  }

  /** Two responses with the same `errors` string report the same faults. */
  lemma ErrorTextDeterminesFaults(r1: string, r2: string)
    requires ErrorText(r1) == ErrorText(r2)
    ensures Faults(r1) == Faults(r2)
  {
    ErrorTextRoundTrip(r1);
    ErrorTextRoundTrip(r2);
    if Faults(r1) != [] {
      MessagesInjective(Faults(r1), Faults(r2));
    }
  }

  /** A ready printer with ribbon out (media code '2'), motor overheating
      (head code '2') and the pause flag set reports all three, in that order. */
  lemma ReadyWithThreeFaults(response: string)
    requires |response| > MediaOffset
    requires response[ReadyOffset] == '0' && response[MediaOffset] == '2'
    requires response[HeadOffset] == '2' && response[PauseOffset] == '1'
    ensures IsReady(response)
    ensures ErrorText(response) == "Ribbon Out" + "," + "Motor Overheating" + "," + "Printer Paused"
  {
    assert CharAt(response, ReadyOffset) == "0";
    assert CharAt(response, MediaOffset) == "2";
    assert CharAt(response, HeadOffset) == "2";
    assert CharAt(response, PauseOffset) == "1";
    assert Faults(response) == [RibbonOut, MotorOverheating, PrinterPaused];
    ThreeMessagesJoined();
  }

  lemma ThreeMessagesJoined()
    ensures Join(Messages([RibbonOut, MotorOverheating, PrinterPaused]), ErrorSeparator)
            == "Ribbon Out" + "," + "Motor Overheating" + "," + "Printer Paused"
  {
    var ms := ["Ribbon Out", "Motor Overheating", "Printer Paused"];
    assert Messages([RibbonOut, MotorOverheating, PrinterPaused]) == ms;
    JoinCons(ms[0], ms[1..], ErrorSeparator);
    assert ms == [ms[0]] + ms[1..];
    JoinCons(ms[1], ms[2..], ErrorSeparator);
    assert ms[1..] == [ms[1]] + ms[2..];
  }
}
