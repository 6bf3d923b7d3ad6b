/**
 * The access decision the two plate-recognition servers share: the list of admitted plates,
 * `match_allowed` (an exact hit first, else the fuzzy match of the first candidate that has
 * one) and the one-shot `portal_open` state machine behind `/check` and `/check/result`.
 * The fuzzy matcher (difflib's `get_close_matches` with `n=1`) is a parameter.
 */
module PlateAccess {
  import opened Common
  import opened PyStr

  /** The admitted plates, written in Cyrillic letters. */
  const ALLOWED_NUMBERS: seq<string> := [
    "\U{41C}222\U{41C}\U{41C}136",   // М222ММ136
    "\U{410}123\U{412}\U{421}77",    // А123ВС77
    "\U{41A}456\U{415}\U{41A}99",    // К456ЕК99
    "\U{420}789\U{422}\U{423}66",    // Р789ТУ66
    "\U{421}321\U{410}\U{414}50",    // С321АД50
    "\U{422}224\U{415}\U{41C}71"     // Т224ЕМ71
  ]

  /** `get_close_matches(candidate, ALLOWED_NUMBERS, n=1, cutoff=0)`: the best admitted plate, or nothing. */
  type Closest = string -> Option<string>

  /** The matcher only ever proposes admitted plates. */
  ghost predicate OracleSound(closest: Closest) {
    forall s :: closest(s).Some? ==> closest(s).value in ALLOWED_NUMBERS
  }

  /**
   * With `cutoff=0` every ratio passes the cutoff, so over the non-empty admitted list the
   * matcher always proposes a plate.
   */
  ghost predicate OracleTotal(closest: Closest) {
    forall s :: closest(s).Some?
  }

  /** The first loop of `match_allowed`: the first candidate that is an admitted plate. */
  function FirstExact(candidates: seq<string>): (r: Option<string>)
    ensures r.Some? ==> r.value in candidates && r.value in ALLOWED_NUMBERS
    ensures r.None? <==> forall i :: 0 <= i < |candidates| ==> candidates[i] !in ALLOWED_NUMBERS
  {
    if candidates == [] then None
    else if candidates[0] in ALLOWED_NUMBERS then Some(candidates[0])
    else FirstExact(candidates[1..])
  }

  /** `FirstExact` picks the earliest admitted candidate: all candidates before it are not admitted. */
  lemma {:induction false} FirstExactIsFirst(candidates: seq<string>, i: nat)
    requires i < |candidates| && candidates[i] in ALLOWED_NUMBERS
    requires forall j :: 0 <= j < i ==> candidates[j] !in ALLOWED_NUMBERS
    ensures FirstExact(candidates) == Some(candidates[i])
    decreases i
  {
    if i > 0 {
      FirstExactIsFirst(candidates[1..], i - 1);
    }
  }

  /** The second loop of `match_allowed`: the proposal for the first candidate that gets one. */
  function FirstClose(candidates: seq<string>, closest: Closest): (r: Option<string>)
    ensures r.Some? ==> exists i :: 0 <= i < |candidates| && closest(candidates[i]) == r
    ensures r.None? <==> forall i :: 0 <= i < |candidates| ==> closest(candidates[i]).None?
  {
    if candidates == [] then None
    else if closest(candidates[0]).Some? then closest(candidates[0])
    else
      var r := FirstClose(candidates[1..], closest);
      assert forall i :: 0 < i < |candidates| ==> candidates[i] == candidates[1..][i - 1];
      r
  }

  /** `FirstClose` answers for the earliest candidate that gets a proposal: all candidates before it get none. */
  lemma {:induction false} FirstCloseIsFirst(candidates: seq<string>, closest: Closest, i: nat)
    requires i < |candidates| && closest(candidates[i]).Some?
    requires forall j :: 0 <= j < i ==> closest(candidates[j]).None?
    ensures FirstClose(candidates, closest) == closest(candidates[i])
    decreases i
  {
    if i > 0 {
      FirstCloseIsFirst(candidates[1..], closest, i - 1);
    }
  }

  /** What `match_allowed` returns: the chosen number and whether the portal may open. */
  datatype Match = Match(number: string, allowed: bool)

  /** `match_allowed`. */
  function MatchAllowed(candidates: seq<string>, closest: Closest): (m: Match)
    ensures m.allowed <==> m.number != []
    ensures OracleSound(closest) && m.allowed ==> m.number in ALLOWED_NUMBERS
    ensures FirstExact(candidates).Some? ==> m == Match(FirstExact(candidates).value, true)
    ensures candidates == [] ==> m == Match("", false)
  {
    match FirstExact(candidates)
    case Some(c) => Match(c, true)
    case None =>
      var best := match FirstClose(candidates, closest) case Some(b) => b case None => "";
      Match(best, best != "")
  }

  /** No admitted plate is the empty string, so a proposed plate always counts as a match. */
  lemma AllowedNonEmpty()
    ensures forall p :: p in ALLOWED_NUMBERS ==> |p| >= 8
  {
  }

  /**
   * With no exact hit, the answer is the matcher's proposal for the first candidate that has
   * one, and the portal may open exactly when some candidate got a proposal.
   */
  lemma MatchFallsBack(candidates: seq<string>, closest: Closest)
    requires OracleSound(closest)
    requires FirstExact(candidates).None?
    ensures MatchAllowed(candidates, closest).allowed <==> exists i :: 0 <= i < |candidates| && closest(candidates[i]).Some?
    ensures FirstClose(candidates, closest).Some? ==>
              MatchAllowed(candidates, closest).number == FirstClose(candidates, closest).value
  {
    AllowedNonEmpty();
    var r := FirstClose(candidates, closest);
    if r.Some? {
      var i :| 0 <= i < |candidates| && closest(candidates[i]) == r;
      assert r.value in ALLOWED_NUMBERS;
    }
  }

  /**
   * With `cutoff=0` the portal may open for any non-empty candidate list, admitted or not:
   * the decision then depends only on whether OCR produced a candidate.
   */
  lemma AnyCandidateOpens(candidates: seq<string>, closest: Closest)
    requires OracleSound(closest) && OracleTotal(closest)
    ensures MatchAllowed(candidates, closest).allowed <==> candidates != []
  {
    if FirstExact(candidates).None? {
      MatchFallsBack(candidates, closest);
      if candidates != [] {
        assert closest(candidates[0]).Some?;
      }
    }
  }

  /** The reply of `/check`. */
  datatype CheckResponse =
    | EmptyBody                                                  // 400, `empty body`
    | TextAck                                                    // `type: text`
    | PhotoChecked(ok: bool, number: string, candidates: seq<string>)
    | RawSaved                                                   // `type: unknown`

  /** The `/check` reply for a request body, content type and OCR result, independently of the state. */
  function CheckReply(body: seq<Byte>, contentType: string, recognized: seq<string>, closest: Closest): CheckResponse {
    if body == [] then EmptyBody
    else if StartsWith(contentType, "text/plain") then TextAck
    else if StartsWith(contentType, "image/jpeg") then
      var m := MatchAllowed(recognized, closest);
      PhotoChecked(m.allowed, m.number, recognized)
    else RawSaved
  }

  /** Only a photo answered `ok` opens the portal; a reply that is not a photo keeps the state. */
  lemma CheckReplyOpens(body: seq<Byte>, contentType: string, recognized: seq<string>, closest: Closest)
    ensures var r := CheckReply(body, contentType, recognized, closest);
            (r.PhotoChecked? <==> body != [] && !StartsWith(contentType, "text/plain") && StartsWith(contentType, "image/jpeg")) &&
            (r.PhotoChecked? && r.ok ==> r.number != [] && r.candidates == recognized) &&
            (body == [] ==> r == EmptyBody)
  {
  }

  /** The module globals `portal_open` and `last_photo_number`. */
  class Portal {
    var portalOpen: bool
    var lastPhotoNumber: string

    constructor ()
      ensures !portalOpen && lastPhotoNumber == ""
    {
      portalOpen, lastPhotoNumber := false, "";
    }

    /**
     * `/check`: `recognized` is what `ocr_process` returns for the saved photo (consulted only
     * for a JPEG body). Only the photo branch changes the state: the portal opens exactly when
     * the match is allowed, and the chosen number is kept.
     */
    method Check(body: seq<Byte>, contentType: string, recognized: seq<string>, closest: Closest)
      returns (resp: CheckResponse)
      modifies this
      ensures resp == CheckReply(body, contentType, recognized, closest)
      ensures resp.PhotoChecked? ==> portalOpen == resp.ok && lastPhotoNumber == resp.number
      ensures !resp.PhotoChecked? ==> portalOpen == old(portalOpen) && lastPhotoNumber == old(lastPhotoNumber)
    {
      if body == [] {
        return EmptyBody;
      }
      if StartsWith(contentType, "text/plain") {
        return TextAck;
      }
      if StartsWith(contentType, "image/jpeg") {
        var m := MatchAllowed(recognized, closest);
        portalOpen := m.allowed;
        lastPhotoNumber := m.number;
        return PhotoChecked(m.allowed, m.number, recognized);
      }
      return RawSaved;
    }

    /** `/check/result`: one-shot, an open portal answers "true" once and closes. */
    method Result() returns (r: string)
      modifies this`portalOpen
      ensures r == (if old(portalOpen) then "true" else "false")
      ensures !portalOpen
    {
      if portalOpen {
        portalOpen := false;
        return "true";
      }
      return "false";
    }
  }
}
