/**
  The decision chain of `reverseLookup`: how the outcome of one query to the
  reverse-lookup service decides the status line, whether domains are saved,
  and whether the whole scan must stop (the `critical` result).

  Building the request, sending it with a 10-second timeout, reading the body
  and decoding the JSON are calls into libraries and the network; their
  outcome is the datatype `Exchange`, given as input.
 */
module Lookup {

  /** Go's `int` on a 64-bit platform, the type of the response's `total`. */
  newtype Int64 = x: int | -0x8000_0000_0000_0000 <= x < 0x8000_0000_0000_0000

  datatype Option<T> = None | Some(value: T)

  /** What `json.Unmarshal` made of the body: an error, or the two fields of
      `ApiResponse` (a missing field decodes as its zero value). */
  datatype Decoding =
    | Malformed(err: string)
    | Decoded(total: Int64, result: seq<string>)

  /** What reading the response body gave. */
  datatype Body =
    | ReadFailed(err: string)
    | Read(decoding: Decoding)

  /** The exchange with the service for one address, stage by stage: the
      request could not be built, it could not be sent or answered (this
      includes the timeout), or a response came back with a status code, a
      status text and a body. */
  datatype Exchange =
    | BuildFailed(err: string)
    | TransportFailed(err: string)
    | Responded(code: int, status: string, body: Body)

  /** The status line printed for the address. */
  datatype Status =
    | Error(message: string)
    | HttpError(status: string)
    | JsonError(message: string)
    | NoDomains
    | Domains(total: Int64)

  /** What `reverseLookup` decides: whether the error is critical, the status
      line, and the list handed to `saveResults`, if it is called at all. */
  datatype Verdict = Verdict(critical: bool, status: Status, save: Option<seq<string>>)

  /** `http.StatusOK`. */
  const StatusOK := 200

  /** The body was read and decoding it failed. */
  predicate DecodeFailed(x: Exchange) {
    x.Responded? && x.code == StatusOK && x.body.Read? && x.body.decoding.Malformed?
  }

  /** The body was read and decoded, and the total it gives is `zero` or not. */
  predicate DecodedTotal(x: Exchange, zero: bool) {
    x.Responded? && x.code == StatusOK && x.body.Read? && x.body.decoding.Decoded?
    && (x.body.decoding.total == 0) == zero
  }

  /** The early-return chain of `reverseLookup`.
      Only a decoding failure is critical. Domains are saved exactly when the
      response decoded with a non-zero total, negative totals included, and
      then the whole result list is saved whatever its length. Every failure
      before decoding, a status other than exactly 200 among them, gives an
      error line and nothing else. */
  function ReverseLookup(x: Exchange): (v: Verdict)
    ensures v.critical <==> DecodeFailed(x)
    ensures v.critical ==> v.status.JsonError? && v.save.None?
    ensures v.save.Some? <==> DecodedTotal(x, false)
    ensures v.save.Some? ==> v.save.value == x.body.decoding.result
    ensures v.save.Some? ==> v.status == Domains(x.body.decoding.total)
    ensures v.status == NoDomains <==> DecodedTotal(x, true)
    ensures x.Responded? && x.code != StatusOK ==> v == Verdict(false, HttpError(x.status), None)
    ensures !x.Responded? || (x.code == StatusOK && x.body.ReadFailed?) ==>
      !v.critical && v.status.Error? && v.save.None?
  {
    match x
    case BuildFailed(err) => Verdict(false, Error(err), None)
    case TransportFailed(err) => Verdict(false, Error(err), None)
    case Responded(code, status, body) =>
      if code != StatusOK then Verdict(false, HttpError(status), None)
      else
        match body
        case ReadFailed(err) => Verdict(false, Error(err), None)
        case Read(Malformed(err)) => Verdict(true, JsonError(err), None)
        case Read(Decoded(total, result)) =>
          if total == 0 then Verdict(false, NoDomains, None)
          else Verdict(false, Domains(total), Some(result))
  }

  // ---------------------------------------------------------------------------
  // The four-way classification of a probe
  // ---------------------------------------------------------------------------

  /** The four outcomes one probe can have. */
  datatype Outcome =
    | Empty
    | Matches(domains: seq<string>)
    | Recoverable
    | NonRecoverable

  /** The classification a reverse-lookup client is expected to make, written
      independently of `ReverseLookup`: failing to reach the service or any
      status outside 2xx is recoverable, a malformed payload is not, and a
      decoded payload is empty or matches according to its total. */
  function IntendedOutcome(x: Exchange): Outcome {
    match x
    case BuildFailed(_) => Recoverable
    case TransportFailed(_) => Recoverable
    case Responded(code, _, body) =>
      if !(200 <= code < 300) then Recoverable
      else
        match body
        case ReadFailed(_) => Recoverable
        case Read(Malformed(_)) => NonRecoverable
        case Read(Decoded(total, result)) => if total == 0 then Empty else Matches(result)
  }

  /** The outcome a verdict of `reverseLookup` amounts to. */
  function OutcomeOf(v: Verdict): Outcome {
    if v.critical then NonRecoverable
    else if v.save.Some? then Matches(v.save.value)
    else if v.status.NoDomains? then Empty
    else Recoverable
  }

  /** Apart from the 2xx statuses other than 200, the code makes the intended
      classification. */
  lemma AgreesWithIntendedOutcome(x: Exchange)
    requires x.Responded? && 200 <= x.code < 300 ==> x.code == StatusOK
    ensures OutcomeOf(ReverseLookup(x)) == IntendedOutcome(x)
  {
  }

  /** A 2xx status other than 200 is an HTTP error for the code, whatever the
      body holds, although a readable body would classify as something other
      than recoverable. */
  lemma OtherSuccessStatusRejected(x: Exchange)
    requires x.Responded? && 200 <= x.code < 300 && x.code != StatusOK
    ensures ReverseLookup(x) == Verdict(false, HttpError(x.status), None)
    ensures x.body.Read? ==> IntendedOutcome(x) != Recoverable
  {
  }
}
