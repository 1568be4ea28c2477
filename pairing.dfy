/** `pair_with_shield`: ask for the PIN shown on the TV until one is accepted
    by the remote-control library, and classify the library's errors.

    The library itself is not part of this model. Its start call is given as
    `startError` (`Some(message)` when `async_start_pairing` raises), and its
    finish call as `finish(k, pin)`: what the k-th call of
    `async_finish_pairing(pin)` does, `None` for success or `Some(message)`
    for the message of the exception it raises. The lines the user types are
    the sequence `lines`; reading past its end is Python's `EOFError`.
 */
module Pairing {
  import opened Optional
  import opened PyStr
  import Pin

  // ---------------------------------------------------------------------------
  // Error classification
  // ---------------------------------------------------------------------------

  /** What the loop does with an exception raised by `async_finish_pairing`. */
  datatype ErrorClass =
    | RetryPin         // "Invalid PIN. Please try again." and ask again
    | PairingRejected  // the pairing request was declined on the TV
    | PairingFailed    // any other error

  /** The exception-message classifier: the lower-cased message is searched
      for "invalid" or "wrong" first, then for "reject". */
  function Classify(message: string): ErrorClass
  {
    var m := Lower(message);
    if Contains(m, "invalid") || Contains(m, "wrong") then RetryPin
    else if Contains(m, "reject") then PairingRejected
    else PairingFailed
  }

  /** The classification does not depend on the case of the message. */
  lemma ClassifyIgnoresCase(message: string)
    ensures Classify(Upper(message)) == Classify(message)
  {
    LowerOfUpper(message);
  }

  /** A message that asks for a retry still does so when it is embedded in a
      longer message, whatever else (even "reject") the longer one says. */
  lemma RetryInContext(a: string, message: string, b: string)
    requires Classify(message) == RetryPin
    ensures Classify(a + message + b) == RetryPin
  {
    LowerConcat(a + message, b);
    LowerConcat(a, message);
    var m := Lower(message);
    if Contains(m, "invalid") {
      ContainsInContext(Lower(a), m, Lower(b), "invalid");
    } else {
      ContainsInContext(Lower(a), m, Lower(b), "wrong");
    }
  }

  /** A word containing a character the text lacks does not occur in it. */
  lemma MissingCharNotContained(s: string, sub: string, j: nat)
    requires j < |sub| && sub[j] !in s
    ensures !Contains(s, sub)
  {
    forall i | 0 <= i <= |s| - |sub| ensures !OccursAt(s, sub, i) {
      assert s[i..i + |sub|][j] == s[i + j];
    }
  }

  lemma InvalidPinExample()
    ensures Classify("Invalid PIN") == RetryPin
  {
    LowerAt("Invalid PIN");
    var m := Lower("Invalid PIN");
    assert m[0..7] == "invalid";
    assert OccursAt(m, "invalid", 0);
  }

  /** A message mentioning both a rejection and a wrong PIN asks for a retry. */
  lemma RetryBeatsRejectExample()
    ensures Classify("Reject: WRONG") == RetryPin
  {
    LowerAt("Reject: WRONG");
    var m := Lower("Reject: WRONG");
    assert m[8..13] == "wrong";
    assert OccursAt(m, "wrong", 8);
  }

  lemma RejectedExample()
    ensures Classify("Rejected") == PairingRejected
  {
    LowerAt("Rejected");
    var m := Lower("Rejected");
    assert m == "rejected";
    MissingCharNotContained(m, "invalid", 0);
    MissingCharNotContained(m, "wrong", 0);
    assert m[0..6] == "reject";
    assert OccursAt(m, "reject", 0);
  }

  lemma FailedExample()
    ensures Classify("Closed") == PairingFailed
  {
    LowerAt("Closed");
    var m := Lower("Closed");
    assert m == "closed";
    MissingCharNotContained(m, "invalid", 0);
    MissingCharNotContained(m, "wrong", 0);
    MissingCharNotContained(m, "reject", 0);
  }

  // ---------------------------------------------------------------------------
  // The pairing loop
  // ---------------------------------------------------------------------------

  /** How `pair_with_shield` ends. Only `Paired` returns a marker; every other
      outcome returns `None`. */
  datatype PairingOutcome =
    | Paired(marker: string)     // `async_finish_pairing` succeeded
    | RejectedOnTv               // the error message says the TV rejected pairing
    | FinishFailed(error: string) // any other error from `async_finish_pairing`
    | StartFailed(error: string)  // `async_start_pairing` raised
    | InputClosed                 // `input()` raised EOFError (caught like a start error)

  /** The marker saved as SHIELD_CERT after pairing with `host`
      (base64-encoded in the source). */
  function Marker(host: string): string
  {
    "paired_" + host
  }

  /** The value `pair_with_shield` returns. */
  function ReturnValue(o: PairingOutcome): Option<string>
  {
    if o.Paired? then Some(o.marker) else None
  }

  /** The caller's `if cert_data:` is true exactly after a successful pairing. */
  lemma ReturnValueTruthy(host: string, o: PairingOutcome)
    requires o.Paired? ==> o.marker == Marker(host)
    ensures Truthy(ReturnValue(o)) <==> o.Paired?
  {
  }

  /** The finish call number k, made with `pin`, raised an error that asks
      for another PIN. */
  predicate WasRetried(finish: (nat, string) -> Option<string>, k: nat, pin: string)
  {
    finish(k, pin).Some? && Classify(finish(k, pin).value) == RetryPin
  }

  /** A run of the loop: how it ended, the PINs handed to
      `async_finish_pairing` in order, and how many lines it read. */
  datatype Trace = Trace(outcome: PairingOutcome, submitted: seq<string>, consumed: nat)

  /** The loop from line i on, with `submitted` already handed to the library. */
  function Run(host: string, lines: seq<string>, i: nat, submitted: seq<string>,
               finish: (nat, string) -> Option<string>): Trace
    requires i <= |lines|
    decreases |lines| - i
  {
    if i == |lines| then Trace(InputClosed, submitted, i)
    else
      var pin := Pin.Normalize(lines[i]);
      if !Pin.WellFormed(pin) then Run(host, lines, i + 1, submitted, finish)
      else
        match finish(|submitted|, pin)
        case None => Trace(Paired(Marker(host)), submitted + [pin], i + 1)
        case Some(e) =>
          match Classify(e)
          case RetryPin => Run(host, lines, i + 1, submitted + [pin], finish)
          case PairingRejected => Trace(RejectedOnTv, submitted + [pin], i + 1)
          case PairingFailed => Trace(FinishFailed(e), submitted + [pin], i + 1)
  }

  /** `pair_with_shield(remote, host)` as a function of what the library and
      the user do. */
  function PairWithShieldSpec(host: string, startError: Option<string>, lines: seq<string>,
                              finish: (nat, string) -> Option<string>): Trace
  {
    if startError.Some? then Trace(StartFailed(startError.value), [], 0)
    else Run(host, lines, 0, [], finish)
  }

  /** The normalized lines that pass the PIN format check, in order. */
  function AcceptedPins(lines: seq<string>): seq<string>
  {
    if lines == [] then []
    else
      var pin := Pin.Normalize(lines[0]);
      (if Pin.WellFormed(pin) then [pin] else []) + AcceptedPins(lines[1..])
  }

  lemma {:induction false} AcceptedPinsWellFormed(lines: seq<string>)
    ensures forall j :: 0 <= j < |AcceptedPins(lines)| ==> Pin.WellFormed(AcceptedPins(lines)[j])
  {
    if lines != [] {
      AcceptedPinsWellFormed(lines[1..]);
    }
  }

  /** Exactly the lines that pass the format check reach
      `async_finish_pairing`, in the order typed; a line that fails the check
      is never submitted. */
  lemma {:induction false} RunSubmitsAcceptedPins(host: string, lines: seq<string>, i: nat,
                                                 submitted: seq<string>,
                                                 finish: (nat, string) -> Option<string>)
    requires i <= |lines|
    ensures var t := Run(host, lines, i, submitted, finish);
      i <= t.consumed <= |lines|
      && t.submitted == submitted + AcceptedPins(lines[i..t.consumed])
    decreases |lines| - i
  {
    var t := Run(host, lines, i, submitted, finish);
    if i == |lines| {
      assert lines[i..i] == [];
    } else {
      var pin := Pin.Normalize(lines[i]);
      var next := if Pin.WellFormed(pin) then submitted + [pin] else submitted;
      var continues := !Pin.WellFormed(pin)
        || (finish(|submitted|, pin).Some? && Classify(finish(|submitted|, pin).value) == RetryPin);
      if continues {
        RunSubmitsAcceptedPins(host, lines, i + 1, next, finish);
        assert lines[i..t.consumed][1..] == lines[i + 1..t.consumed];
      } else {
        assert lines[i..i + 1][1..] == [];
      }
    }
  }

  /** Every PIN handed to the library has passed the format check. */
  lemma SubmittedPinsWellFormed(host: string, startError: Option<string>, lines: seq<string>,
                                finish: (nat, string) -> Option<string>)
    ensures var t := PairWithShieldSpec(host, startError, lines, finish);
      forall j :: 0 <= j < |t.submitted| ==> Pin.WellFormed(t.submitted[j])
  {
    if startError.None? {
      RunSubmitsAcceptedPins(host, lines, 0, [], finish);
      var t := Run(host, lines, 0, [], finish);
      AcceptedPinsWellFormed(lines[0..t.consumed]);
    }
  }

  /** The library's answer `answer` to the last finish call explains `outcome`. */
  predicate Explains(host: string, answer: Option<string>, outcome: PairingOutcome)
  {
    match outcome
    case Paired(marker) => answer.None? && marker == Marker(host)
    case RejectedOnTv => answer.Some? && Classify(answer.value) == PairingRejected
    case FinishFailed(e) => answer == Some(e) && Classify(e) == PairingFailed
    case _ => false
  }

  /** Running out of input means every line was read; the loop itself never
      reports a start error. */
  lemma {:induction false} RunInputClosed(host: string, lines: seq<string>, i: nat,
                                         submitted: seq<string>,
                                         finish: (nat, string) -> Option<string>)
    requires i <= |lines|
    ensures var t := Run(host, lines, i, submitted, finish);
      !t.outcome.StartFailed? && (t.outcome.InputClosed? ==> t.consumed == |lines|)
    decreases |lines| - i
  {
    if i < |lines| {
      var pin := Pin.Normalize(lines[i]);
      var next := if Pin.WellFormed(pin) then submitted + [pin] else submitted;
      if !Pin.WellFormed(pin) || WasRetried(finish, |submitted|, pin) {
        RunInputClosed(host, lines, i + 1, next, finish);
      }
    }
  }

  /** Any end other than running out of input follows a call of
      `async_finish_pairing` with the normalized last line read, and the
      answer to that call decides the outcome. */
  lemma {:induction false} RunLastCall(host: string, lines: seq<string>, i: nat,
                                      submitted: seq<string>,
                                      finish: (nat, string) -> Option<string>)
    requires i <= |lines|
    ensures var t := Run(host, lines, i, submitted, finish);
      !t.outcome.InputClosed? ==>
        var k := |t.submitted| - 1;
        i < t.consumed <= |lines| && |submitted| <= k
        && t.submitted[k] == Pin.Normalize(lines[t.consumed - 1])
        && Explains(host, finish(k, t.submitted[k]), t.outcome)
    decreases |lines| - i
  {
    if i < |lines| {
      var pin := Pin.Normalize(lines[i]);
      var next := if Pin.WellFormed(pin) then submitted + [pin] else submitted;
      if !Pin.WellFormed(pin) || WasRetried(finish, |submitted|, pin) {
        RunLastCall(host, lines, i + 1, next, finish);
      }
    }
  }

  /** The first n finish calls, made with the PINs `pins`, all asked for a retry. */
  predicate AllRetried(finish: (nat, string) -> Option<string>, pins: seq<string>, n: int)
  {
    forall j :: 0 <= j < n && j < |pins| ==> WasRetried(finish, j, pins[j])
  }

  /** How many finish calls of a run asked for a retry, if the run is as
      described: all of them when input ran out, all but the last otherwise. */
  function RetriedCalls(t: Trace): int
  {
    if t.outcome.InputClosed? then |t.submitted| else |t.submitted| - 1
  }

  /** Every finish call before the last one answered with an error that asks
      for another PIN (every call, when the loop ran out of input). */
  lemma {:induction false} RunRetries(host: string, lines: seq<string>, i: nat,
                                     submitted: seq<string>,
                                     finish: (nat, string) -> Option<string>)
    requires i <= |lines|
    requires AllRetried(finish, submitted, |submitted|)
    ensures var t := Run(host, lines, i, submitted, finish);
      AllRetried(finish, t.submitted, RetriedCalls(t))
    decreases |lines| - i
  {
    if i < |lines| {
      var pin := Pin.Normalize(lines[i]);
      if !Pin.WellFormed(pin) {
        assert Run(host, lines, i, submitted, finish) == Run(host, lines, i + 1, submitted, finish);
        RunRetries(host, lines, i + 1, submitted, finish);
      } else if WasRetried(finish, |submitted|, pin) {
        var next := submitted + [pin];
        assert forall j :: 0 <= j < |next| ==> WasRetried(finish, j, next[j]);
        assert Run(host, lines, i, submitted, finish) == Run(host, lines, i + 1, next, finish);
        RunRetries(host, lines, i + 1, next, finish);
      } else {
        var t := Run(host, lines, i, submitted, finish);
        assert !t.outcome.InputClosed? && t.submitted == submitted + [pin];
      }
    }
  }

  /** The loop reading `lines` one at a time: a line that fails the format
      check is skipped without calling the library; otherwise the library's
      answer ends the loop or, for an invalid-PIN error, asks again. */
  method PairWithShield(host: string, startError: Option<string>, lines: seq<string>,
                        finish: (nat, string) -> Option<string>)
    returns (outcome: PairingOutcome, submitted: seq<string>, consumed: nat)
    ensures Trace(outcome, submitted, consumed) == PairWithShieldSpec(host, startError, lines, finish)
    ensures forall j :: 0 <= j < |submitted| ==> Pin.WellFormed(submitted[j])
    ensures forall j :: 0 <= j < |submitted| - 1 ==> WasRetried(finish, j, submitted[j])
  {
    if startError.Some? {
      return StartFailed(startError.value), [], 0;
    }
    submitted, consumed := [], 0;
    while consumed < |lines|
      invariant consumed <= |lines|
      invariant Run(host, lines, 0, [], finish) == Run(host, lines, consumed, submitted, finish)
      invariant forall j :: 0 <= j < |submitted| ==> Pin.WellFormed(submitted[j])
      invariant forall j :: 0 <= j < |submitted| ==> WasRetried(finish, j, submitted[j])
      decreases |lines| - consumed
    {
      var pin := Pin.Normalize(lines[consumed]);
      consumed := consumed + 1;
      if !Pin.WellFormed(pin) {
        continue;
      }
      var error := finish(|submitted|, pin);
      submitted := submitted + [pin];
      if error.None? {
        return Paired(Marker(host)), submitted, consumed;
      }
      var kind := Classify(error.value);
      if kind == RetryPin {
        continue;
      } else if kind == PairingRejected {
        return RejectedOnTv, submitted, consumed;
      } else {
        return FinishFailed(error.value), submitted, consumed;
      }
    }
    outcome := InputClosed;
  }
}
