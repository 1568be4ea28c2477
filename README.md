# Shield pause wrapper: input checks and decision rules

This project models `backup/AndroidRemote/pause.py`, the command-line wrapper
that pauses an Nvidia Shield over the Android TV Remote protocol. The
protocol itself (message encoding, the TLS pairing handshake and the secret
derivation) is done by the external `androidtvremote2` library. That library
is not part of this model. What the wrapper decides on its own is modelled and
proved:

- `validate_ip`: a match against `^(\d{1,3}\.){3}\d{1,3}$`, then a range check
  `0 <= int(o) <= 255` on every dot-separated octet (module `IpAddress`).
- the pairing-PIN format check: strip, upper-case, then exactly six characters
  from `0123456789ABCDEF` (module `Pin`).
- the pairing loop of `pair_with_shield` and its classification of library
  errors into "ask again", "rejected on the TV" and "failed" (module `Pairing`).
- host selection in `get_host_config`: `--host`, then the stored SHIELD_HOST,
  then the prompt (module `HostConfig`).
- `needs_pairing`, the clearing of the stored marker by `--repair`, the chain
  from connection to key press, and the exit code (module `Session`).

The Python string operations these rely on (`strip`, `upper`, `lower`,
`split`, `in`) are written out in module `PyStr`, with `join` as the inverse of
`split`. Python's `None`-or-empty falsiness of optional strings is
`Optional.Truthy`.

The library is represented by what each of its calls does. `startError` is the
message `async_start_pairing` raises, if it raises. `finish(k, pin)` is what
the k-th call of `async_finish_pairing(pin)` does: `None` for success, or the
message of the exception. `Session.Library` adds whether construction and
certificate generation, `async_connect` and `send_key_command` return
normally. The lines a user types are a finite sequence. Reading past its end
is Python's `EOFError`. The PIN loop catches it as a start error and returns
`None`. The host prompt does not catch it, so the process ends with status 1.

The PIN line is stripped before the format check, so whitespace around the
six hex digits is accepted (`Pin.LowerCaseWithSpacesExample`). Only a host
given with `--host` or typed at the prompt is validated. A stored SHIELD_HOST
is used as it is (`HostConfig.GetHostConfig`).

## Model

| member | source | states |
|---|---|---|
| `PyStr.Strip` | backup/AndroidRemote/pause.py:96 | `str.strip()` over Python's whitespace set; its meaning is stated by `PyStr.StripShape` and `PyStr.StripSurrounded` |
| `PyStr.Upper` | backup/AndroidRemote/pause.py:132 | `str.upper()` with ASCII case mapping; its meaning is stated by `PyStr.UpperAt` |
| `PyStr.Lower` | backup/AndroidRemote/pause.py:150 | `str.lower()` with ASCII case mapping; its meaning is stated by `PyStr.LowerAt` |
| `PyStr.Contains` | backup/AndroidRemote/pause.py:151-154 | `sub in s`: `sub` occurs at some position of `s` |
| `PyStr.StripShape` | backup/AndroidRemote/pause.py:96 | `s.strip()` is a slice of `s`: what it removes at each end is whitespace, and neither end of the result is whitespace |
| `PyStr.StripSurrounded` | backup/AndroidRemote/pause.py:132 | whitespace added around a trimmed string is removed exactly by `strip()` |
| `PyStr.StripIdempotent` | backup/AndroidRemote/pause.py:96 | `s.strip().strip() == s.strip()` |
| `PyStr.UpperAt` | backup/AndroidRemote/pause.py:132 | `upper()` keeps the length and maps each character on its own |
| `PyStr.LowerAt` | backup/AndroidRemote/pause.py:150 | `lower()` keeps the length and maps each character on its own |
| `PyStr.LowerOfUpper` | backup/AndroidRemote/pause.py:150 | `s.upper().lower() == s.lower()`: lower-casing forgets the case the text was written in |
| `PyStr.LowerConcat` | backup/AndroidRemote/pause.py:150 | `lower()` distributes over concatenation |
| `PyStr.ContainsInContext` | backup/AndroidRemote/pause.py:151-154 | a substring found by `in` is still found when text is added around it |
| `PyStr.Split` | backup/AndroidRemote/pause.py:67 | `split('.')` always yields at least one piece |
| `PyStr.SplitSepFree` | backup/AndroidRemote/pause.py:67 | no piece of `split(sep)` contains `sep` |
| `PyStr.JoinSplit` | backup/AndroidRemote/pause.py:67 | joining the pieces of `split(sep)` with `sep` gives the original string |
| `PyStr.SplitJoin` | backup/AndroidRemote/pause.py:67 | splitting a join of separator-free pieces gives those pieces back |
| `PyStr.SplitCons` | backup/AndroidRemote/pause.py:67 | a separator-free piece followed by the separator is split off as one piece |
| `PyStr.SplitHead` | backup/AndroidRemote/pause.py:67 | with two or more pieces, the first ends at the first separator and the rest split into the remaining pieces |
| `IpAddress.MatchesIpPattern` | backup/AndroidRemote/pause.py:62-64 | `re.match(r'^(\d{1,3}\.){3}\d{1,3}$', ip)` succeeds, with the regex's backtracking over group lengths written out; characterized by `IpAddress.MatchesGroupsSplit` |
| `IpAddress.DecimalValue` | backup/AndroidRemote/pause.py:68 | `int(octet)` for a string of ASCII digits |
| `IpAddress.ValidateIp` | backup/AndroidRemote/pause.py:60-68 | `validate_ip(ip)`: the pattern matches and every piece of `ip.split('.')` has a value in 0..255; characterized by `IpAddress.ValidateIpIsDottedQuad` |
| `IpAddress.MatchesGroupsSplit` | backup/AndroidRemote/pause.py:62-67 | the regular expression matches exactly when `split('.')` gives n + 1 pieces of 1 to 3 digits each |
| `IpAddress.ValidateIpSplit` | backup/AndroidRemote/pause.py:60-68 | `validate_ip(ip)` holds exactly when `ip.split('.')` is four octets of 1 to 3 digits with values at most 255 |
| `IpAddress.ValidateIpIsDottedQuad` | backup/AndroidRemote/pause.py:60-68 | `validate_ip(ip)` holds exactly when `ip` is four such octets joined by single dots |
| `IpAddress.DottedQuadRoundTrip` | backup/AndroidRemote/pause.py:62-68 | every dotted quad is accepted, and splitting it recovers its octets |
| `IpAddress.SpellingIrrelevant` | backup/AndroidRemote/pause.py:62-68 | validity depends on each octet's value, not its spelling |
| `IpAddress.DecimalValueBound` | backup/AndroidRemote/pause.py:68 | a string of n digits is below 10^n; an octet of 1 to 3 digits is below 1000 |
| `IpAddress.LeadingZeroValue` | backup/AndroidRemote/pause.py:68 | `int("0" + t) == int(t)`: leading zeros do not change the value |
| `IpAddress.MatchedText` | backup/AndroidRemote/pause.py:62-64 | a string matching n dot-terminated groups and a final group has 2n + 1 to 4n + 3 characters, all digits or dots |
| `IpAddress.AcceptedText` | backup/AndroidRemote/pause.py:62-64 | an accepted address has 7 to 15 characters, all digits or dots |
| `IpAddress.WrongGroupCountRejected` | backup/AndroidRemote/pause.py:62-64 | a string that does not split into exactly four groups is rejected |
| `IpAddress.ForeignCharRejected` | backup/AndroidRemote/pause.py:62-64 | any character other than a digit or a dot rejects the address |
| `IpAddress.OctetOutOfRangeRejected` | backup/AndroidRemote/pause.py:67-68 | one octet above 255 rejects the address |
| `IpAddress.OctetExamples` | backup/AndroidRemote/pause.py:68 | `int` of "0", "000", "255", "256", "010" and "001" |
| `IpAddress.ZeroAddressExample` | backup/AndroidRemote/pause.py:60-68 | "0.0.0.0" is accepted |
| `IpAddress.BroadcastAddressExample` | backup/AndroidRemote/pause.py:60-68 | "255.255.255.255" is accepted |
| `IpAddress.LeadingZerosExample` | backup/AndroidRemote/pause.py:60-68 | "010.001.000.255" is accepted |
| `IpAddress.OutOfRangeExample` | backup/AndroidRemote/pause.py:67-68 | "256.1.1.1" is rejected |
| `IpAddress.EmptyRejected` | backup/AndroidRemote/pause.py:62-64 | the empty string is rejected |
| `IpAddress.LetterRejected` | backup/AndroidRemote/pause.py:62-64 | "1.2.3.a" is rejected |
| `IpAddress.SignRejected` | backup/AndroidRemote/pause.py:62-64 | "-1.2.3.4" is rejected |
| `IpAddress.ThreeGroupsRejected` | backup/AndroidRemote/pause.py:62-64 | "1.2.3" is rejected |
| `IpAddress.FiveGroupsRejected` | backup/AndroidRemote/pause.py:62-64 | "1.2.3.4.5" is rejected |
| `Pin.Normalize` | backup/AndroidRemote/pause.py:132 | `input(...).strip().upper()` |
| `Pin.WellFormed` | backup/AndroidRemote/pause.py:135 | `len(pin) == 6` and every character in `0123456789ABCDEF` |
| `Pin.Accepted` | backup/AndroidRemote/pause.py:132-135 | the typed line passes the format check after normalization; characterized by `Pin.AcceptedIff` |
| `Pin.AlphabetMembership` | backup/AndroidRemote/pause.py:135 | a character is in `0123456789ABCDEF` exactly when it is `0`-`9` or `A`-`F` |
| `Pin.UpperCharInAlphabet` | backup/AndroidRemote/pause.py:132-135 | an upper-cased character is in the alphabet exactly when the original is a hex digit of either case |
| `Pin.AcceptedIff` | backup/AndroidRemote/pause.py:132-135 | a line is accepted exactly when, stripped, it is six hex digits in any mix of cases |
| `Pin.HexWithSpacesAccepted` | backup/AndroidRemote/pause.py:132-135 | six hex digits of any case with whitespace around them are accepted, and the PIN used is their upper-case form |
| `Pin.UpperKeepsTrimmed` | backup/AndroidRemote/pause.py:132 | upper-casing a trimmed string leaves it trimmed |
| `Pin.UpperIdempotent` | backup/AndroidRemote/pause.py:132 | `s.upper().upper() == s.upper()` |
| `Pin.NormalizeIdempotent` | backup/AndroidRemote/pause.py:132 | stripping and upper-casing an already normalized line changes nothing |
| `Pin.UpperCaseExample` | backup/AndroidRemote/pause.py:132-136 | "4D292B" is accepted |
| `Pin.LowerCaseWithSpacesExample` | backup/AndroidRemote/pause.py:132-135 | " 4d292b\r" (a CRLF line) is accepted |
| `Pin.TooShortExample` | backup/AndroidRemote/pause.py:135 | "4D292" is rejected |
| `Pin.NotHexExample` | backup/AndroidRemote/pause.py:135 | "4D292G" is rejected |
| `Pairing.Classify` | backup/AndroidRemote/pause.py:150-159 | the lower-cased message is searched for "invalid" or "wrong" (ask again) before "reject" (rejected on the TV); anything else is a failure |
| `Pairing.Marker` | backup/AndroidRemote/pause.py:145 | the text `"paired_" + host` whose base64 form is saved as SHIELD_CERT |
| `Pairing.ReturnValue` | backup/AndroidRemote/pause.py:145-162 | `pair_with_shield` returns the marker after success and `None` on every other end |
| `Pairing.Run` | backup/AndroidRemote/pause.py:131-162 | the PIN loop from a given line onward: skip malformed lines, submit well-formed ones, continue on a retry error, stop on success, rejection, other error or end of input; characterized by `Pairing.RunSubmitsAcceptedPins`, `Pairing.RunLastCall` and `Pairing.RunRetries` |
| `Pairing.PairWithShieldSpec` | backup/AndroidRemote/pause.py:128-162 | `pair_with_shield`: a start error ends the run, otherwise `Pairing.Run` from the first line |
| `Pairing.ClassifyIgnoresCase` | backup/AndroidRemote/pause.py:150-159 | under ASCII case mapping, the error classification does not depend on the case of the message |
| `Pairing.RetryInContext` | backup/AndroidRemote/pause.py:150-153 | a message classified "ask again" stays so inside any longer message, even one that also says "reject" |
| `Pairing.MissingCharNotContained` | backup/AndroidRemote/pause.py:151-154 | a word with a character the message lacks is not found in it |
| `Pairing.InvalidPinExample` | backup/AndroidRemote/pause.py:151-153 | "Invalid PIN" asks for another PIN |
| `Pairing.RetryBeatsRejectExample` | backup/AndroidRemote/pause.py:151-156 | "Reject: WRONG" asks for another PIN, because "wrong" is checked before "reject" |
| `Pairing.RejectedExample` | backup/AndroidRemote/pause.py:154-156 | "Rejected" is classified as rejected on the TV |
| `Pairing.FailedExample` | backup/AndroidRemote/pause.py:157-159 | "Closed" is classified as a pairing failure |
| `Pairing.ReturnValueTruthy` | backup/AndroidRemote/pause.py:145-147 | the value returned by `pair_with_shield` is truthy exactly after a successful pairing |
| `Pairing.AcceptedPinsWellFormed` | backup/AndroidRemote/pause.py:132-137 | every line kept by the PIN filter passes the format check |
| `Pairing.RunSubmitsAcceptedPins` | backup/AndroidRemote/pause.py:131-140 | the PINs given to `async_finish_pairing` are exactly the lines read that pass the format check, normalized and in order; no other line reaches the library |
| `Pairing.SubmittedPinsWellFormed` | backup/AndroidRemote/pause.py:135-140 | every PIN given to the library is six characters of `0123456789ABCDEF` |
| `Pairing.RunInputClosed` | backup/AndroidRemote/pause.py:131-132 | the loop ends for lack of input only after reading every line |
| `Pairing.RunLastCall` | backup/AndroidRemote/pause.py:139-159 | any other end follows a library call with the normalized last line read, and that call's answer decides success, rejection or failure |
| `Pairing.RunRetries` | backup/AndroidRemote/pause.py:149-153 | every library call before the last one raised an error with "invalid" or "wrong" in it |
| `Pairing.PairWithShield` | backup/AndroidRemote/pause.py:128-163 | the loop computes the run described by `PairWithShieldSpec`; every PIN it submits is well formed, and every submission but the last was answered with a retry error |
| `HostConfig.Prompt` | backup/AndroidRemote/pause.py:95-102 | the prompt returns and saves the first stripped line that passes `validate_ip`; every line before it failed; end of input means every line failed |
| `HostConfig.GetHostConfig` | backup/AndroidRemote/pause.py:80-102 | a `--host` is returned unchanged when valid and exits otherwise; else a non-empty stored host is returned without re-validation; else the prompt decides; only a prompted host is saved |
| `Session.NeedsPairing` | backup/AndroidRemote/pause.py:205 | `needs_pairing = force_repair or not cert_data` |
| `Session.CertForRun` | backup/AndroidRemote/pause.py:312 | `cert = None if args.repair else config["cert"]` |
| `Session.ExitCode` | backup/AndroidRemote/pause.py:301 | `0 if success else 1` |
| `Session.ConnectAndPairIfNeeded` | backup/AndroidRemote/pause.py:165-265 | `connect_and_pair_if_needed`: library setup, pairing when needed, saving the marker, connecting, and `None` from any failing step; characterized by `Session.SavedCertOnlyAfterPairing` |
| `Session.MainAsync` | backup/AndroidRemote/pause.py:280-301 | `main_async`: the exit code of `run_pause_command`; characterized by `Session.ExitCodeZeroIff` |
| `Session.PairingNeededIff` | backup/AndroidRemote/pause.py:205 | with `--repair` the stored marker is dropped and pairing always runs; without it pairing runs exactly when no marker is stored |
| `Session.ExitCodeZeroIff` | backup/AndroidRemote/pause.py:280-301 | the exit code is 0 or 1, and 0 exactly when setup, any needed pairing, the connection and the key press all succeed |
| `Session.SavedCertOnlyAfterPairing` | backup/AndroidRemote/pause.py:205-226 | a marker is saved only after a needed pairing succeeded and is the marker for this host; a successful pairing always saves the marker, before connecting; a failed pairing never connects; pairing runs exactly when setup worked and it is needed |
| `Session.RunScript` | backup/AndroidRemote/pause.py:304-315 | `main()`: a bad `--host` ends with status 1 and saves nothing; a valid `--host` or a truthy stored host is used without reading input; otherwise the first line that is valid once stripped is used and saved, and end of input (every line invalid) ends with status 1; with a host chosen, the exit code and the saved marker are those of `main_async` on the lines the host prompt left |

## Left out

- The Android TV Remote protocol. Message encoding, TLS, pairing, secret derivation and key injection all happen inside `androidtvremote2`, which is not part of this model. `async_start_pairing`, `async_finish_pairing`, `async_connect` and `send_key_command` are represented only by what they return or raise.
- The network error dispatch in `connect_and_pair_if_needed`. Socket timeouts, refused connections, name resolution errors and other `OSError`s all return `None`. They differ only in the messages printed, so the model keeps one flag per library step (`setupOk`, `connectOk`).
- `.env` loading and saving through `python-dotenv`, file creation and the certificate file paths. These are file I/O. Stored values are inputs; values that would be saved are outputs (`savedHost`, `savedCert`).
- `argparse`, `print`, `input`, `sys.exit`, `asyncio.run` and `remote.disconnect()`. These are CLI and async plumbing. Typed input is a sequence of lines; `sys.exit(1)` and an uncaught `EOFError` are exit status 1.
- Pairing.Marker: the source base64-encodes `"paired_" + host`. The model keeps the text before encoding, since only its non-emptiness is used.
- IpAddress.ValidateIp: Python's `$` also matches before a trailing newline, so the source accepts "1.2.3.4\n" (`int()` ignores the newline). The model rejects it.
- IpAddress.ValidateIp: Python's `\d` and `int()` also accept non-ASCII decimal digits; the model accepts only `0`-`9`.
- PyStr.Upper and PyStr.Lower: case mapping is ASCII only. Python's full Unicode mapping can change lengths. For example, `"ﬀ".upper()` is `"FF"`, so the source accepts a five-character line such as `"ﬀ1234"` as the PIN `"FF1234"`. The model rejects it.
- Pairing.ClassifyIgnoresCase: holds for the model's ASCII case mapping only. Under Python's mapping, `"ınvalid"` (with U+0131, dotless i) lower-cases to itself and is a failure, while its `upper()` is `"INVALID"`, which asks for another PIN.
- Pairing.PairWithShield: the library's answer is a function of the call number and the PIN, which covers any deterministic device. Timing and concurrency inside the library are not modelled.
- Exceptions that are not `Exception` subclasses, such as `KeyboardInterrupt` at a prompt, are not modelled. Neither are failures of `save_config` itself.
