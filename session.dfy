/** One run of the wrapper: choose the host, decide whether to pair, pair if
    needed, connect, send the play/pause key, and turn the result into the
    process exit code.

    The remote-control library and the network are given by `Library`: for
    each library call, whether it raises. The lines typed on standard input
    are one sequence shared by the host prompt and the PIN prompt.
 */
module Session {
  import opened Optional
  import opened PyStr
  import opened IpAddress
  import opened Pairing
  import opened HostConfig

  /** `needs_pairing = force_repair or not cert_data` */
  predicate NeedsPairing(forceRepair: bool, certData: Option<string>)
  {
    forceRepair || !Truthy(certData)
  }

  /** `cert = None if args.repair else config["cert"]`: `--repair` discards
      the stored pairing marker. */
  function CertForRun(repair: bool, storedCert: Option<string>): Option<string>
  {
    if repair then None else storedCert
  }

  /** `0 if success else 1` */
  function ExitCode(success: bool): int
  {
    if success then 0 else 1
  }

  /** What the remote-control library does during one run. */
  datatype Library = Library(
    setupOk: bool,                          // AndroidTVRemote(...) and async_generate_cert_if_missing() return
    startError: Option<string>,             // async_start_pairing() raises with this message
    finish: (nat, string) -> Option<string>, // the k-th async_finish_pairing(pin) raises with this message
    connectOk: bool,                        // async_connect() returns
    sendOk: bool)                           // send_key_command(KEYCODE_MEDIA_PLAY_PAUSE) returns

  /** The result of `connect_and_pair_if_needed`: whether a connected remote
      is returned, the pairing run if there was one, and the marker saved as
      SHIELD_CERT if any. */
  datatype Connection = Connection(connected: bool, pairing: Option<Trace>, savedCert: Option<string>)

  /** `connect_and_pair_if_needed(host, cert_data, force_repair)`, with the
      PIN prompt reading `pinLines`. */
  function ConnectAndPairIfNeeded(host: string, certData: Option<string>, forceRepair: bool,
                                  pinLines: seq<string>, lib: Library): Connection
  {
    if !lib.setupOk then Connection(false, None, None)
    else if NeedsPairing(forceRepair, certData) then
      var t := PairWithShieldSpec(host, lib.startError, pinLines, lib.finish);
      var marker := ReturnValue(t.outcome);
      if Truthy(marker) then Connection(lib.connectOk, Some(t), marker)
      else Connection(false, Some(t), None)
    else Connection(lib.connectOk, None, None)
  }

  /** `main_async(host, cert, force_repair)`: `run_pause_command` succeeds
      when a connected remote is returned and the key press is sent. */
  function MainAsync(host: string, certData: Option<string>, forceRepair: bool,
                     pinLines: seq<string>, lib: Library): int
  {
    var c := ConnectAndPairIfNeeded(host, certData, forceRepair, pinLines, lib);
    ExitCode(c.connected && lib.sendOk)
  }

  /** With `--repair` pairing always runs; without it, exactly when no
      marker is stored. */
  lemma PairingNeededIff(repair: bool, storedCert: Option<string>)
    ensures NeedsPairing(repair, CertForRun(repair, storedCert)) <==> repair || !Truthy(storedCert)
    ensures repair ==> CertForRun(repair, storedCert).None?
  {
  }

  /** The exit code is 0 or 1, and 0 exactly when the library set up,
      pairing (when needed) succeeded, the connection opened and the key
      was sent. */
  lemma ExitCodeZeroIff(host: string, certData: Option<string>, forceRepair: bool,
                        pinLines: seq<string>, lib: Library)
    ensures var code := MainAsync(host, certData, forceRepair, pinLines, lib);
      (code == 0 || code == 1)
      && (code == 0 <==>
            lib.setupOk && lib.connectOk && lib.sendOk
            && (NeedsPairing(forceRepair, certData) ==>
                  PairWithShieldSpec(host, lib.startError, pinLines, lib.finish).outcome.Paired?))
  {
    var t := PairWithShieldSpec(host, lib.startError, pinLines, lib.finish);
    if lib.startError.None? {
      RunLastCall(host, pinLines, 0, [], lib.finish);
    }
    ReturnValueTruthy(host, t.outcome);
  }

  /** A marker is saved only after a pairing that was needed and succeeded,
      and it is the marker for this host; a failed pairing never connects. */
  lemma SavedCertOnlyAfterPairing(host: string, certData: Option<string>, forceRepair: bool,
                                  pinLines: seq<string>, lib: Library)
    ensures var c := ConnectAndPairIfNeeded(host, certData, forceRepair, pinLines, lib);
      (c.savedCert.Some? ==>
         NeedsPairing(forceRepair, certData) && c.pairing.Some?
         && c.pairing.value.outcome.Paired? && c.savedCert.value == Marker(host))
      && (c.pairing.Some? && !c.pairing.value.outcome.Paired? ==> !c.connected)
      && (c.pairing.Some? <==> lib.setupOk && NeedsPairing(forceRepair, certData))
      && (c.pairing.Some? && c.pairing.value.outcome.Paired? ==> c.savedCert == Some(Marker(host)))
  {
    var t := PairWithShieldSpec(host, lib.startError, pinLines, lib.finish);
    if lib.startError.None? {
      RunLastCall(host, pinLines, 0, [], lib.finish);
    }
    ReturnValueTruthy(host, t.outcome);
  }

  /** `main()`: `get_host_config`, then `main_async` with the stored marker
      cleared by `--repair`. The PIN prompt reads the lines the host prompt
      left; `used` is how many lines the host prompt read. A rejected
      `--host` (`sys.exit(1)`) and end of input at the host prompt (an
      uncaught EOFError) both end the process with status 1. */
  method RunScript(cliHost: Option<string>, repair: bool, storedHost: Option<string>,
                   storedCert: Option<string>, stdin: seq<string>, lib: Library)
    returns (exitCode: int, host: Option<string>, savedHost: Option<string>,
             savedCert: Option<string>, used: nat)
    ensures used <= |stdin|
    ensures exitCode == 0 || exitCode == 1
    // Host selection
    ensures Truthy(cliHost) ==> used == 0
    ensures Truthy(cliHost) && !ValidateIp(cliHost.value) ==>
      exitCode == 1 && host.None? && savedHost.None? && savedCert.None?
    ensures Truthy(cliHost) && ValidateIp(cliHost.value) ==> host == cliHost && savedHost.None?
    ensures !Truthy(cliHost) && Truthy(storedHost) ==>
      used == 0 && host == storedHost && savedHost.None?
    ensures !Truthy(cliHost) && !Truthy(storedHost) ==>
      savedHost == host
      && (host.None? <==> forall j :: 0 <= j < |stdin| ==> !ValidateIp(Strip(stdin[j])))
      && (host.Some? ==>
            1 <= used && host.value == Strip(stdin[used - 1]) && ValidateIp(host.value)
            && forall j :: 0 <= j < used - 1 ==> !ValidateIp(Strip(stdin[j])))
    ensures host.None? ==> exitCode == 1 && savedCert.None?
    // With a host chosen, the rest of the run is `main_async` on the lines left
    ensures host.Some? ==>
      exitCode == MainAsync(host.value, CertForRun(repair, storedCert), repair, stdin[used..], lib)
      && savedCert == ConnectAndPairIfNeeded(host.value, CertForRun(repair, storedCert), repair,
                                             stdin[used..], lib).savedCert
    ensures exitCode == 0 ==> lib.setupOk && lib.connectOk && lib.sendOk
    ensures savedCert.Some? ==>
      host.Some? && savedCert.value == Marker(host.value) && (repair || !Truthy(storedCert))
    ensures exitCode == 0 && (repair || !Truthy(storedCert)) ==> savedCert.Some?
  {
    var choice;
    choice, used := GetHostConfig(cliHost, storedHost, stdin);
    if !choice.UseHost? {
      return 1, None, None, None, used;
    }
    host := Some(choice.host);
    savedHost := if choice.saved then Some(choice.host) else None;
    var cert := CertForRun(repair, storedCert);
    var pinLines := stdin[used..];
    var c := ConnectAndPairIfNeeded(choice.host, cert, repair, pinLines, lib);
    SavedCertOnlyAfterPairing(choice.host, cert, repair, pinLines, lib);
    ExitCodeZeroIff(choice.host, cert, repair, pinLines, lib);
    savedCert := c.savedCert;
    exitCode := MainAsync(choice.host, cert, repair, pinLines, lib);
  }
}
