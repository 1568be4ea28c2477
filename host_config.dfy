/** `get_host_config`: which IP address the wrapper talks to.

    A host given with `--host` wins and must pass `validate_ip`; otherwise a
    non-empty stored SHIELD_HOST is used as it is; otherwise the user is asked
    until a line, once stripped, passes `validate_ip`, and that line is saved
    as SHIELD_HOST. The lines the user types are the sequence `lines`.
 */
module HostConfig {
  import opened Optional
  import opened PyStr
  import opened IpAddress

  datatype HostChoice =
    | UseHost(host: string, saved: bool)  // returned; `saved` when written to SHIELD_HOST
    | InvalidCliHost(host: string)        // error message and `sys.exit(1)`
    | PromptInputClosed                   // `input()` raised EOFError, which nothing catches

  /** The no-host-configured case: the first line that is a valid address
      once stripped, and how many lines that took. */
  method Prompt(lines: seq<string>) returns (choice: HostChoice, consumed: nat)
    ensures consumed <= |lines|
    ensures choice.UseHost? || choice.PromptInputClosed?
    ensures forall j :: 0 <= j < consumed - 1 ==> !ValidateIp(Strip(lines[j]))
    ensures choice.UseHost? ==>
      1 <= consumed && choice.host == Strip(lines[consumed - 1])
      && ValidateIp(choice.host) && choice.saved
    ensures choice.PromptInputClosed? ==>
      consumed == |lines| && forall j :: 0 <= j < |lines| ==> !ValidateIp(Strip(lines[j]))
  {
    consumed := 0;
    while consumed < |lines|
      invariant consumed <= |lines|
      invariant forall j :: 0 <= j < consumed ==> !ValidateIp(Strip(lines[j]))
      decreases |lines| - consumed
    {
      var host := Strip(lines[consumed]);
      consumed := consumed + 1;
      if ValidateIp(host) {
        return UseHost(host, true), consumed;
      }
    }
    choice := PromptInputClosed;
  }

  /** `get_host_config(config, args)` with `args.host` as `cliHost` and
      `config["host"]` as `storedHost`. */
  method GetHostConfig(cliHost: Option<string>, storedHost: Option<string>, lines: seq<string>)
    returns (choice: HostChoice, consumed: nat)
    ensures consumed <= |lines|
    ensures Truthy(cliHost) ==>
      consumed == 0
      && choice == if ValidateIp(cliHost.value) then UseHost(cliHost.value, false)
                   else InvalidCliHost(cliHost.value)
    ensures !Truthy(cliHost) && Truthy(storedHost) ==>
      consumed == 0 && choice == UseHost(storedHost.value, false)
    ensures !Truthy(cliHost) && !Truthy(storedHost) ==>
      (choice.UseHost? || choice.PromptInputClosed?)
      && (forall j :: 0 <= j < consumed - 1 ==> !ValidateIp(Strip(lines[j])))
      && (choice.UseHost? ==>
            1 <= consumed && choice.host == Strip(lines[consumed - 1])
            && ValidateIp(choice.host) && choice.saved)
      && (choice.PromptInputClosed? ==>
            consumed == |lines| && forall j :: 0 <= j < |lines| ==> !ValidateIp(Strip(lines[j])))
    ensures choice.UseHost? && choice.saved ==> !Truthy(cliHost) && !Truthy(storedHost)
  {
    if Truthy(cliHost) {
      if !ValidateIp(cliHost.value) {
        return InvalidCliHost(cliHost.value), 0;
      }
      return UseHost(cliHost.value, false), 0;
    }
    if Truthy(storedHost) {
      return UseHost(storedHost.value, false), 0;
    }
    choice, consumed := Prompt(lines);
  }
}
