/** The services the browser opens on the daemon: starting the agent, and installing an APK of a given size. */
module AdbServices {
  import opened Decimals
  import opened Splitting
  import opened Wrappers

  const NUL: char := '\0'
  const SERVICE_PREFIX := "abb_exec:"
  const START_SERVICE := "abb_exec:activity\0"
  const SIZE_OPTION := "\0-S\0"

  // ----- starting the agent -----

  lemma StartIsAbbExec(service: string)
    requires START_SERVICE <= service
    ensures SERVICE_PREFIX <= service
  {
    assert START_SERVICE[..9] == SERVICE_PREFIX;
  }

  /** The arguments as the device receives them. */
  function StartArguments(service: string): seq<string>
    requires SERVICE_PREFIX <= service
  {
    NonEmpty(Split(service[|SERVICE_PREFIX|..], NUL))
  }

  /** The arguments, each followed by a NUL. */
  function Terminated(arguments: seq<string>): string {
    if arguments == [] then [] else arguments[0] + [NUL] + Terminated(arguments[1..])
  }

  lemma {:induction false} TerminatedSplits(arguments: seq<string>)
    requires forall i | 0 <= i < |arguments| :: arguments[i] != [] && NUL !in arguments[i]
    ensures NonEmpty(Split(Terminated(arguments), NUL)) == arguments
  {
    if arguments != [] {
      TerminatedSplits(arguments[1..]);
      SplitToken(arguments[0], NUL, Terminated(arguments[1..]));
    }
  }

  /** The log shows the arguments as they were given. */
  lemma ArgumentsRoundTrip(arguments: seq<string>)
    requires forall i | 0 <= i < |arguments| :: arguments[i] != [] && NUL !in arguments[i]
    ensures StartArguments(SERVICE_PREFIX + Terminated(arguments)) == arguments
  {
    TerminatedSplits(arguments);
    assert (SERVICE_PREFIX + Terminated(arguments))[|SERVICE_PREFIX|..] == Terminated(arguments);
  }

  // ----- installing -----

  /** The match of `\0-S\0(\d+)\0` right here. */
  function SizeHere(text: string): Option<nat> {
    if !(SIZE_OPTION <= text) then None
    else
      var rest := text[|SIZE_OPTION|..];
      var digits := LeadingDigits(rest);
      if digits == [] || |digits| == |rest| || rest[|digits|] != NUL then None else Some(Value(digits))
  }

  /** The leftmost match. */
  function InstallSize(service: string): Option<nat> {
    if SizeHere(service).Some? then SizeHere(service)
    else if service == [] then None
    else InstallSize(service[1..])
  }

  /** The leftmost match decides; where nothing matches there is no size. */
  lemma {:induction false} LeftmostMatch(service: string, at: nat)
    requires at <= |service|
    requires forall k | 0 <= k < at :: SizeHere(service[k..]).None?
    requires SizeHere(service[at..]).Some? || at == |service|
    ensures InstallSize(service) == SizeHere(service[at..])
  {
    assert service[0..] == service;
    if at > 0 {
      assert service[1..][at - 1..] == service[at..];
      forall k | 0 <= k < at - 1 ensures SizeHere(service[1..][k..]).None? {
        assert service[1..][k..] == service[k + 1..];
      }
      LeftmostMatch(service[1..], at - 1);
    }
  }

  /** The size written after the first `-S` option that has one is read back, wherever it stands in the text. */
  lemma InstallSizeIsRead(before: string, size: nat, after: string)
    requires forall k | 0 <= k < |before| :: SizeHere((before + SIZE_OPTION + Decimal(size) + [NUL] + after)[k..]).None?
    ensures InstallSize(before + SIZE_OPTION + Decimal(size) + [NUL] + after) == Some(size)
  {
    var service := before + SIZE_OPTION + Decimal(size) + [NUL] + after;
    var here := service[|before|..];
    assert here == SIZE_OPTION + (Decimal(size) + ([NUL] + after));
    assert here[|SIZE_OPTION|..] == Decimal(size) + ([NUL] + after);
    LeadingDigitsStop(Decimal(size), [NUL] + after);
    LeftmostMatch(service, |before|);
  }
}
