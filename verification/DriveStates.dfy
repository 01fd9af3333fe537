/** What the control words of the motor node do to a drive: the state machine of section 8 of CiA 402, as far as it is
    driven by control words, against the words `RtCycle.NextControlWord` answers its status words with. */
module DriveStates {
  import opened RtCycle

  datatype Drive = SwitchOnDisabled | ReadyToSwitchOn | SwitchedOn | OperationEnabled

  /** The bits of the status word that tell the state: 0 to 3, 5 and 6; the others may be anything. */
  ghost predicate Tells(status: nat, d: Drive) {
    var low, high := status % 16, status / 32 % 4;
    match d
    case SwitchOnDisabled => low == 0 && high >= 2
    case ReadyToSwitchOn => low == 1 && high == 1
    case SwitchedOn => low == 3 && high == 1
    case OperationEnabled => low == 7 && high == 1
  }

  /** The state after a control word: shutdown, switch on, enable operation.  What else a word asks for is not done. */
  function Driven(d: Drive, control: nat): Drive {
    if control == 0x06 then ReadyToSwitchOn
    else if control == 0x07 then (if d == SwitchOnDisabled then d else SwitchedOn)
    else if control == 0x0F then (if d == SwitchedOn || d == OperationEnabled then OperationEnabled else d)
    else d
  }

  /** In every cycle the drive tells its state and gets the node's answer. */
  ghost predicate Follows(states: seq<Drive>, status: seq<nat>, enable: bool) {
    |states| == |status| + 1 && forall k :: 0 <= k < |status| ==>
      Tells(status[k], states[k]) && states[k + 1] == Driven(states[k], NextControlWord(status[k], enable))
  }

  /** A drive that is to be enabled is brought into operation within three cycles from any state without a fault, and
      stays there; one that is not is out of operation from the first cycle on. */
  lemma {:induction false} BroughtIntoOperation(states: seq<Drive>, status: seq<nat>, enable: bool, k: nat)
    requires Follows(states, status, enable) && k < |states|
    ensures enable && k >= 3 ==> states[k] == OperationEnabled
    ensures !enable && k >= 1 ==> states[k] == ReadyToSwitchOn
    ensures enable && k >= 2 ==> states[k] == SwitchedOn || states[k] == OperationEnabled
    ensures enable && k >= 1 ==> states[k] != SwitchOnDisabled
    decreases k
  {
    if k > 0 {
      BroughtIntoOperation(states, status, enable, k - 1);
      assert Tells(status[k - 1], states[k - 1]);
    }
  }
}
