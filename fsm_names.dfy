/**
 * FSM state-name instrumentation (add_fsm_state_names): an FSM whose
 * lowering also drives `next_state_name`, a register holding the name of
 * the next state as the big-endian integer of its bytes, beside the
 * numeric `next_state`; and the coalescing of NextValue targets into one
 * (enable, value) pair per target.
 *
 * The original installs this by replacing the FSM library's lowering for
 * every FSM in the process; here it is a per-instance model: LowerNext is
 * the node transformer and NamedFsm is one instrumented machine.
 */
module FsmNames {
  import opened Bytes
  import opened Wrappers

  /** A state name, as the bytes of its (ASCII) text. */
  type Name = seq<Byte>

  /** The length of the longest name: what len(max(encoding, key=len)) measures. */
  ghost function MaxLen(names: set<Name>): (m: nat)
    ensures forall n :: n in names ==> |n| <= m
    ensures names != {} ==> exists n :: n in names && |n| == m
    decreases names
  {
    if names == {} then 0
    else
      var n :| n in names;
      var rest := MaxLen(names - {n});
      if |n| >= rest then |n| else rest
  }

  /** The width of state_name and next_state_name: 8 bits per character of the longest state name. */
  ghost function NameWidth(encoding: map<Name, nat>): nat
  {
    8 * MaxLen(encoding.Keys)
  }

  /** int.from_bytes(name, byteorder="big") of every state's name fits the name registers. */
  lemma NameFits(encoding: map<Name, nat>, n: Name)
    requires n in encoding
    ensures FromBigEndian(n) < Pow2(NameWidth(encoding))
  {
    Pow256Monotonic(|n|, MaxLen(encoding.Keys));
    Pow2OfBytes(MaxLen(encoding.Keys));
  }

  /** aliases[s], falling back to s itself when s is not an alias. */
  function Resolve(aliases: map<Name, Name>, s: Name): (r: Name)
    ensures s !in aliases ==> r == s
    ensures s in aliases ==> r == aliases[s]
  {
    if s in aliases then aliases[s] else s
  }

  datatype LowerError = UnknownState(state: Name)  // KeyError from encoding[actual_state]

  /**
   * The values NextState(s) assigns: next_state gets the number of the
   * resolved state and next_state_name its encoded name. A state that
   * resolves to no known state fails with the lookup error.
   */
  function NextStateValues(encoding: map<Name, nat>, aliases: map<Name, Name>, s: Name): (r: Result<(nat, nat), LowerError>)
    ensures r.Success? <==> Resolve(aliases, s) in encoding
    ensures r.Failure? ==> r.error == UnknownState(Resolve(aliases, s))
  {
    var actual := Resolve(aliases, s);
    if actual in encoding then Success((encoding[actual], FromBigEndian(actual)))
    else Failure(UnknownState(actual))
  }

  /**
   * The two values NextState(s) drives name the same state: decoding the
   * name value gives back the resolved state, whose number is the value
   * driven onto next_state, provided the name has no leading NUL byte.
   */
  lemma NextStateValuesAgree(encoding: map<Name, nat>, aliases: map<Name, Name>, s: Name)
    requires Resolve(aliases, s) in encoding
    requires Resolve(aliases, s) == [] || Resolve(aliases, s)[0] != 0
    ensures var (code, name) := NextStateValues(encoding, aliases, s).value;
      && MinimalBigEndian(name) == Resolve(aliases, s)
      && MinimalBigEndian(name) in encoding
      && encoding[MinimalBigEndian(name)] == code
      && name < Pow2(NameWidth(encoding))
  {
    var actual := Resolve(aliases, s);
    MinimalDecodeIff(actual);
    NameFits(encoding, actual);
  }

  /** The statements the lowering sees: NextState, NextValue, or anything else. */
  datatype Node<T, V, S> = NextState(state: Name) | NextValue(target: T, value: V) | Other(stmt: S)

  /** The statements the lowering produces; signals it creates are numbered. */
  datatype Lowered<T, V, S> =
    | SetNextState(code: nat)        // next_state.eq(encoding[actual_state])
    | SetNextStateName(nameValue: nat)   // next_state_name.eq(int.from_bytes(...))
    | SetValue(signal: nat, value: V)  // next_value.eq(node.value)
    | SetEnable(signal: nat)         // next_value_ce.eq(1)
    | Keep(node: Node<T, V, S>)      // a node returned unchanged

  /** A registry entry (target, next_value_ce, next_value). */
  datatype Control<T> = Control(target: T, enable: nat, value: nat)

  datatype KeyError = KeyError

  /** The index of the first entry whose target matches, if any. */
  function FirstMatch<T>(registers: seq<Control<T>>, target: T, eq: (T, T) -> bool): (r: Option<nat>)
    ensures r.None? <==> forall j :: 0 <= j < |registers| ==> !eq(target, registers[j].target)
    ensures r.Some? ==> r.value < |registers| && eq(target, registers[r.value].target)
    ensures r.Some? ==> forall j :: 0 <= j < r.value ==> !eq(target, registers[j].target)
  {
    if registers == [] then None
    else if eq(target, registers[0].target) then Some(0)
    else
      var rest := FirstMatch(registers[1..], target, eq);
      if rest.None? then None else Some(rest.value + 1)
  }

  /** My_LowerNext: the node transformer, with its registry of NextValue targets. */
  class LowerNext<T, V, S> {
    const encoding: map<Name, nat>
    const aliases: map<Name, Name>
    /** _target_eq, taken as a parameter. */
    const targetEq: (T, T) -> bool
    /** The (target, enable, value) registry; the two signals of entry j are numbered 2j and 2j + 1. */
    var registers: seq<Control<T>>

    /** No entry's target matches an earlier entry's, and every entry's signals are its own. */
    ghost predicate Valid()
      reads this
    {
      && (forall j, k :: 0 <= j < k < |registers| ==> !targetEq(registers[k].target, registers[j].target))
      && (forall j :: 0 <= j < |registers| ==> registers[j].value == 2 * j && registers[j].enable == 2 * j + 1)
    }

    constructor (encoding: map<Name, nat>, aliases: map<Name, Name>, targetEq: (T, T) -> bool)
      ensures Valid()
      ensures this.encoding == encoding && this.aliases == aliases && this.targetEq == targetEq
      ensures registers == []
    {
      this.encoding := encoding;
      this.aliases := aliases;
      this.targetEq := targetEq;
      registers := [];
    }

    /** _get_register_control: the (enable, value) pair of the first entry whose target matches, or KeyError. */
    method GetRegisterControl(target: T) returns (r: Result<(nat, nat), KeyError>)
      ensures r.Failure? <==> forall j :: 0 <= j < |registers| ==> !targetEq(target, registers[j].target)
      ensures r.Success? ==>
        exists j :: && 0 <= j < |registers|
                    && (forall m :: 0 <= m < j ==> !targetEq(target, registers[m].target))
                    && targetEq(target, registers[j].target)
                    && r.value == (registers[j].enable, registers[j].value)
    {
      var k := 0;
      while k < |registers|
        invariant 0 <= k <= |registers|
        invariant forall m :: 0 <= m < k ==> !targetEq(target, registers[m].target)
      {
        if targetEq(target, registers[k].target) {
          return Success((registers[k].enable, registers[k].value));
        }
        k := k + 1;
      }
      return Failure(KeyError);
    }

    /**
     * visit_unknown: NextState becomes the two assignments of
     * NextStateValues; NextValue becomes value := v and enable := 1 on the
     * target's registry pair, which is created and appended the first time
     * the target is seen; every other node is returned unchanged.
     */
    method VisitUnknown(node: Node<T, V, S>) returns (r: Result<seq<Lowered<T, V, S>>, LowerError>)
      requires Valid()
      modifies this
      ensures Valid()
      ensures node.NextState? ==> registers == old(registers)
      ensures node.NextState? ==> match NextStateValues(encoding, aliases, node.state)
        case Success((code, name)) => r == Success([SetNextState(code), SetNextStateName(name)])
        case Failure(e) => r == Failure(e)
      ensures node.NextValue? ==> match FirstMatch(old(registers), node.target, targetEq)
        case Some(j) =>
          registers == old(registers) &&
          r == Success([SetValue(registers[j].value, node.value), SetEnable(registers[j].enable)])
        case None =>
          var n := |old(registers)|;
          registers == old(registers) + [Control(node.target, 2 * n + 1, 2 * n)] &&
          r == Success([SetValue(2 * n, node.value), SetEnable(2 * n + 1)])
      ensures node.Other? ==> registers == old(registers) && r == Success([Keep(node)])
    {
      match node
      case NextState(s) =>
        var actual := if s in aliases then aliases[s] else s;
        if actual !in encoding {
          return Failure(UnknownState(actual));
        }
        r := Success([SetNextState(encoding[actual]), SetNextStateName(FromBigEndian(actual))]);
      case NextValue(target, value) =>
        var control := GetRegisterControl(target);
        var enable, next;
        if control.Success? {
          enable, next := control.value.0, control.value.1;
        } else {
          next := 2 * |registers|;
          enable := next + 1;
          registers := registers + [Control(target, enable, next)];
        }
        r := Success([SetValue(next, value), SetEnable(enable)]);
      case Other(_) =>
        r := Success([Keep(node)]);
    }
  }

  /**
   * An FSM built with the instrumented lowering. `state` is the numeric state
   * register and `stateName` is state_name; `current` is the state they
   * both stand for.
   */
  class NamedFsm {
    const encoding: map<Name, nat>
    const aliases: map<Name, Name>
    const resetState: Name
    var state: nat
    var stateName: nat
    ghost var current: Name

    ghost predicate Valid()
      reads this
    {
      && current in encoding
      && state == encoding[current]
      && stateName == FromBigEndian(current)
      && stateName < Pow2(NameWidth(encoding))
    }

    /** Both registers reset to the reset state: its number and its encoded name. */
    constructor (encoding: map<Name, nat>, aliases: map<Name, Name>, resetState: Name)
      requires resetState in encoding
      ensures Valid()
      ensures this.encoding == encoding && this.aliases == aliases && this.resetState == resetState
      ensures current == resetState && state == encoding[resetState] && stateName == FromBigEndian(resetState)
    {
      this.encoding := encoding;
      this.aliases := aliases;
      this.resetState := resetState;
      state := encoding[resetState];
      stateName := FromBigEndian(resetState);
      current := resetState;
      NameFits(encoding, resetState);
    }

    /**
     * One clock edge. `next` is the NextState the current state's actions
     * fire on this edge, if any. next_state and next_state_name default to
     * the current registers, so with no NextState both are held; otherwise
     * both take the resolved target.
     */
    method Step(next: Option<Name>)
      requires Valid()
      requires next.Some? ==> Resolve(aliases, next.value) in encoding
      modifies this
      ensures Valid()
      ensures next.None? ==> state == old(state) && stateName == old(stateName) && current == old(current)
      ensures next.Some? ==> current == Resolve(aliases, next.value)
    {
      var nextState, nextStateName := state, stateName;
      if next.Some? {
        var values := NextStateValues(encoding, aliases, next.value);
        nextState, nextStateName := values.value.0, values.value.1;
        current := Resolve(aliases, next.value);
        NameFits(encoding, current);
      }
      state, stateName := nextState, nextStateName;
    }
  }
}
