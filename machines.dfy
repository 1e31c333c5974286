/**
 * Model of enigma/Machine.java: rotor slots filled from a collection of
 * available rotors, the stepping rule, and the path of a signal through
 * plugboard, rotors and reflector.  The slots are an array of (shared)
 * Rotor objects; the conversion is proved against value-level functions
 * over the slots' RotorViews.
 */
module Machines {
  import opened Wrappers
  import opened JavaInt
  import opened Alphabets
  import opened Permutations
  import opened Rotors

  /** The EnigmaExceptions (and the one NullPointerException) the machine can raise. */
  datatype MachineError =
    | WrongRotorCount      // "Wrong Rotor size"
    | NotAReflector        // "not a refelctor!"
    | UnknownRotor         // "wrong rotor"
    | RepeatedRotor        // "repeated name"
    | NullSlot             // slot 0 was never filled and no rotor has the name asked for
    | WrongSettingLength   // "length must be numRotors - 1"
    | NotInAlphabet        // "Characters isn't in my alphabet"

  /* ---------------- Rotor insertion ---------------- */

  /** The rotor the scan over the available rotors leaves in a slot for NAME: the last one so named. */
  function LastNamed(all: seq<Rotor>, name: string): (r: Option<Rotor>)
    ensures r.None? <==> forall k :: 0 <= k < |all| ==> all[k].name != name
    ensures r.Some? ==> r.value in all && r.value.name == name
  {
    if all == [] then None
    else if all[|all| - 1].name == name then Some(all[|all| - 1])
    else LastNamed(all[..|all| - 1], name)
  }

  /** The rotor found is the last one with that name: no later rotor has it. */
  lemma {:induction false} LastNamedIsLast(all: seq<Rotor>, name: string) returns (k: int)
    requires LastNamed(all, name).Some?
    ensures 0 <= k < |all| && all[k] == LastNamed(all, name).value
    ensures forall j :: k < j < |all| ==> all[j].name != name
  {
    if all[|all| - 1].name == name {
      k := |all| - 1;
    } else {
      k := LastNamedIsLast(all[..|all| - 1], name);
    }
  }

  /** The verdict of insertRotors' checks on slot I alone, in the source's order; None lets the loop go on. */
  function SlotCheck(all: seq<Rotor>, names: seq<string>, i: nat, slot0: Rotor?): Option<MachineError>
    requires i < |names|
  {
    var m := LastNamed(all, names[i]);
    if i == 0 && m.None? && slot0 == null then Some(NullSlot)
    else if i == 0 && !(if m.Some? then m.value else slot0).Reflecting() then Some(NotAReflector)
    else if m.None? then Some(UnknownRotor)
    else if exists j :: 0 <= j < i && names[j] == names[i] then Some(RepeatedRotor)
    else None
  }

  /**
   * The outcome of insertRotors' loop from slot I on.  The reflector test on
   * slot 0 comes before the "no such rotor" test, so a missing name at slot 0
   * is judged by whatever the slot held before.
   */
  function SlotError(all: seq<Rotor>, names: seq<string>, i: nat, slot0: Rotor?): Option<MachineError>
    requires i <= |names|
    decreases |names| - i
  {
    if i == |names| then None
    else if SlotCheck(all, names, i, slot0).Some? then SlotCheck(all, names, i, slot0)
    else SlotError(all, names, i + 1, slot0)
  }

  /** The slot at which insertRotors' loop stops, from slot I on: the first whose checks fail, or |NAMES| if none does. */
  function FailingSlot(all: seq<Rotor>, names: seq<string>, i: nat, slot0: Rotor?): (f: nat)
    requires i <= |names|
    ensures i <= f <= |names|
    ensures f < |names| <==> SlotError(all, names, i, slot0).Some?
    ensures f < |names| ==> SlotError(all, names, i, slot0) == SlotCheck(all, names, f, slot0)
    ensures forall k :: i <= k < f ==> SlotCheck(all, names, k, slot0).None?
    decreases |names| - i
  {
    if i == |names| || SlotCheck(all, names, i, slot0).Some? then i
    else FailingSlot(all, names, i + 1, slot0)
  }

  function InsertOutcome(all: seq<Rotor>, names: seq<string>, n: int, slot0: Rotor?): Option<MachineError> {
    if |names| != n then Some(WrongRotorCount) else SlotError(all, names, 0, slot0)
  }

  /** Every name is available, the first names a reflector, and no name repeats. */
  predicate Insertable(all: seq<Rotor>, names: seq<string>) {
    && |names| > 0
    && (forall i :: 0 <= i < |names| ==> LastNamed(all, names[i]).Some?)
    && LastNamed(all, names[0]).value.Reflecting()
    && (forall i, j :: 0 <= i < j < |names| ==> names[i] != names[j])
  }

  lemma {:induction false} SlotErrorFree(all: seq<Rotor>, names: seq<string>, i: nat, slot0: Rotor?)
    requires 0 < i <= |names|
    ensures SlotError(all, names, i, slot0).None? <==>
      (forall k :: i <= k < |names| ==> LastNamed(all, names[k]).Some? && forall j :: 0 <= j < k ==> names[j] != names[k])
    decreases |names| - i
  {
    if i < |names| {
      SlotErrorFree(all, names, i + 1, slot0);
    }
  }

  /** insertRotors succeeds exactly when the names fit the slots, exist, start with a reflector and are distinct. */
  lemma InsertSucceedsIff(all: seq<Rotor>, names: seq<string>, n: int, slot0: Rotor?)
    requires n > 0
    ensures InsertOutcome(all, names, n, slot0).None? <==> |names| == n && Insertable(all, names)
  {
    if |names| == n {
      SlotErrorFree(all, names, 1, slot0);
      if InsertOutcome(all, names, n, slot0).None? {
        forall i, j | 0 <= i < j < |names| ensures names[i] != names[j] {
          assert forall j' :: 0 <= j' < j ==> names[j'] != names[j];
        }
      }
    }
  }

  /* ---------------- Stepping ---------------- */

  predicate AllValid(vs: seq<RotorView>) {
    forall k :: 0 <= k < |vs| ==> vs[k].Valid()
  }

  /** Whether slot I advances: decided from the positions before any rotor moves. */
  function Advances(vs: seq<RotorView>, i: int): bool
    requires AllValid(vs) && 0 <= i < |vs|
  {
    if i == |vs| - 1 then true
    else if i == 0 then false
    else (vs[i].AtNotch() && vs[i - 1].Rotates()) || vs[i + 1].AtNotch()
  }

  /** The slots after the advance step of convert(int). */
  function Stepped(vs: seq<RotorView>): (ws: seq<RotorView>)
    requires AllValid(vs)
    ensures |ws| == |vs| && AllValid(ws)
    ensures forall i {:trigger ws[i]} :: 0 <= i < |vs| ==> ws[i].kind == vs[i].kind && ws[i].perm == vs[i].perm
  {
    seq(|vs|, i requires 0 <= i < |vs| => if Advances(vs, i) then vs[i].Advanced() else vs[i])
  }

  /** The stepping rule: the reflector stays, the rightmost rotor always moves, a middle one double-steps. */
  lemma SteppingRule(vs: seq<RotorView>, i: int)
    requires AllValid(vs) && |vs| > 1 && 0 <= i < |vs|
    ensures i == 0 ==> Stepped(vs)[0] == vs[0]
    ensures i == |vs| - 1 ==> Stepped(vs)[i] == vs[i].Advanced()
    ensures 0 < i < |vs| - 1 ==>
      Stepped(vs)[i] == if (vs[i].AtNotch() && vs[i - 1].Rotates()) || vs[i + 1].AtNotch() then vs[i].Advanced() else vs[i]
    ensures Stepped(vs)[i].kind == vs[i].kind && Stepped(vs)[i].perm == vs[i].perm
  {
  }

  /* ---------------- The signal path ---------------- */

  /** All views turn indices of one common alphabet. */
  predicate SameAlphabet(vs: seq<RotorView>, a: Alphabet) {
    forall k :: 0 <= k < |vs| ==> vs[k].Valid() && vs[k].perm.alphabet == a
  }

  predicate PlugFits(plugboard: Option<Permutation>, a: Alphabet) {
    plugboard.Some? ==> plugboard.value.Valid() && plugboard.value.alphabet == a
  }

  /** The plugboard, or the identity when there is none. */
  function Plug(plugboard: Option<Permutation>, c: int): int
    requires plugboard.Some? ==> plugboard.value.Valid()
  {
    if plugboard.Some? then plugboard.value.PermuteValue(c) else c
  }

  /** convertForward through the views, the last one first. */
  function ForwardAll(vs: seq<RotorView>, c: int): (r: int)
    requires AllValid(vs)
    ensures vs != [] ==> 0 <= r < vs[0].Size()
  {
    if vs == [] then c else vs[0].Forward(ForwardAll(vs[1..], c))
  }

  /** convertBackward through the views, the first one first. */
  function BackwardAll(vs: seq<RotorView>, c: int): (r: int)
    requires AllValid(vs)
    ensures vs != [] ==> 0 <= r < vs[|vs| - 1].Size()
  {
    if vs == [] then c else BackwardAll(vs[1..], vs[0].Backward(c))
  }

  /** What convert(int) returns once the rotors have stepped to VS. */
  function Signal(vs: seq<RotorView>, plugboard: Option<Permutation>, c: int): int
    requires AllValid(vs) && |vs| > 0
    requires plugboard.Some? ==> plugboard.value.Valid()
  {
    var entered := Plug(plugboard, c);
    var reflected := BackwardAll(vs, ForwardAll(vs[1..], entered));
    Plug(plugboard, reflected)
  }

  /** The signal path ends on an index of the common alphabet. */
  lemma SignalInRange(vs: seq<RotorView>, plugboard: Option<Permutation>, a: Alphabet, c: int)
    requires |vs| > 0 && SameAlphabet(vs, a) && PlugFits(plugboard, a)
    ensures 0 <= Signal(vs, plugboard, c) < a.Size()
  {
  }

  /** The state of one slot as a value; an empty slot reads as an inert placeholder. */
  function SlotView(r: Rotor?): RotorView
    reads r
  {
    if r == null then RotorView(Plain, Permutation([], Alphabet([])), 0) else r.View()
  }

  /** The states of the rotors RS, slot by slot. */
  ghost function ViewsOf(rs: seq<Rotor?>): (vs: seq<RotorView>)
    reads set r | r in rs && r != null
    ensures |vs| == |rs|
  {
    if rs == [] then [] else [SlotView(rs[0])] + ViewsOf(rs[1..])
  }

  twostate lemma {:induction false} ViewsOfKept(rs: seq<Rotor?>)
    requires forall k :: 0 <= k < |rs| && rs[k] != null ==> unchanged(rs[k])
    ensures ViewsOf(rs) == old(ViewsOf(rs))
  {
    if rs != [] {
      ViewsOfKept(rs[1..]);
    }
  }

  lemma {:induction false} ViewsOfIndex(rs: seq<Rotor?>)
    ensures forall i :: 0 <= i < |rs| ==> ViewsOf(rs)[i] == SlotView(rs[i])
  {
    if rs != [] {
      ViewsOfIndex(rs[1..]);
    }
  }

  /* ---------------- The machine ---------------- */

  class Machine {
    const alphabet: Alphabet
    const numRotors: int
    /** Stored and never used by convert. */
    const pawls: int
    const allRotors: seq<Rotor>
    const slots: array<Rotor?>
    var plugboard: Option<Permutation>

    ghost predicate Valid()
      reads this, allRotors
    {
      && alphabet.Valid()
      && 1 < numRotors && slots.Length == numRotors
      && (forall r :: r in allRotors ==> r.Valid() && r.perm.alphabet == alphabet)
      && PlugFits(plugboard, alphabet)
    }

    /** After a successful insertRotors: every slot holds an available rotor, all of them distinct, a reflector first. */
    ghost predicate Ready()
      reads this, slots, allRotors
    {
      && Valid()
      && (forall i :: 0 <= i < slots.Length ==> slots[i] != null && slots[i] in allRotors)
      && (forall i, j :: 0 <= i < j < slots.Length && slots[i] != null && slots[j] != null ==> slots[i].name != slots[j].name)
      && slots[0] != null && slots[0].Reflecting()
    }

    /** The state of the slots as values. */
    ghost function Views(): (vs: seq<RotorView>)
      reads this, slots, set r | r in slots[..] && r != null
      ensures |vs| == slots.Length
      ensures Ready() ==> |vs| == numRotors && SameAlphabet(vs, alphabet) && AllValid(vs)
    {
      ViewsOfIndex(slots[..]);
      ViewsOf(slots[..])
    }

    /** Slot by slot, Views is the state of the rotor in each slot. */
    lemma ViewsAt()
      ensures forall i :: 0 <= i < slots.Length ==> Views()[i] == SlotView(slots[i])
    {
      ViewsOfIndex(slots[..]);
    }

    /** Views depends only on the slots and the rotors in them. */
    twostate lemma ViewsKept()
      requires unchanged(this, slots)
      requires forall k :: 0 <= k < slots.Length && slots[k] != null ==> unchanged(slots[k])
      ensures Views() == old(Views())
    {
      assert old(slots[..]) == slots[..];
      ViewsOfKept(slots[..]);
    }

    /** A machine with empty slots and no plugboard. */
    constructor (alpha: Alphabet, numRotors: int, pawls: int, allRotors: seq<Rotor>)
      requires alpha.Valid() && 1 < numRotors && 0 <= pawls < numRotors
      requires forall r :: r in allRotors ==> r.Valid() && r.perm.alphabet == alpha
      ensures Valid() && fresh(slots)
      ensures this.alphabet == alpha && this.numRotors == numRotors && this.pawls == pawls && this.allRotors == allRotors
      ensures forall i :: 0 <= i < slots.Length ==> slots[i] == null
      ensures plugboard == None
    {
      alphabet := alpha;
      this.numRotors := numRotors;
      this.pawls := pawls;
      this.allRotors := allRotors;
      slots := new Rotor?[numRotors](_ => null);
      plugboard := None;
    }

    /** insertRotors: fill slot i with the (last) available rotor named NAMES[i], checking as it goes. */
    method InsertRotors(names: seq<string>) returns (err: Option<MachineError>)
      requires Valid()
      modifies slots
      ensures Valid()
      ensures err == InsertOutcome(allRotors, names, numRotors, old(slots[0]))
      ensures err.None? ==> Ready()
      ensures err.None? ==> |names| == numRotors && forall i :: 0 <= i < numRotors ==> LastNamed(allRotors, names[i]) == Some(slots[i])
      ensures err == Some(WrongRotorCount) ==> slots[..] == old(slots[..])
      ensures |names| == numRotors ==>
        var f := FailingSlot(allRotors, names, 0, old(slots[0]));
        && (forall k :: 0 <= k < f ==> LastNamed(allRotors, names[k]) == Some(slots[k]))
        && (f < numRotors ==> slots[f] == if LastNamed(allRotors, names[f]).Some? then LastNamed(allRotors, names[f]).value else old(slots[f]))
        && (forall k :: f < k < numRotors ==> slots[k] == old(slots[k]))
    {
      err := None;
      if |names| != numRotors {
        return Some(WrongRotorCount);
      }
      ghost var slot0 := slots[0];
      var i := 0;
      while i < |names|
        invariant 0 <= i <= |names|
        invariant SlotError(allRotors, names, 0, slot0) == SlotError(allRotors, names, i, slot0)
        invariant FailingSlot(allRotors, names, 0, slot0) == FailingSlot(allRotors, names, i, slot0)
        invariant err.None?
        invariant forall k :: 0 <= k < i ==> LastNamed(allRotors, names[k]) == Some(slots[k])
        invariant forall k :: i <= k < |names| ==> slots[k] == old(slots[k])
        invariant forall k, j :: 0 <= j < k < i ==> names[j] != names[k]
        invariant i > 0 ==> slots[0] != null && slots[0].Reflecting()
        invariant i == 0 ==> slots[0] == slot0
      {
        err := FillAndCheck(names, i, slot0);
        if err.Some? {
          assert SlotError(allRotors, names, i, slot0) == err;
          assert FailingSlot(allRotors, names, i, slot0) == i;
          return;
        }
        i := i + 1;
      }
    }

    /** The body of insertRotors' loop: fill slot I with the rotor named NAMES[I], then run that slot's checks. */
    method FillAndCheck(names: seq<string>, i: int, ghost slot0: Rotor?) returns (err: Option<MachineError>)
      requires Valid() && |names| == numRotors && 0 <= i < numRotors
      requires forall k :: 0 <= k < i ==> LastNamed(allRotors, names[k]) == Some(slots[k])
      requires i == 0 ==> slots[0] == slot0
      modifies slots
      ensures err == SlotCheck(allRotors, names, i, slot0)
      ensures slots[i] == if LastNamed(allRotors, names[i]).Some? then LastNamed(allRotors, names[i]).value else old(slots[i])
      ensures forall k :: 0 <= k < slots.Length && k != i ==> slots[k] == old(slots[k])
    {
      var check := FillSlot(i, names[i]);
      if i == 0 && slots[i] == null {
        return Some(NullSlot);
      }
      if i == 0 && !slots[i].Reflecting() {
        return Some(NotAReflector);
      }
      if check {
        return Some(UnknownRotor);
      }
      var repeated := RepeatsEarlier(i);
      if repeated {
        return Some(RepeatedRotor);
      }
      return None;
    }

    /** The inner loop of insertRotors: every available rotor named NAME is put in slot I in turn. */
    method FillSlot(i: int, name: string) returns (check: bool)
      requires 0 <= i < slots.Length
      modifies slots
      ensures check <==> LastNamed(allRotors, name).None?
      ensures slots[i] == if check then old(slots[i]) else LastNamed(allRotors, name).value
      ensures forall j :: 0 <= j < slots.Length && j != i ==> slots[j] == old(slots[j])
    {
      check := true;
      var k := 0;
      while k < |allRotors|
        invariant 0 <= k <= |allRotors|
        invariant check <==> LastNamed(allRotors[..k], name).None?
        invariant slots[i] == if check then old(slots[i]) else LastNamed(allRotors[..k], name).value
        invariant forall j :: 0 <= j < slots.Length && j != i ==> slots[j] == old(slots[j])
      {
        assert allRotors[..k + 1][..k] == allRotors[..k];
        if name == allRotors[k].name {
          slots[i] := allRotors[k];
          check := false;
        }
        k := k + 1;
      }
      assert allRotors[..k] == allRotors;
    }

    /** The repeated-name test of insertRotors on slot I against the slots before it. */
    method RepeatsEarlier(i: int) returns (b: bool)
      requires 0 <= i < slots.Length && forall k :: 0 <= k <= i ==> slots[k] != null
      ensures b <==> exists j :: 0 <= j < i && slots[j].name == slots[i].name
    {
      var j := 0;
      while j < i
        invariant 0 <= j <= i
        invariant forall h :: 0 <= h < j ==> slots[h].name != slots[i].name
      {
        if slots[i].name == slots[j].name {
          return true;
        }
        j := j + 1;
      }
      return false;
    }

    /** setRotors: slot i (i >= 1) goes to the position of SETTING[i - 1]. */
    method SetRotors(setting: string) returns (err: Option<MachineError>)
      requires Ready()
      modifies set k | 0 <= k < slots.Length :: slots[k]
      ensures Ready()
      ensures err.None? <==> |setting| == numRotors - 1 && forall c :: c in setting ==> alphabet.Contains(c)
      ensures err.Some? ==> err.value == if |setting| != numRotors - 1 then WrongSettingLength else NotInAlphabet
      ensures forall i :: 0 <= i < numRotors ==>
        Views()[i] == old(Views())[i].(setting := if 0 < i && |setting| == numRotors - 1 && i - 1 < FirstOutside(alphabet, setting)
                                                  then alphabet.ToInt(setting[i - 1]) else old(Views())[i].setting)
    {
      err := None;
      if |setting| != numRotors - 1 {
        return Some(WrongSettingLength);
      }
      ghost var vs := Views();
      ViewsAt();
      var i := 1;
      while i < numRotors
        invariant 1 <= i <= numRotors
        invariant Ready()
        invariant i - 1 <= FirstOutside(alphabet, setting)
        invariant forall k :: 0 <= k < numRotors ==>
          slots[k].View() == vs[k].(setting := if 0 < k < i then alphabet.ToInt(setting[k - 1]) else vs[k].setting)
      {
        if !alphabet.Contains(setting[i - 1]) {
          FirstOutsideAt(alphabet, setting, i - 1);
          ViewsAt();
          return Some(NotInAlphabet);
        }
        FirstOutsidePast(alphabet, setting, i - 1);
        SetSlot(i, setting[i - 1]);
        i := i + 1;
      }
      FirstOutsideAll(alphabet, setting);
      ViewsAt();
    }

    /** The body of setRotors' loop: the rotor in slot I goes to the position of C. */
    method SetSlot(i: int, c: char)
      requires Ready() && 0 <= i < slots.Length && alphabet.Contains(c)
      modifies slots[i]
      ensures Ready()
      ensures slots[i].View() == old(slots[i].View()).(setting := alphabet.ToInt(c))
      ensures forall k :: 0 <= k < slots.Length && k != i ==> slots[k].View() == old(slots[k].View())
    {
      var r := slots[i];
      r.SetChar(c);
      assert forall k :: 0 <= k < slots.Length && k != i ==> slots[k] != r;
    }

    /** setPlugboard. */
    method SetPlugboard(p: Option<Permutation>)
      requires Valid() && PlugFits(p, alphabet)
      modifies this
      ensures Valid() && plugboard == p
    {
      plugboard := p;
    }

    /** convert(int): step the rotors, then send C through plugboard, rotors, reflector, rotors, plugboard. */
    method Convert(c: int) returns (r: int)
      requires Ready()
      modifies set k | 0 <= k < slots.Length :: slots[k]
      ensures Ready()
      ensures Views() == Stepped(old(Views()))
      ensures r == Signal(Views(), plugboard, c) && 0 <= r < alphabet.Size()
    {
      var ifAdvance := AdvanceDecisions();
      ViewsKept();
      AdvanceSlots(ifAdvance);
      ghost var ws := Views();
      ViewsAt();
      label Advanced:
      r := SignalPath(c, ws);
      ViewsKept@Advanced();
      SignalInRange(Views(), plugboard, alphabet, c);
    }

    /** The first loop of convert(int): which slots advance, all decided before any rotor moves. */
    method AdvanceDecisions() returns (ifAdvance: array<bool>)
      requires Ready()
      ensures fresh(ifAdvance) && ifAdvance.Length == numRotors
      ensures forall k :: 0 <= k < numRotors ==> ifAdvance[k] == Advances(Views(), k)
    {
      ghost var vs := Views();
      ViewsAt();
      ifAdvance := new bool[slots.Length](_ => false);
      DecideAdvances(ifAdvance, vs);
    }

    /** The body of the first loop of convert(int), on slots whose states are VS. */
    method DecideAdvances(ifAdvance: array<bool>, ghost vs: seq<RotorView>)
      requires ifAdvance.Length == slots.Length == |vs| >= 2 && AllValid(vs)
      requires forall k :: 0 <= k < |vs| ==> !ifAdvance[k]
      requires forall k :: 0 <= k < |vs| ==> slots[k] != null && slots[k].Valid() && slots[k].View() == vs[k]
      modifies ifAdvance
      ensures forall k :: 0 <= k < |vs| ==> ifAdvance[k] == Advances(vs, k)
    {
      var n := ifAdvance.Length;
      ifAdvance[0] := false;
      ifAdvance[n - 1] := true;
      var i := 1;
      while i < n
        invariant 1 <= i <= n
        invariant forall k :: 0 <= k < n ==> ifAdvance[k] == if k < i then Advances(vs, k) else k == n - 1
      {
        if i != slots.Length - 1 && ((slots[i].AtNotch() && slots[i - 1].Rotates()) || slots[i + 1].AtNotch()) {
          ifAdvance[i] := true;
        }
        i := i + 1;
      }
    }

    /** The second loop of convert(int): advance the slots marked in IFADVANCE. */
    method AdvanceSlots(ifAdvance: array<bool>)
      requires Ready() && ifAdvance.Length == numRotors
      requires forall k :: 0 <= k < numRotors ==> ifAdvance[k] == Advances(Views(), k)
      modifies set k | 0 <= k < slots.Length :: slots[k]
      ensures Ready()
      ensures Views() == Stepped(old(Views()))
    {
      ghost var vs := Views();
      ViewsAt();
      AdvanceMarked(ifAdvance, vs);
      ViewsAt();
    }

    /** The loop of convert(int)'s second step, on slots whose states are VS: each marked slot advances once. */
    method AdvanceMarked(ifAdvance: array<bool>, ghost vs: seq<RotorView>)
      requires ifAdvance.Length == slots.Length == |vs| && AllValid(vs)
      requires forall k :: 0 <= k < |vs| ==> slots[k] != null && slots[k].Valid() && slots[k].View() == vs[k]
      requires forall j, k :: 0 <= j < k < |vs| ==> slots[j] != slots[k]
      requires forall k :: 0 <= k < |vs| ==> ifAdvance[k] == Advances(vs, k)
      modifies set k | 0 <= k < slots.Length :: slots[k]
      ensures forall k :: 0 <= k < |vs| ==> slots[k] != null && slots[k].Valid() && slots[k].View() == Stepped(vs)[k]
    {
      var i := 0;
      while i < slots.Length
        invariant 0 <= i <= slots.Length
        invariant forall k :: 0 <= k < |vs| ==> slots[k] != null && slots[k].Valid()
        invariant forall k :: 0 <= k < |vs| ==> slots[k].View() == if k < i then Stepped(vs)[k] else vs[k]
      {
        var r := slots[i];
        assert Stepped(vs)[i] == if Advances(vs, i) then vs[i].Advanced() else vs[i];
        if ifAdvance[i] {
          r.Advance();
        }
        assert forall k :: 0 <= k < |vs| && k != i ==> slots[k] != r;
        i := i + 1;
      }
    }

    /** The signal path of convert(int), on slots whose states are WS; nothing changes. */
    method SignalPath(c: int, ghost ws: seq<RotorView>) returns (r: int)
      requires slots.Length == |ws| >= 1 && AllValid(ws)
      requires forall k :: 0 <= k < |ws| ==> slots[k] != null && slots[k].Valid() && slots[k].View() == ws[k]
      requires plugboard.Some? ==> plugboard.value.Valid()
      ensures r == Signal(ws, plugboard, c)
    {
      var entered := Plug(plugboard, c);
      var forward := ForwardPass(entered, ws);
      var reflected := BackwardPass(forward, ws);
      r := Plug(plugboard, reflected);
    }

    /** convertForward through slots n-1 down to 1, on slots whose states are WS. */
    method ForwardPass(c: int, ghost ws: seq<RotorView>) returns (r: int)
      requires slots.Length == |ws| >= 1 && AllValid(ws)
      requires forall k :: 0 <= k < |ws| ==> slots[k] != null && slots[k].Valid() && slots[k].View() == ws[k]
      ensures r == ForwardAll(ws[1..], c)
    {
      r := c;
      var i := slots.Length - 1;
      while i > 0
        invariant 0 <= i <= slots.Length - 1
        invariant r == ForwardAll(ws[i + 1..], c)
      {
        assert ws[i..][1..] == ws[i + 1..];
        r := slots[i].ConvertForward(r);
        i := i - 1;
      }
    }

    /** convertBackward through slots 0 up to n-1, the reflector first, on slots whose states are WS. */
    method BackwardPass(c: int, ghost ws: seq<RotorView>) returns (r: int)
      requires slots.Length == |ws| && AllValid(ws)
      requires forall k :: 0 <= k < |ws| ==> slots[k] != null && slots[k].Valid() && slots[k].View() == ws[k]
      ensures r == BackwardAll(ws, c)
    {
      r := c;
      var i := 0;
      assert ws[0..] == ws;
      while i < slots.Length
        invariant 0 <= i <= slots.Length
        invariant BackwardAll(ws[i..], r) == BackwardAll(ws, c)
      {
        assert ws[i..][1..] == ws[i + 1..];
        r := slots[i].ConvertBackward(r);
        i := i + 1;
      }
    }

    /** convert(String): trim, drop spaces, and convert each remaining character in order. */
    method ConvertMessage(msg: string) returns (out: string)
      requires Ready()
      requires InAlphabet(alphabet, Clean(msg))
      modifies set k | 0 <= k < slots.Length :: slots[k]
      ensures Ready()
      ensures Views() == Steps(old(Views()), |Clean(msg)|)
      ensures out == EncipherText(old(Views()), plugboard, alphabet, Clean(msg))
    {
      out := ConvertText(Clean(msg));
    }

    /** The loop of convert(String), over the cleaned message. */
    method ConvertText(text: string) returns (out: string)
      requires Ready()
      requires InAlphabet(alphabet, text)
      modifies set k | 0 <= k < slots.Length :: slots[k]
      ensures Ready()
      ensures Views() == Steps(old(Views()), |text|)
      ensures out == EncipherText(old(Views()), plugboard, alphabet, text)
    {
      ghost var vs0 := Views();
      ghost var whole := EncipherText(vs0, plugboard, alphabet, text);
      out := "";
      var i := 0;
      while i < |text|
        invariant 0 <= i <= |text|
        invariant Ready()
        invariant Views() == Steps(vs0, i)
        invariant out == whole[..i]
      {
        var x := Convert(alphabet.ToInt(text[i]));
        EncipherTextStep(vs0, plugboard, alphabet, text, i, out, x);
        out := out + [alphabet.ToChar(x)];
        i := i + 1;
      }
      TakeAll(whole);
    }
  }

  /** The index of the first character of S outside the alphabet, or |S|. */
  function FirstOutside(a: Alphabet, s: string): (k: nat)
    ensures k <= |s|
    ensures forall j :: 0 <= j < k ==> a.Contains(s[j])
    ensures k < |s| ==> !a.Contains(s[k])
  {
    if s == [] then 0 else if !a.Contains(s[0]) then 0 else 1 + FirstOutside(a, s[1..])
  }

  lemma FirstOutsideAt(a: Alphabet, s: string, k: int)
    requires 0 <= k < |s| && !a.Contains(s[k]) && forall j :: 0 <= j < k ==> a.Contains(s[j])
    ensures FirstOutside(a, s) == k
  {
  }

  lemma FirstOutsidePast(a: Alphabet, s: string, k: int)
    requires 0 <= k < |s| && a.Contains(s[k]) && k <= FirstOutside(a, s)
    ensures k < FirstOutside(a, s)
  {
  }

  lemma FirstOutsideAll(a: Alphabet, s: string)
    requires FirstOutside(a, s) == |s|
    ensures forall c :: c in s ==> a.Contains(c)
  {
  }

  /** The message convert(String) works on: trimmed, with the spaces taken out. */
  function Clean(msg: string): string {
    RemoveAll(Trim(msg), ' ')
  }

  /** Every character of TEXT is in alphabet A. */
  predicate InAlphabet(a: Alphabet, text: string) {
    forall k :: 0 <= k < |text| ==> a.Contains(text[k])
  }

  /** The slots after N advance steps. */
  ghost function Steps(vs: seq<RotorView>, n: nat): (ws: seq<RotorView>)
    requires AllValid(vs)
    ensures |ws| == |vs| && AllValid(ws)
    ensures forall i {:trigger ws[i]} :: 0 <= i < |vs| ==> ws[i].perm == vs[i].perm
  {
    if n == 0 then vs else Stepped(Steps(vs, n - 1))
  }

  /** One character through the signal path of slots in state VS, as a character of alphabet A. */
  function EncipherChar(vs: seq<RotorView>, plugboard: Option<Permutation>, a: Alphabet, c: char): (d: char)
    requires |vs| > 0 && SameAlphabet(vs, a) && PlugFits(plugboard, a) && a.Contains(c)
    ensures a.Contains(d)
  {
    a.ToChar(Signal(vs, plugboard, a.ToInt(c)))
  }

  /** convert(String) on a cleaned message, from slots in state VS: character K leaves the rotors stepped K + 1 times. */
  ghost function EncipherText(vs: seq<RotorView>, plugboard: Option<Permutation>, a: Alphabet, text: string): (out: string)
    requires |vs| > 0 && SameAlphabet(vs, a) && PlugFits(plugboard, a)
    requires InAlphabet(a, text)
    ensures |out| == |text| && InAlphabet(a, out)
  {
    seq(|text|, k requires 0 <= k < |text| => CharAt(vs, plugboard, a, text, k))
  }

  /** Character K of EncipherText. */
  ghost function CharAt(vs: seq<RotorView>, plugboard: Option<Permutation>, a: Alphabet, text: string, k: nat): (d: char)
    requires |vs| > 0 && SameAlphabet(vs, a) && PlugFits(plugboard, a)
    requires InAlphabet(a, text) && k < |text|
    ensures a.Contains(d)
  {
    EncipherChar(Steps(vs, k + 1), plugboard, a, text[k])
  }

  /** The output grows by the signal of the next character through the rotors stepped once more. */
  lemma EncipherTextStep(vs: seq<RotorView>, plugboard: Option<Permutation>, a: Alphabet, text: string, i: nat, out: string, x: int)
    requires |vs| > 0 && SameAlphabet(vs, a) && PlugFits(plugboard, a)
    requires InAlphabet(a, text) && i < |text|
    requires out == EncipherText(vs, plugboard, a, text)[..i]
    requires SameAlphabet(Steps(vs, i + 1), a)
    requires x == Signal(Steps(vs, i + 1), plugboard, a.ToInt(text[i])) && 0 <= x < a.Size()
    ensures out + [a.ToChar(x)] == EncipherText(vs, plugboard, a, text)[..i + 1]
  {
    var whole := EncipherText(vs, plugboard, a, text);
    assert whole[i] == a.ToChar(x);
    TakeOneMore(whole, i);
  }

  /* ---------------- Reciprocity ---------------- */

  /** A reflector made of pairs in slot 0, and one-to-one permutations in every slot. */
  predicate Reversible(vs: seq<RotorView>) {
    && |vs| > 0 && PairCycles(vs[0].perm.cycles)
    && forall k :: 0 <= k < |vs| ==> vs[k].perm.Bijective()
  }

  /** No plugboard, or one made of pairs (steckered pairs). */
  predicate PlugReversible(plugboard: Option<Permutation>) {
    plugboard.Some? ==> plugboard.value.Bijective() && PairCycles(plugboard.value.cycles)
  }

  /** The rotors on the way back undo the rotors on the way in. */
  lemma {:induction false} BackwardAfterForwardAll(ws: seq<RotorView>, a: Alphabet, y: int)
    requires SameAlphabet(ws, a) && (forall k :: 0 <= k < |ws| ==> ws[k].perm.Bijective()) && 0 <= y < a.Size()
    ensures BackwardAll(ws, ForwardAll(ws, y)) == y
  {
    if ws != [] {
      BackwardAfterForward(ws[0], ForwardAll(ws[1..], y));
      BackwardAfterForwardAll(ws[1..], a, y);
    }
  }

  lemma {:induction false} ForwardAfterBackwardAll(ws: seq<RotorView>, a: Alphabet, y: int)
    requires SameAlphabet(ws, a) && (forall k :: 0 <= k < |ws| ==> ws[k].perm.Bijective()) && 0 <= y < a.Size()
    ensures ForwardAll(ws, BackwardAll(ws, y)) == y
  {
    if ws != [] {
      ForwardAfterBackwardAll(ws[1..], a, ws[0].Backward(y));
      ForwardAfterBackward(ws[0], y);
    }
  }

  /** A plugboard of pairs undoes itself. */
  lemma PlugInvolution(plugboard: Option<Permutation>, a: Alphabet, c: int)
    requires PlugFits(plugboard, a) && PlugReversible(plugboard) && 0 <= c < a.Size()
    ensures 0 <= Plug(plugboard, c) < a.Size()
    ensures Plug(plugboard, Plug(plugboard, c)) == c
  {
    if plugboard.Some? {
      Involution(plugboard.value, c);
      InRange(plugboard.value, c);
    }
  }

  /** convert(int) is its own inverse on a fixed rotor state: the enigma is reciprocal. */
  lemma SignalInvolution(vs: seq<RotorView>, plugboard: Option<Permutation>, a: Alphabet, c: int)
    requires SameAlphabet(vs, a) && Reversible(vs) && PlugFits(plugboard, a) && PlugReversible(plugboard)
    requires 0 <= c < a.Size()
    ensures Signal(vs, plugboard, Signal(vs, plugboard, c)) == c
  {
    var entered := Plug(plugboard, c);
    PlugInvolution(plugboard, a, c);
    var reflected := BackwardAll(vs, ForwardAll(vs[1..], entered));
    RotorsInvolution(vs, a, entered);
    PlugInvolution(plugboard, a, reflected);
  }

  /** Without the plugboard: in through the rotors, off the reflector and out again, twice, is the identity. */
  lemma RotorsInvolution(vs: seq<RotorView>, a: Alphabet, e: int)
    requires SameAlphabet(vs, a) && Reversible(vs) && 0 <= e < a.Size()
    ensures 0 <= BackwardAll(vs, ForwardAll(vs[1..], e)) < a.Size()
    ensures BackwardAll(vs, ForwardAll(vs[1..], BackwardAll(vs, ForwardAll(vs[1..], e)))) == e
  {
    var rest := vs[1..];
    var forward := ForwardAll(rest, e);
    var reflected := vs[0].Backward(forward);
    var back := BackwardAll(rest, reflected);
    ForwardAfterBackwardAll(rest, a, reflected);
    ReflectorInvolution(vs[0], forward);
    BackwardAfterForwardAll(rest, a, e);
  }

  /** The same, on characters. */
  lemma EncipherCharInvolution(vs: seq<RotorView>, plugboard: Option<Permutation>, a: Alphabet, c: char)
    requires SameAlphabet(vs, a) && Reversible(vs) && PlugFits(plugboard, a) && PlugReversible(plugboard)
    requires a.Contains(c)
    ensures EncipherChar(vs, plugboard, a, EncipherChar(vs, plugboard, a, c)) == c
  {
    var x := Signal(vs, plugboard, a.ToInt(c));
    SignalInRange(vs, plugboard, a, a.ToInt(c));
    IntCharInt(a, x);
    SignalInvolution(vs, plugboard, a, a.ToInt(c));
    CharIntChar(a, c);
  }

  lemma {:induction false} StepsKeepReversible(vs: seq<RotorView>, n: nat)
    requires AllValid(vs) && Reversible(vs)
    ensures Reversible(Steps(vs, n))
  {
    if n > 0 {
      StepsKeepReversible(vs, n - 1);
      var ws := Steps(vs, n - 1);
      assert Stepped(ws)[0].perm == ws[0].perm;
    }
  }

  /**
   * Reciprocity of convert(String): a machine set up as it was for enciphering
   * turns the cipher text back into the (cleaned) plain text.
   */
  lemma EncipherTwice(vs: seq<RotorView>, plugboard: Option<Permutation>, a: Alphabet, text: string)
    requires SameAlphabet(vs, a) && Reversible(vs) && PlugFits(plugboard, a) && PlugReversible(plugboard)
    requires InAlphabet(a, text)
    ensures EncipherText(vs, plugboard, a, EncipherText(vs, plugboard, a, text)) == text
  {
    var back := EncipherText(vs, plugboard, a, EncipherText(vs, plugboard, a, text));
    forall k | 0 <= k < |text| ensures back[k] == text[k] {
      EncipherTwiceAt(vs, plugboard, a, text, k);
    }
  }

  /** Character K of the round trip: both passes see the rotors stepped K + 1 times. */
  lemma EncipherTwiceAt(vs: seq<RotorView>, plugboard: Option<Permutation>, a: Alphabet, text: string, k: nat)
    requires SameAlphabet(vs, a) && Reversible(vs) && PlugFits(plugboard, a) && PlugReversible(plugboard)
    requires InAlphabet(a, text) && k < |text|
    ensures EncipherText(vs, plugboard, a, EncipherText(vs, plugboard, a, text))[k] == text[k]
  {
    var ws := Steps(vs, k + 1);
    StepsKeepReversible(vs, k + 1);
    var out := EncipherText(vs, plugboard, a, text);
    assert out[k] == EncipherChar(ws, plugboard, a, text[k]);
    assert EncipherText(vs, plugboard, a, out)[k] == EncipherChar(ws, plugboard, a, out[k]);
    EncipherCharInvolution(ws, plugboard, a, text[k]);
  }

  lemma TakeOneMore(s: string, i: nat)
    requires i < |s|
    ensures s[..i] + [s[i]] == s[..i + 1]
  {
  }

  lemma TakeAll(s: string)
    ensures s[..|s|] == s
  {
  }
}
