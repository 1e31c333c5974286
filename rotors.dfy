/**
 * Model of enigma/Rotor.java.  The subclasses (MovingRotor, FixedRotor,
 * Reflector) are not part of this model; their overrides of rotates,
 * reflecting, atNotch and advance are captured by RotorKind.  Only the
 * setting of a rotor changes; name, permutation and kind are constants.
 */
module Rotors {
  import opened JavaInt
  import opened Alphabets
  import opened Permutations

  /** Plain is the base Rotor (and a fixed rotor); Moving carries its notch characters. */
  datatype RotorKind = Plain | Moving(notches: string) | Reflecting

  /** Rotor.mod: x mod y with Java's remainder corrected when negative. */
  function Mod(x: int, y: int): (r: int)
    requires y > 0
    ensures 0 <= r < y
  {
    FloorRem(x, y)
  }

  /** The state of a rotor as a value: what the conversions and the stepping rule depend on. */
  datatype RotorView = RotorView(kind: RotorKind, perm: Permutation, setting: int) {

    predicate Valid() {
      perm.Valid() && 0 <= setting < perm.Size()
    }

    function Size(): nat {
      perm.Size()
    }

    predicate Rotates() {
      kind.Moving?
    }

    predicate Reflects() {
      kind.Reflecting?
    }

    predicate AtNotch()
      requires Valid()
    {
      kind.Moving? && perm.alphabet.ToChar(setting) in kind.notches
    }

    /** advance(): a moving rotor steps to the next setting; the others do nothing. */
    function Advanced(): (v: RotorView)
      requires Valid()
      ensures v.Valid() && v.kind == kind && v.perm == perm
    {
      if kind.Moving? then RotorView(kind, perm, Mod(setting + 1, Size())) else this
    }

    function Forward(p: int): (r: int)
      requires Valid()
      ensures 0 <= r < Size()
    {
      Mod(perm.PermuteValue(p + setting) - setting, Size())
    }

    function Backward(e: int): (r: int)
      requires Valid()
      ensures 0 <= r < Size()
    {
      Mod(perm.InvertValue(e + setting) - setting, Size())
    }
  }

  class Rotor {
    const name: string
    const perm: Permutation
    const kind: RotorKind
    var setting: int

    predicate Valid()
      reads this
    {
      perm.Valid() && 0 <= setting < perm.Size()
    }

    function View(): RotorView
      reads this
    {
      RotorView(kind, perm, setting)
    }

    /** A rotor named NAME whose permutation is PERM, at setting 0. */
    constructor (name: string, perm: Permutation, kind: RotorKind)
      requires perm.Valid()
      ensures Valid() && this.name == name && this.perm == perm && this.kind == kind
      ensures setting == 0
    {
      this.name := name;
      this.perm := perm;
      this.kind := kind;
      setting := 0;
    }

    function Size(): nat {
      perm.Size()
    }

    function Rotates(): bool {
      kind.Moving?
    }

    function Reflecting(): bool {
      kind.Reflecting?
    }

    function AtNotch(): bool
      requires Valid()
      reads this
    {
      View().AtNotch()
    }

    /** set(int): the setting becomes POSN modulo the size. */
    method Set(posn: int)
      requires Valid()
      modifies this
      ensures Valid() && setting == Mod(posn, Size())
    {
      setting := Mod(posn, Size());
    }

    /** set(char): the setting becomes the index of CPOSN. */
    method SetChar(cposn: char)
      requires Valid() && perm.alphabet.Contains(cposn)
      modifies this
      ensures Valid() && setting == perm.alphabet.ToInt(cposn)
    {
      setting := perm.alphabet.ToInt(cposn);
    }

    /** advance(): by default does nothing; a moving rotor (not shown) steps by one. */
    method Advance()
      requires Valid()
      modifies this
      ensures Valid() && View() == old(View()).Advanced()
    {
      if kind.Moving? {
        Set(setting + 1);
      }
    }

    method ConvertForward(p: int) returns (r: int)
      requires Valid()
      ensures r == View().Forward(p)
    {
      var permuted := perm.Permute(p + setting);
      r := Mod(permuted - setting, Size());
    }

    method ConvertBackward(e: int) returns (r: int)
      requires Valid()
      ensures r == View().Backward(e)
    {
      var inverted := perm.Invert(e + setting);
      r := Mod(inverted - setting, Size());
    }
  }

  /* ---------------- Properties ---------------- */

  /** The base rotor neither rotates nor reflects nor sits at a notch, and advance leaves it alone. */
  lemma PlainRotorIsInert(v: RotorView)
    requires v.Valid() && v.kind == Plain
    ensures !v.Rotates() && !v.Reflects() && !v.AtNotch() && v.Advanced() == v
  {
  }

  /** Rotor.mod agrees with the mathematical (Euclidean) modulo. */
  lemma ModIsEuclidean(x: int, y: int)
    requires y > 0
    ensures Mod(x, y) == x % y
  {
  }

  /** Shifting by the setting and back: (x + s) mod n - s is x mod n. */
  lemma ShiftBack(x: int, s: int, n: int)
    requires n > 0
    ensures Mod(Mod(x + s, n) - s, n) == Mod(x, n)
  {
    ModIsEuclidean(x + s, n);
    ModIsEuclidean(Mod(x + s, n) - s, n);
    ModIsEuclidean(x, n);
    ShiftResidue(x, s, n);
  }

  /** For a bijective permutation, convertBackward undoes convertForward, and conversely. */
  lemma ConvertRoundTrip(v: RotorView, p: int)
    requires v.Valid() && v.perm.Bijective() && 0 <= p < v.Size()
    ensures v.Backward(v.Forward(p)) == p
    ensures v.Forward(v.Backward(p)) == p
  {
    BackwardAfterForward(v, p);
    ForwardAfterBackward(v, p);
  }

  lemma BackwardAfterForward(v: RotorView, p: int)
    requires v.Valid() && v.perm.Bijective() && 0 <= p < v.Size()
    ensures v.Backward(v.Forward(p)) == p
  {
    InvertAfterShift(v.perm, v.setting, p);
  }

  lemma ForwardAfterBackward(v: RotorView, p: int)
    requires v.Valid() && v.perm.Bijective() && 0 <= p < v.Size()
    ensures v.Forward(v.Backward(p)) == p
  {
    PermuteAfterShift(v.perm, v.setting, p);
  }

  lemma InvertAfterShift(perm: Permutation, s: int, p: int)
    requires perm.Bijective() && 0 <= p < perm.Size()
    ensures
      var n := perm.Size();
      Mod(perm.InvertValue(Mod(perm.PermuteValue(p + s) - s, n) + s) - s, n) == p
  {
    var f := perm.PermuteValue(p + s);
    InvertOfShift(perm, s, f);
    InvertAfterPermuteShifted(perm, s, p);
    UnshiftInRange(p, s, perm.Size());
  }

  lemma PermuteAfterShift(perm: Permutation, s: int, p: int)
    requires perm.Bijective() && 0 <= p < perm.Size()
    ensures
      var n := perm.Size();
      Mod(perm.PermuteValue(Mod(perm.InvertValue(p + s) - s, n) + s) - s, n) == p
  {
    var b := perm.InvertValue(p + s);
    PermuteOfShift(perm, s, b);
    PermuteAfterInvertShifted(perm, s, p);
    UnshiftInRange(p, s, perm.Size());
  }

  lemma InvertAfterPermuteShifted(perm: Permutation, s: int, p: int)
    requires perm.Bijective()
    ensures perm.InvertValue(perm.PermuteValue(p + s)) == Mod(p + s, perm.Size())
  {
    InvertAfterPermute(perm, p + s);
    WrapIsMod(perm, p + s);
  }

  lemma PermuteAfterInvertShifted(perm: Permutation, s: int, p: int)
    requires perm.Bijective()
    ensures perm.PermuteValue(perm.InvertValue(p + s)) == Mod(p + s, perm.Size())
  {
    PermuteAfterInvert(perm, p + s);
    WrapIsMod(perm, p + s);
  }

  /** Undoing the shift of an index in range reaches the same character. */
  lemma InvertOfShift(perm: Permutation, s: int, y: int)
    requires perm.Valid() && 0 <= y < perm.Size()
    ensures perm.InvertValue(Mod(y - s, perm.Size()) + s) == perm.InvertValue(y)
  {
    ShiftedArgument(perm, s, y);
    InvertOfWrap(perm, Mod(y - s, perm.Size()) + s, y);
  }

  lemma PermuteOfShift(perm: Permutation, s: int, y: int)
    requires perm.Valid() && 0 <= y < perm.Size()
    ensures perm.PermuteValue(Mod(y - s, perm.Size()) + s) == perm.PermuteValue(y)
  {
    ShiftedArgument(perm, s, y);
    PermuteOfWrap(perm, Mod(y - s, perm.Size()) + s, y);
  }

  lemma ShiftedArgument(perm: Permutation, s: int, y: int)
    requires perm.Size() > 0 && 0 <= y < perm.Size()
    ensures perm.Wrap(Mod(y - s, perm.Size()) + s) == perm.Wrap(y)
  {
    var n := perm.Size();
    ShiftBack(y, -s, n);
    WrapIsMod(perm, Mod(y - s, n) + s);
    WrapIsMod(perm, y);
  }

  lemma UnshiftInRange(p: int, s: int, n: int)
    requires n > 0 && 0 <= p < n
    ensures Mod(Mod(p + s, n) - s, n) == p
  {
    ShiftBack(p, s, n);
  }

  lemma WrapIsMod(perm: Permutation, x: int)
    requires perm.Size() > 0
    ensures perm.Wrap(x) == Mod(x, perm.Size())
  {
  }

  /** permute and invert look only at their argument modulo the size. */
  lemma InvertOfWrap(perm: Permutation, x: int, y: int)
    requires perm.Valid() && perm.Wrap(x) == perm.Wrap(y)
    ensures perm.InvertValue(x) == perm.InvertValue(y)
  {
  }

  lemma PermuteOfWrap(perm: Permutation, x: int, y: int)
    requires perm.Valid() && perm.Wrap(x) == perm.Wrap(y)
    ensures perm.PermuteValue(x) == perm.PermuteValue(y)
  {
  }

  /** A reflector whose permutation is made of pairs sends a reflected signal back where it came from, at any setting. */
  lemma ReflectorInvolution(v: RotorView, y: int)
    requires v.Valid() && v.perm.Bijective() && PairCycles(v.perm.cycles) && 0 <= y < v.Size()
    ensures v.Backward(v.Backward(y)) == y
  {
    var n, s := v.Size(), v.setting;
    var z := v.perm.InvertValue(y + s);
    var b := v.Backward(y);
    assert b == Mod(z - s, n);
    calc {
      v.perm.InvertValue(b + s);
      { InvertOfShift(v.perm, s, z); }
      v.perm.InvertValue(z);
      { InverseInvolution(v.perm, y + s); }
      v.perm.Wrap(y + s);
      { WrapIsMod(v.perm, y + s); }
      Mod(y + s, n);
    }
    UnshiftInRange(y, s, n);
    assert v.Backward(b) == Mod(Mod(y + s, n) - s, n);
  }
}
