/**
 * Model of enigma/Permutation.java: a permutation of the indices of an
 * alphabet given in cycle notation.  A Permutation never changes after
 * construction, so it is a datatype value; the methods that loop over the
 * cycles are proved against the functions PermuteValue and InvertValue.
 */
module Permutations {
  import opened Alphabets
  import opened JavaInt
  import opened Wrappers

  /* ---------------- String handling used by the constructor ---------------- */

  /** Java's String.trim removes every character <= ' ' from both ends. */
  function TrimStart(s: string): (r: string)
    ensures |r| <= |s| && r == s[|s| - |r|..]
    ensures r == [] || r[0] > ' '
    ensures forall i :: 0 <= i < |s| - |r| ==> s[i] <= ' '
  {
    if s != [] && s[0] <= ' ' then TrimStart(s[1..]) else s
  }

  function TrimEnd(s: string): (r: string)
    ensures |r| <= |s| && r == s[..|r|]
    ensures r == [] || r[|r| - 1] > ' '
    ensures forall i :: |r| <= i < |s| ==> s[i] <= ' '
  {
    if s != [] && s[|s| - 1] <= ' ' then TrimEnd(s[..|s| - 1]) else s
  }

  function Trim(s: string): string {
    TrimEnd(TrimStart(s))
  }

  /** replaceAll with a one-character literal pattern and "" as replacement. */
  function RemoveAll(s: string, c: char): (r: string)
    ensures c !in r
    ensures forall x :: x != c ==> (x in r <==> x in s)
  {
    if s == [] then []
    else (if s[0] == c then [] else [s[0]]) + RemoveAll(s[1..], c)
  }

  /** RemoveAll keeps every other character exactly as often as it occurs. */
  lemma {:induction false} RemoveAllCount(s: string, c: char)
    ensures multiset(RemoveAll(s, c)) == multiset(s)[c := 0]
  {
    if s != [] {
      assert s == [s[0]] + s[1..];
      RemoveAllCount(s[1..], c);
    }
  }

  /** RemoveAll works piecewise, so the characters it keeps stay in their order. */
  lemma {:induction false} RemoveAllAppend(a: string, b: string, c: char)
    ensures RemoveAll(a + b, c) == RemoveAll(a, c) + RemoveAll(b, c)
  {
    if a == [] {
      assert a + b == b;
    } else {
      assert (a + b)[0] == a[0] && (a + b)[1..] == a[1..] + b;
      RemoveAllAppend(a[1..], b, c);
    }
  }

  /** split on a one-character separator (Java's removal of trailing empty strings is not modelled). */
  function Split(s: string, sep: char): (parts: seq<string>)
    ensures |parts| > 0
    ensures forall k :: 0 <= k < |parts| ==> sep !in parts[k]
    decreases |s|
  {
    if sep !in s then [s]
    else
      var i := IndexOf(s, sep);
      [s[..i]] + Split(s[i + 1..], sep)
  }

  /** Inverse of Split: the parts with SEP between them. */
  function Join(parts: seq<string>, sep: char): string
    requires |parts| > 0
  {
    if |parts| == 1 then parts[0] else parts[0] + [sep] + Join(parts[1..], sep)
  }

  lemma {:induction false} JoinSplit(s: string, sep: char)
    ensures Join(Split(s, sep), sep) == s
    decreases |s|
  {
    if sep in s {
      var i := IndexOf(s, sep);
      JoinSplit(s[i + 1..], sep);
      assert s == s[..i] + [sep] + s[i + 1..];
    }
  }

  /** The cycle list the constructor stores: trimmed, '(' and ' ' removed, split on ')'. */
  function ParseCycles(cycles: string): (r: seq<string>)
    ensures |r| > 0
    ensures Join(r, ')') == RemoveAll(RemoveAll(Trim(cycles), '('), ' ')
    ensures forall k :: 0 <= k < |r| ==> '(' !in r[k] && ' ' !in r[k] && ')' !in r[k]
  {
    var cleaned := RemoveAll(RemoveAll(Trim(cycles), '('), ' ');
    JoinSplit(cleaned, ')');
    var r := Split(cleaned, ')');
    forall k | 0 <= k < |r| ensures '(' !in r[k] && ' ' !in r[k] {
      JoinHasPart(r, ')', k);
    }
    r
  }

  lemma {:induction false} JoinHasPart(parts: seq<string>, sep: char, k: int)
    requires |parts| > 0 && 0 <= k < |parts|
    ensures forall x :: x in parts[k] ==> x in Join(parts, sep)
  {
    if k > 0 {
      JoinHasPart(parts[1..], sep, k - 1);
    }
  }

  /* ---------------- Cycle lookup ---------------- */

  /** The successor of C in CYCLE (the first character after the last), or C when C is not in it. */
  function CycleNext(cycle: string, c: char): char {
    if c !in cycle then c
    else
      var i := IndexOf(cycle, c);
      if i == |cycle| - 1 then cycle[0] else cycle[i + 1]
  }

  /** The predecessor of C in CYCLE (the last character before the first), or C when C is not in it. */
  function CyclePrev(cycle: string, c: char): char {
    if c !in cycle then c
    else
      var i := IndexOf(cycle, c);
      if i == 0 then cycle[|cycle| - 1] else cycle[i - 1]
  }

  /** What the loop of permute computes: every cycle, in order, looks up the current character. */
  function ApplyNext(cycles: seq<string>, c: char): char {
    if cycles == [] then c
    else CycleNext(cycles[|cycles| - 1], ApplyNext(cycles[..|cycles| - 1], c))
  }

  /** What the loop of invert computes, over the cycles in the same order. */
  function ApplyPrev(cycles: seq<string>, c: char): char {
    if cycles == [] then c
    else CyclePrev(cycles[|cycles| - 1], ApplyPrev(cycles[..|cycles| - 1], c))
  }

  predicate InCycles(cycles: seq<string>, c: char) {
    exists k :: 0 <= k < |cycles| && c in cycles[k]
  }

  predicate DistinctChars(s: string) {
    forall i, j :: 0 <= i < j < |s| ==> s[i] != s[j]
  }

  /** Cycle notation in its intended sense: no character twice, in one cycle or across two. */
  predicate Disjoint(cycles: seq<string>) {
    && (forall k :: 0 <= k < |cycles| ==> DistinctChars(cycles[k]))
    && (forall k1, k2, c :: 0 <= k1 < k2 < |cycles| && c in cycles[k1] ==> c !in cycles[k2])
  }

  lemma {:induction false} ApplyAbsent(cycles: seq<string>, c: char)
    requires !InCycles(cycles, c)
    ensures ApplyNext(cycles, c) == c && ApplyPrev(cycles, c) == c
  {
    if cycles != [] {
      var n := |cycles| - 1;
      assert !InCycles(cycles[..n], c) by {
        forall k | 0 <= k < n ensures c !in cycles[..n][k] { assert cycles[..n][k] == cycles[k]; }
      }
      ApplyAbsent(cycles[..n], c);
      assert c !in cycles[n];
    }
  }

  lemma {:induction false} ApplyStaysIn(cycles: seq<string>, c: char, a: Alphabet)
    requires a.Contains(c)
    requires forall k, x :: 0 <= k < |cycles| && x in cycles[k] ==> a.Contains(x)
    ensures a.Contains(ApplyNext(cycles, c)) && a.Contains(ApplyPrev(cycles, c))
  {
    if cycles != [] {
      var n := |cycles| - 1;
      ApplyStaysIn(cycles[..n], c, a);
    }
  }

  lemma CycleNextIn(cycle: string, c: char)
    requires c in cycle
    ensures CycleNext(cycle, c) in cycle && CyclePrev(cycle, c) in cycle
  {
  }

  /** Within one cycle of distinct characters the lookups undo each other. */
  lemma CyclePrevNext(cycle: string, c: char)
    requires DistinctChars(cycle) && c in cycle
    ensures CyclePrev(cycle, CycleNext(cycle, c)) == c
    ensures CycleNext(cycle, CyclePrev(cycle, c)) == c
  {
    var i := IndexOf(cycle, c);
    var n := |cycle|;
    var j := if i == n - 1 then 0 else i + 1;
    assert IndexOf(cycle, cycle[j]) == j;
    var h := if i == 0 then n - 1 else i - 1;
    assert IndexOf(cycle, cycle[h]) == h;
  }

  /** With disjoint cycles, a character of cycle K is moved exactly by cycle K. */
  lemma {:induction false} ApplyMember(cycles: seq<string>, k: int, c: char)
    requires Disjoint(cycles) && 0 <= k < |cycles| && c in cycles[k]
    ensures ApplyNext(cycles, c) == CycleNext(cycles[k], c)
    ensures ApplyPrev(cycles, c) == CyclePrev(cycles[k], c)
  {
    var n := |cycles| - 1;
    var front := cycles[..n];
    assert Disjoint(front) by {
      forall k1 | 0 <= k1 < n ensures front[k1] == cycles[k1] { }
    }
    if k == n {
      assert !InCycles(front, c) by {
        forall j | 0 <= j < n ensures c !in front[j] { assert front[j] == cycles[j]; }
      }
      ApplyAbsent(front, c);
    } else {
      assert front[k] == cycles[k];
      ApplyMember(front, k, c);
      CycleNextIn(cycles[k], c);
      assert CycleNext(cycles[k], c) !in cycles[n];
      assert CyclePrev(cycles[k], c) !in cycles[n];
    }
  }

  /** With disjoint cycles, looking back undoes looking forward, and conversely. */
  lemma ApplyRoundTrip(cycles: seq<string>, c: char)
    requires Disjoint(cycles)
    ensures ApplyPrev(cycles, ApplyNext(cycles, c)) == c
    ensures ApplyNext(cycles, ApplyPrev(cycles, c)) == c
  {
    if InCycles(cycles, c) {
      var k :| 0 <= k < |cycles| && c in cycles[k];
      ApplyMember(cycles, k, c);
      CycleNextIn(cycles[k], c);
      ApplyMember(cycles, k, CycleNext(cycles[k], c));
      ApplyMember(cycles, k, CyclePrev(cycles[k], c));
      CyclePrevNext(cycles[k], c);
    } else {
      ApplyAbsent(cycles, c);
    }
  }

  /** Reflectors and plugboards are written with cycles of at most two characters. */
  predicate PairCycles(cycles: seq<string>) {
    forall k :: 0 <= k < |cycles| ==> |cycles[k]| <= 2
  }

  /** In a cycle of one or two characters, successor and predecessor coincide. */
  lemma CycleNextIsPrev(cycle: string, c: char)
    requires |cycle| <= 2
    ensures CycleNext(cycle, c) == CyclePrev(cycle, c)
  {
  }

  lemma {:induction false} ApplyNextIsPrev(cycles: seq<string>, c: char)
    requires PairCycles(cycles)
    ensures ApplyNext(cycles, c) == ApplyPrev(cycles, c)
  {
    if cycles != [] {
      var front := cycles[..|cycles| - 1];
      assert PairCycles(front) by {
        forall k | 0 <= k < |front| ensures |front[k]| <= 2 { assert front[k] == cycles[k]; }
      }
      ApplyNextIsPrev(front, c);
      CycleNextIsPrev(cycles[|cycles| - 1], ApplyNext(front, c));
    }
  }

  /* ---------------- The permutation ---------------- */

  datatype Permutation = Permutation(cycles: seq<string>, alphabet: Alphabet) {

    /** The alphabet is well formed and the cycles use only its characters. */
    predicate Valid() {
      && alphabet.Valid()
      && forall k, x :: 0 <= k < |cycles| && x in cycles[k] ==> alphabet.Contains(x)
    }

    /** Valid with disjoint cycles: the cycle notation denotes a bijection. */
    predicate Bijective() {
      Valid() && Disjoint(cycles)
    }

    function Size(): nat {
      alphabet.Size()
    }

    /** P modulo the size, negative P included. */
    function Wrap(p: int): (r: int)
      requires Size() > 0
      ensures 0 <= r < Size()
    {
      FloorRem(p, Size())
    }

    /**
     * permute(int) as a value.  The final `% size()` is applied to an alphabet
     * index, which is non-negative, so Java's remainder and Dafny's coincide.
     */
    function PermuteValue(p: int): (r: int)
      requires Valid()
      ensures 0 <= r < Size()
    {
      var c := alphabet.ToChar(Wrap(p));
      ApplyStaysIn(cycles, c, alphabet);
      alphabet.ToInt(ApplyNext(cycles, c)) % Size()
    }

    function InvertValue(c: int): (r: int)
      requires Valid()
      ensures 0 <= r < Size()
    {
      var ch := alphabet.ToChar(Wrap(c));
      ApplyStaysIn(cycles, ch, alphabet);
      alphabet.ToInt(ApplyPrev(cycles, ch)) % Size()
    }

    /** permute(int): look the wrapped character up in every cycle in turn. */
    method Permute(p: int) returns (r: int)
      requires Valid()
      ensures r == PermuteValue(p)
    {
      var start := alphabet.ToChar(Wrap(p));
      var newChar := start;
      var k := 0;
      while k < |cycles|
        invariant 0 <= k <= |cycles|
        invariant newChar == ApplyNext(cycles[..k], start)
      {
        var cycle := cycles[k];
        ghost var before := newChar;
        var i := 0;
        while i < |cycle|
          invariant 0 <= i <= |cycle|
          invariant newChar == before && before !in cycle[..i]
        {
          if newChar == cycle[i] {
            if i == |cycle| - 1 {
              newChar := cycle[0];
            } else {
              newChar := cycle[i + 1];
            }
            break;
          }
          i := i + 1;
        }
        assert newChar == CycleNext(cycle, before);
        assert cycles[..k + 1][..k] == cycles[..k];
        k := k + 1;
      }
      assert cycles[..k] == cycles;
      ApplyStaysIn(cycles, start, alphabet);
      var newInt := alphabet.ToInt(newChar);
      r := newInt % Size();
    }

    /** invert(int): the same walk over the cycles, looking one character back. */
    method Invert(c: int) returns (r: int)
      requires Valid()
      ensures r == InvertValue(c)
    {
      var start := alphabet.ToChar(Wrap(c));
      var newChar := start;
      var k := 0;
      while k < |cycles|
        invariant 0 <= k <= |cycles|
        invariant newChar == ApplyPrev(cycles[..k], start)
      {
        var cycle := cycles[k];
        ghost var before := newChar;
        var i := 0;
        while i < |cycle|
          invariant 0 <= i <= |cycle|
          invariant newChar == before && before !in cycle[..i]
        {
          if newChar == cycle[i] {
            if i == 0 {
              newChar := cycle[|cycle| - 1];
            } else {
              newChar := cycle[i - 1];
            }
            break;
          }
          i := i + 1;
        }
        assert newChar == CyclePrev(cycle, before);
        assert cycles[..k + 1][..k] == cycles[..k];
        k := k + 1;
      }
      assert cycles[..k] == cycles;
      ApplyStaysIn(cycles, start, alphabet);
      var newInt := alphabet.ToInt(newChar);
      r := newInt % Size();
    }

    /** permute(char): the int version conjugated by toInt and toChar. */
    method PermuteChar(p: char) returns (r: char)
      requires Valid() && alphabet.Contains(p)
      ensures r == alphabet.ToChar(PermuteValue(alphabet.ToInt(p)))
    {
      var i := Permute(alphabet.ToInt(p));
      r := alphabet.ToChar(i);
    }

    /** invert(char): the int version conjugated by toInt and toChar. */
    method InvertChar(c: char) returns (r: char)
      requires Valid() && alphabet.Contains(c)
      ensures r == alphabet.ToChar(InvertValue(alphabet.ToInt(c)))
    {
      var i := Invert(alphabet.ToInt(c));
      r := alphabet.ToChar(i);
    }

    /** What derangement() tests: no cycle of length 1 and the cycles cover at least size() characters. */
    predicate DerangementTest() {
      (forall k :: 0 <= k < |cycles| ==> |cycles[k]| != 1) && TotalLength(cycles) >= Size()
    }

    method Derangement() returns (b: bool)
      ensures b == DerangementTest()
    {
      var count := 0;
      var k := 0;
      while k < |cycles|
        invariant 0 <= k <= |cycles|
        invariant count == TotalLength(cycles[..k])
        invariant forall j :: 0 <= j < k ==> |cycles[j]| != 1
      {
        var cycle := cycles[k];
        var i := 0;
        while i < |cycle|
          invariant 0 <= i <= |cycle|
          invariant |cycle| == 1 ==> i == 0
        {
          if |cycle| == 1 {
            return false;
          }
          i := i + 1;
        }
        assert cycles[..k + 1][..k] == cycles[..k];
        count := count + |cycle|;
        k := k + 1;
      }
      assert cycles[..k] == cycles;
      if count < Size() {
        return false;
      }
      return true;
    }

    /**
     * addCycle as written.  ARR has one entry more than the cycles and the
     * copy loop runs over all of ARR, so its last turn reads the entry just
     * past the end of the cycles; the store of CYCLE after the loop, at index
     * |cycles| + 1, would be past the end of ARR as well.  None stands for the
     * ArrayIndexOutOfBoundsException that ends every call.
     */
    method AddCycleAsWritten(cycle: string) returns (p: Option<Permutation>)
      ensures p.None?
    {
      var arr := new string[|cycles| + 1](_ => "");
      var k := 0;
      while k < arr.Length
        invariant 0 <= k <= |cycles|
      {
        if k >= |cycles| {
          return None;
        }
        arr[k] := cycles[k];
        k := k + 1;
      }
      // The copy loop never finishes, so the store of CYCLE at arr[|cycles| + 1] is never reached.
      assert false;
    }

    /** addCycle as intended: CYCLE becomes the last cycle. */
    method AddCycle(cycle: string) returns (p: Permutation)
      ensures p == this.(cycles := cycles + [cycle])
    {
      var arr := new string[|cycles| + 1](_ => "");
      var k := 0;
      while k < |cycles|
        invariant 0 <= k <= |cycles|
        invariant forall j :: 0 <= j < k ==> arr[j] == cycles[j]
      {
        arr[k] := cycles[k];
        k := k + 1;
      }
      arr[|cycles|] := cycle;
      p := this.(cycles := arr[..]);
    }
  }

  function TotalLength(cycles: seq<string>): nat {
    if cycles == [] then 0 else TotalLength(cycles[..|cycles| - 1]) + |cycles[|cycles| - 1]|
  }

  /* ---------------- Properties of the permutation ---------------- */

  /** wrap(p) is p modulo the size, negative p included: in range and congruent to p. */
  lemma WrapIsModulo(perm: Permutation, p: int)
    requires perm.Size() > 0
    ensures 0 <= perm.Wrap(p) < perm.Size() && perm.Wrap(p) == p % perm.Size()
  {
  }

  /** Wrapping and the remainder leave an index already in range alone. */
  lemma InRange(perm: Permutation, r: int)
    requires perm.Size() > 0 && 0 <= r < perm.Size()
    ensures perm.Wrap(r) == r && r % perm.Size() == r
  {
  }

  /** With disjoint cycles, permute sends a cycle character to the next one and the last to the first. */
  lemma PermuteSuccessor(perm: Permutation, k: int, i: int)
    requires perm.Bijective() && 0 <= k < |perm.cycles| && 0 <= i < |perm.cycles[k]|
    ensures
      var cycle := perm.cycles[k];
      var next := if i == |cycle| - 1 then cycle[0] else cycle[i + 1];
      perm.PermuteValue(perm.alphabet.ToInt(cycle[i])) == perm.alphabet.ToInt(next)
  {
    var a := perm.alphabet;
    var cycle := perm.cycles[k];
    var c := cycle[i];
    var p := a.ToInt(c);
    InRange(perm, p);
    CharIntChar(a, c);
    assert IndexOf(cycle, c) == i;
    ApplyMember(perm.cycles, k, c);
    var next := if i == |cycle| - 1 then cycle[0] else cycle[i + 1];
    assert ApplyNext(perm.cycles, a.ToChar(perm.Wrap(p))) == next;
    InRange(perm, a.ToInt(next));
  }

  /** Characters in no cycle map to themselves under permute and invert. */
  lemma FixedOutsideCycles(perm: Permutation, p: int)
    requires perm.Valid() && 0 <= p < perm.Size() && !InCycles(perm.cycles, perm.alphabet.ToChar(p))
    ensures perm.PermuteValue(p) == p && perm.InvertValue(p) == p
  {
    InRange(perm, p);
    ApplyAbsent(perm.cycles, perm.alphabet.ToChar(p));
    IntCharInt(perm.alphabet, p);
  }

  /** With disjoint cycles, invert undoes permute and permute undoes invert, modulo the size. */
  lemma InvertPermute(perm: Permutation, p: int)
    requires perm.Bijective()
    ensures perm.InvertValue(perm.PermuteValue(p)) == perm.Wrap(p)
    ensures perm.PermuteValue(perm.InvertValue(p)) == perm.Wrap(p)
  {
    var a := perm.alphabet;
    var c0 := a.ToChar(perm.Wrap(p));
    ApplyStaysIn(perm.cycles, c0, a);
    var d := ApplyNext(perm.cycles, c0);
    var e := ApplyPrev(perm.cycles, c0);
    CharIntChar(a, d);
    CharIntChar(a, e);
    InRange(perm, a.ToInt(d));
    InRange(perm, a.ToInt(e));
    assert perm.PermuteValue(p) == a.ToInt(d);
    assert perm.InvertValue(p) == a.ToInt(e);
    ApplyRoundTrip(perm.cycles, c0);
    IntCharInt(a, perm.Wrap(p));
    InRange(perm, perm.Wrap(p));
  }

  /** The two halves of InvertPermute, one at a time. */
  lemma InvertAfterPermute(perm: Permutation, p: int)
    requires perm.Bijective()
    ensures perm.InvertValue(perm.PermuteValue(p)) == perm.Wrap(p)
  {
    InvertPermute(perm, p);
  }

  lemma PermuteAfterInvert(perm: Permutation, p: int)
    requires perm.Bijective()
    ensures perm.PermuteValue(perm.InvertValue(p)) == perm.Wrap(p)
  {
    InvertPermute(perm, p);
  }

  /** With cycles of at most two characters, invert and permute are the same map. */
  lemma SelfInverse(perm: Permutation, p: int)
    requires perm.Valid() && PairCycles(perm.cycles)
    ensures perm.InvertValue(p) == perm.PermuteValue(p)
  {
    ApplyNextIsPrev(perm.cycles, perm.alphabet.ToChar(perm.Wrap(p)));
  }

  /** ... and, the cycles being disjoint, applying it twice is the identity modulo the size. */
  lemma Involution(perm: Permutation, p: int)
    requires perm.Bijective() && PairCycles(perm.cycles)
    ensures perm.PermuteValue(perm.PermuteValue(p)) == perm.Wrap(p)
  {
    SelfInverse(perm, perm.PermuteValue(p));
    InvertAfterPermute(perm, p);
  }

  lemma InverseInvolution(perm: Permutation, p: int)
    requires perm.Bijective() && PairCycles(perm.cycles)
    ensures perm.InvertValue(perm.InvertValue(p)) == perm.Wrap(p)
  {
    SelfInverse(perm, p);
    InvertAfterPermute(perm, p);
  }

  /* Cardinality facts behind derangement(). */

  function SeqSet(s: string): set<char> {
    set x | x in s
  }

  function CycleChars(cycles: seq<string>): set<char> {
    if cycles == [] then {} else CycleChars(cycles[..|cycles| - 1]) + SeqSet(cycles[|cycles| - 1])
  }

  lemma {:induction false} SeqSetSize(s: string)
    requires DistinctChars(s)
    ensures |SeqSet(s)| == |s|
  {
    if s != [] {
      var n := |s| - 1;
      SeqSetSize(s[..n]);
      assert SeqSet(s) == SeqSet(s[..n]) + {s[n]};
      assert s[n] !in SeqSet(s[..n]);
    }
  }

  lemma {:induction false} CycleCharsMembers(cycles: seq<string>, x: char)
    ensures x in CycleChars(cycles) <==> InCycles(cycles, x)
  {
    if cycles != [] {
      var n := |cycles| - 1;
      CycleCharsMembers(cycles[..n], x);
      if InCycles(cycles, x) {
        var k :| 0 <= k < |cycles| && x in cycles[k];
        if k < n { assert cycles[..n][k] == cycles[k]; }
      }
      if InCycles(cycles[..n], x) {
        var k :| 0 <= k < n && x in cycles[..n][k];
        assert cycles[..n][k] == cycles[k];
      }
    }
  }

  lemma {:induction false} CycleCharsSize(cycles: seq<string>)
    requires Disjoint(cycles)
    ensures |CycleChars(cycles)| == TotalLength(cycles)
  {
    if cycles != [] {
      var n := |cycles| - 1;
      var front := cycles[..n];
      assert Disjoint(front) by {
        forall k | 0 <= k < n ensures front[k] == cycles[k] { }
      }
      CycleCharsSize(front);
      SeqSetSize(cycles[n]);
      forall x | x in SeqSet(cycles[n]) ensures x !in CycleChars(front) {
        CycleCharsMembers(front, x);
        forall k | 0 <= k < n ensures x !in front[k] {
          assert front[k] == cycles[k];
        }
      }
      assert CycleChars(front) * SeqSet(cycles[n]) == {};
    }
  }

  lemma SubsetSize(a: set<char>, b: set<char>)
    requires a <= b
    ensures |a| <= |b|
    ensures |a| == |b| ==> a == b
  {
    assert b == a + (b - a);
  }

  /** The characters the cycles cover: a subset of the alphabet, as many as the cycles' total length. */
  lemma CoveredChars(perm: Permutation)
    requires perm.Bijective()
    ensures CycleChars(perm.cycles) <= SeqSet(perm.alphabet.chars)
    ensures |SeqSet(perm.alphabet.chars)| == perm.Size()
    ensures |CycleChars(perm.cycles)| == TotalLength(perm.cycles)
  {
    var a := perm.alphabet;
    var cs := perm.cycles;
    NoRepeatsIsDistinct(a.chars);
    SeqSetSize(a.chars);
    CycleCharsSize(cs);
    forall x | x in CycleChars(cs) ensures x in SeqSet(a.chars) {
      CycleCharsMembers(cs, x);
      var k :| 0 <= k < |cs| && x in cs[k];
      assert a.Contains(x);
    }
  }

  lemma NoFixedPointInDerangement(perm: Permutation, i: int)
    requires perm.Bijective() && perm.DerangementTest() && 0 <= i < perm.Size()
    ensures perm.PermuteValue(i) != i
  {
    var a := perm.alphabet;
    var cs := perm.cycles;
    CoveredChars(perm);
    SubsetSize(CycleChars(cs), SeqSet(a.chars));
    var c := a.ToChar(i);
    assert c in SeqSet(a.chars);
    CycleCharsMembers(cs, c);
    var k :| 0 <= k < |cs| && c in cs[k];
    ApplyMember(cs, k, c);
    var j := IndexOf(cs[k], c);
    var d := CycleNext(cs[k], c);
    var j' := if j == |cs[k]| - 1 then 0 else j + 1;
    assert d == cs[k][j'] && j' != j;
    CycleNextIn(cs[k], c);
    CharIntChar(a, d);
    InRange(perm, i);
    InRange(perm, a.ToInt(d));
  }

  lemma UnitCycleIsFixed(perm: Permutation, k: int)
    requires perm.Bijective() && 0 <= k < |perm.cycles| && |perm.cycles[k]| == 1
    ensures perm.PermuteValue(perm.alphabet.ToInt(perm.cycles[k][0])) == perm.alphabet.ToInt(perm.cycles[k][0])
  {
    PermuteSuccessor(perm, k, 0);
  }

  lemma ShortCyclesLeaveFixedPoint(perm: Permutation) returns (i: int)
    requires perm.Bijective() && TotalLength(perm.cycles) < perm.Size()
    ensures 0 <= i < perm.Size() && perm.PermuteValue(i) == i
  {
    var a := perm.alphabet;
    CoveredChars(perm);
    var all, covered := SeqSet(a.chars), CycleChars(perm.cycles);
    assert all == covered + (all - covered);
    assert |all - covered| > 0;
    var x :| x in SeqSet(a.chars) - CycleChars(perm.cycles);
    CycleCharsMembers(perm.cycles, x);
    CharIntChar(a, x);
    i := a.ToInt(x);
    FixedOutsideCycles(perm, i);
  }

  /** derangement() is true exactly when no character is a fixed point (for disjoint cycles). */
  lemma DerangementMeansNoFixedPoint(perm: Permutation)
    requires perm.Bijective()
    ensures perm.DerangementTest() <==> forall i :: 0 <= i < perm.Size() ==> perm.PermuteValue(i) != i
  {
    var cs := perm.cycles;
    if perm.DerangementTest() {
      forall i | 0 <= i < perm.Size() ensures perm.PermuteValue(i) != i {
        NoFixedPointInDerangement(perm, i);
      }
    } else if k :| 0 <= k < |cs| && |cs[k]| == 1 {
      UnitCycleIsFixed(perm, k);
    } else {
      var i := ShortCyclesLeaveFixedPoint(perm);
    }
  }

  /**
   * A cycle added with addCycle is looked up after all the others: permute
   * on the extended permutation is the old result moved on by CYCLE.
   */
  lemma AddedCycleLast(perm: Permutation, cycle: string, p: int)
    requires perm.Valid() && forall x :: x in cycle ==> perm.alphabet.Contains(x)
    ensures var q := Permutation(perm.cycles + [cycle], perm.alphabet);
      && q.Valid()
      && q.PermuteValue(p) == perm.alphabet.ToInt(CycleNext(cycle, perm.alphabet.ToChar(perm.PermuteValue(p))))
  {
    var a := perm.alphabet;
    var q := Permutation(perm.cycles + [cycle], a);
    assert q.Valid();
    var c := a.ToChar(perm.Wrap(p));
    ApplyStaysIn(perm.cycles, c, a);
    var d := ApplyNext(perm.cycles, c);
    InRange(perm, a.ToInt(d));
    CharIntChar(a, d);
    assert a.ToChar(perm.PermuteValue(p)) == d;
    ApplyNextSnoc(perm.cycles, cycle, c);
    var e := CycleNext(cycle, d);
    assert a.Contains(e) by {
      if d in cycle {
        CycleNextIn(cycle, d);
      }
    }
    InRange(q, a.ToInt(e));
  }

  /** The lookup of permute over one more cycle. */
  lemma ApplyNextSnoc(cycles: seq<string>, cycle: string, c: char)
    ensures ApplyNext(cycles + [cycle], c) == CycleNext(cycle, ApplyNext(cycles, c))
  {
    assert (cycles + [cycle])[..|cycles|] == cycles;
  }

  /** The constructor Permutation(String cycles, Alphabet alphabet). */
  function FromNotation(cycles: string, alphabet: Alphabet): (p: Permutation)
    ensures p.alphabet == alphabet
    ensures forall k :: 0 <= k < |p.cycles| ==> '(' !in p.cycles[k] && ' ' !in p.cycles[k] && ')' !in p.cycles[k]
  {
    Permutation(ParseCycles(cycles), alphabet)
  }
}
