/**
 * A small model of the enigma Alphabet collaborator: an ordered sequence
 * of distinct characters; a character's index is its position.
 * Alphabet.java is not part of this model; this is the contract that
 * Permutation, Rotor and Machine rely on.
 */
module Alphabets {

  datatype Alphabet = Alphabet(chars: seq<char>) {

    /** Distinct characters, at least one of them. */
    predicate Valid() {
      |chars| > 0 && NoRepeats(chars)
    }

    function Size(): nat {
      |chars|
    }

    predicate Contains(c: char) {
      c in chars
    }

    /** The index of C, which must be in the alphabet. */
    function ToInt(c: char): (i: int)
      requires Contains(c)
      ensures 0 <= i < Size() && chars[i] == c
      ensures forall j :: 0 <= j < i ==> chars[j] != c
    {
      IndexOf(chars, c)
    }

    /** The character at index I, which must be in range. */
    function ToChar(i: int): (c: char)
      requires 0 <= i < Size()
      ensures Contains(c)
    {
      chars[i]
    }
  }

  function IndexOf(s: seq<char>, c: char): (i: int)
    requires c in s
    ensures 0 <= i < |s| && s[i] == c
    ensures forall j :: 0 <= j < i ==> s[j] != c
  {
    if s[0] == c then 0 else 1 + IndexOf(s[1..], c)
  }

  /** toChar undoes toInt. */
  lemma CharIntChar(a: Alphabet, c: char)
    requires a.Contains(c)
    ensures a.ToChar(a.ToInt(c)) == c
  {
  }

  /** No character occurs twice in S. */
  predicate NoRepeats(s: seq<char>) {
    s == [] || (s[0] !in s[1..] && NoRepeats(s[1..]))
  }

  /** NoRepeats is pairwise distinctness. */
  lemma {:induction false} NoRepeatsIsDistinct(s: seq<char>)
    ensures NoRepeats(s) <==> forall i, j :: 0 <= i < j < |s| ==> s[i] != s[j]
  {
    if s != [] {
      NoRepeatsIsDistinct(s[1..]);
      if NoRepeats(s) {
        forall i, j | 0 <= i < j < |s| ensures s[i] != s[j] {
          if i == 0 {
            assert s[j] == s[1..][j - 1];
          } else {
            assert s[i] == s[1..][i - 1] && s[j] == s[1..][j - 1];
          }
        }
      }
      if forall i, j :: 0 <= i < j < |s| ==> s[i] != s[j] {
        forall i, j | 0 <= i < j < |s[1..]| ensures s[1..][i] != s[1..][j] {
          assert s[1..][i] == s[i + 1] && s[1..][j] == s[j + 1];
        }
        forall k | 0 <= k < |s[1..]| ensures s[1..][k] != s[0] {
          assert s[1..][k] == s[k + 1];
        }
      }
    }
  }

  /** In a sequence without repeats, the character at I is first found at I. */
  lemma {:induction false} IndexOfNoRepeats(s: seq<char>, i: int)
    requires NoRepeats(s) && 0 <= i < |s|
    ensures IndexOf(s, s[i]) == i
  {
    if i > 0 {
      assert s[i] == s[1..][i - 1];
      IndexOfNoRepeats(s[1..], i - 1);
    }
  }

  /** toInt undoes toChar on an alphabet of distinct characters. */
  lemma IntCharInt(a: Alphabet, i: int)
    requires a.Valid() && 0 <= i < a.Size()
    ensures a.ToInt(a.ToChar(i)) == i
  {
    IndexOfNoRepeats(a.chars, i);
  }
}
