/** Move-to-front encoding and decoding (Burrows/MoveToFront.java). The
    static linked list `alphabet` is a field of type seq; the input string
    and the output are parameters and results instead of standard input and
    output. */
module MoveToFront {
  import opened Lex

  /** The alphabet size. */
  const R: int := 256

  /** The alphabet `init` builds: the characters 0, 1, ..., 255 in order. */
  function Identity(): (r: seq<Byte>)
    ensures |r| == R && forall i :: 0 <= i < R ==> r[i] == i
    ensures IsAlphabet(r)
  {
    var r := seq(R, i requires 0 <= i < R => i as Byte);
    assert r == Range(R);
    r
  }

  /** The list holds every character exactly once. */
  ghost predicate IsAlphabet(a: seq<Byte>) {
    IsPermutation(a, R)
  }

  /** `LinkedList.indexOf`: the first position holding c, or -1. */
  function IndexOf(a: seq<Byte>, c: Byte): (r: int)
    ensures -1 <= r < |a|
    ensures r == -1 <==> c !in a
    ensures r >= 0 ==> a[r] == c && c !in a[..r]
  {
    if |a| == 0 then -1
    else if a[0] == c then 0
    else
      var r := IndexOf(a[1..], c);
      assert a == [a[0]] + a[1..];
      if r == -1 then -1
      else
        assert a[..r + 1] == [a[0]] + a[1..][..r];
        r + 1
  }

  /** In an alphabet every character has a position. */
  lemma AlphabetIndex(a: seq<Byte>, c: Byte)
    requires IsAlphabet(a)
    ensures 0 <= IndexOf(a, c) < R
  {
    PermutationFacts(a, R);
  }

  /** The list with its entry at k moved to the front: `remove(k)` followed
      by `add(0, ...)`. */
  function Front(a: seq<Byte>, k: int): (r: seq<Byte>)
    requires 0 <= k < |a|
    ensures |r| == |a| && r[0] == a[k]
  {
    [a[k]] + (a[..k] + a[k + 1..])
  }

  /** Moving an entry to the front keeps every character exactly once. */
  lemma FrontKeepsAlphabet(a: seq<Byte>, k: int)
    requires IsAlphabet(a) && 0 <= k < R
    ensures IsAlphabet(Front(a, k))
  {
    assert a == a[..k] + [a[k]] + a[k + 1..];
    assert multiset(Front(a, k)) == multiset(a);
  }

  /** Encoding s against the alphabet a: the alphabet afterwards and the
      positions written, one per character, each the position of the
      character in the list at that moment. */
  function EncodeRun(a: seq<Byte>, s: seq<Byte>): (r: (seq<Byte>, seq<Byte>))
    requires IsAlphabet(a)
    ensures IsAlphabet(r.0) && |r.1| == |s|
  {
    if |s| == 0 then (a, [])
    else
      var prev := EncodeRun(a, s[..|s| - 1]);
      var c := s[|s| - 1];
      AlphabetIndex(prev.0, c);
      var k := IndexOf(prev.0, c);
      FrontKeepsAlphabet(prev.0, k);
      (Front(prev.0, k), prev.1 + [k as Byte])
  }

  /** Decoding the positions codes against the alphabet a: the alphabet
      afterwards and the characters written, each the one found at the
      given position, which then moves to the front. */
  function DecodeRun(a: seq<Byte>, codes: seq<Byte>): (r: (seq<Byte>, seq<Byte>))
    requires IsAlphabet(a)
    ensures IsAlphabet(r.0) && |r.1| == |codes|
  {
    if |codes| == 0 then (a, [])
    else
      var prev := DecodeRun(a, codes[..|codes| - 1]);
      var k := codes[|codes| - 1];
      FrontKeepsAlphabet(prev.0, k);
      (Front(prev.0, k), prev.1 + [prev.0[k]])
  }

  /** One more character of input: one more step of the encoder. */
  lemma EncodeStep(a: seq<Byte>, s: seq<Byte>, i: int)
    requires IsAlphabet(a) && 0 <= i < |s|
    ensures var prev := EncodeRun(a, s[..i]);
            var k := IndexOf(prev.0, s[i]);
            0 <= k < R && EncodeRun(a, s[..i + 1]) == (Front(prev.0, k), prev.1 + [k as Byte])
  {
    assert s[..i + 1][..i] == s[..i];
    AlphabetIndex(EncodeRun(a, s[..i]).0, s[i]);
  }

  /** One more position of input: one more step of the decoder. */
  lemma DecodeStep(a: seq<Byte>, codes: seq<Byte>, i: int)
    requires IsAlphabet(a) && 0 <= i < |codes|
    ensures var prev := DecodeRun(a, codes[..i]);
            DecodeRun(a, codes[..i + 1]) == (Front(prev.0, codes[i]), prev.1 + [prev.0[codes[i]]])
  {
    assert codes[..i + 1][..i] == codes[..i];
  }

  /** Decoding what encoding wrote, from the same alphabet, gives the
      input back and ends with the same alphabet. */
  lemma {:induction false} DecodeUndoesEncode(a: seq<Byte>, s: seq<Byte>)
    requires IsAlphabet(a)
    ensures DecodeRun(a, EncodeRun(a, s).1) == (EncodeRun(a, s).0, s)
  {
    if |s| > 0 {
      var s' := s[..|s| - 1];
      assert s == s' + [s[|s| - 1]];
      DecodeUndoesEncode(a, s');
      var codes := EncodeRun(a, s).1;
      assert codes[..|codes| - 1] == EncodeRun(a, s').1;
    }
  }

  /** A character written twice in a row encodes the second time as 0: the
      first occurrence moved it to the front. */
  lemma RepeatEncodesZero(a: seq<Byte>, s: seq<Byte>, c: Byte)
    requires IsAlphabet(a)
    ensures EncodeRun(a, s + [c] + [c]).1[|s| + 1] == 0
  {
    var s1 := s + [c];
    var s2 := s1 + [c];
    assert s2[..|s2| - 1] == s1;
    assert s1[..|s1| - 1] == s;
    var front := EncodeRun(a, s1).0;
    assert front[0] == c;
    assert IndexOf(front, c) == 0;
  }

  class MoveToFront {
    /** The static list of the source. */
    var alphabet: seq<Byte>

    constructor ()
      ensures alphabet == []
    {
      alphabet := [];
    }

    /** `init`: the list 0, 1, ..., 255. */
    method Init()
      modifies this
      ensures alphabet == Identity()
    {
      alphabet := [];
      for i := 0 to R
        invariant alphabet == Identity()[..i]
      {
        alphabet := alphabet + [i as Byte];
      }
    }

    /** `remove(k)` and then `add(0, ...)` of the removed character. */
    method MoveEntry(k: int)
      requires 0 <= k < |alphabet|
      modifies this
      ensures alphabet == Front(old(alphabet), k)
    {
      var x := alphabet[k];
      alphabet := alphabet[..k] + alphabet[k + 1..];
      alphabet := [x] + alphabet;
    }

    /** `encode`: writes the position of each character in the list and
        moves the character to the front. */
    method Encode(str: seq<Byte>) returns (out: seq<Byte>)
      modifies this
      ensures (alphabet, out) == EncodeRun(Identity(), str)
    {
      Init();
      out := [];
      for i := 0 to |str|
        invariant (alphabet, out) == EncodeRun(Identity(), str[..i])
      {
        EncodeStep(Identity(), str, i);
        var c := str[i];
        var index := IndexOf(alphabet, c);
        out := out + [index as Byte];
        MoveEntry(index);
      }
      assert str[..|str|] == str;
    }

    /** `decode`: writes the character at each position and moves it to
        the front. */
    method Decode(input: seq<Byte>) returns (out: seq<Byte>)
      modifies this
      ensures (alphabet, out) == DecodeRun(Identity(), input)
    {
      Init();
      out := [];
      for i := 0 to |input|
        invariant (alphabet, out) == DecodeRun(Identity(), input[..i])
      {
        DecodeStep(Identity(), input, i);
        out := out + [alphabet[input[i]]];
        MoveEntry(input[i] as int);
      }
      assert input[..|input|] == input;
    }
  }
}
