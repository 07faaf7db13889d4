/**
 * The niqqud filter: for a Hebrew token it removes, in place, the code units 1455
 * to 1476 (U+05AF to U+05C4: the vowel points and dots, two marks and three
 * punctuation signs; the accents below U+05AF, U+05C5 and U+05C7 stay) from the term buffer,
 * keeping every other code unit in order, and shortens the term accordingly.
 */
module Niqqud {

  /** A UTF-16 code unit, the element type of the term buffer. */
  newtype CodeUnit = x: int | 0 <= x < 0x1_0000

  /** A code unit the filter removes: one in U+05AF to U+05C4. */
  predicate IsNiqqud(c: CodeUnit)
  {
    1455 <= c <= 1476
  }

  /** The term with every niqqud code unit removed; defined from the end, as the loop reads it. */
  function StripNiqqud(s: seq<CodeUnit>): (r: seq<CodeUnit>)
    ensures |r| <= |s|
    ensures forall k :: 0 <= k < |r| ==> !IsNiqqud(r[k])
  {
    if s == [] then []
    else StripNiqqud(s[..|s| - 1]) + (if IsNiqqud(s[|s| - 1]) then [] else [s[|s| - 1]])
  }

  /** Stripping distributes over concatenation, so the kept code units stay in their order. */
  lemma {:induction false} StripNiqqudConcat(a: seq<CodeUnit>, b: seq<CodeUnit>)
    ensures StripNiqqud(a + b) == StripNiqqud(a) + StripNiqqud(b)
    decreases |b|
  {
    if b != [] {
      var b', last := b[..|b| - 1], b[|b| - 1];
      assert (a + b)[..|a + b| - 1] == a + b';
      assert (a + b)[|a + b| - 1] == last;
      assert b[..|b| - 1] == b';
      StripNiqqudConcat(a, b');
      var kept := if IsNiqqud(last) then [] else [last];
      assert StripNiqqud(b) == StripNiqqud(b') + kept;
      assert StripNiqqud(a + b) == (StripNiqqud(a) + StripNiqqud(b')) + kept;
      assert (StripNiqqud(a) + StripNiqqud(b')) + kept == StripNiqqud(a) + (StripNiqqud(b') + kept);
    } else {
      assert a + b == a;
    }
  }

  /** On a single code unit, stripping drops it exactly when it is niqqud. */
  lemma StripNiqqudSingle(c: CodeUnit)
    ensures StripNiqqud([c]) == if IsNiqqud(c) then [] else [c]
  {
    assert [c][..0] == [];
  }

  /** The term keeps its length exactly when it contains no niqqud, and is then unchanged. */
  lemma {:induction false} StripNiqqudKeepsCleanTerm(s: seq<CodeUnit>)
    ensures |StripNiqqud(s)| == |s| <==> forall k :: 0 <= k < |s| ==> !IsNiqqud(s[k])
    ensures (forall k :: 0 <= k < |s| ==> !IsNiqqud(s[k])) ==> StripNiqqud(s) == s
  {
    if s != [] {
      var init := s[..|s| - 1];
      StripNiqqudKeepsCleanTerm(init);
      assert s == init + [s[|s| - 1]];
      if !IsNiqqud(s[|s| - 1]) && |StripNiqqud(s)| == |s| {
        forall k | 0 <= k < |s| ensures !IsNiqqud(s[k]) {
          if k < |s| - 1 {
            assert s[k] == init[k];
          }
        }
      }
    }
  }

  /** Stripping twice gives the same term as stripping once. */
  lemma StripNiqqudIdempotent(s: seq<CodeUnit>)
    ensures StripNiqqud(StripNiqqud(s)) == StripNiqqud(s)
  {
    StripNiqqudKeepsCleanTerm(StripNiqqud(s));
  }

  /** The term attribute: a reusable buffer of which the first `length` code units are the term. */
  class CharTermAttribute {
    var buffer: array<CodeUnit>
    var length: int

    ghost predicate Valid()
      reads this
    {
      0 <= length <= buffer.Length
    }

    /** The current term. */
    function Term(): seq<CodeUnit>
      reads this, buffer
      requires Valid()
    {
      buffer[..length]
    }

    constructor (buffer: array<CodeUnit>, length: int)
      requires 0 <= length <= buffer.Length
      ensures Valid() && this.buffer == buffer && this.length == length
    {
      this.buffer := buffer;
      this.length := length;
    }
  }

  class NiqqudFilter {
    const termAtt: CharTermAttribute

    constructor (termAtt: CharTermAttribute)
      ensures this.termAtt == termAtt
    {
      this.termAtt := termAtt;
    }

    /**
     * Called after the upstream stream has been asked for its next token:
     * `inputAdvanced` is its answer and `isHebrew` the token's Hebrew flag.
     */
    method IncrementToken(inputAdvanced: bool, isHebrew: bool) returns (more: bool)
      requires termAtt.Valid()
      modifies termAtt, termAtt.buffer
      ensures termAtt.Valid() && termAtt.buffer == old(termAtt.buffer)
      ensures more == inputAdvanced
      ensures !(inputAdvanced && isHebrew) ==>
        termAtt.length == old(termAtt.length) && termAtt.buffer[..] == old(termAtt.buffer[..])
      ensures inputAdvanced && isHebrew ==> termAtt.Term() == StripNiqqud(old(termAtt.Term()))
      ensures inputAdvanced && isHebrew ==>
        termAtt.buffer[termAtt.length..] == old(termAtt.buffer[..])[termAtt.length..]
    {
      if !inputAdvanced {
        return false;
      }
      if !isHebrew {
        return true;
      }
      var buffer := termAtt.buffer;
      var length, j := termAtt.length, 0;
      ghost var original := buffer[..];
      for i := 0 to length
        modifies buffer
        invariant 0 <= j <= i
        invariant buffer[..j] == StripNiqqud(original[..i])
        invariant buffer[j..] == original[j..]
      {
        assert buffer[i] == original[i];
        assert original[..i + 1][..i] == original[..i];
        if buffer[i] < 1455 || buffer[i] > 1476 {
          buffer[j] := buffer[i];
          j := j + 1;
        }
      }
      assert original[..length] == old(termAtt.Term());
      termAtt.length := j;
      return true;
    }
  }
}
