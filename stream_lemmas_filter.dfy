/**
 * The stream lemmas filter as the object it is: the candidate stack, its cursor
 * and the last drained lemma are fields that persist across calls, and so are the
 * token attributes. Every method is proved against the value model in LemmaModel:
 * one IncrementToken call moves the object's state exactly as `Next` does.
 */
module StreamLemmas {
  import opened Options
  import opened TokenTypes
  import opened LemmaModel

  class StreamLemmasFilter {
    // Per-word state
    var stack: seq<Candidate>
    var index: int
    var previousLemma: Option<string>

    /** The words the lemmatizer has still to report for the current input. */
    var pending: seq<Word>

    // Token attributes
    var term: string
    var startOffset: int
    var endOffset: int
    var positionIncrement: int
    var tokenType: string

    /** The filter's state as a value. */
    function Snapshot(): FilterState
      reads this
    {
      FilterState(stack, index, previousLemma, pending,
        Attributes(term, startOffset, endOffset, positionIncrement, tokenType))
    }

    ghost predicate Valid()
      reads this
    {
      CursorInBounds(Snapshot())
    }

    /** A filter over `input`, with an empty stack and cleared attributes. */
    constructor (input: seq<Word>)
      ensures Valid()
      ensures Snapshot() == FilterState([], 0, None, input, Cleared())
    {
      stack, index, previousLemma, pending := [], 0, None, input;
      term, startOffset, endOffset, positionIncrement, tokenType := "", 0, 0, 1, DefaultType;
    }

    /** Emits the next token, or reports end of stream; one step of `Next`. */
    method IncrementToken() returns (more: bool)
      requires Valid() && CallDefined(Snapshot())
      modifies this
      ensures Valid()
      ensures (more, Snapshot()) == Next(old(Snapshot()))
    {
      ghost var s := Snapshot();
      // Emit the next Hebrew candidate whose lemma differs from the last one, stacked
      while index < |stack|
        invariant 0 <= index <= |stack|
        invariant Snapshot() == s.(index := index)
        invariant Drain(stack, index, previousLemma) == Drain(s.stack, s.index, s.previousLemma)
        decreases |stack| - index
      {
        var res := stack[index];
        index := index + 1;
        if !res.HebrewToken? || previousLemma == res.lemmaForm {
          continue;
        }
        previousLemma := res.lemmaForm;
        more := CreateHebrewToken(res);
        return;
      }

      more := NextWord();
    }

    /**
     * The rest of a call once the stack is drained: clear the per-word state and the
     * attributes, pull the next word and emit its first token.
     */
    method NextWord() returns (more: bool)
      requires pending == [] || RefillDefined(pending[0])
      modifies this
      ensures Valid()
      ensures (more, Snapshot()) == PullNext(old(pending))
    {
      // Forget the drained word and clear the token
      ClearAttributes();
      index := 0;
      stack := [];
      previousLemma := None;

      // Pull the next word and its candidates from the lemmatizer
      var found, word, wordStart, wordEnd := LemmatizeNextToken();
      if !found {
        return false;
      }
      startOffset, endOffset := wordStart, wordEnd;

      // Out of vocabulary: the word as it is
      if |stack| == 0 {
        SetTermText(word);
        tokenType := TokenTypeSignature(Hebrew);
        return true;
      }

      // A single non-Hebrew token
      if |stack| == 1 && !stack[0].HebrewToken? {
        SetTermText(word);
        var tkn := stack[0];
        if tkn.isNumeric {
          tokenType := TokenTypeSignature(Numeric);
        } else {
          tokenType := TokenTypeSignature(NonHebrew);
          LowerCaseTerm();
        }
        stack := [];
        return true;
      }

      var hebToken := stack[0];
      if |stack| == 1 {
        // A lemma equal to the prefix-stripped word is the only token of the word
        if hebToken.lemmaForm.value == word[hebToken.prefixLength..] {
          var created := CreateHebrewToken(hebToken);
          positionIncrement := 1;
          stack := [];
          return true;
        } else {
          SetTermText(word[hebToken.prefixLength..] + "$");
        }
      } else {
        SetTermText(word + "$");
      }
      tokenType := TokenTypeSignature(Hebrew);
      positionIncrement := 0;
      return true;
    }

    /**
     * The lemmatizer's pull: reports the next word with its offsets and puts its
     * candidates on the (empty) stack; reports nothing at the end of the input.
     */
    method LemmatizeNextToken() returns (found: bool, word: string, wordStart: int, wordEnd: int)
      requires stack == []
      modifies this`pending, this`stack
      ensures found == (old(pending) != [])
      ensures !found ==> pending == [] && stack == []
      ensures found ==> var w := old(pending)[0];
        && pending == old(pending)[1..] && stack == w.candidates
        && word == w.text && wordStart == w.startOffset && wordEnd == w.endOffset
    {
      found := pending != [];
      if !found {
        return false, "", 0, 0;
      }
      var w := pending[0];
      pending := pending[1..];
      stack := w.candidates;
      word, wordStart, wordEnd := w.text, w.startOffset, w.endOffset;
    }

    /** Resets every attribute to its default. */
    method ClearAttributes()
      modifies this`term, this`startOffset, this`endOffset, this`positionIncrement, this`tokenType
      ensures Attributes(term, startOffset, endOffset, positionIncrement, tokenType) == Cleared()
    {
      term, startOffset, endOffset, positionIncrement, tokenType := "", 0, 0, 1, DefaultType;
    }

    /** Records the term text; the reuse of the term buffer is not observable. */
    method SetTermText(token: string)
      modifies this`term
      ensures term == token
    {
      term := token;
    }

    /** Lower-cases the term one character at a time, in place. */
    method LowerCaseTerm()
      modifies this`term
      ensures term == Lower(old(term))
    {
      for i := 0 to |term|
        invariant |term| == |old(term)|
        invariant forall k :: 0 <= k < i ==> term[k] == LowerChar(old(term)[k])
        invariant forall k :: i <= k < |term| ==> term[k] == old(term)[k]
      {
        term := term[i := LowerChar(term[i])];
      }
    }

    /** Turns the attributes into the token of a drained lemma: its text, increment 0, Hebrew. */
    method CreateHebrewToken(hebToken: Candidate) returns (created: bool)
      requires hebToken.HebrewToken? && LemmaDefined(hebToken)
      modifies this`term, this`positionIncrement, this`tokenType
      ensures created
      ensures Attributes(term, startOffset, endOffset, positionIncrement, tokenType)
        == LemmaToken(hebToken, startOffset, endOffset)
    {
      SetTermText(if hebToken.lemmaForm.None? then hebToken.text[hebToken.prefixLength..] else hebToken.lemmaForm.value);
      positionIncrement := 0;
      tokenType := TokenTypeSignature(Hebrew);
      return true;
    }

    /** The overload that also receives a captured attribute state, which it ignores. */
    method CreateHebrewTokenWithState(hebToken: Candidate, current: Attributes) returns (created: bool)
      requires hebToken.HebrewToken? && LemmaDefined(hebToken)
      modifies this`term, this`positionIncrement, this`tokenType
      ensures created
      ensures Attributes(term, startOffset, endOffset, positionIncrement, tokenType)
        == LemmaToken(hebToken, startOffset, endOffset)
    {
      var _ := CreateHebrewToken(hebToken);
      return true;
    }

    /** Rebinds the filter to a new input and drops the candidate stack. */
    method Reset(input: seq<Word>)
      modifies this
      ensures Valid()
      ensures Snapshot() == ResetState(old(Snapshot()), input)
    {
      stack := [];
      index := 0;
      pending := input;
    }
  }
}
