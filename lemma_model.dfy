/**
 * The lemma-expansion state machine of the stream lemmas filter, on values.
 *
 * `Next` is one call of the filter's IncrementToken: it either drains the next
 * distinct Hebrew lemma from the per-word candidate stack or pulls the next word
 * from the lemmatizer and classifies it. `WordTokens` is an independent,
 * whole-word description of what the filter emits for one word, and
 * `StreamIsConcatenationOfWords` proves that calling `Next` until it reports end
 * of stream emits exactly the words' token lists, one after the other.
 */
module LemmaModel {
  import opened Options
  import opened TokenTypes

  /** One analysis the lemmatizer puts on the stack for a word. */
  datatype Candidate =
    | HebrewToken(text: string, lemmaForm: Option<string>, prefixLength: int)
    | PlainToken(text: string, isNumeric: bool)

  /** One word as the lemmatizer reports it: its text, its offsets and its candidates. */
  datatype Word = Word(text: string, startOffset: int, endOffset: int, candidates: seq<Candidate>)

  /** The token attributes the filter exposes; an emitted token is a snapshot of them. */
  datatype Attributes = Attributes(term: string, startOffset: int, endOffset: int, positionIncrement: int, tokenType: string)

  /** The type a cleared type attribute holds. */
  const DefaultType: string := "word"

  /** The attributes after ClearAttributes: empty term, zero offsets, increment 1, default type. */
  function Cleared(): (a: Attributes)
    ensures a.term == "" && a.positionIncrement == 1
    ensures forall t :: a.tokenType != TokenTypeSignature(t)
  {
    Attributes("", 0, 0, 1, DefaultType)
  }

  /**
   * The filter's state between calls: the candidate stack, its cursor, the last
   * drained lemma, the words the lemmatizer has still to report, and the attributes.
   */
  datatype FilterState = FilterState(
    stack: seq<Candidate>,
    index: int,
    previousLemma: Option<string>,
    input: seq<Word>,
    attrs: Attributes)

  /** The invariant at every call boundary: the cursor lies within the stack. */
  predicate CursorInBounds(s: FilterState)
  {
    0 <= s.index <= |s.stack|
  }

  // ---------------------------------------------------------------------------
  // Lower-casing of non-Hebrew terms
  // ---------------------------------------------------------------------------

  predicate IsUpper(c: char)
  {
    'A' <= c <= 'Z'
  }

  /** Lower-cases one character (ASCII letters only). */
  function LowerChar(c: char): (d: char)
    ensures !IsUpper(d)
    ensures !IsUpper(c) ==> d == c
    ensures IsUpper(c) ==> d as int == c as int + 32
  {
    if IsUpper(c) then (c as int + 32) as char else c
  }

  /** Lower-cases every character of a term, keeping its length. */
  function Lower(s: string): (r: string)
    ensures |r| == |s|
    ensures forall k :: 0 <= k < |r| ==> !IsUpper(r[k])
    ensures forall k :: 0 <= k < |s| && !IsUpper(s[k]) ==> r[k] == s[k]
    ensures forall k :: 0 <= k < |s| && IsUpper(s[k]) ==> r[k] as int == s[k] as int + 32
  {
    seq(|s|, k requires 0 <= k < |s| => LowerChar(s[k]))
  }

  /** Lower-casing twice is lower-casing once. */
  lemma LowerIdempotent(s: string)
    ensures Lower(Lower(s)) == Lower(s)
  {
  }

  // ---------------------------------------------------------------------------
  // Drained lemma tokens
  // ---------------------------------------------------------------------------

  /** The lemma text of a Hebrew candidate can be computed without an exception. */
  predicate LemmaDefined(c: Candidate)
  {
    c.HebrewToken? ==> c.lemmaForm.Some? || 0 <= c.prefixLength <= |c.text|
  }

  /** The lemma, or the candidate's text without its prefix when there is no lemma. */
  function LemmaText(c: Candidate): (t: string)
    requires c.HebrewToken? && LemmaDefined(c)
    ensures c.lemmaForm.Some? ==> t == c.lemmaForm.value
    ensures c.lemmaForm.None? ==> c.text == c.text[..c.prefixLength] + t
  {
    if c.lemmaForm.Some? then c.lemmaForm.value else c.text[c.prefixLength..]
  }

  /** The token a drained candidate becomes: its lemma text, stacked (increment 0), Hebrew. */
  function LemmaToken(c: Candidate, startOffset: int, endOffset: int): (a: Attributes)
    requires c.HebrewToken? && LemmaDefined(c)
    ensures a.term == LemmaText(c) && a.positionIncrement == 0
    ensures a.tokenType == TokenTypeSignature(Hebrew)
    ensures a.startOffset == startOffset && a.endOffset == endOffset
  {
    Attributes(LemmaText(c), startOffset, endOffset, 0, TokenTypeSignature(Hebrew))
  }

  /** The tokens a sequence of drained candidates becomes, in order. */
  function LemmaTokens(cs: seq<Candidate>, startOffset: int, endOffset: int): (ts: seq<Attributes>)
    requires forall k :: 0 <= k < |cs| ==> cs[k].HebrewToken? && LemmaDefined(cs[k])
    ensures |ts| == |cs|
    ensures forall k :: 0 <= k < |cs| ==> ts[k] == LemmaToken(cs[k], startOffset, endOffset)
  {
    if cs == [] then [] else [LemmaToken(cs[0], startOffset, endOffset)] + LemmaTokens(cs[1..], startOffset, endOffset)
  }

  // ---------------------------------------------------------------------------
  // The drain loop
  // ---------------------------------------------------------------------------

  /** The drain loop passes over a candidate that is not Hebrew or repeats the last lemma. */
  predicate Skipped(c: Candidate, prev: Option<string>)
  {
    !c.HebrewToken? || c.lemmaForm == prev
  }

  /** Where the drain loop stops: at the first candidate it does not skip, or at the end. */
  datatype DrainOutcome = Exhausted | Found(next: int, candidate: Candidate)

  /** The drain loop run from `index`: the cursor after the first unskipped candidate, and that candidate. */
  function Drain(stack: seq<Candidate>, index: int, prev: Option<string>): (d: DrainOutcome)
    requires 0 <= index <= |stack|
    ensures d.Found? ==> index < d.next <= |stack| && d.candidate == stack[d.next - 1]
    ensures d.Found? ==> !Skipped(d.candidate, prev)
    ensures d.Found? ==> forall k :: index <= k < d.next - 1 ==> Skipped(stack[k], prev)
    ensures d.Exhausted? ==> forall k :: index <= k < |stack| ==> Skipped(stack[k], prev)
    decreases |stack| - index
  {
    if index == |stack| then Exhausted
    else if Skipped(stack[index], prev) then Drain(stack, index + 1, prev)
    else Found(index + 1, stack[index])
  }

  /** Every candidate that successive drain calls emit from `index` on, in order. */
  function DrainedCandidates(stack: seq<Candidate>, index: int, prev: Option<string>): (cs: seq<Candidate>)
    requires 0 <= index <= |stack|
    ensures |cs| <= |stack| - index
    ensures forall k :: 0 <= k < |cs| ==> cs[k].HebrewToken?
    decreases |stack| - index
  {
    match Drain(stack, index, prev)
    case Exhausted => []
    case Found(next, c) => [c] + DrainedCandidates(stack, next, c.lemmaForm)
  }

  /** No emitted candidate makes the drain throw (a null lemma with a prefix longer than its text). */
  predicate DrainDefined(stack: seq<Candidate>, index: int, prev: Option<string>)
    requires 0 <= index <= |stack|
  {
    var cs := DrainedCandidates(stack, index, prev);
    forall k :: 0 <= k < |cs| ==> LemmaDefined(cs[k])
  }

  // ---------------------------------------------------------------------------
  // Reference description of the deduplication
  // ---------------------------------------------------------------------------

  /** The Hebrew candidates of a list, in order. */
  function HebrewOnly(cs: seq<Candidate>): (hs: seq<Candidate>)
    ensures |hs| <= |cs|
    ensures forall k :: 0 <= k < |hs| ==> hs[k].HebrewToken?
  {
    if cs == [] then []
    else (if cs[0].HebrewToken? then [cs[0]] else []) + HebrewOnly(cs[1..])
  }

  /**
   * Keeps a Hebrew candidate exactly when its lemma differs from the lemma of the
   * Hebrew candidate just before it (from `prev` for the first one).
   */
  function CollapseRuns(hs: seq<Candidate>, prev: Option<string>): (r: seq<Candidate>)
    requires forall k :: 0 <= k < |hs| ==> hs[k].HebrewToken?
    ensures |r| <= |hs|
    ensures forall k :: 0 <= k < |r| ==> r[k].HebrewToken?
  {
    if hs == [] then []
    else (if hs[0].lemmaForm == prev then [] else [hs[0]]) + CollapseRuns(hs[1..], hs[0].lemmaForm)
  }

  /** The set of lemmas of a list of Hebrew candidates. */
  function LemmaSet(hs: seq<Candidate>): set<Option<string>>
    requires forall k :: 0 <= k < |hs| ==> hs[k].HebrewToken?
  {
    if hs == [] then {} else {hs[0].lemmaForm} + LemmaSet(hs[1..])
  }

  /**
   * The drain emits exactly the Hebrew candidates whose lemma differs from the
   * preceding Hebrew candidate's: only consecutive repetitions are suppressed,
   * because the last emitted lemma is the only thing remembered.
   */
  lemma {:induction false} DrainIsCollapseRuns(stack: seq<Candidate>, index: int, prev: Option<string>)
    requires 0 <= index <= |stack|
    ensures DrainedCandidates(stack, index, prev) == CollapseRuns(HebrewOnly(stack[index..]), prev)
    decreases |stack| - index
  {
    if index == |stack| {
      assert stack[index..] == [];
    } else {
      var c := stack[index];
      var rest := stack[index + 1..];
      assert stack[index..] == [c] + rest;
      assert ([c] + rest)[1..] == rest;
      DrainIsCollapseRuns(stack, index + 1, if Skipped(c, prev) then prev else c.lemmaForm);
      if c.HebrewToken? {
        assert HebrewOnly(stack[index..]) == [c] + HebrewOnly(rest);
        assert ([c] + HebrewOnly(rest))[1..] == HebrewOnly(rest);
      } else {
        assert HebrewOnly(stack[index..]) == HebrewOnly(rest);
      }
    }
  }

  /** No two consecutive emitted candidates share a lemma, and the first differs from `prev`. */
  lemma {:induction false} CollapsedRunsAreDistinct(hs: seq<Candidate>, prev: Option<string>)
    requires forall k :: 0 <= k < |hs| ==> hs[k].HebrewToken?
    ensures var r := CollapseRuns(hs, prev);
      (|r| > 0 ==> r[0].lemmaForm != prev) && forall k :: 0 < k < |r| ==> r[k - 1].lemmaForm != r[k].lemmaForm
  {
    if hs != [] {
      CollapsedRunsAreDistinct(hs[1..], hs[0].lemmaForm);
    }
  }

  /** No lemma is lost by the deduplication except, possibly, the one equal to `prev`. */
  lemma {:induction false} CollapsedRunsKeepEveryLemma(hs: seq<Candidate>, prev: Option<string>)
    requires forall k :: 0 <= k < |hs| ==> hs[k].HebrewToken?
    ensures LemmaSet(CollapseRuns(hs, prev)) + {prev} == LemmaSet(hs) + {prev}
  {
    if hs != [] {
      var h, t := hs[0], hs[1..];
      CollapsedRunsKeepEveryLemma(t, h.lemmaForm);
      var tail := CollapseRuns(t, h.lemmaForm);
      assert LemmaSet(hs) == {h.lemmaForm} + LemmaSet(t);
      if h.lemmaForm != prev {
        assert CollapseRuns(hs, prev) == [h] + tail;
        assert ([h] + tail)[1..] == tail;
        assert LemmaSet([h] + tail) == {h.lemmaForm} + LemmaSet(tail);
      } else {
        assert CollapseRuns(hs, prev) == tail;
      }
    }
  }

  // ---------------------------------------------------------------------------
  // One call of IncrementToken
  // ---------------------------------------------------------------------------

  /** The first call for a word does not throw: a lone Hebrew candidate has a lemma and a prefix within the word. */
  predicate RefillDefined(w: Word)
  {
    |w.candidates| == 1 && w.candidates[0].HebrewToken? ==>
      w.candidates[0].lemmaForm.Some? && 0 <= w.candidates[0].prefixLength <= |w.text|
  }

  /** The next call does not throw. */
  predicate CallDefined(s: FilterState)
    requires CursorInBounds(s)
  {
    match Drain(s.stack, s.index, s.previousLemma)
    case Found(_, c) => LemmaDefined(c)
    case Exhausted => s.input == [] || RefillDefined(s.input[0])
  }

  /** The call that pulls word `w`: classify it, emit its first token, and set up the stack. */
  function Refill(w: Word, rest: seq<Word>): (r: (bool, FilterState))
    requires RefillDefined(w)
    ensures r.0 && CursorInBounds(r.1) && r.1.index == 0
    ensures r.1.input == rest && r.1.previousLemma == None
    ensures r.1.stack == [] || r.1.stack == w.candidates
    ensures r.1.attrs.startOffset == w.startOffset && r.1.attrs.endOffset == w.endOffset
  {
    var cs := w.candidates;
    var a := Cleared().(startOffset := w.startOffset, endOffset := w.endOffset);
    if |cs| == 0 then
      (true, FilterState([], 0, None, rest, a.(term := w.text, tokenType := TokenTypeSignature(Hebrew))))
    else if |cs| == 1 && !cs[0].HebrewToken? then
      var a' := a.(term := w.text);
      if cs[0].isNumeric then
        (true, FilterState([], 0, None, rest, a'.(tokenType := TokenTypeSignature(Numeric))))
      else
        (true, FilterState([], 0, None, rest, a'.(tokenType := TokenTypeSignature(NonHebrew), term := Lower(a'.term))))
    else if |cs| == 1 then
      var h := cs[0];
      var stripped := w.text[h.prefixLength..];
      if h.lemmaForm.value == stripped then
        var created := a.(term := LemmaText(h), positionIncrement := 0, tokenType := TokenTypeSignature(Hebrew));
        (true, FilterState([], 0, None, rest, created.(positionIncrement := 1)))
      else
        var guarded := a.(term := stripped + "$");
        (true, FilterState(cs, 0, None, rest, guarded.(tokenType := TokenTypeSignature(Hebrew), positionIncrement := 0)))
    else
      var guarded := a.(term := w.text + "$");
      (true, FilterState(cs, 0, None, rest, guarded.(tokenType := TokenTypeSignature(Hebrew), positionIncrement := 0)))
  }

  /** The part of a call after an exhausted drain: clear the state and pull the next word, if any. */
  function PullNext(input: seq<Word>): (r: (bool, FilterState))
    requires input == [] || RefillDefined(input[0])
    ensures r.0 <==> input != []
    ensures CursorInBounds(r.1) && r.1.index == 0 && r.1.previousLemma == None
    ensures !r.0 ==> r.1.stack == [] && r.1.input == [] && r.1.attrs == Cleared()
    ensures r.0 ==> r.1.input == input[1..]
  {
    if input == [] then (false, FilterState([], 0, None, [], Cleared()))
    else Refill(input[0], input[1..])
  }

  /**
   * One call of IncrementToken: whether a token was emitted, and the state after it
   * (the emitted token is the new state's attributes).
   */
  function Next(s: FilterState): (r: (bool, FilterState))
    requires CursorInBounds(s) && CallDefined(s)
    ensures CursorInBounds(r.1)
    ensures !r.0 <==> Drain(s.stack, s.index, s.previousLemma).Exhausted? && s.input == []
    ensures !r.0 ==> r.1.stack == [] && r.1.index == 0 && r.1.input == [] && r.1.attrs == Cleared()
    ensures Drain(s.stack, s.index, s.previousLemma).Found? ==>
      var c := Drain(s.stack, s.index, s.previousLemma).candidate;
      r.1.input == s.input && r.1.stack == s.stack && r.1.previousLemma == c.lemmaForm &&
      r.1.index == Drain(s.stack, s.index, s.previousLemma).next &&
      r.1.attrs == LemmaToken(c, s.attrs.startOffset, s.attrs.endOffset)
    ensures r.0 ==> |r.1.input| < |s.input| || (r.1.input == s.input && |r.1.stack| - r.1.index < |s.stack| - s.index)
  {
    match Drain(s.stack, s.index, s.previousLemma)
    case Found(next, c) =>
      // The offsets are those the attributes still hold from the pull of this word
      var emitted := s.attrs.(term := LemmaText(c), positionIncrement := 0, tokenType := TokenTypeSignature(Hebrew));
      (true, s.(index := next, previousLemma := c.lemmaForm, attrs := emitted))
    case Exhausted => PullNext(s.input)
  }

  /** Once end of stream is reported, every further call reports it again and changes nothing. */
  lemma EndOfStreamIsFinal(s: FilterState)
    requires CursorInBounds(s) && CallDefined(s) && !Next(s).0
    ensures var t := Next(s).1; CursorInBounds(t) && CallDefined(t) && Next(t) == (false, t)
  {
  }

  // ---------------------------------------------------------------------------
  // The whole token stream
  // ---------------------------------------------------------------------------

  /** No call, from this state until end of stream, throws. */
  predicate StreamDefined(s: FilterState)
    requires CursorInBounds(s)
    decreases |s.input|, |s.stack| - s.index
  {
    CallDefined(s) && (Next(s).0 ==> StreamDefined(Next(s).1))
  }

  /** The tokens emitted by calling IncrementToken from `s` until it reports end of stream. */
  function AllTokens(s: FilterState): seq<Attributes>
    requires CursorInBounds(s) && StreamDefined(s)
    decreases |s.input|, |s.stack| - s.index
  {
    var (more, t) := Next(s);
    if more then [t.attrs] + AllTokens(t) else []
  }

  /** Proof helper: regrouping a concatenation, stated once so the stream proofs can name it. */
  lemma ConcatAssociative<T>(a: seq<T>, b: seq<T>, c: seq<T>)
    ensures a + (b + c) == (a + b) + c
  {
  }

  /** One call's worth of the stream: an emitting call contributes its token, then the stream goes on. */
  lemma AllTokensStep(s: FilterState)
    requires CursorInBounds(s) && CallDefined(s) && Next(s).0 && StreamDefined(Next(s).1)
    ensures StreamDefined(s)
    ensures AllTokens(s) == [Next(s).1.attrs] + AllTokens(Next(s).1)
  {
  }

  /** A word the filter can process without an exception, over all of its calls. */
  predicate WordDefined(w: Word)
  {
    && RefillDefined(w)
    && (|w.candidates| > 1 ==>
          var collapsed := CollapseRuns(HebrewOnly(w.candidates), None);
          forall k :: 0 <= k < |collapsed| ==> LemmaDefined(collapsed[k]))
  }

  predicate WordsDefined(ws: seq<Word>)
  {
    forall k :: 0 <= k < |ws| ==> WordDefined(ws[k])
  }

  /**
   * What the filter emits for one word, branch by branch: an out-of-vocabulary word as
   * itself; a lone foreign token as itself (lower-cased unless numeric); a lone lemma
   * equal to the prefix-stripped word on its own; a lone other lemma after a guard made
   * of the stripped word and "$"; several candidates after a guard made of the word and
   * "$", followed by every Hebrew lemma that differs from the one before it.
   */
  function WordTokens(w: Word): (ts: seq<Attributes>)
    requires WordDefined(w)
    ensures |ts| == 1 + (if |w.candidates| > 1 then |CollapseRuns(HebrewOnly(w.candidates), None)|
                         else if Unambiguous(w) then 0 else 1)
    ensures forall k :: 0 < k < |ts| ==> ts[k].positionIncrement == 0 && ts[k].tokenType == TokenTypeSignature(Hebrew)
  {
    var cs := w.candidates;
    var heb := TokenTypeSignature(Hebrew);
    if |cs| == 0 then
      [Attributes(w.text, w.startOffset, w.endOffset, 1, heb)]
    else if |cs| == 1 && cs[0].PlainToken? then
      if cs[0].isNumeric then [Attributes(w.text, w.startOffset, w.endOffset, 1, TokenTypeSignature(Numeric))]
      else [Attributes(Lower(w.text), w.startOffset, w.endOffset, 1, TokenTypeSignature(NonHebrew))]
    else if |cs| == 1 then
      var stripped := w.text[cs[0].prefixLength..];
      if cs[0].lemmaForm == Some(stripped) then [Attributes(stripped, w.startOffset, w.endOffset, 1, heb)]
      else [Attributes(stripped + "$", w.startOffset, w.endOffset, 0, heb), LemmaToken(cs[0], w.startOffset, w.endOffset)]
    else
      var collapsed := CollapseRuns(HebrewOnly(cs), None);
      [Attributes(w.text + "$", w.startOffset, w.endOffset, 0, heb)] + LemmaTokens(collapsed, w.startOffset, w.endOffset)
  }

  /** The tokens of a sequence of words, word after word. */
  function TokensOf(ws: seq<Word>): seq<Attributes>
    requires WordsDefined(ws)
  {
    if ws == [] then [] else WordTokens(ws[0]) + TokensOf(ws[1..])
  }

  /** After a candidate is drained, the rest of the drain is the tail of the drained candidates. */
  lemma DrainedTail(stack: seq<Candidate>, index: int, prev: Option<string>)
    requires 0 <= index <= |stack| && Drain(stack, index, prev).Found?
    ensures var d := Drain(stack, index, prev);
      DrainedCandidates(stack, index, prev) == [d.candidate] + DrainedCandidates(stack, d.next, d.candidate.lemmaForm)
  {
  }

  /**
   * From any state, the token stream is the rest of the current word's drained lemmas
   * followed by the tokens of every word the lemmatizer has still to report.
   */
  lemma {:induction false} StreamIsConcatenationOfWords(s: FilterState)
    requires CursorInBounds(s) && DrainDefined(s.stack, s.index, s.previousLemma) && WordsDefined(s.input)
    ensures StreamDefined(s)
    ensures AllTokens(s) ==
      LemmaTokens(DrainedCandidates(s.stack, s.index, s.previousLemma), s.attrs.startOffset, s.attrs.endOffset) + TokensOf(s.input)
    decreases |s.input|, |s.stack| - s.index, 1
  {
    if Drain(s.stack, s.index, s.previousLemma).Found? {
      StreamAfterDrainedLemma(s);
    } else if s.input != [] {
      StreamAfterRefill(s);
    }
  }

  /** The drain case of StreamIsConcatenationOfWords: one lemma is emitted and the drain goes on. */
  lemma {:induction false} StreamAfterDrainedLemma(s: FilterState)
    requires CursorInBounds(s) && DrainDefined(s.stack, s.index, s.previousLemma) && WordsDefined(s.input)
    requires Drain(s.stack, s.index, s.previousLemma).Found?
    ensures StreamDefined(s)
    ensures AllTokens(s) ==
      LemmaTokens(DrainedCandidates(s.stack, s.index, s.previousLemma), s.attrs.startOffset, s.attrs.endOffset) + TokensOf(s.input)
    decreases |s.input|, |s.stack| - s.index, 0
  {
    var d := Drain(s.stack, s.index, s.previousLemma);
    var c := d.candidate;
    var so, eo := s.attrs.startOffset, s.attrs.endOffset;
    var drained := DrainedCandidates(s.stack, s.index, s.previousLemma);
    var tail := DrainedCandidates(s.stack, d.next, c.lemmaForm);
    DrainedTail(s.stack, s.index, s.previousLemma);
    assert drained == [c] + tail;
    assert LemmaDefined(c) by {
      assert drained[0] == c;
    }
    assert CallDefined(s);
    var t := Next(s).1;
    assert t.stack == s.stack && t.index == d.next && t.previousLemma == c.lemmaForm && t.input == s.input;
    assert t.attrs == LemmaToken(c, so, eo);
    assert DrainDefined(t.stack, t.index, t.previousLemma) by {
      forall k | 0 <= k < |tail| ensures LemmaDefined(tail[k]) {
        assert tail[k] == drained[k + 1];
      }
    }
    StreamIsConcatenationOfWords(t);
    assert AllTokens(t) == LemmaTokens(tail, so, eo) + TokensOf(s.input);
    AllTokensStep(s);
    assert LemmaTokens(drained, so, eo) == [LemmaToken(c, so, eo)] + LemmaTokens(tail, so, eo) by {
      assert drained[1..] == tail;
    }
    ConcatAssociative([t.attrs], LemmaTokens(tail, so, eo), TokensOf(s.input));
  }

  /**
   * The call that pulls a word emits the word's first token and leaves on the stack
   * exactly what later calls drain into the rest of the word's tokens.
   */
  lemma {:induction false} RefillStartsWord(w: Word, rest: seq<Word>)
    requires WordDefined(w)
    ensures var t := Refill(w, rest).1;
      && DrainDefined(t.stack, 0, None)
      && [t.attrs] + LemmaTokens(DrainedCandidates(t.stack, 0, None), w.startOffset, w.endOffset) == WordTokens(w)
  {
    var t := Refill(w, rest).1;
    var cs := w.candidates;
    if t.stack == [] {
      assert DrainedCandidates(t.stack, 0, None) == [];
    } else if |cs| == 1 {
      assert cs[0].HebrewToken? && cs[0].lemmaForm.Some?;
      assert Drain(cs, 0, None) == Found(1, cs[0]);
      assert DrainedCandidates(cs, 1, cs[0].lemmaForm) == [];
      assert DrainedCandidates(cs, 0, None) == [cs[0]];
    } else {
      DrainIsCollapseRuns(cs, 0, None);
      assert cs[0..] == cs;
    }
  }

  /** The refill case of StreamIsConcatenationOfWords: the next word is pulled and its first token emitted. */
  lemma {:induction false} StreamAfterRefill(s: FilterState)
    requires CursorInBounds(s) && WordsDefined(s.input) && s.input != []
    requires Drain(s.stack, s.index, s.previousLemma).Exhausted?
    ensures StreamDefined(s)
    ensures AllTokens(s) == TokensOf(s.input)
    decreases |s.input|, |s.stack| - s.index, 0
  {
    var w, rest := s.input[0], s.input[1..];
    assert WordDefined(w);
    assert WordsDefined(rest) by {
      forall k | 0 <= k < |rest| ensures WordDefined(rest[k]) {
        assert rest[k] == s.input[k + 1];
      }
    }
    var t := Refill(w, rest).1;
    assert Next(s).1 == t;
    RefillStartsWord(w, rest);
    StreamIsConcatenationOfWords(t);
    var drained := LemmaTokens(DrainedCandidates(t.stack, 0, None), w.startOffset, w.endOffset);
    assert AllTokens(t) == drained + TokensOf(rest);
    AllTokensStep(s);
    assert AllTokens(s) == [t.attrs] + (drained + TokensOf(rest));
    ConcatAssociative([t.attrs], drained, TokensOf(rest));
    assert TokensOf(s.input) == WordTokens(w) + TokensOf(rest);
  }

  /** On a fresh stack, the token stream is exactly the words' token lists, one after the other. */
  lemma StreamOfWords(s: FilterState)
    requires s.stack == [] && s.index == 0 && WordsDefined(s.input)
    ensures CursorInBounds(s) && StreamDefined(s)
    ensures AllTokens(s) == TokensOf(s.input)
  {
    StreamIsConcatenationOfWords(s);
  }

  // ---------------------------------------------------------------------------
  // Per-word facts
  // ---------------------------------------------------------------------------

  /** A word is unambiguous when it is out of vocabulary, a lone foreign token, or a lone exactly matching lemma. */
  predicate Unambiguous(w: Word)
    requires RefillDefined(w)
  {
    var cs := w.candidates;
    |cs| == 0 || (|cs| == 1 && cs[0].PlainToken?) ||
    (|cs| == 1 && cs[0].lemmaForm == Some(w.text[cs[0].prefixLength..]))
  }

  /**
   * Every token of a word carries the word's offsets. An unambiguous word yields one
   * token that opens a new position; an ambiguous word yields a "$" guard first and
   * then its lemmas, all stacked at the previous position (increment 0).
   */
  lemma {:induction false} WordTokensShape(w: Word)
    requires WordDefined(w)
    ensures var ts := WordTokens(w);
      && |ts| >= 1
      && (forall k :: 0 <= k < |ts| ==> ts[k].startOffset == w.startOffset && ts[k].endOffset == w.endOffset)
      && (Unambiguous(w) <==> |ts| == 1 && ts[0].positionIncrement == 1)
      && (!Unambiguous(w) ==> forall k :: 0 <= k < |ts| ==> ts[k].positionIncrement == 0)
      && (!Unambiguous(w) ==> ts[0].tokenType == TokenTypeSignature(Hebrew) && ts[0].term[|ts[0].term| - 1] == '$')
  {
    var ts := WordTokens(w);
    var cs := w.candidates;
    if |cs| > 1 {
      var collapsed := CollapseRuns(HebrewOnly(cs), None);
      assert ts == [ts[0]] + LemmaTokens(collapsed, w.startOffset, w.endOffset);
      assert ts[0].positionIncrement == 0;
    }
  }

  /**
   * The call that pulls a word keeps its candidates on the stack exactly when the
   * word is ambiguous; it then emits a stacked guard, otherwise a token opening a new position.
   */
  lemma RefillKeepsStackExactlyWhenAmbiguous(w: Word, rest: seq<Word>)
    requires RefillDefined(w)
    ensures var t := Refill(w, rest).1;
      && t.stack == (if Unambiguous(w) then [] else w.candidates)
      && t.attrs.positionIncrement == (if Unambiguous(w) then 1 else 0)
  {
  }

  /** A lemma that comes back after a different one is emitted again: A, A, B, A yields A, B, A. */
  lemma {:induction false} OnlyConsecutiveDuplicatesAreDropped(t: string, a: string, b: string)
    requires a != b
    ensures var ca, cb := HebrewToken(t, Some(a), 0), HebrewToken(t, Some(b), 0);
      DrainedCandidates([ca, ca, cb, ca], 0, None) == [ca, cb, ca]
  {
    var ca, cb := HebrewToken(t, Some(a), 0), HebrewToken(t, Some(b), 0);
    var stack := [ca, ca, cb, ca];
    assert Drain(stack, 3, Some(b)) == Found(4, ca);
    assert Drain(stack, 4, Some(a)) == Exhausted;
    assert DrainedCandidates(stack, 3, Some(b)) == [ca];
    assert Drain(stack, 1, Some(a)) == Found(3, cb);
    assert DrainedCandidates(stack, 1, Some(a)) == [cb, ca];
  }

  /** A mismatching lone lemma yields exactly two tokens: the guard, then the lemma. */
  lemma LoneMismatchYieldsTwoTokens(w: Word)
    requires WordDefined(w) && |w.candidates| == 1 && w.candidates[0].HebrewToken?
    requires w.candidates[0].lemmaForm != Some(w.text[w.candidates[0].prefixLength..])
    ensures var ts := WordTokens(w); var h := w.candidates[0];
      |ts| == 2 && ts[0].term == w.text[h.prefixLength..] + "$" && ts[1].term == h.lemmaForm.value &&
      ts[0].positionIncrement == 0 && ts[1].positionIncrement == 0
  {
  }

  /**
   * Several candidates yield the unstripped guard followed by one token per run of
   * equal Hebrew lemmas, except that a leading run of null lemmas yields none (the
   * last lemma starts out null); consecutive lemma tokens come from different lemmas, and
   * every lemma of the word except a null one appears.
   */
  lemma {:induction false} SeveralCandidatesExpandLemmas(w: Word)
    requires WordDefined(w) && |w.candidates| > 1
    ensures var ts := WordTokens(w); var hs := HebrewOnly(w.candidates); var collapsed := CollapseRuns(hs, None);
      && ts[0].term == w.text + "$"
      && ts[1..] == LemmaTokens(collapsed, w.startOffset, w.endOffset)
      && (forall k :: 0 < k < |collapsed| ==> collapsed[k - 1].lemmaForm != collapsed[k].lemmaForm)
      && LemmaSet(collapsed) - {None} == LemmaSet(hs) - {None}
  {
    var hs := HebrewOnly(w.candidates);
    CollapsedRunsAreDistinct(hs, None);
    CollapsedRunsKeepEveryLemma(hs, None);
  }

  /** Dropping the stack and rebinding the input forgets the previous input entirely. */
  function ResetState(s: FilterState, input: seq<Word>): (t: FilterState)
    ensures CursorInBounds(t) && t.stack == [] && t.input == input
    ensures t.previousLemma == s.previousLemma && t.attrs == s.attrs
  {
    s.(stack := [], index := 0, input := input)
  }

  /** After a reset, the tokens are exactly those of the new input, whatever was buffered before. */
  lemma ResetForgetsPreviousInput(s: FilterState, input: seq<Word>)
    requires WordsDefined(input)
    ensures StreamDefined(ResetState(s, input))
    ensures AllTokens(ResetState(s, input)) == TokensOf(input)
  {
    StreamOfWords(ResetState(s, input));
  }
}
