# HebMorph lemma filters in Dafny

This project models two token filters of the HebMorph Hebrew analyzer for Lucene and proves properties of the models.

**The stream lemmas filter** (`StreamLemmasFilter`, .NET). It turns words annotated by the HebMorph lemmatizer into index tokens. Each `IncrementToken` call emits at most one token. A call either drains the next distinct Hebrew lemma from the current word's candidate stack, or pulls the next word and classifies it into one of five cases:

- an out-of-vocabulary word;
- a single foreign token;
- a single lemma equal to the word without its prefix;
- a single other lemma;
- several candidates.

The last two cases emit a "$" guard token first. Their lemmas follow, stacked at the same position (position increment 0).

**The niqqud filter** (`NiqqudFilter`, Java). For a Hebrew token it compacts the term buffer in place. It removes code units 1455 to 1476 (U+05AF to U+05C4). This range holds the vowel points and dots, two marks and three punctuation signs (maqaf U+05BE, paseq U+05C0, sof pasuq U+05C3). The accents U+0591 to U+05AE, U+05C5 and U+05C7 are kept.

## Files

- `options.dfy` (module `Options`): `Option`, which stands in for a nullable reference.
- `token_types.dfy` (module `TokenTypes`): the five token kinds and their read-only signature table.
- `lemma_model.dfy` (module `LemmaModel`): the filter's behaviour as values.
  - `Next` is one `IncrementToken` call, with the drain loop as `Drain`.
  - `WordTokens` is an independent, whole-word description of a word's tokens. For several candidates it is built from `CollapseRuns` over the Hebrew candidates.
  - `StreamIsConcatenationOfWords` proves that the token stream is the stack's remaining lemmas followed by `WordTokens` of each word still to come.
- `stream_lemmas_filter.dfy` (module `StreamLemmas`): class `StreamLemmasFilter`.
  - The stack, cursor, last lemma and token attributes are fields.
  - `IncrementToken` is the drain `while` loop. It hands over to `NextWord`, which pulls and classifies the next word and lower-cases a non-Hebrew term with an in-place `for` loop. In the source both halves are one method. It is proved to move the object's state exactly as `Next` moves the value state.
- `niqqud_filter.dfy` (module `Niqqud`): the pure `StripNiqqud` and its lemmas; class `CharTermAttribute`, whose `buffer` is an array; class `NiqqudFilter`, whose `IncrementToken` runs the two-index compaction loop over that array.

## Behaviour of the code worth noting

- **Reset and the last lemma.** `Reset` (StreamLemmasFilter.cs:228-235) clears the stack, the cursor and `current`, and rebinds the lemmatizer's stream. It does not clear `previousLemma`. This cannot be observed, because the next call finds the stack empty and clears `previousLemma` itself (cs:111) before anything is drained.
- **The several-candidates branch.** It (cs:176-179) is taken for any two or more candidates, Hebrew or not. Non-Hebrew entries are then skipped while draining (cs:95-98).
- **Lower-casing.** `System.Char.ToLower` (cs:146) is culture-sensitive. The model folds ASCII `A`–`Z` only; see "Left out".
- **Null lemmas in the drain.** The drain skips a Hebrew candidate whose lemma equals the last lemma (cs:97), null included. Because the last lemma is null right after a word is pulled (cs:111), a null-lemma candidate at that point is skipped. The model keeps that behaviour.

Observed behaviour, kept as written: no token of an ambiguous word opens a new position. `WordTokensShape` proves that all of that word's tokens, guard included, have position increment 0.

## Model

| member | source | states |
|---|---|---|
| TokenTypes.TokenTypeSignature | dotNet/Lucene.Net.Analysis.Hebrew/Analysis/StreamLemmasFilter.cs:65-87 | the lookup of every kind lands on a non-null table slot holding a bracketed signature `<...>` |
| TokenTypes.SignatureInjective | dotNet/Lucene.Net.Analysis.Hebrew/Analysis/StreamLemmasFilter.cs:74-80 | distinct token kinds have distinct signatures |
| LemmaModel.Drain | dotNet/Lucene.Net.Analysis.Hebrew/Analysis/StreamLemmasFilter.cs:93-98 | the drain loop stops right after the first candidate that is Hebrew and whose lemma differs from the last one; every candidate it passes over is non-Hebrew or repeats the last lemma; it exhausts the stack only when all remaining entries are such |
| LemmaModel.LemmaText | dotNet/Lucene.Net.Analysis.Hebrew/Analysis/StreamLemmasFilter.cs:210 | a drained token's text is the lemma, or, for a null lemma, the candidate's text with its first prefixLength characters removed |
| LemmaModel.LemmaToken | dotNet/Lucene.Net.Analysis.Hebrew/Analysis/StreamLemmasFilter.cs:208-214 | a drained candidate becomes a token with its lemma text, position increment 0 and type `<HEBREW>`, carrying the offsets already held |
| LemmaModel.Cleared | dotNet/Lucene.Net.Analysis.Hebrew/Analysis/StreamLemmasFilter.cs:107 | cleared attributes hold an empty term and position increment 1, and a type that is none of the five signatures |
| LemmaModel.DrainIsCollapseRuns | dotNet/Lucene.Net.Analysis.Hebrew/Analysis/StreamLemmasFilter.cs:93-100 | the candidates successive drain calls emit are exactly the Hebrew ones whose lemma differs from that of the Hebrew candidate just before them |
| LemmaModel.CollapsedRunsAreDistinct | dotNet/Lucene.Net.Analysis.Hebrew/Analysis/StreamLemmasFilter.cs:97-100 | consecutive drained lemmas differ, and the first differs from the last lemma emitted before |
| LemmaModel.CollapsedRunsKeepEveryLemma | dotNet/Lucene.Net.Analysis.Hebrew/Analysis/StreamLemmasFilter.cs:97-100 | deduplication loses no lemma except possibly the one equal to the last lemma emitted before |
| LemmaModel.OnlyConsecutiveDuplicatesAreDropped | dotNet/Lucene.Net.Analysis.Hebrew/Analysis/StreamLemmasFilter.cs:97-100 | a lemma that returns after a different one is emitted again (A, A, B, A drains as A, B, A) |
| LemmaModel.Lower | dotNet/Lucene.Net.Analysis.Hebrew/Analysis/StreamLemmasFilter.cs:142-146 | lower-casing keeps the length, turns every upper-case letter into its lower-case counterpart (code point + 32), leaves no upper-case letter and changes no other character |
| LemmaModel.LowerIdempotent | dotNet/Lucene.Net.Analysis.Hebrew/Analysis/StreamLemmasFilter.cs:142-146 | lower-casing twice is lower-casing once |
| LemmaModel.Refill | dotNet/Lucene.Net.Analysis.Hebrew/Analysis/StreamLemmasFilter.cs:106-186 | pulling a word always emits a token carrying the word's offsets, resets cursor and last lemma, consumes exactly one word, and leaves either an empty stack or the word's whole candidate list |
| LemmaModel.Next | dotNet/Lucene.Net.Analysis.Hebrew/Analysis/StreamLemmasFilter.cs:90-187 | the cursor stays within the stack; end of stream is reported exactly when the drain is exhausted and the lemmatizer has no word left, and then stack, cursor and input are empty and the attributes cleared; a drained call emits the lemma token with the offsets already held, increment 0 and type `<HEBREW>`, and records its lemma; every emitting call makes progress |
| LemmaModel.PullNext | dotNet/Lucene.Net.Analysis.Hebrew/Analysis/StreamLemmasFilter.cs:106-117 | a token is emitted exactly when a word is pending; the cursor is reset to 0 and the last lemma forgotten; at end of stream stack and input are empty and the attributes cleared; otherwise the pulled word leaves the input |
| LemmaModel.EndOfStreamIsFinal | dotNet/Lucene.Net.Analysis.Hebrew/Analysis/StreamLemmasFilter.cs:106-117 | once end of stream is reported, every further call reports it again and changes nothing |
| LemmaModel.RefillKeepsStackExactlyWhenAmbiguous | dotNet/Lucene.Net.Analysis.Hebrew/Analysis/StreamLemmasFilter.cs:122-186 | after a pull the candidates stay buffered exactly for an ambiguous word, which gets a stacked guard; an unambiguous word gets one token with increment 1 and an empty stack |
| LemmaModel.RefillStartsWord | dotNet/Lucene.Net.Analysis.Hebrew/Analysis/StreamLemmasFilter.cs:106-186 | the first token of a word followed by what later calls drain from the stack left behind is exactly the word's token list |
| LemmaModel.StreamIsConcatenationOfWords | dotNet/Lucene.Net.Analysis.Hebrew/Analysis/StreamLemmasFilter.cs:90-187 | from any state, calling until end of stream throws nowhere and emits the stack's remaining distinct lemmas followed by the token lists of all remaining words, in order |
| LemmaModel.StreamOfWords | dotNet/Lucene.Net.Analysis.Hebrew/Analysis/StreamLemmasFilter.cs:90-187 | on an empty stack the token stream is exactly the words' token lists, one after another |
| LemmaModel.WordTokensShape | dotNet/Lucene.Net.Analysis.Hebrew/Analysis/StreamLemmasFilter.cs:120-186 | every token of a word carries the word's offsets; a word yields a single token opening a new position exactly when it is unambiguous (out of vocabulary, a lone foreign token, a lone exact lemma); an ambiguous word starts with a `<HEBREW>` guard ending in "$" and all its tokens have increment 0 |
| LemmaModel.WordTokens | dotNet/Lucene.Net.Analysis.Hebrew/Analysis/StreamLemmasFilter.cs:120-186 | a word yields one token, plus one more for a lone mismatching lemma, or, for several candidates, plus one per run of equal Hebrew lemmas, except that a leading run of null lemmas yields none; every token after the first is a stacked (increment 0) Hebrew lemma token |
| LemmaModel.LoneMismatchYieldsTwoTokens | dotNet/Lucene.Net.Analysis.Hebrew/Analysis/StreamLemmasFilter.cs:157-172 | a lone lemma other than the stripped word yields exactly the guard "stripped word + $" and then the lemma, both with increment 0 |
| LemmaModel.SeveralCandidatesExpandLemmas | dotNet/Lucene.Net.Analysis.Hebrew/Analysis/StreamLemmasFilter.cs:176-186 | several candidates yield the unstripped guard "word + $" and then one token per run of equal Hebrew lemmas, except that a leading run of null lemmas yields none; consecutive ones differing and no non-null lemma lost |
| LemmaModel.ResetForgetsPreviousInput | dotNet/Lucene.Net.Analysis.Hebrew/Analysis/StreamLemmasFilter.cs:228-235 | after a reset the token stream is exactly that of the new input, whatever was buffered before |
| LemmaModel.ResetState | dotNet/Lucene.Net.Analysis.Hebrew/Analysis/StreamLemmasFilter.cs:228-235 | a reset leaves an empty stack, cursor 0 and the new input, and keeps the last lemma and the attributes |
| StreamLemmas.StreamLemmasFilter.constructor | dotNet/Lucene.Net.Analysis.Hebrew/Analysis/StreamLemmasFilter.cs:39-61 | a new filter has an empty stack, cursor 0, no last lemma and default attributes, and is bound to its input |
| StreamLemmas.StreamLemmasFilter.IncrementToken | dotNet/Lucene.Net.Analysis.Hebrew/Analysis/StreamLemmasFilter.cs:90-105 | the result and the new fields are exactly those of `Next` on the old fields, and the cursor stays within the stack; the drain loop keeps the outcome of `Drain` from the current cursor unchanged |
| StreamLemmas.StreamLemmasFilter.NextWord | dotNet/Lucene.Net.Analysis.Hebrew/Analysis/StreamLemmasFilter.cs:106-187 | after the stack is drained, the result and the new fields are exactly those of `PullNext` on the words still pending, and the cursor stays within the stack |
| StreamLemmas.StreamLemmasFilter.LemmatizeNextToken | dotNet/Lucene.Net.Analysis.Hebrew/Analysis/StreamLemmasFilter.cs:113-120 | a pull reports the next word's text, offsets and candidates and consumes it, or reports end of input and leaves the stack empty |
| StreamLemmas.StreamLemmasFilter.ClearAttributes | dotNet/Lucene.Net.Analysis.Hebrew/Analysis/StreamLemmasFilter.cs:107 | all attributes return to their defaults, position increment 1 included |
| StreamLemmas.StreamLemmasFilter.SetTermText | dotNet/Lucene.Net.Analysis.Hebrew/Analysis/StreamLemmasFilter.cs:189-200 | the term becomes the given text |
| StreamLemmas.StreamLemmasFilter.LowerCaseTerm | dotNet/Lucene.Net.Analysis.Hebrew/Analysis/StreamLemmasFilter.cs:142-146 | the in-place loop leaves the term lower-cased character by character |
| StreamLemmas.StreamLemmasFilter.CreateHebrewToken | dotNet/Lucene.Net.Analysis.Hebrew/Analysis/StreamLemmasFilter.cs:208-226 | returns true and sets the term to the lemma text, increment 0 and type `<HEBREW>`, offsets untouched |
| StreamLemmas.StreamLemmasFilter.CreateHebrewTokenWithState | dotNet/Lucene.Net.Analysis.Hebrew/Analysis/StreamLemmasFilter.cs:202-206 | the overload with a captured state ignores it and behaves as CreateHebrewToken |
| StreamLemmas.StreamLemmasFilter.Reset | dotNet/Lucene.Net.Analysis.Hebrew/Analysis/StreamLemmasFilter.cs:228-235 | the stack is emptied, the cursor set to 0 and the filter bound to the new input; nothing else changes |
| Niqqud.StripNiqqud | java/src/main/java/org/apache/lucene/analysis/hebrew/TokenFilters/NiqqudFilter.java:46-53 | the stripped term is no longer than the original and contains no code unit in 1455..1476 |
| Niqqud.StripNiqqudConcat | java/src/main/java/org/apache/lucene/analysis/hebrew/TokenFilters/NiqqudFilter.java:48-52 | stripping distributes over concatenation, so kept code units keep their relative order |
| Niqqud.StripNiqqudSingle | java/src/main/java/org/apache/lucene/analysis/hebrew/TokenFilters/NiqqudFilter.java:49-50 | a single code unit is dropped exactly when it lies in 1455..1476 |
| Niqqud.StripNiqqudKeepsCleanTerm | java/src/main/java/org/apache/lucene/analysis/hebrew/TokenFilters/NiqqudFilter.java:47-53 | the new length equals the old one exactly when the term has no niqqud, and such a term is left unchanged |
| Niqqud.StripNiqqudIdempotent | java/src/main/java/org/apache/lucene/analysis/hebrew/TokenFilters/NiqqudFilter.java:48-52 | stripping twice gives the same term as stripping once |
| Niqqud.NiqqudFilter.IncrementToken | java/src/main/java/org/apache/lucene/analysis/hebrew/TokenFilters/NiqqudFilter.java:37-55 | returns what the upstream returned; at end of stream or for a non-Hebrew token, buffer and length are unchanged; for a Hebrew token the new term is the old term stripped of niqqud, the compaction reads ahead of its writes (j <= i), and the buffer past the new length is untouched |

## Left out

- The Lucene attribute and pipeline machinery is not modelled: `AddAttribute`, `CaptureState`, the `Tokenizer` and `TokenFilter` base classes. The attributes are plain fields, and an emitted token is a snapshot of them. A drained token reuses the offsets the attributes already hold, which line 120 sets only when a word is pulled. In Lucene those attribute objects are shared with downstream filters, which could change them between calls; the model assumes nothing else touches them.
- The `current` captured state is left out. It is initialised at line 39 and written at lines 110, 184 and 233, but never read, so it is dead state.
- The commented-out payload code is left out.
- The HebMorph `StreamLemmatizer` and its `TextReader` are external. The filter holds the words still to be reported as a sequence of (text, start offset, end offset, candidates). End of input is reached exactly when that sequence is empty. `SetStream` on construction and on `Reset` becomes binding a new sequence. What the lemmatizer does linguistically is not part of this model.
- `ClearAttributes` is modelled with Lucene's attribute defaults: empty term, offsets 0, position increment 1, type "word".
- CreateHebrewToken: the model fixes the implementation of line 208, which always returns true. The method is `protected virtual`, so a subclass may override it. If an override returns false, the drain goes on to the next candidate (line 102), and the exact-match branch ignores the result (line 162). The model does not cover overrides.
- SetTermText: the reuse of the term buffer (grow it, or copy into it) is not modelled, because only the resulting term text can be observed.
- Lower: does not model culture-sensitive `System.Char.ToLower`; it folds only ASCII `A`–`Z`, so non-ASCII letters of a foreign token are left as they are.
- Exceptions the source would throw are preconditions rather than error results. They are a null lemma, or a prefix that is negative or longer than the word, for a lone Hebrew candidate (line 160), and a prefix that is negative or longer than a drained candidate's text when its lemma is null (line 210). They are stated exactly for the calls that reach them (`CallDefined`, `WordDefined`).
- The Hebrew flag of `HebrewTokenTypeAttribute.isHebrew()` and the answer of the upstream `incrementToken()` are taken as inputs of `NiqqudFilter.IncrementToken`. The upstream producing the token is outside the model.
- Java `char` is modelled as a 16-bit code unit (`CodeUnit`, 0..65535).
- .NET strings are modelled as Dafny strings, which are sequences of Unicode scalar values, not of UTF-16 code units. `Substring(PrefixLength)` (lines 160, 170, 210) counts UTF-16 code units. For a word that contains a character outside the Basic Multilingual Plane, the model therefore slices at a different place than the code. The per-character `ToLower` of line 146 is the one place the code inspects character values; its treatment is the `Lower` line above.
- `WordType` (java/hebmorph-core/src/main/java/com/code972/hebmorph/WordType.java) is a bare enumeration with no behaviour and is not used by the modelled code.
- Thread safety and concurrent calls are not modelled. The filters are single-threaded iterators.
