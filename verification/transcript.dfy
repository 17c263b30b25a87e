/**
 * What the loop of `elaborate_script` (main.py:205-231) emits: one phrase
 * for each speaker change, closing the run of words that the change ends.
 * The run after the last change is never closed, and the first phrase starts
 * at the literal 0 rather than at its first word's start.
 */
module Transcript {

  /** One recognised word: its punctuated text, speaker label and timing in seconds. */
  datatype Word = Word(punctuated: string, speaker: nat, start: real, end: real)

  /**
   * A phrase start time: the integer 0 the loop starts from, or a word's
   * start time. They are kept apart because they print differently.
   */
  datatype Stamp = Origin | At(seconds: real)

  /** One emitted list item before translation. */
  datatype Phrase = Phrase(speaker: nat, content: string, start: Stamp, end: real)

  /** The words' punctuated texts, each followed by one space. */
  function Spoken(ws: seq<Word>): string
    decreases |ws|
  {
    if |ws| == 0 then "" else Spoken(ws[..|ws| - 1]) + ws[|ws| - 1].punctuated + " "
  }

  /** Word `i` has a different speaker from the word before it. */
  predicate SpeakerChangesAt(words: seq<Word>, i: int) {
    1 <= i < |words| && words[i].speaker != words[i - 1].speaker
  }

  /** Where the run still open after the first `n` words begins: the last change before `n`, or 0. */
  function OpenRunStart(words: seq<Word>, n: nat): (s: nat)
    requires n <= |words|
    ensures s <= n && (n > 0 ==> s < n)
    decreases n
  {
    if n <= 1 then 0
    else if SpeakerChangesAt(words, n - 1) then n - 1
    else OpenRunStart(words, n - 1)
  }

  /** The start time recorded for the run still open after the first `n` words. */
  function OpenRunStamp(words: seq<Word>, n: nat): Stamp
    requires n <= |words|
    decreases n
  {
    if n <= 1 then Origin
    else if SpeakerChangesAt(words, n - 1) then At(words[n - 1].start)
    else OpenRunStamp(words, n - 1)
  }

  /** The phrases emitted while reading the first `n` words. */
  function PhrasesBefore(words: seq<Word>, n: nat): seq<Phrase>
    requires n <= |words|
    decreases n
  {
    if n <= 1 then []
    else
      PhrasesBefore(words, n - 1)
      + if SpeakerChangesAt(words, n - 1) then
          [Phrase(words[n - 2].speaker, Spoken(words[OpenRunStart(words, n - 1)..n - 1]),
                  OpenRunStamp(words, n - 1), words[n - 2].end)]
        else []
  }

  /**
   * The phrases the transcript loop emits, in order: one per speaker change,
   * the k-th being the run of words that the k-th change closes.
   */
  function Segment(words: seq<Word>): (ps: seq<Phrase>)
    ensures ValidChanges(words, Changes(words))
    ensures |ps| == |Changes(words)|
    ensures forall k :: 0 <= k < |ps| ==> ps[k] == PhraseAt(words, Changes(words), k)
  {
    PhrasesAtChanges(words, |words|);
    PhrasesBefore(words, |words|)
  }

  /** The number of leading words that the emitted phrases cover. */
  function Covered(words: seq<Word>): nat {
    OpenRunStart(words, |words|)
  }

  /** The texts of the phrases, concatenated in order. */
  function Contents(ps: seq<Phrase>): string
    decreases |ps|
  {
    if |ps| == 0 then "" else Contents(ps[..|ps| - 1]) + ps[|ps| - 1].content
  }

  // ---------------------------------------------------------------------
  // The same phrases described by the indices of the speaker changes.

  /** The speaker-change indices among the first `n` words, in increasing order. */
  function ChangesBefore(words: seq<Word>, n: nat): seq<nat>
    requires n <= |words|
    decreases n
  {
    if n <= 1 then []
    else ChangesBefore(words, n - 1) + (if SpeakerChangesAt(words, n - 1) then [n - 1] else [])
  }

  /** All speaker-change indices of the transcript. */
  function Changes(words: seq<Word>): seq<nat> {
    ChangesBefore(words, |words|)
  }

  /** The set of indices where the speaker changes. */
  function ChangeSet(words: seq<Word>): set<nat> {
    set i: nat | i < |words| && SpeakerChangesAt(words, i)
  }

  /** Increasing indices of speaker changes. */
  predicate ValidChanges(words: seq<Word>, b: seq<nat>) {
    && (forall j :: 0 <= j < |b| ==> SpeakerChangesAt(words, b[j]))
    && (forall j, l :: 0 <= j < l < |b| ==> b[j] < b[l])
  }

  /** Where the run closed by change `k` starts: 0 for the first, else the previous change. */
  function RunStart(b: seq<nat>, k: nat): nat
    requires k < |b|
  {
    if k == 0 then 0 else b[k - 1]
  }

  /** The phrase that closes at the `k`-th speaker change. */
  function PhraseAt(words: seq<Word>, b: seq<nat>, k: nat): Phrase
    requires ValidChanges(words, b)
    requires k < |b|
  {
    var s := RunStart(b, k);
    var e := b[k];
    Phrase(words[e - 1].speaker, Spoken(words[s..e]),
           if k == 0 then Origin else At(words[s].start), words[e - 1].end)
  }

  /** `ChangesBefore` lists exactly the speaker changes before `n`, in increasing order. */
  lemma {:induction false} ChangesBeforeFacts(words: seq<Word>, n: nat)
    requires n <= |words|
    ensures ValidChanges(words, ChangesBefore(words, n))
    ensures forall j :: 0 <= j < |ChangesBefore(words, n)| ==> ChangesBefore(words, n)[j] < n
    ensures forall i :: 1 <= i < n && SpeakerChangesAt(words, i) ==> i in ChangesBefore(words, n)
    decreases n
  {
    if n > 1 {
      ChangesBeforeFacts(words, n - 1);
    }
  }

  /** The open run starts at the last change before `n`, with that word's start time. */
  lemma {:induction false} OpenRunAtLastChange(words: seq<Word>, n: nat)
    requires n <= |words|
    ensures var b := ChangesBefore(words, n);
      && OpenRunStart(words, n) == (if |b| == 0 then 0 else b[|b| - 1])
      && OpenRunStamp(words, n) == (if |b| == 0 then Origin else At(words[OpenRunStart(words, n)].start))
    decreases n
  {
    if n > 1 {
      OpenRunAtLastChange(words, n - 1);
    }
  }

  /** The `k`-th phrase emitted from the first `n` words is the one closing at the `k`-th change. */
  predicate PhrasesMatchChanges(words: seq<Word>, n: nat)
    requires n <= |words|
  {
    var b := ChangesBefore(words, n);
    var ps := PhrasesBefore(words, n);
    && ValidChanges(words, b)
    && |ps| == |b|
    && forall k :: 0 <= k < |b| ==> ps[k] == PhraseAt(words, b, k)
  }

  /** The emitted phrases are those closing at the speaker changes, in order. */
  lemma {:induction false} PhrasesAtChanges(words: seq<Word>, n: nat)
    requires n <= |words|
    ensures PhrasesMatchChanges(words, n)
    decreases n
  {
    ChangesBeforeFacts(words, n);
    if n > 1 {
      PhrasesAtChanges(words, n - 1);
      if SpeakerChangesAt(words, n - 1) {
        PhraseAtNewChange(words, n - 1);
      } else {
        assert ChangesBefore(words, n) == ChangesBefore(words, n - 1);
        assert PhrasesBefore(words, n) == PhrasesBefore(words, n - 1);
      }
    }
  }

  /** The step of `PhrasesAtChanges` where word `i` starts a new speaker's run. */
  lemma PhraseAtNewChange(words: seq<Word>, i: nat)
    requires 0 < i < |words| && SpeakerChangesAt(words, i)
    requires PhrasesMatchChanges(words, i)
    requires ValidChanges(words, ChangesBefore(words, i + 1))
    ensures PhrasesMatchChanges(words, i + 1)
  {
    var b := ChangesBefore(words, i);
    var b' := ChangesBefore(words, i + 1);
    var ps := PhrasesBefore(words, i);
    var ps' := PhrasesBefore(words, i + 1);
    assert b' == b + [i];
    ClosingStep(words, i);
    forall k | 0 <= k < |b|
      ensures ps'[k] == PhraseAt(words, b', k)
    {
      assert ps'[k] == ps[k];
      PhraseAtExtended(words, b, i, k);
    }
    PhraseAtLastChange(words, i);
  }

  /** The phrase closing at a new change is the run that was open before it. */
  lemma PhraseAtLastChange(words: seq<Word>, i: nat)
    requires 0 < i < |words| && SpeakerChangesAt(words, i)
    requires ValidChanges(words, ChangesBefore(words, i) + [i])
    ensures PhraseAt(words, ChangesBefore(words, i) + [i], |ChangesBefore(words, i)|)
         == Phrase(words[i - 1].speaker, Spoken(words[OpenRunStart(words, i)..i]),
                   OpenRunStamp(words, i), words[i - 1].end)
  {
    var b := ChangesBefore(words, i);
    OpenRunAtLastChange(words, i);
    assert RunStart(b + [i], |b|) == OpenRunStart(words, i);
  }

  /** Appending a later change leaves the earlier phrases as they were. */
  lemma PhraseAtExtended(words: seq<Word>, b: seq<nat>, i: nat, k: nat)
    requires ValidChanges(words, b) && ValidChanges(words, b + [i])
    requires k < |b|
    ensures PhraseAt(words, b + [i], k) == PhraseAt(words, b, k)
  {
    assert (b + [i])[k] == b[k];
    assert RunStart(b + [i], k) == RunStart(b, k);
  }

  /** Reading a word that starts a new speaker's run closes the open run as the next phrase. */
  lemma ClosingStep(words: seq<Word>, i: nat)
    requires 0 < i < |words| && SpeakerChangesAt(words, i)
    ensures PhrasesBefore(words, i + 1)
         == PhrasesBefore(words, i)
            + [Phrase(words[i - 1].speaker, Spoken(words[OpenRunStart(words, i)..i]),
                      OpenRunStamp(words, i), words[i - 1].end)]
    ensures OpenRunStart(words, i + 1) == i
    ensures OpenRunStamp(words, i + 1) == At(words[i].start)
  {
  }

  /** Reading a word that continues the open run emits nothing. */
  lemma ContinuingStep(words: seq<Word>, i: nat)
    requires i < |words| && !SpeakerChangesAt(words, i)
    ensures PhrasesBefore(words, i + 1) == PhrasesBefore(words, i)
    ensures i > 0 ==> OpenRunStart(words, i + 1) == OpenRunStart(words, i)
    ensures i > 0 ==> OpenRunStamp(words, i + 1) == OpenRunStamp(words, i)
  {
  }

  // ---------------------------------------------------------------------
  // Properties of the emitted phrases.

  /** `Spoken` distributes over concatenation. */
  lemma {:induction false} SpokenAppend(a: seq<Word>, b: seq<Word>)
    ensures Spoken(a + b) == Spoken(a) + Spoken(b)
    decreases |b|
  {
    if |b| == 0 {
      assert a + b == a;
    } else {
      var b' := b[..|b| - 1];
      assert (a + b)[..|a + b| - 1] == a + b';
      SpokenAppend(a, b');
    }
  }

  /** Strictly increasing sequences have as many distinct elements as entries. */
  lemma {:induction false} IncreasingCardinality(b: seq<nat>)
    requires forall j, l :: 0 <= j < l < |b| ==> b[j] < b[l]
    ensures |set j | 0 <= j < |b| :: b[j]| == |b|
    decreases |b|
  {
    if |b| > 0 {
      var init := b[..|b| - 1];
      IncreasingCardinality(init);
      var s := set j | 0 <= j < |b| :: b[j];
      var s' := set j | 0 <= j < |init| :: init[j];
      assert s == s' + {b[|b| - 1]};
      assert b[|b| - 1] !in s';
    }
  }

  /** One phrase is emitted per speaker change. */
  lemma PhraseCount(words: seq<Word>)
    ensures |Segment(words)| == |ChangeSet(words)|
  {
    var b := Changes(words);
    ChangesBeforeFacts(words, |words|);
    IncreasingCardinality(b);
    assert (set j | 0 <= j < |b| :: b[j]) == ChangeSet(words);
  }

  /** A transcript with a single speaker, or with at most one word, emits nothing. */
  lemma SingleSpeakerEmitsNothing(words: seq<Word>)
    requires forall i :: 0 <= i < |words| ==> words[i].speaker == words[0].speaker
    ensures Segment(words) == []
  {
    PhraseCount(words);
    assert ChangeSet(words) == {};
  }

  /** Words between two neighbouring changes all share the speaker of the last of them. */
  lemma {:induction false} RunHasOneSpeaker(words: seq<Word>, s: nat, e: nat)
    requires s < e <= |words|
    requires forall i :: s < i < e ==> !SpeakerChangesAt(words, i)
    ensures forall i :: s <= i < e ==> words[i].speaker == words[e - 1].speaker
    decreases e - s
  {
    if s + 1 < e {
      RunHasOneSpeaker(words, s + 1, e);
      assert !SpeakerChangesAt(words, s + 1);
    }
  }

  /** An index strictly between neighbouring entries of an increasing sequence is not in it. */
  lemma NotBetweenNeighbours(b: seq<nat>, k: nat, i: nat)
    requires forall j, l :: 0 <= j < l < |b| ==> b[j] < b[l]
    requires k < |b|
    requires RunStart(b, k) < i < b[k]
    ensures i !in b
  {
    forall m | 0 <= m < |b|
      ensures b[m] != i
    {
      if m >= k {
        assert b[m] >= b[k];
      } else {
        assert b[m] <= b[k - 1];
      }
    }
  }

  /**
   * Phrase `k` is a maximal same-speaker run of words: it starts at the
   * first word or just after a speaker change, ends just before a speaker
   * change, its text is the run's words, its end time is the last word's end,
   * and its start is 0 for the first phrase and the first word's start otherwise.
   */
  lemma PhraseIsMaximalRun(words: seq<Word>, k: nat)
    requires k < |Segment(words)|
    ensures k < |Changes(words)|
    ensures
      var p := Segment(words)[k];
      var b := Changes(words);
      var s := RunStart(b, k);
      var e := b[k];
      && s < e < |words|
      && (forall i :: s <= i < e ==> words[i].speaker == p.speaker)
      && (s == 0 || words[s - 1].speaker != p.speaker)
      && words[e].speaker != p.speaker
      && p.content == Spoken(words[s..e])
      && p.end == words[e - 1].end
      && p.start == (if k == 0 then Origin else At(words[s].start))
  {
    ChangesBeforeFacts(words, |words|);
    var b := Changes(words);
    var s := RunStart(b, k);
    if k > 0 {
      assert b[k - 1] < b[k];
    }
    forall i | s < i < b[k]
      ensures !SpeakerChangesAt(words, i)
    {
      NotBetweenNeighbours(b, k, i);
    }
    RunHasOneSpeaker(words, s, b[k]);
  }

  /** Neighbouring phrases belong to different speakers. */
  lemma AdjacentPhrasesDiffer(words: seq<Word>, k: nat)
    requires k + 1 < |Segment(words)|
    ensures Segment(words)[k].speaker != Segment(words)[k + 1].speaker
  {
    PhraseIsMaximalRun(words, k);
    PhraseIsMaximalRun(words, k + 1);
  }

  /** The phrases emitted so far spell out exactly the words before the open run. */
  lemma {:induction false} PhrasesSpellClosedRuns(words: seq<Word>, n: nat)
    requires n <= |words|
    ensures Contents(PhrasesBefore(words, n)) == Spoken(words[..OpenRunStart(words, n)])
    decreases n
  {
    if n > 1 {
      PhrasesSpellClosedRuns(words, n - 1);
      var ps := PhrasesBefore(words, n - 1);
      if SpeakerChangesAt(words, n - 1) {
        var s := OpenRunStart(words, n - 1);
        var p := PhrasesBefore(words, n)[|ps|];
        assert PhrasesBefore(words, n) == ps + [p];
        assert (ps + [p])[..|ps|] == ps;
        assert words[..n - 1] == words[..s] + words[s..n - 1];
        SpokenAppend(words[..s], words[s..n - 1]);
      } else {
        assert PhrasesBefore(words, n) == ps;
      }
    } else {
      assert words[..0] == [];
    }
  }

  /** The open run after the first `n` words has a single speaker. */
  lemma {:induction false} OpenRunHasOneSpeaker(words: seq<Word>, n: nat)
    requires 0 < n <= |words|
    ensures forall i :: OpenRunStart(words, n) <= i < n ==> words[i].speaker == words[n - 1].speaker
    decreases n
  {
    if n > 1 && !SpeakerChangesAt(words, n - 1) {
      OpenRunHasOneSpeaker(words, n - 1);
    }
  }

  /**
   * The phrases partition the words before the final run, in order and
   * without gaps; the final run, which is never emitted, is non-empty
   * whenever there are words, and has one speaker.
   */
  lemma PhrasesCoverAllButFinalRun(words: seq<Word>)
    ensures Contents(Segment(words)) == Spoken(words[..Covered(words)])
    ensures |words| > 0 ==> Covered(words) < |words|
    ensures forall i :: Covered(words) <= i < |words| ==> words[i].speaker == words[|words| - 1].speaker
  {
    PhrasesSpellClosedRuns(words, |words|);
    if |words| > 0 {
      OpenRunHasOneSpeaker(words, |words|);
    }
  }

  // ---------------------------------------------------------------------
  // The final run, which the loop leaves open, and the flush that writes it.

  /** The phrase of the run still open when the words run out. */
  function FinalPhrase(words: seq<Word>): Phrase
    requires |words| > 0
  {
    Phrase(words[|words| - 1].speaker, Spoken(words[Covered(words)..]),
           OpenRunStamp(words, |words|), words[|words| - 1].end)
  }

  /**
   * The phrases with the final run written out after the loop as well: their
   * texts spell every word in order, one phrase per speaker change plus one
   * for the final run.
   */
  function SegmentFlushed(words: seq<Word>): (ps: seq<Phrase>)
    ensures Contents(ps) == Spoken(words)
    ensures |ps| == |ChangeSet(words)| + (if |words| == 0 then 0 else 1)
  {
    PhraseCount(words);
    if |words| == 0 then
      assert ChangeSet(words) == {};
      []
    else
      FlushCompletes(words);
      Segment(words) + [FinalPhrase(words)]
  }

  /** Every word contributes at least its trailing space. */
  lemma {:induction false} SpokenLength(ws: seq<Word>)
    ensures |Spoken(ws)| >= |ws|
    decreases |ws|
  {
    if |ws| > 0 {
      SpokenLength(ws[..|ws| - 1]);
    }
  }

  /** Without the flush, the phrases of any non-empty transcript leave words out. */
  lemma FinalRunDropped(words: seq<Word>)
    requires |words| > 0
    ensures |Contents(Segment(words))| < |Spoken(words)|
    ensures Contents(Segment(words)) != Spoken(words)
  {
    PhrasesCoverAllButFinalRun(words);
    var c := Covered(words);
    assert words == words[..c] + words[c..];
    SpokenAppend(words[..c], words[c..]);
    SpokenLength(words[c..]);
  }

  /** Appending the final phrase completes the text of the emitted phrases. */
  lemma FlushCompletes(words: seq<Word>)
    requires |words| > 0
    ensures Contents(Segment(words) + [FinalPhrase(words)]) == Spoken(words)
  {
    PhrasesCoverAllButFinalRun(words);
    ContentsSnoc(Segment(words), FinalPhrase(words));
    SpokenSplit(words, Covered(words));
  }

  /** The text of phrases with one more phrase is their text followed by its. */
  lemma ContentsSnoc(ps: seq<Phrase>, p: Phrase)
    ensures Contents(ps + [p]) == Contents(ps) + p.content
  {
    assert (ps + [p])[..|ps|] == ps;
  }

  /** The text of the words is the text of those before `c`, then of the rest. */
  lemma SpokenSplit(words: seq<Word>, c: nat)
    requires c <= |words|
    ensures Spoken(words) == Spoken(words[..c]) + Spoken(words[c..])
  {
    assert words == words[..c] + words[c..];
    SpokenAppend(words[..c], words[c..]);
  }

  /** With the flush, neighbouring phrases still belong to different speakers. */
  lemma FlushedNeighboursDiffer(words: seq<Word>, k: nat)
    requires k + 1 < |SegmentFlushed(words)|
    ensures SegmentFlushed(words)[k].speaker != SegmentFlushed(words)[k + 1].speaker
  {
    var ps := Segment(words);
    assert SegmentFlushed(words)[k] == ps[k];
    if k + 1 < |ps| {
      AdjacentPhrasesDiffer(words, k);
    } else {
      PhraseIsMaximalRun(words, k);
      OpenRunAtLastChange(words, |words|);
      OpenRunHasOneSpeaker(words, |words|);
    }
  }

  /**
   * "Hi" and "there" by speaker 0, then "Hello" by speaker 1: with the flush,
   * both speakers' phrases appear.
   */
  lemma TwoSpeakerExampleFlushed()
    ensures SegmentFlushed([Word("Hi", 0, 0.0, 0.5), Word("there", 0, 0.5, 1.0), Word("Hello", 1, 1.2, 1.6)])
         == [Phrase(0, "Hi there ", Origin, 1.0), Phrase(1, "Hello ", At(1.2), 1.6)]
  {
    var words := [Word("Hi", 0, 0.0, 0.5), Word("there", 0, 0.5, 1.0), Word("Hello", 1, 1.2, 1.6)];
    TwoSpeakerExample();
    assert SpeakerChangesAt(words, 2);
    assert Covered(words) == 2;
    assert OpenRunStamp(words, 3) == At(1.2);
    assert words[2..] == [words[2]];
    assert [words[2]][..0] == [];
    assert Spoken([words[2]]) == "Hello ";
  }

  /**
   * "Hi" and "there" by speaker 0, then "Hello" by speaker 1: the loop emits
   * only "Hi there ", and the trailing "Hello" run is not emitted.
   */
  lemma TwoSpeakerExample()
    ensures Segment([Word("Hi", 0, 0.0, 0.5), Word("there", 0, 0.5, 1.0), Word("Hello", 1, 1.2, 1.6)])
         == [Phrase(0, "Hi there ", Origin, 1.0)]
  {
    var words := [Word("Hi", 0, 0.0, 0.5), Word("there", 0, 0.5, 1.0), Word("Hello", 1, 1.2, 1.6)];
    assert !SpeakerChangesAt(words, 1) && SpeakerChangesAt(words, 2);
    assert OpenRunStart(words, 2) == 0;
    assert OpenRunStamp(words, 2) == Origin;
    var run := words[0..2];
    assert run[..1] == [words[0]];
    assert [words[0]][..0] == [];
    assert Spoken([words[0]]) == "Hi ";
    assert Spoken(run) == Spoken(run[..1]) + "there" + " ";
    assert Spoken(run) == "Hi there ";
    assert PhrasesBefore(words, 2) == [];
    assert Segment(words) == PhrasesBefore(words, 2) + [Phrase(0, Spoken(run), Origin, 1.0)];
  }
}
