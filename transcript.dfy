/**
 * Assembly of the transcript text from the speech recogniser's results
 * (`get_transcript` in main.py). The recogniser itself is not modelled: its
 * response is the sequence of top-alternative strings, one per result.
 *
 * The robot emoji that opens both the prefix and the sentinel is the single
 * code point U+1F916, so the prefix is 13 characters long.
 */
module Transcript {
  import opened Text

  /** The marker every transcript starts with. */
  const Prefix: string := "\U{1F916} Transcript:"
  /** The sentinel that replaces a transcript that is too short. */
  const NoSpeech: string := "\U{1F916} No speech detected"
  /** Joined texts shorter than this are replaced by `NoSpeech`. */
  const MinLength: nat := 15

  /** Each result preceded by one space, in order. */
  function Spaced(results: seq<string>): string
  {
    if results == [] then "" else " " + results[0] + Spaced(results[1..])
  }

  /** The sum of the lengths of the results. */
  function TotalLength(results: seq<string>): nat
  {
    if results == [] then 0 else |results[0]| + TotalLength(results[1..])
  }

  /** What `get_transcript` returns for the recogniser's results. */
  function TranscriptOf(results: seq<string>): (r: string)
    ensures r == NoSpeech || |r| >= MinLength
  {
    Assemble(Prefix, NoSpeech, results)
  }

  /** The join-then-threshold step, for any head and sentinel. */
  function Assemble(head: string, sentinel: string, results: seq<string>): (r: string)
    ensures r == sentinel || |r| >= MinLength
  {
    var joined := Join([head] + results, " ");
    if |joined| < MinLength then sentinel else joined
  }

  /** Joining a head and the results with single spaces puts one space before each result. */
  lemma {:induction false} JoinSpaced(head: string, results: seq<string>)
    ensures Join([head] + results, " ") == head + Spaced(results)
    decreases |results|
  {
    if results != [] {
      var parts := [head] + results;
      assert parts[1..] == results;
      assert results == [results[0]] + results[1..];
      JoinSpaced(results[0], results[1..]);
      assert Join(results, " ") == results[0] + Spaced(results[1..]);
    }
  }

  /** Every result contributes its own characters and one space. */
  lemma {:induction false} SpacedLength(results: seq<string>)
    ensures |Spaced(results)| == |results| + TotalLength(results)
    decreases |results|
  {
    if results != [] {
      SpacedLength(results[1..]);
    }
  }

  /**
   * With a head and a sentinel that differ in their third character and a
   * sentinel long enough to be kept, the result is the sentinel or the
   * head followed by the spaced results, and it is the latter exactly when
   * that text reaches the threshold.
   */
  lemma AssembleShape(head: string, sentinel: string, results: seq<string>)
    requires |head| >= 3 && |sentinel| >= MinLength && head[2] != sentinel[2]
    ensures Assemble(head, sentinel, results) == sentinel
         || Assemble(head, sentinel, results) == head + Spaced(results)
    ensures Assemble(head, sentinel, results) == head + Spaced(results)
        <==> |head| + |results| + TotalLength(results) >= MinLength
    ensures Assemble(head, sentinel, results) == sentinel
        <==> |head| + |results| + TotalLength(results) < MinLength
  {
    var joined := Join([head] + results, " ");
    JoinSpaced(head, results);
    SpacedLength(results);
    if |joined| >= MinLength {
      assert joined[2] == head[2];
      assert joined != sentinel;
    }
  }

  /** The facts about the two constants that the threshold relies on. */
  lemma MarkerFacts()
    ensures |Prefix| == 13 && |NoSpeech| == 20
    ensures Prefix[2] == 'T' && NoSpeech[2] == 'N'
  {
  }

  /** The transcript is the sentinel or the prefix followed by the spaced results. */
  lemma TranscriptShape(results: seq<string>)
    ensures TranscriptOf(results) == NoSpeech
         || TranscriptOf(results) == Prefix + Spaced(results)
    ensures TranscriptOf(results) == Prefix + Spaced(results)
        <==> 13 + |results| + TotalLength(results) >= MinLength
    ensures TranscriptOf(results) == NoSpeech
        <==> 13 + |results| + TotalLength(results) < MinLength
  {
    MarkerFacts();
    AssembleShape(Prefix, NoSpeech, results);
  }

  /**
   * The sentinel appears exactly when there are no results or a single
   * empty one: the prefix is 13 characters, so any other input reaches 15.
   */
  lemma NoSpeechIff(results: seq<string>)
    ensures TranscriptOf(results) == NoSpeech <==> results == [] || results == [""]
    ensures TranscriptOf(results) != NoSpeech ==> TranscriptOf(results) == Prefix + Spaced(results)
  {
    TranscriptShape(results);
    if |results| == 1 {
      assert TotalLength(results) == |results[0]|;
      assert results[0] == "" <==> results == [""];
    }
  }

  /** With no results the transcript is the sentinel. */
  lemma NoResults()
    ensures TranscriptOf([]) == NoSpeech
  {
    NoSpeechIff([]);
  }

  /** A single empty result joins to 14 characters and is replaced. */
  lemma OneEmptyResult()
    ensures TranscriptOf([""]) == NoSpeech
  {
    NoSpeechIff([""]);
  }

  /** A single one-character result joins to exactly 15 characters and is kept. */
  lemma OneCharResultKept(c: char)
    ensures TranscriptOf([[c]]) == Prefix + " " + [c]
  {
    NoSpeechIff([[c]]);
    assert Spaced([[c]]) == " " + [c];
  }

  /**
   * `get_transcript` after the recognition call: a list starting with the
   * prefix gets each result appended, is joined with single spaces and is
   * replaced by the sentinel when shorter than 15 characters.
   */
  method GetTranscript(results: seq<string>) returns (res: string)
    ensures res == TranscriptOf(results)
    ensures res == NoSpeech <==> results == [] || results == [""]
    ensures res != NoSpeech ==> res == Prefix + Spaced(results)
  {
    var transcript := [Prefix];
    var i := 0;
    while i < |results|
      invariant 0 <= i <= |results|
      invariant transcript == [Prefix] + results[..i]
    {
      transcript := transcript + [results[i]];
      i := i + 1;
    }
    assert results[..i] == results;
    res := Join(transcript, " ");
    if |res| < MinLength {
      res := NoSpeech;
    }
    NoSpeechIff(results);
  }
}
