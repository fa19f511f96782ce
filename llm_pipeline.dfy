/** Loading the lyrics corpus into the question-answering pipeline (LLM_pipeline.py). */
module LlmPipeline {
  import opened Strings

  /** The rewrite load_data applies to each value: '\n' becomes ' ', then every
      bracketed span is deleted together with its brackets. */
  function StripAnnotations(lyrics: string): string {
    SubBracketed(ReplaceAll(lyrics, "\n", " "), "")
  }

  /** No value keeps a newline. */
  lemma StripAnnotationsNoNewline(lyrics: string)
    ensures '\n' !in StripAnnotations(lyrics)
  {
    NewlinesJoined(lyrics);
    SubBracketedChars(ReplaceAll(lyrics, "\n", " "), "");
    CharsFromAvoids(StripAnnotations(lyrics), ReplaceAll(lyrics, "\n", " "), "", '\n');
  }

  /** No value keeps a '[' with a ']' after it. */
  lemma StripAnnotationsNoBracketPair(lyrics: string)
    ensures NoBracketPair(StripAnnotations(lyrics))
  {
    NewlinesJoined(lyrics);
    SubBracketedClosesAll(ReplaceAll(lyrics, "\n", " "), "");
  }

  /** A bracketed span goes with its brackets, also when it runs over line breaks: the
      text before it only has its newlines joined, and the text after it is rewritten in
      turn. */
  lemma StripAnnotationsSpan(p: string, m: string, q: string)
    requires '[' !in p && ']' !in m
    ensures StripAnnotations(p + "[" + m + "]" + q) == ReplaceAll(p, "\n", " ") + StripAnnotations(q)
  {
    var jp, jm, jq := ReplaceAll(p, "\n", " "), ReplaceAll(m, "\n", " "), ReplaceAll(q, "\n", " ");
    JoinedSpan(p, m, q);
    JoinedAvoids(p, '[');
    JoinedAvoids(m, ']');
    NewlinesJoined(m);
    SubBracketedSpan(jp, jm, jq, "");
    assert jp + "" == jp;
  }

  /** On a single line only the bracket rewrite acts. */
  lemma StripAnnotationsOfLine(s: string)
    requires '\n' !in s
    ensures StripAnnotations(s) == SubBracketed(s, "")
  {
    NoNewlineUnjoined(s);
  }

  lemma NoNewlineUnjoined(s: string)
    requires '\n' !in s
    ensures ReplaceAll(s, "\n", " ") == s
  {
    forall k | 0 <= k <= |s| - 1 ensures !IsPrefix("\n", s[k..]) {
      assert s[k..][0] == s[k];
    }
    ReplaceAllAbsent(s, "\n", " ");
  }

  /** A value with neither '\n' nor '[' is left as it is. */
  lemma StripAnnotationsUnchanged(lyrics: string)
    requires '\n' !in lyrics && '[' !in lyrics
    ensures StripAnnotations(lyrics) == lyrics
  {
    NoNewlineUnjoined(lyrics);
    SubBracketedNoOpen(lyrics, "");
  }

  /** No value grows. */
  lemma StripAnnotationsShorter(lyrics: string)
    ensures |StripAnnotations(lyrics)| <= |lyrics|
  {
    SubBracketedShorter(ReplaceAll(lyrics, "\n", " "), "");
  }

  /** NLP_pipeline: only the lyrics store is modelled. */
  class NlpPipeline {
    /** self.data: song title to lyrics. */
    var data: map<string, string>

    /** load_data, given the dictionary already read from the JSON file: every value is
        rewritten in place, the keys stay. */
    method LoadData(loaded: map<string, string>)
      modifies this
      ensures data.Keys == loaded.Keys
      ensures forall k :: k in data ==> data[k] == StripAnnotations(loaded[k])
    {
      data := loaded;
      var pending := loaded.Keys;
      while pending != {}
        invariant pending <= loaded.Keys
        invariant data.Keys == loaded.Keys
        invariant forall k :: k in pending ==> data[k] == loaded[k]
        invariant forall k :: k in loaded && k !in pending ==> data[k] == StripAnnotations(loaded[k])
        decreases pending
      {
        var songName :| songName in pending;
        var lyrics := data[songName];
        data := data[songName := ReplaceAll(lyrics, "\n", " ")];
        data := data[songName := SubBracketed(data[songName], "")];
        pending := pending - {songName};
      }
    }
  }
}
