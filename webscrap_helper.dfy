/** Text cleaning used while scraping (src/webscrap_helper.py): clean_text and the
    normalisation applied to each song title. */
module WebscrapHelper {
  import opened Strings

  // ---------------------------------------------------------------------------
  // clean_text

  /** text.encode('ascii', 'ignore').decode('ascii'): the non-ASCII characters are deleted. */
  function CleanText(text: string): (r: string)
    ensures AllChars(r, IsAscii)
    ensures |r| <= |text|
  {
    Keep(text, IsAscii)
  }

  /** Deletion works character by character: cleaning distributes over concatenation... */
  lemma CleanTextConcat(a: string, b: string)
    ensures CleanText(a + b) == CleanText(a) + CleanText(b)
  {
    KeepConcat(a, b, IsAscii);
  }

  /** ... and keeps exactly the ASCII characters, in order. */
  lemma {:induction false} CleanTextKeepsAscii(s: string)
    ensures |CleanText(s)| == |s| - |Keep(s, IsNonAscii)|
    ensures Subsequence(CleanText(s), s)
    decreases |s|
  {
    if s != [] {
      CleanTextKeepsAscii(s[1..]);
      var rest := CleanText(s[1..]);
      if IsAscii(s[0]) {
        assert CleanText(s) == [s[0]] + rest;
        assert ([s[0]] + rest)[1..] == rest;
      } else {
        assert CleanText(s) == rest;
      }
    }
  }

  /** ASCII text is returned unchanged. */
  lemma CleanTextOfAscii(s: string)
    requires AllChars(s, IsAscii)
    ensures CleanText(s) == s
  {
    KeepAll(s, IsAscii);
  }

  lemma CleanTextIdempotent(s: string)
    ensures CleanText(CleanText(s)) == CleanText(s)
  {
    CleanTextOfAscii(CleanText(s));
  }

  // ---------------------------------------------------------------------------
  // Title normalisation (the loop over quote_chars, then ',' to '.', then clean_text)

  /** quote_chars: '"', eleven typographic quotes and the dagger U+2020; all but '"' are non-ASCII. */
  const QuoteChars: seq<char> := [
    '"', '\U{201C}', '\U{201D}', '\U{201E}', '\U{201F}', '\U{275D}', '\U{275E}',
    '\U{276E}', '\U{276F}', '\U{301D}', '\U{301E}', '\U{301F}', '\U{2020}'
  ]

  function DotForComma(c: char): char {
    if c == ',' then '.' else c
  }

  /** Characters a normalised title keeps: ASCII other than '"'. */
  predicate IsTitleChar(c: char) {
    IsAscii(c) && c != '"'
  }

  /** Reference definition, one character at a time: keep the title characters, mapping
      ',' to '.'. */
  function TitleReference(title: string): (r: string)
    ensures |r| <= |title|
    ensures forall i :: 0 <= i < |r| ==> IsAscii(r[i]) && r[i] !in QuoteChars && r[i] != ','
    decreases |title|
  {
    if title == [] then []
    else (if IsTitleChar(title[0]) then [DotForComma(title[0])] else []) + TitleReference(title[1..])
  }

  /** Position by position, the reference is the kept title characters with ',' as '.'. */
  lemma {:induction false} TitleReferenceAt(title: string)
    ensures |TitleReference(title)| == |Keep(title, IsTitleChar)|
    ensures forall i :: 0 <= i < |TitleReference(title)| ==>
      TitleReference(title)[i] == DotForComma(Keep(title, IsTitleChar)[i])
    decreases |title|
  {
    if title != [] {
      TitleReferenceAt(title[1..]);
    }
  }

  /** The three rewrites on a single character. */
  lemma TitleRewritesOneChar(c: char)
    ensures CleanText(ReplaceAll(Keep([c], NotIn(QuoteChars)), ",", "."))
         == if IsTitleChar(c) then [DotForComma(c)] else []
  {
    if c in QuoteChars {
      assert Keep([c], NotIn(QuoteChars)) == [];
    } else {
      assert Keep([c], NotIn(QuoteChars)) == [c];
      assert [c][..1] == [c];
      assert ReplaceAll([c], ",", ".") == [DotForComma(c)];
    }
  }

  /** The three rewrites, in the source's order, agree with the reference. */
  lemma {:induction false} TitleRewritesMatchReference(title: string)
    ensures CleanText(ReplaceAll(Keep(title, NotIn(QuoteChars)), ",", ".")) == TitleReference(title)
    decreases |title|
  {
    if title != [] {
      var head := Keep([title[0]], NotIn(QuoteChars));
      var rest := Keep(title[1..], NotIn(QuoteChars));
      assert title == [title[0]] + title[1..];
      KeepConcat([title[0]], title[1..], NotIn(QuoteChars));
      ReplaceCharConcat(head, rest, ',', ".");
      CleanTextConcat(ReplaceAll(head, ",", "."), ReplaceAll(rest, ",", "."));
      TitleRewritesOneChar(title[0]);
      TitleRewritesMatchReference(title[1..]);
    }
  }

  lemma QuoteStep(title: string, t: string, q: nat)
    requires q < |QuoteChars| && t == Keep(title, NotIn(QuoteChars[..q]))
    ensures ReplaceAll(t, [QuoteChars[q]], "") == Keep(title, NotIn(QuoteChars[..q + 1]))
  {
    ReplaceCharByNothing(t, QuoteChars[q]);
    KeepNotInTwice(title, QuoteChars[..q], [QuoteChars[q]]);
    assert QuoteChars[..q] + [QuoteChars[q]] == QuoteChars[..q + 1];
  }

  /** The normalisation of one title: each quote character deleted in turn, ',' replaced
      by '.', then clean_text. */
  method NormaliseTitle(title: string) returns (r: string)
    ensures r == TitleReference(title)
  {
    var t := title;
    KeepAll(title, NotIn([]));
    var q := 0;
    while q < |QuoteChars|
      invariant 0 <= q <= |QuoteChars|
      invariant t == Keep(title, NotIn(QuoteChars[..q]))
    {
      QuoteStep(title, t, q);
      t := ReplaceAll(t, [QuoteChars[q]], "");
      q := q + 1;
    }
    assert QuoteChars[..q] == QuoteChars;
    t := ReplaceAll(t, ",", ".");
    r := CleanText(t);
    TitleRewritesMatchReference(title);
  }
}
