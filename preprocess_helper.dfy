/** Lyrics clean-up and removal of duplicate song pages (src/preprocess_helper.py). */
module PreprocessHelper {
  import opened Strings

  // ---------------------------------------------------------------------------
  // clean_up_lyrics

  /** Characters that survive the class [^\w\s\.,] being deleted. */
  predicate IsRetained(c: char) {
    IsWordChar(c) || IsSpace(c) || c == '.' || c == ','
  }

  /** The alphabet of cleaned lyrics. */
  predicate IsOutputChar(c: char) {
    IsWordChar(c) || c == ' ' || c == '.' || c == ','
  }

  predicate NoDoubleSpace(s: string) {
    forall i :: 0 <= i < |s| - 1 ==> !(s[i] == ' ' && s[i + 1] == ' ')
  }

  /** No leading or trailing whitespace. */
  predicate NoEdgeSpace(s: string) {
    s != [] ==> !IsSpace(s[0]) && !IsSpace(s[|s| - 1])
  }

  /** The rewrites of clean_up_lyrics up to and including the final strip(). */
  function TrimmedLyrics(lyrics: string): string {
    var joined := ReplaceAll(lyrics, "\n", " ");
    var unbracketed := SubBracketed(joined, ".");
    var ascii := CollapseRuns(unbracketed, IsNonAscii, ' ');
    var retained := Keep(ascii, IsRetained);
    var spaced := CollapseRuns(retained, IsSpace, ' ');
    var undotted := Strip(spaced, IsDot);
    Strip(undotted, IsSpace)
  }

  /** clean_up_lyrics: the whole chain, ending with " . " replaced by ". ". */
  function CleanUpLyrics(lyrics: string): string {
    ReplaceAll(TrimmedLyrics(lyrics), " . ", ". ")
  }

  /** Collapsing whitespace runs of retained text leaves the output alphabet, singly spaced. */
  lemma CollapsedSpacesShape(retained: string)
    requires AllChars(retained, IsRetained)
    ensures AllChars(CollapseRuns(retained, IsSpace, ' '), IsOutputChar)
    ensures NoDoubleSpace(CollapseRuns(retained, IsSpace, ' '))
  {
    var spaced := CollapseRuns(retained, IsSpace, ' ');
    CollapseRunsChars(retained, IsSpace, ' ');
    forall i | 0 <= i < |spaced| ensures IsOutputChar(spaced[i]) {
      if spaced[i] != ' ' {
        assert spaced[i] in retained && !IsSpace(spaced[i]);
        var j :| 0 <= j < |retained| && retained[j] == spaced[i];
        assert IsRetained(retained[j]);
      }
    }
  }

  /** Stripping cuts out a slice, which keeps the alphabet and the single spacing. */
  lemma StripShape(s: string, drop: char -> bool)
    requires AllChars(s, IsOutputChar) && NoDoubleSpace(s)
    ensures AllChars(Strip(s, drop), IsOutputChar) && NoDoubleSpace(Strip(s, drop))
  {
    SliceShape(s, Strip(s, drop), StripOffset(s, drop));
  }

  lemma SliceShape(s: string, t: string, a: nat)
    requires a + |t| <= |s| && t == s[a..a + |t|]
    requires AllChars(s, IsOutputChar) && NoDoubleSpace(s)
    ensures AllChars(t, IsOutputChar) && NoDoubleSpace(t)
  {
    assert forall k :: 0 <= k < |t| ==> t[k] == s[a + k];
  }

  /** What holds before the last rewrite: alphabet, single spaces, trimmed, not longer. */
  lemma TrimmedLyricsShape(lyrics: string)
    ensures AllChars(TrimmedLyrics(lyrics), IsOutputChar)
    ensures NoDoubleSpace(TrimmedLyrics(lyrics)) && NoEdgeSpace(TrimmedLyrics(lyrics))
    ensures |TrimmedLyrics(lyrics)| <= |lyrics|
  {
    var joined := ReplaceAll(lyrics, "\n", " ");
    var unbracketed := SubBracketed(joined, ".");
    SubBracketedShorter(joined, ".");
    var ascii := CollapseRuns(unbracketed, IsNonAscii, ' ');
    var retained := Keep(ascii, IsRetained);
    var spaced := CollapseRuns(retained, IsSpace, ' ');
    CollapsedSpacesShape(retained);
    var undotted := Strip(spaced, IsDot);
    StripShape(spaced, IsDot);
    StripShape(undotted, IsSpace);
  }

  /** Replacing " . " by ". " keeps single spacing and the first and last characters. */
  lemma {:induction false} SpacedDotRewrite(s: string)
    requires NoDoubleSpace(s)
    ensures NoDoubleSpace(ReplaceAll(s, " . ", ". "))
    ensures s != [] && s[0] != ' ' ==>
      ReplaceAll(s, " . ", ". ") != [] && ReplaceAll(s, " . ", ". ")[0] == s[0]
    ensures s != [] && s[|s| - 1] != ' ' ==>
      var r := ReplaceAll(s, " . ", ". "); r != [] && r[|r| - 1] == s[|s| - 1]
    decreases |s|
  {
    var r := ReplaceAll(s, " . ", ". ");
    if |s| >= 3 {
      var t := if s[..3] == " . " then s[3..] else s[1..];
      assert NoDoubleSpace(t) by {
        assert forall i :: 0 <= i < |t| ==> t[i] == s[|s| - |t| + i];
      }
      SpacedDotRewrite(t);
      var rt := ReplaceAll(t, " . ", ". ");
      if s[..3] == " . " {
        assert s[2] == ' ';
        assert r == ". " + rt;
        if t != [] {
          assert t[0] == s[3] && s[3] != ' ';
          assert rt[0] == t[0];
        }
      } else {
        assert r == [s[0]] + rt;
        if s[0] == ' ' {
          assert t[0] == s[1] && s[1] != ' ';
        }
      }
    }
  }

  /** After the bracket rewrite of clean_up_lyrics no '[' has a ']' anywhere after it. */
  lemma BracketRewriteClosesAll(lyrics: string)
    ensures NoBracketPair(SubBracketed(ReplaceAll(lyrics, "\n", " "), "."))
  {
    NewlinesJoined(lyrics);
    SubBracketedClosesAll(ReplaceAll(lyrics, "\n", " "), ".");
  }

  /** Every character of the cleaned lyrics is an ASCII letter or digit, '_', ' ', '.' or ','. */
  lemma CleanUpLyricsAlphabet(lyrics: string)
    ensures AllChars(CleanUpLyrics(lyrics), IsOutputChar)
  {
    TrimmedLyricsShape(lyrics);
    SpacedDotAlphabet(TrimmedLyrics(lyrics));
  }

  lemma SpacedDotAlphabet(t: string)
    requires AllChars(t, IsOutputChar)
    ensures AllChars(ReplaceAll(t, " . ", ". "), IsOutputChar)
  {
    var r := ReplaceAll(t, " . ", ". ");
    ReplaceAllChars(t, " . ", ". ");
    forall i | 0 <= i < |r| ensures IsOutputChar(r[i]) {
      if r[i] in t {
        var j :| 0 <= j < |t| && t[j] == r[i];
      } else {
        assert r[i] in ". ";
        assert r[i] == '.' || r[i] == ' ';
      }
    }
  }

  /** The only whitespace left is ' ', and never two of them in a row. */
  lemma CleanUpLyricsSpacing(lyrics: string)
    ensures forall i :: 0 <= i < |CleanUpLyrics(lyrics)| && IsSpace(CleanUpLyrics(lyrics)[i]) ==>
      CleanUpLyrics(lyrics)[i] == ' '
    ensures NoDoubleSpace(CleanUpLyrics(lyrics))
  {
    CleanUpLyricsAlphabet(lyrics);
    OnlyBlankSpace(CleanUpLyrics(lyrics));
    TrimmedLyricsShape(lyrics);
    SpacedDotRewrite(TrimmedLyrics(lyrics));
  }

  lemma OnlyBlankSpace(r: string)
    requires AllChars(r, IsOutputChar)
    ensures forall i :: 0 <= i < |r| && IsSpace(r[i]) ==> r[i] == ' '
  {
    forall i | 0 <= i < |r| && IsSpace(r[i]) ensures r[i] == ' ' {
      assert IsOutputChar(r[i]);
    }
  }

  /** No leading or trailing whitespace. */
  lemma CleanUpLyricsTrimmed(lyrics: string)
    ensures NoEdgeSpace(CleanUpLyrics(lyrics))
  {
    TrimmedLyricsShape(lyrics);
    SpacedDotRewrite(TrimmedLyrics(lyrics));
  }

  /** Every rewrite replaces a match by something no longer. */
  lemma CleanUpLyricsShorter(lyrics: string)
    ensures |CleanUpLyrics(lyrics)| <= |lyrics|
  {
    TrimmedLyricsShape(lyrics);
  }

  /** Text that is already clean: word characters and commas in single-space-separated
      groups, with no space at either end. */
  predicate IsPlainText(s: string) {
    && AllChars(s, c => IsWordChar(c) || c == ',' || c == ' ')
    && NoDoubleSpace(s)
    && NoEdgeSpace(s)
  }

  /** What plain text lacks: newlines, brackets, non-ASCII, special characters, dots,
      runs of whitespace and whitespace at the ends. */
  lemma PlainTextFacts(s: string)
    requires IsPlainText(s)
    ensures !IsSubstring("\n", s) && !IsSubstring(" . ", s)
    ensures '[' !in s && AllChars(s, IsRetained)
    ensures forall i :: 0 <= i < |s| ==> !IsNonAscii(s[i])
    ensures forall i :: 0 <= i < |s| && IsSpace(s[i]) ==> s[i] == ' ' && (i + 1 < |s| ==> !IsSpace(s[i + 1]))
    ensures s != [] ==> !IsDot(s[0]) && !IsDot(s[|s| - 1]) && !IsSpace(s[0]) && !IsSpace(s[|s| - 1])
  {
    forall k | 0 <= k <= |s| - 1 ensures !IsPrefix("\n", s[k..]) {
      assert s[k..][0] == s[k];
    }
    forall k | 0 <= k <= |s| - 3 ensures !IsPrefix(" . ", s[k..]) {
      assert s[k..][1] == s[k + 1];
    }
  }

  /** Text that is already clean passes through every rewrite unchanged. */
  lemma CleanUpLyricsKeepsPlainText(s: string)
    requires IsPlainText(s)
    ensures CleanUpLyrics(s) == s
  {
    PlainTextFacts(s);
    ReplaceAllAbsent(s, "\n", " ");
    SubBracketedNoOpen(s, ".");
    CollapseRunsNoRuns(s, IsNonAscii, ' ');
    KeepAll(s, IsRetained);
    CollapseRunsNoRuns(s, IsSpace, ' ');
    StripKeepsClean(s, IsDot);
    StripKeepsClean(s, IsSpace);
    assert TrimmedLyrics(s) == s;
    ReplaceAllAbsent(s, " . ", ". ");
  }

  // ---------------------------------------------------------------------------
  // remove_duplicate_songs

  /** A row of the scraped frame: page url and raw lyrics. */
  datatype Row = Row(url: string, lyrics: string)

  /** A row after the song_names column has been added. */
  datatype SongRow = SongRow(url: string, lyrics: string, songName: string)

  /** The outcome: iloc[0] on an empty frame raises IndexError. */
  datatype DedupResult = IndexError | Deduplicated(rows: seq<SongRow>)

  /** The argument of str.contains; it is a regular expression, so its '.' is a wildcard. */
  const BandUrlPattern: string := "https://genius.com/Green-day"

  /** The literal prefix removed by str.replace(..., regex=False). */
  const BandPrefix: string := "https://genius.com/Green-day-"

  predicate IsBandUrl(url: string) {
    RegexSearch(BandUrlPattern, url)
  }

  /** df[df['url'].str.contains(...)]: the rows whose url matches, in order. */
  function BandRows(df: seq<Row>): (r: seq<Row>)
    ensures forall x :: x in r <==> x in df && IsBandUrl(x.url)
    ensures |r| <= |df|
  {
    if df == [] then []
    else (if IsBandUrl(df[0].url) then [df[0]] else []) + BandRows(df[1..])
  }

  /** The filter keeps the matching rows in their original order. */
  lemma {:induction false} BandRowsSubsequence(df: seq<Row>)
    ensures Subsequence(BandRows(df), df)
    decreases |df|
  {
    if df != [] {
      BandRowsSubsequence(df[1..]);
      var rest := BandRows(df[1..]);
      if IsBandUrl(df[0].url) {
        var a := [df[0]] + rest;
        assert BandRows(df) == a && a[0] == df[0] && a[1..] == rest;
      } else {
        assert BandRows(df) == rest;
      }
    }
  }

  /** The filter acts row by row. */
  lemma {:induction false} BandRowsConcat(a: seq<Row>, b: seq<Row>)
    ensures BandRows(a + b) == BandRows(a) + BandRows(b)
    decreases |a|
  {
    if a == [] {
      assert a + b == b;
    } else {
      assert (a + b)[0] == a[0] && (a + b)[1..] == a[1..] + b;
      BandRowsConcat(a[1..], b);
    }
  }

  /** The song_names column: the url with the band prefix, "-lyrics", "-annotated" and
      "-demo" deleted, in that order. */
  function SongName(url: string): (r: string)
    ensures |r| <= |url|
  {
    var noPrefix := ReplaceAll(url, BandPrefix, "");
    var noLyrics := ReplaceAll(noPrefix, "-lyrics", "");
    var noAnnotated := ReplaceAll(noLyrics, "-annotated", "");
    ReplaceAll(noAnnotated, "-demo", "")
  }

  /** The frame with the song_names column added. */
  function WithSongNames(rows: seq<Row>): (r: seq<SongRow>)
    ensures |r| == |rows|
  {
    if rows == [] then []
    else [SongRow(rows[0].url, rows[0].lyrics, SongName(rows[0].url))] + WithSongNames(rows[1..])
  }

  /** row_to_keep after the loop has looked at rows 0..i: the name of the row last kept. */
  function LastKept(rows: seq<SongRow>, i: nat): string
    requires i < |rows|
  {
    if i == 0 then rows[0].songName
    else
      var prev := LastKept(rows, i - 1);
      if IsSubstring(prev, rows[i].songName) then prev else rows[i].songName
  }

  /** Row i is put on to_remove: the last kept name occurs in its name. */
  predicate Dropped(rows: seq<SongRow>, i: nat) {
    0 < i < |rows| && IsSubstring(LastKept(rows, i - 1), rows[i].songName)
  }

  /** The rows from index j on that are not dropped, in order. */
  function Survivors(rows: seq<SongRow>, j: nat): (r: seq<SongRow>)
    requires j <= |rows|
    ensures |r| <= |rows| - j
    ensures forall x :: x in r ==> x in rows[j..]
    decreases |rows| - j
  {
    if j == |rows| then []
    else
      assert forall x :: x in rows[j + 1..] ==> x in rows[j..];
      (if Dropped(rows, j) then [] else [rows[j]]) + Survivors(rows, j + 1)
  }

  /** df[~df.index.isin(to_remove)]: the rows from index j on whose index is not listed. */
  function DropIndices(rows: seq<SongRow>, toRemove: seq<nat>, j: nat): (r: seq<SongRow>)
    requires j <= |rows|
    ensures |r| <= |rows| - j
    decreases |rows| - j
  {
    if j == |rows| then []
    else (if j in toRemove then [] else [rows[j]]) + DropIndices(rows, toRemove, j + 1)
  }

  lemma {:induction false} DropIndicesAreSurvivors(rows: seq<SongRow>, toRemove: seq<nat>, j: nat)
    requires j <= |rows|
    requires forall m :: j <= m < |rows| ==> (m in toRemove <==> Dropped(rows, m))
    ensures DropIndices(rows, toRemove, j) == Survivors(rows, j)
    decreases |rows| - j
  {
    if j < |rows| {
      DropIndicesAreSurvivors(rows, toRemove, j + 1);
      var head := if Dropped(rows, j) then [] else [rows[j]];
      assert DropIndices(rows, toRemove, j) == head + DropIndices(rows, toRemove, j + 1);
      assert Survivors(rows, j) == head + Survivors(rows, j + 1);
    }
  }

  /** One step of the walk over the rows. */
  lemma DroppedStep(rows: seq<SongRow>, i: nat)
    requires i + 1 < |rows|
    ensures Dropped(rows, i + 1) <==> IsSubstring(LastKept(rows, i), rows[i + 1].songName)
    ensures LastKept(rows, i + 1) == if Dropped(rows, i + 1) then LastKept(rows, i) else rows[i + 1].songName
  {
  }

  /** Row i of the named frame is row i of the frame, named after its url. */
  lemma {:induction false} WithSongNamesAt(rows: seq<Row>, i: nat)
    requires i < |rows|
    ensures WithSongNames(rows)[i] == SongRow(rows[i].url, rows[i].lyrics, SongName(rows[i].url))
    decreases i
  {
    if i > 0 {
      WithSongNamesAt(rows[1..], i - 1);
    }
  }

  /** Every named row is a band page named after its url. */
  lemma NamedBandRows(df: seq<Row>)
    ensures forall x :: x in Survivors(WithSongNames(BandRows(df)), 0) ==>
      IsBandUrl(x.url) && x.songName == SongName(x.url)
  {
    var band := BandRows(df);
    var rows := WithSongNames(band);
    forall x | x in Survivors(rows, 0) ensures IsBandUrl(x.url) && x.songName == SongName(x.url) {
      assert x in rows[0..];
      var m :| 0 <= m < |rows| && rows[m] == x;
      WithSongNamesAt(band, m);
      assert band[m] in band;
    }
  }

  /** remove_duplicate_songs: keep the band's pages, name them, and drop every row whose
      name contains the name of the row last kept. */
  method RemoveDuplicateSongs(df: seq<Row>) returns (res: DedupResult)
    ensures res.IndexError? <==> BandRows(df) == []
    ensures res.Deduplicated? ==> res.rows == Survivors(WithSongNames(BandRows(df)), 0)
    ensures res.Deduplicated? ==> res.rows != [] && res.rows[0] == WithSongNames(BandRows(df))[0]
    ensures res.Deduplicated? ==> forall k :: 0 <= k < |res.rows| ==>
      IsBandUrl(res.rows[k].url) && res.rows[k].songName == SongName(res.rows[k].url)
  {
    var rows := WithSongNames(BandRows(df));
    if |rows| == 0 {
      return IndexError;
    }
    var toRemove: seq<nat> := [];
    var rowToKeep := rows[0].songName;
    var i := 0;
    while i < |rows| - 1
      invariant 0 <= i < |rows|
      invariant rowToKeep == LastKept(rows, i)
      invariant forall m :: 0 <= m < |rows| ==> (m in toRemove <==> m <= i && Dropped(rows, m))
    {
      DroppedStep(rows, i);
      if IsSubstring(rowToKeep, rows[i + 1].songName) {
        toRemove := toRemove + [i + 1];
      } else {
        rowToKeep := rows[i + 1].songName;
      }
      i := i + 1;
    }
    DropIndicesAreSurvivors(rows, toRemove, 0);
    NamedBandRows(df);
    res := Deduplicated(DropIndices(rows, toRemove, 0));
  }

  /** The output is an order-preserving subsequence of the band's rows. */
  lemma {:induction false} SurvivorsSubsequence(rows: seq<SongRow>, j: nat)
    requires j <= |rows|
    ensures Subsequence(Survivors(rows, j), rows[j..])
    decreases |rows| - j
  {
    if j < |rows| {
      SurvivorsSubsequence(rows, j + 1);
      var b := rows[j..];
      assert b[1..] == rows[j + 1..];
      var rest := Survivors(rows, j + 1);
      if Dropped(rows, j) {
        assert Survivors(rows, j) == rest;
        assert Subsequence(rest, b[1..]);
      } else {
        var a := [rows[j]] + rest;
        assert Survivors(rows, j) == a;
        assert a[0] == b[0] && a[1..] == rest;
        assert Subsequence(a[1..], b[1..]);
      }
    }
  }

  /** LastKept really is the name of the most recent surviving row. */
  lemma {:induction false} LastKeptIsLatestSurvivor(rows: seq<SongRow>, i: nat)
    requires i < |rows|
    ensures exists j :: && 0 <= j <= i && !Dropped(rows, j) && LastKept(rows, i) == rows[j].songName
                        && forall m :: j < m <= i ==> Dropped(rows, m)
  {
    if i == 0 {
      assert !Dropped(rows, 0);
    } else if Dropped(rows, i) {
      LastKeptIsLatestSurvivor(rows, i - 1);
      var j :| && 0 <= j <= i - 1 && !Dropped(rows, j) && LastKept(rows, i - 1) == rows[j].songName
               && forall m :: j < m <= i - 1 ==> Dropped(rows, m);
      LastKeptOfDropped(rows, i);
      assert forall m :: j < m <= i ==> Dropped(rows, m);
    } else {
      assert LastKept(rows, i) == rows[i].songName;
    }
  }

  lemma LastKeptOfDropped(rows: seq<SongRow>, i: nat)
    requires 0 < i < |rows| && Dropped(rows, i)
    ensures LastKept(rows, i) == LastKept(rows, i - 1)
  {
  }

  /** While the rows after a kept row a are dropped, LastKept stays a's name. */
  lemma {:induction false} LastKeptStays(rows: seq<SongRow>, a: nat, i: nat)
    requires a <= i < |rows| && !Dropped(rows, a)
    requires forall m :: a < m <= i ==> Dropped(rows, m)
    ensures LastKept(rows, i) == rows[a].songName
    decreases i
  {
    if i > a {
      LastKeptStays(rows, a, i - 1);
      assert Dropped(rows, i);
    }
  }

  /** The first survivor from j on does not contain the name of the kept row a before it. */
  lemma {:induction false} NextSurvivorDiffers(rows: seq<SongRow>, a: nat, j: nat)
    requires a < j <= |rows| && !Dropped(rows, a)
    requires forall m :: a < m < j ==> Dropped(rows, m)
    ensures Survivors(rows, j) != [] ==>
      !IsSubstring(rows[a].songName, Survivors(rows, j)[0].songName)
    decreases |rows| - j
  {
    if j < |rows| {
      LastKeptStays(rows, a, j - 1);
      if Dropped(rows, j) {
        NextSurvivorDiffers(rows, a, j + 1);
      }
    }
  }

  /** Row i+1 is dropped exactly when the name of the most recent row kept up to i occurs
      in its name; otherwise it is kept and its name is the one compared from then on. */
  lemma DroppedByLatestSurvivor(rows: seq<SongRow>, j: nat, i: nat)
    requires j <= i && i + 1 < |rows| && !Dropped(rows, j)
    requires forall m :: j < m <= i ==> Dropped(rows, m)
    ensures Dropped(rows, i + 1) <==> IsSubstring(rows[j].songName, rows[i + 1].songName)
    ensures !Dropped(rows, i + 1) ==> LastKept(rows, i + 1) == rows[i + 1].songName
  {
    LastKeptStays(rows, j, i);
  }

  /** Of two consecutive output rows, the earlier name never occurs in the later one. */
  lemma {:induction false} SurvivorsAdjacentDistinct(rows: seq<SongRow>, j: nat)
    requires j <= |rows|
    ensures var r := Survivors(rows, j);
      forall k :: 0 <= k < |r| - 1 ==> !IsSubstring(r[k].songName, r[k + 1].songName)
    decreases |rows| - j
  {
    if j < |rows| {
      SurvivorsAdjacentDistinct(rows, j + 1);
      if !Dropped(rows, j) {
        NextSurvivorDiffers(rows, j, j + 1);
        var rest := Survivors(rows, j + 1);
        var r := [rows[j]] + rest;
        assert forall k :: 1 <= k < |r| ==> r[k] == rest[k - 1];
      }
    }
  }

  /** The filter matches every url holding the pattern's text itself. */
  lemma LiteralBandUrlKept(url: string)
    requires IsSubstring(BandUrlPattern, url)
    ensures IsBandUrl(url)
  {
    var k :| 0 <= k <= |url| - |BandUrlPattern| && IsPrefix(BandUrlPattern, url[k..]);
    assert MatchesAt(BandUrlPattern, url[k..]);
  }

  /** ... and also urls that do not hold it, since its '.' matches any character. */
  lemma WildcardBandUrlKept()
    ensures IsBandUrl("https://geniusXcom/Green-day-x")
    ensures !IsSubstring(BandUrlPattern, "https://geniusXcom/Green-day-x")
  {
    var url := "https://geniusXcom/Green-day-x";
    assert MatchesAt(BandUrlPattern, url[0..]);
    forall k | 0 <= k <= |url| - |BandUrlPattern| ensures !IsPrefix(BandUrlPattern, url[k..]) {
      assert url[k..][14 - k] != BandUrlPattern[14 - k];
    }
  }

  /** A song page url, band prefix + slug + "-lyrics", is named by its slug. */
  lemma SongNameOfPage(slug: string)
    requires ':' !in slug && !IsSubstring("-lyrics", slug)
    requires !IsSubstring("-annotated", slug) && !IsSubstring("-demo", slug)
    ensures SongName(BandPrefix + slug + "-lyrics") == slug
  {
    var page := slug + "-lyrics";
    assert BandPrefix + slug + "-lyrics" == BandPrefix + page;
    assert ':' !in page;
    AbsentByChar(BandPrefix, page, 5);
    StripBandPrefix(page);
    DeleteTrailing(slug, "-lyrics");
    ReplaceAllAbsent(slug, "-annotated", "");
    ReplaceAllAbsent(slug, "-demo", "");
  }

  /** Removing the band prefix from the front of a page that does not contain it. */
  lemma StripBandPrefix(page: string)
    requires !IsSubstring(BandPrefix, page)
    ensures ReplaceAll(BandPrefix + page, BandPrefix, "") == page
  {
    var url := BandPrefix + page;
    assert url[0..|BandPrefix|] == BandPrefix && url[|BandPrefix|..] == page;
    ReplaceAllAt(url, BandPrefix, "", 0, page);
    ReplaceAllAbsent(page, BandPrefix, "");
  }

  /** The usual page url, prefix + slug + suffixes removed, yields the slug. */
  lemma SongNameOfSlug(slug: string)
    requires !IsSubstring(BandPrefix, slug) && !IsSubstring("-lyrics", slug)
    requires !IsSubstring("-annotated", slug) && !IsSubstring("-demo", slug)
    ensures SongName(BandPrefix + slug) == slug
  {
    StripBandPrefix(slug);
    ReplaceAllAbsent(slug, "-lyrics", "");
    ReplaceAllAbsent(slug, "-annotated", "");
    ReplaceAllAbsent(slug, "-demo", "");
  }
}
