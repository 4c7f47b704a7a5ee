/**
  UberScrapr.py: the crawler's ingestion of one candidate photo.

  The crawler keeps two pieces of state across candidates: `photoList`,
  the remote URLs already seen (seeded from the store), and `DBHistogram`,
  the number of stored photos per encoded mean colour (seeded from the
  store); beside them it counts the photos it stored, in all and for the
  current search word. Each candidate goes through a fixed sequence: build
  its URL; skip it if the URL was seen, else remember the URL; skip it if
  its metadata is rejected; download it; skip it if the analysis fails;
  skip it if its colour is over-represented and the file is present, else
  count the colour; try the insert and count the photo if it succeeds.

  The Flickr API, the database, the file system and the image library are
  not modelled: what they answer for a candidate is carried by `Candidate`.
 */
module UberScrapr {
  import opened Wrappers
  import opened PyStr
  import opened ScraprUtil

  // ---------------------------------------------------------------------
  // Start-up: getPhotoList and getDBHistogram
  // ---------------------------------------------------------------------

  /** One row of the `palette` table, as far as the start-up queries read it. */
  datatype Row = Row(id: int, remoteUrl: string, colorMean: int)

  /** `getPhotoList`: the remote URL of every stored photo, in row order. */
  method GetPhotoList(rows: seq<Row>) returns (picList: seq<string>)
    ensures |picList| == |rows|
    ensures forall i :: 0 <= i < |rows| ==> picList[i] == rows[i].remoteUrl
  {
    picList := [];
    for k := 0 to |rows|
      invariant |picList| == k
      invariant forall i :: 0 <= i < k ==> picList[i] == rows[i].remoteUrl
    {
      picList := picList + [rows[k].remoteUrl];
    }
  }

  /** The number of rows whose mean colour is c. */
  function CountColor(rows: seq<Row>, c: int): nat {
    if |rows| == 0 then 0
    else CountColor(rows[..|rows| - 1], c) + (if rows[|rows| - 1].colorMean == c then 1 else 0)
  }

  /** A colour is counted at least once exactly when some row has it. */
  lemma {:induction false} CountColorOccurs(rows: seq<Row>, c: int)
    ensures CountColor(rows, c) > 0 <==> exists i :: 0 <= i < |rows| && rows[i].colorMean == c
  {
    if |rows| > 0 {
      var init := rows[..|rows| - 1];
      CountColorOccurs(init, c);
      if CountColor(init, c) > 0 {
        var i :| 0 <= i < |init| && init[i].colorMean == c;
        assert rows[i].colorMean == c;
      }
      if exists i :: 0 <= i < |rows| && rows[i].colorMean == c {
        var i :| 0 <= i < |rows| && rows[i].colorMean == c;
        if i < |init| {
          assert init[i].colorMean == c;
        }
      }
    }
  }

  /** Counting one more row adds one to its colour's count and nothing to the others. */
  lemma CountColorStep(rows: seq<Row>, k: int)
    requires 0 <= k < |rows|
    ensures forall c :: CountColor(rows[..k + 1], c) == CountColor(rows[..k], c) + (if rows[k].colorMean == c then 1 else 0)
  {
    assert rows[..k + 1][..k] == rows[..k];
  }

  /** The colours of one more row: the colours so far and that row's colour. */
  lemma ColoursStep(rows: seq<Row>, k: int)
    requires 0 <= k < |rows|
    ensures (set i | 0 <= i < k + 1 :: rows[i].colorMean) == (set i | 0 <= i < k :: rows[i].colorMean) + {rows[k].colorMean}
  {
  }

  /**
    `getDBHistogram`: the keys are exactly the colours that occur in the
    table and each maps to the number of rows with that colour, at least 1.
   */
  method GetDBHistogram(rows: seq<Row>) returns (histo: map<int, nat>)
    ensures histo.Keys == (set i | 0 <= i < |rows| :: rows[i].colorMean)
    ensures forall c :: c in histo ==> histo[c] == CountColor(rows, c) && histo[c] >= 1
  {
    histo := map[];
    for k := 0 to |rows|
      invariant histo.Keys == (set i | 0 <= i < k :: rows[i].colorMean)
      invariant forall c :: c in histo ==> histo[c] == CountColor(rows[..k], c) && histo[c] >= 1
      invariant forall c :: c !in histo ==> CountColor(rows[..k], c) == 0
    {
      CountColorStep(rows, k);
      ColoursStep(rows, k);
      var color := rows[k].colorMean;
      if color !in histo {
        histo := histo[color := 1];
      } else {
        histo := histo[color := histo[color] + 1];
      }
    }
    assert rows[..|rows|] == rows;
  }

  // ---------------------------------------------------------------------
  // downloadPhoto: where the file goes
  // ---------------------------------------------------------------------

  /** `os.path.join(a, b)`. */
  function JoinPath(a: string, b: string): string {
    if |b| > 0 && b[0] == '/' then b
    else if |a| == 0 || a[|a| - 1] == '/' then a + b
    else a + "/" + b
  }

  /**
    Joining a relative b onto a: the result starts with a and ends with b,
    a '/' is inserted exactly when a is non-empty and does not already end
    in one, and then a '/' stands right before b. An absolute b replaces a.
   */
  lemma JoinPathLayout(a: string, b: string)
    ensures |b| > 0 && b[0] == '/' ==> JoinPath(a, b) == b
    ensures !(|b| > 0 && b[0] == '/') ==>
      var r := JoinPath(a, b);
      var inserted := if |a| > 0 && a[|a| - 1] != '/' then 1 else 0;
      && |r| == |a| + inserted + |b|
      && r[..|a|] == a && r[|r| - |b|..] == b
      && (|a| > 0 ==> r[|a| + inserted - 1] == '/')
  {
  }

  /** Joining a file name onto a directory leaves the file name as the path's last piece. */
  lemma LastPieceOfJoin(a: string, b: string)
    requires '/' !in b
    ensures LastPiece(JoinPath(a, b), '/') == b
  {
    if |a| == 0 {
      assert JoinPath(a, b) == b;
      LastPieceWhole(b, '/');
    } else if a[|a| - 1] == '/' {
      var a' := a[..|a| - 1];
      assert JoinPath(a, b) == a' + ['/'] + b;
      LastPieceAfterSeparator(a', b, '/');
    } else {
      assert JoinPath(a, b) == a + ['/'] + b;
      LastPieceAfterSeparator(a, b, '/');
    }
  }

  /**
    The relative path `downloadPhoto` stores: the drawn directory joined
    with the last '/'-separated piece of the remote URL. The path starts
    with the directory and ends in the remote file name.
   */
  function DownloadPhoto(relLocal: string, remoteUrl: string): (path: string)
    ensures |path| >= |relLocal| && path[..|relLocal|] == relLocal
    ensures LastPiece(path, '/') == LastPiece(remoteUrl, '/')
  {
    var file := LastPiece(remoteUrl, '/');
    LastPieceOfJoin(relLocal, file);
    JoinPath(relLocal, file)
  }

  /** `genRandomLocalURL` for the three drawn integers a, b and c. */
  function GenRandomLocalURL(a: nat, b: nat, c: nat): string {
    var sa, sb, sc := NatToString(a), NatToString(b), NatToString(c);
    "img/" + sa + "/" + sa + sb + "/" + sa + sb + sc
  }

  /** The '/'-separated segments of a drawn directory, given the digits of the three draws. */
  lemma DirectorySegments(sa: string, sb: string, sc: string)
    requires AllDigits(sa) && AllDigits(sb) && AllDigits(sc)
    ensures Split("img/" + sa + "/" + sa + sb + "/" + sa + sb + sc, '/') == ["img", sa, sa + sb, sa + sb + sc]
  {
    DigitsLackSlash(sa);
    DigitsLackSlash(sa + sb);
    DigitsLackSlash(sa + sb + sc);
    DirectoryLayout(sa, sb, sc);
    SplitFour("img", sa, sa + sb, sa + sb + sc);
  }

  lemma DirectoryLayout(sa: string, sb: string, sc: string)
    ensures "img/" + sa + "/" + sa + sb + "/" + sa + sb + sc
      == "img" + ['/'] + sa + ['/'] + (sa + sb) + ['/'] + (sa + sb + sc)
  {
  }

  /** Four '/'-free pieces joined by '/' split back into themselves. */
  lemma SplitFour(x0: string, x1: string, x2: string, x3: string)
    requires '/' !in x0 && '/' !in x1 && '/' !in x2 && '/' !in x3
    ensures Split(x0 + ['/'] + x1 + ['/'] + x2 + ['/'] + x3, '/') == [x0, x1, x2, x3]
  {
    var p1 := x0 + ['/'] + x1;
    var p2 := p1 + ['/'] + x2;
    SplitWithoutSeparator(x0, '/');
    SplitWithoutSeparator(x1, '/');
    SplitWithoutSeparator(x2, '/');
    SplitWithoutSeparator(x3, '/');
    SplitAround(x0, x1, '/');
    assert Split(p1, '/') == [x0, x1];
    SplitAround(p1, x2, '/');
    assert Split(p2, '/') == [x0, x1, x2];
    SplitAround(p2, x3, '/');
  }

  lemma DigitsLackSlash(s: string)
    requires AllDigits(s)
    ensures '/' !in s
  {
    forall i | 0 <= i < |s| ensures s[i] != '/' {
      assert IsDigit(s[i]);
    }
  }

  /**
    `genRandomLocalURL` draws a directory three levels below "img": the
    first draw, then the first two, then all three, each spelled in decimal.
   */
  lemma GenRandomLocalURLSegments(a: nat, b: nat, c: nat)
    ensures Split(GenRandomLocalURL(a, b, c), '/')
      == ["img", NatToString(a), NatToString(a) + NatToString(b), NatToString(a) + NatToString(b) + NatToString(c)]
  {
    DirectorySegments(NatToString(a), NatToString(b), NatToString(c));
  }

  /**
    A photo downloaded into a drawn directory lands at that directory, a
    slash, and the photo's own file name from its URL.
   */
  lemma DownloadedPhotoPath(a: nat, b: nat, c: nat, farm: string, server: string, id: string, secret: string)
    requires '/' !in farm && '/' !in server && '/' !in id && '/' !in secret
    ensures DownloadPhoto(GenRandomLocalURL(a, b, c), GetPhotoURL(farm, server, id, secret, DefaultSize))
      == GenRandomLocalURL(a, b, c) + "/" + PhotoFileName(id, secret, DefaultSize)
  {
    PhotoURLSegments(farm, server, id, secret, DefaultSize);
    var dir := GenRandomLocalURL(a, b, c);
    var sc := NatToString(c);
    assert dir[|dir| - 1] == sc[|sc| - 1];
  }

  // ---------------------------------------------------------------------
  // The per-candidate state machine
  // ---------------------------------------------------------------------

  /** The crawler's state across candidates. */
  datatype ScraperState = ScraperState(
    photoList: seq<string>,
    histogram: map<int, nat>,
    retrieved: nat,
    retrievedForWord: nat)

  /**
    One search result and what the outside world answers for it: the URL
    parts from the API, the tag string built from its info, the result of
    `getPhotoInfo`, the directory `genRandomLocalURL` draws, the result of
    `analyzePhoto` (mean colour code, standard deviation), whether the
    downloaded file exists when it is checked, the calendar date that
    `datetime.fromtimestamp` gives for the photo's `posted` value, and
    whether the insert succeeds.
   */
  datatype Candidate = Candidate(
    farm: string, server: string, id: string, secret: string,
    tags: string,
    metadata: Option<map<string, string>>,
    localDir: string,
    analysis: Option<(int, int)>,
    fileExists: bool,
    posted: CalendarDate,
    insertOk: bool)

  /** The fields of the row the insert writes (the fixed 75x75 size aside). */
  datatype PhotoRecord = PhotoRecord(
    tags: string,
    info: map<string, string>,
    dateUploaded: string,
    remoteUrl: string,
    queryPool: string,
    colorMean: int,
    colorStdDev: int,
    fileUrl: string)

  /** How the handling of one candidate ends. */
  datatype Outcome =
    | Duplicate
    | BadMetadata
    | Unanalyzable
    | OverRepresented
    | Persisted(record: PhotoRecord)
    | InsertFailed(record: PhotoRecord)

  /**
    The row the insert writes for a candidate with metadata and an
    analysis: its tags, its metadata after the `safeInfo` loop, the stamp of
    its posting date as `date_uploaded`, its URL, the search word, its
    colour and deviation, and the path of its file.
   */
  function InsertedRecord(c: Candidate, word: string): PhotoRecord
    requires c.metadata.Some? && c.analysis.Some?
  {
    var url := CandidateURL(c);
    PhotoRecord(c.tags, SafeInfoAsWritten(c.metadata.value), MySQLStamp(c.posted.year, c.posted.month, c.posted.day),
                url, word, c.analysis.value.0, c.analysis.value.1, DownloadPhoto(c.localDir, url))
  }

  /** The URL a candidate is known by: its small square rendition. */
  function CandidateURL(c: Candidate): string {
    GetPhotoURL(c.farm, c.server, c.id, c.secret, DefaultSize)
  }

  /** A colour with more photos than this is over-represented. */
  const Threshold: nat := 10

  /** `DBHistogram.get(c, 0)`. */
  function BucketCount(h: map<int, nat>, c: int): nat {
    if c in h then h[c] else 0
  }

  predicate IsOverRepresented(h: map<int, nat>, c: int) {
    c in h && h[c] > Threshold
  }

  function Max(a: nat, b: nat): nat {
    if a < b then b else a
  }

  /**
    The colour-count update: an over-represented colour is left alone, any
    other colour gains exactly one (an absent one becomes 1), and no other
    colour changes. So no count is raised past 11.
   */
  function Admit(h: map<int, nat>, c: int): (h': map<int, nat>)
    ensures BucketCount(h', c) == if BucketCount(h, c) > Threshold then BucketCount(h, c) else BucketCount(h, c) + 1
    ensures forall k :: k != c ==> BucketCount(h', k) == BucketCount(h, k)
    ensures h'.Keys == h.Keys + {c} || h' == h
    ensures forall k :: BucketCount(h', k) <= Max(BucketCount(h, k), Threshold + 1)
  {
    if IsOverRepresented(h, c) then h
    else if c in h then h[c := h[c] + 1]
    else h[c := 1]
  }

  /**
    `safeInfo` as written: the loop escapes a value only when its type is
    `str`, but every value comes out of `checkStr`, whose decode returns a
    `unicode` object, so no value is ever escaped.
   */
  function SafeInfoAsWritten(myInfo: map<string, string>): map<string, string> {
    myInfo
  }

  /**
    As written, every value reaches the insert as it came from `checkStr`:
    one that holds a quote character differs from its escaped form.
   */
  lemma AsWrittenLeavesQuotes(myInfo: map<string, string>, k: string, i: int)
    requires k in myInfo && 0 <= i < |myInfo[k]| && myInfo[k][i] in DefaultQuoteChars
    ensures SafeInfoAsWritten(myInfo)[k] == myInfo[k]
    ensures SafeInfoAsWritten(myInfo)[k] != EscapedInfo(myInfo)[k]
  {
    EscapedLength(myInfo[k], DefaultQuoteChars);
    CountQuotesPositive(myInfo[k], DefaultQuoteChars, i);
  }

  /**
    The specification of one pass of the loop body of `main` for candidate
    c under search word `word`: the new state and how the candidate ended.
   */
  function Step(s: ScraperState, word: string, c: Candidate): (r: (ScraperState, Outcome))
    ensures CandidateURL(c) in s.photoList ==> r == (s, Duplicate)
    ensures CandidateURL(c) !in s.photoList ==> r.0.photoList == s.photoList + [CandidateURL(c)]
    ensures !r.1.Persisted? && !r.1.InsertFailed? ==> r.0.histogram == s.histogram
    ensures r.0.retrieved == s.retrieved + (if r.1.Persisted? then 1 else 0)
    ensures r.0.retrievedForWord == s.retrievedForWord + (if r.1.Persisted? then 1 else 0)
    ensures forall k :: BucketCount(s.histogram, k) <= BucketCount(r.0.histogram, k)
    ensures forall k :: BucketCount(r.0.histogram, k) <= Max(BucketCount(s.histogram, k), Threshold + 1)
  {
    var url := CandidateURL(c);
    if url in s.photoList then (s, Duplicate)
    else
      var listed := s.(photoList := s.photoList + [url]);
      if c.metadata.None? then (listed, BadMetadata)
      else
        var localURL := DownloadPhoto(c.localDir, url);
        if c.analysis.None? then (listed, Unanalyzable)
        else
          var avgC := c.analysis.value.0;
          var stdDev := c.analysis.value.1;
          if IsOverRepresented(s.histogram, avgC) && c.fileExists then (listed, OverRepresented)
          else
            // over-represented with no file on disk: no `continue`, no count
            var counted := listed.(histogram := Admit(s.histogram, avgC));
            var record := InsertedRecord(c, word);
            if c.insertOk then
              (counted.(retrieved := counted.retrieved + 1, retrievedForWord := counted.retrievedForWord + 1),
               Persisted(record))
            else (counted, InsertFailed(record))
  }

  /** A new URL is recorded before the metadata check and stays recorded whatever happens next. */
  lemma NewURLIsRecorded(s: ScraperState, word: string, c: Candidate)
    requires CandidateURL(c) !in s.photoList
    ensures Step(s, word, c).0.photoList == s.photoList + [CandidateURL(c)]
    ensures Step(s, word, c).1 != Duplicate
  {
  }

  /** Rejected metadata or a failed analysis: only the URL is recorded. */
  lemma EarlyRejectKeepsCounts(s: ScraperState, word: string, c: Candidate)
    requires CandidateURL(c) !in s.photoList
    requires c.metadata.None? || c.analysis.None?
    ensures Step(s, word, c) ==
      (s.(photoList := s.photoList + [CandidateURL(c)]), if c.metadata.None? then BadMetadata else Unanalyzable)
  {
  }

  /**
    The colour gate for a new candidate with metadata and an analysis: an
    over-represented colour with its file present is rejected and nothing
    but the URL changes; otherwise the histogram becomes `Admit` of the
    colour, which for a colour that is not over-represented is exactly one
    more for that colour.
   */
  lemma ColourGate(s: ScraperState, word: string, c: Candidate)
    requires CandidateURL(c) !in s.photoList && c.metadata.Some? && c.analysis.Some?
    ensures var r := Step(s, word, c); var avgC := c.analysis.value.0;
      && (IsOverRepresented(s.histogram, avgC) && c.fileExists ==>
            r == (s.(photoList := s.photoList + [CandidateURL(c)]), OverRepresented))
      && (!IsOverRepresented(s.histogram, avgC) ==>
            r.0.histogram == s.histogram[avgC := BucketCount(s.histogram, avgC) + 1])
      && (!(IsOverRepresented(s.histogram, avgC) && c.fileExists) ==>
            r.0.histogram == Admit(s.histogram, avgC) && (r.1.Persisted? || r.1.InsertFailed?))
  {
  }

  /**
    Over-represented colour, file absent: control falls through to the
    insert with the histogram untouched.
   */
  lemma OverRepresentedWithoutFileFallsThrough(s: ScraperState, word: string, c: Candidate)
    requires CandidateURL(c) !in s.photoList && c.metadata.Some? && c.analysis.Some?
    requires IsOverRepresented(s.histogram, c.analysis.value.0) && !c.fileExists
    ensures Step(s, word, c).0.histogram == s.histogram
    ensures Step(s, word, c).1 == if c.insertOk then Persisted(Step(s, word, c).1.record) else InsertFailed(Step(s, word, c).1.record)
  {
  }

  /**
    The insert: a success counts the photo in both counters and yields the
    record of the candidate's tags, metadata, upload stamp, URL, word,
    analysis and file; a failure leaves
    the counters alone but keeps the colour count already made.
   */
  lemma InsertOutcome(s: ScraperState, word: string, c: Candidate)
    requires CandidateURL(c) !in s.photoList && c.metadata.Some? && c.analysis.Some?
    requires !(IsOverRepresented(s.histogram, c.analysis.value.0) && c.fileExists)
    ensures var r := Step(s, word, c);
      var record := PhotoRecord(c.tags, c.metadata.value, MySQLStamp(c.posted.year, c.posted.month, c.posted.day),
                                CandidateURL(c), word,
                                c.analysis.value.0, c.analysis.value.1, DownloadPhoto(c.localDir, CandidateURL(c)));
      && r.1 == (if c.insertOk then Persisted(record) else InsertFailed(record))
      && r.0.retrieved == s.retrieved + (if c.insertOk then 1 else 0)
      && r.0.histogram == Admit(s.histogram, c.analysis.value.0)
  {
  }

  /** Step as a whole when the candidate reaches the insert. */
  lemma StepReachesInsert(s: ScraperState, word: string, c: Candidate)
    requires CandidateURL(c) !in s.photoList && c.metadata.Some? && c.analysis.Some?
    requires !(IsOverRepresented(s.histogram, c.analysis.value.0) && c.fileExists)
    ensures var stored := if c.insertOk then 1 else 0;
      var record := InsertedRecord(c, word);
      Step(s, word, c) ==
        (ScraperState(s.photoList + [CandidateURL(c)], Admit(s.histogram, c.analysis.value.0),
                      s.retrieved + stored, s.retrievedForWord + stored),
         if c.insertOk then Persisted(record) else InsertFailed(record))
  {
  }

  // ---------------------------------------------------------------------
  // Runs of candidates
  // ---------------------------------------------------------------------

  /** The state after the candidates cs, in order, under one search word. */
  function Run(s: ScraperState, word: string, cs: seq<Candidate>): ScraperState {
    if |cs| == 0 then s else Step(Run(s, word, cs[..|cs| - 1]), word, cs[|cs| - 1]).0
  }

  /** How many of the candidates cs ended Persisted. */
  function PersistedCount(s: ScraperState, word: string, cs: seq<Candidate>): nat {
    if |cs| == 0 then 0
    else
      var last := Step(Run(s, word, cs[..|cs| - 1]), word, cs[|cs| - 1]).1;
      PersistedCount(s, word, cs[..|cs| - 1]) + (if last.Persisted? then 1 else 0)
  }

  /** Both counters grow by exactly the number of stored photos. */
  lemma {:induction false} RunCounts(s: ScraperState, word: string, cs: seq<Candidate>)
    ensures Run(s, word, cs).retrieved == s.retrieved + PersistedCount(s, word, cs)
    ensures Run(s, word, cs).retrievedForWord == s.retrievedForWord + PersistedCount(s, word, cs)
  {
    if |cs| > 0 {
      RunCounts(s, word, cs[..|cs| - 1]);
    }
  }

  /** Over any run, no colour count ends above the larger of its start and 11. */
  lemma {:induction false} RunHistogramBound(s: ScraperState, word: string, cs: seq<Candidate>, k: int)
    ensures BucketCount(Run(s, word, cs).histogram, k) <= Max(BucketCount(s.histogram, k), Threshold + 1)
  {
    if |cs| > 0 {
      RunHistogramBound(s, word, cs[..|cs| - 1], k);
    }
  }

  ghost predicate NoDuplicates(xs: seq<string>) {
    forall i, j :: 0 <= i < j < |xs| ==> xs[i] != xs[j]
  }

  /** The seen-URL list only grows: the list a run starts from is a prefix of the one it ends with. */
  lemma {:induction false} RunURLsGrow(s: ScraperState, word: string, cs: seq<Candidate>)
    ensures var l := Run(s, word, cs).photoList; |l| >= |s.photoList| && l[..|s.photoList|] == s.photoList
  {
    if |cs| > 0 {
      var init := cs[..|cs| - 1];
      RunURLsGrow(s, word, init);
      var before := Run(s, word, init).photoList;
      var l := Run(s, word, cs).photoList;
      assert l == before || l == before + [CandidateURL(cs[|cs| - 1])];
      assert l[..|before|] == before;
      assert before[..|s.photoList|] == s.photoList;
      assert l[..|s.photoList|] == l[..|before|][..|s.photoList|];
    }
  }

  /** Every candidate's URL, whatever its outcome, ends up in the seen-URL list. */
  lemma {:induction false} RunURLsCoverCandidates(s: ScraperState, word: string, cs: seq<Candidate>)
    ensures forall i :: 0 <= i < |cs| ==> CandidateURL(cs[i]) in Run(s, word, cs).photoList
  {
    if |cs| > 0 {
      var init := cs[..|cs| - 1];
      RunURLsCoverCandidates(s, word, init);
      var before := Run(s, word, init).photoList;
      var l := Run(s, word, cs).photoList;
      assert CandidateURL(cs[|cs| - 1]) in l;
      assert forall u :: u in before ==> u in l;
      forall i | 0 <= i < |init| ensures CandidateURL(cs[i]) in l {
        assert cs[i] == init[i];
      }
    }
  }

  /** A seen-URL list that starts without repeats never gets one. */
  lemma {:induction false} RunURLsDistinct(s: ScraperState, word: string, cs: seq<Candidate>)
    requires NoDuplicates(s.photoList)
    ensures NoDuplicates(Run(s, word, cs).photoList)
  {
    if |cs| > 0 {
      var init := cs[..|cs| - 1];
      RunURLsDistinct(s, word, init);
      var before := Run(s, word, init).photoList;
      var url := CandidateURL(cs[|cs| - 1]);
      if url !in before {
        AppendFreshKeepsDistinct(before, url);
      }
    }
  }

  /** Appending a string the list lacks keeps it free of repeats. */
  lemma AppendFreshKeepsDistinct(xs: seq<string>, x: string)
    requires NoDuplicates(xs) && x !in xs
    ensures NoDuplicates(xs + [x])
  {
    var ys := xs + [x];
    forall i, j | 0 <= i < j < |ys| ensures ys[i] != ys[j] {
      assert ys[i] == xs[i];
      if j == |xs| {
        assert ys[i] in xs;
      } else {
        assert ys[j] == xs[j];
      }
    }
  }

  /** The colour update applied n times to the same colour. */
  function AdmitTimes(h: map<int, nat>, c: int, n: nat): map<int, nat> {
    if n == 0 then h else Admit(AdmitTimes(h, c, n - 1), c)
  }

  /**
    From a colour never seen, n admissions leave min(n, 11) photos of it:
    after 10 the colour is still admitted, after 11 it is over-represented.
   */
  lemma {:induction false} AdmitTimesCount(h: map<int, nat>, c: int, n: nat)
    requires c !in h
    ensures BucketCount(AdmitTimes(h, c, n), c) == if n <= Threshold + 1 then n else Threshold + 1
    ensures n <= Threshold ==> !IsOverRepresented(AdmitTimes(h, c, n), c)
    ensures n > Threshold ==> IsOverRepresented(AdmitTimes(h, c, n), c)
  {
    if n > 0 {
      AdmitTimesCount(h, c, n - 1);
    }
  }

  // ---------------------------------------------------------------------
  // The colour gate as evidently intended
  // ---------------------------------------------------------------------

  /**
    As written, a photo whose colour is over-represented is still stored
    when its file is not on disk: from a store holding 11 photos of colour 0,
    a twelfth is persisted. The intended gate rejects it.
   */
  lemma OverRepresentedColourStillStored()
    ensures var s := ScraperState([], map[0 := 11], 0, 0);
      var c := Candidate("1", "2", "3", "4", "", Some(map[]), "img", Some((0, 0)), false, Date(1970, 1, 1), true);
      && IsOverRepresented(s.histogram, 0)
      && Step(s, "sky", c).1.Persisted? && Step(s, "sky", c).1.record.colorMean == 0
      && BucketCount(s.histogram, 0) + 1 > Max(BucketCount(s.histogram, 0), Threshold + 1)
      && IntendedStep(s, "sky", c).1 == OverRepresented
  {
    var s := ScraperState([], map[0 := 11], 0, 0);
    var c := Candidate("1", "2", "3", "4", "", Some(map[]), "img", Some((0, 0)), false, Date(1970, 1, 1), true);
    assert CandidateURL(c) !in s.photoList;
  }

  /**
    The evidently intended step: an over-represented colour is rejected
    whether or not its file is on disk; in every other case it is `Step`.
    A stored photo's colour was not over-represented and its count went up
    by one.
   */
  function IntendedStep(s: ScraperState, word: string, c: Candidate): (r: (ScraperState, Outcome))
    ensures forall k :: BucketCount(s.histogram, k) <= BucketCount(r.0.histogram, k)
    ensures forall k :: BucketCount(r.0.histogram, k) <= Max(BucketCount(s.histogram, k), Threshold + 1)
    ensures r.1.Persisted? ==> (!IsOverRepresented(s.histogram, r.1.record.colorMean)
      && BucketCount(r.0.histogram, r.1.record.colorMean) == BucketCount(s.histogram, r.1.record.colorMean) + 1)
  {
    var url := CandidateURL(c);
    if url !in s.photoList && c.metadata.Some? && c.analysis.Some?
       && IsOverRepresented(s.histogram, c.analysis.value.0)
    then (s.(photoList := s.photoList + [url]), OverRepresented)
    else Step(s, word, c)
  }

  /** The state after the candidates cs under the intended gate. */
  function IntendedRun(s: ScraperState, word: string, cs: seq<Candidate>): ScraperState {
    if |cs| == 0 then s else IntendedStep(IntendedRun(s, word, cs[..|cs| - 1]), word, cs[|cs| - 1]).0
  }

  /** How many of the candidates cs were stored with colour a under the intended gate. */
  function IntendedStoredOfColour(s: ScraperState, word: string, cs: seq<Candidate>, a: int): nat {
    if |cs| == 0 then 0
    else
      var last := IntendedStep(IntendedRun(s, word, cs[..|cs| - 1]), word, cs[|cs| - 1]).1;
      IntendedStoredOfColour(s, word, cs[..|cs| - 1], a) + (if last.Persisted? && last.record.colorMean == a then 1 else 0)
  }

  /**
    Under the intended gate the histogram keeps up with what is stored, so
    a colour starting with n photos ends with at most max(n, 11) of them.
   */
  lemma {:induction false} IntendedRunColourBound(s: ScraperState, word: string, cs: seq<Candidate>, a: int)
    ensures BucketCount(s.histogram, a) + IntendedStoredOfColour(s, word, cs, a)
      <= BucketCount(IntendedRun(s, word, cs).histogram, a)
    ensures BucketCount(s.histogram, a) + IntendedStoredOfColour(s, word, cs, a)
      <= Max(BucketCount(s.histogram, a), Threshold + 1)
  {
    if |cs| > 0 {
      IntendedRunColourBound(s, word, cs[..|cs| - 1], a);
    }
  }

  // ---------------------------------------------------------------------
  // The metadata escaping as evidently intended
  // ---------------------------------------------------------------------

  /**
    As written, a quote in a metadata value reaches the insert unescaped:
    a real name `a"b` is stored as is, while the intended escaping turns
    it into `a\"b`.
   */
  lemma QuoteReachesInsertUnescaped()
    ensures var info := map["realname" := "a\"b"];
      && SafeInfoAsWritten(info)["realname"] == "a\"b"
      && EscapedInfo(info)["realname"] == "a\\\"b"
  {
    var info := map["realname" := "a\"b"];
    assert "a\"b" == ['a'] + ['"'] + ['b'];
    EscapedConcat(['a'] + ['"'], ['b'], DefaultQuoteChars);
    EscapedConcat(['a'], ['"'], DefaultQuoteChars);
  }

  /** Every metadata value escaped with the default quote characters. */
  function EscapedInfo(myInfo: map<string, string>): (safe: map<string, string>)
    ensures safe.Keys == myInfo.Keys
  {
    map k | k in myInfo :: Escaped(myInfo[k], DefaultQuoteChars)
  }

  /** The `safeInfo` loop as evidently intended: every value goes through `makeQuotesSafeForSQL`. */
  method SafeInfo(myInfo: map<string, string>) returns (safeInfo: map<string, string>)
    ensures safeInfo == EscapedInfo(myInfo)
  {
    safeInfo := map[];
    var keys := myInfo.Keys;
    while keys != {}
      invariant keys <= myInfo.Keys
      invariant safeInfo.Keys == myInfo.Keys - keys
      invariant forall k :: k in safeInfo ==> safeInfo[k] == Escaped(myInfo[k], DefaultQuoteChars)
      decreases keys
    {
      var k :| k in keys;
      var v := MakeQuotesSafeForSQL(myInfo[k], DefaultQuoteChars);
      safeInfo := safeInfo[k := v];
      keys := keys - {k};
    }
  }

  /**
    Escaped metadata is safe to splice between quotes: every quote in a
    value has a backslash before it, and removing the escapes gives back
    the original value.
   */
  lemma EscapedInfoIsSafe(myInfo: map<string, string>, k: string)
    requires k in myInfo
    ensures var t := EscapedInfo(myInfo)[k];
      && Unescape(t, DefaultQuoteChars) == myInfo[k]
      && forall i :: 0 <= i < |t| && t[i] in DefaultQuoteChars ==> i > 0 && t[i - 1] == Backslash
  {
    UnescapeEscaped(myInfo[k], DefaultQuoteChars);
    EscapedQuotesArePrefixed(myInfo[k], DefaultQuoteChars);
  }

  // ---------------------------------------------------------------------
  // The crawler object
  // ---------------------------------------------------------------------

  /** The state `main` keeps across candidates, updated in place. */
  class Scraper {
    var photoList: seq<string>
    var dbHistogram: map<int, nat>
    var photosRetrieved: nat
    var photosRetrievedForWord: nat

    function State(): ScraperState
      reads this
    {
      ScraperState(photoList, dbHistogram, photosRetrieved, photosRetrievedForWord)
    }

    /** The start of `main`: both structures seeded from the stored rows, no photo counted yet. */
    constructor (rows: seq<Row>)
      ensures |photoList| == |rows| && forall i :: 0 <= i < |rows| ==> photoList[i] == rows[i].remoteUrl
      ensures dbHistogram.Keys == (set i | 0 <= i < |rows| :: rows[i].colorMean)
      ensures forall c :: c in dbHistogram ==> dbHistogram[c] == CountColor(rows, c)
      ensures photosRetrieved == 0 && photosRetrievedForWord == 0
    {
      var urls := GetPhotoList(rows);
      var histo := GetDBHistogram(rows);
      photoList := urls;
      dbHistogram := histo;
      photosRetrieved := 0;
      photosRetrievedForWord := 0;
    }

    /** A new search word: its own count starts at zero; nothing else changes. */
    method StartWord()
      modifies this
      ensures State() == old(State()).(retrievedForWord := 0)
    {
      photosRetrievedForWord := 0;
    }

    /** One pass of the loop body of `main`, as `Step` specifies it. */
    method ProcessCandidate(word: string, c: Candidate) returns (outcome: Outcome)
      modifies this
      ensures (State(), outcome) == Step(old(State()), word, c)
    {
      ghost var s0 := State();
      var remoteURL := GetPhotoURL(c.farm, c.server, c.id, c.secret, DefaultSize);
      if remoteURL in photoList {
        return Duplicate;
      }
      photoList := photoList + [remoteURL];
      if c.metadata.None? {
        EarlyRejectKeepsCounts(s0, word, c);
        return BadMetadata;
      }
      var localURL := DownloadPhoto(c.localDir, remoteURL);
      if c.analysis.None? {
        EarlyRejectKeepsCounts(s0, word, c);
        return Unanalyzable;
      }
      var avgC, stdDev := c.analysis.value.0, c.analysis.value.1;
      if avgC in dbHistogram && dbHistogram[avgC] > Threshold {
        if c.fileExists {
          ColourGate(s0, word, c);
          return OverRepresented;
        }
      } else {
        if avgC in dbHistogram {
          dbHistogram := dbHistogram[avgC := dbHistogram[avgC] + 1];
        } else {
          dbHistogram := dbHistogram[avgC := 1];
        }
      }
      assert dbHistogram == Admit(s0.histogram, avgC);
      var safeInfo := SafeInfoAsWritten(c.metadata.value);
      var dateUploaded := UnixTimeToMySQLTime(c.posted.year, c.posted.month, c.posted.day);
      var record := PhotoRecord(c.tags, safeInfo, dateUploaded, remoteURL, word, avgC, stdDev, localURL);
      assert record == InsertedRecord(c, word);
      StepReachesInsert(s0, word, c);
      if c.insertOk {
        photosRetrieved := photosRetrieved + 1;
        photosRetrievedForWord := photosRetrievedForWord + 1;
        return Persisted(record);
      }
      return InsertFailed(record);
    }
  }
}
