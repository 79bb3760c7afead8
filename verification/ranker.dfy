/** The best-result ranker of the tab loader.

    A search results page is abstracted to a "no results" flag and the rows of its
    results table. The first row is the table heading. Each row carries an optional
    rating (stars and votes) and the targets of its "song" links, in order. The ranker
    walks the data rows once and keeps the row whose (rating, votes) is strictly
    greater than everything seen so far, starting from (0, 0). It returns that row's
    tab link, or the empty string when no row ever takes the lead.
 */
module Ranker {
  import opened Scores

  /** A row's rating markup: absent, or a star count with the vote count next to it. */
  datatype Rating = Unrated | Rated(stars: int, votes: int)

  /** One row of the results table: its rating and the targets of its "song" links. */
  datatype Row = Row(rating: Rating, links: seq<string>)

  /** A search results page: whether it is the "nothing found" page, and the rows of
      its results table, heading included. */
  datatype Page = Page(notFound: bool, rows: seq<Row>)

  /** Why ranking can fail: a row took the lead but has no "song" link to read. */
  datatype RankError = MissingSongLink

  datatype Result<T> = Ok(value: T) | Err(error: RankError)

  /** The running best: its standing and the link chosen from its row. */
  datatype Best = Best(score: Score, url: string)

  /** The running best before any row is seen: standing (0, 0), no link. */
  const Initial: Best := Best(Baseline, "")

  /** The standing of a row; a row without rating markup counts as average. */
  function ScoreOf(row: Row): Score {
    match row.rating
    case Unrated => UnratedScore
    case Rated(stars, votes) => Score(stars as real, votes)
  }

  /** The tab link of a row: when a row has two or more "song" links the first one is
      the artist's page, so the second is taken; a single link is taken as is. */
  function Pick(links: seq<string>): string
    requires |links| > 0
  {
    if |links| < 2 then links[0] else links[1]
  }

  /** One step of the walk over the data rows. */
  function Consider(best: Best, row: Row): Result<Best> {
    if Beats(ScoreOf(row), best.score) then
      if |row.links| == 0 then Err(MissingSongLink) else Ok(Best(ScoreOf(row), Pick(row.links)))
    else
      Ok(best)
  }

  /** The running best after walking `rows` from first to last. */
  function Scan(rows: seq<Row>): Result<Best>
    decreases |rows|
  {
    if |rows| == 0 then Ok(Initial)
    else
      match Scan(rows[..|rows| - 1])
      case Err(e) => Err(e)
      case Ok(best) => Consider(best, rows[|rows| - 1])
  }

  /** The link chosen from a sequence of data rows. */
  function RankRows(rows: seq<Row>): Result<string> {
    match Scan(rows)
    case Err(e) => Err(e)
    case Ok(best) => Ok(best.url)
  }

  /** The rows after the table heading (none when the table is empty). */
  function DataRows(rows: seq<Row>): seq<Row> {
    if |rows| == 0 then [] else rows[1..]
  }

  predicate NoResultsPage(page: Page) {
    page.notFound
  }

  /** The URL of the best rated result on a search page, or "" when there is none.
      A "nothing found" page yields "" whatever rows it carries. */
  function BestRatedResult(page: Page): (r: Result<string>)
    ensures NoResultsPage(page) ==> r == Ok("")
    ensures !NoResultsPage(page) && |page.rows| <= 1 ==> r == Ok("")
  {
    if NoResultsPage(page) then Ok("") else RankRows(DataRows(page.rows))
  }

  // ---------------------------------------------------------------------------
  // A reference description of the choice, independent of the walk.

  /** Row `i` takes the lead when the walk reaches it: it beats the baseline and
      every earlier row. */
  predicate IsRecord(rows: seq<Row>, i: int)
    requires 0 <= i < |rows|
  {
    && Beats(ScoreOf(rows[i]), Baseline)
    && forall j :: 0 <= j < i ==> Beats(ScoreOf(rows[i]), ScoreOf(rows[j]))
  }

  /** Row `k` is the one the walk ends on: it takes the lead and no later row beats it. */
  predicate IsWinner(rows: seq<Row>, k: int)
    requires 0 <= k < |rows|
  {
    && IsRecord(rows, k)
    && forall j :: k < j < |rows| ==> !Beats(ScoreOf(rows[j]), ScoreOf(rows[k]))
  }

  /** No row beats the baseline (0, 0), so no row ever takes the lead. */
  predicate NoneBeatsBaseline(rows: seq<Row>) {
    forall i :: 0 <= i < |rows| ==> !Beats(ScoreOf(rows[i]), Baseline)
  }

  /** Some row takes the lead but has no "song" link. */
  predicate HasLinklessRecord(rows: seq<Row>) {
    exists i :: 0 <= i < |rows| && IsRecord(rows, i) && |rows[i].links| == 0
  }

  /** Every row has a "song" link and every link target is non-empty. */
  predicate WellLinked(rows: seq<Row>) {
    forall i :: 0 <= i < |rows| ==> |rows[i].links| > 0 && forall l :: l in rows[i].links ==> l != ""
  }

  // ---------------------------------------------------------------------------
  // Facts about the reference description.

  /** Two winners are the same row. */
  lemma WinnerUnique(rows: seq<Row>, k: int, k': int)
    requires 0 <= k < |rows| && 0 <= k' < |rows|
    requires IsWinner(rows, k) && IsWinner(rows, k')
    ensures k == k'
  {
  }

  /** The winner is the earliest row holding the maximal standing, and that standing
      beats the baseline. */
  lemma WinnerIsFirstMaximum(rows: seq<Row>, k: int)
    requires 0 <= k < |rows|
    ensures IsWinner(rows, k) <==>
      && Beats(ScoreOf(rows[k]), Baseline)
      && (forall j :: 0 <= j < |rows| ==> !Beats(ScoreOf(rows[j]), ScoreOf(rows[k])))
      && (forall j :: 0 <= j < k ==> ScoreOf(rows[j]) != ScoreOf(rows[k]))
  {
  }

  /** Some row wins exactly when some row beats the baseline. */
  lemma {:induction false} WinnerExists(rows: seq<Row>)
    ensures !NoneBeatsBaseline(rows) <==> exists k :: 0 <= k < |rows| && IsWinner(rows, k)
    decreases |rows|
  {
    if |rows| == 0 {
      return;
    }
    var n := |rows|;
    var p := rows[..n - 1];
    var r := ScoreOf(rows[n - 1]);
    assert forall j :: 0 <= j < n - 1 ==> p[j] == rows[j];
    WinnerExists(p);
    if NoneBeatsBaseline(p) {
      if Beats(r, Baseline) {
        forall j | 0 <= j < n - 1
          ensures Beats(r, ScoreOf(rows[j]))
        {
          assert !Beats(ScoreOf(p[j]), Baseline);
        }
        assert IsWinner(rows, n - 1);
      } else {
        forall k | 0 <= k < n
          ensures !IsWinner(rows, k)
        {
          if k < n - 1 {
            assert !Beats(ScoreOf(p[k]), Baseline);
          }
        }
        assert NoneBeatsBaseline(rows);
      }
    } else {
      var k :| 0 <= k < n - 1 && IsWinner(p, k);
      WinnerIsFirstMaximum(p, k);
      if Beats(r, ScoreOf(rows[k])) {
        forall j | 0 <= j < n - 1
          ensures Beats(r, ScoreOf(rows[j]))
        {
          assert !Beats(ScoreOf(p[j]), ScoreOf(p[k]));
        }
        assert IsWinner(rows, n - 1);
      } else {
        assert IsRecord(p, k);
        assert IsWinner(rows, k);
      }
    }
  }

  // ---------------------------------------------------------------------------
  // The walk agrees with the reference description.

  /** Dropping the last row keeps the records among the earlier rows, so a linkless
      record is either among them or is the last row itself. */
  lemma PrefixRecords(rows: seq<Row>)
    requires |rows| > 0
    ensures forall i :: 0 <= i < |rows| - 1 ==> (IsRecord(rows[..|rows| - 1], i) <==> IsRecord(rows, i))
    ensures HasLinklessRecord(rows) <==>
      || HasLinklessRecord(rows[..|rows| - 1])
      || (IsRecord(rows, |rows| - 1) && |rows[|rows| - 1].links| == 0)
  {
  }

  /** When no earlier row beats the baseline, the last row takes the lead exactly
      when it beats the baseline, and then it is the winner. */
  lemma ExtendFromNone(rows: seq<Row>)
    requires |rows| > 0 && NoneBeatsBaseline(rows[..|rows| - 1])
    ensures IsRecord(rows, |rows| - 1) <==> Beats(ScoreOf(rows[|rows| - 1]), Baseline)
    ensures Beats(ScoreOf(rows[|rows| - 1]), Baseline) ==> IsWinner(rows, |rows| - 1)
    ensures !Beats(ScoreOf(rows[|rows| - 1]), Baseline) ==> NoneBeatsBaseline(rows)
  {
  }

  /** When row `k` wins among the earlier rows, the last row takes the lead exactly
      when it beats row `k`; then it is the winner, and otherwise `k` still is. */
  lemma ExtendFromWinner(rows: seq<Row>, k: int)
    requires |rows| > 0 && 0 <= k < |rows| - 1 && IsWinner(rows[..|rows| - 1], k)
    ensures IsRecord(rows, |rows| - 1) <==> Beats(ScoreOf(rows[|rows| - 1]), ScoreOf(rows[k]))
    ensures Beats(ScoreOf(rows[|rows| - 1]), ScoreOf(rows[k])) ==> IsWinner(rows, |rows| - 1)
    ensures !Beats(ScoreOf(rows[|rows| - 1]), ScoreOf(rows[k])) ==> IsWinner(rows, k)
  {
  }

  /** The walk fails exactly when a row that takes the lead has no link; otherwise it
      ends on the initial best when no row beats the baseline, and on the winner's
      standing and link when one does. */
  lemma {:induction false} ScanInvariant(rows: seq<Row>)
    ensures Scan(rows).Err? <==> HasLinklessRecord(rows)
    ensures Scan(rows).Ok? ==>
      || (NoneBeatsBaseline(rows) && Scan(rows).value == Initial)
      || (exists k :: 0 <= k < |rows| && IsWinner(rows, k) && |rows[k].links| > 0
                      && Scan(rows).value == Best(ScoreOf(rows[k]), Pick(rows[k].links)))
    decreases |rows|
  {
    if |rows| == 0 {
      return;
    }
    var n := |rows|;
    var p := rows[..n - 1];
    var row := rows[n - 1];
    ScanInvariant(p);
    PrefixRecords(rows);
    match Scan(p)
    case Err(_) => {
    }
    case Ok(best) => {
      if NoneBeatsBaseline(p) {
        ExtendFromNone(rows);
        if Beats(ScoreOf(row), Baseline) && |row.links| > 0 {
          assert IsWinner(rows, n - 1);
        }
      } else {
        var k :| 0 <= k < n - 1 && IsWinner(p, k) && |p[k].links| > 0
                 && best == Best(ScoreOf(p[k]), Pick(p[k].links));
        assert p[k] == rows[k];
        ExtendFromWinner(rows, k);
        if !Beats(ScoreOf(row), ScoreOf(rows[k])) {
          assert IsWinner(rows, k);
          assert !NoneBeatsBaseline(rows) by {
            assert Beats(ScoreOf(rows[k]), Baseline);
          }
        }
      }
    }
  }

  // ---------------------------------------------------------------------------
  // Properties of the ranker.

  /** What the ranker returns for a sequence of data rows: an error exactly when some
      row that takes the lead has no link; "" when no row beats (0, 0); otherwise the
      link of the earliest row with the lexicographically greatest (rating, votes),
      which is its second "song" link when it has two or more and its only link
      otherwise. */
  lemma RankedResult(rows: seq<Row>)
    ensures RankRows(rows).Err? <==> HasLinklessRecord(rows)
    ensures NoneBeatsBaseline(rows) ==> RankRows(rows) == Ok("")
    ensures forall k :: 0 <= k < |rows| && IsWinner(rows, k) && RankRows(rows).Ok? ==>
      && |rows[k].links| > 0
      && (|rows[k].links| == 1 ==> RankRows(rows).value == rows[k].links[0])
      && (|rows[k].links| >= 2 ==> RankRows(rows).value == rows[k].links[1])
  {
    ScanInvariant(rows);
    forall k | 0 <= k < |rows| && IsWinner(rows, k) && RankRows(rows).Ok?
      ensures |rows[k].links| > 0 && RankRows(rows).value == Pick(rows[k].links)
    {
      assert !NoneBeatsBaseline(rows) by {
        assert Beats(ScoreOf(rows[k]), Baseline);
      }
      var k' :| 0 <= k' < |rows| && IsWinner(rows, k') && |rows[k'].links| > 0
                && Scan(rows).value == Best(ScoreOf(rows[k']), Pick(rows[k'].links));
      WinnerUnique(rows, k, k');
    }
  }

  /** When every row has a non-empty link, ranking succeeds, and its result is ""
      exactly when no row's (rating, votes) is greater than (0, 0). */
  lemma EmptyExactlyWhenNothingBeatsBaseline(rows: seq<Row>)
    requires WellLinked(rows)
    ensures RankRows(rows).Ok?
    ensures RankRows(rows).value == "" <==> NoneBeatsBaseline(rows)
  {
    RankedResult(rows);
    WinnerExists(rows);
    if !NoneBeatsBaseline(rows) {
      var k :| 0 <= k < |rows| && IsWinner(rows, k);
      assert Pick(rows[k].links) in rows[k].links;
    }
  }

  /** The table heading never influences the result: a page whose table is a heading
      followed by `data` is ranked exactly as `data` alone, whatever the heading holds. */
  lemma HeaderIgnored(heading: Row, data: seq<Row>)
    ensures BestRatedResult(Page(false, [heading] + data)) == RankRows(data)
  {
  }

  /** Appending a row that some earlier row matches or outranks, or that does not beat
      (0, 0), never changes the result, even when that row has no link. */
  lemma AppendDominatedRow(rows: seq<Row>, x: Row)
    requires || !Beats(ScoreOf(x), Baseline)
             || exists j :: 0 <= j < |rows| && !Beats(ScoreOf(x), ScoreOf(rows[j]))
    ensures RankRows(rows + [x]) == RankRows(rows)
  {
    var ext := rows + [x];
    assert ext[..|ext| - 1] == rows;
    ScanInvariant(rows);
    match Scan(rows)
    case Err(_) => {
    }
    case Ok(best) => {
      if !NoneBeatsBaseline(rows) {
        var k :| 0 <= k < |rows| && IsWinner(rows, k) && |rows[k].links| > 0
                 && best == Best(ScoreOf(rows[k]), Pick(rows[k].links));
        WinnerIsFirstMaximum(rows, k);
        if !Beats(ScoreOf(x), Baseline) {
          assert Beats(best.score, Baseline);
        } else {
          var j :| 0 <= j < |rows| && !Beats(ScoreOf(x), ScoreOf(rows[j]));
          assert !Beats(ScoreOf(rows[j]), best.score);
        }
      }
      assert !Beats(ScoreOf(x), best.score);
    }
  }

  /** Appending a row that beats (0, 0) and every earlier row makes it the choice: its
      link is returned when it has one, and ranking fails when it has none (unless the
      earlier rows already failed). */
  lemma AppendLeadingRow(rows: seq<Row>, x: Row)
    requires Beats(ScoreOf(x), Baseline)
    requires forall j :: 0 <= j < |rows| ==> Beats(ScoreOf(x), ScoreOf(rows[j]))
    requires RankRows(rows).Ok?
    ensures |x.links| > 0 ==> RankRows(rows + [x]) == Ok(Pick(x.links))
    ensures |x.links| == 0 ==> RankRows(rows + [x]) == Err(MissingSongLink)
  {
    var ext := rows + [x];
    assert ext[..|ext| - 1] == rows;
    ScanInvariant(rows);
    var best := Scan(rows).value;
    if !NoneBeatsBaseline(rows) {
      var k :| 0 <= k < |rows| && IsWinner(rows, k) && |rows[k].links| > 0
               && best == Best(ScoreOf(rows[k]), Pick(rows[k].links));
      assert Beats(ScoreOf(x), ScoreOf(rows[k]));
    }
    assert Beats(ScoreOf(x), best.score);
  }

  /** An unrated row stands where a rating of 2.5 with no votes would: it beats
      the baseline, beats a rated row of at most 2 stars, loses to a rated row of 3 or
      more stars, never ties a rated row, and never beats another unrated row. */
  lemma UnratedRanksAsAverage(links: seq<string>, other: seq<string>, stars: int, votes: int)
    ensures Beats(ScoreOf(Row(Unrated, links)), Baseline)
    ensures Beats(ScoreOf(Row(Unrated, links)), ScoreOf(Row(Rated(stars, votes), other))) <==> stars <= 2
    ensures Beats(ScoreOf(Row(Rated(stars, votes), other)), ScoreOf(Row(Unrated, links))) <==> stars >= 3
    ensures !Beats(ScoreOf(Row(Unrated, links)), ScoreOf(Row(Unrated, other)))
  {
  }

  /** When no data row is rated, the first data row wins (every row stands at 2.5 with
      no votes and a tie never takes the lead). */
  lemma AllUnratedPicksFirst(rows: seq<Row>)
    requires |rows| > 0 && |rows[0].links| > 0
    requires forall i :: 0 <= i < |rows| ==> rows[i].rating.Unrated?
    ensures RankRows(rows) == Ok(Pick(rows[0].links))
  {
    RankedResult(rows);
    assert IsWinner(rows, 0);
    forall i | 0 <= i < |rows| && IsRecord(rows, i)
      ensures i == 0
    {
    }
  }

  /** Between two linked rows whose standings differ, the one with the greater
      (rating, votes) is chosen whichever order they come in, provided it beats (0, 0). */
  lemma TwoRowsOrderIrrelevant(a: Row, b: Row)
    requires |a.links| > 0 && |b.links| > 0
    requires Beats(ScoreOf(a), ScoreOf(b)) && Beats(ScoreOf(a), Baseline)
    ensures RankRows([a, b]) == Ok(Pick(a.links))
    ensures RankRows([b, a]) == Ok(Pick(a.links))
  {
    BeatsIsStrictTotalOrder(ScoreOf(a), ScoreOf(b), ScoreOf(a));
    RankedResult([a, b]);
    assert IsWinner([a, b], 0);
    RankedResult([b, a]);
    assert IsWinner([b, a], 1);
  }

  /** Between two linked rows with equal standing above (0, 0), the first is chosen. */
  lemma TieKeepsEarlier(a: Row, b: Row)
    requires |a.links| > 0 && |b.links| > 0
    requires ScoreOf(a) == ScoreOf(b) && Beats(ScoreOf(a), Baseline)
    ensures RankRows([a, b]) == Ok(Pick(a.links))
  {
    RankedResult([a, b]);
    assert IsWinner([a, b], 0);
  }
}
