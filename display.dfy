/**
 * The leaderboard page: the loaded entries and the body of the ranking table,
 * which `displayLeaderboard` empties and then fills with one numbered row per
 * selected entry.
 */
module Display {
  import opened Ranking

  /** One table row: rank, learner name, score (shown as a percentage) and subject. */
  datatype Row = Row(rank: nat, name: string, score: int, subject: string)

  /** The row built for the entry at position `index` of the selection: ranks count from 1. */
  function RowAt(index: nat, e: Entry): (row: Row)
    ensures row.rank >= 1 && row.rank - 1 == index
    ensures EntryOf(row) == e
  {
    Row(index + 1, e.name, e.score, e.subject)
  }

  /** The rows for a whole selection, one per entry, ranked from 1 in order. */
  function Numbered(entries: seq<Entry>): (rows: seq<Row>)
    ensures |rows| == |entries|
    ensures forall k :: 0 <= k < |rows| ==> rows[k].rank == k + 1 && EntryOf(rows[k]) == entries[k]
  {
    seq(|entries|, k requires 0 <= k < |entries| => RowAt(k, entries[k]))
  }

  /** Numbering one more entry appends one row with the next rank. */
  lemma NumberedSnoc(entries: seq<Entry>, i: nat)
    requires i < |entries|
    ensures Numbered(entries[..i + 1]) == Numbered(entries[..i]) + [RowAt(i, entries[i])]
  {
  }

  /** The entry a row was built from. */
  function EntryOf(row: Row): Entry {
    Entry(row.name, row.score, row.subject)
  }

  /** The entries the rows were built from, top to bottom. */
  function Unnumbered(rows: seq<Row>): (es: seq<Entry>)
    ensures |es| == |rows|
    ensures forall k :: 0 <= k < |rows| ==> es[k] == EntryOf(rows[k])
  {
    if rows == [] then [] else [EntryOf(rows[0])] + Unnumbered(rows[1..])
  }

  /**
   * The rows carry ranks 1, 2, ..., n with no gap and give back exactly the
   * selected entries, in order.
   */
  lemma NumberedRoundTrip(entries: seq<Entry>)
    ensures forall k :: 0 <= k < |Numbered(entries)| ==> Numbered(entries)[k].rank == k + 1
    ensures Unnumbered(Numbered(entries)) == entries
  {
  }

  /** The leaderboard page: the loaded entries and the table body. */
  class LeaderboardPage {
    /** The leaderboard entries loaded when the page starts. */
    var stored: seq<Entry>
    /** The rows currently in the table body. */
    var body: seq<Row>

    /** The page as loaded: `loaded` is what the store held; the table is empty. */
    constructor (loaded: seq<Entry>)
      ensures stored == loaded && body == []
    {
      stored := loaded;
      body := [];
    }

    /**
     * Shows the ranking for `subject`: earlier rows are removed, then one row
     * per selected entry is appended, numbered from 1. The loaded entries
     * stay as they were.
     */
    method Display(subject: string)
      modifies this`body
      ensures body == Numbered(TopTen(stored, subject))
      ensures stored == old(stored)
    {
      body := [];
      var selected := TopTen(stored, subject);
      for index := 0 to |selected|
        invariant body == Numbered(selected[..index])
      {
        NumberedSnoc(selected, index);
        body := body + [RowAt(index, selected[index])];
      }
      assert selected[..|selected|] == selected;
    }
  }

  /**
   * Showing the same subject twice leaves the same table as showing it once,
   * since the body is emptied first.
   */
  method DisplayIsIdempotent(page: LeaderboardPage, subject: string)
    modifies page
    ensures page.stored == old(page.stored)
    ensures page.body == Numbered(TopTen(page.stored, subject))
  {
    page.Display(subject);
    ghost var once := page.body;
    page.Display(subject);
    assert page.body == once;
  }
}
