# EduQuiz leaderboard ranking — a verified Dafny model

EduQuiz is a browser quiz application. Its leaderboard page loads the stored
leaderboard entries (name, percentage score, subject) once, and whenever a
subject is chosen, `displayLeaderboard` rebuilds the ranking table. It empties
the table body. It keeps the entries of that subject, sorts them by score with
the highest first, and keeps at most ten. It then appends one row per kept
entry, numbered from 1.

The model has two modules:

- `Ranking` (ranking.dfy) is the selection pipeline, written as pure functions:
  `OfSubject` is the `filter`, `SortByScore` the `sort` and `TopTen` the
  `slice`. The sort is modelled as a stable insertion sort by descending
  score. `Array.prototype.sort` is stable since ECMAScript 2019.
  `SortByScoreIsTheStableSort` proves that every stable descending ordering of
  the input equals `SortByScore`'s result, so the model does not depend on
  which algorithm the JavaScript engine uses.
- `Display` (display.dfy) is the page. `LeaderboardPage` holds the loaded
  entries (`stored`, the module-level `leaderboardData`) and the rows of the
  table body (`body`). Its `Display` method clears `body` and appends rows in
  a loop, as the source's `forEach` does. A row is the tuple
  (rank, name, score, subject), not HTML markup.

The loaded entries are a constructor parameter: reading the browser store is
not modelled. Scores are integers. The comparator `b.score - a.score` is used
only for its sign, so it is modelled as a comparison of two integers.

## Model

| member | source | states |
|---|---|---|
| `Ranking.OfSubject` | script.js:21-22 | every kept entry has exactly the requested subject, and the result is a sub-multiset of the stored entries |
| `Ranking.OfSubjectCounts` | script.js:21-22 | each stored entry whose subject is exactly the requested one is kept as often as it is stored; no entry of another subject is kept |
| `Ranking.OfSubjectAppend` | script.js:22 | filtering stored entries a followed by b gives what is kept of a followed by what is kept of b, so the kept entries stay in stored order (an order-reversing filter fails this) |
| `Ranking.SortByScore` | script.js:23 | the result is a permutation of the input and its scores never increase |
| `Ranking.InsertKeepsDescending` | script.js:23 | placing one entry into a descending sequence keeps it descending |
| `Ranking.InsertKeepsTies` | script.js:23 | an inserted entry goes ahead of the entries of its own score and leaves the entries of every other score in place |
| `Ranking.SortKeepsTies` | script.js:23 | the sort is stable: for every score, the entries with that score come out in the order they went in |
| `Ranking.DescendingDeterminedByTies` | script.js:23 | two descending sequences that agree, for every score, on the entries of that score and their order are equal |
| `Ranking.SortByScoreIsTheStableSort` | script.js:23 | any descending ordering that keeps ties in input order equals the model's sort, so a stable sort's result is unique |
| `Ranking.Ranked` | script.js:21-23 | the sorted matches are a permutation of the matching entries, as many as there are matches, with scores never increasing |
| `Ranking.Shown` | script.js:24 | the number of rows kept by `slice(0, 10)` is at most the number of matches and at most ten, and equals one of the two |
| `Ranking.TopTen` | script.js:21-24 | at most ten entries; exactly min(10, number of matching entries); every entry has the requested subject; scores never increase; a sub-multiset of the matching entries |
| `Ranking.OfSubjectWithScore` | script.js:21-23 | selecting by subject and selecting by score give the same result in either order |
| `Ranking.TopTenKeepsTiesInStoredOrder` | script.js:21-24 | for each score, the shown entries with that score are the first stored entries of that subject and score, in stored order; all of them when at most ten entries match |
| `Ranking.TopTenKeepsAllWhenFew` | script.js:21-24 | when at most ten entries match, every matching entry is shown, as often as it is stored |
| `Ranking.TopTenLeavesOutOnlyLower` | script.js:21-24 | every matching entry that is left out scores no more than every entry that is shown |
| `Ranking.TopTenMathExample` | script.js:21-24 | for the entries (A, 90, Math), (B, 95, Math) and (C, 88, Sci), "Math" shows B then A |
| `Ranking.TopTenSciExample` | script.js:21-24 | for the same entries, "Sci" shows C alone |
| `Ranking.TopTenTieExample` | script.js:21-24 | for (A, 90, Math) stored before (B, 90, Math), "Math" shows A then B: equal scores keep their stored order |
| `Display.RowAt` | script.js:27-34 | the row for position `index` has rank `index + 1`, counting from 1, and carries the entry's name, score and subject |
| `Display.Numbered` | script.js:26-36 | one row per selected entry, in order; row k has rank k + 1 and carries entry k's name, score and subject |
| `Display.NumberedRoundTrip` | script.js:26-35 | row k carries rank k + 1, so ranks run 1..n without gaps; reading the name, score and subject back from the rows gives the selected entries in order |
| `Display.LeaderboardPage.constructor` | script.js:14 | the page starts with the loaded entries as `stored`; the table body is taken to start empty |
| `Display.LeaderboardPage.Display` | script.js:17-37 | afterwards the table holds exactly one numbered row per entry of `TopTen` for the subject, in order, and no row from earlier calls; the loaded entries are unchanged |
| `Display.DisplayIsIdempotent` | script.js:19-36 | showing the same subject twice leaves the same table as showing it once |

## Left out

- The DOM and event wiring (script.js:18, 40-48): the `change` listener on the subject selector and the default display on `DOMContentLoaded` only call `displayLeaderboard` with a subject. The table body is an abstract sequence of rows.
- HTML templating and `insertAdjacentHTML` (script.js:27-35). A row is a tuple, not markup. The source does not escape `name`, so a name containing markup would be inserted as markup; the model does not capture this.
- Reading the store and parsing JSON (script.js:14). This is browser I/O. The loaded entries are a given sequence.
- The `sampleData` fallback (script.js:14). Its definition is commented out (script.js:6-11), so with an empty store the source stops on a ReferenceError when the page loads. No fallback value is modelled.
- The table's rows before the first display come from the page's HTML, not from script.js. The constructor takes them to be empty. No contract depends on this, because `Display` replaces the whole body.
- JavaScript number semantics: scores are integers here, never floating-point values or NaN.
