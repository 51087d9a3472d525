# Institutional dashboard analytics in Dafny

This project models the computing core of a Streamlit "institutional dashboard" with four pages:

- **HR analytics**: staff head count, minimum age, per-category staff counts, the experience histogram, experience and salary statistics, and the top-ten / bottom-ten staff tables.
- **Library analytics**: distinct books, authors and publishers; books per decade and per price range; 2019 returns per status and month; the ten most borrowed books; the ten authors and the ten publishers with most books; member counts by id prefix; monthly footfall.
- **Student analytics**: total, male and female students; the discontinued, retained and moved flag counts.
- **Campus placement**: the scale tier `format_number` picks for a rupee amount, and the maximum and minimum CTC.

## How the model is built

Every table is a `seq` of row datatypes. The pandas operations the pages chain together are modelled once, generically, in module `Frame` (`frame.dfy`):

- boolean-mask selection `df[mask]`;
- column selection;
- `nunique`;
- `value_counts` and `groupby(...).count()`;
- `groupby(...).sum()`;
- the inner `merge` on a key;
- `sort_values(...).head(n)` and `nlargest`;
- `min` and `max`;
- `pd.cut` with right-closed intervals.

Counting facts are stated against one reference definition: the number of row positions `i` whose row satisfies a property, `|set i | 0 <= i < |rows| && P(rows[i])|`. Each page is one module that imports `Frame`:

- `HrAnalytics` in `hr_analytics.dfy`;
- `LibraryAnalytics` in `library_analytics.dfy`;
- `StudentAnalytics` in `student_analytics.dfy`;
- `CampusAnalytics` in `campus_analytics.dfy`.

Each module states the page's metrics as functions whose contracts say what the number or table means.

Two pages write derived columns into the loaded tables in place:

- the HR page writes `Experience_Range`;
- the library page writes `Decade` and `Price Range`.

Each of these becomes a small class (`HrAnalytics.StaffTable`, `LibraryAnalytics.Catalogue`) that holds the table and the derived column as fields. Each tab is a method that assigns the column and returns the aggregate it feeds, proved equal to the pure definition.

Where the code and its description differ, the model follows the code:

- `pd.cut` intervals are closed on the right. An experience of exactly 0 falls in no bin and drops out of the histogram (`HrAnalytics.ZeroExperienceUnbinned`). The same holds for any value outside the first and last edge.
- The placeholder experience 9999 is not filtered before binning, so those employees fall in the "Above 31" bin (`HrAnalytics.SentinelInTopBin`).
- The inner merge multiplies. A book id held by two catalogue rows counts every loan twice (`Frame.JoinKeysCount`).
- The publisher tab ranks every publisher by its book count and then shows the first ten rows with `head(10)`. The authors tab cuts to ten with `nlargest(10)` instead. Both give the same ten up to ties.
- Member ids are classified by prefix alone. An id with neither prefix is simply not counted.
- Flag counts count the value 1 only. Every other value is ignored.
- The minimum or maximum of an empty selection is pandas' NaN, modelled as `None`.

## Model

| member | source | states |
|---|---|---|
| Frame.CountWhere | pages/3_Student_Analytics.py:25 | `len(df[mask])` is the number of row positions whose row passes the mask, at most the number of rows |
| Frame.NUnique | 1_HR_Analytics.py:24 | `nunique` is the size of the set of values in the column: at most its length, at least 1 when it is non-empty |
| Frame.NUniqueAllDistinct | 1_HR_Analytics.py:24 | the distinct count equals the length exactly when no value repeats |
| Frame.DisjointMasks | pages/3_Student_Analytics.py:25-27 | two masks that no row satisfies together select at most the whole table between them |
| Frame.ValueCounts | 1_HR_Analytics.py:66 | `value_counts` lists each value of the column once, with its number of occurrences, largest counts first |
| Frame.SortedByCount | 1_HR_Analytics.py:66 | sorting a count table by count keeps it a count table of the same column and makes its counts non-increasing |
| Frame.SortedDistinct | pages/2_Library_Analytics.py:73 | the `groupby` keys of an integer column: strictly ascending, no repeats, exactly the values of the column |
| Frame.SortedGroupCounts | pages/2_Library_Analytics.py:73 | `groupby(key).count()`: a count table of the key column with strictly ascending keys |
| Frame.FilteredCountTable | 1_HR_Analytics.py:47 | a count table of column f over the rows passing p gives each label the number of table rows that pass p and carry it, covers every such row, and sums to the number of rows passing p |
| Frame.ColumnCountTable | 1_HR_Analytics.py:66 | a count table of a whole column counts table rows per label and sums to the number of rows |
| Frame.FilteredKeep | 1_HR_Analytics.py:47 | a label of a filtered count table satisfies every property that the mask guarantees of the labelled column |
| Frame.FilteredCountsDisjoint | 1_HR_Analytics.py:75-91 | count tables over two disjoint masks count at most the whole table between them |
| Frame.SumsTotal | pages/2_Library_Analytics.py:169 | per-group sums over distinct keys that cover every row add up to the column total |
| Frame.JoinKeysCount | pages/2_Library_Analytics.py:116 | a key occurs in the inner merge once per pair of a dimension row and a fact row that carry it |
| Frame.JoinKeysMembers | pages/2_Library_Analytics.py:116 | a key survives the inner merge exactly when both tables hold it |
| Frame.TopRows | 1_HR_Analytics.py:148-149 | `df[mask].sort_values(ascending=False).head(n)`: min(n, rows passing) rows, a sub-multiset of the passing rows (no row listed more often than it passes), keys non-increasing, and no passing row left out, each copy of a repeated row counted separately, has a larger key than a listed one |
| Frame.BottomRows | 1_HR_Analytics.py:156-157 | the ascending sort with `head(n)`: min(n, rows passing) rows, a sub-multiset of the passing rows, keys non-decreasing, and no passing row left out, each copy counted separately, has a smaller key than a listed one |
| Frame.TopOfCountTable | pages/2_Library_Analytics.py:131-132 | `nlargest(n)` of a count table: min(n, distinct values) distinct labels, each with its occurrence count, counts non-increasing, and no left-out value occurs more often than a listed one |
| Frame.MaxWhere | 1_HR_Analytics.py:122 | the maximum of column f over the rows passing p: None exactly when no row passes; otherwise a value some passing row has, at least every passing row's value |
| Frame.MinWhere | 1_HR_Analytics.py:126 | the minimum, dually |
| Frame.MinBelowMax | 1_HR_Analytics.py:122-126 | the minimum and the maximum over the same selection exist together, and the minimum is at most the maximum |
| Frame.BinRange | 1_HR_Analytics.py:101-102 | with strictly increasing edges, a value lies in some right-closed bin exactly when first edge < value <= last edge, and the bin index is below the number of bins |
| Frame.CutCounts | 1_HR_Analytics.py:102-103 | counting the bin codes of `pd.cut`: one count per bin, bin b counting the values in (edges[b], edges[b+1]], all bins together counting the values in (first edge, last edge] |
| HrAnalytics.TotalStaff | 1_HR_Analytics.py:24 | the head count is the number of distinct staff ids, at most the number of rows |
| HrAnalytics.TotalStaffAllDistinct | 1_HR_Analytics.py:24 | the head count equals the number of rows exactly when no staff id repeats |
| HrAnalytics.MinAge | 1_HR_Analytics.py:38 | None exactly for an empty table; otherwise an age some employee has, at most every employee's age |
| HrAnalytics.DepartmentCounts | 1_HR_Analytics.py:47 | employees per department, the rows of the three support departments excluded: each count is that department's number of rows, no support label appears, largest first |
| HrAnalytics.StreamCounts | 1_HR_Analytics.py:57 | the same for the stream column |
| HrAnalytics.QualificationCounts | 1_HR_Analytics.py:66 | employees per qualification over the whole table, adding up to the number of rows, largest first |
| HrAnalytics.DesignationCounts | 1_HR_Analytics.py:75 | employees per designation, support roles and Dean/Principal excluded, largest first |
| HrAnalytics.GenderCounts | 1_HR_Analytics.py:84 | employees per gender over the whole table, adding up to the number of rows, largest first |
| HrAnalytics.SupportStaffCounts | 1_HR_Analytics.py:91 | employees per support role: only Driver, House Keeping and Security appear, each with its number of rows, largest first |
| HrAnalytics.SupportAndDesignationDisjoint | 1_HR_Analytics.py:75-91 | the support chart and the designation chart share no label, and together count at most the number of employees |
| HrAnalytics.ExperienceEdges | 1_HR_Analytics.py:101 | the eight edges 0, 2, 5, 10, 15, 20, 30 and the table's largest experience are strictly increasing, and every experience is at most the last one |
| HrAnalytics.ExperienceRange | 1_HR_Analytics.py:102 | the Experience_Range column: no bin exactly when the experience is not positive; otherwise one of the seven bins, the one containing the experience |
| HrAnalytics.ExperienceHistogram | 1_HR_Analytics.py:102-103 | the seven labels in bin order; bin b counts the employees with experience in (edges[b], edges[b+1]]; together they count every employee with positive experience |
| HrAnalytics.ZeroExperienceUnbinned | 1_HR_Analytics.py:101-102 | an employee with experience 0 gets no bin, because the first interval is open at 0 |
| HrAnalytics.SentinelInTopBin | 1_HR_Analytics.py:101-102 | an employee with the placeholder experience 9999 falls in bin 6, labelled "Above 31" |
| HrAnalytics.StaffTable.ExperienceTab | 1_HR_Analytics.py:101-103 | assigns the Experience_Range column in place, leaves the staff rows unchanged, and returns the experience histogram |
| HrAnalytics.MaxExperience | 1_HR_Analytics.py:122 | the largest experience among rows whose experience is not 9999: None exactly when every row is a placeholder; otherwise not 9999, held by some row, and at least every known experience |
| HrAnalytics.MinExperience | 1_HR_Analytics.py:126 | the smallest known experience, dually |
| HrAnalytics.MaxSalary | 1_HR_Analytics.py:136 | the largest salary among rows whose salary is not 999999999, stated as for MaxExperience |
| HrAnalytics.MinSalary | 1_HR_Analytics.py:140 | the smallest known salary, dually |
| HrAnalytics.StatisticsOrdered | 1_HR_Analytics.py:122-140 | the minimum and the maximum of experience, and of salary, exist together, and the minimum is at most the maximum |
| HrAnalytics.MostExperienced | 1_HR_Analytics.py:148-149 | min(10, known-experience rows) employees, a sub-multiset of the rows without the placeholder, experience non-increasing, and no known-experience row left out, each copy of a repeated row counted separately, has more experience than a listed one |
| HrAnalytics.LeastExperienced | 1_HR_Analytics.py:156-157 | min(10, known-experience rows) employees, a sub-multiset of the rows without the placeholder, experience non-decreasing, and no known-experience row left out, each copy counted separately, has less experience than a listed one |
| HrAnalytics.HighestSalaries | 1_HR_Analytics.py:164-165 | the ten highest known salaries, stated as for MostExperienced |
| HrAnalytics.LowestSalaries | 1_HR_Analytics.py:173-174 | the ten lowest known salaries, stated as for LeastExperienced |
| LibraryAnalytics.UniqueBooks | pages/2_Library_Analytics.py:31 | the number of distinct book ids, at most the number of catalogue rows |
| LibraryAnalytics.UniqueAuthors | pages/2_Library_Analytics.py:37 | the number of distinct authors, at most the number of catalogue rows |
| LibraryAnalytics.UniquePublishers | pages/2_Library_Analytics.py:43 | the number of distinct publishers, at most the number of catalogue rows |
| LibraryAnalytics.Decade | pages/2_Library_Analytics.py:71 | `(year // 10) * 10` is a multiple of ten, at most the year and less than ten below it |
| LibraryAnalytics.DecadeCounts | pages/2_Library_Analytics.py:71-73 | books per decade: each decade that occurs once, in ascending order, each with its number of books, every book counted once |
| LibraryAnalytics.PriceEdgesShape | pages/2_Library_Analytics.py:83 | the nine price edges are strictly increasing, 400 apart |
| LibraryAnalytics.PriceBin | pages/2_Library_Analytics.py:83-85 | a price lies in a bin exactly when it is in (400, 3600], and then in bin (price - 1) / 400 - 1 only |
| LibraryAnalytics.PriceRange | pages/2_Library_Analytics.py:83-84 | the Price Range column: one code per book, present exactly when the price is in (400, 3600], and then bin (price - 1) / 400 - 1 |
| LibraryAnalytics.PriceCounts | pages/2_Library_Analytics.py:83-87 | the eight price labels in bin order; bin b counts the books priced in (edges[b], edges[b+1]]; together they count the books priced in (400, 3600] |
| LibraryAnalytics.Catalogue.YearTab | pages/2_Library_Analytics.py:71-73 | assigns the Decade column in place, leaves the catalogue unchanged, and returns the decade counts |
| LibraryAnalytics.Catalogue.PriceTab | pages/2_Library_Analytics.py:83-87 | assigns the Price Range column in place, leaves the catalogue unchanged, and returns the price counts |
| LibraryAnalytics.ReturnsByMonth | pages/2_Library_Analytics.py:97-101 | over loans due in 2019 only: each (status, month) once, counted by its number of those loans, every 2019 loan counted, and each group held by some 2019 loan |
| LibraryAnalytics.MergedIds | pages/2_Library_Analytics.py:116 | a book id is in the merged table exactly when the catalogue and the loans both hold it, once per matching (catalogue row, loan) pair |
| LibraryAnalytics.TopLoanCounts | pages/2_Library_Analytics.py:116-122 | ten book ids, or every book with a catalogue row and a loan when fewer exist; each with its number of merged rows, largest first, and no left-out merged id has a larger count |
| LibraryAnalytics.PopularBooksRanking | pages/2_Library_Analytics.py:116-122 | min(10, books with a catalogue row and a loan) distinct book ids, largest counts first; each count is the number of matching (catalogue row, loan) pairs; each listed book has a catalogue row and a loan; no left-out book with both has a larger count |
| LibraryAnalytics.BooksWithId | pages/2_Library_Analytics.py:124 | the catalogue rows with a given id, none else |
| LibraryAnalytics.BooksWithIdCount | pages/2_Library_Analytics.py:124 | a listing with the given id is projected from exactly as many rows as the catalogue holds it, one with another id from none |
| LibraryAnalytics.Listings | pages/2_Library_Analytics.py:124 | the merge of leaderboard rows with the catalogue: each listing projects a catalogue row whose id is on the leaderboard, and every such row is listed |
| LibraryAnalytics.ListingsCount | pages/2_Library_Analytics.py:124 | each listing occurs (leaderboard rows with its id) × (catalogue rows it projects) times |
| LibraryAnalytics.ListingsOnce | pages/2_Library_Analytics.py:124 | with distinct leaderboard ids, each catalogue row of a listed book is listed exactly as often as the catalogue holds it, and others never |
| LibraryAnalytics.ListingsOrder | pages/2_Library_Analytics.py:124 | with distinct leaderboard ids, the listings follow the leaderboard order |
| LibraryAnalytics.BlockRanks | pages/2_Library_Analytics.py:124 | appending the rows of a new last leaderboard id after listings already in order keeps the order |
| LibraryAnalytics.PopularBooks | pages/2_Library_Analytics.py:124 | the listing rows are exactly the projections of catalogue rows whose id is on the leaderboard, each as often as the catalogue holds it, in leaderboard order |
| LibraryAnalytics.TopAuthors | pages/2_Library_Analytics.py:131-132 | min(10, distinct authors) authors, each with its number of books, largest first, and no left-out author has more books than a listed one |
| LibraryAnalytics.PublisherRanking | pages/2_Library_Analytics.py:140-143 | every publisher once with its number of books, all books counted, largest first |
| LibraryAnalytics.TopPublishers | pages/2_Library_Analytics.py:140-146 | the first ten rows of the ranking: min(10, distinct publishers) publishers, each with its number of books, largest first, and no left-out publisher has more books than a listed one |
| LibraryAnalytics.PrefixesExclusive | pages/2_Library_Analytics.py:154-158 | no member id starts with both "Staff" and "Student" |
| LibraryAnalytics.StaffMembers | pages/2_Library_Analytics.py:154 | the number of member ids starting with "Staff" |
| LibraryAnalytics.StudentMembers | pages/2_Library_Analytics.py:158 | the number of member ids starting with "Student" |
| LibraryAnalytics.TotalMembers | pages/2_Library_Analytics.py:162 | staff plus students: the number of ids with either prefix, never more than the member rows |
| LibraryAnalytics.PeriodOf | pages/2_Library_Analytics.py:169 | the (year, month) of a month key, whose key is that month key again |
| LibraryAnalytics.PeriodOfKey | pages/2_Library_Analytics.py:169 | the key of (year, month) maps back to (year, month), so distinct months have distinct keys |
| LibraryAnalytics.MonthlyFootfall | pages/2_Library_Analytics.py:169 | one row per month key present, carrying that key, strictly ascending in (year, month) order |
| LibraryAnalytics.MonthlyFootfallCovers | pages/2_Library_Analytics.py:169 | every month that has a footfall row is listed |
| LibraryAnalytics.MonthlyFootfallMonths | pages/2_Library_Analytics.py:169 | only months that have footfall rows are listed, and each month's totals sum that month's rows |
| LibraryAnalytics.MonthlyFootfallTotals | pages/2_Library_Analytics.py:169 | the monthly footfall and conversion totals add up to the column totals |
| StudentAnalytics.TotalStudents | pages/3_Student_Analytics.py:23 | the number of rows the all-true mask keeps, which no mask's row count exceeds |
| StudentAnalytics.MaleStudents | pages/3_Student_Analytics.py:25 | the number of rows whose gender is exactly "Male" (case-sensitive), at most the total |
| StudentAnalytics.FemaleStudents | pages/3_Student_Analytics.py:27 | the number of rows whose gender is exactly "Female", at most the total |
| StudentAnalytics.GenderSplit | pages/3_Student_Analytics.py:23-27 | male + female never exceeds the total |
| StudentAnalytics.DiscontinuedStudents | pages/3_Student_Analytics.py:57 | the number of rows whose discontinued flag is exactly 1, at most the total |
| StudentAnalytics.RetainedStudents | pages/3_Student_Analytics.py:59 | the number of rows whose retained flag is exactly 1, at most the total |
| StudentAnalytics.MovedStudents | pages/3_Student_Analytics.py:61 | the number of rows whose moved-between-departments flag is exactly 1, at most the total |
| StudentAnalytics.FlagsOverlap | pages/3_Student_Analytics.py:57-61 | one student may be counted under every flag, so the flag counts can add up to more than the total |
| CampusAnalytics.TierOf | pages/4_Campus_Analytics.py:17-24 | exactly one tier per amount: B for at least 1e9, M for [1e6, 1e9), K for [1e3, 1e6), none below 1e3 (negatives included) |
| CampusAnalytics.FormatNumber | pages/4_Campus_Analytics.py:16-24 | starts with "₹ ", carries the tier's suffix, and the scaled amount times the tier's divisor is the input; scaled amount at least 1 in the B, M and K tiers and below 1000 in every tier but B |
| CampusAnalytics.TierMonotone | pages/4_Campus_Analytics.py:17-24 | a larger amount never gets a smaller tier |
| CampusAnalytics.MaxCtc | pages/4_Campus_Analytics.py:32 | None exactly for an empty table; otherwise a CTC some placement has, at least every CTC |
| CampusAnalytics.MinCtc | pages/4_Campus_Analytics.py:35 | the minimum CTC, dually |
| CampusAnalytics.CtcRange | pages/4_Campus_Analytics.py:32-35 | over a non-empty table both exist and the minimum is at most the maximum |

## Left out

- Streamlit layout, images, metrics, tabs, select boxes and every Plotly figure. This includes the category counting inside `px.histogram` on the student, campus and library language/genre charts: that counting happens in a library call.
- CSV loading and `@st.cache`. The tables are parameters.
- Means and all rounding and digit formatting: average age, experience, salary and CTC, `round(..., 2)`, `'{:.1f}'` and `'{:,.0f}'`. These are floating-point renderings. `CampusAnalytics.FormatNumber` returns the currency, the exact scaled amount and the suffix, not the formatted digits.
- Date parsing (`pd.to_datetime`, `.dt.year`, `.dt.month`, `to_period('M')`) and `.astype(str)` on the monthly table. Dates are given as parsed (year, month) pairs.
- The display index shifts (`index += 1`, `reset_index`) and the column projection of the HR top tables. The top tables return whole staff rows.
- NaN and missing-value handling: `nunique` and `count` skipping nulls, `startswith` on a null id. Every cell is assumed present.
- `pd.cut` raising on edges that are not increasing. The HR histogram requires the table's largest experience to exceed 30 (`HrAnalytics.HasExperienceBins`).
- Tie order after `sort_values` and `nlargest`. The sort is not stable, so among equal keys the contracts fix which rows are chosen by key only, not by position.
- LibraryAnalytics.ReturnsByMonth: the groups are in first-appearance order. The lexicographic order of pandas' group keys is not modelled.
- CampusAnalytics.MaxCtc: CTC is an integer amount, not a float column. Only the tier choice takes a real.
- Integers are unbounded. No pandas column type overflows at these magnitudes.
