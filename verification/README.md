# Pharmacoinformatics explorer — a Dafny model of its data logic

The application is a single Streamlit script. It has two tools:

- **Database browser.** It searches a product table, shows the matches as tiles twelve to a page with previous/next arrows, and drills down into one product. The drill-down shows the product's master record, seven approval flags, and two detail views built by left joins: the formulated drugs with their parent drugs, and the formulations with their excipients.
- **Association-rule explorer.** It strips the braces from one-item rule sides and narrows the rule table column by column (`filter_dataframe`). It then draws the surviving rules as a directed multigraph. Each edge is labelled with a chosen metric, and layout physics is on only for small graphs.

This project models that data logic as pure functions over sequences of rows and proves properties about them. A row is a map from column name to cell. A cell is a number, a text, a boolean, or `Missing` (NaN/None).

| file | module | what it holds |
|---|---|---|
| seqs.dfy | `Seqs` | order-preserving `Filter` and `Map`, the subsequence relation, filter algebra |
| text.dfy | `Text` | ASCII case folding, substring containment, Python's `str.strip` |
| table.dfy | `Table` | cells, rows, `str(...)` of a cell, truthiness, pandas `==` |
| browser.dfy | `Browser` | search, pagination, clamped navigation, one run of the tile view |
| filter.dfy | `ColumnFilter` | `filter_dataframe` and its slider defaults |
| drilldown.dfy | `DrillDown` | left joins, `product_id` selection, label rendering, flags, master record |
| rulegraph.dfy | `RuleGraph` | rule preparation, multigraph construction, edge labels, physics flag |

Some modelling choices that follow the code closely:

- **Text filter case.** The text filter upper-cases only the typed pattern (streamlit_app.py:277) and leaves the cell as it is, so a lower-case cell never matches a pattern with letters. The model does the same (`ColumnFilter.Holds`).
- **Missing values.** A missing approval flag is NaN, and NaN is truthy in Python, so it shows as True. A missing key in a merge matches another missing key, as in pandas. A missing `product_id` never equals the selected id, because pandas `==` on NaN is false.
- **No master record.** When the selected id has no row in the product table, the script raises an error. The model returns `None` and does not claim the script handles that case.

## Model

| member | source | states |
|---|---|---|
| Browser.Search | streamlit_app.py:67-73 | an empty term keeps the rows unchanged; otherwise a row is kept iff it is an input row and its text in some column of the frame (NaN, as "nan", where the row lacks the column) contains the term ignoring case, and every copy of a kept row is kept |
| Browser.SearchReadsCells | streamlit_app.py:68-71 | two rows whose cells agree on every column of the frame are both kept or both dropped |
| Browser.MissingCellFoundAsNan | streamlit_app.py:70 | a row with a NaN cell in any column of the frame, including one it lacks, is found by the term "nan" |
| Browser.SearchKeepsOrder | streamlit_app.py:68-73 | the search result is an order-preserving subsequence of the rows, never longer |
| Browser.TotalPages | streamlit_app.py:75-77 | the page count is the ceiling of results/12: zero iff there are no results, n <= 12*pages and 12*(pages-1) < n |
| Browser.PageSlice | streamlit_app.py:78-80 | a page has at most 12 rows; a page past the end is empty; otherwise it has min(12, rest) rows and tile i is row (page-1)*12+i |
| Browser.PagesArePrefix | streamlit_app.py:78-80 | pages 1..k concatenated are the first 12*k rows (clipped) |
| Browser.PaginationCoversAll | streamlit_app.py:75-80 | pages 1..total_pages concatenated are exactly the searched rows, in order, with no repeats or omissions |
| Browser.PageOfRow | streamlit_app.py:75-80 | every row i appears on page i/12+1, which lies within 1..total_pages, at tile i%12 |
| Browser.Navigate | streamlit_app.py:104-108 | the page stays >= 1 and within total_pages; previous moves down only from above 1; next moves up only from below total_pages; no click keeps the page |
| Browser.NavigateRoundTrip | streamlit_app.py:104-108 | next then previous, or previous then next, returns to the same page when neither click is blocked |
| Browser.WalkStaysInRange | streamlit_app.py:104-108 | from the initial page 1, no sequence of clicks leaves [1, max(1, total_pages)] |
| Browser.TilePass | streamlit_app.py:63-109 | one run as written: the count is the number of matches; the tiles are page 1 of the matches for a non-empty term and the session page otherwise; the caption page is that page after the clamped click |
| Browser.TilesLagCaption | streamlit_app.py:78-109 | as written, "next" on page 1 of 13 to 23 rows captions page 2 but shows tiles that are not page 2 |
| Browser.SearchPinsFirstPage | streamlit_app.py:63-65 | as written, with a non-empty term and 13 to 23 matches, no page and no click shows the second page of matches |
| Browser.Step | streamlit_app.py:63-108 | corrected behaviour, not the code as written: a new term resets the page to 1 and a repeated term keeps it; a click keeps the term and moves the page as the clamped previous/next of lines 104-108 over the current search's pages; an in-range page stays in range |
| Browser.StepPrev | streamlit_app.py:104-105 | corrected behaviour: "previous" moves a session above page 1 down one page and leaves page 1 where it is |
| Browser.StepNext | streamlit_app.py:107-108 | corrected behaviour: "next" moves a session below the last page up one page |
| Browser.FreshInRange | streamlit_app.py:19-20 | the first-access session (no term, page 1) is in range for any data |
| Browser.Handle | streamlit_app.py:75-109 | corrected behaviour, not the code as written: the caption page is the tiles' page; tile k is match (page-1)*12+k; an in-range session stays in range and shows a tile whenever there is a match |
| Browser.Replay | streamlit_app.py:63-108 | corrected behaviour: a run of events keeps the page >= 1 and keeps an in-range session in range |
| Browser.NextsAdvance | streamlit_app.py:107-108 | corrected behaviour: k presses of "next" move exactly k pages on while pages remain |
| Browser.EveryMatchReachable | streamlit_app.py:63-109 | corrected behaviour: after typing a new term, i/12 presses of "next" show match i as tile i%12 under the caption of page i/12+1 |
| Browser.HandleShowsCaptionPage | streamlit_app.py:104-109 | with the handler, "next" on page 1 of 13 to 23 rows shows rows 12.. under the page-2 caption |
| Browser.NextPageAfterSearch | streamlit_app.py:63-80 | with the handler, typing a new term with more than 12 matches and then "next" shows matches 12 to 23 on page 2 |
| Browser.InRangeShowsTiles | streamlit_app.py:75-80 | an in-range page over a non-empty result shows at least one tile |
| ColumnFilter.Holds | streamlit_app.py:270-277 | a range keeps exactly the rows whose cell is a number within [lo, hi], so a missing or non-numeric cell is dropped; a pattern keeps everything when empty, otherwise exactly the rows whose cell text has an occurrence of the upper-cased pattern |
| ColumnFilter.FilterFrame | streamlit_app.py:247-278 | a row is kept iff it is an input row that satisfies every selection; never more rows than the input |
| ColumnFilter.FilterFrameIsOneFilter | streamlit_app.py:256-277 | narrowing column by column equals one order-preserving filter by the conjunction of all selections |
| ColumnFilter.FilterFrameKeepsOrder | streamlit_app.py:256-277 | the filtered frame is an order-preserving subsequence of the input |
| ColumnFilter.FilterFrameIdempotent | streamlit_app.py:247-278 | applying the same selections twice gives the same frame as applying them once |
| ColumnFilter.FilterFrameNarrows | streamlit_app.py:255-277 | selecting one more column yields a subsequence of the previous result |
| ColumnFilter.EmptyPatternIsNoOp | streamlit_app.py:276-277 | a selected text column with an empty pattern leaves the result unchanged |
| ColumnFilter.UnselectedColumnsIgnored | streamlit_app.py:256-277 | two rows that agree on every selected column are kept or dropped together |
| ColumnFilter.PatternCaseIrrelevant | streamlit_app.py:277 | typing the pattern in lower or original case gives the same verdict, since it is upper-cased |
| ColumnFilter.LowerCaseCellMissesOwnPattern | streamlit_app.py:277 | the cell is not upper-cased: a cell "a" does not match the pattern "a" |
| ColumnFilter.NumbersIn | streamlit_app.py:260-261 | every numeric cell of the column is collected, and only those (missing cells are skipped) |
| ColumnFilter.MinOf | streamlit_app.py:260 | the result is an element of the list and no larger than any element |
| ColumnFilter.MaxOf | streamlit_app.py:261 | the result is an element of the list and no smaller than any element |
| ColumnFilter.SliderDomain | streamlit_app.py:259-269 | no domain iff the column holds no number; otherwise lo <= hi, both are attained, and every number lies between them |
| ColumnFilter.EnclosingRangeKeepsNumbers | streamlit_app.py:270 | any range enclosing every number of the column keeps exactly the rows whose cell is a number |
| ColumnFilter.DefaultRangeKeepsNumbers | streamlit_app.py:263-270 | leaving the slider at its default (min, max) keeps exactly the rows whose cell is a number |
| DrillDown.Merge | streamlit_app.py:174 | a merged row keeps every cell of the left row, adds the right row's other columns, and has exactly the union of both column sets |
| DrillDown.Partners | streamlit_app.py:174 | every right row with the same key is merged in, and every output is such a merge |
| DrillDown.PartnersInOrder | streamlit_app.py:174-178 | a left row's partners are its merges with the same-key right rows, one per such right row, in right-table order |
| DrillDown.JoinRow | streamlit_app.py:174 | a left row yields at least one output row; with no partner it yields itself alone; every same-key partner's merge is present, and every output is such a merge or the partnerless row itself |
| DrillDown.JoinRowExtends | streamlit_app.py:174 | every output row of a left row keeps that row's cells |
| DrillDown.LeftJoin | streamlit_app.py:174 | a left join never has fewer rows than its left table, and each of its rows is a same-key merge of a left row or a partnerless left row |
| DrillDown.LeftJoinComplete | streamlit_app.py:174 | every row a left row produces appears in the join |
| DrillDown.LeftJoinSource | streamlit_app.py:174 | every row of the join is produced by some left row |
| DrillDown.LeftJoinSpec | streamlit_app.py:174 | the join's rows are exactly those its left rows produce; every same-key merge and every partnerless left row is present |
| DrillDown.LeftJoinOne | streamlit_app.py:174-178 | the join of a one-row left table is that row's output: its same-key merges, or the row alone |
| DrillDown.LeftJoinAppend | streamlit_app.py:174-178 | joining two stacked left tables stacks their joins, so each left row contributes its output exactly once, in left order |
| DrillDown.LeftJoinKeepsLeft | streamlit_app.py:174 | every left row is extended by some output row |
| DrillDown.LeftJoinExtendsLeft | streamlit_app.py:174 | every output row extends some left row |
| DrillDown.SelectJoined | streamlit_app.py:174-175 | a row is selected iff it is a joined row whose product_id equals the selected id, with every copy kept |
| DrillDown.SelectJoinedSpec | streamlit_app.py:174-179 | every selected row carries the id and is a same-key merge of a left row or a partnerless left row; for every left row with the id, each same-key merge, or the row alone, is selected |
| DrillDown.AllLines | streamlit_app.py:209-210 | one line per label, in label order, carrying the row's cell for that label's column |
| DrillDown.Render | streamlit_app.py:207-212 | the rendered lines are an order-preserving subsequence of the label lines, and a line is rendered iff its value is present |
| DrillDown.RenderShowsPresent | streamlit_app.py:226-231 | label i is rendered with the row's value iff that value is present |
| DrillDown.RenderComplete | streamlit_app.py:207-212 | a row with every labelled value present renders every label, in order |
| DrillDown.BooleanRow | streamlit_app.py:135-149 | seven flags in the declared label order, each true iff its cell is truthy |
| DrillDown.MissingFlagShowsTrue | streamlit_app.py:151-153 | a flag whose cell is NaN shows as True, since NaN is truthy |
| DrillDown.MasterRecord | streamlit_app.py:117 | none iff no product carries the id; otherwise the first product that does |
| DrillDown.RenderAll | streamlit_app.py:207-212 | one rendered block per row, in row order |
| DrillDown.ProductDetails | streamlit_app.py:112-133 | none iff no product carries the id; otherwise the nine attribute lines and seven flags of the first matching master record, and one rendered block per selected drug and excipient row, in order |
| Text.StripSpec | streamlit_app.py:282-283 | a strip leaves no stripped character at either end and returns a window of its input, with only stripped characters cut off before and after it |
| Text.StripIsTheTrim | streamlit_app.py:282-283 | any bare window with only stripped characters cut off is the result of the strip, so the strip is unique |
| RuleGraph.StripBraces | streamlit_app.py:282-283 | braces only are cut off the raw side, then whitespace only; the brace-stripped text has no brace at either end and the result no whitespace at either end (a brace may remain: "{ {x} }" gives "{x}"); the result is a window of the raw side |
| RuleGraph.DebracketedUnique | streamlit_app.py:282-283 | any side obtained that way is the one StripBraces returns |
| RuleGraph.StripBracesUnwraps | streamlit_app.py:282-283 | a side written "{X}" becomes "X" when X has no surrounding braces or whitespace |
| RuleGraph.StripBracesKeepsInnerBraces | streamlit_app.py:282-283 | a side "{ y }" with y non-empty and bare of whitespace becomes y, so braces behind whitespace are kept |
| RuleGraph.NestedBracesExample | streamlit_app.py:282-283 | "{ {x} }" de-brackets to "{x}", which still starts and ends with a brace |
| RuleGraph.PrepareRule | streamlit_app.py:280-284 | the prepared row has exactly the seven table columns, the de-bracketed sides as antecedent and consequent, and the count |
| RuleGraph.PreparedMeasures | streamlit_app.py:281 | support, confidence, coverage and lift are carried into the row unchanged |
| RuleGraph.PrepareRules | streamlit_app.py:280-284 | one row per rule in file order; each side is the de-bracketed raw side; count and the four measures are unchanged |
| RuleGraph.PreparedSides | streamlit_app.py:282-284 | a rule "{x}" -> "{y}" prepares to antecedent x and consequent y |
| RuleGraph.EdgeOf | streamlit_app.py:295-298 | the edge for a row carries all four metrics of that row |
| RuleGraph.Build | streamlit_app.py:293-298 | one edge per row, in row order; the nodes are exactly the distinct antecedents and consequents |
| RuleGraph.BuildKeepsParallelEdges | streamlit_app.py:293-298 | the multiset of edge endpoints equals the multiset of the rows' (antecedent, consequent) pairs, so parallel edges are kept |
| RuleGraph.EdgeLabels | streamlit_app.py:301-302 | one label per edge, the text of that edge's value of the chosen metric |
| RuleGraph.LabelsFollowRows | streamlit_app.py:301-302 | edge i is labelled with the text of row i's value of the chosen metric |
| RuleGraph.PhysicsBoundary | streamlit_app.py:305-309 | physics is on at seven nodes and off at eight |
| RuleGraph.ExploreRules | streamlit_app.py:280-309 | the table is the filtered prepared rules; edge i is row i's edge, from its antecedent to its consequent with its four metrics, and label i is the text of its chosen metric; nodes are the endpoints; physics iff fewer than 8 endpoints |
| RuleGraph.ThreeRuleSides | streamlit_app.py:280-284 | rules {a}->{b}, {a}->{b}, {b}->{c} prepare to sides a, b / a, b / b, c |
| RuleGraph.ThreeRowGraph | streamlit_app.py:293-305 | rows a->b, a->b, b->c give the node set {a, b, c} of size 3 |
| RuleGraph.ThreeRuleExample | streamlit_app.py:280-309 | those three rules give three nodes, two parallel a->b edges, one b->c edge, and physics on |

## Left out

- Streamlit widgets, layout, HTML and CSS strings, and expander titles are not modelled. Session state is kept only as the explicit `page` and search term.
- CSV loading (streamlit_app.py:9-17) is I/O and is not modelled; the tables are parameters.
- pyvis `Network`, `set_options` and the HTML rendering (streamlit_app.py:299-334) are foreign rendering calls. Only the networkx graph, its edge labels and the physics flag are modelled.
- Browser.Search: pandas `str.contains` reads the term as a regular expression. The model reads it as a plain substring.
- ColumnFilter.Holds: the same applies to the text filter's pattern, which is read as a plain substring.
- Case folding and whitespace are ASCII and Latin-1 only. Upper-casing covers ASCII letters, and `strip()` whitespace covers the Latin-1 whitespace characters.
- Browser.Search: integer and float cells are both `Num` and printed by the one `fmt`. pandas prints `5` as "5" but `5.0` as "5.0", so the digits a term can match are not modelled.
- Number formatting (`str(float)`) is the uninterpreted parameter `fmt`. The model says which value a label or cell text shows, not its digits.
- ColumnFilter.SliderDomain: the slider step `(max - min) / 100` and the slider's own clamping of the chosen range are not modelled. An all-NaN column has no domain here, whereas the script would pass NaN bounds to the slider.
- ColumnFilter.FilterFrame: the numeric-or-text choice of widget is taken from a column schema, not inferred from the data, and boolean cells under a range filter are treated as non-numbers.
- RuleGraph.ExploreRules: it requires the selections to fit the rule table's schema, because the script only offers a slider on numeric columns and a text box on the others.
- DrillDown.Merge: where both tables share a non-key column, pandas keeps both under `_x`/`_y` suffixes. The model keeps the left table's cell.
- DrillDown.ProductDetails: a column the tables lack reads as missing. The script raises `KeyError` instead when a master-record or flag column is absent (streamlit_app.py:119-127, 138-144).
- DrillDown.MasterRecord: the script's `.iloc[0]` raises when no product has the id. The model returns `None` instead and claims nothing about that path.
- RuleGraph.Build: its edges are in row order. networkx reports a MultiDiGraph's edges grouped by source node, so the on-screen edge order is not modelled.
- RuleGraph.PrepareRules: a rule side is taken as a string. A NaN side, which `str(x)` would print as "nan", is not modelled.

## Findings

| source | as written | input that shows it | evidently intended | confidence | as-written member | corrected member |
|---|---|---|---|---|---|---|
| streamlit_app.py:78-109 | the page slice is taken before the previous/next click of the same run is applied, so the tiles show the page before the click while the caption shows the page after it | 13 rows, no search term, page 1, click "next": the caption reads "Page 2 of 2" but the tiles are rows 0-11 | apply the click, then slice, so the tiles belong to the page the caption names | not executed | Browser.TilesLagCaption | Browser.HandleShowsCaptionPage |
| streamlit_app.py:63-65 | the page is reset to 1 on every run while the search box is non-empty, not only when the term changes | a term matching 13 rows, any page, click "next": the tiles are always the first 12 matches and the 13th is never shown | reset the page only when a new term is entered, then navigate normally | not executed | Browser.SearchPinsFirstPage | Browser.NextPageAfterSearch |
