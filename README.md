# Evaluation charts: data shaping of the radar and flow diagrams

`draw_charts.py` reads a table of teacher evaluation scores. It draws one
radar chart per row and one Sankey flow diagram for the whole table. This
project models the data shaping the script does before it calls the
charting libraries, and proves properties of it:

- **Colour generation** (`generate_colors`). One `rgba(R, G, B, 0.6)`
  string per index below `n`; colour `i` has hue `i/n`. The HSV → RGB
  conversion and the `int(x * 255)` scaling are a function parameter
  (`Colors.HsvToRgb`) that returns channels in 0..255. Colours are kept as the
  strings the script builds, so the link colour is real text replacement:
  Python's `str.replace('0.6', '0.3')`, modelled in `Text.Replace`.
- **Flow-diagram links** (`create_sankey_diagram`).
  - The node labels are the students' names in table order, then the five
    fixed dimensions.
  - Dimension `j` is node `|students| + j`.
  - Nested loops over students and dimensions append to four parallel lists
    (sources, targets, values, link colours). They append only when the
    value is strictly positive.
  - A student's values come from the *first* row carrying that name.
  - The loops are methods with loop invariants (`Sankey.BuildLinks`,
    `Sankey.AppendStudentLinks`). They are proved against a reference
    definition, `Sankey.SankeyLinks`, whose properties (range, ordering,
    completeness, positivity) are proved as lemmas.
- **Radar polygon closure** (`plot_radar`). The data vector and the angle
  vector each get their first element appended. An angle is kept by its
  index `k` among `L` axes, standing for `k·2π/L`.

Modules: `Text` (decimal formatting of integers, `str.replace`), `Colors`,
`Sankey`, `Radar`; one file each.

Two behaviours of the code are worth stating outright:

- `generate_colors` has no explicit `n = 0` guard. The loop body, which
  computes `i/n`, runs only for `i < n`, so it never divides by zero. In
  the model, `n ≠ 0` is a verification condition of that division inside
  the loop.
- Each student's values come from the first row with that name. So a later
  row with a duplicate name gets the earlier row's values, not its own
  (`Sankey.StudentFlowOfDuplicates`).

## Model

| member | source | states |
|---|---|---|
| `Text.Decimal` | draw_charts.py:18 | an int channel is printed as a non-empty string of decimal digits, with no leading zero unless the number is 0 |
| `Text.DecimalRoundTrip` | draw_charts.py:18 | reading back the printed digits gives the number again |
| `Text.Replace` | draw_charts.py:49 | Python's `str.replace`: an empty pattern inserts the replacement before every character and at the end (`InsertEverywhere`); otherwise occurrences are replaced left to right without overlap. A replacement as long as the pattern keeps the length; what it leaves alone is stated by `ReplaceKeepsPrefix` and `ReplaceWithoutOccurrence` |
| `Text.ReplaceNonEmpty` | draw_charts.py:49 | replacing a pattern by a text of the same length keeps the string's length |
| `Text.ReplaceKeepsPrefix` | draw_charts.py:49 | for a pattern of two or more characters, `str.replace` copies a prefix unchanged when the pattern's second character occurs nowhere in the prefix and does not start the rest |
| `Text.ReplaceWithoutOccurrence` | draw_charts.py:49 | for a pattern of two or more characters, a string that contains nowhere the pattern's second character is returned unchanged |
| `Colors.Rgba` | draw_charts.py:18 | the f-string `rgba(R, G, B, alpha)` with the channels printed by `Text.Decimal`; its shape is stated by `RgbaShape` |
| `Colors.RgbaShape` | draw_charts.py:18 | every colour text starts with `rgba(` and ends with its alpha and `)` |
| `Colors.Hue` | draw_charts.py:16 | the hue `i / n` of colour i; its range, injectivity and spacing are stated by `HueScaled`, `HueInjective` and `HueEvenlySpaced` |
| `Colors.HueScaled` | draw_charts.py:16 | hue `i/n` lies in [0, 1) and times `n` gives back `i` |
| `Colors.HueInjective` | draw_charts.py:15-16 | distinct indices get distinct hues |
| `Colors.HueEvenlySpaced` | draw_charts.py:15-16 | consecutive hues differ by exactly `1/n`, so the colour wheel is divided evenly |
| `Colors.GenerateColors` | draw_charts.py:12-19 | exactly `n` colours (none for `n = 0`); colour `i` is the converted hue `i/n` with the given saturation and value, at alpha 0.6 |
| `Colors.Muted` | draw_charts.py:49 | the link colour `color.replace('0.6', '0.3')`: as long as the colour; on a generated colour it changes only the alpha (`MutedChangesOnlyAlpha`) |
| `Colors.MutedChangesOnlyAlpha` | draw_charts.py:49 | replacing `0.6` by `0.3` in a generated colour changes only its alpha and leaves the channels alone |
| `Sankey.Names` | draw_charts.py:24 | the name column as a list: one name per row, in row order |
| `Sankey.FirstMatch` | draw_charts.py:41 | the row lookup by name returns the first row with that name, and fails only if no row has it |
| `Sankey.StudentFlow` | draw_charts.py:41 | the values of the first row with student i's name; which row that is is stated by `StudentFlowOfUniqueName` and `StudentFlowOfDuplicates` |
| `Sankey.StudentFlows` | draw_charts.py:40-41 | one entry per student in table order, entry i being the looked-up values of student i |
| `Sankey.StudentFlowOfUniqueName` | draw_charts.py:41 | a student whose name no earlier row has gets its own row's values |
| `Sankey.StudentFlowOfDuplicates` | draw_charts.py:41 | students with the same name get the values of the same row, which comes no later than either of them |
| `Sankey.RowLinks` | draw_charts.py:43-50 | one student's links: no more links than values, all from that student, each to the node of its dimension with that dimension's value, and that value strictly positive |
| `Sankey.RowLinksComplete` | draw_charts.py:43-47 | a dimension has a link from the student, carrying its value, if and only if that value is strictly positive |
| `Sankey.RowLinksOrdered` | draw_charts.py:43-46 | one student's links are in increasing dimension order |
| `Sankey.RowLinksNonPositive` | draw_charts.py:44 | a student with no strictly positive value has no links |
| `Sankey.Links` | draw_charts.py:40-50 | every link goes from a student among the first `m` to a dimension node, and carries that student's strictly positive value for that dimension |
| `Sankey.LinksComplete` | draw_charts.py:40-47 | a (student, dimension) pair has a link with the student's value if and only if that value is strictly positive |
| `Sankey.LinksOrdered` | draw_charts.py:40-46 | links come in student-major, dimension-minor order, as the nested loops append them |
| `Sankey.LinksNonPositive` | draw_charts.py:44 | students with no strictly positive value contribute no links |
| `Sankey.SankeyLinksExact` | draw_charts.py:40-47 | for the whole table, with students looked up by name: each (student, dimension) pair has a link exactly when its value is strictly positive |
| `Sankey.SankeyLinksDistinctPairs` | draw_charts.py:40-47 | no (student, dimension) pair gets two links |
| `Sankey.NoPositiveValueNoLinks` | draw_charts.py:44 | a table without a strictly positive value produces nodes and no links |
| `Sankey.TwoStudentExample` | draw_charts.py:36-50 | A (3 on the first dimension) and B (5 on the second) give exactly the links (0 → 2, 3) and (1 → 3, 5) |
| `Sankey.AppendStudentLinks` | draw_charts.py:43-50 | the inner loop appends exactly one student's links to all four lists together, each link coloured with the student's colour muted |
| `Sankey.BuildLinks` | draw_charts.py:40-50 | the four lists have equal length and match the reference links entry by entry: source, target, value, and source colour with `0.6` replaced by `0.3` |
| `Sankey.DiagramLinkFacts` | draw_charts.py:36-53 | every link runs from a student node (labelled with the student's name) to a dimension node (labelled with the dimension), has a positive value, and is coloured with its student's colour at alpha 0.3 |
| `Sankey.CreateSankeyDiagram` | draw_charts.py:21-53 | labels are students then dimensions; node colours are one per label (students at saturation 0.6 and value 0.9, dimensions at 0.8 and 0.7); the link lists match the reference links and satisfy all the facts above |
| `Radar.Close` | draw_charts.py:131-132 | closing adds one element: the first `L` are unchanged and the last equals the first |
| `Radar.Angles` | draw_charts.py:128 | the `L` evenly spaced axis angles, angle k kept as its index k |
| `Radar.OpenClose` | draw_charts.py:140 | dropping the closing point (`angles[:-1]`) gives back the open sequence |
| `Radar.ClosePolygon` | draw_charts.py:127-132 | succeeds if and only if the data and the labels are non-empty; empty data fails first; otherwise both sequences have length `L + 1`, keep their first elements and end with their first element |
| `Radar.ClosedPolygonReturnsToStart` | draw_charts.py:128-140 | the closed polygon ends where it starts (angle 0), and its angles without the closing point are the axis angles |
| `Radar.FiveAxisExample` | draw_charts.py:127-132 | radar values `[3, 4, 2, 5, 1]` on five axes give six points, ending with 3 and angle 0 |

## Left out

- Loading the CSV file with pandas (line 10) is input. The table is an
  input sequence of `Sankey.Record`s: a name and the five flow values, in
  dimension order.
- A missing flow column would raise an error in pandas. `Sankey.WellFormed`
  assumes every row has all five values.
- The positional slice `row[6:11]` that picks the radar values (line 152)
  is library indexing. `Radar.ClosePolygon` takes the radar values as
  input.
- `colorsys.hsv_to_rgb` and `int(x * 255)` (lines 17-18) are floating-point
  code inside a library call. They are the parameter `Colors.HsvToRgb`.
- `np.linspace` float angles and the degree conversion (lines 128, 140)
  are float numerics. Angles are kept by index.
- Names are strings compared by equality. A NaN name (an empty name
  cell) is not modelled. Since `NaN == NaN` is false in pandas, no row
  would match it, and line 41 would raise IndexError. In the model, the
  lookup always finds at least the student's own row.
- `Colors.GenerateColors`: the defaults `saturation=0.7, value=0.9` of
  line 12 are not modelled. Both are parameters, and both call sites
  (lines 27-28) pass explicit values.
- Flow values are exact reals. A NaN in the table, for which `value > 0`
  is false in Python, is not modelled.
- `Colors.HueEvenlySpaced` and `Colors.HueScaled` state the exact
  rational hue. Float rounding in `i / n` is not modelled.
- Figure construction, layout, styling, hover templates, the watermark and
  the toolbar configuration (lines 56-123, 134-146, 160-171) are calls into
  matplotlib and plotly, whose code is not part of this model.
- matplotlib raises an error when the data and angle lengths differ. That
  check is library code and is not modelled.
- Saving the images and the HTML file, and the final message
  (lines 154-155, 172-173), are output.
- The per-row loop that draws one radar chart per record (lines 150-155)
  only calls into the plotting library and does file output.
