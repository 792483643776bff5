# Saber 11 dashboard: form and performance-level logic

This project models the decision logic of the Saber 11 prediction dashboard in Dafny and proves properties about it. The logic covers the prediction form and the chart of a predicted performance level. The rest of the dashboard is layout and plotting and is not modelled.

- **Prediction form** (`pages/home.py`):
  - The gauge callback walks the dropdown parameters in catalog order. It skips unanswered dropdowns. Each answered one is renamed through the first name-mapping table, with an `Unknown parameter: <param>` fallback, and its raw value is stored as evidence. The gauge shows 10 points per evidence entry.
  - The progress callback turns the number of answered dropdowns into a rounded percentage with a caption.
  - The clear button resets every dropdown, or produces no update when it has not been clicked.
- **Performance display** (`utils/utils.py`):
  - The chart builder has 5 blocks for `ingles` and 4 for other areas. Blocks below the selected level are blue. Each block has a label, and a `▼` marker sits on the selected block.
  - `interpretar_desempenho` maps an (area, level) pair to that level's paragraph or to one of two prompts.

Modules:

- `Wrappers`: Option and Result.
- `Decimal`: Python's `str` on non-negative integers.
- `Rounding`: Python's `round` on a quotient, computed exactly.
- `Home`: `pages/home.py`.
- `Utils`: `utils/utils.py`.

The gauge callback's loop and the chart builder's `for` loop are methods with loops. Each is proved against a specification function (`Home.EvidenceUpTo`, and `Utils.Colors`, `Utils.TextValues` and `Utils.MarkerBlock`). The other operations are functions. Dropdown values are a type parameter `V`, and an unanswered dropdown is `None`. The `ZeroDivisionError` of the progress callback and the failing `param_name_mapping[0]` become `Failure` values. The clear button's `PreventUpdate` becomes `None`.

## Model

| member | source | states |
|---|---|---|
| `Home.DisplaySelectedValues` | pages/home.py:284-298 | Fails (raises) exactly when some pair that `zip` produces is answered and there is no first name-mapping table. Otherwise the evidence is the in-order fold of the answered pairs, and the gauge value is 10 × the number of evidence entries. |
| `Home.EvidenceName` | pages/home.py:290 | A parameter with an entry under its `dd_` widget id is renamed to exactly that entry. A parameter without one gets `Unknown parameter: ` followed by the parameter itself. |
| `Home.EvidenceUpTo` | pages/home.py:288-291 | After the first k pairs, the evidence name of every answered pair among them is a key of the evidence. |
| `Home.Evidence` | pages/home.py:285-291 | The evidence keys are exactly the evidence names of the answered pairs that `zip` produces. With every dropdown unanswered, the evidence is empty. |
| `Home.EvidenceValuesAnswered` | pages/home.py:288-291 | Every stored value is the raw answer of some answered dropdown whose evidence name is the key it is stored under. |
| `Home.EvidenceKeys` | pages/home.py:288-291 | The evidence key set is exactly the set of evidence names of the answered pairs. Unanswered dropdowns never contribute a key. |
| `Home.LastAnswerWins` | pages/home.py:288-291 | An answered dropdown's raw value is stored unchanged under its name, unless a later answered dropdown maps to the same name. In that case the later value wins. |
| `Home.NoAnswersNoEvidence` | pages/home.py:285-298 | With no dropdown answered the evidence is empty, so the gauge value is 0. |
| `Home.EvidenceSize` | pages/home.py:288-298 | There are never more evidence entries than answered dropdowns. The counts are equal when no two parameters share an evidence name, so the gauge is then 10 × the answered count. |
| `Home.UnknownNamesDistinct` | pages/home.py:290 | Two different parameters without a mapping entry get different `Unknown parameter: …` keys. |
| `Home.WidgetIdInjective` | pages/home.py:342 | Different parameters have different `dd_` widget ids. |
| `Home.ClearFormKeysDistinct` | pages/home.py:342-344 | Distinct catalog parameters give pairwise distinct widget ids. So the clear-form dictionary has one entry per parameter, and the returned list has one `None` per dropdown. |
| `Home.ProgressLabel` | pages/home.py:365 | The caption is empty exactly below 5 %. From 5 % on it is `str(percent)` (no leading zeros) followed by ` %`, and those digits read back as the percentage. |
| `Home.UpdateProgressBar` | pages/home.py:356-365 | Fails (division by zero) exactly when the catalog is empty. Otherwise the percentage is `round(100 · answered / total)`: within half a unit of the exact ratio, and even on an exact tie. It lies in 0..100, is 0 when nothing is answered and 100 when everything is. The caption is `ProgressLabel` of the percentage. |
| `Home.ProgressMonotone` | pages/home.py:358-364 | Answering one more dropdown never lowers the percentage. |
| `Home.Filled` | pages/home.py:361 | The answered count never exceeds the number of dropdowns. |
| `Home.FilledExtremes` | pages/home.py:361 | The answered count is 0 exactly when no dropdown is answered, and equals the number of dropdowns exactly when all are answered. |
| `Home.FilledUpdate` | pages/home.py:361 | Answering a dropdown raises the answered count by one if it was unanswered and leaves it unchanged otherwise. |
| `Home.ClearForm` | pages/home.py:338-346 | Returns an update exactly when `n_clicks` is present and positive. The update has one `None` per parameter. Otherwise there is no update (`PreventUpdate`). |
| `Home.ClearedFormIsEmpty` | pages/home.py:339-344 | A cleared form gives empty evidence, a 0 % progress bar and an empty caption. |
| `Rounding.RoundHalfEven` | pages/home.py:364 | The result is an integer nearest to num/den. On an exact tie it is the even neighbour, as with Python's `round`. |
| `Rounding.Percent` | pages/home.py:364 | The percentage p satisfies 2 · abs(100 · filled − p · total) ≤ total, so it is within half a unit of 100 · filled / total. On an exact tie p is even. |
| `Rounding.RoundMonotone` | pages/home.py:364 | Rounding preserves the order of numerators. |
| `Rounding.PercentBounds` | pages/home.py:364 | While filled ≤ total, the percentage is at most 100. |
| `Rounding.PercentAllFilled` | pages/home.py:364 | All fields filled gives exactly 100. |
| `Rounding.PercentMonotone` | pages/home.py:364 | More filled fields never give a lower percentage. |
| `Decimal.ToString` | pages/home.py:365 | `str(n)` is a non-empty string of decimal digits with no leading zero; for 0 it is exactly `0`. |
| `Decimal.ParseToString` | pages/home.py:365 | Reading the rendered digits back gives the number. |
| `Utils.TotalBlocks` | utils/utils.py:49 | 5 blocks exactly for `ingles`, and 4 for every other area. |
| `Utils.Colors` | utils/utils.py:52 | One colour per block. Block i is blue exactly when i is below the selected level, and light grey otherwise. |
| `Utils.ColorsShape` | utils/utils.py:52 | There is one colour per block. The blue blocks form a prefix, and the number of blue blocks is the selected level clamped to 0..blocks. |
| `Utils.TextValues` | utils/utils.py:55 | One non-empty label per block. For `ingles` the labels are the five bands A-, A1, A2, B1, B+. Elsewhere block i is labelled `str(i + 1)`, the decimal digits of i + 1 without leading zeros. |
| `Utils.TextValuesShape` | utils/utils.py:55 | There is one label per block, and no two labels are equal. Outside `ingles`, block i is labelled with the decimal number i + 1. |
| `Utils.MarkerBlock` | utils/utils.py:84 | There is a marker block exactly when 1 ≤ selected ≤ blocks, and it is block selected − 1. |
| `Utils.MarkerOnHighestFilled` | utils/utils.py:84-91 | The marked block is blue and the block after it, if any, is grey. When no block is filled, there is no marker. |
| `Utils.CreatePredictedPerformanceChart` | utils/utils.py:49-91 | One white line, one bar and one caption per block, in loop order. Block i is at x = i + 1 with height i + 1, and carries its colour and label. There is exactly one `▼` annotation, above the marker block, when there is one, and none otherwise. The bars' x positions and heights strictly increase from left to right. |
| `Utils.InterpretarDesempenho` | utils/utils.py:109-197 | Total. It returns the area prompt exactly for an unrecognised area. It returns a level paragraph exactly for a known area and a level in 1..4 (1..5 for `ingles`), for that area and level. For any other level of a known area it returns the level prompt. |
| `Utils.LevelTextsDistinct` | utils/utils.py:122-194 | Different levels of one area get different paragraphs. |
| `Utils.ChartAgreesWithInterpretation` | utils/utils.py:109-197 | For the five areas with interpretations, a paragraph is shown exactly when the chart places a marker. |

## Left out

- Loading `assets/parameter_options.JSON` and the pickled model, and the pgmpy `VariableElimination` object: file I/O and a foreign library. The catalog keys and the name-mapping tables are parameters instead. A missing JSON file (where the module later fails on an undefined name) is not modelled.
- The inference query, which is commented out in the source: the gauge is the placeholder 10 × evidence entries, as in the code. The code has neither level selection nor per-area model dispatch, not even in the commented-out query (pages/home.py:294-297), so neither is modelled.
- Plotly figure construction: `go.Figure`, `go.Indicator`, `add_hline`, `update_layout`, bar widths, fonts and colours of the gauge. Only the lists and positions that feed the block chart are modelled (the `Figure` value).
- `Rounding.RoundHalfEven`: rounds the exact rational 100 · filled / total, where the source rounds an IEEE double. A quotient whose double is off by one ulp at a .5 boundary could round differently in the source.
- `Home.UpdateProgressBar`: requires one value per catalog parameter, which is what the framework passes to the callback.
- `Utils.InterpretarDesempenho`: the Spanish paragraphs are represented by `LevelText(area, level)`, not by their text. The two prompts are named by constructors.
- The Dash page registration, the layout trees, the callback wiring and the Bootstrap helpers `create_dd` and `create_info_btn`: declarative UI with no behaviour.
- pages/visualizations.py, pages/choropleth_test.py and app.py: CSV and GeoJSON loading, pandas aggregation, rendering and app setup. They are not part of this model.
