# tbrowser core in Dafny

tbrowser is a terminal browser for ROOT files. It lists a file's
directories, trees, leaves and histograms in a menu, and draws the
selected histogram with Unicode block glyphs and a pair of tick-marked
axes. A one-line console accepts draw commands
(`expression, selection, option, nentries, firstentry`). The console has
history, tab completion and a cursor.

This project models the program's core:

- **The axis.** `AxisTicks` builds linear and logarithmic ticks, factors a
  shared power of ten out of them and labels them.
- **The plotter.** `plotASCIIHistogram` probes a cell's pixel rows and maps
  the result to a glyph. The 2D plot chooses a grey colour pair per bin.
- **The menu cursor:** `Menu` and the browser's own selection keys.
- **The console's parser and line editor.**
- **The ROOT file tree.** This covers opening and closing directories, the
  flattened display list and the menu entries derived from it.
- **The glyph and colour tables** of `definitions.h`.

The earlier single-directory revision of the same files (`Browser.cpp`,
`Console.cpp`, `RootFile.cpp`, `AxisTicks.cpp`, `definitions.h`) is modelled
in its own modules, named `Early…`. Each early module is related to the
current one by lemmas saying where the two agree and where they differ.

Modules and files:

| module | file | models |
|---|---|---|
| `CppLib` | cpplib.dfy | C++ integer division, `trunc`, `lround`, `std::to_string`, `std::stoll` and `std::stod` on the inputs the program gives them |
| `Definitions` | definitions.dfy | `include/definitions.h`: the glyph tables, the fill-code maps, the colour layout and `make_superscript` |
| `Axis` | axis.dfy | `src/AxisTicks.cpp` |
| `Browser` | browser.dfy | the plotting and cursor parts of `src/Browser.cpp` |
| `Console` | console.dfy | `src/Console.cpp` |
| `Menu` | menu.dfy | `src/Menu.cpp` |
| `RootFile` | rootfile.dfy | `src/RootFile.cpp` |
| `EarlyDefinitions`, `EarlyAxis`, `EarlyBrowser`, `EarlyConsole`, `EarlyRootFile` | early*.dfy | the root-level earlier revision |

How the source's forms are mapped:

- **Classes.** Objects whose methods update fields in place are Dafny
  classes: `Axis.AxisTicks`, `Browser.FileBrowser`, `Console.Console`,
  `Menu.Menu`, `RootFile.RootFile`, `EarlyAxis.AxisTicks` and
  `EarlyConsole.EarlyConsole`. Their methods carry `modifies` clauses.
- **The main window** is an `array2<Cell>` that the plot writes into.
- **Loops.** The loops of the current source are methods with
  invariants. Each is proved against a function that states what the loop
  computes, and the properties are proved as lemmas about that function.
  The loops of the earlier revision (the 2x2 plot in `Browser.cpp` and
  `updateDisplayList`, `getEntry` and `menuLength` in `RootFile.cpp`) are
  modelled by the functions alone; the matching current loops carry the
  method proofs.
- **The file tree** is a value: the `Node` datatype holds the children as a
  sequence. A tree edit returns the new tree.
- **Error paths.** Exceptions and out-of-range lookups are `Result` or
  `Option` values. Examples are `std::invalid_argument` from `stoll`/`stod`
  and `std::out_of_range` from `at` and `insert`.

## Model

| member | source | states |
|---|---|---|
| CppLib.Quot | src/AxisTicks.cpp:101-105 | integer `/` by a positive divisor truncates toward zero: quotient times divisor plus a remainder of the dividend's sign |
| CppLib.Trunc | src/AxisTicks.cpp:96-99 | a double cast to an integer truncates toward zero; the result lies within 1 of the value, on the zero side |
| CppLib.RoundHalfAway | src/AxisTicks.cpp:93 | `lround`: the nearest integer, halves rounded away from zero |
| CppLib.Clamp | src/Browser.cpp:733-734 | `std::clamp` on integers: the result lies in [lo, hi] and equals the value when the value already does |
| CppLib.IntToString | src/AxisTicks.cpp:151-156 | `std::to_string(long)`: a minus sign exactly for negative values, then the decimal digits of the magnitude |
| CppLib.IntToStringChars | src/AxisTicks.cpp:226 | every character of a decimal integer is a digit or the minus sign, which `make_superscript` relies on |
| CppLib.NatToStringRoundTrip | src/AxisTicks.cpp:151-156 | reading the digits of a natural number's decimal text back gives the number |
| CppLib.Stoll | src/Console.cpp:147-169 | `std::stoll`: leading white space, an optional sign, then the longest run of digits; a successful value lies in the 64-bit range |
| CppLib.StollOfIntToString | src/Console.cpp:147-169 | `stoll` inverts `to_string` on every 64-bit value |
| CppLib.StollRejectsNoDigits | src/Console.cpp:147-169 | `stoll` fails with `invalid_argument` exactly when no digit follows the optional sign |
| CppLib.StodRun | src/Console.cpp:39-47 | `std::stod` on a run of digits, points and minus signs: the numeric prefix it reads, or failure when the run has no digit before the first stray character |
| CppLib.StodRunOfIntToString | src/Console.cpp:39-47 | `stod` reads back the value of a decimal integer |
| CppLib.StodRunOfDigits | src/Console.cpp:39-47 | a plain digit run is read as its decimal value |
| CppLib.Pow10R | src/AxisTicks.cpp:164-166 | `pow(10.0, e)` for any integer exponent is positive |
| Definitions.FindFrom | include/definitions.h:19-25 | `std::string::find`: the first index at or after the start where the needle occurs, and none before it |
| Definitions.StringContains | include/definitions.h:19-25 | `string_contains` holds exactly when the needle occurs somewhere in the string |
| Definitions.RampValues | include/definitions.h:47-57 | a side filled n pixel rows high has the codes of the table: 0, 4, 5 in 2x2; 0, 16, 20, 21 in 3x2; 0, 64, 80, 84, 85 in 4x2 |
| Definitions.FillCodeHasGlyph | include/definitions.h:152-209 | every fill pattern of every block mode has a code in the mode's map, which maps to the empty index exactly when nothing is filled and otherwise to a glyph of the mode's table |
| Definitions.VoidCodeOnly | include/definitions.h:152-209 | in every map only code 0 goes to the empty index, and every other code indexes the glyph table |
| Definitions.CodeIsFillCode | include/definitions.h:152-209 | every code in a map is the code of some fill pattern, so the maps hold exactly the fill patterns |
| Definitions.CodeIsFillCode2 | include/definitions.h:152-162 | CodeIsFillCode for the 2x2 map |
| Definitions.CodeIsFillCode3 | include/definitions.h:164-181 | CodeIsFillCode for the 3x2 map |
| Definitions.CodeIsFillCode4 | include/definitions.h:183-209 | CodeIsFillCode for the 4x2 map |
| Definitions.CodeIsFillCode4Low | include/definitions.h:183-200 | CodeIsFillCode for the 4x2 codes below 0xE0 |
| Definitions.CodeIsFillCode4High | include/definitions.h:200-209 | CodeIsFillCode for the 4x2 codes from 0xE0 on |
| Definitions.CodeTableInjective | include/definitions.h:152-209 | two different codes of a map never show the same glyph |
| Definitions.MakeSuperscript | Browser.cpp:24-35 | `make_superscript(n)`: one raised character per character of `std::to_string(n)`, with the superscript minus for '-' |
| Definitions.SuperscriptRoundTrip | Browser.cpp:24-35 | a superscript string of digits and minus signs reads back as the plain string |
| Definitions.MakeSuperscriptRoundTrip | Browser.cpp:24-35 | the superscript of n reads back as `std::to_string(n)` |
| Axis.CheckedRange | src/AxisTicks.cpp:17-23 | min > max fails with the constructor's exception; min == max widens the range by one on each side; otherwise the range is kept; a successful range is non-empty and contains [min, max] |
| Axis.AdjustedMin | src/AxisTicks.cpp:80 | `floor(vmin/step)*step` is the largest multiple of the step not above vmin |
| Axis.AdjustedMax | src/AxisTicks.cpp:81 | `ceil(vmax/step)*step` is the smallest multiple of the step not below vmax |
| Axis.NumSteps | src/AxisTicks.cpp:82 | a non-empty range gives at least one step between the adjusted bounds |
| Axis.NumStepsSpan | src/AxisTicks.cpp:80-82 | the adjusted bounds lie exactly NumSteps steps apart |
| Axis.RoundedStepCount | src/AxisTicks.cpp:82 | `round((vmax_adjust - vmin_adjust)/step)` is exactly the step count |
| Axis.Edges | src/AxisTicks.cpp:85-94 | the `TAxis` low edges of n bins and the overflow bin: n + 1 values |
| Axis.EdgesShape | src/AxisTicks.cpp:80-94 | the ticks run from the lower to the upper adjusted bound, strictly increasing, each one a consecutive multiple of the step |
| Axis.TrailingZerosDivide | src/AxisTicks.cpp:101-105 | 10^k divides a nonzero integer exactly when k is at most its trailing-zero count |
| Axis.CountZeros | src/AxisTicks.cpp:101-105 | the `count_0` loop returns the trailing-zero count of its argument (0 for 0) |
| Axis.MinZeros | src/AxisTicks.cpp:109-115 | the least trailing-zero count over the nonzero ticks, attained by some tick, or the +infinity sentinel when every tick is 0 |
| Axis.IntegerExponentIsShared | src/AxisTicks.cpp:117-128 | the exponent chosen for integer ticks divides every tick; when positive, no larger power of ten divides them all; it is 0 exactly when fewer than three zeros are shared |
| Axis.FewestZeros | src/AxisTicks.cpp:109-115 | the zero-counting loop computes MinZeros |
| Axis.FactorIntegerTicks | src/AxisTicks.cpp:107-128 | the integer branch: the exponent is the shared one and each factored value times 10^E is the tick |
| Axis.DivideExactly | src/AxisTicks.cpp:119-121 | dividing every tick by a power of ten that divides it keeps factored times 10^E equal to the tick |
| Axis.TruncLog10 | src/AxisTicks.cpp:133 | `trunc(log10(a))`: for a >= 1 the decade a lies in, and below 1 the decade counted toward zero |
| Axis.MaxMagnitudeIsLargest | src/AxisTicks.cpp:130-135 | the magnitude loop's result bounds the magnitude of every nonzero tick and is attained by one, or stays the -infinity sentinel |
| Axis.LargestMagnitude | src/AxisTicks.cpp:131-135 | the magnitude loop computes MaxMagnitude |
| Axis.FactorRealTicks | src/AxisTicks.cpp:129-144 | the non-integer branch: the exponent is the largest magnitude if it is at least 2 in size, else 0, and every factored value times 10^E is the tick |
| Axis.ScaleTicks | src/AxisTicks.cpp:136-143 | divide by 10^m when m is at least 2 in size, otherwise keep the ticks and set E = 0 |
| Axis.DivideAll | src/AxisTicks.cpp:137-139 | `v /= d` for every tick: each new value times d is the old one |
| Axis.RealFactoringBounds | src/AxisTicks.cpp:130-144 | after factoring out the largest magnitude every nonzero tick is below 10 times that power in size |
| Axis.IntLabels | src/AxisTicks.cpp:152-156 | the labels of integer ticks are `std::to_string` of each value, in order |
| Axis.RealLabels | src/AxisTicks.cpp:157-161 | the labels of non-integer ticks are the `{:.7g}` text of each value, in order |
| Axis.MaxLabelWidth | src/AxisTicks.cpp:184-191 | `maxLabelWidth` bounds every label's length and is attained by one, 0 without labels |
| Axis.RoundAll | src/AxisTicks.cpp:93 | `values_i` is `lround` of each tick, in order |
| Axis.CharPosition | src/AxisTicks.cpp:203-218 | a value's column on the axis, or -999 when it falls off it; never outside [0, npixel) otherwise |
| Axis.CharPositionEnds | src/AxisTicks.cpp:203-218 | the lower bound sits in column 0 and the upper bound is off the axis |
| Axis.CharPositionInside | src/AxisTicks.cpp:203-213 | inside [lo, hi) a value lands in the column its fraction of the axis selects |
| Axis.CharPositionMonotone | src/AxisTicks.cpp:203-213 | columns keep the order of values on the axis: lo <= x <= y < hi puts x in a column no further right than y |
| Axis.LogLabelShape | src/AxisTicks.cpp:220-228 | a log label is "0" below decade 0, the plain power for decades 0..2, and otherwise "10" followed by a superscript that reads back as the decade |
| Axis.Decades | src/AxisTicks.cpp:58-70 | the decades first..last, consecutive, empty when last < first |
| Axis.LogDecadesShape | src/AxisTicks.cpp:39-70 | ordered decade bounds give at least two consecutive decades from the lower bound to the adjusted upper one |
| Axis.ResetSentinel | src/AxisTicks.cpp:146-149 | the exponent is kept exactly when it is not one of the two sentinels |
| Axis.LinearTicks | src/AxisTicks.cpp:73-162 | `init_linear` on values: the adjusted bounds around [vmin, vmax], ticks from bound to bound, the integer test, factored values and labels; with no sentinel reset the factored values give back the ticks exactly |
| Axis.AdjustedTicks | src/AxisTicks.cpp:74-94 | bounds snapped outward to the step, at least two ticks from the lower to the upper bound, and their rounded values |
| Axis.FactorTicks | src/AxisTicks.cpp:96-161 | the integer test, the factoring of either branch, the sentinel reset and the labels |
| Axis.FactorIntegral | src/AxisTicks.cpp:107-128 | integer ticks: the shared exponent comes out of the integers, and the reals follow the integers |
| Axis.DecadeTicks | src/AxisTicks.cpp:58-70 | the decade loop: integer values first..last, reals equal to them, decimal labels |
| Axis.CollectTicks | src/AxisTicks.cpp:89-94 | the tick loop collects the bin low edges and their rounded values |
| Axis.ToReals | src/AxisTicks.cpp:122-124 | `values_d` takes the factored integers, in order |
| Axis.IntegerTicksExact | src/AxisTicks.cpp:117-128 | after the integer branch the reals equal the factored integers, and each times 10^E is its tick |
| Axis.NewAxisTicks | src/AxisTicks.cpp:11-37 | the constructor: min > max is the exception; otherwise an axis of the requested scale whose closing assertions hold |
| Axis.AxisTicks.constructor | src/AxisTicks.cpp:11-23 | the member initialisers and the checked range, with no ticks yet |
| Axis.AxisTicks.InitLinear | src/AxisTicks.cpp:73-162 | `init_linear` stores the adjusted bounds, the edges, the integer flag and factored values with labels; the object stays valid |
| Axis.AxisTicks.StoreTicks | src/AxisTicks.cpp:80-161 | the fields `init_linear` fills take the computed values |
| Axis.AxisTicks.InitLogarithmic | src/AxisTicks.cpp:39-71 | `init_logarithmic`: log bounds, decade bounds with the upper one bumped when they coincide, one integer tick per decade with decimal labels |
| Axis.AxisTicks.SetLogBounds | src/AxisTicks.cpp:40-57 | the first half of `init_logarithmic`: the log10 bounds and the decade bounds |
| Axis.AxisTicks.SetDecades | src/AxisTicks.cpp:58-70 | the decade loop stores the decades, their reals and decimal labels, with E = 0 |
| Axis.AxisTicks.SetAxisPixels | src/AxisTicks.cpp:193-195 | `setAxisPixels` sets the pixel width and nothing else |
| Axis.AxisTicks.TickPosition | src/AxisTicks.cpp:164-166 | `tickPosition(i)` is tick i itself once the factored values are exact |
| Axis.AxisTicks.TickColumn | src/AxisTicks.cpp:203-218 | the column of tick i on the adjusted or the requested range, or -999 |
| Axis.AxisTicks.GetTick | src/AxisTicks.cpp:197-236 | `getTick`: nothing exactly for an index out of range; otherwise the tick's column, its label (the log label on a log axis) and that label's length |
| Axis.AxisTicks.AdjustedRangeEnds | src/AxisTicks.cpp:203-218 | over the adjusted range the first tick sits in column 0 and the last tick, at the adjusted maximum, gets the off-axis column -999 |
| Axis.AxisTicks.TickColumnsOrdered | src/AxisTicks.cpp:203-218 | over the adjusted range every tick but the last lands on the axis, and for i <= j tick i's column is no further right than tick j's |
| Axis.AxisTicks.TickColumnOfEdge | src/AxisTicks.cpp:203-213 | on an exactly factored linear axis a tick's column is the column of its unfactored value |
| Browser.PackProbe | src/Browser.cpp:635-645 | the probe loop ORs each pixel row's left and right comparison into its bit pair and yields Probe |
| Browser.SideBitsStep | src/Browser.cpp:635-645 | one more pixel row adds its bit exactly when it reaches below the bin's height |
| Browser.FilledRows | src/Browser.cpp:635-645 | the number of a cell's pixel rows below a bin's height, at most the mode |
| Browser.FilledRowsPrefix | src/Browser.cpp:635-645 | a bin's filled pixel rows form a prefix from the bottom of the cell |
| Browser.AllFilledBelow | src/Browser.cpp:635-645 | when a pixel row reaches below the height, so do all rows under it |
| Browser.SideBitsAreRamp | src/Browser.cpp:635-645 | a bin's bits in the probe are the ramp of its filled-row count |
| Browser.FilledRowsZero | src/Browser.cpp:635-645 | a bin fills no pixel row of a cell exactly when its lowest pixel row is not below the height |
| Browser.ProbeIsFillCode | src/Browser.cpp:635-661 | the probe is the fill code of the numbers of pixel rows the left and right bins fill |
| Browser.ProbeHasGlyph | src/Browser.cpp:653-661 | every probe is a key of the mode's map and a non-empty one indexes the glyph table, so the `catch` fallback is never taken |
| Browser.ProbeVoidIff | src/Browser.cpp:646-652 | a cell is empty exactly when its lowest pixel row reaches neither bin |
| Browser.VoidAbove | src/Browser.cpp:646-652 | once a cell of a column is empty every cell above it is empty too, so stopping there loses nothing |
| Browser.FirstVoid | src/Browser.cpp:646-652 | the first empty cell row at or after y: every cell below it is filled and it is empty or the column's end |
| Browser.PlotTop | src/Browser.cpp:616-617 | the linear plot top is at least the largest bin when that is not negative |
| Browser.GlyphsNotBlank | include/definitions.h:27-33 | no glyph of any mode is a blank, so a drawn cell is never mistaken for the space above a bar |
| Browser.ColumnCellBlankIff | src/Browser.cpp:635-661 | a cell of a drawn column is blank exactly when its probe is empty |
| Browser.ColumnCellGlyph | src/Browser.cpp:653-661 | a non-blank drawn cell shows the glyph of its left and right fill counts |
| Browser.GrayscalePair | src/Browser.cpp:733-734 | the colour pair of a 2D bin lies in the grey range |
| Browser.GrayscalePairClosedForm | src/Browser.cpp:733-734 | the grey ramp: the lowest pair for t <= 0, one pair more per 27th of the maximum, the last pair at the top |
| Browser.GrayscalePairMonotone | src/Browser.cpp:733-734 | a larger bin is never painted a darker pair |
| Browser.InitGrayscalePairs | src/Browser.cpp:87-93 | the grey pairs are black, the 24 palette greys 232..255, then white, each with a readable foreground |
| Browser.InitPalettePairs | src/Browser.cpp:95-97 | the palette pairs from `col_start_palette` take the 256-colour entries 17..230 |
| Browser.GrayscalePairsAreInitialised | src/Browser.cpp:87-97 | the 2D plot paints only with pairs that were initialised as greys, apart from the palette and UI pairs |
| Browser.BlockModeFromSetting | src/Browser.cpp:122-127 | every setting string selects one of the three block modes; an unknown one selects mode 2 |
| Browser.BlockModeSetting | src/Browser.cpp:140-144 | a setting is saved exactly for the three block modes |
| Browser.BlockModeSettingRoundTrip | src/Browser.cpp:122-144 | saving then loading a block mode gives it back, and loading then saving a known setting gives the setting back |
| Browser.ClickSelectsMenuLine | src/Browser.cpp:906-920 | a click inside the menu window stores a line that lies within the menu |
| Browser.IsClickInWindow | src/Browser.cpp:906-912 | a click is inside exactly when its row and column, counted from inside the border, fall within the window's interior of sizey - 2 rows and sizex - 2 columns |
| Browser.IsBranchChar | src/Browser.cpp:1076-1078 | in the "C" or a UTF-8 locale only ASCII codes are accepted as branch-name characters |
| Browser.BranchCharsAreIdentChars | src/Browser.cpp:1076-1078 | search mode accepts exactly the ASCII identifier characters that tab completion extends (src/Console.cpp:200), and each of them can also be typed into the draw console |
| Browser.SingleValueAxisRange | src/Browser.cpp:590-599 | the single-value fix as written: when both bounds are equal the axis ends at the value itself; other bounds are kept |
| Browser.SingleValueOffAxis | src/Browser.cpp:590-599 | as written, data all equal to v get the axis [v - 1, v], where v is off the axis; the axis's own check would give [v - 1, v + 1], where v lands on it |
| Browser.FileBrowser.constructor | include/Browser.h:88-99 | the member initialisers: block mode 2, y-axis spacing 5, linear scale; the cursor starts at line 0 with no scroll, as `Menu`'s initialisers have it |
| Browser.FileBrowser.GetBinsx | src/Browser.cpp:275-277 | two bins per interior column of the main window |
| Browser.FileBrowser.GetBinsy | src/Browser.cpp:279-281 | `blockmode` pixel rows per interior row of the main window |
| Browser.FileBrowser.RasterFitsWindow | src/Browser.cpp:615-720 | the 1D plot's cells cover exactly the window's interior, columns 1..x-2 and rows 1..y-2 |
| Browser.FileBrowser.SelectionDown | src/Browser.cpp:241-248 | at the last window line the menu scrolls; otherwise the line moves down; from a valid position the result stays valid; nothing else changes |
| Browser.FileBrowser.SelectionUp | src/Browser.cpp:250-255 | on the top line the menu scrolls back if it can; the line moves up but never below 0; nothing else changes |
| Browser.FileBrowser.GoTop | src/Browser.cpp:257-260 | line and scroll both become 0 |
| Browser.FileBrowser.GoBottom | src/Browser.cpp:262-265 | the last window line selects the last entry |
| Browser.FileBrowser.ToggleBlockMode | src/Browser.cpp:283-290 | the block mode cycles 2, 3, 4, 2 and stays a valid mode |
| Browser.FileBrowser.MakeSpaceForYaxis | src/Browser.cpp:1080-1083 | the spacing becomes the larger of the old one and the request; it only grows |
| Browser.FileBrowser.ReserveYAxis | src/Browser.cpp:847-851 | afterwards the widest tick label plus its gap fits, and a spacing that already fits is kept |
| Browser.FileBrowser.LoadBlockMode | src/Browser.cpp:122-127 | a present setting selects the mode by BlockModeFromSetting; an absent one keeps the mode |
| Browser.FileBrowser.Put | src/Browser.cpp:653-661 | a cell write inside the window changes that cell only; a write outside it changes nothing |
| Browser.FileBrowser.DrawCell | src/Browser.cpp:635-661 | a cell is drawn exactly when its probe is non-empty, with that probe's glyph, and no other cell changes |
| Browser.FileBrowser.BlankRows | src/Browser.cpp:646-652 | the cells from one row to another of one column become blanks and nothing else changes |
| Browser.FileBrowser.DrawColumn | src/Browser.cpp:666-674 | a column is drawn bottom-up until its first empty cell and blanked above it; each cell equals ColumnCell and other columns are untouched |
| Browser.FileBrowser.PlotASCIIHistogram | src/Browser.cpp:615-720 | every interior cell of the window shows ColumnCell of its column and row: the fill glyph or a blank |
| Browser.FileBrowser.PlotASCIIHistogram2D | src/Browser.cpp:722-741 | the window is cleared; each bin (x, y) with 0 <= x <= binsx and 0 <= y <= binsy (the underflow bins x = 0 and y = 0 included) whose content is not 0 puts a full block in row binsy + 1 - y, column x, in the grey pair of its fraction of the maximum; every other cell stays cleared |
| Console.ValidChar | src/Console.cpp:318-320 | `validChar` holds exactly for codes in (0, 128) that are alphanumeric or allowed punctuation |
| Console.EditingKeysAreNotChars | src/Console.cpp:244-316 | no editing key is a valid character, so each one reaches its own case |
| Console.LimitRunsShape | src/Console.cpp:39-47 | every run split off the bracketed limits is a non-empty string of digits, points and minus signs |
| Console.ParseRuns | src/Console.cpp:39-47 | `stod` of every run in order, or failure when one of them throws |
| Console.FlushRun | src/Console.cpp:39-47 | reading one more run fails exactly when it is not a number and otherwise appends its value |
| Console.DrawArgAccepted | src/Console.cpp:49-74 | the first argument is accepted exactly when it has 0, 2 or 4 limits in increasing pairs and at most one ':', and a 2D histogram has one ':' |
| Console.ReadLimits | src/Console.cpp:39-47 | the constructor's loop reads the limits as the runs end, or fails when `stod` throws |
| Console.NewFirstDrawArg | src/Console.cpp:30-75 | the `FirstDrawArg` constructor: the limits, the 2D flag and the error class it derives |
| Console.StripClean | src/Console.cpp:83-86 | stripping leaves no space or quote and keeps a clean string as it is |
| Console.StripIdempotent | src/Console.cpp:83-86 | stripping twice is stripping once |
| Console.StripInPlace | src/Console.cpp:83-86 | the erase loop leaves the input stripped |
| Console.Split | src/Console.cpp:110-117 | the comma tokens: there is always at least one |
| Console.JoinSplit | src/Console.cpp:110-117 | splitting then joining with commas gives the input back |
| Console.SplitCommaFree | src/Console.cpp:110-117 | no token of a split holds a comma |
| Console.SplitJoin | src/Console.cpp:110-117 | joining comma-free tokens then splitting gives the tokens back |
| Console.GlueStep | src/Console.cpp:110-117 | one more character: a comma opens a token and anything else extends the last one |
| Console.Tokenize | src/Console.cpp:110-117 | the tokenising loop computes the comma split of the rest of the input, the first token continuing the given one |
| Console.TokensOf | src/Console.cpp:96-117 | the tokens of an input, when there is no syntax error, are at least one |
| Console.EntryArgument | src/Console.cpp:147-169 | token k read with `stoll` if present: its value, or the fallback and the error message |
| Console.ParseRoundTrip | src/Console.cpp:77-186 | a command written as expression, selection, option and two 64-bit integers parses back to exactly those arguments |
| Console.PlainTokens | src/Console.cpp:96-117 | tokens free of ',' and '>' joined with commas tokenise back to themselves |
| Console.ParseOfFiveTokens | src/Console.cpp:122-169 | five tokens with a valid first argument and two integers are accepted as they are |
| Console.PlainDrawArg | src/Console.cpp:30-75 | a plain expression has no limits and is accepted, as a 2D histogram when it holds one ':' |
| Console.ParseCommand | src/Console.cpp:96-169 | tokenising, the first argument and the two integer arguments together give ParseSpec |
| Console.ParseSpec | src/Console.cpp:83-186 | an exception escapes only after the input was tokenised; a `>>(` with no closing `)` is the "Syntax error"; a parse is valid exactly when it leaves no error message, and a valid one has no limit error in its first argument |
| Console.IdentStart | src/Console.cpp:204-213 | the identifier at the end of the input starts here: everything after is an identifier character and the character before is not |
| Console.Matches | src/Console.cpp:215-223 | the branch names that start with the partial name, in order, and only those |
| Console.CommonPrefix | src/Console.cpp:229-234 | the common prefix of two strings prefixes both |
| Console.CommonPrefixIsLongest | src/Console.cpp:229-234 | a string prefixes the common prefix exactly when it prefixes both strings |
| Console.LcpIsLongest | src/Console.cpp:229-234 | a string prefixes the longest common prefix exactly when it prefixes every match |
| Console.LongestCommonPrefix | src/Console.cpp:229-234 | the shortening loop computes the longest common prefix of the matches |
| Console.CollectMatches | src/Console.cpp:215-223 | the matching loop computes Matches |
| Console.TrailingIdentifier | src/Console.cpp:204-213 | the backward scan finds IdentStart |
| Console.TabCompletionExtends | src/Console.cpp:195-242 | completion only extends the input, to the longest prefix shared by every branch name that starts with the trailing identifier |
| Console.TabCompletion | src/Console.cpp:195-242 | a completion happens only when the input ends in an identifier character; it keeps the text before the trailing identifier and puts something after it |
| Console.KeyStep | src/Console.cpp:244-316 | every key keeps the cursor within the input and the scrollback within the history (the corrected form of the two `src/Console.cpp` findings) |
| Console.KeyStepAgrees | src/Console.cpp:244-316 | apart from history recall and delete, the corrected editor does what the code as written does, on every well-formed state |
| Console.KeyStepAsWritten | src/Console.cpp:244-316 | the code as written throws exactly for a typed character with the cursor offset past the start of the input; otherwise the scrollback stays within the history, and a typed character lengthens the input by one |
| Console.HistoryRecallBreaksCursor | src/Console.cpp:268-289 | as written, recalling a shorter entry leaves the offset past the input and the next typed character makes `insert` throw |
| Console.DeleteAtEndBreaksCursor | src/Console.cpp:299-307 | as written, delete at the end drives the offset to -1 |
| Console.NonEmptyLines | src/Console.cpp:400-423 | the loaded history holds no empty line and no more lines than the file |
| Console.Console.constructor | src/Console.cpp:13-16 | an empty input, no command, an empty history and the given history size |
| Console.Console.Parse | src/Console.cpp:77-186 | an empty input clears `has_command` and returns false, leaving the last error, the arguments and the cursor as they were; otherwise the input is stripped and parsed as ParseSpec says; the result equals `has_command`; an accepted command joins the history unless it repeats the last entry |
| Console.Console.ParseInput | src/Console.cpp:83-186 | a non-empty input is stripped, read by ParseSpec and the outcome applied |
| Console.Console.ApplyOutcome | src/Console.cpp:122-183 | the arguments, error message, command flag and history take the parsed outcome |
| Console.Console.TabComplete | src/Console.cpp:195-242 | the input becomes TabCompletion's result when there is one and is kept otherwise |
| Console.Console.HandleInput | src/Console.cpp:244-316 | the editor moves as KeyStep says; nothing outside the editor changes |
| Console.Console.HistoryBack | src/Console.cpp:268-277 | KEY_UP moves as KeyStep says |
| Console.Console.HistoryForward | src/Console.cpp:278-289 | KEY_DOWN moves as KeyStep says |
| Console.Console.DeleteChar | src/Console.cpp:290-310 | backspace and delete move as KeyStep says |
| Console.Console.CursorMove | src/Console.cpp:322-326 | a position inside the input puts the cursor on that character; any other position leaves it |
| Console.Console.SetTabCompletionDict | src/Console.cpp:188-193 | the names are appended to the branch names |
| Console.Console.LoadCommandHistory | src/Console.cpp:400-423 | the history becomes the newest non-empty lines of the file, at most the history size of them |
| Menu.ExtentAsWritten | src/Menu.cpp:26-36 | `setMenuExtent` as written |
| Menu.Bottom | src/Menu.cpp:73-82 | `goBottom`: line plus scroll is the index of the last entry |
| Menu.BottomSelects | src/Menu.cpp:73-82 | going to the bottom selects the last entry, and from a valid position whenever there is an entry and a line |
| Menu.ExtentSelects | src/Menu.cpp:26-36 | after the corrected extent the selection is valid for the new extent, and a valid one is left alone |
| Menu.Extent | src/Menu.cpp:26-36 | the corrected extent, for every cursor: the selected line lies below the window height and the selected entry below the object count |
| Menu.ExtentAsWrittenKeepsLinePastWindow | src/Menu.cpp:29 | as written, a selected line equal to the window height survives, one line below the window |
| Menu.ExtentAsWrittenIgnoresScroll | src/Menu.cpp:32-34 | as written, a scrolled menu whose list shrinks keeps selecting an entry past the end |
| Menu.Menu.constructor | include/Menu.h:23-26 | the initialisers: line and scroll 0, no objects and no lines |
| Menu.Menu.SelectedEntryIndex | src/Menu.cpp:10-12 | on a valid menu the selected entry's index lies in [0, nObjects) |
| Menu.Menu.SetMenuExtent | src/Menu.cpp:26-36 | the extent is stored and the cursor moved as Extent says; the result is a valid selection |
| Menu.Menu.SetSelectedLine | src/Menu.cpp:38-40 | the selected line becomes the given one |
| Menu.Menu.MoveDown | src/Menu.cpp:42-55 | nothing at the last entry; otherwise the selected entry advances by one, scrolling at the window's end; validity is kept |
| Menu.Menu.MoveUp | src/Menu.cpp:57-66 | on the top line the menu scrolls back if it can, otherwise the line moves up; the selected entry goes back by one, not below 0 |
| Menu.Menu.GoTop | src/Menu.cpp:68-71 | line and scroll both become 0 |
| Menu.Menu.GoBottom | src/Menu.cpp:73-82 | the cursor moves to Bottom and the last entry is selected |
| RootFile.ListedAfter | src/RootFile.cpp:100-114 | opening sets LISTED and closing toggles it |
| RootFile.Reopen | src/RootFile.cpp:100-114 | a child as `recurseOpen` leaves it: only its LISTED bit changes, and its children too when it is an open container |
| RootFile.RecursedChildren | src/RootFile.cpp:100-114 | `recurseOpen` keeps the node and replaces its children by their reopened forms |
| RootFile.Toggled | src/RootFile.cpp:93-98 | a click keeps the tree's size; what it opens and lists is stated by ToggleOpenShows |
| RootFile.RecurseOpen | src/RootFile.cpp:100-114 | the loop over the children computes RecursedChildren |
| RootFile.ReopenChild | src/RootFile.cpp:103-113 | one pass of the loop computes Reopen |
| RootFile.ToggleOpenOnClick | src/RootFile.cpp:93-98 | a click computes Toggled |
| RootFile.OpeningListsAll | src/RootFile.cpp:100-114 | opening lists every child and everything below an open child |
| RootFile.ClosingUnlistsAll | src/RootFile.cpp:100-114 | closing a container whose contents were all listed unlists every child and everything below an open child |
| RootFile.ToggleOpenShows | src/RootFile.cpp:93-114 | a click on a container flips DIR_OPEN and keeps its own LISTED bit; opening lists everything reachable below it |
| RootFile.OpenThenCloseHides | src/RootFile.cpp:93-114 | opening then closing a closed container hides everything below it again |
| RootFile.LastContainer | src/RootFile.cpp:210-224 | the index of a container child, with no container after it |
| RootFile.OpenObvious | src/RootFile.cpp:210-224 | the descent keeps the tree's size, the node's own flags and its number of children |
| RootFile.OpenObviousTouchesOnlyTheChild | src/RootFile.cpp:210-224 | with exactly one container child, that child is toggled and descended into and every other child is unchanged |
| RootFile.OpenObviousDirectory | src/RootFile.cpp:210-224 | the counting loop, then the descent, compute OpenObvious |
| RootFile.DisplayListCoversTree | src/RootFile.cpp:32-55 | the display list has one entry per node, and every entry's path leads to a node of the entry's name |
| RootFile.FlattenFromCount | src/RootFile.cpp:32-55 | flattening children yields as many entries as they have nodes |
| RootFile.CountShown | src/RootFile.cpp:73-91 | `menuLength` counts the shown entries and is at most the list's length |
| RootFile.NthShownInRange | src/RootFile.cpp:57-91 | the i-th shown entry exists exactly for 0 <= i < menuLength |
| RootFile.NthShown | src/RootFile.cpp:57-71 | the entry returned is one shown in the current mode |
| RootFile.ToString | src/RootFile.cpp:133-140 | "(class) name", then the quoted title when it says more than the name, then a tree's entry count |
| RootFile.RootFile.constructor | src/RootFile.cpp:185-200 | a file with its tree and an empty display list |
| RootFile.RootFile.PopulateMenu | src/RootFile.cpp:25-30 | the display list becomes the root followed by its subtree in pre-order |
| RootFile.RootFile.AppendEntries | src/RootFile.cpp:32-55 | the recursive `populateMenu` appends the flattened children |
| RootFile.RootFile.MenuLength | src/RootFile.cpp:73-91 | `menuLength` computes CountShown |
| RootFile.RootFile.GetEntry | src/RootFile.cpp:57-71 | `getEntry` computes NthShown |
| RootFile.RootFile.OpenRoot | src/RootFile.cpp:196-199 | loading lists the root, opens it and then opens the obvious directories |
| EarlyDefinitions.EarlyGlyph | definitions.h:91-120 | the glyph of a code: nothing for a code outside the map or an index past the glyph array |
| EarlyDefinitions.EarlyTablesAreCurrent | definitions.h:27-120 | the earlier 2x2 and 3x2 maps and glyph tables are the ones the current revision keeps |
| EarlyDefinitions.EarlyFillCodeHasGlyph | definitions.h:91-120 | every early fill pattern has a code in the map, and only the empty pattern lacks a visible glyph |
| EarlyDefinitions.EarlyColourLayout | definitions.h:122-125 | seven UI colours, then 26 greys where the current revision starts its palette |
| EarlyAxis.EarlyLinearTicks | AxisTicks.cpp:7-112 | the earlier constructor on values: the same bounds and ticks as the current one, factored with the exponent always kept, so the factored values give back the ticks |
| EarlyAxis.EarlyFactorTicks | AxisTicks.cpp:40-112 | the factoring half, with no sentinel reset |
| EarlyAxis.AxisTicks.constructor | AxisTicks.cpp:7-112 | the adjusted bounds, the edges, the integer flag and exponent, and decimal labels for integer ticks |
| EarlyAxis.AxisTicks.Min | AxisTicks.cpp:114-116 | `min()` lies below `max()` |
| EarlyAxis.AxisTicks.Max | AxisTicks.cpp:118-120 | `max()` is at most `max_adjusted()` |
| EarlyAxis.AxisTicks.MinAdjusted | AxisTicks.cpp:122-124 | `min_adjusted()` is at or below the minimum and is the first tick |
| EarlyAxis.AxisTicks.MaxAdjusted | AxisTicks.cpp:126-128 | `max_adjusted()` is at or above the maximum and is the last tick |
| EarlyBrowser.WriteSuperscript | Browser.cpp:24-35 | the Unicode build raises each character of the decimal text, and the plain build writes the decimal text |
| EarlyBrowser.EarlyProbe | Browser.cpp:394-398 | the probe of a 2x2 cell fits in four bits |
| EarlyBrowser.EarlyProbeIsProbe | Browser.cpp:394-398 | the early probe is the current plot's block-mode-2 probe |
| EarlyBrowser.EarlyProbeDrawn | Browser.cpp:375-417 | every early probe is a map key, a non-empty one has a glyph, and above an empty cell every cell is empty |
| EarlyBrowser.SingleValueRangeAsWritten | Browser.cpp:231-235 | the single-value fix as written: the maximum is taken from the already lowered minimum |
| EarlyBrowser.SingleValueOnUpperEdge | Browser.cpp:231-235 | as written, values all equal to 5 get the range [4, 5] with 5 on the excluded upper edge; the intended [4, 6] contains it |
| EarlyBrowser.TickPositions | Browser.cpp:461-471 | each tick position is its factored value times 10^E |
| EarlyBrowser.TickColumns | Browser.cpp:461-471 | the columns of the ticks, in order |
| EarlyBrowser.MarkRowMarks | Browser.cpp:461-471 | a column shows '+' exactly when some tick marks it, and '-' otherwise |
| EarlyBrowser.EndTicksMarked | Browser.cpp:450-508 | on an exactly factored axis the first and last columns are marked |
| EarlyBrowser.TickPositionsExact | Browser.cpp:461-471 | exactly factored values are placed at the ticks |
| EarlyBrowser.TickMarks | Browser.cpp:461-471 | the tick loop fills a fresh buffer with MarkRow of the tick columns |
| EarlyConsole.EarlyValidChar | Console.cpp:122-124 | `valid_char` accepts every code `validChar` accepts, and only codes whose low byte `validChar` accepts |
| EarlyConsole.EarlyValidCharWider | Console.cpp:122-124 | a key code above 255 whose low byte is allowed punctuation is accepted; F24 types a space |
| EarlyConsole.EarlyEditingKeysAreNotChars | Console.cpp:66-120 | no editing key is a valid character |
| EarlyConsole.EarlyParseSpec | Console.cpp:12-64 | the comma tokens fill the arguments in order; a bad fourth or fifth token keeps its default and sets the error |
| EarlyConsole.EarlyParseMatchesCurrent | Console.cpp:12-64 | without '>' and with at most one ':' the current parser gives the same validity, error and arguments, its default option aside |
| EarlyConsole.EarlyParseRoundTrip | Console.cpp:12-64 | five plain arguments joined with commas parse back to exactly those arguments |
| EarlyConsole.ReadEntry | Console.cpp:40-60 | one guarded `stoll` computes EntryArgument |
| EarlyConsole.EarlyKeyStepCursor | Console.cpp:66-120 | from a cursor within the input no key throws, and the cursor stays within the input except for backspace at the start and delete at the end |
| EarlyConsole.EarlyKeyStep | Console.cpp:66-120 | the earlier editor throws exactly for a typed character with the cursor offset past the start of the input |
| EarlyConsole.AsCurrent | Console.cpp:66-120 | a well-formed earlier editor is a well-formed current editor |
| EarlyConsole.EarlyKeyStepAgrees | Console.cpp:66-120 | for characters, escape, the arrows and the agreeing deletions the earlier editor does what the current one does |
| EarlyConsole.CharKeyAgrees | Console.cpp:67-74 | a typed character lands at the same place in both editors |
| EarlyConsole.EditingKeyAgrees | Console.cpp:75-118 | escape, the arrows and the agreeing deletions act alike in both editors |
| EarlyConsole.BackspaceErasesAfterCursor | Console.cpp:94-102 | backspace inside the input erases the character after the cursor; at the start it leaves the cursor past the input and the next character throws |
| EarlyConsole.DeleteAtEndLocksCursor | Console.cpp:84-111 | delete at the end drives the offset to -1, after which neither arrow moves and typing appends |
| EarlyConsole.EarlyConsole.constructor | Console.cpp:7-10 | an empty input and default arguments, with the cursor within the input |
| EarlyConsole.EarlyConsole.Parse | Console.cpp:12-64 | the input is stripped, the cursor reset and the arguments set as EarlyParseSpec says |
| EarlyConsole.EarlyConsole.HandleInput | Console.cpp:66-120 | failure exactly when `insert` throws, leaving the console as it was; otherwise the editor moves as EarlyKeyStep says and Enter parses |
| EarlyConsole.EarlyConsole.TypeChar | Console.cpp:67-74 | a printable key is inserted as EarlyKeyStep says, or refused when `insert` throws |
| EarlyConsole.EarlyConsole.EditKey | Console.cpp:75-118 | the editing keys move the editor as EarlyKeyStep says |
| EarlyRootFile.WithBit | RootFile.cpp:62-75 | a state bit is set or cleared and the other bit kept |
| EarlyRootFile.SetOpen | RootFile.cpp:62-75 | `setOpen` changes only the flags and keeps the node's data and number of children |
| EarlyRootFile.SetOpenAll | RootFile.cpp:62-75 | `setOpen` applied to every child, in order |
| EarlyRootFile.SetOpenAllUniform | RootFile.cpp:62-75 | with recurse > 0 every child is left uniformly in the new state |
| EarlyRootFile.SetOpenUniform | RootFile.cpp:62-75 | everything below takes the new state; a container called with recurse 0 keeps its own LISTED bit |
| EarlyRootFile.UniformShown | RootFile.cpp:7-37 | a uniformly open child is listed all the way down and a uniformly closed one is hidden all the way down |
| EarlyRootFile.SetOpenShows | RootFile.cpp:62-75 | opening lists everything below a container and closing hides everything below it |
| EarlyRootFile.WithBitTwice | RootFile.cpp:62-75 | setting a bit twice is setting it once |
| EarlyRootFile.SetOpenNode | RootFile.cpp:62-75 | the recursive method computes SetOpen |
| EarlyRootFile.SetOpenChildren | RootFile.cpp:66-72 | the loop over the children computes SetOpenAll |
| EarlyRootFile.EarlyToString | RootFile.cpp:77-100 | "(class) name", then more text exactly when the title differs from the name |
| EarlyRootFile.EarlyToStringAgrees | RootFile.cpp:77-100 | both descriptions agree except for an empty title (only the earlier one shows `""`) and a tree's entry count (only the current one shows it) |

## Left out

- **Drawing and input.** ncurses drawing, colours and input are not
  modelled, except for the main window's cells and the colour-pair
  numbers. Key codes are integer parameters.
- **ROOT objects.** `TFile`, `TTree`, `TH1` and `TAxis` are inputs:
  - the file tree is a `Node` value;
  - the histogram contents arrive as bin sequences;
  - `TAxis::GetBinLowEdge` is the `Edges` function.
- **File I/O.** The settings file, the history file and the history
  write-back in the console's destructor are left out. The loaded lines
  and the setting strings are parameters.
- **Floating point.** Doubles are modelled as exact reals. `log10` and
  `pow` enter as their mathematical values:
  - the step snapped from `log10` in `init_linear` is a parameter, as are
    `floor(log10)` and `ceil(log10)` of the log bounds;
  - `trunc(log10(a))` is `TruncLog10`.
- **Number formatting.** The `{:.7g}` text is a function parameter `format`.
- Axis.AxisTicks.TickColumn: the log-scale transform of histogram
  contents is not modelled. On a log axis the column is computed on the
  decade as given.
- Console.ValidChar: `isalnum` is modelled for the ASCII range only. A
  locale that accepts more bytes is not modelled.
- EarlyConsole.EarlyValidChar: `isalnum` is modelled for the ASCII range
  only. The earlier program calls `setlocale(LC_ALL, "")` at startup
  (`Main.cpp:44`), so a locale's extra alphanumeric bytes are not
  modelled.
- Console.Console.Parse: the draw option is modelled as the text of the
  third token. The program stores `tokens[2].c_str()` (`src/Console.cpp:146`),
  which points into a local token vector that is destroyed when `parse`
  returns. The stored `Option_t*` dangles, and reading it later is undefined.
- Console.ParseSpec: the option field holds the token's text, for the same
  reason as Console.Console.Parse.
- Console.ParseRoundTrip: the round trip is stated for the option's text,
  not for the dangling `Option_t*` the program keeps.
- Console.Console.HistoryBack: models the corrected editor. As written,
  `KEY_UP` keeps the cursor offset (`Console.KeyStepAsWritten`).
- Console.Console.HistoryForward: models the corrected editor. As written,
  `KEY_DOWN` keeps the cursor offset (`Console.KeyStepAsWritten`).
- Console.Console.DeleteChar: models the corrected editor. As written,
  delete with the cursor at the end moves the offset below 0
  (`Console.KeyStepAsWritten`).
- Browser.FileBrowser.constructor: `selected_pos` and `menu_scroll_pos`,
  which `src/Browser.cpp` uses, are not declared in `include/Browser.h`.
  The model starts them at 0, as `include/Menu.h:23-24` does for `Menu`.
- Menu.Menu.SetMenuExtent: models the corrected behaviour of the two
  `src/Menu.cpp` findings. The code as written is `Menu.ExtentAsWritten`.
- Console.Console.HandleInput: models the corrected editor of the two
  `src/Console.cpp` findings. The code as written is `Console.KeyStepAsWritten`.
- Browser.FileBrowser.PlotASCIIHistogram: the y-axis, the x-axis, the
  labels and the title are not modelled. Only the histogram cells are.
- **Early drawing.** The early `plotAxes` printing of labels and the
  magnitude is not modelled; only the tick-mark buffer (`TickMarks`) is.
- EarlyAxis.AxisTicks.constructor: requires min < max, which the
  earlier callers make sure of. The single-value fix at `Browser.cpp`
  is modelled separately.
- Browser.IsBranchChar: `isalnum` is modelled for the ASCII range only.
  The program calls `setlocale(LC_ALL, "")` (src/Browser.cpp:67), so
  under an 8-bit locale the bytes 128-255 that it counts as alphanumeric
  are accepted by the program and refused by the model.
- Console.Console.constructor: `command_history`, `historyScrollback`,
  `nCommandsParsed`, `historyFileName` and `max_history_size`, which
  `src/Console.cpp` uses, are not declared in `include/Console.h`. The
  model starts with an empty history, scrollback 0 and no commands parsed,
  and takes the maximum history size as a parameter.
- EarlyConsole.EarlyParseSpec: the three string arguments are modelled as
  the tokens' text, for the same reason as EarlyConsole.EarlyConsole.Parse.
- EarlyConsole.EarlyParseRoundTrip: the round trip is stated for the
  tokens' text, not for the dangling `c_str()` addresses the program keeps.
- EarlyConsole.EarlyConsole.Parse: the earlier revision stores
  `tokens[k].c_str()` for the first three arguments (`Console.cpp:36-38`).
  These addresses lie in a local token vector that is destroyed when
  `parse` returns. This model keeps the tokens' text instead.
- **The early header.** The early `Browser.cpp` refers to `ASCII_code`,
  `ascii_map` and `ascii`, which the early `definitions.h` does not
  declare. The model assumes they are the header's 2x2 tables
  (`BLOCKS_code_2x2`, `ascii_map_2x2`, `BLOCKS_2x2`).
- **The early RootFile header.** The early `RootFile.cpp` uses the node
  fields `open` and `directory_open` and the member `setOpen`, which the
  early `RootFile.h` does not declare (it declares `openState` and
  `toggleOpenOnClick`). The model takes `open` as the LISTED bit and
  `directory_open` as the DIR_OPEN bit of the current node.
- **Program plumbing.** Search mode, the tree walker over ROOT keys, the
  main loop, command-line handling and the remaining drawing code of
  `src/Browser.cpp` are not modelled.

## Findings

| source | as written | input that shows it | evidently intended | confidence | as-written member | corrected member |
|---|---|---|---|---|---|---|
| src/Console.cpp:268-289 | history recall replaces the input but keeps `curs_offset` | the input "abcdef" with the offset 5 (the cursor after 'a'), then KEY_UP to the only history entry "x", then typing 'a' | the cursor at the end of the recalled entry | not executed | Console.HistoryRecallBreaksCursor | Console.KeyStep |
| src/Console.cpp:299-307 | KEY_DC with `curs_offset == 0` erases the last character and decrements the offset to -1 | the input "ab", the cursor at the end, then KEY_DC | the offset stays 0 | not executed | Console.DeleteAtEndBreaksCursor | Console.KeyStep |
| src/Menu.cpp:29 | `selected_pos > nLines` keeps a line equal to the window height | 5 lines, the selected line 5 | `>=`: move to line 4 | not executed | Menu.ExtentAsWrittenKeepsLinePastWindow | Menu.ExtentSelects |
| src/Menu.cpp:32-34 | the entry fallback compares the line with the object count and ignores the scroll | 5 objects, 20 lines, the line 2 with the scroll 10 | select an existing entry | not executed | Menu.ExtentAsWrittenIgnoresScroll | Menu.ExtentSelects |
| Console.cpp:94-102 | backspace inside the input erases the character after the cursor | the input "abc" with the cursor after 'b', then backspace | erase 'b' | not executed | EarlyConsole.BackspaceErasesAfterCursor | Console.KeyStep |
| Console.cpp:84-111 | delete at the end drives the offset to -1, which locks both arrows | the input "ab" with the cursor at the end, then KEY_DC | the offset stays 0 | not executed | EarlyConsole.DeleteAtEndLocksCursor | Console.KeyStep |
| Browser.cpp:231-235 | the single-value fix sets `max = min + 1` after lowering `min` | all values 5 | the range [4, 6] | not executed | EarlyBrowser.SingleValueOnUpperEdge | Axis.CheckedRange |
| src/Browser.cpp:590-599 | the 2D plot's single-value fix sets `maxx = minx + 1` (and `maxy = miny + 1`) after lowering the minimum, as the earlier 1D plot did | all values v, any positive axis width | the range [v - 1, v + 1] | not executed | Browser.SingleValueOffAxis | Axis.CheckedRange |
