# gobadge in Dafny

A model of the decision and string logic of gobadge, a small Go tool that
makes a coverage badge. It reads a coverage value: either the `-value`
option, or the last whitespace-separated token of a coverage file. It maps
that value to a colour using two integer thresholds (`-yellow`, default 30;
`-green`, default 70), unless the `-color` option overrides it. Then it
fetches `https://img.shields.io/badge/<label>-<coverage>-<colour>` and saves
the answer to the target file.

Modules, one per piece of `gobadge.go`:

- `GoStrings` (`go_strings.dfy`) models the two Go library calls the tool
  depends on. `Fields` is `strings.Fields`, with white space as
  `unicode.IsSpace` defines it. `RemoveFirst` is `strings.Replace(s, "%", "", 1)`.
- `GoFloat` (`go_float.dfy`) models float64 values as `strconv.ParseFloat`
  returns them, including the two infinities and NaN. It also states the
  convention `ParseFloatConvention`: a syntax error comes with the value 0,
  and a range error comes with an infinity.
- `Color` (`color.dfy`) models `setColor`.
- `Coverage` (`coverage.dfy`) models `retrieveTotalCoverage`, plus the choice
  in `generateBadge` between the `value` override and the file.
- `Shields` (`shields.dfy`) models the URL that `saveSvg` builds, and a
  splitter that reads such a URL back.
- `Badge` (`badge.dfy`) models `generateBadge` up to the request it would
  send.

The model takes three collaborators as function parameters:

- `parse` stands for `strconv.ParseFloat`. It returns the value and the
  error, and the code uses only the value.
- `escape` stands for `url.QueryEscape`.
- `fs` stands for opening and reading a file (`os.Open` followed by
  `ioutil.ReadAll`). It maps a path to the file's text or to the error.

The Go struct field `label` is called `text` here, because `label` is a
Dafny keyword. The name `text` is also the name of the command-line flag.

Two behaviours of the code that are easy to misread:

- `setColor` removes the first `%` wherever it occurs, not only a trailing
  one. For example, `"%85"` is read as `85`. `PercentStripped` states this.
- `retrieveTotalCoverage` indexes `words[len(words)-1]` without checking that
  the file has a token. An empty or all-white-space file therefore panics
  (see Findings). `RetrieveTotalCoverageAsWritten` models that code with a
  precondition. The composed model (`ResolveCoverage`, `GenerateBadge`) uses the
  corrected `RetrieveTotalCoverage`, which reports `EmptyInput` instead.

## Model

| member | source | states |
|---|---|---|
| GoStrings.IsSpace | gobadge.go:111 | the white space `strings.Fields` splits on (`unicode.IsSpace`): the Latin-1 spaces and the Unicode White_Space code points, none above U+3000 |
| GoStrings.AsciiSpaces | gobadge.go:111 | among ASCII characters the white space is exactly tab, newline, vertical tab, form feed, carriage return and space |
| GoStrings.Fields | gobadge.go:111 | every field is a non-empty run of non-space characters; the list is empty exactly when the content has no non-space character |
| GoStrings.LastFieldIsLastWord | gobadge.go:111-112 | the last field is the last maximal run of non-space characters: preceded by a space or the start, followed only by white space |
| GoStrings.IsLastWordUnique | gobadge.go:111-112 | a content has at most one last run, so the extracted token is determined by the content |
| GoStrings.LastField | gobadge.go:112 | defined only when the content has a non-space character; the result is a word and the content's last run |
| GoStrings.RemoveFirst | gobadge.go:83 | without `%` the string is unchanged; otherwise exactly one `%` is removed (one character shorter, same multiset minus one `%`) |
| GoStrings.RemoveFirstInverse | gobadge.go:83 | only the first `%` goes: removing it from `p + "%" + q`, with `p` free of `%`, gives `p + q`, and any later `%` in `q` is kept |
| GoStrings.FirstIndexAfter | gobadge.go:83 | the first occurrence of a character after a prefix that lacks it is at the prefix's length |
| GoFloat.ParseFloatConvention | gobadge.go:83 | what `strconv.ParseFloat` returns next to an error, the value `setColor` keeps while discarding the error: 0 for a syntax error, an infinity for a range error, hence never NaN |
| GoFloat.AtLeast | gobadge.go:87-90 | `value >= float64(threshold)`: +inf passes every threshold, -inf and NaN pass none, a finite value passes exactly when it is at least the threshold |
| GoFloat.AtLeastMonotone | gobadge.go:87-90 | `value >= float64(threshold)` holds for a larger value and a smaller threshold once it holds |
| Color.CoverageNumber | gobadge.go:83 | the number compared: the parse of the coverage itself when it has no `%`, otherwise the parse of the text around its first `%`; the parse error is discarded |
| Color.Classify | gobadge.go:87-93 | for all thresholds: brightgreen iff value >= green (the green test runs first, so it wins even when yellow > green); red iff the value passes neither threshold |
| Color.SetColor | gobadge.go:82-94 | a non-empty override colour is returned verbatim whatever the coverage and thresholds; otherwise the result is one of `brightgreen`, `yellow`, `red` |
| Color.ClassifyBands | gobadge.go:87-93 | with yellow <= green: brightgreen iff value >= green, yellow iff yellow <= value < green, red iff value < yellow |
| Color.YellowUnreachableWhenInverted | gobadge.go:87-92 | with yellow > green: brightgreen iff value >= green, red otherwise; yellow is never chosen |
| Color.ClassifyMonotone | gobadge.go:87-93 | a larger value never gets a lower tier (red < yellow < brightgreen), whatever the thresholds |
| Color.ClassifyAntitoneInThresholds | gobadge.go:87-93 | raising either threshold never raises the tier of a value |
| Color.SetColorTier | gobadge.go:82-94 | without an override, the colour is the name of a tier of the parsed coverage: brightgreen iff value >= green for all thresholds, red iff it passes neither threshold, and with ordered thresholds red iff value < yellow |
| Color.PercentStripped | gobadge.go:83 | the number compared is the parse of the coverage with its first `%` removed |
| Color.TrailingPercent | gobadge.go:83 | a trailing `%` after a `%`-free number does not change the parsed value |
| Color.MalformedCoverage | gobadge.go:83-93 | coverage that fails to parse reads as 0: red when 0 is below both thresholds, brightgreen when green <= 0 |
| Color.OutOfRangeCoverage | gobadge.go:83-93 | a number out of float64 range reads as an infinity, so the colour is brightgreen or red |
| Color.GreenExample | gobadge.go:82-94 | "85%" with thresholds 30/70 is brightgreen |
| Color.YellowExample | gobadge.go:82-94 | "50%" with thresholds 30/70 is yellow |
| Color.RedExample | gobadge.go:82-94 | "10%" with thresholds 30/70 is red |
| Color.MalformedExample | gobadge.go:82-94 | "not-a-number" with thresholds 30/70 is red; the override "purple" wins over it |
| Coverage.RetrieveTotalCoverageAsWritten | gobadge.go:96-115 | the code as written: requires at least one field; an open or read error is returned unchanged; otherwise the result is the content's last run of non-space characters |
| Coverage.EmptyContentIndexesMinusOne | gobadge.go:111-112 | for every content without a non-space character (empty or all white space) the index `len(words)-1` is -1 |
| Coverage.RetrieveTotalCoverage | gobadge.go:96-115 | open and read errors pass through unchanged; the result is `EmptyInput` iff the content has no non-space character; a content with one succeeds, and a success is the content's last run |
| Coverage.RetrieveAgreesWithAsWritten | gobadge.go:96-115 | on every input where the code as written does not panic, the corrected extraction returns the same value or the same error |
| Coverage.TotalLineExample | gobadge.go:111-114 | a file holding "total: 73.5%\n" yields "73.5%" |
| Coverage.ResolveCoverage | gobadge.go:60-68 | a non-empty `value` is the coverage; otherwise the result is the extraction's, success or error (including `EmptyInput`) unchanged, and a success is the file's last run |
| Coverage.OverrideSkipsExtraction | gobadge.go:60-64 | with a non-empty `value` the result does not depend on the file system at all, so extraction is not consulted |
| Shields.BadgeUrl | gobadge.go:117-120 | the URL starts with `https://img.shields.io/badge/`, ends with the colour verbatim (unescaped), and its length is the sum of the parts and two dashes |
| Shields.SplitBadgePath | gobadge.go:120 | a path splits into dash-free label and message and a colour that join back to the path |
| Shields.SplitBadgeUrl | gobadge.go:120 | a URL that splits consists of the fixed prefix followed by the joined path |
| Shields.JoinSplit | gobadge.go:120 | cutting a path at two dashes and joining the pieces gives the path back |
| Shields.SplitBadgePathJoin | gobadge.go:120 | dash-free label and message are recovered from the joined path |
| Shields.BadgeUrlRoundTrip | gobadge.go:118-120 | when the escaped label and coverage contain no dash, the URL splits back into exactly escape(label), escape(coverage) and the colour |
| Shields.BadgeUrlInjective | gobadge.go:118-120 | under that condition, and with an escape that is injective on the inputs, equal URLs mean equal label, coverage and colour |
| Shields.DashInLabelIsAmbiguous | gobadge.go:118-120 | when a dash survives escaping, label "a-b" with coverage "c" gives the same URL as label "a" with coverage "b-c" |
| Badge.GenerateBadge | gobadge.go:56-80 | a coverage error is returned unchanged; a resolved coverage always yields a request carrying that coverage; a `value` override always succeeds with that coverage; the request targets the given file |
| Badge.RequestCarriesBadge | gobadge.go:56-71 | a successful request's coverage is the resolved coverage; on every path (file or `value` override) and for every escape its URL is exactly the badge URL of escape(label), escape(coverage) and the colour `setColor` picks for that coverage; it starts with `https://img.shields.io/badge/` and ends with exactly the colour `setColor` picks for that coverage (the override when given), unescaped; for dash-free escapes the URL splits back into the escaped label, the escaped coverage and that colour |
| Badge.ReadableSourceSucceeds | gobadge.go:56-71 | with no `value` and a coverage file holding a token, the run succeeds; the coverage is the file's last token and the URL is the badge of that coverage in its `setColor` colour |
| Badge.LinkIgnored | gobadge.go:56-80 | the `link` option has no effect on the request |
| Badge.ValueAndColorOverride | gobadge.go:60-71 | with `value` "42%" and `color` "red", whatever the file system holds, the request is the red badge for 42% |
| Badge.UnreadableSourceFails | gobadge.go:60-68 | with no `value`, a file that cannot be opened or read fails the run with that same error |

## Left out

- Badge.GenerateBadge: on an empty or all-white-space coverage file it returns `EmptyInput`, where the code as written panics at gobadge.go:112 (see Findings).
- `main` and flag parsing (gobadge.go:29-54) are not modelled. `Badge.Params` is the value they produce.
- `os.Open`, `ioutil.ReadAll` and closing the file (gobadge.go:98-110) are one parameter, `fs`, from a path to text or an error.
- The UTF-8 decoding in `string(b)` is not modelled. The model starts from decoded characters.
- `http.Get`, `os.Create`, `io.Copy` and their `log.Fatal` exits (gobadge.go:122-138) are left out. This is the network and file output. `GenerateBadge` returns the request it would make.
- The console messages (gobadge.go:77, 100, 108) are left out.
- The internals of `strconv.ParseFloat` are a parameter. This covers its grammar and its rounding to the nearest float64. Finite values are exact reals. The `bitSize` of 4 selects float64 in Go and has no other effect.
- Color.SetColor: the conversion `float64(threshold)` is taken as exact. Go's 64-bit `int` rounds above 2^53, and thresholds here are unbounded integers.
- The internals of `url.QueryEscape` are a parameter. Shields.BadgeUrlRoundTrip therefore assumes the escaped parts contain no dash. `url.QueryEscape` does not escape `-`, so a label or coverage containing a dash makes the URL ambiguous (see `DashInLabelIsAmbiguous`).

## Findings

| source | as written | input that shows it | evidently intended | confidence | as-written member | corrected member |
|---|---|---|---|---|---|---|
| gobadge.go:111-112 | `words[len(words)-1]` indexes the field list without checking that it is non-empty | a coverage file that is empty or only white space, e.g. "" or "\n": `strings.Fields` gives no field and the index is -1, a run-time panic | report an empty-input error like the other read failures | not executed; high | Coverage.RetrieveTotalCoverageAsWritten (with Coverage.EmptyContentIndexesMinusOne) | Coverage.RetrieveTotalCoverage (agreement: Coverage.RetrieveAgreesWithAsWritten) |
