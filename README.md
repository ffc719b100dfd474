# Viewer utility functions in Dafny

This project models the number-formatting and unit-conversion helpers of the
spectrum viewer (`viewer/js/utility-functions.js`) and proves properties of
them.

- **Magnitude prefixes** (`magnitude.dfy`, module `Magnitude`). This covers
  `valueToMagnitude`, `valueToSmallMagnitude` and `hzToHuman`. Each picks an
  SI prefix from a fixed table of (exponent, prefix) rows. The table is
  scanned from its last row down, and the scan stops at the first row whose
  threshold 10^exponent the absolute value meets. The absolute value is then
  divided by that threshold, the sign is put back, and the label
  `"<number> <prefix><unit>"` is built.
  - The scan is a `while` loop with `break` (`FindLastMet`). It is proved
    equal to the specification function `LastMet`, which is characterised
    by what it selects.
  - The selection and scaling are `Scale`/`ScaleAt`. The lemmas state what
    they display: the round trip `number * 10^exponent == value`, the range
    [1, 1000), which prefix is chosen, and the sign.
- **Powers of ten** (`powers.dfy`, module `Powers`). `Math.pow(10, e)` is
  modelled for integer exponents as exact rationals, with lemmas for the
  ×1000 step between table rows and for monotonicity.
- **Frequency and wavelength** (`wavelength.dfy`, module `Wavelength`). This
  covers `SPEED_OF_LIGHT`, `frequencyToWavelength` and
  `wavelengthToFrequency`. The lemmas prove that each is the inverse of the
  other and that wavelength decreases as frequency rises.
- **Thousands grouping** (`spacify.dfy`, module `Spacify`). This covers
  `spacify`, on the text of the number.
  - `String.split` and `Array.join` become `Split` and `Join`.
  - The integer-part regular expression `/(\d)(?=(\d{3})+$)/g` becomes
    `GroupThousands`, which checks the lookahead at every position.
  - The fraction-part expression `/(\d{3})/g` becomes `GroupTriples`, which
    matches leftmost.
  - The method `Spacify` builds the part array, overwrites elements 0 and 1
    in place and joins them. It is proved equal to `SpacifyText`.
  - The lemmas prove that the integer replacement is exact thousands
    notation (`Chunks`), that the fraction grouping only inserts spaces, that
    split and join are inverse, and how the length-five thresholds behave.

The host's number-to-text conversions (`Number.prototype.toString` and
`toFixed`) are not part of this model. They are a parameter of type
`Magnitude.NumberFormat`, so every label is stated in terms of the text
they give.

`valueToSmallMagnitude` has no comment of its own. Its body is a copy of
`valueToMagnitude`, whose comment promises "the appropriate SI magnitude
prefix". Over that function's ascending table, the scan from the last row
down picks the largest threshold the value meets. The copy keeps the same
scan, but its table descends, so the scan picks the smallest threshold met
(yocto for almost every value). The model follows the code as written. The
intent inferred from the sibling function, the largest applicable prefix,
is also modelled, as the corrected half of the findings below.

## Model

| member | source | states |
|---|---|---|
| Powers.Pow10 | viewer/js/utility-functions.js:37 | `Math.pow(10, e)` is positive, and at least one exactly when e >= 0 |
| Powers.Pow10Step | viewer/js/utility-functions.js:19-28 | neighbouring table rows, three exponents apart, have thresholds a factor 1000 apart, also across exponent 0 |
| Powers.Pow10StrictlyIncreasing | viewer/js/utility-functions.js:36-41 | a < b implies 10^a < 10^b, so the table order is the threshold order |
| Magnitude.Sign | viewer/js/utility-functions.js:33-34 | the sign is -1 or 1, and sign times absolute value is the value (zero counts as positive) |
| Magnitude.LastMet | viewer/js/utility-functions.js:36-41 | the scan's stop: no later row's threshold is met, and the chosen row's threshold is met, or the index is 0 when no row is met |
| Magnitude.FindLastMet | viewer/js/utility-functions.js:36-41 | the downward loop with `break` returns exactly `LastMet` |
| Magnitude.ScaleAndLabel | viewer/js/utility-functions.js:33-50 | sign, absolute value, scan, divide, restore sign and text give the label of `Scale` for the given places |
| Magnitude.ValueToMagnitude | viewer/js/utility-functions.js:16-51 | the label is the number of `Scale(LargeUnits, value)`, one space, the prefix and the unit |
| Magnitude.ValueToSmallMagnitude | viewer/js/utility-functions.js:54-90 | the same over the small table as written |
| Magnitude.HzToHuman | viewer/js/utility-functions.js:4-6 | `valueToMagnitude` with the unit "Hz" |
| Magnitude.ScaleAtRoundTrip | viewer/js/utility-functions.js:42-44 | number times 10^exponent gives the value back, and the number is negative (or zero) exactly when the value is |
| Magnitude.ScaleAtMagnitude | viewer/js/utility-functions.js:42-44 | the displayed magnitude is the absolute value divided by the threshold |
| Magnitude.ScaleAtInRange | viewer/js/utility-functions.js:42-44 | a value between a threshold and 1000 times it displays a number in [1, 1000) |
| Magnitude.LargeExponents | viewer/js/utility-functions.js:19-28 | row i of the large table has exponent 3i |
| Magnitude.LargeScaleInRange | viewer/js/utility-functions.js:33-44 | for 1 <= abs(value) < 10^24 the displayed number has magnitude in [1, 1000) |
| Magnitude.LargeBelowOneUnscaled | viewer/js/utility-functions.js:17-42 | below one no threshold is met, the index stays 0 and the value is shown as it is, with no prefix |
| Magnitude.LargeYottaFrom21 | viewer/js/utility-functions.js:27-42 | from 10^21 up the prefix is always "Y" and the number is value / 10^21 |
| Magnitude.LargeIndexOf | viewer/js/utility-functions.js:36-41 | row i is chosen when 10^(3i) <= v < 10^(3i+3), or when i is the last row and v >= 10^21 |
| Magnitude.ExampleThousand | viewer/js/utility-functions.js:36-44 | 1000 displays as 1 "k" |
| Magnitude.ExampleBelowThousand | viewer/js/utility-functions.js:36-44 | 999 displays as 999 with no prefix |
| Magnitude.ExampleNegative | viewer/js/utility-functions.js:33-44 | -1500 displays as -1.5 "k" |
| Magnitude.ExampleMega | viewer/js/utility-functions.js:36-44 | 5000000 displays as 5 "M" |
| Magnitude.SmallThresholdsAtLeastYocto | viewer/js/utility-functions.js:57-67 | every row of the small table has threshold at least 10^-24 |
| Magnitude.SmallScaleAsWritten | viewer/js/utility-functions.js:72-81 | as written, every abs(value) >= 10^-24 takes the last row, "y", and anything smaller is shown unscaled with no prefix |
| Magnitude.SmallScaleOverflows | viewer/js/utility-functions.js:75-81 | as written, every abs(value) >= 10^-21 is shown with "y" and a number of at least 1000 |
| Magnitude.SmallPrefixDuplicated | viewer/js/utility-functions.js:61-63 | the small table's rows for -9 and -15 both carry the prefix "n", so two different exponents share one prefix |
| Magnitude.SmallIntendedExponents | viewer/js/utility-functions.js:57-67 | row i of the corrected small table has exponent -3i |
| Magnitude.IntendedSmallPrefixesDistinct | viewer/js/utility-functions.js:57-67 | in the corrected table no two rows share a prefix |
| Magnitude.FirstMet | viewer/js/utility-functions.js:75-80 | the corrected scan's stop: no earlier row is met, and the chosen row is met, or the index is 0 when none is |
| Magnitude.FindFirstMet | viewer/js/utility-functions.js:75-80 | the upward loop with `break` returns exactly `FirstMet` |
| Magnitude.ScaleAndLabelLargest | viewer/js/utility-functions.js:72-89 | the corrected body gives the label of the row chosen by `FirstMet` |
| Magnitude.ValueToSmallMagnitudeIntended | viewer/js/utility-functions.js:54-90 | the corrected small-magnitude label over the corrected table |
| Magnitude.IntendedSmallScaleInRange | viewer/js/utility-functions.js:75-81 | corrected: for 10^-24 <= abs(value) < 1 the row is the largest one met, and the number is in [1, 1000) |
| Magnitude.IntendedSmallOutsideUnscaled | viewer/js/utility-functions.js:55-81 | corrected: values of at least 1 and values below 10^-24 are shown as they are, with no prefix |
| Wavelength.FrequencyToWavelength | viewer/js/utility-functions.js:95-97 | wavelength times frequency is the speed of light, and the wavelength is positive exactly when the frequency is |
| Wavelength.WavelengthToFrequency | viewer/js/utility-functions.js:102-104 | frequency times wavelength is the speed of light, and the frequency is positive exactly when the wavelength is |
| Wavelength.WavelengthRoundTrip | viewer/js/utility-functions.js:95-104 | wavelength to frequency and back gives the wavelength |
| Wavelength.FrequencyRoundTrip | viewer/js/utility-functions.js:95-104 | frequency to wavelength and back gives the frequency |
| Wavelength.WavelengthDecreasing | viewer/js/utility-functions.js:95-97 | a higher positive frequency has a strictly shorter wavelength |
| Wavelength.OneMetre | viewer/js/utility-functions.js:2 | c hertz corresponds to one metre, in both directions |
| Spacify.Split | viewer/js/utility-functions.js:113 | `split('.')` gives at least one part, none containing the delimiter, and one part exactly when there is no delimiter |
| Spacify.JoinSplit | viewer/js/utility-functions.js:113-120 | joining the split parts with the delimiter gives the text back |
| Spacify.SplitJoin | viewer/js/utility-functions.js:113-120 | splitting joined delimiter-free parts gives the parts back |
| Spacify.JoinContains | viewer/js/utility-functions.js:120 | between delimiter-free parts, the join holds the delimiter exactly when there are two or more parts |
| Spacify.Chunks | viewer/js/utility-functions.js:114-116 | thousands groups: a leading group of 1 to 3 digits, then groups of 3, which together spell the digits |
| Spacify.GroupThousandsIsChunks | viewer/js/utility-functions.js:115 | on digits the integer replacement is the groups of `Chunks` with the separator between them |
| Spacify.GroupThousandsShort | viewer/js/utility-functions.js:115 | the integer replacement leaves three characters or fewer unchanged |
| Spacify.NegativeGroupThousands | viewer/js/utility-functions.js:115 | a leading '-' is copied and the digits after it are grouped |
| Spacify.GroupThousandsAvoids | viewer/js/utility-functions.js:115 | the integer replacement adds no character absent from the text and the separator |
| Spacify.GroupTriplesLayout | viewer/js/utility-functions.js:118 | on digits the fraction replacement keeps every digit in order at j + j/3 and puts a space after each full triple |
| Spacify.GroupTriplesShort | viewer/js/utility-functions.js:118 | fewer than three characters are left unchanged |
| Spacify.TrailingSpace | viewer/js/utility-functions.js:118 | a fraction whose length is a multiple of three ends in a space |
| Spacify.GroupTriplesWithoutSpaces | viewer/js/utility-functions.js:118 | deleting the spaces from the grouped fraction gives the digits back |
| Spacify.GroupTriplesAvoids | viewer/js/utility-functions.js:118 | the fraction replacement adds no character other than a space |
| Spacify.Spacify | viewer/js/utility-functions.js:112-121 | splitting, overwriting parts 0 and 1 in place and joining gives `SpacifyText` |
| Spacify.SpacifyWhole | viewer/js/utility-functions.js:113-116 | text without '.' is grouped when it is five characters or longer and otherwise left as it is |
| Spacify.SpacifyDigits | viewer/js/utility-functions.js:114-116 | digits of length five or more come out in thousands notation, shorter ones unchanged |
| Spacify.SpacifyNegative | viewer/js/utility-functions.js:114-116 | with a leading '-' the sign counts toward the length, so four digits are already grouped |
| Spacify.SplitDecimal | viewer/js/utility-functions.js:113 | text with one '.' splits into the integer and the fraction part |
| Spacify.SpacifyDecimal | viewer/js/utility-functions.js:112-121 | with one '.', the result is the grouped integer part, '.', and the grouped fraction part |
| Spacify.SpacifyKeepsDot | viewer/js/utility-functions.js:110-120 | with a separator free of '.', the result holds '.' exactly when the input does |
| Spacify.SpacifyExampleShort | viewer/js/utility-functions.js:114 | "1234" is left as it is |
| Spacify.SpacifyExampleLong | viewer/js/utility-functions.js:114-116 | "12345" becomes "12,345" |
| Spacify.SpacifyExampleNegative | viewer/js/utility-functions.js:114-116 | "-1234" becomes "-1,234" |
| Spacify.SpacifyExampleFraction | viewer/js/utility-functions.js:114-120 | "1234.12345" becomes "1234.123 45", with a space and not the separator in the fraction |

## Left out

- `Number.prototype.toString` and `toFixed` are host code. They are the parameter `NumberFormat`, so the digits, the rounding and the `RangeError` of `toFixed` for out-of-range places are not modelled. `spacify` takes the number's text, the output of `toString`, as its input.
- Magnitude.ValueToMagnitude: the model uses exact reals, not IEEE-754 doubles. The rounding of `Math.pow` and of the division, NaN, the infinities and the sign of -0 are not modelled. The same holds for ValueToSmallMagnitude, HzToHuman and ScaleAndLabel.
- Magnitude.ValueToMagnitude: `fixedPlaces` is `Option<nat>`. The source sends any value other than `undefined` to `toFixed`, including `null` and non-integers; those inputs are not modelled.
- Wavelength.FrequencyToWavelength: the argument must be non-zero. The source returns an infinity for zero, which a real number cannot represent. The same holds for Wavelength.WavelengthToFrequency.
- Spacify.Spacify: the separator is inserted literally. JavaScript would expand `$` patterns (`$&`, `$1` and so on) that the separator itself contains, and this model does not.
- Spacify.Spacify: characters are Dafny `char`s, whereas JavaScript strings are UTF-16 code units. Only ASCII digits count as `\d`, as in JavaScript.

## Findings

| source | as written | input that shows it | evidently intended | confidence | as-written member | corrected member |
|---|---|---|---|---|---|---|
| viewer/js/utility-functions.js:75-80 | the small table is in descending exponent order but is scanned from its last row, yocto, so the first row met is always the smallest prefix | 0.001 is shown as 10^21 "y" instead of 1 "m"; every abs(value) >= 10^-21 gets "y" and a number of at least 1000 | the largest prefix whose threshold is met, giving a number in [1, 1000) | not executed | Magnitude.SmallScaleOverflows | Magnitude.IntendedSmallScaleInRange |
| viewer/js/utility-functions.js:63 | the row for exponent -15 carries the prefix "n", already used for -9 | once the scan is corrected, 2·10^-15 would read "2 n…", which means 2·10^-9 | femto, "f", at -15 | not executed | Magnitude.SmallPrefixDuplicated | Magnitude.IntendedSmallPrefixesDistinct |
